/**
 The fixed-size ring buffer: `length` slots of which at most `length - 1` are in use, with `read` at
 the oldest item and `write` at the next free slot. It behaves as a bounded double-ended queue.
 */
module RingBuffer {

  // ---------------------------------------------------------------------------
  // The bounded queue: the oldest item first
  // ---------------------------------------------------------------------------

  datatype Call<T> = PushFront(item: T) | PopBack | PopFront | Back | Front | Empty

  datatype Reply<T> = Done | Item(item: T) | IsEmpty(empty: bool)

  /** A full queue forgets its oldest item. */
  function Pushed<T>(q: seq<T>, item: T, capacity: nat): (r: seq<T>) {
    if |q| < capacity then q + [item] else (q + [item])[1..]
  }

  function After<T>(q: seq<T>, c: Call<T>, capacity: nat): (r: seq<T>) {
    match c
    case PushFront(item) => Pushed(q, item, capacity)
    case PopBack => if q == [] then q else q[1..]
    case PopFront => if q == [] then q else q[..|q| - 1]
    case _ => q
  }

  function Answer<T>(q: seq<T>, c: Call<T>, init: T): (r: Reply<T>) {
    match c
    case PushFront(_) => Done
    case PopBack => Item(if q == [] then init else q[0])
    case PopFront => Item(if q == [] then init else q[|q| - 1])
    case Back => Item(if q == [] then init else q[0])
    case Front => Item(if q == [] then init else q[|q| - 1])
    case Empty => IsEmpty(q == [])
  }

  function AfterAll<T>(q: seq<T>, run: seq<Call<T>>, capacity: nat): (r: seq<T>)
    decreases |run|
  {
    if run == [] then q else AfterAll(After(q, run[0], capacity), run[1..], capacity)
  }

  function Answers<T>(q: seq<T>, run: seq<Call<T>>, capacity: nat, init: T): (r: seq<Reply<T>>)
    ensures |r| == |run|
    decreases |run|
  {
    if run == [] then []
    else [Answer(q, run[0], init)] + Answers(After(q, run[0], capacity), run[1..], capacity, init)
  }

  function Pushes<T>(items: seq<T>): (run: seq<Call<T>>)
    ensures |run| == |items| && forall k :: 0 <= k < |run| ==> run[k] == PushFront(items[k])
  {
    seq(|items|, k requires 0 <= k < |items| => PushFront(items[k]))
  }

  function Last<T>(s: seq<T>, n: nat): (r: seq<T>) {
    if |s| <= n then s else s[|s| - n..]
  }

  /** However much is pushed, exactly the most recent items are kept, in order. */
  lemma {:induction false} PushesKeepLatest<T>(q: seq<T>, items: seq<T>, capacity: nat)
    requires |q| <= capacity
    ensures AfterAll(q, Pushes(items), capacity) == Last(q + items, capacity)
    decreases |items|
  {
    hide AfterAll, Pushes;
    if items == [] {
      PushNothing(q, capacity);
      assert q + items == q;
    } else {
      var next := Pushed(q, items[0], capacity);
      PushesUnfold(q, items, capacity);
      PushesKeepLatest(next, items[1..], capacity);
      if |q| < capacity {
        assert next + items[1..] == q + items;
      } else {
        assert next + items[1..] == (q + items)[1..];
        assert Last((q + items)[1..], capacity) == Last(q + items, capacity);
      }
    }
  }

  lemma PushNothing<T>(q: seq<T>, capacity: nat)
    ensures AfterAll(q, Pushes([]), capacity) == q
  {
  }

  lemma PushesUnfold<T>(q: seq<T>, items: seq<T>, capacity: nat)
    requires items != []
    ensures AfterAll(q, Pushes(items), capacity) ==
            AfterAll(Pushed(q, items[0], capacity), Pushes(items[1..]), capacity)
  {
    assert Pushes(items)[1..] == Pushes(items[1..]);
  }

  lemma {:induction false} RunsConcat<T>(q: seq<T>, a: seq<Call<T>>, b: seq<Call<T>>, capacity: nat, init: T)
    ensures AfterAll(q, a + b, capacity) == AfterAll(AfterAll(q, a, capacity), b, capacity)
    ensures Answers(q, a + b, capacity, init) ==
            Answers(q, a, capacity, init) + Answers(AfterAll(q, a, capacity), b, capacity, init)
    decreases |a|
  {
    hide After, Answer;
    if a == [] {
      assert a + b == b;
    } else {
      RunsConcat(After(q, a[0], capacity), a[1..], b, capacity, init);
      assert (a + b)[0] == a[0] && (a + b)[1..] == a[1..] + b;
    }
  }

  function Times<T>(n: nat, c: Call<T>): (run: seq<Call<T>>)
    ensures |run| == n && forall k :: 0 <= k < n ==> run[k] == c
  {
    seq(n, _ => c)
  }

  /** Popping at the back empties a queue from its oldest item on, and then gives the initial value. */
  lemma {:induction false} OldestFirst<T>(q: seq<T>, n: nat, k: nat, capacity: nat, init: T)
    requires k < n
    ensures Answers(q, Times(n, PopBack), capacity, init)[k] == Item(if k < |q| then q[k] else init)
    decreases n
  {
    var rest := if q == [] then q else q[1..];
    assert Times<T>(n, PopBack)[1..] == Times(n - 1, PopBack);
    if k > 0 {
      OldestFirst(rest, n - 1, k - 1, capacity, init);
    }
  }

  /** Popping at the front empties it from its newest item on. */
  lemma {:induction false} NewestFirst<T>(q: seq<T>, n: nat, k: nat, capacity: nat, init: T)
    requires k < n
    ensures Answers(q, Times(n, PopFront), capacity, init)[k] == Item(if k < |q| then q[|q| - 1 - k] else init)
    decreases n
  {
    var rest := if q == [] then q else q[..|q| - 1];
    assert Times<T>(n, PopFront)[1..] == Times(n - 1, PopFront);
    if k > 0 {
      NewestFirst(rest, n - 1, k - 1, capacity, init);
    }
  }

  /**
   First in, first out at one end and last in, first out at the other: after pushing `items`, the
   pops return the latest of all the items, as many as fit, in the order they went in or against it.
   */
  lemma PushThenPop<T>(q: seq<T>, items: seq<T>, n: nat, k: nat, capacity: nat, init: T)
    requires |q| <= capacity && k < n
    ensures var all := Last(q + items, capacity);
            && Answers(q, Pushes(items) + Times(n, PopBack), capacity, init)[|items| + k] ==
               Item(if k < |all| then all[k] else init)
            && Answers(q, Pushes(items) + Times(n, PopFront), capacity, init)[|items| + k] ==
               Item(if k < |all| then all[|all| - 1 - k] else init)
  {
    hide AfterAll, Answers, Pushes, Times, Last;
    PushesKeepLatest(q, items, capacity);
    RunsConcat(q, Pushes(items), Times(n, PopBack), capacity, init);
    RunsConcat(q, Pushes(items), Times(n, PopFront), capacity, init);
    var all := Last(q + items, capacity);
    OldestFirst(all, n, k, capacity, init);
    NewestFirst(all, n, k, capacity, init);
  }

  // ---------------------------------------------------------------------------
  // The ring buffer
  // ---------------------------------------------------------------------------

  /** The slots in use, from `read` up to `write` and around the end. */
  ghost function Window<T>(slots: seq<T>, read: nat, write: nat): (q: seq<T>)
    requires read < |slots| && write < |slots|
    ensures |q| < |slots|
  {
    if read <= write then slots[read..write] else slots[read..] + slots[..write]
  }

  function Next(index: nat, size: nat): (r: nat)
    requires index < size
    ensures r < size
  {
    if index == size - 1 then 0 else index + 1
  }

  lemma WindowSize<T>(slots: seq<T>, read: nat, write: nat)
    requires read < |slots| && write < |slots|
    ensures |Window(slots, read, write)| == |slots| - 1 <==> Next(write, |slots|) == read
    ensures read == write <==> Window(slots, read, write) == []
  {
  }

  lemma WindowDrop<T>(slots: seq<T>, read: nat, write: nat)
    requires read < |slots| && write < |slots|
    ensures read != write ==> Window(slots, Next(read, |slots|), write) == Window(slots, read, write)[1..]
  {
  }

  /** With one slot the only item is overwritten and never visible. */
  lemma WindowPut<T>(slots: seq<T>, read: nat, write: nat, item: T)
    requires read < |slots| && write < |slots|
    ensures |slots| > 1 && Next(write, |slots|) != read ==>
              Window(slots[write := item], read, Next(write, |slots|)) == Window(slots, read, write) + [item]
    ensures |slots| == 1 ==> Window(slots[write := item], read, Next(write, |slots|)) == []
  {
  }

  class FixedRingBuffer<T> {
    const buffer: array<T>
    const init: T
    var size: nat
    var read: nat
    var write: nat

    ghost predicate Valid()
      reads this
    {
      0 < size == buffer.Length && read < size && write < size
    }

    ghost function Contents(): (q: seq<T>)
      requires Valid()
      reads this, buffer
      ensures |q| < size
    {
      Window(buffer[..], read, write)
    }

    constructor (length: nat, init: T)
      requires length > 0
      ensures Valid() && size == length && Contents() == [] && this.init == init && fresh(buffer)
    {
      buffer := new T[length](_ => init);
      this.init := init;
      size := length;
      read, write := 0, 0;
    }

    function StepFrom(index: nat): (r: nat)
      requires Valid() && index < size
      reads this
      ensures r < size
    {
      Next(index, size)
    }

    method PushFront(item: T)
      requires Valid()
      modifies this`read, this`write, buffer
      ensures Valid() && Contents() == Pushed(old(Contents()), item, size - 1)
    {
      hide Window;
      ghost var slots, q := buffer[..], Contents();
      WindowSize(slots, read, write);
      if StepFrom(write) == read {
        WindowDrop(slots, read, write);
        read := StepFrom(read);
      }
      WindowPut(slots, read, write, item);
      buffer[write] := item;
      assert buffer[..] == slots[write := item];
      write := StepFrom(write);
    }

    predicate IsEmptyNow()
      requires Valid()
      reads this, buffer
      ensures IsEmptyNow() <==> Contents() == []
    {
      write == read
    }

    method PopBack() returns (item: T)
      requires Valid()
      modifies this`read
      ensures Valid() && Contents() == After(old(Contents()), Call.PopBack, size - 1)
      ensures Item(item) == Answer(old(Contents()), Call.PopBack, init)
    {
      item := init;
      if !IsEmptyNow() {
        item := buffer[read];
        read := StepFrom(read);
      }
    }

    method PopFront() returns (item: T)
      requires Valid()
      modifies this`write
      ensures Valid() && Contents() == After(old(Contents()), Call.PopFront, size - 1)
      ensures Item(item) == Answer(old(Contents()), Call.PopFront, init)
    {
      if IsEmptyNow() {
        return init;
      }
      write := if write > 0 then write - 1 else size - 1;
      return buffer[write];
    }

    method Back() returns (item: T)
      requires Valid()
      ensures Item(item) == Answer(Contents(), Call.Back, init)
    {
      if IsEmptyNow() {
        return init;
      }
      return buffer[read];
    }

    method Front() returns (item: T)
      requires Valid()
      ensures Item(item) == Answer(Contents(), Call.Front, init)
    {
      if IsEmptyNow() {
        return init;
      }
      return buffer[if write > 0 then write - 1 else size - 1];
    }

    method Perform(c: Call<T>) returns (reply: Reply<T>)
      requires Valid()
      modifies this`read, this`write, buffer
      ensures Valid() && Contents() == After(old(Contents()), c, size - 1)
      ensures reply == Answer(old(Contents()), c, init)
    {
      match c
      case PushFront(item) =>
        PushFront(item);
        reply := Done;
      case PopBack =>
        var item := PopBack();
        reply := Item(item);
      case PopFront =>
        var item := PopFront();
        reply := Item(item);
      case Back =>
        var item := Back();
        reply := Item(item);
      case Front =>
        var item := Front();
        reply := Item(item);
      case Empty =>
        reply := IsEmpty(IsEmptyNow());
    }

    /** Every run of calls gives the replies of the bounded queue and ends in its state. */
    method Execute(run: seq<Call<T>>) returns (replies: seq<Reply<T>>)
      requires Valid()
      modifies this`read, this`write, buffer
      ensures Valid() && Contents() == AfterAll(old(Contents()), run, size - 1)
      ensures replies == Answers(old(Contents()), run, size - 1, init)
    {
      hide *;
      replies := [];
      ghost var all := Answers(Contents(), run, size - 1, init);
      assert run[0..] == run;
      for k := 0 to |run|
        invariant Valid() && |replies| == k
        invariant AfterAll(Contents(), run[k..], size - 1) == AfterAll(old(Contents()), run, size - 1)
        invariant replies + Answers(Contents(), run[k..], size - 1, init) == all
      {
        RunStep(Contents(), run, k, size - 1, init);
        ghost var rest := Answers(After(Contents(), run[k], size - 1), run[k + 1..], size - 1, init);
        var reply := Perform(run[k]);
        assert replies + ([reply] + rest) == (replies + [reply]) + rest;
        replies := replies + [reply];
      }
      RunEnd(Contents(), run, size - 1, init);
    }
  }

  lemma RunStep<T>(q: seq<T>, run: seq<Call<T>>, k: nat, capacity: nat, init: T)
    requires k < |run|
    ensures AfterAll(q, run[k..], capacity) == AfterAll(After(q, run[k], capacity), run[k + 1..], capacity)
    ensures Answers(q, run[k..], capacity, init) ==
            [Answer(q, run[k], init)] + Answers(After(q, run[k], capacity), run[k + 1..], capacity, init)
  {
  }

  lemma RunEnd<T>(q: seq<T>, run: seq<Call<T>>, capacity: nat, init: T)
    ensures AfterAll(q, run[|run|..], capacity) == q && Answers(q, run[|run|..], capacity, init) == []
  {
  }
}
