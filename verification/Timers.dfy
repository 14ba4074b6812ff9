/**
 The dynamic timers: a wheel of one root vector of 256 lists and four normal vectors of 64 lists,
 filed by the bits of the expiry tick and refilled from above as the ticks go by. The lists are
 sequences; the tick counter is a 32-bit word beside a ghost counter that never wraps around.

 What the wheel means is an agenda: each pending timer with the turn in which it is due. Adding,
 cascading and running are proved against it.
 */
module Timers {
  import opened Machine

  type Word = n: nat | n < UINT32

  datatype Timer = Timer(id: nat, expires: Word)

  /** A timer and the turn in which it is to run. */
  datatype Entry = Entry(timer: Timer, due: nat)

  const TICKS_PER_SECOND: nat := 1193

  // ---------------------------------------------------------------------------
  // Division
  // ---------------------------------------------------------------------------

  /** The six bits above `b` are the same in a number and in its low 32 bits. */
  lemma LowBits(x: nat, b: nat, k: nat)
    requires b > 0 && 64 * b * k == UINT32
    ensures x % UINT32 / b % 64 == x / b % 64
  {
    var h, w := x / UINT32, x % UINT32;
    var q, r := w / b, w % b;
    assert w == q * b + r;
    var s := k * h;
    assert UINT32 * h == 64 * s * b by {
      assert UINT32 * h == 64 * b * k * h;
    }
    QuotientIs(x, 64 * s + q, r, b);
    QuotientIs(64 * s + q, s + q / 64, q % 64, 64);
  }

  // ---------------------------------------------------------------------------
  // Where a timer is filed
  // ---------------------------------------------------------------------------

  /** The ticks that one list of a normal vector stands for. */
  function Block(i: nat): (b: nat)
    requires i < 4
    ensures b > 0
  {
    if i == 0 then 0x100 else if i == 1 then 0x4000 else if i == 2 then 0x10_0000 else 0x400_0000
  }

  /** How far ahead the timers of a normal vector may lie. */
  function Reach(i: nat): (b: nat)
    requires i < 4
  {
    if i < 3 then Block(i + 1) else 0x8000_0000
  }

  /** The difference of two words as a signed long. */
  function Left(ticks: nat, expires: Word): (d: int)
    ensures -0x8000_0000 <= d < 0x8000_0000
  {
    var d := (expires - ticks) % UINT32;
    if d < 0x8000_0000 then d else d - UINT32
  }

  /** The list in normal vector `i` for tick `x`; the 256 root lists come first. */
  function Slot(i: nat, x: nat): (v: nat)
    requires i < 4
    ensures 256 + 64 * i <= v < 320 + 64 * i
  {
    256 + 64 * i + x / Block(i) % 64
  }

  /** The list a timer goes to at the given tick. */
  function Target(ticks: Word, expires: Word): (v: nat)
    ensures v < 512
  {
    var left := Left(ticks, expires);
    if left < 0 then ticks % 256
    else if left < Block(0) then expires % 256
    else if left < Block(1) then Slot(0, expires)
    else if left < Block(2) then Slot(1, expires)
    else if left < Block(3) then Slot(2, expires)
    else Slot(3, expires)
  }

  /** The turn in which a timer added before `turn` is to run: its tick, or at once when that has passed. */
  function DueAt(turn: nat, expires: Word): (due: nat)
    ensures due >= turn
  {
    if Left(turn % UINT32, expires) < 0 then turn else turn + Left(turn % UINT32, expires)
  }

  /** The first tick of the stretch in normal vector `i` that `due` lies in. */
  function BlockStart(i: nat, due: nat): (t: nat)
    requires i < 4
  {
    due / Block(i) * Block(i)
  }

  /**
   An entry that list `v` may hold before the given turn. Below the root vector, the turn has not
   gone past the start of its stretch.
   */
  predicate Placed(turn: nat, v: nat, e: Entry)
    requires v < 512
  {
    && turn <= e.due
    && if v < 256 then e.due < turn + 256 && v == e.due % 256
       else InVector(turn, (v - 256) / 64, v, e)
  }

  predicate InVector(turn: nat, i: nat, v: nat, e: Entry)
    requires i < 4
  {
    && e.due % UINT32 == e.timer.expires
    && e.due - turn < Reach(i)
    && v == Slot(i, e.due)
    && BlockStart(i, e.due) >= turn
  }

  /** The turn has not yet come to the start of the stretch. */
  predicate Ahead(turn: nat, v: nat, e: Entry)
    requires v < 512
  {
    v < 256 || BlockStart((v - 256) / 64, e.due) > turn
  }

  /** Seen from the turn, a timer that is due in the next 2^31 ticks is that far away. */
  lemma LeftIs(turn: nat, due: nat, expires: Word)
    requires turn <= due < turn + 0x8000_0000 && due % UINT32 == expires
    ensures Left(turn % UINT32, expires) == due - turn && DueAt(turn, expires) == due
  {
    var h, k := due / UINT32, turn / UINT32;
    assert due == h * UINT32 + expires && turn == k * UINT32 + turn % UINT32;
    QuotientIs(expires - turn % UINT32, k - h, due - turn, UINT32);
  }

  lemma DueHasExpiry(turn: nat, expires: Word)
    requires Left(turn % UINT32, expires) >= 0
    ensures DueAt(turn, expires) % UINT32 == expires
  {
    var ticks, k := turn % UINT32, turn / UINT32;
    var q := (expires - ticks) / UINT32;
    assert expires - ticks == q * UINT32 + Left(ticks, expires);
    assert turn == k * UINT32 + ticks;
    QuotientIs(DueAt(turn, expires), k - q, expires, UINT32);
  }

  /** The bits that file a tick are the same with and without wrap-around. */
  lemma SlotOfWord(i: nat, x: nat)
    requires i < 4
    ensures Slot(i, x % UINT32) == Slot(i, x)
  {
    LowBits(x, Block(i), if i == 0 then 0x4_0000 else if i == 1 then 0x1000 else if i == 2 then 0x40 else 1);
  }

  lemma RootOfWord(x: nat)
    ensures x % UINT32 % 256 == x % 256
  {
    var h, w := x / UINT32, x % UINT32;
    QuotientIs(x, 0x100_0000 * h + w / 256, w % 256, 256);
  }

  lemma StartIsAhead(i: nat, turn: nat, due: nat)
    requires i < 4 && due - turn >= Block(i)
    ensures BlockStart(i, due) > turn
  {
  }

  /** Where the source files a timer, it is due at its tick or at once, and never cascades in this turn. */
  lemma TargetPlaces(turn: nat, timer: Timer)
    ensures var v, e := Target(turn % UINT32, timer.expires), Entry(timer, DueAt(turn, timer.expires));
            Placed(turn, v, e) && Ahead(turn, v, e)
  {
    hide Slot, BlockStart;
    var left, due := Left(turn % UINT32, timer.expires), DueAt(turn, timer.expires);
    RootOfWord(turn);
    if left >= 0 {
      DueHasExpiry(turn, timer.expires);
      RootOfWord(due);
      var i := if left < Block(1) then 0 else if left < Block(2) then 1 else if left < Block(3) then 2 else 3;
      SlotOfWord(i, due);
      if left >= Block(0) {
        StartIsAhead(i, turn, due);
      }
    }
  }

  /** Every entry whose stretch starts now is in the one list of its vector that is cascaded. */
  lemma OnlyThatList(turn: nat, i: nat, v: nat, e: Entry)
    requires i < 4 && InVector(turn, i, v, e) && v != Slot(i, turn)
    ensures BlockStart(i, e.due) > turn
  {
    if BlockStart(i, e.due) == turn {
      QuotientIs(turn, e.due / Block(i), 0, Block(i));
    }
  }

  // ---------------------------------------------------------------------------
  // The agenda
  // ---------------------------------------------------------------------------

  /** What all the lists together hold. */
  ghost function All(book: seq<seq<Entry>>): (m: multiset<Entry>) {
    if book == [] then multiset{} else multiset(book[0]) + All(book[1..])
  }

  /** One list and what it stands for. */
  ghost predicate Column(turn: nat, v: nat, list: seq<Timer>, entries: seq<Entry>)
    requires v < 512
  {
    && |list| == |entries|
    && forall k :: 0 <= k < |list| ==> list[k] == entries[k].timer && Placed(turn, v, entries[k])
  }

  ghost predicate Consistent(turn: nat, vectors: seq<seq<Timer>>, book: seq<seq<Entry>>) {
    && |vectors| == |book| == 512
    && forall v :: 0 <= v < 512 ==> Column(turn, v, vectors[v], book[v])
  }

  /** All entries of a list still lie ahead. */
  ghost predicate AllAhead(turn: nat, v: nat, entries: seq<Entry>)
    requires v < 512
  {
    forall k :: 0 <= k < |entries| ==> Ahead(turn, v, entries[k])
  }

  /** A list with one place taken out. */
  function Without<T>(s: seq<T>, at: nat): (r: seq<T>)
    requires at < |s|
    ensures multiset(r) + multiset{s[at]} == multiset(s)
    ensures |r| == |s| - 1 && r[..at] == s[..at]
  {
    assert s == s[..at] + [s[at]] + s[at + 1..];
    s[..at] + s[at + 1..]
  }

  lemma {:induction false} AllOfUpdate(book: seq<seq<Entry>>, v: nat, entries: seq<Entry>)
    requires v < |book|
    ensures All(book[v := entries]) + multiset(book[v]) == All(book) + multiset(entries)
  {
    var after := book[v := entries];
    if v > 0 {
      assert after[1..] == book[1..][v - 1 := entries];
      AllOfUpdate(book[1..], v - 1, entries);
      var head := multiset(book[0]);
      assert All(after) + multiset(book[v]) == head + (All(after[1..]) + multiset(book[v]));
      assert head + (All(book[1..]) + multiset(entries)) == All(book) + multiset(entries);
    } else {
      assert after[1..] == book[1..];
    }
  }

  lemma Cancels(a: multiset<Entry>, b: multiset<Entry>, c: multiset<Entry>)
    requires a + c == b + c
    ensures a == b
  {
    forall e
      ensures a[e] == b[e]
    {
      assert (a + c)[e] == (b + c)[e];
    }
  }

  lemma AllWith(book: seq<seq<Entry>>, v: nat, e: Entry)
    requires v < |book|
    ensures All(book[v := book[v] + [e]]) == All(book) + multiset{e}
  {
    hide All;
    AllOfUpdate(book, v, book[v] + [e]);
    Cancels(All(book[v := book[v] + [e]]), All(book) + multiset{e}, multiset(book[v]));
  }

  lemma AllWithout(book: seq<seq<Entry>>, v: nat, at: nat)
    requires v < |book| && at < |book[v]|
    ensures book[v][at] in All(book)
    ensures All(book[v := Without(book[v], at)]) + multiset{book[v][at]} == All(book)
  {
    hide All, Without;
    var rest := Without(book[v], at);
    AllOfUpdate(book, v, rest);
    Cancels(All(book[v := rest]) + multiset{book[v][at]}, All(book), multiset(rest));
  }

  /** Each entry of the agenda is in one of the lists. */
  lemma {:induction false} InSomeList(book: seq<seq<Entry>>, e: Entry) returns (v: nat)
    requires e in All(book)
    ensures v < |book| && e in book[v]
  {
    if e in book[0] {
      v := 0;
    } else {
      v := InSomeList(book[1..], e);
      v := v + 1;
    }
  }

  lemma {:induction false} NothingPending(book: seq<seq<Entry>>)
    requires forall v :: 0 <= v < |book| ==> book[v] == []
    ensures All(book) == multiset{}
  {
    if book != [] {
      NothingPending(book[1..]);
    }
  }

  lemma ColumnWithout(turn: nat, v: nat, list: seq<Timer>, entries: seq<Entry>, at: nat)
    requires v < 512 && Column(turn, v, list, entries) && at < |list|
    ensures Column(turn, v, Without(list, at), Without(entries, at))
  {
    hide Placed;
  }

  lemma ColumnWith(turn: nat, v: nat, list: seq<Timer>, entries: seq<Entry>, e: Entry)
    requires v < 512 && Column(turn, v, list, entries) && Placed(turn, v, e)
    ensures Column(turn, v, list + [e.timer], entries + [e])
  {
    hide Placed;
  }

  /** A timer in the list that is cascaded keeps its turn, and lies ahead in the list it goes to or stays in. */
  lemma CascadeStep(turn: nat, i: nat, e: Entry)
    requires i < 4 && Placed(turn, Slot(i, turn), e)
    ensures var v := Target(turn % UINT32, e.timer.expires);
            Placed(turn, v, e) && Ahead(turn, v, e)
  {
    hide Slot, Target, Ahead;
    assert (Slot(i, turn) - 256) / 64 == i;
    LeftIs(turn, e.due, e.timer.expires);
    TargetPlaces(turn, e.timer);
  }

  lemma OtherListsAhead(turn: nat, i: nat, v: nat, list: seq<Timer>, entries: seq<Entry>)
    requires i < 4 && 256 + 64 * i <= v < 320 + 64 * i && v != Slot(i, turn)
    requires Column(turn, v, list, entries)
    ensures AllAhead(turn, v, entries)
  {
    hide Slot, InVector, BlockStart;
    assert (v - 256) / 64 == i;
    forall k | 0 <= k < |entries|
      ensures Ahead(turn, v, entries[k])
    {
      OnlyThatList(turn, i, v, entries[k]);
    }
  }

  /** With the timers of this turn gone and all others ahead, everything is in place for the next turn. */
  lemma NextTurn(turn: nat, v: nat, e: Entry)
    requires v < 512 && Placed(turn, v, e) && Ahead(turn, v, e) && v != turn % 256
    ensures Placed(turn + 1, v, e)
  {
    if v >= 256 {
      hide Slot;
      StartIsNoLater((v - 256) / 64, e.due);
    }
  }

  lemma StartIsNoLater(i: nat, due: nat)
    requires i < 4
    ensures BlockStart(i, due) <= due
  {
  }

  /** Between the multiples of 256 no stretch starts. */
  lemma NoStartHere(turn: nat, v: nat, e: Entry)
    requires v < 512 && Placed(turn, v, e) && turn % 256 != 0
    ensures Ahead(turn, v, e)
  {
    if v >= 256 {
      hide Slot;
      StartIsAligned((v - 256) / 64, e.due);
    }
  }

  lemma StartIsAligned(i: nat, due: nat)
    requires i < 4
    ensures BlockStart(i, due) % 256 == 0
  {
    var q, m := due / Block(i), Block(i) / 256;
    assert Block(i) == m * 256;
    assert q * (m * 256) == q * m * 256;
    QuotientIs(BlockStart(i, due), q * m, 0, 256);
  }

  /** What an interval timer that ran starts again, `interval` ticks after tick `now`. */
  ghost function Again(id: nat, interval: nat -> nat, now: nat): (m: multiset<Entry>) {
    if interval(id) == 0 then multiset{}
    else multiset{Entry(Timer(id, (now + interval(id)) % UINT32), now + interval(id))}
  }

  /** What all the timers in a log start again at tick `now`. */
  ghost function AllAgain(log: seq<Entry>, interval: nat -> nat, now: nat): (m: multiset<Entry>) {
    if log == [] then multiset{}
    else AllAgain(log[..|log| - 1], interval, now) + Again(log[|log| - 1].timer.id, interval, now)
  }

  lemma {:induction false} AllAgainAppends(a: seq<Entry>, b: seq<Entry>, interval: nat -> nat, now: nat)
    ensures AllAgain(a + b, interval, now) == AllAgain(a, interval, now) + AllAgain(b, interval, now)
  {
    if b == [] {
      assert a + b == a;
    } else {
      var n := |b| - 1;
      assert (a + b)[..|a + b| - 1] == a + b[..n];
      AllAgainAppends(a, b[..n], interval, now);
    }
  }

  /** The intervals reach no further than a signed long, counted from the tick that is run. */
  ghost predicate InReach(interval: nat -> nat, lag: int) {
    forall id :: interval(id) == 0 || interval(id) + lag < 0x8000_0000
  }

  /** A timer started for a later tick is due then, and goes to a list other than the one being run. */
  lemma StartsLater(turn: nat, now: nat, n: nat)
    requires turn <= now && n > 0 && now - turn + n < 0x8000_0000
    ensures var expires := (now + n) % UINT32;
            DueAt(turn, expires) == now + n && Target(turn % UINT32, expires) != turn % 256
  {
    var due := now + n;
    LeftIs(turn, due, due % UINT32);
    RootOfWord(due);
    if due - turn < 256 {
      assert due % 256 != turn % 256;
    }
  }

  /** What the list of the current tick holds is due now. */
  lemma DueNow(turn: nat, e: Entry)
    requires Placed(turn, turn % 256, e)
    ensures e.due == turn
  {
  }

  lemma ColumnNext(turn: nat, v: nat, list: seq<Timer>, entries: seq<Entry>)
    requires v < 512 && Column(turn, v, list, entries) && AllAhead(turn, v, entries)
    requires v == turn % 256 ==> list == []
    ensures Column(turn + 1, v, list, entries)
  {
    hide Placed, Ahead;
    forall k | 0 <= k < |list|
      ensures Placed(turn + 1, v, entries[k])
    {
      NextTurn(turn, v, entries[k]);
    }
  }

  lemma ColumnAhead(turn: nat, v: nat, list: seq<Timer>, entries: seq<Entry>)
    requires v < 512 && Column(turn, v, list, entries) && turn % 256 != 0
    ensures AllAhead(turn, v, entries)
  {
    hide Placed, Ahead;
    forall k | 0 <= k < |entries|
      ensures Ahead(turn, v, entries[k])
    {
      NoStartHere(turn, v, entries[k]);
    }
  }

  /** Nothing that is pending has been missed. */
  lemma NoneMissed(turn: nat, vectors: seq<seq<Timer>>, book: seq<seq<Entry>>)
    requires Consistent(turn, vectors, book)
    ensures forall e :: e in All(book) ==> e.due >= turn
  {
    hide All;
    forall e | e in All(book)
      ensures e.due >= turn
    {
      var v := InSomeList(book, e);
      assert Column(turn, v, vectors[v], book[v]);
    }
  }

  class Wheel {
    var ticks: Word
    /** The lists of the root vector, then those of the four normal vectors. */
    var vectors: seq<seq<Timer>>
    /** The number of the next turn; `ticks` is its low 32 bits. */
    ghost var turn: nat
    ghost var book: seq<seq<Entry>>

    ghost predicate Valid()
      reads this
    {
      ticks == turn % UINT32 && Consistent(turn, vectors, book)
    }

    ghost function Pending(): (m: multiset<Entry>)
      reads this
    {
      All(book)
    }

    constructor (now: Word)
      ensures Valid() && turn == now && Pending() == multiset{}
    {
      ticks, vectors := now, seq(512, _ => []);
      turn, book := now, seq(512, _ => []);
      NothingPending(seq(512, _ => []));
    }

    /** list_head_insert_before at a list's head: the timer comes last. */
    method Append(v: nat, timer: Timer, ghost due: nat)
      requires Valid() && v < 512 && Placed(turn, v, Entry(timer, due))
      modifies `vectors, `book
      ensures Valid() && Pending() == old(Pending()) + multiset{Entry(timer, due)}
      ensures vectors == old(vectors)[v := old(vectors)[v] + [timer]]
      ensures book == old(book)[v := old(book)[v] + [Entry(timer, due)]]
    {
      hide Placed, Column, All;
      ColumnWith(turn, v, vectors[v], book[v], Entry(timer, due));
      AllWith(book, v, Entry(timer, due));
      vectors := vectors[v := vectors[v] + [timer]];
      book := book[v := book[v] + [Entry(timer, due)]];
    }

    /** remove_timer, given where the links of the timer put it. */
    method RemoveTimer(v: nat, at: nat) returns (ghost e: Entry)
      requires Valid() && v < 512 && at < |vectors[v]|
      modifies `vectors, `book
      ensures Valid() && e.timer == old(vectors[v][at]) && e in old(Pending())
      ensures Pending() + multiset{e} == old(Pending())
      ensures vectors == old(vectors)[v := Without(old(vectors)[v], at)]
      ensures at < |old(book)[v]| && e == old(book)[v][at] && book == old(book)[v := Without(old(book)[v], at)]
    {
      hide Placed, All, Without;
      assert Column(turn, v, vectors[v], book[v]);
      e := book[v][at];
      ColumnWithout(turn, v, vectors[v], book[v], at);
      AllWithout(book, v, at);
      vectors := vectors[v := Without(vectors[v], at)];
      book := book[v := Without(book[v], at)];
    }

    method AddTimer(timer: Timer)
      requires Valid()
      modifies `vectors, `book
      ensures Valid() && Pending() == old(Pending()) + multiset{Entry(timer, DueAt(turn, timer.expires))}
      ensures forall v :: 0 <= v < 512 && v != Target(ticks, timer.expires) ==>
                            vectors[v] == old(vectors)[v] && book[v] == old(book)[v]
      ensures forall v :: 0 <= v < 512 && AllAhead(turn, v, old(book)[v]) ==> AllAhead(turn, v, book[v])
    {
      hide Placed, Ahead;
      TargetPlaces(turn, timer);
      Append(Target(ticks, timer.expires), timer, DueAt(turn, timer.expires));
    }

    /** __timer_cascate_vector on the current list of normal vector `i`, in the order of the list. */
    method CascadeVector(i: nat)
      requires Valid() && i < 4
      requires forall w :: 320 + 64 * i <= w < 512 ==> AllAhead(turn, w, book[w])
      modifies `vectors, `book
      ensures Valid() && Pending() == old(Pending())
      ensures forall w :: 256 + 64 * i <= w < 512 ==> AllAhead(turn, w, book[w])
    {
      hide Placed, Ahead, All, Slot, Target, Without;
      SlotOfWord(i, turn);
      var v := Slot(i, ticks);
      var at := 0;
      while at < |vectors[v]|
        invariant Valid() && Pending() == old(Pending()) && at <= |vectors[v]|
        invariant AllAhead(turn, v, book[v][..at])
        invariant forall w :: 320 + 64 * i <= w < 512 ==> AllAhead(turn, w, book[w])
        decreases |vectors[v]| - at
      {
        var timer := vectors[v][at];
        assert Column(turn, v, vectors[v], book[v]);
        CascadeStep(turn, i, book[v][at]);
        var target := Target(ticks, timer.expires);
        if target != v {
          ghost var e := RemoveTimer(v, at);
          Append(target, timer, e.due);
        } else {
          at := at + 1;
        }
      }
      assert book[v][..at] == book[v] by {
        assert Column(turn, v, vectors[v], book[v]);
      }
      forall w | 256 + 64 * i <= w < 320 + 64 * i && w != v
        ensures AllAhead(turn, w, book[w])
      {
        assert Column(turn, w, vectors[w], book[w]);
        OtherListsAhead(turn, i, w, vectors[w], book[w]);
      }
    }

    /** __timer_cascate_base: no timer is lost, doubled or moved to another turn. */
    method CascadeBase()
      requires Valid()
      modifies `vectors, `book
      ensures Valid() && Pending() == old(Pending())
      ensures forall w :: 0 <= w < 512 ==> AllAhead(turn, w, book[w])
    {
      hide Placed, All;
      for i := 4 downto 0
        invariant Valid() && Pending() == old(Pending())
        invariant forall w :: 256 + 64 * i <= w < 512 ==> AllAhead(turn, w, book[w])
      {
        CascadeVector(i);
      }
    }

    /**
     The timers on the list of the current tick run in order and are removed; the function of an
     interval timer starts it again.
     */
    method RunList(now: Word, interval: nat -> nat) returns (fired: seq<Timer>, ghost log: seq<Entry>)
      requires Valid() && ticks <= now && InReach(interval, now - ticks)
      requires forall v :: 0 <= v < 512 ==> AllAhead(turn, v, book[v])
      modifies `vectors, `book
      ensures Valid() && vectors[turn % 256] == []
      ensures forall v :: 0 <= v < 512 ==> AllAhead(turn, v, book[v])
      ensures fired == old(vectors[turn % 256]) && |log| == |fired|
      ensures forall k :: 0 <= k < |log| ==> log[k] == Entry(fired[k], turn)
      ensures Pending() + multiset(log) == old(Pending()) + AllAgain(log, interval, turn + (now - ticks))
    {
      hide Placed, Ahead, All, Again, AllAgain;
      RootOfWord(turn);
      var index := ticks % 256;
      ghost var time := turn + (now - ticks);
      fired, log := [], [];
      NoneAgain(interval, time);
      while vectors[index] != []
        invariant Valid() && |log| == |fired|
        invariant fired + vectors[index] == old(vectors)[index]
        invariant forall v :: 0 <= v < 512 ==> AllAhead(turn, v, book[v])
        invariant forall k :: 0 <= k < |log| ==> log[k] == Entry(fired[k], turn)
        invariant Pending() + multiset(log) == old(Pending()) + AllAgain(log, interval, time)
        decreases |vectors[index]|
      {
        ghost var before := Pending();
        var timer := RunFirst(now, interval);
        OneMore(log, Entry(timer, turn), interval, time);
        Ledger(before, Pending(), old(Pending()), log, Entry(timer, turn),
               AllAgain(log, interval, time), Again(timer.id, interval, time));
        fired, log := fired + [timer], log + [Entry(timer, turn)];
      }
    }

    /** The first timer on the list runs and is removed. */
    method RunFirst(now: Word, interval: nat -> nat) returns (timer: Timer)
      requires Valid() && ticks <= now && InReach(interval, now - ticks) && vectors[turn % 256] != []
      requires forall v :: 0 <= v < 512 ==> AllAhead(turn, v, book[v])
      modifies `vectors, `book
      ensures Valid() && [timer] + vectors[turn % 256] == old(vectors)[turn % 256]
      ensures forall v :: 0 <= v < 512 ==> AllAhead(turn, v, book[v])
      ensures Pending() + multiset{Entry(timer, turn)} ==
              old(Pending()) + Again(timer.id, interval, turn + (now - ticks))
    {
      hide Placed, AllAhead, All, Again, Without;
      RootOfWord(turn);
      var index := ticks % 256;
      timer := vectors[index][0];
      assert Column(turn, index, vectors[index], book[index]);
      DueNow(turn, book[index][0]);
      Restart(timer.id, now, interval);
      WithoutFirst(vectors[index]);
      ghost var e := RemoveTimer(index, 0);
      RootIsAhead(turn, index, book[index]);
    }

    /** What the function of a timer does to the wheel: an interval timer is set up anew. */
    method Restart(id: nat, now: Word, interval: nat -> nat)
      requires Valid() && ticks <= now && InReach(interval, now - ticks)
      modifies `vectors, `book
      ensures Valid() && Pending() == old(Pending()) + Again(id, interval, turn + (now - ticks))
      ensures interval(id) == 0 ==> Pending() == old(Pending())
      ensures interval(id) > 0 ==>
        Pending() == old(Pending()) +
        multiset{Entry(Timer(id, U32(now + interval(id))), turn + (now - ticks) + interval(id))}
      ensures vectors[turn % 256] == old(vectors)[turn % 256] && book[turn % 256] == old(book)[turn % 256]
      ensures forall v :: 0 <= v < 512 && AllAhead(turn, v, old(book)[v]) ==> AllAhead(turn, v, book[v])
    {
      hide Placed, Ahead, All, Target;
      if interval(id) != 0 {
        var expires := U32(now + interval(id));
        ghost var time := turn + (now - ticks);
        SameWord(turn, now, interval(id));
        StartsLater(turn, time, interval(id));
        AddTimer(Timer(id, expires));
      }
    }

    /** One turn of run_timer_softirq runs exactly the timers that are due in it. */
    method Turn(now: Word, interval: nat -> nat) returns (fired: seq<Timer>, ghost log: seq<Entry>)
      requires Valid() && ticks <= now && InReach(interval, now - ticks)
      modifies this
      ensures Valid() && turn == old(turn) + 1 && ticks == U32(old(ticks) + 1)
      ensures |log| == |fired| && forall k :: 0 <= k < |log| ==> log[k] == Entry(fired[k], old(turn))
      ensures LogOf(log, fired) && InTurns(log, old(turn), turn)
      ensures Pending() + multiset(log) ==
              old(Pending()) + AllAgain(log, interval, old(turn) + (now - old(ticks)))
      ensures forall e :: e in Pending() ==> e.due >= turn
    {
      hide Placed, Ahead, All, AllAgain, Column;
      RootOfWord(turn);
      if ticks % 256 == 0 {
        CascadeBase();
      } else {
        forall v | 0 <= v < 512
          ensures AllAhead(turn, v, book[v])
        {
          ColumnAhead(turn, v, vectors[v], book[v]);
        }
      }
      fired, log := RunList(now, interval);
      forall v | 0 <= v < 512
        ensures Column(turn + 1, v, vectors[v], book[v])
      {
        ColumnNext(turn, v, vectors[v], book[v]);
      }
      NextWord(turn);
      ticks := U32(ticks + 1);
      turn := turn + 1;
      NoneMissed(turn, vectors, book);
    }

    /**
     run_timer_softirq with the clock at `now`. Every turn up to that tick is made, the timers run in
     the order of their turns, each in the turn in which it is due, and nothing due is left.
     */
    method Run(now: Word, interval: nat -> nat) returns (fired: seq<Timer>, ghost log: seq<Entry>)
      requires Valid() && now < UINT32 - 1 && (ticks <= now ==> InReach(interval, now - ticks))
      modifies this
      ensures Valid() && turn == old(turn) + if old(ticks) <= now then now + 1 - old(ticks) else 0
      ensures turn > 0 && LogOf(log, fired) && InTurns(log, old(turn), turn)
      ensures Pending() + multiset(log) == old(Pending()) + AllAgain(log, interval, turn - 1)
      ensures forall e :: e in Pending() ==> e.due >= turn
    {
      hide Placed, All, AllAgain, Consistent, InTurns, LogOf;
      ghost var time := turn + if ticks <= now then now - ticks else -1;
      fired, log := [], [];
      NoneAgain(interval, time);
      NothingRan(turn);
      NoneMissed(turn, vectors, book);
      while ticks <= now
        invariant Valid()
        invariant old(ticks) <= ticks && (old(ticks) <= now ==> ticks <= now + 1)
        invariant turn == old(turn) + (ticks - old(ticks))
        invariant old(ticks) > now ==> ticks == old(ticks)
        invariant LogOf(log, fired) && InTurns(log, old(turn), turn)
        invariant Pending() + multiset(log) == old(Pending()) + AllAgain(log, interval, time)
        invariant forall e :: e in Pending() ==> e.due >= turn
        decreases now + 1 - ticks
      {
        ghost var before, was := Pending(), turn;
        var ran: seq<Timer>;
        ghost var more: seq<Entry>;
        ran, more := Turn(now, interval);
        LogGrows(log, fired, more, ran, old(turn), was, turn);
        AllAgainAppends(log, more, interval, time);
        Carried(before, Pending(), old(Pending()), log, more,
                AllAgain(log, interval, time), AllAgain(more, interval, time));
        fired, log := fired + ran, log + more;
      }
    }

    /**
     Whole runs: timers are started and stopped and the clock handler is called. Whatever was pending
     or started has run in the turn in which it was due, was stopped, or is pending for a later turn;
     an interval timer that ran was started again for one interval later. A timer that is started once
     and not stopped runs in its first turn, and with an interval also in every later turn that is a
     whole number of intervals away, up to the clock and in no other turn.
     */
    method Execute(requests: seq<Request>, clock: Word, interval: nat -> nat)
      returns (now: Word, ghost stopped: multiset<Entry>, ghost log: seq<Entry>)
      requires Valid() && turn == clock + 1 && InReach(interval, 0)
      requires clock + |requests| < UINT32 - 1
      modifies this
      ensures Valid() && now == Clock(requests, clock) && turn == now + 1
      ensures InTurns(log, old(turn), turn)
      ensures Pending() + multiset(log) + stopped ==
              old(Pending()) + Started(requests, clock) + Periods(log, interval)
      ensures forall e :: e in Pending() ==> e.due >= turn
      ensures forall id, k :: StartedOnce(requests, k, id) && NoneOf(old(Pending()), id) && NoneOf(stopped, id) ==>
        var start := Clock(requests[..k], clock);
        RunsEvery(log, Pending(), id, DueAt(start + 1, U32(start + requests[k].delay)), interval(id), turn)
    {
      hide Placed, All, Periods, Started, StartedBy, Clock, Consistent, InTurns;
      now, stopped, log := clock, multiset{}, [];
      var i := 0;
      NothingYet(requests, clock, interval);
      NothingRan(turn);
      while i < |requests|
        invariant 0 <= i <= |requests| && Valid() && turn == now + 1
        invariant now == Clock(requests[..i], clock) && clock <= now <= clock + i
        invariant InTurns(log, old(turn), turn)
        invariant Pending() + multiset(log) + stopped ==
                  old(Pending()) + Started(requests[..i], clock) + Periods(log, interval)
      {
        ghost var before, was, time := Pending(), turn, now;
        ghost var m: multiset<Entry>;
        ghost var more: seq<Entry>;
        Prefix(requests, i, clock);
        now, m, more := Perform(requests[i], now, interval);
        PeriodsAppend(log, more, interval);
        TurnsAppend(log, more, old(turn), was, turn);
        Account(before, Pending(), old(Pending()), log, more, stopped, m,
                Started(requests[..i], clock), StartedBy(requests[i], time),
                Periods(log, interval), Periods(more, interval));
        stopped, log := stopped + m, log + more;
        i := i + 1;
      }
      assert requests[..i] == requests;
      NoneMissed(turn, vectors, book);
      forall id, k | StartedOnce(requests, k, id) && NoneOf(old(Pending()), id) && NoneOf(stopped, id)
        ensures var start := Clock(requests[..k], clock);
                RunsEvery(log, Pending(), id, DueAt(start + 1, U32(start + requests[k].delay)), interval(id), turn)
      {
        Series(requests, clock, interval, log, Pending(), old(Pending()), stopped, turn, id, k);
      }
    }

    /** One request. A request to stop a timer names its place; without a timer there it does nothing. */
    method Perform(r: Request, clock: Word, interval: nat -> nat)
      returns (now: Word, ghost stopped: multiset<Entry>, ghost log: seq<Entry>)
      requires Valid() && turn == clock + 1 && clock < UINT32 - 2 && InReach(interval, 0)
      modifies this
      ensures Valid() && now == clock + (if r.Handler? then 1 else 0) && turn == now + 1
      ensures InTurns(log, old(turn), turn)
      ensures Pending() + multiset(log) + stopped ==
              old(Pending()) + StartedBy(r, clock) + Periods(log, interval)
    {
      hide Placed, All, AllAgain, Periods, Column, DueAt, InTurns;
      now, stopped, log := clock, multiset{}, [];
      NothingYet([r], clock, interval);
      NothingRan(turn);
      match r
      case Start(id, delay) =>
        AddTimer(Timer(id, U32(now + delay)));
      case Stop(v, at) =>
        if v < 512 && at < |vectors[v]| {
          ghost var e := RemoveTimer(v, at);
          stopped := multiset{e};
        }
      case Handler =>
        now := now + 1;
        var fired: seq<Timer>;
        fired, log := Run(now, interval);
        OnePeriod(log, interval, now);
    }
  }

  lemma WithoutFirst<T>(s: seq<T>)
    requires s != []
    ensures [s[0]] + Without(s, 0) == s
  {
  }

  lemma RootIsAhead(turn: nat, v: nat, entries: seq<Entry>)
    requires v < 256
    ensures AllAhead(turn, v, entries)
  {
  }

  /** One more timer has run: what was pending is accounted for as before. */
  lemma Ledger(before: multiset<Entry>, after: multiset<Entry>, first: multiset<Entry>, log: seq<Entry>, e: Entry,
               again: multiset<Entry>, more: multiset<Entry>)
    requires before + multiset(log) == first + again && after + multiset{e} == before + more
    ensures after + multiset(log + [e]) == first + (again + more)
  {
    assert after + multiset(log + [e]) == (before + more) + multiset(log);
    assert (before + more) + multiset(log) == (before + multiset(log)) + more;
  }

  // ---------------------------------------------------------------------------
  // Whole runs
  // ---------------------------------------------------------------------------

  /** A timer is started some ticks from now, one is stopped, or the clock ticks. */
  datatype Request = Start(id: nat, delay: nat) | Stop(v: nat, at: nat) | Handler

  /** The clock after the requests. */
  ghost function Clock(requests: seq<Request>, clock: nat): (now: nat) {
    if requests == [] then clock
    else Clock(requests[..|requests| - 1], clock) + if requests[|requests| - 1].Handler? then 1 else 0
  }

  /** The wheel is one turn ahead of the clock when a timer is started. */
  ghost function StartedBy(r: Request, clock: nat): (m: multiset<Entry>) {
    if r.Start? then
      var expires := U32(clock + r.delay);
      multiset{Entry(Timer(r.id, expires), DueAt(clock + 1, expires))}
    else multiset{}
  }

  ghost function Started(requests: seq<Request>, clock: nat): (m: multiset<Entry>) {
    if requests == [] then multiset{}
    else
      var init := requests[..|requests| - 1];
      Started(init, clock) + StartedBy(requests[|requests| - 1], Clock(init, clock))
  }

  /** What interval timers started again, each one interval after the turn in which it ran. */
  ghost function Periods(log: seq<Entry>, interval: nat -> nat): (m: multiset<Entry>) {
    if log == [] then multiset{}
    else
      var e := log[|log| - 1];
      Periods(log[..|log| - 1], interval) + Again(e.timer.id, interval, e.due)
  }

  lemma NothingYet(requests: seq<Request>, clock: nat, interval: nat -> nat)
    ensures Clock(requests[..0], clock) == clock && Started(requests[..0], clock) == multiset{}
    ensures Periods([], interval) == multiset{}
  {
  }

  lemma Prefix(requests: seq<Request>, i: nat, clock: nat)
    requires i < |requests|
    ensures Clock(requests[..i + 1], clock) ==
            Clock(requests[..i], clock) + if requests[i].Handler? then 1 else 0
    ensures Started(requests[..i + 1], clock) ==
            Started(requests[..i], clock) + StartedBy(requests[i], Clock(requests[..i], clock))
  {
    assert requests[..i + 1][..i] == requests[..i];
  }

  lemma {:induction false} PeriodsAppend(a: seq<Entry>, b: seq<Entry>, interval: nat -> nat)
    ensures Periods(a + b, interval) == Periods(a, interval) + Periods(b, interval)
  {
    if b == [] {
      assert a + b == a;
    } else {
      var n := |b| - 1;
      assert (a + b)[..|a + b| - 1] == a + b[..n];
      PeriodsAppend(a, b[..n], interval);
    }
  }

  lemma {:induction false} OnePeriod(log: seq<Entry>, interval: nat -> nat, now: nat)
    requires InTurns(log, now, now + 1)
    ensures AllAgain(log, interval, now) == Periods(log, interval)
  {
    if log != [] {
      OnePeriod(log[..|log| - 1], interval, now);
    }
  }

  // ---------------------------------------------------------------------------
  // The turns of one timer
  // ---------------------------------------------------------------------------

  /** Request `k` is the only one that starts this timer. */
  ghost predicate StartedOnce(requests: seq<Request>, k: int, id: nat) {
    && 0 <= k < |requests| && requests[k].Start? && requests[k].id == id
    && forall j :: 0 <= j < |requests| && j != k ==> !(requests[j].Start? && requests[j].id == id)
  }

  ghost predicate NoneOf(m: multiset<Entry>, id: nat) {
    forall e :: e in m ==> e.timer.id != id
  }

  /** One entry, with the given turn, is all that is pending for this timer. */
  ghost predicate OnlyPending(pending: multiset<Entry>, id: nat, due: nat) {
    exists e: Entry {:trigger pending[e]} ::
      && e.timer.id == id && e.due == due && pending[e] == 1
      && forall f: Entry :: f.timer.id == id && f != e ==> pending[f] == 0
  }

  /** The entries of one timer, in the order of the log. */
  ghost function OfId(log: seq<Entry>, id: nat): (r: seq<Entry>)
    ensures forall k :: 0 <= k < |r| ==> r[k].timer.id == id
  {
    if log == [] then []
    else
      var e := log[|log| - 1];
      OfId(log[..|log| - 1], id) + if e.timer.id == id then [e] else []
  }

  /**
   By the given turn the timer has run in turn `first` and every `period` turns later, and the next
   of these turns is what is pending for it. Without a period it runs once.
   */
  ghost predicate RunsEvery(log: seq<Entry>, pending: multiset<Entry>, id: nat, first: nat, period: nat, turn: nat) {
    var ran := OfId(log, id);
    && (forall k :: 0 <= k < |ran| ==> ran[k].due == first + k * period && ran[k].due < turn)
    && if period == 0 && ran != [] then |ran| == 1 && NoneOf(pending, id)
       else first + |ran| * period >= turn && OnlyPending(pending, id, first + |ran| * period)
  }

  ghost function Later(e: Entry, p: nat): (r: Entry) {
    Entry(Timer(e.timer.id, (e.due + p) % UINT32), e.due + p)
  }

  ghost function Laters(log: seq<Entry>, p: nat): (r: seq<Entry>)
    ensures |r| == |log| && forall k :: 0 <= k < |r| ==> r[k] == Later(log[k], p)
  {
    seq(|log|, k requires 0 <= k < |log| => Later(log[k], p))
  }

  lemma CountLast(a: seq<Entry>, x: Entry, e: Entry)
    ensures multiset(a + [x])[e] == multiset(a)[e] + if e == x then 1 else 0
  {
  }

  lemma CountFirst(x: Entry, a: seq<Entry>, e: Entry)
    ensures multiset([x] + a)[e] == (if e == x then 1 else 0) + multiset(a)[e]
  {
  }

  lemma {:induction false} CountOfId(log: seq<Entry>, id: nat, e: Entry)
    requires e.timer.id == id
    ensures multiset(OfId(log, id))[e] == multiset(log)[e]
  {
    if log != [] {
      var n := |log| - 1;
      CountOfId(log[..n], id, e);
      assert log == log[..n] + [log[n]];
    }
  }

  lemma {:induction false} OfIdInTurns(log: seq<Entry>, id: nat, first: nat, last: nat)
    requires InTurns(log, first, last)
    ensures InTurns(OfId(log, id), first, last)
    ensures forall e :: e in OfId(log, id) ==> e in log
  {
    if log != [] {
      var n := |log| - 1;
      var front := OfId(log[..n], id);
      OfIdInTurns(log[..n], id, first, last);
      forall k | 0 <= k < |front|
        ensures first <= front[k].due <= log[n].due
      {
        assert front[k] in log[..n];
      }
    }
  }

  /** What one timer started again, as a sequence. */
  lemma {:induction false} PeriodsOfId(log: seq<Entry>, interval: nat -> nat, id: nat, e: Entry)
    requires e.timer.id == id
    ensures Periods(log, interval)[e] ==
            if interval(id) == 0 then 0 else multiset(Laters(OfId(log, id), interval(id)))[e]
  {
    hide Later, Again;
    if log != [] {
      var n, p := |log| - 1, interval(id);
      var front := OfId(log[..n], id);
      PeriodsOfId(log[..n], interval, id, e);
      AgainOfId(log[n], interval, e);
      assert Periods(log, interval)[e] ==
             Periods(log[..n], interval)[e] + Again(log[n].timer.id, interval, log[n].due)[e];
      if log[n].timer.id == id {
        assert OfId(log, id) == front + [log[n]];
        assert Laters(front + [log[n]], p) == Laters(front, p) + [Later(log[n], p)];
        CountLast(Laters(front, p), Later(log[n], p), e);
      } else {
        assert OfId(log, id) == front;
      }
    }
  }

  lemma AgainOfId(x: Entry, interval: nat -> nat, e: Entry)
    ensures var p := interval(x.timer.id);
            Again(x.timer.id, interval, x.due)[e] == if p > 0 && e == Later(x, p) then 1 else 0
    ensures Later(x, interval(x.timer.id)).timer.id == x.timer.id
  {
  }

  lemma {:induction false} StartsOfId(requests: seq<Request>, clock: nat, id: nat, e: Entry)
    requires forall j :: 0 <= j < |requests| ==> !(requests[j].Start? && requests[j].id == id)
    requires e.timer.id == id
    ensures Started(requests, clock)[e] == 0
  {
    if requests != [] {
      StartsOfId(requests[..|requests| - 1], clock, id, e);
    }
  }

  ghost function FirstEntry(r: Request, start: nat): (e: Entry)
    requires r.Start?
  {
    Entry(Timer(r.id, U32(start + r.delay)), DueAt(start + 1, U32(start + r.delay)))
  }

  lemma {:induction false} StartOfId(requests: seq<Request>, clock: nat, id: nat, k: nat, e: Entry)
    requires StartedOnce(requests, k, id) && e.timer.id == id
    ensures Started(requests, clock)[e] ==
            if e == FirstEntry(requests[k], Clock(requests[..k], clock)) then 1 else 0
  {
    hide FirstEntry, StartedBy, Clock;
    var n := |requests| - 1;
    var front := requests[..n];
    OneStart(requests[n], Clock(front, clock), id, e);
    if k == n {
      StartsOfId(front, clock, id, e);
    } else {
      assert front[..k] == requests[..k];
      StartOfId(front, clock, id, k, e);
    }
  }

  lemma OneStart(r: Request, start: nat, id: nat, e: Entry)
    requires e.timer.id == id
    ensures StartedBy(r, start)[e] == if r.Start? && r.id == id && e == FirstEntry(r, start) then 1 else 0
  {
  }

  /** The accounts of one timer: what ran or is pending was started first or came back after `p` ticks. */
  ghost predicate Accounts(pending: multiset<Entry>, ran: seq<Entry>, e0: Entry, p: nat) {
    && (forall k :: 0 <= k < |ran| ==> ran[k].timer.id == e0.timer.id)
    && forall e: Entry :: e.timer.id == e0.timer.id ==> Balanced(pending, ran, e0, p, e)
  }

  ghost predicate Balanced(pending: multiset<Entry>, ran: seq<Entry>, e0: Entry, p: nat, e: Entry) {
    pending[e] + multiset(ran)[e] == (if e == e0 then 1 else 0) + if p == 0 then 0 else multiset(Laters(ran, p))[e]
  }

  lemma NothingRanYet(pending: multiset<Entry>, e0: Entry, p: nat)
    requires Accounts(pending, [], e0, p)
    ensures e0 in pending && OnlyPending(pending, e0.timer.id, e0.due)
  {
    forall f: Entry | f.timer.id == e0.timer.id
      ensures pending[f] == if f == e0 then 1 else 0
    {
      assert Balanced(pending, [], e0, p, f);
    }
  }

  /** What runs first is what was started: everything else comes later. */
  lemma FirstRan(pending: multiset<Entry>, ran: seq<Entry>, e0: Entry, p: nat, first: nat, turn: nat)
    requires ran != [] && InTurns(ran, first, turn) && Accounts(pending, ran, e0, p)
    ensures ran[0] == e0
  {
    assert ran[0] in multiset(ran);
    assert Balanced(pending, ran, e0, p, ran[0]);
    if p > 0 {
      NotItself(ran, p);
    }
  }

  lemma NotItself(ran: seq<Entry>, p: nat)
    requires p > 0 && ran != [] && forall k :: 0 <= k < |ran| ==> ran[0].due <= ran[k].due
    ensures multiset(Laters(ran, p))[ran[0]] == 0
  {
    assert forall k :: 0 <= k < |ran| ==> Laters(ran, p)[k].due > ran[0].due;
    assert ran[0] !in Laters(ran, p);
  }

  /** With the first run settled, the accounts go on from its return. */
  lemma AccountsGoOn(pending: multiset<Entry>, ran: seq<Entry>, e0: Entry, p: nat)
    requires ran != [] && ran[0] == e0 && p > 0 && Accounts(pending, ran, e0, p)
    ensures Accounts(pending, ran[1..], Later(e0, p), p)
  {
    hide Balanced;
    forall e: Entry | e.timer.id == e0.timer.id
      ensures Balanced(pending, ran[1..], Later(e0, p), p, e)
    {
      BalanceGoesOn(pending, ran, e0, p, e);
    }
  }

  lemma BalanceGoesOn(pending: multiset<Entry>, ran: seq<Entry>, e0: Entry, p: nat, e: Entry)
    requires ran != [] && ran[0] == e0 && p > 0 && Balanced(pending, ran, e0, p, e)
    ensures Balanced(pending, ran[1..], Later(e0, p), p, e)
  {
    hide Later, Laters;
    var rest, e1 := ran[1..], Later(e0, p);
    assert ran == [e0] + rest;
    LatersFirst(ran, p);
    CountFirst(e0, rest, e);
    CountFirst(e1, Laters(rest, p), e);
  }

  lemma LatersFirst(ran: seq<Entry>, p: nat)
    requires ran != []
    ensures Laters(ran, p) == [Later(ran[0], p)] + Laters(ran[1..], p)
  {
    hide Later;
  }

  lemma {:induction false} Recurs(pending: multiset<Entry>, ran: seq<Entry>, e0: Entry, p: nat, first: nat, turn: nat)
    requires p > 0 && InTurns(ran, first, turn) && Accounts(pending, ran, e0, p)
    requires forall e :: e in pending ==> e.due >= turn
    ensures forall k :: 0 <= k < |ran| ==> ran[k].due == e0.due + k * p
    ensures e0.due + |ran| * p >= turn && OnlyPending(pending, e0.timer.id, e0.due + |ran| * p)
    decreases |ran|
  {
    hide Accounts, OnlyPending;
    if ran == [] {
      NothingRanYet(pending, e0, p);
    } else {
      FirstRan(pending, ran, e0, p, first, turn);
      AccountsGoOn(pending, ran, e0, p);
      var rest, e1 := ran[1..], Later(e0, p);
      Recurs(pending, rest, e1, p, first, turn);
      forall k | 0 <= k < |ran|
        ensures ran[k].due == e0.due + k * p
      {
        if k > 0 {
          assert ran[k] == rest[k - 1];
          OneMorePeriod(k, p);
        }
      }
      OneMorePeriod(|ran|, p);
    }
  }

  lemma OneMorePeriod(k: nat, p: nat)
    requires k > 0
    ensures p + (k - 1) * p == k * p
  {
  }

  lemma RunsOnce(pending: multiset<Entry>, ran: seq<Entry>, e0: Entry, first: nat, turn: nat)
    requires ran != [] && InTurns(ran, first, turn) && Accounts(pending, ran, e0, 0)
    ensures ran == [e0] && NoneOf(pending, e0.timer.id)
  {
    FirstRan(pending, ran, e0, 0, first, turn);
    var rest := ran[1..];
    assert ran == [e0] + rest;
    forall e: Entry | e.timer.id == e0.timer.id
      ensures pending[e] == 0 && multiset(rest)[e] == 0
    {
      assert Balanced(pending, ran, e0, 0, e);
      CountFirst(e0, rest, e);
    }
    if rest != [] {
      FirstCounts(rest);
    }
  }

  lemma FirstCounts(s: seq<Entry>)
    requires s != []
    ensures multiset(s)[s[0]] > 0
  {
  }

  lemma Series(requests: seq<Request>, clock: nat, interval: nat -> nat, log: seq<Entry>, pending: multiset<Entry>,
               before: multiset<Entry>, stopped: multiset<Entry>, turn: nat, id: nat, k: nat)
    requires pending + multiset(log) + stopped == before + Started(requests, clock) + Periods(log, interval)
    requires InTurns(log, clock + 1, turn) && forall e :: e in pending ==> e.due >= turn
    requires StartedOnce(requests, k, id) && NoneOf(before, id) && NoneOf(stopped, id)
    ensures var start := Clock(requests[..k], clock);
            RunsEvery(log, pending, id, DueAt(start + 1, U32(start + requests[k].delay)), interval(id), turn)
  {
    hide DueAt, U32, Started, Periods, Clock, InTurns, OnlyPending, Accounts, OfId;
    var ran, p, e0 := OfId(log, id), interval(id), FirstEntry(requests[k], Clock(requests[..k], clock));
    OfIdInTurns(log, id, clock + 1, turn);
    Audit(requests, clock, interval, log, pending, before, stopped, id, k);
    AllBefore(ran, clock + 1, turn);
    if ran == [] {
      NothingRanYet(pending, e0, p);
    } else if p == 0 {
      RunsOnce(pending, ran, e0, clock + 1, turn);
    } else {
      Recurs(pending, ran, e0, p, clock + 1, turn);
    }
  }

  /** The accounts of a whole run hold for each timer by itself. */
  lemma Audit(requests: seq<Request>, clock: nat, interval: nat -> nat, log: seq<Entry>, pending: multiset<Entry>,
              before: multiset<Entry>, stopped: multiset<Entry>, id: nat, k: nat)
    requires pending + multiset(log) + stopped == before + Started(requests, clock) + Periods(log, interval)
    requires StartedOnce(requests, k, id) && NoneOf(before, id) && NoneOf(stopped, id)
    ensures Accounts(pending, OfId(log, id), FirstEntry(requests[k], Clock(requests[..k], clock)), interval(id))
  {
    hide Started, Periods, Clock, DueAt, U32;
    var ran, p, e0 := OfId(log, id), interval(id), FirstEntry(requests[k], Clock(requests[..k], clock));
    forall e: Entry | e.timer.id == id
      ensures Balanced(pending, ran, e0, p, e)
    {
      CountOfId(log, id, e);
      PeriodsOfId(log, interval, id, e);
      StartOfId(requests, clock, id, k, e);
      var started, again := Started(requests, clock), Periods(log, interval);
      assert before[e] == 0 && stopped[e] == 0;
      assert (pending + multiset(log) + stopped)[e] == (before + started + again)[e];
    }
  }

  lemma AllBefore(log: seq<Entry>, first: nat, last: nat)
    requires InTurns(log, first, last)
    ensures forall k :: 0 <= k < |log| ==> log[k].due < last
  {
  }

  /** A timer started with a delay runs after exactly that many ticks if and only if the delay is no more than 2^31. */
  lemma OnTimeExactly(clock: nat, delay: nat)
    requires delay > 0
    ensures DueAt(clock + 1, U32(clock + delay)) == clock + delay <==> delay <= 0x8000_0000
  {
    if delay <= 0x8000_0000 {
      LeftIs(clock + 1, clock + delay, U32(clock + delay));
    }
  }

  /** A timer whose tick has passed is due in the next turn. */
  lemma LateRunsNext(turn: nat, past: nat)
    requires past < turn <= past + 0x8000_0000
    ensures DueAt(turn, U32(past)) == turn
  {
    var h, k := past / UINT32, turn / UINT32;
    assert past == h * UINT32 + U32(past) && turn == k * UINT32 + turn % UINT32;
    QuotientIs(U32(past) - turn % UINT32, k - h - 1, past - turn + UINT32, UINT32);
  }

  /** alarm() and nanosleep() count whole seconds: they are on time up to 1,800,070 of them, and then early. */
  lemma AlarmOnTime(clock: nat, seconds: nat)
    requires seconds > 0
    ensures DueAt(clock + 1, U32(clock + TICKS_PER_SECOND * seconds)) == clock + TICKS_PER_SECOND * seconds <==>
            seconds <= 1_800_070
  {
    OnTimeExactly(clock, TICKS_PER_SECOND * seconds);
  }

  /** In the order of their turns, from `first` up to but not including `last`. */
  ghost predicate InTurns(log: seq<Entry>, first: nat, last: nat) {
    && (forall k :: 0 <= k < |log| ==> first <= log[k].due < last)
    && (forall j, k :: 0 <= j < k < |log| ==> log[j].due <= log[k].due)
  }

  /** The log of the timers that ran. */
  ghost predicate LogOf(log: seq<Entry>, fired: seq<Timer>) {
    |log| == |fired| && forall k :: 0 <= k < |log| ==> log[k].timer == fired[k]
  }

  lemma NothingRan(turn: nat)
    ensures LogOf([], []) && InTurns([], turn, turn)
  {
  }

  lemma TurnsAppend(a: seq<Entry>, b: seq<Entry>, first: nat, mid: nat, last: nat)
    requires InTurns(a, first, mid) && InTurns(b, mid, last) && first <= mid <= last
    ensures InTurns(a + b, first, last)
  {
  }

  lemma LogGrows(log: seq<Entry>, fired: seq<Timer>, more: seq<Entry>, ran: seq<Timer>,
                 first: nat, mid: nat, last: nat)
    requires LogOf(log, fired) && LogOf(more, ran)
    requires InTurns(log, first, mid) && InTurns(more, mid, last) && first <= mid <= last
    ensures LogOf(log + more, fired + ran) && InTurns(log + more, first, last)
  {
    hide InTurns;
    TurnsAppend(log, more, first, mid, last);
  }

  /** One more request: everything is accounted for as before. */
  lemma Account(before: multiset<Entry>, after: multiset<Entry>, first: multiset<Entry>,
                log: seq<Entry>, ran: seq<Entry>, stopped: multiset<Entry>, stop: multiset<Entry>,
                started: multiset<Entry>, start: multiset<Entry>, again: multiset<Entry>, more: multiset<Entry>)
    requires before + multiset(log) + stopped == first + started + again
    requires after + multiset(ran) + stop == before + start + more
    ensures after + multiset(log + ran) + (stopped + stop) == first + (started + start) + (again + more)
  {
    assert after + multiset(log + ran) + (stopped + stop) ==
           (after + multiset(ran) + stop) + (multiset(log) + stopped);
    assert (before + start + more) + (multiset(log) + stopped) ==
           (before + multiset(log) + stopped) + (start + more);
  }

  lemma Carried(before: multiset<Entry>, after: multiset<Entry>, first: multiset<Entry>,
                log: seq<Entry>, ran: seq<Entry>, again: multiset<Entry>, more: multiset<Entry>)
    requires before + multiset(log) == first + again && after + multiset(ran) == before + more
    ensures after + multiset(log + ran) == first + (again + more)
  {
    assert after + multiset(log + ran) == (before + more) + multiset(log);
    assert (before + more) + multiset(log) == (before + multiset(log)) + more;
  }

  lemma NoneAgain(interval: nat -> nat, now: nat)
    ensures AllAgain([], interval, now) == multiset{}
  {
  }

  lemma OneMore(log: seq<Entry>, e: Entry, interval: nat -> nat, now: nat)
    ensures AllAgain(log + [e], interval, now) == AllAgain(log, interval, now) + Again(e.timer.id, interval, now)
  {
    assert (log + [e])[..|log|] == log;
  }

  lemma NextWord(turn: nat)
    ensures U32(turn % UINT32 + 1) == (turn + 1) % UINT32
  {
  }

  lemma SameWord(turn: nat, now: Word, n: nat)
    requires turn % UINT32 <= now
    ensures U32(now + n) == (turn + (now - turn % UINT32) + n) % UINT32
  {
    var k, r := turn / UINT32, U32(now + n);
    QuotientIs(turn + (now - turn % UINT32) + n, k + (now + n) / UINT32, r, UINT32);
  }
}
