/**
 The environment block: an array of "name=value" strings ended by a null pointer. The first change
 copies the block; from then on `__environ_size` counts the slots of the copy, two of them spare.
 */
module Environ {
  import opened Machine

  // ---------------------------------------------------------------------------
  // Entries
  // ---------------------------------------------------------------------------

  /** `strncmp(e, name, len) == 0 && e[len] == '='`. */
  predicate Matches(e: string, name: string) {
    |e| > |name| && e[..|name|] == name && e[|name|] == '='
  }

  /** The live entries: those before the first null pointer. */
  function Live(block: seq<Option<string>>): (live: seq<string>)
    ensures |live| <= |block| && forall k :: 0 <= k < |live| ==> block[k] == Some(live[k])
    ensures |live| < |block| ==> block[|live|] == None
  {
    if block == [] || block[0].None? then [] else [block[0].value] + Live(block[1..])
  }

  lemma LiveIs(block: seq<Option<string>>, live: seq<string>)
    requires |live| <= |block| && (|live| < |block| ==> block[|live|] == None)
    requires forall k :: 0 <= k < |live| ==> block[k] == Some(live[k])
    ensures Live(block) == live
  {
  }

  /** The position of the first match, or the number of entries. */
  function FirstMatch(live: seq<string>, name: string): (k: nat)
    ensures k <= |live| && (k < |live| ==> Matches(live[k], name))
    ensures forall j :: 0 <= j < k ==> !Matches(live[j], name)
  {
    if live == [] then 0 else if Matches(live[0], name) then 0 else 1 + FirstMatch(live[1..], name)
  }

  function WithoutMatches(live: seq<string>, name: string): (r: seq<string>)
    ensures |r| <= |live|
  {
    if live == [] then []
    else if Matches(live[0], name) then WithoutMatches(live[1..], name)
    else [live[0]] + WithoutMatches(live[1..], name)
  }

  predicate ValidName(name: Option<string>) {
    name.Some? && name.value != "" && '=' !in name.value
  }

  function Entry(name: string, value: string): (e: string) {
    name + "=" + value
  }

  // ---------------------------------------------------------------------------
  // Variables: the first entry of a name counts
  // ---------------------------------------------------------------------------

  function Variable(live: seq<string>, name: string): (v: Option<string>) {
    var k := FirstMatch(live, name);
    if k == |live| then None else Some(live[k][|name| + 1..])
  }

  /** getenv does not tell an empty value from a missing variable. */
  function Getenv(live: seq<string>, name: string): (v: Option<string>) {
    if Variable(live, name) == Some("") then None else Variable(live, name)
  }

  lemma EntryMatches(name: string, value: string, m: string)
    requires '=' !in name && '=' !in m
    ensures Matches(Entry(name, value), m) <==> m == name
    ensures Entry(name, value)[|name| + 1..] == value
  {
    var e := Entry(name, value);
    assert e[..|name|] == name && e[|name|] == '=';
    if |m| < |name| {
      assert e[|m|] == name[|m|] && name[|m|] in name;
    } else if |m| == |name| {
      assert e[..|m|] == e[..|name|];
    } else if |m| < |e| {
      assert e[..|m|][|name|] == '=' && m[|name|] in m;
    }
  }

  lemma FirstMatchIs(live: seq<string>, name: string, k: nat)
    requires k <= |live| && (k < |live| ==> Matches(live[k], name))
    requires forall j :: 0 <= j < k ==> !Matches(live[j], name)
    ensures FirstMatch(live, name) == k
  {
  }

  /** Replacing the first entry of a name changes that variable and no other. */
  lemma ReplaceEntry(live: seq<string>, name: string, value: string, m: string)
    requires '=' !in name && '=' !in m && FirstMatch(live, name) < |live|
    ensures var k := FirstMatch(live, name);
            Variable(live[k := Entry(name, value)], m) == if m == name then Some(value) else Variable(live, m)
  {
    var k := FirstMatch(live, name);
    EntryMatches(name, value, m);
    if m == name {
      FirstMatchIs(live[k := Entry(name, value)], name, k);
    } else {
      NamesDiffer(live[k], name, m);
      var f := FirstMatch(live, m);
      FirstMatchIs(live[k := Entry(name, value)], m, f);
    }
  }

  lemma NamesDiffer(e: string, name: string, m: string)
    requires '=' !in name && '=' !in m && Matches(e, name) && m != name
    ensures !Matches(e, m)
  {
  }

  lemma {:induction false} AppendEntry(live: seq<string>, name: string, value: string, m: string)
    requires '=' !in name && '=' !in m && FirstMatch(live, name) == |live|
    ensures Variable(live + [Entry(name, value)], m) == if m == name then Some(value) else Variable(live, m)
  {
    EntryMatches(name, value, m);
    var f := FirstMatch(live, m);
    if f < |live| || m == name {
      FirstMatchIs(live + [Entry(name, value)], m, f);
    } else {
      FirstMatchIs(live + [Entry(name, value)], m, f + 1);
    }
  }

  lemma {:induction false} RemoveEntries(live: seq<string>, name: string, m: string)
    requires '=' !in name && '=' !in m
    ensures Variable(WithoutMatches(live, name), m) == if m == name then None else Variable(live, m)
  {
    if live != [] {
      RemoveEntries(live[1..], name, m);
      if Matches(live[0], name) && m != name {
        NamesDiffer(live[0], name, m);
      }
      HeadVariable(live, m);
      if !Matches(live[0], name) {
        HeadVariable(WithoutMatches(live, name), m);
        assert WithoutMatches(live, name)[1..] == WithoutMatches(live[1..], name);
      }
    }
  }

  lemma HeadVariable(live: seq<string>, m: string)
    requires live != []
    ensures Variable(live, m) == if Matches(live[0], m) then Some(live[0][|m| + 1..]) else Variable(live[1..], m)
  {
  }

  // ---------------------------------------------------------------------------
  // The block
  // ---------------------------------------------------------------------------

  class Environment {
    /** `environ`, and whether it is the copy `__environ`. */
    var environ: array<Option<string>>
    var copied: bool
    var environSize: nat

    ghost predicate Valid()
      reads this, environ
    {
      && |Live(environ[..])| < environ.Length
      && (copied ==>
            && environ.Length == environSize && environSize >= 2
            && environ[environSize - 2] == None && environ[environSize - 1] == None)
    }

    ghost function Entries(): (live: seq<string>)
      reads this, environ
    {
      Live(environ[..])
    }

    /** A copy whose two spare slots come right after the live entries. */
    ghost predicate NoGap()
      reads this, environ
    {
      !copied || environSize == |Entries()| + 2
    }

    constructor (block: array<Option<string>>)
      requires |Live(block[..])| < block.Length
      ensures Valid() && environ == block && !copied
    {
      environ := block;
      copied := false;
      environSize := 0;
    }

    method FindEntry(name: string) returns (index: int)
      requires Valid()
      ensures var k := FirstMatch(Entries(), name); index == if k < |Entries()| then k else -1
    {
      ghost var live := Entries();
      index := 0;
      while environ[index].Some?
        invariant 0 <= index <= |live|
        invariant forall j :: 0 <= j < index ==> !Matches(live[j], name)
        decreases |live| - index
      {
        if Matches(environ[index].value, name) {
          FirstMatchIs(live, name, index);
          return;
        }
        index := index + 1;
      }
      FirstMatchIs(live, name, index);
      index := -1;
    }

    method Get(name: string) returns (value: Option<string>)
      requires Valid()
      ensures value == Getenv(Entries(), name)
    {
      var index := FindEntry(name);
      if index < 0 {
        return None;
      }
      var entry := environ[index].value;
      if |name| + 1 < |entry| {
        return Some(entry[|name| + 1..]);
      }
      assert entry[|name| + 1..] == "";
      return None;
    }
  
    /** The copy: the same entries, then two null pointers. */
    method CloneEnviron()
      requires Valid()
      modifies this
      ensures Valid() && copied && NoGap() && Entries() == old(Entries()) && fresh(environ)
    {
      ghost var live := Entries();
      environSize := 0;
      while environ[environSize].Some?
        invariant 0 <= environSize <= |live|
        invariant environ == old(environ)
        decreases |live| - environSize
      {
        environSize := environSize + 1;
      }
      var block := new Option<string>[environSize + 2](_ => None);
      for i := 0 to environSize
        modifies block
        invariant forall j :: 0 <= j < i ==> block[j] == Some(live[j])
        invariant forall j :: i <= j < block.Length ==> block[j] == None
      {
        block[i] := environ[i];
      }
      environSize := environSize + 2;
      environ := block;
      copied := true;
      LiveIs(environ[..], live);
    }

    /** The copy extended by one slot. */
    method Grow()
      requires Valid() && copied
      modifies this
      ensures copied && fresh(environ) && environSize == old(environSize) + 1 == environ.Length
      ensures environ[..] == old(environ[..]) + [None]
    {
      ghost var block := environ[..];
      var newEnviron := new Option<string>[environSize + 1](_ => None);
      for i := 0 to environSize
        modifies newEnviron
        invariant forall j :: 0 <= j < i ==> newEnviron[j] == block[j]
        invariant forall j :: i <= j < newEnviron.Length ==> newEnviron[j] == None
      {
        newEnviron[i] := environ[i];
      }
      environSize := environSize + 1;
      newEnviron[environSize - 2] := None;
      newEnviron[environSize - 1] := None;
      environ := newEnviron;
    }

    /**
     Setting a variable that exists replaces its first entry if asked to; a new one is added at the
     end. After a removal has left a gap, the new entry lands behind the end of the list and is lost,
     although the call reports success.
     */
    method Set(name: Option<string>, value: string, replace: bool) returns (result: int)
      requires Valid()
      modifies this, environ
      ensures Valid() && (environ == old(environ) || fresh(environ))
      ensures NoGap() <==> old(NoGap())
      ensures result == SetResult(old(Entries()), name, replace)
      ensures result == 0 || result == -1
      ensures result == 0 <==>
        ValidName(name) && (replace || forall e :: e in old(Entries()) ==> !Matches(e, name.value))
      ensures Entries() == SetEntries(old(Entries()), old(NoGap()), name, value, replace)
    {
      hide Live, FirstMatch, Entry;
      if name.None? || name.value == "" || '=' in name.value {
        return -1;
      }
      if !copied {
        CloneEnviron();
      }
      result := SetCopied(name.value, value, replace);
    }

    /** The second half of setenv, on the copy. */
    method SetCopied(name: string, value: string, replace: bool) returns (result: int)
      requires Valid() && copied && ValidName(Some(name))
      modifies this, environ
      ensures Valid() && copied && (environ == old(environ) || fresh(environ))
      ensures NoGap() <==> old(NoGap())
      ensures result == SetResult(old(Entries()), Some(name), replace)
      ensures Entries() == SetEntries(old(Entries()), old(NoGap()), Some(name), value, replace)
    {
      hide Live, FirstMatch, Entry;
      ghost var block := environ[..];
      var index := FindEntry(name);
      if index >= 0 {
        if !replace {
          return -1;
        }
      } else {
        index := environSize - 2;
        Grow();
      }
      environ[index] := Some(Entry(name, value));
      LiveAfterSet(block, index, environ[..]);
      return 0;
    }

    /** Later pointers move back by one, up to and including the null pointer. */
    method ShiftDown(ep: nat)
      requires Valid() && ep < |Entries()|
      modifies environ
      ensures Valid() && Entries() == old(Entries()[..ep] + Entries()[ep + 1..])
    {
      hide Live;
      ghost var live, block := Entries(), environ[..];
      assert forall k :: 0 <= k < |live| ==> block[k] == Some(live[k]);
      assert |live| < |block| && block[|live|] == None;
      var dp := ep;
      var more := true;
      while more
        invariant ep <= dp <= |live| < |block| == environ.Length && (more <==> dp < |live|)
        invariant forall j :: 0 <= j < ep || dp <= j < |block| ==> environ[j] == block[j]
        invariant forall j {:trigger environ[j]} :: ep <= j < dp ==> environ[j] == block[j + 1]
        decreases |live| - dp
      {
        environ[dp] := environ[dp + 1];
        more := environ[dp].Some?;
        dp := dp + 1;
      }
      LiveIs(environ[..], live[..ep] + live[ep + 1..]);
    }

    /** Every entry of the name goes and the others keep their order; the slots are not given back. */
    method Unset(name: Option<string>) returns (result: int)
      requires Valid()
      modifies this, environ
      ensures Valid() && (environ == old(environ) || fresh(environ))
      ensures result == if ValidName(name) then 0 else -1
      ensures Entries() == if ValidName(name) then WithoutMatches(old(Entries()), name.value) else old(Entries())
      ensures NoGap() <==> old(NoGap()) && |Entries()| == |old(Entries())|
    {
      hide Live, Matches, WithoutMatches;
      if name.None? || name.value == "" || '=' in name.value {
        return -1;
      }
      if !copied {
        CloneEnviron();
      }
      ghost var all, size := Entries(), environSize;
      var ep := 0;
      label start:
      while environ[ep].Some?
        modifies environ
        invariant Valid() && copied && environSize == size
        invariant 0 <= ep <= |Entries()| <= |all|
        invariant WithoutMatches(Entries(), name.value) == WithoutMatches(all, name.value)
        invariant forall j :: 0 <= j < ep ==> !Matches(Entries()[j], name.value)
        decreases |Entries()| - ep
      {
        if Matches(environ[ep].value, name.value) {
          RemoveOne(Entries(), ep, name.value);
          ShiftDown(ep);
        } else {
          ep := ep + 1;
        }
      }
      NothingLeft(Entries(), name.value);
      return 0;
    }
  }

  lemma {:induction false} RemoveOne(live: seq<string>, k: nat, name: string)
    requires k < |live| && Matches(live[k], name)
    ensures WithoutMatches(live[..k] + live[k + 1..], name) == WithoutMatches(live, name)
  {
    var rest := live[..k] + live[k + 1..];
    if k > 0 {
      RemoveOne(live[1..], k - 1, name);
      assert rest[1..] == live[1..][..k - 1] + live[1..][k..];
    } else {
      assert rest == live[1..];
    }
  }

  lemma {:induction false} NothingLeft(live: seq<string>, name: string)
    requires forall j :: 0 <= j < |live| ==> !Matches(live[j], name)
    ensures WithoutMatches(live, name) == live
  {
    if live != [] {
      NothingLeft(live[1..], name);
    }
  }

  function SetResult(live: seq<string>, name: Option<string>, replace: bool): (r: int) {
    if !ValidName(name) then -1
    else if FirstMatch(live, name.value) < |live| && !replace then -1
    else 0
  }

  function SetEntries(live: seq<string>, noGap: bool, name: Option<string>, value: string,
                      replace: bool): (r: seq<string>)
  {
    if !ValidName(name) then live
    else
      var k := FirstMatch(live, name.value);
      if k < |live| then (if replace then live[k := Entry(name.value, value)] else live)
      else if noGap then live + [Entry(name.value, value)]
      else live
  }

  /** Writing one slot of the block: a live one, the first free one, or one behind it. */
  lemma LiveAfterSet(block: seq<Option<string>>, index: nat, after: seq<Option<string>>)
    requires |Live(block)| + 1 < |block| && index < |block| <= |after| <= |block| + 1 && after[index].Some?
    requires forall j :: 0 <= j < |after| && j != index ==> after[j] == if j < |block| then block[j] else None
    requires block[|block| - 1] == None && (index < |Live(block)| || index == |block| - 2)
    ensures var live := Live(block);
            Live(after) == if index < |live| then live[index := after[index].value]
                           else if index == |live| then live + [after[index].value]
                           else live
  {
    hide Live;
    var live := Live(block);
    if index < |live| {
      LiveIs(after, live[index := after[index].value]);
    } else if index == |live| {
      LiveIs(after, live + [after[index].value]);
    } else {
      LiveIs(after, live);
    }
  }

  // ---------------------------------------------------------------------------
  // Runs
  // ---------------------------------------------------------------------------

  datatype Call =
    | SetEnv(name: Option<string>, value: string, replace: bool)
    | UnsetEnv(name: Option<string>)
    | GetEnv(variable: string)

  datatype Reply = Code(code: int) | Value(value: Option<string>)

  /** The live entries, and whether the two spare slots come right after them. */
  datatype State = State(live: seq<string>, noGap: bool)

  function StateAfter(s: State, c: Call): (r: State) {
    match c
    case SetEnv(name, value, replace) => State(SetEntries(s.live, s.noGap, name, value, replace), s.noGap)
    case UnsetEnv(name) =>
      if ValidName(name) then
        var live := WithoutMatches(s.live, name.value);
        State(live, s.noGap && |live| == |s.live|)
      else s
    case GetEnv(_) => s
  }

  function ReplyOf(s: State, c: Call): (r: Reply) {
    match c
    case SetEnv(name, _, replace) => Code(SetResult(s.live, name, replace))
    case UnsetEnv(name) => Code(if ValidName(name) then 0 else -1)
    case GetEnv(variable) => Value(Getenv(s.live, variable))
  }

  function StateAfterAll(s: State, run: seq<Call>): (r: State)
    decreases |run|
  {
    if run == [] then s else StateAfterAll(StateAfter(s, run[0]), run[1..])
  }

  function Replies(s: State, run: seq<Call>): (r: seq<Reply>)
    ensures |r| == |run|
    decreases |run|
  {
    if run == [] then [] else [ReplyOf(s, run[0])] + Replies(StateAfter(s, run[0]), run[1..])
  }

  /** Every run of calls, removals and bad names included, on any block. */
  method Execute(e: Environment, run: seq<Call>) returns (replies: seq<Reply>)
    requires e.Valid()
    modifies e, e.environ
    ensures e.Valid()
    ensures State(e.Entries(), e.NoGap()) == StateAfterAll(old(State(e.Entries(), e.NoGap())), run)
    ensures replies == Replies(old(State(e.Entries(), e.NoGap())), run)
  {
    hide *;
    ghost var s := State(e.Entries(), e.NoGap());
    replies := [];
    assert run[0..] == run;
    for k := 0 to |run|
      invariant e.Valid() && (e.environ == old(e.environ) || fresh(e.environ))
      invariant StateAfterAll(State(e.Entries(), e.NoGap()), run[k..]) == StateAfterAll(s, run)
      invariant replies + Replies(State(e.Entries(), e.NoGap()), run[k..]) == Replies(s, run)
    {
      RunStep(State(e.Entries(), e.NoGap()), run, k);
      var reply := Perform(e, run[k]);
      replies := replies + [reply];
    }
    RunEnd(State(e.Entries(), e.NoGap()), run);
  }

  method Perform(e: Environment, c: Call) returns (reply: Reply)
    requires e.Valid()
    modifies e, e.environ
    ensures e.Valid() && (e.environ == old(e.environ) || fresh(e.environ))
    ensures State(e.Entries(), e.NoGap()) == StateAfter(old(State(e.Entries(), e.NoGap())), c)
    ensures reply == ReplyOf(old(State(e.Entries(), e.NoGap())), c)
  {
    hide Environment.Valid, Environment.Entries, Environment.NoGap, SetEntries, SetResult, WithoutMatches, Getenv;
    match c
    case SetEnv(name, value, replace) =>
      var code := e.Set(name, value, replace);
      reply := Code(code);
    case UnsetEnv(name) =>
      var code := e.Unset(name);
      reply := Code(code);
    case GetEnv(variable) =>
      var value := e.Get(variable);
      reply := Value(value);
  }

  lemma RunStep(s: State, run: seq<Call>, k: nat)
    requires k < |run|
    ensures StateAfterAll(s, run[k..]) == StateAfterAll(StateAfter(s, run[k]), run[k + 1..])
    ensures Replies(s, run[k..]) == [ReplyOf(s, run[k])] + Replies(StateAfter(s, run[k]), run[k + 1..])
  {
    hide StateAfter, ReplyOf;
    assert run[k..][1..] == run[k + 1..];
  }

  lemma RunEnd(s: State, run: seq<Call>)
    ensures StateAfterAll(s, run[|run|..]) == s && Replies(s, run[|run|..]) == []
  {
  }

  // ---------------------------------------------------------------------------
  // The environment as a map
  // ---------------------------------------------------------------------------

  function FirstEquals(e: string): (k: nat)
    ensures k <= |e| && '=' !in e[..k] && (k < |e| ==> e[k] == '=')
  {
    if e == "" || e[0] == '=' then 0 else 1 + FirstEquals(e[1..])
  }

  /** Each name with the value of its first entry. */
  function ToMap(live: seq<string>): (m: map<string, string>)
    ensures forall x :: x in m ==> '=' !in x
  {
    if live == [] then map[]
    else
      var e, k := live[0], FirstEquals(live[0]);
      if k < |e| then ToMap(live[1..])[e[..k] := e[k + 1..]] else ToMap(live[1..])
  }

  lemma {:induction false} MapIsVariable(live: seq<string>, x: string)
    requires '=' !in x
    ensures Variable(live, x) == Lookup(ToMap(live), x)
  {
    if live != [] {
      HeadVariable(live, x);
      MapIsVariable(live[1..], x);
      MatchesName(live[0], x);
    }
  }

  lemma MatchesName(e: string, x: string)
    requires '=' !in x
    ensures Matches(e, x) <==> FirstEquals(e) < |e| && x == e[..FirstEquals(e)]
  {
    var k := FirstEquals(e);
    if Matches(e, x) {
      assert forall i :: 0 <= i < |x| ==> e[i] == x[i] && x[i] != '=';
    }
  }

  function Lookup(m: map<string, string>, x: string): (v: Option<string>) {
    if x in m then Some(m[x]) else None
  }

  /** The variables, and whether a removal has left a gap. */
  datatype Vars = Vars(values: map<string, string>, gap: bool)

  function Abstract(s: State): (v: Vars) {
    Vars(ToMap(s.live), !s.noGap)
  }

  function VarsAfter(v: Vars, c: Call): (r: Vars) {
    match c
    case SetEnv(name, value, replace) =>
      if ValidName(name) && (if name.value in v.values then replace else !v.gap)
      then v.(values := v.values[name.value := value])
      else v
    case UnsetEnv(name) =>
      if ValidName(name) && name.value in v.values then Vars(v.values - {name.value}, true) else v
    case GetEnv(_) => v
  }

  /** An empty value is not told from a missing variable. */
  function VarsReply(v: Vars, c: Call): (r: Reply) {
    match c
    case SetEnv(name, _, replace) => Code(if ValidName(name) && (name.value in v.values ==> replace) then 0 else -1)
    case UnsetEnv(name) => Code(if ValidName(name) then 0 else -1)
    case GetEnv(variable) =>
      Value(if variable in v.values && v.values[variable] != "" then Some(v.values[variable]) else None)
  }

  function VarsAfterAll(v: Vars, run: seq<Call>): (r: Vars)
    decreases |run|
  {
    if run == [] then v else VarsAfterAll(VarsAfter(v, run[0]), run[1..])
  }

  function VarsReplies(v: Vars, run: seq<Call>): (r: seq<Reply>)
    ensures |r| == |run|
    decreases |run|
  {
    if run == [] then [] else [VarsReply(v, run[0])] + VarsReplies(VarsAfter(v, run[0]), run[1..])
  }

  predicate Plain(c: Call) {
    c.GetEnv? ==> '=' !in c.variable
  }

  /** Over every run the block behaves as the map: all the variables, the gap and all the replies. */
  lemma {:induction false} RunRefinesMap(s: State, run: seq<Call>)
    requires forall k :: 0 <= k < |run| ==> Plain(run[k])
    ensures Abstract(StateAfterAll(s, run)) == VarsAfterAll(Abstract(s), run)
    ensures Replies(s, run) == VarsReplies(Abstract(s), run)
    decreases |run|
  {
    hide Abstract, StateAfter, VarsAfter, ReplyOf, VarsReply;
    if run != [] {
      CallRefinesMap(s, run[0]);
      RunRefinesMap(StateAfter(s, run[0]), run[1..]);
    }
  }

  lemma CallRefinesMap(s: State, c: Call)
    requires Plain(c)
    ensures Abstract(StateAfter(s, c)) == VarsAfter(Abstract(s), c) && ReplyOf(s, c) == VarsReply(Abstract(s), c)
  {
    hide ToMap, Variable, WithoutMatches, SetEntries;
    match c
    case SetEnv(name, value, replace) =>
      if ValidName(name) {
        SetIsMapUpdate(s.live, s.noGap, name.value, value, replace);
      } else {
        BadName(s.live, s.noGap, name, value, replace);
      }
    case UnsetEnv(name) =>
      if ValidName(name) {
        UnsetIsMapRemoval(s.live, name.value);
      }
    case GetEnv(variable) =>
      MapIsVariable(s.live, variable);
      GetIsVariable(s.live, variable);
  }

  lemma BadName(live: seq<string>, noGap: bool, name: Option<string>, value: string, replace: bool)
    requires !ValidName(name)
    ensures SetEntries(live, noGap, name, value, replace) == live
  {
  }

  lemma GetIsVariable(live: seq<string>, name: string)
    ensures Getenv(live, name) == if Variable(live, name) == Some("") then None else Variable(live, name)
  {
  }

  lemma SetIsMapUpdate(live: seq<string>, noGap: bool, name: string, value: string, replace: bool)
    requires ValidName(Some(name))
    ensures var m := ToMap(live);
            && (name in m <==> FirstMatch(live, name) < |live|)
            && ToMap(SetEntries(live, noGap, Some(name), value, replace)) ==
               if (if name in m then replace else noGap) then m[name := value] else m
  {
    hide ToMap, FirstMatch;
    var m, after := ToMap(live), SetEntries(live, noGap, Some(name), value, replace);
    MapIsVariable(live, name);
    if after != live || (if name in m then replace else noGap) {
      forall x | '=' !in x
        ensures Lookup(ToMap(after), x) == if x == name then Some(value) else Lookup(m, x)
      {
        MapIsVariable(live, x);
        MapIsVariable(after, x);
        if FirstMatch(live, name) < |live| {
          ReplaceEntry(live, name, value, x);
        } else {
          AppendEntry(live, name, value, x);
        }
      }
      SameLookups(ToMap(after), m[name := value]);
    }
  }

  lemma SameLookups(m: map<string, string>, n: map<string, string>)
    requires forall x :: x in m || x in n ==> '=' !in x
    requires forall x :: '=' !in x ==> Lookup(m, x) == Lookup(n, x)
    ensures m == n
  {
    assert forall x :: x in m ==> x in n && m[x] == n[x] by {
      assert forall x :: x in m ==> Lookup(m, x) == Lookup(n, x);
    }
    assert forall x :: x in n ==> x in m by {
      assert forall x :: x in n ==> Lookup(m, x) == Lookup(n, x);
    }
  }

  lemma UnsetIsMapRemoval(live: seq<string>, name: string)
    requires '=' !in name
    ensures var m := ToMap(live);
            && ToMap(WithoutMatches(live, name)) == m - {name}
            && (name in m <==> |WithoutMatches(live, name)| < |live|)
  {
    hide ToMap, WithoutMatches;
    var m, after := ToMap(live), WithoutMatches(live, name);
    MapIsVariable(live, name);
    RemovedSome(live, name);
    forall x | '=' !in x
      ensures Lookup(ToMap(after), x) == Lookup(m - {name}, x)
    {
      MapIsVariable(live, x);
      MapIsVariable(after, x);
      RemoveEntries(live, name, x);
    }
    SameLookups(ToMap(after), m - {name});
  }

  lemma {:induction false} RemovedSome(live: seq<string>, name: string)
    ensures FirstMatch(live, name) < |live| <==> |WithoutMatches(live, name)| < |live|
  {
    if live != [] {
      RemovedSome(live[1..], name);
    }
  }

  // ---------------------------------------------------------------------------
  // What the gap costs
  // ---------------------------------------------------------------------------

  /** Once something has been removed, no new name is ever visible again. */
  lemma {:induction false} NoNewNames(v: Vars, run: seq<Call>)
    requires v.gap
    ensures VarsAfterAll(v, run).gap && VarsAfterAll(v, run).values.Keys <= v.values.Keys
    decreases |run|
  {
    if run != [] {
      NoNewNames(VarsAfter(v, run[0]), run[1..]);
    }
  }

  /** An environment that never loses anything. */
  function Ideal(m: map<string, string>, c: Call): (r: map<string, string>) {
    match c
    case SetEnv(name, value, replace) =>
      if ValidName(name) && (name.value in m ==> replace) then m[name.value := value] else m
    case UnsetEnv(name) => if ValidName(name) then m - {name.value} else m
    case GetEnv(_) => m
  }

  function IdealAll(m: map<string, string>, run: seq<Call>): (r: map<string, string>)
    decreases |run|
  {
    if run == [] then m else IdealAll(Ideal(m, run[0]), run[1..])
  }

  /** No call of the run sets a name that is not defined after one has been removed. */
  predicate NothingLost(m: map<string, string>, gap: bool, run: seq<Call>)
    decreases |run|
  {
    run != [] ==>
      && !(gap && run[0].SetEnv? && ValidName(run[0].name) && run[0].name.value !in m)
      && NothingLost(Ideal(m, run[0]), gap || Removes(m, run[0]), run[1..])
  }

  predicate Removes(m: map<string, string>, c: Call) {
    c.UnsetEnv? && ValidName(c.name) && c.name.value in m
  }

  ghost predicate SameThroughout(v: Vars, m: map<string, string>, run: seq<Call>)
    decreases |run|
  {
    v.values == m && (run != [] ==> SameThroughout(VarsAfter(v, run[0]), Ideal(m, run[0]), run[1..]))
  }

  /** The block is the ideal environment throughout a run if and only if the run loses nothing. */
  lemma {:induction false} IdealExactlyWhen(v: Vars, run: seq<Call>)
    ensures NothingLost(v.values, v.gap, run) <==> SameThroughout(v, v.values, run)
    decreases |run|
  {
    if run != [] {
      var c, next := run[0], VarsAfter(v, run[0]);
      if c.SetEnv? && ValidName(c.name) && c.name.value !in v.values && v.gap {
        assert c.name.value in Ideal(v.values, c) && c.name.value !in next.values;
      } else {
        assert next.values == Ideal(v.values, c) && next.gap == (v.gap || Removes(v.values, c));
        IdealExactlyWhen(next, run[1..]);
      }
    }
  }

  /** The smallest such loss: remove one variable, set another, and it is not there. */
  lemma LostVariable(s: State)
    requires s == State(["A=1"], true)
    ensures Replies(s, [UnsetEnv(Some("A")), SetEnv(Some("B"), "2", true), GetEnv("B")]) ==
            [Code(0), Code(0), Value(None)]
  {
    hide Replies, StateAfterAll, StateAfter, ReplyOf;
    var c1, c2, c3 := UnsetEnv(Some("A")), SetEnv(Some("B"), "2", true), GetEnv("B");
    RunRefinesMap(s, [c1, c2, c3]);
    assert "A=1"[..1] == "A" && "A=1"[2..] == "1";
    assert FirstEquals("A=1") == 1;
    assert ["A=1"][1..] == [];
    var v := Abstract(s);
    assert v == Vars(map["A" := "1"], false);
    assert VarsAfter(v, c1) == Vars(map[], true);
    assert [c1, c2, c3][1..] == [c2, c3] && [c2, c3][1..] == [c3];
  }

  /** setenv then getenv: the value comes back exactly when it is not empty and the entry was not lost. */
  lemma SetThenGet(live: seq<string>, noGap: bool, name: string, value: string)
    requires ValidName(Some(name))
    ensures Getenv(SetEntries(live, noGap, Some(name), value, true), name) == Some(value) <==>
            value != "" && (noGap || Variable(live, name) != None)
  {
    if FirstMatch(live, name) < |live| {
      ReplaceEntry(live, name, value, name);
    } else {
      AppendEntry(live, name, value, name);
    }
  }
}
