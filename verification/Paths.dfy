/**
 Canonical paths: a path is split at its slashes, and its components are folded over a stack of
 directory names.
 */
module Paths {

  function Split(p: string): (c: seq<string>)
    ensures |c| > 0
  {
    if '/' !in p then [p]
    else
      var k := FirstSlash(p);
      [p[..k]] + Split(p[k + 1..])
  }

  function FirstSlash(p: string): (k: nat)
    requires '/' in p
    ensures k < |p| && p[k] == '/' && '/' !in p[..k]
  {
    if p[0] == '/' then 0 else 1 + FirstSlash(p[1..])
  }

  /** Neither empty nor "." nor "..". */
  predicate IsName(c: string) {
    c != "" && c != "." && c != ".."
  }

  function Enter(stack: seq<string>, c: string): (r: seq<string>) {
    if IsName(c) then stack + [c]
    else if c == ".." && stack != [] then stack[..|stack| - 1]
    else stack
  }

  function EnterAll(stack: seq<string>, cs: seq<string>): (r: seq<string>)
    decreases |cs|
  {
    if cs == [] then stack else EnterAll(Enter(stack, cs[0]), cs[1..])
  }

  /** The names, each with a slash in front. */
  function Rendered(stack: seq<string>): (p: string) {
    if stack == [] then "" else Rendered(stack[..|stack| - 1]) + "/" + stack[|stack| - 1]
  }

  function Render(stack: seq<string>): (p: string) {
    if stack == [] then "/" else Rendered(stack)
  }

  function Canonical(path: string): (p: string) {
    Render(EnterAll([], Split(path)))
  }

  /**
   The most characters the work on `cs` puts in the buffer, when it holds the names of `stack`; the
   last component stands for the end of the path, where a slash is put.
   */
  function Peak(stack: seq<string>, cs: seq<string>): (n: nat)
    requires |cs| > 0
    decreases |cs|
  {
    if |cs| == 1 then |Rendered(stack)| + 1
    else
      var next := Enter(stack, cs[0]);
      var rest := Peak(next, cs[1..]);
      if IsName(cs[0]) && |Rendered(next)| > rest then |Rendered(next)| else rest
  }

  ghost predicate Names(stack: seq<string>) {
    forall i :: 0 <= i < |stack| ==> IsName(stack[i]) && '/' !in stack[i]
  }

  // ---------------------------------------------------------------------------
  // Splitting
  // ---------------------------------------------------------------------------

  lemma SplitAt(p: string, k: nat)
    requires k < |p| && p[k] == '/' && '/' !in p[..k]
    ensures Split(p) == [p[..k]] + Split(p[k + 1..])
  {
  }

  lemma SplitWhole(p: string)
    requires '/' !in p
    ensures Split(p) == [p]
  {
  }

  /** Splitting at a slash in the middle. */
  lemma {:induction false} SplitConcat(a: string, b: string)
    ensures Split(a + "/" + b) == Split(a) + Split(b)
  {
    hide Split;
    var p := a + "/" + b;
    if '/' !in a {
      SplitWhole(a);
      assert p[..|a|] == a && p[|a| + 1..] == b;
      SplitAt(p, |a|);
    } else {
      var k := FirstSlash(a);
      var rest := a[k + 1..];
      SplitConcat(rest, b);
      assert p[..k] == a[..k] && p[k + 1..] == rest + "/" + b;
      SplitAt(p, k);
      SplitAt(a, k);
      assert Split(p) == [a[..k]] + (Split(rest) + Split(b));
    }
  }

  lemma SplitJoin(a: string, b: string)
    requires '/' !in b
    ensures Split(a + "/" + b) == Split(a) + [b]
  {
    hide Split;
    SplitWhole(b);
    SplitConcat(a, b);
  }

  lemma SplitSlash(p: string)
    ensures Split(p + "/") == Split(p) + [""]
  {
    SplitJoin(p, "");
    assert p + "/" + "" == p + "/";
  }

  // ---------------------------------------------------------------------------
  // The stack
  // ---------------------------------------------------------------------------

  lemma {:induction false} EnterAllAppends(stack: seq<string>, cs: seq<string>, c: string)
    ensures EnterAll(stack, cs + [c]) == Enter(EnterAll(stack, cs), c)
    decreases |cs|
  {
    if cs != [] {
      EnterAllAppends(Enter(stack, cs[0]), cs[1..], c);
      assert (cs + [c])[1..] == cs[1..] + [c];
    }
  }

  lemma {:induction false} EnterAllConcat(stack: seq<string>, cs: seq<string>, ds: seq<string>)
    ensures EnterAll(stack, cs + ds) == EnterAll(EnterAll(stack, cs), ds)
    decreases |cs|
  {
    if cs == [] {
      assert cs + ds == ds;
    } else {
      EnterAllConcat(Enter(stack, cs[0]), cs[1..], ds);
      assert (cs + ds)[1..] == cs[1..] + ds;
    }
  }

  lemma {:induction false} SplitHasNoSlash(p: string)
    ensures forall i :: 0 <= i < |Split(p)| ==> '/' !in Split(p)[i]
  {
    if '/' in p {
      SplitHasNoSlash(p[FirstSlash(p) + 1..]);
    }
  }

  lemma {:induction false} EnterAllNames(stack: seq<string>, cs: seq<string>)
    requires Names(stack) && forall i :: 0 <= i < |cs| ==> '/' !in cs[i]
    ensures Names(EnterAll(stack, cs))
    decreases |cs|
  {
    if cs != [] {
      EnterAllNames(Enter(stack, cs[0]), cs[1..]);
    }
  }

  /** Reading a rendered stack gives the stack back. */
  lemma {:induction false} EnterRendered(stack: seq<string>)
    requires Names(stack)
    ensures EnterAll([], Split(Rendered(stack))) == stack
  {
    if stack != [] {
      var front, c := stack[..|stack| - 1], stack[|stack| - 1];
      EnterRendered(front);
      SplitJoin(Rendered(front), c);
      EnterAllAppends([], Split(Rendered(front)), c);
    }
  }

  // ---------------------------------------------------------------------------
  // Canonical paths
  // ---------------------------------------------------------------------------

  lemma {:induction false} SplitRendered(stack: seq<string>)
    requires Names(stack)
    ensures Split(Rendered(stack)) == [""] + stack
  {
    hide Split, IsName;
    if stack == [] {
      SplitWhole("");
    } else {
      var front, c := stack[..|stack| - 1], stack[|stack| - 1];
      SplitRendered(front);
      SplitJoin(Rendered(front), c);
    }
  }

  ghost function StackOf(path: string): (stack: seq<string>)
    ensures Names(stack) && Canonical(path) == Render(stack)
  {
    SplitHasNoSlash(path);
    EnterAllNames([], Split(path));
    EnterAll([], Split(path))
  }

  /**
   A canonical path is "/" or names with a slash in front of each: no empty, "." or ".." component
   and no slash at the end. Making it canonical again changes nothing.
   */
  lemma CanonicalIsCanonical(path: string)
    ensures var c, stack := Canonical(path), StackOf(path);
            && c != "" && c[0] == '/'
            && (if stack == [] then c == "/" else Split(c) == [""] + stack && c[|c| - 1] != '/')
            && Canonical(c) == c
  {
    var c, stack := Canonical(path), StackOf(path);
    if stack == [] {
      SplitSlash("");
      assert Split("/") == ["", ""];
    } else {
      SplitRendered(stack);
      EnterRendered(stack);
      RenderedEnds(stack);
    }
  }

  /** What follows a slash is entered on top of the directory in front of it. */
  lemma CanonicalBelow(a: string, b: string)
    ensures Canonical(a + "/" + b) == Render(EnterAll(StackOf(a), Split(b)))
  {
    hide Split, EnterAll, Render;
    SplitConcat(a, b);
    EnterAllConcat([], Split(a), Split(b));
  }

  /** A component with nothing but a slash behind it: the same as entering it and then the rest. */
  lemma CanonicalThrough(a: string, c: string, b: string)
    requires '/' !in c
    ensures Canonical(a + "/" + c + "/" + b) == Render(EnterAll(Enter(StackOf(a), c), Split(b)))
  {
    hide Split, EnterAll, Render, Enter;
    CanonicalBelow(a + "/" + c, b);
    SplitJoin(a, c);
    EnterAllAppends([], Split(a), c);
  }

  /**
   Canonical paths by laws of their own, on strings: an empty component and "." change nothing
   wherever they stand, a name and the ".." behind it cancel, and ".." at the root changes nothing.
   */
  lemma CanonicalLaws(a: string, name: string, b: string)
    requires IsName(name) && '/' !in name
    ensures Canonical(a + "/" + "" + "/" + b) == Canonical(a + "/" + b)
    ensures Canonical(a + "/" + "." + "/" + b) == Canonical(a + "/" + b)
    ensures Canonical(a + "/" + name + "/" + ".." + "/" + b) == Canonical(a + "/" + b)
    ensures Canonical("" + "/" + ".." + "/" + b) == Canonical("/" + b)
  {
    hide Split, EnterAll, Render, Canonical;
    CanonicalBelow(a, b);
    CanonicalThrough(a, "", b);
    CanonicalThrough(a, ".", b);
    CanonicalThrough(a + "/" + name, "..", b);
    StackBelow(a, name);
    var stack := StackOf(a);
    assert (stack + [name])[..|stack|] == stack;
    CanonicalThrough("", "..", b);
    CanonicalBelow("", b);
    assert "" + "/" + b == "/" + b;
    RootStack();
  }

  lemma StackBelow(a: string, c: string)
    requires '/' !in c
    ensures StackOf(a + "/" + c) == Enter(StackOf(a), c)
  {
    hide Split, EnterAll, Enter, Canonical;
    SplitJoin(a, c);
    EnterAllAppends([], Split(a), c);
  }

  lemma RootStack()
    ensures StackOf("") == []
  {
    hide Split;
    SplitWhole("");
  }

  /** A name is put behind the canonical path of its directory. */
  lemma CanonicalName(a: string, name: string)
    requires IsName(name) && '/' !in name
    ensures Canonical(a + "/" + name) == (if Canonical(a) == "/" then "" else Canonical(a)) + "/" + name
  {
    hide Split, EnterAll, Canonical;
    StackBelow(a, name);
    var stack := StackOf(a);
    assert (stack + [name])[..|stack|] == stack;
    assert Rendered(stack + [name]) == Rendered(stack) + "/" + name;
    if stack == [] {
      assert Rendered(stack) == "";
    } else {
      RenderedIsNotRoot(stack);
    }
  }

  lemma RenderedIsNotRoot(stack: seq<string>)
    requires Names(stack) && stack != []
    ensures Rendered(stack) != "/"
  {
    RenderedEnds(stack);
  }

  lemma {:induction false} RenderedEnds(stack: seq<string>)
    requires Names(stack) && stack != []
    ensures Rendered(stack) != "" && Rendered(stack)[0] == '/' && Rendered(stack)[|Rendered(stack)| - 1] != '/'
  {
    var front, c := stack[..|stack| - 1], stack[|stack| - 1];
    assert c[|c| - 1] in c;
    if front != [] {
      RenderedEnds(front);
    }
  }

  /** The characters needed, counting the slash put at the end of the path. */
  function Room(path: string): (n: nat) {
    Peak([], Split(path + "/"))
  }

  lemma {:induction false} PeakCoversEnd(stack: seq<string>, cs: seq<string>)
    ensures Peak(stack, cs + [""]) > |Rendered(EnterAll(stack, cs))|
    decreases |cs|
  {
    if cs != [] {
      PeakCoversEnd(Enter(stack, cs[0]), cs[1..]);
      assert (cs + [""])[1..] == cs[1..] + [""];
    }
  }

  lemma {:induction false} PeakOfNames(stack: seq<string>, names: seq<string>)
    requires Names(names)
    ensures Peak(stack, names + [""]) == |Rendered(stack + names)| + 1
    decreases |names|
  {
    if names == [] {
      assert stack + names == stack;
    } else {
      var next := stack + [names[0]];
      PeakOfNames(next, names[1..]);
      assert (names + [""])[1..] == names[1..] + [""];
      assert next + names[1..] == stack + names;
      RenderedGrows(next, names[1..]);
    }
  }

  lemma {:induction false} RenderedGrows(a: seq<string>, b: seq<string>)
    ensures |Rendered(a)| <= |Rendered(a + b)|
  {
    if b == [] {
      assert a + b == a;
    } else {
      RenderedGrows(a, b[..|b| - 1]);
      assert (a + b)[..|a + b| - 1] == a + b[..|b| - 1];
    }
  }

  /** The canonical path of a path that had room needs no more room. */
  lemma CanonicalNeedsNoMoreRoom(path: string)
    ensures Room(Canonical(path)) <= Room(path)
    ensures Room(path) > |Rendered(StackOf(path))|
  {
    hide *;
    RoomOfRender(StackOf(path));
    RoomCoversResult(path);
  }

  lemma RoomCoversResult(path: string)
    ensures Room(path) > |Rendered(StackOf(path))|
  {
    hide Split, EnterAll, Peak;
    SplitSlash(path);
    PeakCoversEnd([], Split(path));
  }

  lemma RoomOfRender(stack: seq<string>)
    requires Names(stack)
    ensures Room(Render(stack)) == |Rendered(stack)| + 1
  {
    hide Split, Peak, Rendered, Names;
    if stack == [] {
      RoomOfRoot();
    } else {
      SplitSlash(Rendered(stack));
      SplitRendered(stack);
      assert [""] + stack + [""] == [""] + (stack + [""]);
      PeakSkipsEmpty([], stack + [""]);
      PeakOfNames([], stack);
      assert [] + stack == stack;
    }
  }

  lemma PeakSkipsEmpty(stack: seq<string>, cs: seq<string>)
    requires |cs| > 0
    ensures Peak(stack, [""] + cs) == Peak(stack, cs)
  {
    assert ([""] + cs)[1..] == cs;
  }

  lemma RoomOfRoot()
    ensures Room("/") == 1 && Rendered([]) == ""
  {
    hide Split;
    SplitWhole("");
    SplitSlash("");
    assert "" + "/" == "/";
    SplitSlash("/");
    assert Split("/" + "/") == [""] + ([""] + [""]);
    PeakSkipsEmpty([], [""] + [""]);
    PeakSkipsEmpty([], [""]);
  }

  function TotalLength(cs: seq<string>): (n: nat) {
    if cs == [] then 0 else |cs[0]| + 1 + TotalLength(cs[1..])
  }

  lemma {:induction false} SplitLength(p: string)
    ensures TotalLength(Split(p)) == |p| + 1
  {
    if '/' in p {
      SplitLength(p[FirstSlash(p) + 1..]);
    }
  }

  lemma {:induction false} EnterAllLength(stack: seq<string>, cs: seq<string>)
    ensures |Rendered(EnterAll(stack, cs))| <= |Rendered(stack)| + TotalLength(cs)
    decreases |cs|
  {
    if cs != [] {
      EnterAllLength(Enter(stack, cs[0]), cs[1..]);
    }
  }

  lemma CanonicalIsNoLonger(path: string)
    requires path != "" && path[0] == '/'
    ensures |Canonical(path)| <= |path|
  {
    SplitAt(path, 0);
    SplitLength(path[1..]);
    EnterAllLength([], Split(path[1..]));
    assert Split(path)[1..] == Split(path[1..]);
    assert EnterAll([], Split(path)) == EnterAll([], Split(path[1..]));
  }

  lemma {:induction false} PeakAtMost(stack: seq<string>, cs: seq<string>)
    requires |cs| > 0
    ensures Peak(stack, cs) <= |Rendered(stack)| + TotalLength(cs)
    decreases |cs|
  {
    if |cs| > 1 {
      PeakAtMost(Enter(stack, cs[0]), cs[1..]);
    }
  }

  /** The room needed is at most that of the path with its added slash. */
  lemma RoomAtMost(path: string)
    requires path != "" && path[0] == '/'
    ensures Room(path) <= |path| + 1
  {
    hide Split, Peak, TotalLength;
    var rest := path[1..] + "/";
    assert path + "/" == ['/'] + rest;
    SplitAt(path + "/", 0);
    PeakSkipsEmpty([], Split(rest));
    PeakAtMost([], Split(rest));
    SplitLength(rest);
  }

  /**
   The room needed is not that of the result: into a directory and out of it again leads nowhere, but
   takes as much room as the name of the directory is long.
   */
  lemma Detour(path: string, name: string)
    requires IsName(name) && '/' !in name
    ensures var q := path + "/" + name + "/" + "..";
            Canonical(q) == Canonical(path) && Room(q) > |Rendered(StackOf(path))| + |name|
  {
    hide Split, EnterAll, Peak;
    var p := path + "/" + name;
    SplitJoin(path, name);
    SplitJoin(p, "..");
    SplitSlash(p + "/" + "..");
    var cs := Split(path);
    EnterAllAppends([], cs, name);
    EnterAllAppends([], cs + [name], "..");
    assert cs + [name] + [".."] + [""] == cs + [name] + ["..", ""];
    PeakOnTheWay([], cs, name, ["..", ""]);
    var stack := EnterAll([], cs);
    assert (stack + [name])[..|stack|] == stack;
  }

  lemma {:induction false} PeakOnTheWay(stack: seq<string>, cs: seq<string>, name: string, rest: seq<string>)
    requires IsName(name) && rest != []
    ensures Peak(stack, cs + [name] + rest) >= |Rendered(EnterAll(stack, cs) + [name])|
    decreases |cs|
  {
    var all := cs + [name] + rest;
    if cs == [] {
      assert all[0] == name && all[1..] == rest;
    } else {
      assert all[0] == cs[0] && all[1..] == cs[1..] + [name] + rest;
      PeakOnTheWay(Enter(stack, cs[0]), cs[1..], name, rest);
    }
  }
}
