/**
 realpath(): one pass over the absolute path, copying characters into the caller's buffer and
 rewinding in place at "/../". A slash is added at the end of the path first, so that every
 component is followed by one, and taken off at the end.
 */
module RealPath {
  import opened Paths

  const PATH_MAX: nat := 4096

  /** The NUL-terminated string at the start of a buffer. */
  ghost predicate Holds(buffer: seq<char>, p: string) {
    |p| < |buffer| && buffer[..|p|] == p && buffer[|p|] == '\0'
  }

  /** strncmp(prefix, s + i, |prefix|) == 0. */
  predicate At(s: string, i: nat, prefix: string) {
    i + |prefix| <= |s| && s[i..i + |prefix|] == prefix
  }

  /** The work left at the slash at position `b`. */
  ghost function Rest(s: string, b: nat): (cs: seq<string>)
    requires b < |s|
    ensures |cs| > 0
  {
    Split(s[b + 1..])
  }

  /** Moving over the component between the slashes at `b` and `e`. */
  lemma NextComponent(s: string, b: nat, e: nat, stack: seq<string>)
    requires b < e < |s| && s[e] == '/' && '/' !in s[b + 1..e]
    ensures var c := s[b + 1..e];
            && Rest(s, b)[0] == c && |Rest(s, b)| > 1
            && EnterAll(stack, Rest(s, b)) == EnterAll(Enter(stack, c), Rest(s, e))
            && Peak(stack, Rest(s, b)) ==
               (var rest := Peak(Enter(stack, c), Rest(s, e));
                if IsName(c) && |Rendered(Enter(stack, c))| > rest then |Rendered(Enter(stack, c))| else rest)
  {
    var p, k := s[b + 1..], e - b - 1;
    assert p[..k] == s[b + 1..e] && p[k + 1..] == s[e + 1..];
    SplitAt(p, k);
    assert Split(p)[1..] == Rest(s, e);
  }

  /** At the last slash nothing is left but to copy it. */
  lemma LastSlash(s: string, stack: seq<string>)
    requires s != ""
    ensures EnterAll(stack, Rest(s, |s| - 1)) == stack
    ensures Peak(stack, Rest(s, |s| - 1)) == |Rendered(stack)| + 1
  {
  }

  /** The last name in the buffer, and the slash in front of it. */
  lemma LastName(b: string, stack: seq<string>)
    requires Names(stack) && b == Rendered(stack) && stack != []
    ensures var last := stack[|stack| - 1];
            var front := |b| - |last| - 1;
            && front >= 0 && b[front] == '/' && b[..front] == Rendered(Enter(stack, ".."))
            && forall k :: front < k < |b| ==> b[k] != '/'
  {
    var last := stack[|stack| - 1];
    var front := |b| - |last| - 1;
    assert b == Rendered(stack[..|stack| - 1]) + "/" + last;
    forall k | front < k < |b|
      ensures b[k] != '/'
    {
      assert b[k] == last[k - front - 1] && b[k] in last;
    }
  }

  lemma NothingAbove(stack: seq<string>)
    ensures stack == [] ==> Rendered(stack) == "" && Enter(stack, "..") == []
    ensures stack != [] ==> |Rendered(stack)| >= |stack[|stack| - 1]| + 1
  {
  }

  /** The rewinding at "/../": back to the slash in front of the last name, or to the start. */
  method Back(buffer: array<char>, from: nat, ghost stack: seq<string>) returns (pathidx: nat)
    requires from <= buffer.Length
    ensures pathidx <= from
    ensures Names(stack) && buffer[..from] == Rendered(stack) ==> buffer[..pathidx] == Rendered(Enter(stack, ".."))
  {
    hide Rendered, Names;
    pathidx := from;
    NothingAbove(stack);
    ghost var last := if stack == [] then "" else stack[|stack| - 1];
    ghost var front := if stack == [] then 0 else |Rendered(stack)| - |last| - 1;
    ghost var good := Names(stack) && buffer[..from] == Rendered(stack) && stack != [];
    if pathidx > 0 {
      pathidx := pathidx - 1;
    }
    if good {
      LastName(buffer[..from], stack);
      assert buffer[..from][..front] == buffer[..front];
      assert forall k :: front <= k < from ==> buffer[..from][k] == buffer[k];
    }
    while pathidx > 0 && buffer[pathidx] != '/'
      invariant pathidx <= from && (from > 0 ==> pathidx < from)
      invariant good ==> front <= pathidx
    {
      pathidx := pathidx - 1;
    }
  }

  /** Where the loop is: at a slash with the names so far in the buffer, or inside a component. */
  ghost predicate Progress(s: string, b: nat, i: nat, out: string, stack: seq<string>) {
    && b <= i <= |s| && b < |s| && s[b] == '/' && Names(stack)
    && (if i == b then out == Rendered(stack)
        else
          && out == Rendered(stack) + s[b..i]
          && '/' !in s[b + 1..i]
          && (i < |s| ==> s[i] != '/')
          && (b == |s| - 1 || IsName(Rest(s, b)[0])))
  }

  /** One character is copied: what it means for the position, and how it bounds the room needed. */
  lemma {:induction false} CopyStep(s: string, b: nat, i: nat, out: string, stack: seq<string>)
    returns (b': nat, stack': seq<string>)
    requires s != "" && s[|s| - 1] == '/' && i < |s| && Progress(s, b, i, out, stack)
    requires !At(s, i, "//") && !At(s, i, "/../") && !At(s, i, "/./")
    ensures Progress(s, b', i + 1, out + [s[i]], stack')
    ensures EnterAll(stack', Rest(s, b')) == EnterAll(stack, Rest(s, b))
    ensures Peak(stack, Rest(s, b)) >= |out| + 1
    ensures Peak(stack, Rest(s, b)) >= Peak(stack', Rest(s, b'))
    ensures Peak(stack, Rest(s, b)) > Peak(stack', Rest(s, b')) ==> Peak(stack, Rest(s, b)) == |out| + 1
  {
    hide EnterAll, Peak, Split, Rendered, Enter, At;
    b', stack' := b, stack;
    assert s[b..i] + [s[i]] == s[b..i + 1];
    if b == |s| - 1 {
      LastSlash(s, stack);
    } else {
      var e := ComponentEnd(s, b, i);
      NextComponent(s, b, e, stack);
      var c := s[b + 1..e];
      assert s[b..e] == "/" + c;
      if i == b {
        SpecialComponent(s, b, e);
      }
      PushName(stack, c);
      if i + 1 == e {
        b', stack' := e, stack + [c];
        assert out + [s[i]] == Rendered(stack) + s[b..e];
      } else {
        assert '/' !in s[b + 1..i + 1];
      }
    }
  }

  /** The slash that ends the component after `b`, given that none is met up to `i`. */
  lemma ComponentEnd(s: string, b: nat, i: nat) returns (e: nat)
    requires b <= i < |s| && b < |s| - 1 && s[|s| - 1] == '/'
    requires i > b ==> '/' !in s[b + 1..i] && s[i] != '/'
    ensures i < e < |s| && b < e && s[e] == '/' && '/' !in s[b + 1..e]
  {
    e := i + 1;
    assert i > b ==> s[b + 1..e] == s[b + 1..i] + [s[i]];
    while s[e] != '/'
      invariant i < e < |s| && '/' !in s[b + 1..e]
      decreases |s| - e
    {
      assert s[b + 1..e + 1] == s[b + 1..e] + [s[e]];
      e := e + 1;
    }
  }

  lemma PushName(stack: seq<string>, c: string)
    ensures Rendered(stack + [c]) == Rendered(stack) + "/" + c
    ensures IsName(c) ==> Enter(stack, c) == stack + [c]
  {
  }

  lemma SpecialComponent(s: string, b: nat, e: nat)
    requires b < e < |s| && s[b] == '/' && s[e] == '/'
    ensures var c := s[b + 1..e];
            !IsName(c) ==> At(s, b, "//") || At(s, b, "/../") || At(s, b, "/./")
  {
    var c := s[b + 1..e];
    assert s[b..e + 1] == "/" + c + "/";
  }

  /** The loop invariant: where the loop is, and that the work left leads to the same result and room. */
  ghost predicate Working(s: string, b: nat, i: nat, out: string, stack: seq<string>, buflen: nat) {
    && s != "" && Progress(s, b, i, out, stack)
    && EnterAll(stack, Rest(s, b)) == EnterAll([], Rest(s, 0))
    && (Peak(stack, Rest(s, b)) < buflen <==> Peak([], Rest(s, 0)) < buflen)
  }

  lemma WorkStarts(s: string, buflen: nat)
    requires s != "" && s[0] == '/'
    ensures Working(s, 0, 0, "", [], buflen)
  {
  }

  /** Stepping over one of "//", "/../" and "/./": only a slash can start it. */
  lemma SkipStep(s: string, b: nat, i: nat, out: string, stack: seq<string>, buflen: nat, c: string)
    requires Working(s, b, i, out, stack, buflen) && At(s, i, "/" + c + "/") && c in ["", "..", "."]
    ensures out == Rendered(stack) && Names(stack) && (c != ".." ==> Enter(stack, c) == stack)
    ensures Working(s, i + 1 + |c|, i + 1 + |c|, Rendered(Enter(stack, c)), Enter(stack, c), buflen)
  {
    hide EnterAll, Peak, Rendered, Split, At;
    PatternAt(s, i, c);
    NextComponent(s, i, i + 1 + |c|, stack);
  }

  lemma PatternAt(s: string, i: nat, c: string)
    requires At(s, i, "/" + c + "/")
    ensures i + 1 + |c| < |s| && s[i] == '/' && s[i + 1 + |c|] == '/' && s[i + 1..i + 1 + |c|] == c
  {
    var e, p := i + 1 + |c|, "/" + c + "/";
    assert s[i..e + 1] == p;
    assert s[i] == p[0] && s[e] == p[e - i];
    forall k | 0 <= k < |c|
      ensures s[i + 1 + k] == c[k]
    {
      assert s[i..e + 1][1 + k] == p[1 + k];
    }
  }

  lemma CopyWorks(s: string, b: nat, i: nat, out: string, stack: seq<string>, buflen: nat)
    returns (b': nat, stack': seq<string>)
    requires Working(s, b, i, out, stack, buflen) && i < |s| && s[|s| - 1] == '/'
    requires !At(s, i, "//") && !At(s, i, "/../") && !At(s, i, "/./")
    ensures |out| + 1 < buflen ==> Working(s, b', i + 1, out + [s[i]], stack', buflen)
    ensures |out| + 1 >= buflen ==> Peak([], Rest(s, 0)) >= buflen
  {
    hide EnterAll, Peak, Split, Progress, At;
    b', stack' := CopyStep(s, b, i, out, stack);
  }

  lemma LastIn(s: string, b: nat)
    requires s != ""
    ensures b < |s| - 1 ==> s[|s| - 1] in s[b + 1..]
  {
  }

  lemma WorkEnds(s: string, b: nat, out: string, stack: seq<string>, buflen: nat)
    requires Working(s, b, |s|, out, stack, buflen) && s[|s| - 1] == '/'
    ensures Names(stack) && out == Rendered(stack) + "/" && stack == EnterAll([], Rest(s, 0))
    ensures |out| < buflen <==> Peak([], Rest(s, 0)) < buflen
  {
    hide EnterAll, Peak, Split;
    LastIn(s, b);
    assert s[b + 1..|s|] == s[b + 1..];
    assert s[b..|s|] == "/";
    LastSlash(s, stack);
  }

  /** Memory is safe for every path; the result is what it should be when the path ends in a slash. */
  method Canonicalise(s: string, buffer: array<char>, buflen: nat) returns (ok: bool)
    requires s != "" && s[0] == '/' && buflen <= buffer.Length
    modifies buffer
    ensures buffer[buflen..] == old(buffer[buflen..])
    ensures s[|s| - 1] == '/' ==> (ok <==> Peak([], Rest(s, 0)) < buflen)
    ensures s[|s| - 1] == '/' && ok ==> Holds(buffer[..buflen], Render(EnterAll([], Rest(s, 0))))
  {
    hide Working, Peak, EnterAll, Rest, Rendered, Names, Enter;
    var absidx: nat, pathidx: nat := 0, 0;
    ghost var closed := s[|s| - 1] == '/';
    ghost var b: nat, stack: seq<string> := 0, [];
    WorkStarts(s, buflen);
    while absidx < |s|
      invariant absidx <= |s| && pathidx <= buffer.Length
      invariant pathidx == 0 || pathidx < buflen
      invariant absidx == |s| ==> pathidx > 0
      invariant buffer[buflen..] == old(buffer[buflen..])
      invariant closed ==> Working(s, b, absidx, buffer[..pathidx], stack, buflen)
      decreases |s| - absidx
    {
      ghost var out := buffer[..pathidx];
      if At(s, absidx, "//") {
        if closed {
          SkipStep(s, b, absidx, out, stack, buflen, "");
          b, stack := absidx + 1, Enter(stack, "");
        }
        absidx := absidx + 1;
      } else if At(s, absidx, "/../") {
        if closed {
          SkipStep(s, b, absidx, out, stack, buflen, "..");
        }
        pathidx := Back(buffer, pathidx, stack);
        b, stack := absidx + 3, Enter(stack, "..");
        absidx := absidx + 3;
      } else if At(s, absidx, "/./") {
        if closed {
          SkipStep(s, b, absidx, out, stack, buflen, ".");
          b, stack := absidx + 2, Enter(stack, ".");
        }
        absidx := absidx + 2;
      } else {
        if closed {
          b, stack := CopyWorks(s, b, absidx, out, stack, buflen);
        }
        if pathidx + 1 >= buflen {
          return false;
        }
        buffer[pathidx] := s[absidx];
        pathidx := pathidx + 1;
        absidx := absidx + 1;
        assert buffer[..pathidx] == out + [s[absidx - 1]];
      }
    }
    ghost var out := buffer[..pathidx];
    if closed {
      WorkEnds(s, b, out, stack, buflen);
    }
    if pathidx > 1 {
      buffer[pathidx - 1] := '\0';
    } else {
      buffer[1] := '\0';
    }
    ok := true;
    if closed {
      Ending(out, stack, buffer[..buflen]);
    }
  }

  /** The slash at the end is overwritten, unless it is the root. */
  lemma Ending(out: string, stack: seq<string>, buffer: seq<char>)
    requires Names(stack) && out == Rendered(stack) + "/" && |out| < |buffer|
    requires if |out| > 1 then buffer == out[..|out| - 1] + "\0" + buffer[|out|..]
             else buffer == out + "\0" + buffer[2..]
    ensures Holds(buffer, Render(stack))
  {
  }

  // ---------------------------------------------------------------------------
  // The whole function
  // ---------------------------------------------------------------------------

  predicate IsRelative(path: string) {
    path == "" || path[0] != '/'
  }

  /** The path to make canonical: itself, or below the current directory. */
  function Absolute(path: string, cwd: string): (p: string) {
    if IsRelative(path) then cwd + "/" + path else path
  }

  /** strncat(a, b, PATH_MAX - strlen(a) - 1), also used for the first copy. */
  function Append(a: string, b: string): (r: string)
    requires |a| < PATH_MAX
    ensures |r| < PATH_MAX
    ensures |a + b| < PATH_MAX ==> r == a + b
    ensures a <= r
  {
    if |a + b| < PATH_MAX then a + b else (a + b)[..PATH_MAX - 1]
  }

  /** The internal copy, cut off at PATH_MAX - 1 characters. */
  function WorkingCopy(path: string, cwd: string): (s: string)
    requires IsRelative(path) ==> |cwd| < PATH_MAX
  {
    var start := if IsRelative(path) then Append(Append(cwd, "/"), path) else Append("", path);
    Append(start, "/")
  }

  /**
   The result is the canonical path, and NULL (false) is returned exactly when it does not have room.
   Paths that are cut off in the working copy are still handled without leaving the buffer.
   */
  method RealPath(path: string, cwd: string, buffer: array<char>, buflen: nat) returns (ok: bool)
    requires buflen <= buffer.Length
    requires IsRelative(path) ==> 0 < |cwd| < PATH_MAX && cwd[0] == '/'
    modifies buffer
    ensures buffer[buflen..] == old(buffer[buflen..])
    ensures |Absolute(path, cwd)| + 1 < PATH_MAX ==> (ok <==> Room(Absolute(path, cwd)) < buflen)
    ensures |Absolute(path, cwd)| + 1 < PATH_MAX && ok ==> Holds(buffer[..buflen], Canonical(Absolute(path, cwd)))
    ensures !IsRelative(path) && |path| + 1 < PATH_MAX && ok ==> Holds(buffer[..buflen], Canonical(path))
    ensures IsRelative(path) && |cwd| + |path| + 2 < PATH_MAX && ok ==>
      Holds(buffer[..buflen], Render(EnterAll(StackOf(cwd), Split(path))))
  {
    hide Holds, Room, Canonical, Render, EnterAll, Peak, Rest, Split;
    var s := WorkingCopy(path, cwd);
    ok := Canonicalise(s, buffer, buflen);
    if |Absolute(path, cwd)| + 1 < PATH_MAX {
      var p := Absolute(path, cwd);
      assert s == p + "/";
      LeadingSlash(p);
      if IsRelative(path) {
        BelowCwd(path, cwd);
      }
    }
  }

  /** The components of a relative path are entered on top of the current directory. */
  lemma BelowCwd(path: string, cwd: string)
    requires IsRelative(path)
    ensures Canonical(Absolute(path, cwd)) == Render(EnterAll(StackOf(cwd), Split(path)))
  {
    hide Canonical, Render, EnterAll, Split;
    CanonicalBelow(cwd, path);
  }

  /** "" and "." are the current directory, ".." its parent, and a name lies below it. */
  lemma ShortPaths(cwd: string, name: string)
    requires IsName(name) && '/' !in name
    ensures Canonical(Absolute("", cwd)) == Canonical(cwd) && Canonical(Absolute(".", cwd)) == Canonical(cwd)
    ensures Canonical(Absolute("..", cwd + "/" + name)) == Canonical(cwd)
    ensures Canonical(Absolute(name, cwd)) == (if Canonical(cwd) == "/" then "" else Canonical(cwd)) + "/" + name
  {
    hide Canonical, Split, EnterAll, StackOf;
    StackBelow(cwd, "");
    StackBelow(cwd, ".");
    StackBelow(cwd, name);
    StackBelow(cwd + "/" + name, "..");
    var stack := StackOf(cwd);
    assert (stack + [name])[..|stack|] == stack;
    CanonicalName(cwd, name);
    assert name[0] in name;
  }

  lemma LeadingSlash(p: string)
    requires p != "" && p[0] == '/'
    ensures Peak([], Rest(p + "/", 0)) == Room(p)
    ensures Render(EnterAll([], Rest(p + "/", 0))) == Canonical(p)
  {
    var s := p + "/";
    SplitAt(s, 0);
    assert Split(s)[1..] == Rest(s, 0);
    SplitSlash(p);
    EnterAllAppends([], Split(p), "");
    assert Split(s)[0] == "";
  }

  /**
   Idempotence: whenever realpath succeeds, the path it returns is absolute, fits the working copy,
   has room in a buffer of the same length, and is its own canonical path.
   */
  lemma RealPathIsIdempotent(path: string, cwd: string, buflen: nat)
    requires IsRelative(path) ==> 0 < |cwd| && cwd[0] == '/'
    requires var p := Absolute(path, cwd); |p| + 1 < PATH_MAX && Room(p) < buflen
    ensures var c := Canonical(Absolute(path, cwd));
            && Absolute(c, cwd) == c && |c| + 1 < PATH_MAX
            && Room(c) < buflen
            && Canonical(c) == c
  {
    hide Canonical, Room;
    var p := Absolute(path, cwd);
    CanonicalIsCanonical(p);
    CanonicalIsNoLonger(p);
    CanonicalNeedsNoMoreRoom(p);
  }

  /** The added slash takes a byte of its own: except for "/", a result that fits exactly is refused. */
  lemma ExactFitIsRefused(path: string, buflen: nat)
    requires buflen == |Canonical(path)| + 1
    ensures Canonical(path) != "/" ==> !(Room(path) < buflen)
  {
    hide Room, Rendered;
    CanonicalNeedsNoMoreRoom(path);
  }
}
