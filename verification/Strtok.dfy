/**
 strtok_r(), which looks delimiters up in a bitmap, and strtok(), which scans the delimiter string for
 every character and keeps its place in a static variable. Both write a NUL over the delimiter that
 ends a token. For strtok_r() characters are ASCII: the source indexes the bitmap with a plain char.
 */
module Strtok {
  import opened Machine

  ghost predicate Ascii(s: string) {
    forall k :: 0 <= k < |s| ==> '\0' < s[k] && s[k] as int < 128
  }

  // ---------------------------------------------------------------------------
  // Tokens
  // ---------------------------------------------------------------------------

  function SkipFrom(text: string, p: nat, delim: string): (q: nat)
    requires p <= |text|
    ensures p <= q <= |text| && (q < |text| ==> text[q] !in delim)
    ensures forall k :: p <= k < q ==> text[k] in delim
    decreases |text| - p
  {
    if p < |text| && text[p] in delim then SkipFrom(text, p + 1, delim) else p
  }

  function EndFrom(text: string, p: nat, delim: string): (e: nat)
    requires p <= |text|
    ensures p <= e <= |text| && (e < |text| ==> text[e] in delim)
    ensures forall k :: p <= k < e ==> text[k] !in delim
    decreases |text| - p
  {
    if p < |text| && text[p] !in delim then EndFrom(text, p + 1, delim) else p
  }

  datatype Token = Token(start: nat, end: nat)

  /** The position behind the delimiter at `e`, if there is one. */
  function Behind(text: string, e: nat): (p: nat) {
    if e < |text| then e + 1 else e
  }

  function TokensFrom(text: string, p: nat, delim: string): (tokens: seq<Token>)
    requires p <= |text|
    decreases |text| - p
  {
    var q := SkipFrom(text, p, delim);
    if q == |text| then []
    else
      var e := EndFrom(text, q, delim);
      [Token(q, e)] + TokensFrom(text, Behind(text, e), delim)
  }

  /** A non-empty run without delimiters that cannot be made longer. */
  ghost predicate Maximal(text: string, t: Token, delim: string) {
    && t.start < t.end <= |text|
    && (forall k :: t.start <= k < t.end ==> text[k] !in delim)
    && (t.start > 0 ==> text[t.start - 1] in delim)
    && (t.end < |text| ==> text[t.end] in delim)
  }

  ghost predicate Covers(tokens: seq<Token>, k: nat) {
    exists i :: 0 <= i < |tokens| && tokens[i].start <= k < tokens[i].end
  }

  /** Maximal runs from `p` on, in order. */
  ghost predicate Runs(text: string, tokens: seq<Token>, p: nat, delim: string) {
    && (forall i :: 0 <= i < |tokens| ==> p <= tokens[i].start && Maximal(text, tokens[i], delim))
    && (forall i, j :: 0 <= i < j < |tokens| ==> tokens[i].end < tokens[j].start)
  }

  lemma RunsCons(text: string, t: Token, rest: seq<Token>, p: nat, next: nat, delim: string)
    requires Runs(text, rest, next, delim) && Maximal(text, t, delim)
    requires p <= t.start <= next && (t.end < next || rest == [])
    ensures Runs(text, [t] + rest, p, delim)
  {
    hide Maximal;
  }

  /** The tokens are maximal runs, in order. */
  lemma {:induction false} TokensAreRuns(text: string, p: nat, delim: string)
    requires p <= |text| && (0 < p < |text| ==> text[p - 1] in delim)
    ensures Runs(text, TokensFrom(text, p, delim), p, delim)
    decreases |text| - p
  {
    hide Runs;
    var q := SkipFrom(text, p, delim);
    if q < |text| {
      var e := EndFrom(text, q, delim);
      var next := Behind(text, e);
      TokensAreRuns(text, next, delim);
      RunsCons(text, Token(q, e), TokensFrom(text, next, delim), p, next, delim);
    } else {
      NoRuns(text, p, delim);
    }
  }

  lemma NoRuns(text: string, p: nat, delim: string)
    ensures Runs(text, [], p, delim)
  {
  }

  /** Every character that is no delimiter is in a token, and nothing else is. */
  lemma {:induction false} TokensCover(text: string, p: nat, delim: string, k: nat)
    requires p <= k < |text|
    ensures Covers(TokensFrom(text, p, delim), k) <==> text[k] !in delim
    decreases |text| - p
  {
    var tokens := TokensFrom(text, p, delim);
    var q := SkipFrom(text, p, delim);
    if q < |text| {
      var e := EndFrom(text, q, delim);
      var next := Behind(text, e);
      var rest := TokensFrom(text, next, delim);
      HeadCovers(Token(q, e), rest, k);
      if next <= k {
        TokensCover(text, next, delim, k);
      } else {
        NotBefore(text, next, delim, k);
      }
    }
  }

  lemma HeadCovers(t: Token, rest: seq<Token>, k: nat)
    ensures Covers([t] + rest, k) <==> t.start <= k < t.end || Covers(rest, k)
  {
    var tokens := [t] + rest;
    if Covers(rest, k) {
      var i :| 0 <= i < |rest| && rest[i].start <= k < rest[i].end;
      assert tokens[i + 1] == rest[i];
    }
    if t.start <= k < t.end {
      assert tokens[0] == t;
    }
    if Covers(tokens, k) {
      var i :| 0 <= i < |tokens| && tokens[i].start <= k < tokens[i].end;
      assert i > 0 ==> rest[i - 1] == tokens[i];
    }
  }

  lemma {:induction false} NotBefore(text: string, p: nat, delim: string, k: nat)
    requires k < p <= |text|
    ensures !Covers(TokensFrom(text, p, delim), k)
    decreases |text| - p
  {
    var q := SkipFrom(text, p, delim);
    if q < |text| {
      var e := EndFrom(text, q, delim);
      NotBefore(text, Behind(text, e), delim, k);
      HeadCovers(Token(q, e), TokensFrom(text, Behind(text, e), delim), k);
    }
  }

  // ---------------------------------------------------------------------------
  // strtok_r
  // ---------------------------------------------------------------------------

  function Mask(k: nat): (m: bv8)
    requires k < 8
  {
    match k
    case 0 => 1
    case 1 => 2
    case 2 => 4
    case 3 => 8
    case 4 => 16
    case 5 => 32
    case 6 => 64
    case 7 => 128
  }

  predicate InMap(map32: seq<bv8>, c: char)
    requires |map32| == 32 && c as int < 128
  {
    map32[c as int / 8] & Mask(c as int % 8) != 0
  }

  function Added(map32: seq<bv8>, c: char): (r: seq<bv8>)
    requires |map32| == 32 && c as int < 128
    ensures |r| == 32
  {
    var n := c as int;
    map32[n / 8 := map32[n / 8] | Mask(n % 8)]
  }

  lemma MaskBits(b: bv8, j: nat, k: nat)
    requires j < 8 && k < 8
    ensures (b | Mask(j)) & Mask(k) != 0 <==> j == k || b & Mask(k) != 0
  {
  }

  lemma AddedHas(map32: seq<bv8>, c: char, d: char)
    requires |map32| == 32 && c as int < 128 && d as int < 128
    ensures InMap(Added(map32, c), d) <==> c == d || InMap(map32, d)
  {
    hide Mask;
    MaskBits(map32[d as int / 8], c as int % 8, d as int % 8);
  }

  /** The delimiter table: the delimiters and the terminating NUL. */
  method BuildMap(delim: string) returns (m: array<bv8>)
    requires Ascii(delim)
    ensures fresh(m) && m.Length == 32
    ensures forall c: char :: c as int < 128 ==> (InMap(m[..], c) <==> c in delim || c == '\0')
  {
    hide InMap, Mask;
    m := new bv8[32](_ => 0);
    NoBits(m[..]);
    var ctrl := 0;
    var more := true;
    while more
      invariant 0 <= ctrl <= |delim| + 1 && (more <==> ctrl <= |delim|)
      invariant forall c: char :: c as int < 128 ==>
        (InMap(m[..], c) <==> c in delim[..if more then ctrl else |delim|] || (!more && c == '\0'))
      decreases |delim| + 1 - ctrl
    {
      var c := if ctrl < |delim| then delim[ctrl] else '\0';
      ghost var before := m[..];
      m[c as int / 8] := m[c as int / 8] | Mask(c as int % 8);
      assert m[..] == Added(before, c);
      forall d: char | d as int < 128
        ensures InMap(m[..], d) <==> c == d || InMap(before, d)
      {
        AddedHas(before, c, d);
      }
      more := c != '\0';
      ctrl := ctrl + 1;
      assert more ==> delim[..ctrl] == delim[..ctrl - 1] + [c];
    }
  }

  lemma NoBits(map32: seq<bv8>)
    requires |map32| == 32 && forall k :: 0 <= k < 32 ==> map32[k] == 0
    ensures forall c: char :: c as int < 128 ==> !InMap(map32, c)
  {
  }

  /** What is known of the buffer at position `p`: the rest of the text and its terminator. */
  ghost predicate HasRest(buffer: seq<char>, text: string, p: nat) {
    && p <= |text| < |buffer|
    && buffer[p..|text|] == text[p..]
    && buffer[|text|] == '\0'
  }

  /**
   One call of strtok_r on the rest of `text` at `p`: the next token, if any, is ended by a NUL, and
   the saved position is the one behind it.
   */
  method StrtokR(buffer: array<char>, str: Option<nat>, delim: string, saveptr: nat, ghost text: string)
    returns (token: Option<nat>, save: nat)
    requires Ascii(text) && Ascii(delim)
    requires HasRest(buffer[..], text, if str.Some? then str.value else saveptr)
    modifies buffer
    ensures var p := if str.Some? then str.value else saveptr;
            var q := SkipFrom(text, p, delim);
            var e := EndFrom(text, q, delim);
            && token == (if q == |text| then None else Some(q))
            && save == Behind(text, e)
            && buffer[..] == old(buffer[..])[e := '\0']
  {
    hide InMap, SkipFrom, EndFrom;
    var m := BuildMap(delim);
    ghost var bits := m[..];
    ghost var p := if str.Some? then str.value else saveptr;
    var s := if str.Some? then str.value else saveptr;
    ghost var b := buffer[..];
    RestAt(b, text, p);
    assert forall k :: 0 <= k < |b| ==> buffer[k] == b[k];
    while InMap(m[..], buffer[s]) && buffer[s] != '\0'
      invariant p <= s <= |text| && SkipFrom(text, s, delim) == SkipFrom(text, p, delim)
      invariant buffer[..] == b && m[..] == bits
      decreases |text| - s
    {
      SkipStep(text, s, delim);
      s := s + 1;
    }
    SkipStep(text, s, delim);
    var start := s;
    ghost var e := |text|;
    EndStep(text, |text|, delim);
    while buffer[s] != '\0'
      invariant start <= s <= |text| && EndFrom(text, s, delim) == EndFrom(text, start, delim)
      invariant buffer[..] == b && m[..] == bits
      decreases |text| - s
    {
      EndStep(text, s, delim);
      if InMap(m[..], buffer[s]) {
        e := s;
        buffer[s] := '\0';
        s := s + 1;
        break;
      }
      s := s + 1;
    }
    assert e == EndFrom(text, start, delim) && s == Behind(text, e) && buffer[..] == b[e := '\0'];
    save := s;
    if start == s {
      token := None;
    } else {
      token := Some(start);
    }
  }

  lemma RestAt(b: seq<char>, text: string, p: nat)
    requires HasRest(b, text, p) && '\0' !in text
    ensures p <= |text| < |b|
    ensures forall k :: p <= k < |text| ==> b[k] == text[k]
    ensures forall k :: p <= k <= |text| ==> (b[k] == '\0' <==> k == |text|)
  {
  }

  lemma SkipStep(text: string, p: nat, delim: string)
    requires p <= |text|
    ensures p < |text| && text[p] in delim ==> SkipFrom(text, p, delim) == SkipFrom(text, p + 1, delim)
    ensures p == |text| || text[p] !in delim ==> SkipFrom(text, p, delim) == p
  {
  }

  lemma EndStep(text: string, p: nat, delim: string)
    requires p <= |text|
    ensures p < |text| && text[p] !in delim ==> EndFrom(text, p, delim) == EndFrom(text, p + 1, delim)
    ensures p == |text| || text[p] in delim ==> EndFrom(text, p, delim) == p
  {
  }

  // ---------------------------------------------------------------------------
  // strtok
  // ---------------------------------------------------------------------------

  /** The inner loops: scan the delimiter string for `c`; the second one also tries its terminator. */
  method Scan(c: char, delim: string, terminator: bool) returns (found: bool)
    requires '\0' !in delim
    ensures found <==> c in delim || (terminator && c == '\0')
  {
    var span := 0;
    while span < |delim|
      invariant 0 <= span <= |delim| && c !in delim[..span]
    {
      if c == delim[span] {
        return true;
      }
      span := span + 1;
    }
    return terminator && c == '\0';
  }

  /** The first part: read over delimiters; `s` is behind the character `c` read last. */
  method SkipDelimiters(buffer: array<char>, p: nat, delim: string, ghost text: string) returns (c: char, s: nat)
    requires '\0' !in text && '\0' !in delim && HasRest(buffer[..], text, p)
    ensures s == SkipFrom(text, p, delim) + 1 && (c == '\0' <==> s == |text| + 1)
  {
    hide SkipFrom, HasRest;
    ghost var b := buffer[..];
    RestAt(b, text, p);
    assert forall k :: 0 <= k < |b| ==> buffer[k] == b[k];
    c, s := buffer[p], p + 1;
    var found := Scan(c, delim, false);
    while found
      invariant p < s <= |text| + 1 && c == b[s - 1] && (found <==> c in delim)
      invariant SkipFrom(text, s - 1, delim) == SkipFrom(text, p, delim)
      decreases |text| - s
    {
      assert s - 1 < |text|;
      SkipStep(text, s - 1, delim);
      c, s := buffer[s], s + 1;
      found := Scan(c, delim, false);
    }
    SkipStep(text, s - 1, delim);
  }

  /** The second part: read up to the delimiter or terminator that ends the token at `tok`. */
  method FindEnd(buffer: array<char>, tok: nat, delim: string, ghost text: string) returns (c: char, s: nat)
    requires '\0' !in text && '\0' !in delim && HasRest(buffer[..], text, tok)
    requires tok < |text| && text[tok] !in delim
    ensures s == EndFrom(text, tok, delim) + 1 && (c == '\0' <==> s == |text| + 1)
  {
    hide EndFrom, HasRest;
    ghost var b := buffer[..];
    RestAt(b, text, tok);
    assert forall k :: 0 <= k < |b| ==> buffer[k] == b[k];
    EndStep(text, tok, delim);
    c, s := buffer[tok + 1], tok + 2;
    var found := Scan(c, delim, true);
    while !found
      invariant tok + 1 < s <= |text| + 1 && c == b[s - 1] && (found <==> c in delim || c == '\0')
      invariant EndFrom(text, s - 1, delim) == EndFrom(text, tok, delim)
      decreases |text| + 1 - s
    {
      assert s - 1 < |text|;
      EndStep(text, s - 1, delim);
      c, s := buffer[s], s + 1;
      found := Scan(c, delim, true);
    }
    EndStep(text, s - 1, delim);
  }

  /** Where one call reads and writes, and what happens at the end of the text. */
  lemma InBuffer(b: seq<char>, text: string, p: nat, delim: string)
    requires HasRest(b, text, p)
    ensures p <= |text| < |b|
    ensures var q := SkipFrom(text, p, delim);
            var e := EndFrom(text, q, delim);
            && q <= e <= |text| && HasRest(b, text, q)
            && (q < |text| ==> text[q] !in delim)
            && (q == |text| ==> e == |text|)
            && (e == |text| ==> b[e := '\0'] == b)
            && (p == |text| ==> q == |text|)
  {
  }

  class Tokenizer {
    /** The static variable of the source. */
    var last: Option<nat>

    constructor ()
      ensures last == None
    {
      last := None;
    }

    /** One call of strtok: the same token and the same cut as strtok_r makes. */
    method Next(buffer: array<char>, str: Option<nat>, delim: string, ghost text: string) returns (token: Option<nat>)
      requires '\0' !in text && '\0' !in delim
      requires str.Some? ==> HasRest(buffer[..], text, str.value)
      requires str.None? && last.Some? ==> HasRest(buffer[..], text, last.value)
      modifies this, buffer
      ensures str.None? && old(last).None? ==> token == None && last == None && buffer[..] == old(buffer[..])
      ensures str.Some? || old(last).Some? ==>
                var p := if str.Some? then str.value else old(last).value;
                var q := SkipFrom(text, p, delim);
                var e := EndFrom(text, q, delim);
                && token == (if q == |text| then None else Some(q))
                && last == (if e == |text| then None else Some(e + 1))
                && buffer[..] == old(buffer[..])[e := '\0']
    {
      hide *;
      if str.None? && last.None? {
        return None;
      }
      var p := if str.Some? then str.value else last.value;
      InBuffer(buffer[..], text, p, delim);
      var c, s := SkipDelimiters(buffer, p, delim, text);
      if c == '\0' {
        last := None;
        return None;
      }
      var tok := s - 1;
      c, s := FindEnd(buffer, tok, delim, text);
      if c == '\0' {
        last := None;
      } else {
        buffer[s - 1] := '\0';
        last := Some(s);
      }
      return Some(tok);
    }
  }

  // ---------------------------------------------------------------------------
  // All tokens
  // ---------------------------------------------------------------------------

  function Starts(tokens: seq<Token>): (r: seq<nat>)
    ensures |r| == |tokens|
  {
    if tokens == [] then [] else [tokens[0].start] + Starts(tokens[1..])
  }

  /** The buffer with a NUL at the end of every token. */
  function Cut(b: seq<char>, tokens: seq<Token>): (r: seq<char>)
    ensures |r| == |b|
    decreases |tokens|
  {
    if tokens == [] then b
    else Cut(if tokens[0].end < |b| then b[tokens[0].end := '\0'] else b, tokens[1..])
  }

  /** The cuts are the ends of the tokens, and nothing else changes. */
  lemma {:induction false} CutAt(b: seq<char>, tokens: seq<Token>, k: nat)
    requires k < |b|
    ensures Cut(b, tokens)[k] == if exists i :: 0 <= i < |tokens| && tokens[i].end == k then '\0' else b[k]
    decreases |tokens|
  {
    if tokens != [] {
      var rest := tokens[1..];
      CutAt(if tokens[0].end < |b| then b[tokens[0].end := '\0'] else b, rest, k);
      assert forall i :: 0 < i < |tokens| ==> rest[i - 1] == tokens[i];
      assert forall i :: 0 <= i < |rest| ==> rest[i] == tokens[i + 1];
    }
  }

  /** In the cut buffer the C string at the start of a token is that token. */
  lemma CutToken(b: seq<char>, text: string, delim: string, i: nat)
    requires HasRest(b, text, 0) && i < |TokensFrom(text, 0, delim)|
    ensures var t := TokensFrom(text, 0, delim)[i];
            var cut := Cut(b, TokensFrom(text, 0, delim));
            && t.start <= t.end <= |text|
            && cut[t.start..t.end] == text[t.start..t.end] && cut[t.end] == '\0'
  {
    hide TokensFrom, Cut;
    var tokens := TokensFrom(text, 0, delim);
    var t, cut := tokens[i], Cut(b, tokens);
    TokensAreRuns(text, 0, delim);
    assert Maximal(text, t, delim);
    CutAt(b, tokens, t.end);
    forall k | t.start <= k < t.end
      ensures cut[k] == text[k]
    {
      CutAt(b, tokens, k);
      forall j | 0 <= j < |tokens|
        ensures tokens[j].end != k
      {
        assert Maximal(text, tokens[j], delim);
      }
      assert b[0..|text|][k] == text[0..][k];
    }
  }

  /** What one call means for the tokens and cuts that are left. */
  lemma OneToken(b: seq<char>, text: string, p: nat, delim: string)
    requires HasRest(b, text, p)
    ensures var q := SkipFrom(text, p, delim);
            var e := EndFrom(text, q, delim);
            var tokens, rest := TokensFrom(text, p, delim), TokensFrom(text, Behind(text, e), delim);
            && e < |b| && HasRest(b[e := '\0'], text, Behind(text, e))
            && (if q == |text| then e == |text| && tokens == [] && b[e := '\0'] == b
                else Starts(tokens) == [q] + Starts(rest) && Cut(b, tokens) == Cut(b[e := '\0'], rest) && e > p)
    ensures Starts([]) == [] && Cut(b, []) == b
  {
    var q := SkipFrom(text, p, delim);
    var e := EndFrom(text, q, delim);
    var after := b[e := '\0'];
    assert after[Behind(text, e)..|text|] == text[Behind(text, e)..] by {
      assert b[p..|text|] == text[p..];
      assert forall k :: p <= k < |text| ==> b[k] == b[p..|text|][k - p];
    }
    if q == |text| {
      assert after == b;
    }
  }

  /** The tokens still to come and the cuts still to be made after a call that returned `token`. */
  ghost predicate Pending(b: seq<char>, text: string, save: nat, delim: string, token: Option<nat>, starts: seq<nat>,
                          all: seq<nat>, cut: seq<char>)
  {
    && HasRest(b, text, save)
    && (token.None? ==> starts == all && b == cut)
    && (token.Some? ==>
          && starts + [token.value] + Starts(TokensFrom(text, save, delim)) == all
          && Cut(b, TokensFrom(text, save, delim)) == cut)
  }

  lemma FirstCall(b: seq<char>, text: string, delim: string)
    requires HasRest(b, text, 0)
    ensures var q := SkipFrom(text, 0, delim);
            var e := EndFrom(text, q, delim);
            var tokens := TokensFrom(text, 0, delim);
            e < |b| &&
            Pending(b[e := '\0'], text, Behind(text, e), delim, if q == |text| then None else Some(q), [],
                    Starts(tokens), Cut(b, tokens))
  {
    hide HasRest, TokensFrom, Starts, Cut, SkipFrom, EndFrom;
    OneToken(b, text, 0, delim);
    var q := SkipFrom(text, 0, delim);
    if q < |text| {
      var rest := Starts(TokensFrom(text, Behind(text, EndFrom(text, q, delim)), delim));
      assert [] + [q] + rest == [q] + rest;
    }
  }

  lemma NextCall(b: seq<char>, text: string, save: nat, delim: string, token: Option<nat>, starts: seq<nat>,
                 all: seq<nat>, cut: seq<char>)
    requires token.Some? && Pending(b, text, save, delim, token, starts, all, cut)
    ensures save <= |text|
    ensures var q := SkipFrom(text, save, delim);
            var e := EndFrom(text, q, delim);
            e < |b| &&
            Pending(b[e := '\0'], text, Behind(text, e), delim, if q == |text| then None else Some(q),
                    starts + [token.value], all, cut)
  {
    OneToken(b, text, save, delim);
    var q := SkipFrom(text, save, delim);
    if q < |text| {
      var rest := Starts(TokensFrom(text, Behind(text, EndFrom(text, q, delim)), delim));
      assert starts + [token.value] + ([q] + rest) == (starts + [token.value]) + [q] + rest;
    }
  }

  /** Repeated strtok_r: all tokens in order, every one ended by a NUL, and then nothing more. */
  method SplitR(buffer: array<char>, delim: string, ghost text: string) returns (starts: seq<nat>, save: nat)
    requires Ascii(text) && Ascii(delim) && HasRest(buffer[..], text, 0)
    modifies buffer
    ensures starts == Starts(TokensFrom(text, 0, delim)) && save == |text|
    ensures buffer[..] == Cut(old(buffer[..]), TokensFrom(text, 0, delim)) && HasRest(buffer[..], text, save)
  {
    hide HasRest, TokensFrom, Starts, Cut, Pending, SkipFrom, EndFrom;
    starts := [];
    ghost var all, cut := Starts(TokensFrom(text, 0, delim)), Cut(buffer[..], TokensFrom(text, 0, delim));
    FirstCall(buffer[..], text, delim);
    var token;
    token, save := StrtokR(buffer, Some(0), delim, 0, text);
    while token.Some?
      invariant save <= |text| && Pending(buffer[..], text, save, delim, token, starts, all, cut)
      invariant token.None? ==> save == |text|
      decreases |text| - save, token.Some?
    {
      NextCall(buffer[..], text, save, delim, token, starts, all, cut);
      Rest(buffer[..], text, save, delim, token, starts, all, cut);
      starts := starts + [token.value];
      token, save := StrtokR(buffer, None, delim, save, text);
    }
    Rest(buffer[..], text, save, delim, token, starts, all, cut);
  }

  lemma Rest(b: seq<char>, text: string, save: nat, delim: string, token: Option<nat>, starts: seq<nat>,
             all: seq<nat>, cut: seq<char>)
    requires Pending(b, text, save, delim, token, starts, all, cut)
    ensures HasRest(b, text, save)
    ensures token.None? ==> starts == all && b == cut
  {
  }

  /** Repeated strtok: the same tokens and the same buffer. */
  method Split(t: Tokenizer, buffer: array<char>, delim: string, ghost text: string) returns (starts: seq<nat>)
    requires '\0' !in text && '\0' !in delim && HasRest(buffer[..], text, 0)
    modifies t, buffer
    ensures starts == Starts(TokensFrom(text, 0, delim)) && t.last == None
    ensures buffer[..] == Cut(old(buffer[..]), TokensFrom(text, 0, delim))
  {
    hide HasRest, TokensFrom, Starts, Cut, Pending, SkipFrom, EndFrom;
    starts := [];
    ghost var all, cut := Starts(TokensFrom(text, 0, delim)), Cut(buffer[..], TokensFrom(text, 0, delim));
    FirstCall(buffer[..], text, delim);
    var token := t.Next(buffer, Some(0), delim, text);
    ghost var save := if t.last.Some? then t.last.value else |text|;
    while token.Some?
      invariant save == if t.last.Some? then t.last.value else |text|
      invariant save <= |text| && Pending(buffer[..], text, save, delim, token, starts, all, cut)
      invariant token.None? ==> t.last == None
      decreases |text| - save, token.Some?
    {
      NextCall(buffer[..], text, save, delim, token, starts, all, cut);
      Rest(buffer[..], text, save, delim, token, starts, all, cut);
      InBuffer(buffer[..], text, save, delim);
      starts := starts + [token.value];
      token := t.Next(buffer, None, delim, text);
      save := if t.last.Some? then t.last.value else |text|;
    }
    Rest(buffer[..], text, save, delim, token, starts, all, cut);
  }
}
