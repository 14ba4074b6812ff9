/**
 The streaming SHA-256 context: bytes go into a 64-byte buffer that is compressed whenever it is
 full, and finishing pads the buffer in place. The 64-bit counter of compressed bits wraps around.
 */
module Sha256 {
  import opened S = Sha256Spec
  import Machine

  // The macros of the source, with ROTRIGHT written out.

  function Ep0(x: Word): (r: Word)
    ensures r == BigSigma0(x)
  {
    ((x >> 2) | (x << 30)) ^ ((x >> 13) | (x << 19)) ^ ((x >> 22) | (x << 10))
  }

  function Ep1(x: Word): (r: Word)
    ensures r == BigSigma1(x)
  {
    ((x >> 6) | (x << 26)) ^ ((x >> 11) | (x << 21)) ^ ((x >> 25) | (x << 7))
  }

  function Sig0(x: Word): (r: Word)
    ensures r == SmallSigma0(x)
  {
    ((x >> 7) | (x << 25)) ^ ((x >> 18) | (x << 14)) ^ (x >> 3)
  }

  function Sig1(x: Word): (r: Word)
    ensures r == SmallSigma1(x)
  {
    ((x >> 17) | (x << 15)) ^ ((x >> 19) | (x << 13)) ^ (x >> 10)
  }

  function NextWord(m2: Word, m7: Word, m15: Word, m16: Word): (r: Word) {
    Add(Add(Add(Sig1(m2), m7), Sig0(m15)), m16)
  }

  lemma NextWordExtends(m2: Word, m7: Word, m15: Word, m16: Word)
    ensures NextWord(m2, m7, m15, m16) == Extend(m2, m7, m15, m16)
  {
    hide Add, Sig0, Sig1, SmallSigma0, SmallSigma1;
  }

  function Temp1(h: Word, e: Word, f: Word, g: Word, k: Word, m: Word): (r: Word) {
    Add(Add(Add(Add(h, Ep1(e)), Ch(e, f, g)), k), m)
  }

  function Temp2(a: Word, b: Word, c: Word): (r: Word) {
    Add(Ep0(a), Maj(a, b, c))
  }

  lemma TempsAgree(v: Working, k: Word, m: Word)
    ensures Temp1(v.h, v.e, v.f, v.g, k, m) == T1(v.h, v.e, v.f, v.g, k, m)
    ensures Temp2(v.a, v.b, v.c) == T2(v.a, v.b, v.c)
  {
    hide Add, Ep0, Ep1, BigSigma0, BigSigma1, Ch, Maj;
  }

  class Context {
    const data: array<Byte>
    const state: array<Word>
    var datalen: nat
    var bitlen: nat
    /** Everything given to Update since Init. */
    ghost var message: seq<Byte>

    ghost predicate Shaped()
      reads this
    {
      data.Length == 64 && state.Length == 8
    }

    /** The bytes of the message that have gone through the compression function. */
    ghost function Compressed(): (c: seq<Byte>)
      reads this
    {
      message[..|message| - Partial(|message|)]
    }

    ghost predicate Valid()
      reads this, data, state
    {
      && Shaped()
      && datalen == Partial(|message|)
      && data[..datalen] == message[|message| - datalen..]
      && bitlen == Bits(|Compressed()|)
      && state[..] == HashBlocks(Compressed())
    }

    constructor ()
      ensures Shaped() && fresh(data) && fresh(state)
    {
      data := new Byte[64];
      state := new Word[8];
    }

    method Init()
      requires Shaped()
      modifies this, state
      ensures Valid() && message == []
    {
      hide HashBlocks, Compress, Partial, Bits;
      NothingYet();
      datalen := 0;
      bitlen := 0;
      state[0] := 0x6a09e667;
      state[1] := 0xbb67ae85;
      state[2] := 0x3c6ef372;
      state[3] := 0xa54ff53a;
      state[4] := 0x510e527f;
      state[5] := 0x9b05688c;
      state[6] := 0x1f83d9ab;
      state[7] := 0x5be0cd19;
      message := [];
    }

    /** The first two loops of the compression function: the message schedule. */
    method Expand() returns (m: array<Word>)
      requires Shaped()
      ensures fresh(m) && m.Length == 64 && forall t :: 0 <= t < 64 ==> m[t] == Schedule(data[..], t)
    {
      hide NextWord, Extend, WordAt, Schedule;
      ghost var block := data[..];
      m := new Word[64];
      for i := 0 to 16
        invariant forall t :: 0 <= t < i ==> m[t] == Schedule(block, t)
      {
        m[i] := WordAt(data[..], i);
        FirstWords(block, i);
      }
      for i := 16 to 64
        invariant forall t :: 0 <= t < i ==> m[t] == Schedule(block, t)
      {
        NextWordExtends(m[i - 2], m[i - 7], m[i - 15], m[i - 16]);
        m[i] := NextWord(m[i - 2], m[i - 7], m[i - 15], m[i - 16]);
        LaterWords(block, i);
      }
    }

    /** The third loop: the 64 rounds on the working variables. */
    method Work(m: array<Word>) returns (w: Working)
      requires Shaped() && m.Length == 64 && forall t :: 0 <= t < 64 ==> m[t] == Schedule(data[..], t)
      ensures w == Rounds(Load(state[..]), data[..], 64)
    {
      hide Temp1, Temp2, T1, T2, Add, Schedule, Rounds;
      ghost var block, v := data[..], Load(state[..]);
      var a, b, c, d, e, f, g, h := state[0], state[1], state[2], state[3], state[4], state[5], state[6], state[7];
      CompressIsRounds(state[..], block);
      for i := 0 to 64
        invariant Working(a, b, c, d, e, f, g, h) == Rounds(v, block, i)
      {
        NextRound(v, block, i);
        TempsAgree(Rounds(v, block, i), K[i], m[i]);
        var t1 := Temp1(h, e, f, g, K[i], m[i]);
        var t2 := Temp2(a, b, c);
        h := g;
        g := f;
        f := e;
        e := Add(d, t1);
        d := c;
        c := b;
        b := a;
        a := Add(t1, t2);
      }
      w := Working(a, b, c, d, e, f, g, h);
    }

    /** One application of the compression function of section 6.2.2 to the buffer. */
    method Transform()
      requires Shaped()
      modifies state
      ensures state[..] == Compress(old(state[..]), data[..])
    {
      hide Schedule, Rounds, Compress, Load, AddInto;
      ghost var h, block := state[..], data[..];
      CompressIsRounds(h, block);
      var m := Expand();
      var w := Work(m);
      AddUp(w);
      assert data[..] == block;
    }

    method AddUp(w: Working)
      requires Shaped()
      modifies state
      ensures state[..] == AddInto(old(state[..]), w)
    {
      hide Add, AddInto, Raised;
      EightWords(state[..], w);
      AddTo(0, w.a);
      AddTo(1, w.b);
      AddTo(2, w.c);
      AddTo(3, w.d);
      AddTo(4, w.e);
      AddTo(5, w.f);
      AddTo(6, w.g);
      AddTo(7, w.h);
    }

    method AddTo(i: nat, x: Word)
      requires Shaped() && i < 8
      modifies state
      ensures state[..] == Raised(old(state[..]), i, x)
    {
      hide Add;
      state[i] := Add(state[i], x);
    }

    /** The body of the loop in Update. */
    method PutByte(b: Byte)
      requires Valid()
      modifies this, data, state
      ensures Valid() && message == old(message) + [b]
    {
      hide HashBlocks, Compress, Partial, Bits;
      ghost var m := message;
      PartialStep(|m|);
      OneMoreByte(m, b);
      BitsStep(|Compressed()|);
      StoreByte(b);
      if datalen == 64 {
        WholeBuffer(data[..], m, b);
        CompressBuffer();
      }
      message := m + [b];
    }

    method CompressBuffer()
      requires Shaped()
      modifies this, state
      ensures Shaped() && datalen == 0 && message == old(message) && bitlen == (old(bitlen) + 512) % UINT64
      ensures state[..] == Compress(old(state[..]), data[..])
    {
      Transform();
      bitlen := (bitlen + 512) % UINT64;
      datalen := 0;
    }

    method StoreByte(b: Byte)
      requires Shaped() && datalen < 64 && datalen <= |message| && data[..datalen] == message[|message| - datalen..]
      modifies this, data
      ensures datalen == old(datalen) + 1 && bitlen == old(bitlen) && message == old(message)
      ensures data[..datalen] == (message + [b])[|message| + 1 - datalen..]
    {
      BufferGrows(data[..], message, datalen, b);
      ghost var buffer := data[..][datalen := b];
      data[datalen] := b;
      assert data[..] == buffer;
      datalen := datalen + 1;
    }

    method Update(bytes: seq<Byte>)
      requires Valid()
      modifies this, data, state
      ensures Valid() && message == old(message) + bytes
    {
      hide *;
      for i := 0 to |bytes|
        invariant Valid() && message == old(message) + bytes[..i]
      {
        PutByte(bytes[i]);
        assert old(message) + bytes[..i] + [bytes[i]] == old(message) + bytes[..i + 1];
      }
    }

    /**
     The padding half of Final: on return the buffer lacks only the length field to be the last block
     of the padded message, and every block before that one has been compressed.
     */
    method PadBuffer()
      requires Valid()
      modifies data, state
      ensures HashBlocks(Pad(message)) == Compress(state[..], data[..56] + LengthField(8 * |message|))
    {
      hide HashBlocks, Compress, Pad, LengthField;
      var i := datalen;
      ghost var rest := message[|message| - datalen..];
      PaddedBlocks(message);
      data[i] := 0x80;
      i := i + 1;
      if datalen < 56 {
        Clear(i, 56);
        assert data[..56] == rest + [0x80] + Zeros(55 - datalen);
      } else {
        Clear(i, 64);
        assert data[..] == rest + [0x80] + Zeros(63 - datalen);
        Transform();
        Clear(0, 56);
        assert data[..56] == Zeros(56);
      }
    }

    method Clear(from: nat, to: nat)
      requires Shaped() && from <= to <= 64
      modifies data
      ensures data[..from] == old(data[..from]) && data[from..to] == Zeros(to - from) && data[to..] == old(data[to..])
    {
      var i := from;
      while i < to
        invariant from <= i <= to
        invariant data[..from] == old(data[..from]) && data[to..] == old(data[to..])
        invariant forall j :: from <= j < i ==> data[j] == 0
      {
        data[i] := 0x00;
        i := i + 1;
      }
    }

    method StoreLength(ghost bits: nat)
      requires Shaped() && bitlen == bits % UINT64
      modifies data
      ensures data[..56] == old(data[..56]) && data[56..] == LengthField(bits)
    {
      hide NumberByte;
      for k := 0 to 8
        invariant data[..56] == old(data[..56])
        invariant forall j :: 64 - k <= j < 64 ==> data[j] == LengthField(bits)[j - 56]
      {
        data[63 - k] := NumberByte(bitlen, k);
      }
    }

    method Final(hash: array<Byte>)
      requires Valid() && hash.Length >= 32 && hash != data
      modifies this, data, state, hash
      ensures hash[..32] == Sha256(old(message)) && hash[32..] == old(hash[32..])
    {
      hide HashBlocks, Compress, Pad, LengthField;
      TotalBits(|message|);
      PadBuffer();
      ghost var front := data[..56];
      bitlen := (bitlen + datalen * 8) % UINT64;
      StoreLength(8 * |message|);
      assert data[..] == front + LengthField(8 * |message|);
      Transform();
      Emit(hash);
    }

    /** The state goes out with the most significant byte of each word first. */
    method Emit(hash: array<Byte>)
      requires Shaped() && hash.Length >= 32
      modifies hash
      ensures hash[..32] == Digest(state[..]) && hash[32..] == old(hash[32..])
    {
      hide WordByte;
      ghost var h := state[..];
      for i := 0 to 4
        invariant hash[32..] == old(hash[32..])
        invariant forall p :: 0 <= p < 32 && p % 4 < i ==> hash[p] == Digest(h)[p]
      {
        for j := 0 to 8
          invariant hash[32..] == old(hash[32..])
          invariant forall p :: 0 <= p < 32 && (p % 4 < i || (p % 4 == i && p / 4 < j)) ==> hash[p] == Digest(h)[p]
        {
          assert (i + 4 * j) / 4 == j && (i + 4 * j) % 4 == i;
          hash[i + 4 * j] := WordByte(state[j], i);
        }
      }
    }
  }

  function Concat(chunks: seq<seq<Byte>>): (m: seq<Byte>) {
    if chunks == [] then [] else Concat(chunks[..|chunks| - 1]) + chunks[|chunks| - 1]
  }

  /** However a message is cut into calls of Update, the digest is that of the whole message. */
  method HashChunks(chunks: seq<seq<Byte>>) returns (digest: seq<Byte>)
    ensures digest == S.Sha256(Concat(chunks))
  {
    hide S.Sha256, Context.Valid;
    var context := new Context();
    context.Init();
    for i := 0 to |chunks|
      invariant context.Valid() && context.message == Concat(chunks[..i])
      invariant fresh(context) && fresh(context.data) && fresh(context.state)
    {
      assert chunks[..i + 1][..i] == chunks[..i];
      context.Update(chunks[i]);
    }
    assert chunks[..|chunks|] == chunks;
    var hash := new Byte[32];
    context.Final(hash);
    digest := hash[..32];
  }

  /** The last one or two blocks of the padded message, by the number of bytes left in the buffer. */
  lemma PaddedBlocks(m: seq<Byte>)
    ensures var r := Partial(|m|);
            var done, rest, field := m[..|m| - r], m[|m| - r..], LengthField(8 * |m|);
            HashBlocks(Pad(m)) ==
              if r < 56
              then Compress(HashBlocks(done), rest + [0x80] + Zeros(55 - r) + field)
              else Compress(Compress(HashBlocks(done), rest + [0x80] + Zeros(63 - r)), Zeros(56) + field)
  {
    hide Compress, LengthField, HashBlocks, ZeroCount, Partial;
    var r := Partial(|m|);
    var done, rest, field := m[..|m| - r], m[|m| - r..], LengthField(8 * |m|);
    PadZeros(|m|);
    if r < 56 {
      var last := rest + [0x80] + Zeros(55 - r) + field;
      assert Pad(m) == done + last;
      LastBlock(done, last);
    } else {
      var b1, b2 := rest + [0x80] + Zeros(63 - r), Zeros(56) + field;
      assert Pad(m) == done + b1 + b2;
      LastBlock(done + b1, b2);
      LastBlock(done, b1);
    }
  }

  lemma PadZeros(n: nat)
    ensures ZeroCount(n) == if Partial(n) < 56 then 55 - Partial(n) else 119 - Partial(n)
  {
  }

  lemma LastBlock(m: seq<Byte>, block: seq<Byte>)
    requires |m| % 64 == 0 && |block| == 64
    ensures HashBlocks(m + block) == Compress(HashBlocks(m), block)
  {
  }

  lemma TotalBits(n: nat)
    ensures (Bits(n - Partial(n)) + Partial(n) * 8) % UINT64 == (8 * n) % UINT64
  {
    hide Partial;
    MoreBits(8 * (n - Partial(n)), 8 * Partial(n));
  }

  lemma MoreBits(x: nat, y: nat)
    ensures (x % UINT64 + y) % UINT64 == (x + y) % UINT64
  {
    var z := x % UINT64 + y;
    Machine.QuotientIs(x + y, x / UINT64 + z / UINT64, z % UINT64, UINT64);
  }

  lemma BufferGrows(buffer: seq<Byte>, m: seq<Byte>, d: nat, b: Byte)
    requires d < |buffer| && d <= |m| && buffer[..d] == m[|m| - d..]
    ensures buffer[d := b][..d + 1] == (m + [b])[|m| - d..]
  {
  }

  lemma WholeBuffer(buffer: seq<Byte>, m: seq<Byte>, b: Byte)
    requires |buffer| == 64 && |m| >= 63 && buffer[..64] == (m + [b])[|m| - 63..]
    ensures buffer == (m + [b])[|m| - 63..]
  {
    assert buffer[..64] == buffer;
  }

  /** A byte either stays in the buffer or completes a block. */
  lemma OneMoreByte(m: seq<Byte>, b: Byte)
    ensures var c, c' := m[..|m| - Partial(|m|)], (m + [b])[..|m| + 1 - Partial(|m| + 1)];
            if Partial(|m|) == 63
            then |c'| == |c| + 64 && HashBlocks(c') == Compress(HashBlocks(c), (m + [b])[|m| - 63..])
            else c' == c
  {
    hide Compress, HashBlocks, Partial;
    PartialStep(|m|);
    if Partial(|m|) == 63 {
      var c := m[..|m| - 63];
      LastBlock(c, (m + [b])[|m| - 63..]);
      assert c + (m + [b])[|m| - 63..] == m + [b];
      assert (m + [b])[..|m| + 1] == m + [b];
    } else {
      var k := |m| - Partial(|m|);
      assert (m + [b])[..k] == m[..k];
    }
  }

  lemma NothingYet()
    ensures HashBlocks([]) == H0 && Partial(0) == 0 && Bits(0) == 0
  {
  }

  /** The 64-bit count of the bits in `n` bytes. */
  function Bits(n: nat): (b: nat) {
    (8 * n) % UINT64
  }

  lemma BitsStep(n: nat)
    ensures (Bits(n) + 512) % UINT64 == Bits(n + 64)
  {
    MoreBits(8 * n, 512);
  }

  /** The bytes of a message of length `n` that do not fill a block. */
  function Partial(n: nat): (r: nat)
    ensures r < 64 && r <= n && (n - r) % 64 == 0
  {
    n % 64
  }

  lemma PartialStep(n: nat)
    ensures Partial(n + 1) == if Partial(n) == 63 then 0 else Partial(n) + 1
  {
  }

  lemma FirstWords(block: seq<Byte>, t: nat)
    requires |block| == BLOCK && t < 16
    ensures Schedule(block, t) == WordAt(block, t)
  {
  }

  lemma LaterWords(block: seq<Byte>, t: nat)
    requires |block| == BLOCK && 16 <= t < 64
    ensures Schedule(block, t) ==
            Extend(Schedule(block, t - 2), Schedule(block, t - 7), Schedule(block, t - 15), Schedule(block, t - 16))
  {
  }

  lemma NextRound(v: Working, block: seq<Byte>, t: nat)
    requires |block| == BLOCK && t < 64
    ensures Rounds(v, block, t + 1) == Round(Rounds(v, block, t), K[t], Schedule(block, t))
  {
  }

  function Raised(h: seq<Word>, i: nat, x: Word): (r: seq<Word>)
    requires i < |h|
    ensures |r| == |h|
  {
    h[i := Add(h[i], x)]
  }

  lemma EightWords(h: seq<Word>, w: Working)
    requires |h| == 8
    ensures Raised(Raised(Raised(Raised(Raised(Raised(Raised(Raised(h, 0, w.a), 1, w.b), 2, w.c), 3, w.d), 4, w.e),
                          5, w.f), 6, w.g), 7, w.h) == AddInto(h, w)
  {
    hide Add;
  }

  lemma CompressIsRounds(h: seq<Word>, block: seq<Byte>)
    requires |h| == 8 && |block| == BLOCK
    ensures Rounds(Load(h), block, 0) == Load(h)
    ensures Compress(h, block) == AddInto(h, Rounds(Load(h), block, 64))
  {
  }
}
