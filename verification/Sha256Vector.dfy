/**
 The example of the standard: the hash of "abc", round by round. It fixes every constant, rotation
 and byte order of the specification.
 */
module Sha256Vector {
  import opened Sha256Spec

  const ABC: seq<Byte> := [0x61, 0x62, 0x63]

  const ABC_HASH: seq<Byte> :=
    [0xba, 0x78, 0x16, 0xbf] + [0x8f, 0x01, 0xcf, 0xea] + [0x41, 0x41, 0x40, 0xde] + [0x5d, 0xae, 0x22, 0x23] +
    [0xb0, 0x03, 0x61, 0xa3] + [0x96, 0x17, 0x7a, 0x9c] + [0xb4, 0x10, 0xff, 0x61] + [0xf2, 0x00, 0x15, 0xad]

  datatype Quad = Quad(a: Word, b: Word, c: Word, d: Word)

  /** The message schedule, four words at a time. */
  function W(r: nat): (w: Quad)
    requires r < 16
  {
    match r
    case 0 => Quad(0x61626380, 0x00000000, 0x00000000, 0x00000000)
    case 1 => Quad(0x00000000, 0x00000000, 0x00000000, 0x00000000)
    case 2 => Quad(0x00000000, 0x00000000, 0x00000000, 0x00000000)
    case 3 => Quad(0x00000000, 0x00000000, 0x00000000, 0x00000018)
    case 4 => Quad(0x61626380, 0x000f0000, 0x7da86405, 0x600003c6)
    case 5 => Quad(0x3e9d7b78, 0x0183fc00, 0x12dcbfdb, 0xe2e2c38e)
    case 6 => Quad(0xc8215c1a, 0xb73679a2, 0xe5bc3909, 0x32663c5b)
    case 7 => Quad(0x9d209d67, 0xec8726cb, 0x702138a4, 0xd3b7973b)
    case 8 => Quad(0x93f5997f, 0x3b68ba73, 0xaff4ffc1, 0xf10a5c62)
    case 9 => Quad(0x0a8b3996, 0x72af830a, 0x9409e33e, 0x24641522)
    case 10 => Quad(0x9f47bf94, 0xf0a64f5a, 0x3e246a79, 0x27333ba3)
    case 11 => Quad(0x0c4763f2, 0x840abf27, 0x7a290d5d, 0x065c43da)
    case 12 => Quad(0xfb3e89cb, 0xcc7617db, 0xb9e66c34, 0xa9993667)
    case 13 => Quad(0x84badedd, 0xc21462bc, 0x1487472c, 0xb20f7a99)
    case 14 => Quad(0xef57b9cd, 0xebe6b238, 0x9fe3095e, 0x78bc8d4b)
    case 15 => Quad(0xa43fcf15, 0x668b2ff8, 0xeeaba2cc, 0x12b1edeb)
  }

  /** The constants, four at a time. */
  function C(r: nat): (w: Quad)
    requires r < 16
  {
    match r
    case 0 => Quad(0x428a2f98, 0x71374491, 0xb5c0fbcf, 0xe9b5dba5)
    case 1 => Quad(0x3956c25b, 0x59f111f1, 0x923f82a4, 0xab1c5ed5)
    case 2 => Quad(0xd807aa98, 0x12835b01, 0x243185be, 0x550c7dc3)
    case 3 => Quad(0x72be5d74, 0x80deb1fe, 0x9bdc06a7, 0xc19bf174)
    case 4 => Quad(0xe49b69c1, 0xefbe4786, 0x0fc19dc6, 0x240ca1cc)
    case 5 => Quad(0x2de92c6f, 0x4a7484aa, 0x5cb0a9dc, 0x76f988da)
    case 6 => Quad(0x983e5152, 0xa831c66d, 0xb00327c8, 0xbf597fc7)
    case 7 => Quad(0xc6e00bf3, 0xd5a79147, 0x06ca6351, 0x14292967)
    case 8 => Quad(0x27b70a85, 0x2e1b2138, 0x4d2c6dfc, 0x53380d13)
    case 9 => Quad(0x650a7354, 0x766a0abb, 0x81c2c92e, 0x92722c85)
    case 10 => Quad(0xa2bfe8a1, 0xa81a664b, 0xc24b8b70, 0xc76c51a3)
    case 11 => Quad(0xd192e819, 0xd6990624, 0xf40e3585, 0x106aa070)
    case 12 => Quad(0x19a4c116, 0x1e376c08, 0x2748774c, 0x34b0bcb5)
    case 13 => Quad(0x391c0cb3, 0x4ed8aa4a, 0x5b9cca4f, 0x682e6ff3)
    case 14 => Quad(0x748f82ee, 0x78a5636f, 0x84c87814, 0x8cc70208)
    case 15 => Quad(0x90befffa, 0xa4506ceb, 0xbef9a3f7, 0xc67178f2)
  }

  /** The working variables before every fourth round, and at the end. */
  function V(r: nat): (w: Working)
    requires r < 17
  {
    match r
    case 0 => Working(0x6a09e667, 0xbb67ae85, 0x3c6ef372, 0xa54ff53a, 0x510e527f, 0x9b05688c, 0x1f83d9ab, 0x5be0cd19)
    case 1 => Working(0xd550f666, 0xc8c347a7, 0x5a6ad9ad, 0x5d6aebcd, 0x24e00850, 0xf92939eb, 0x78ce7989, 0xfa2a4622)
    case 2 => Working(0x85a07b5f, 0xe5030380, 0x2b4209f5, 0x04409a6a, 0x0c657a79, 0x9b27a401, 0x714260ad, 0x43ada245)
    case 3 => Working(0xf71fc5a9, 0x4798a3f4, 0x8c87346b, 0x8e04ecb9, 0x816fd6e9, 0x436b23e8, 0x1cc92596, 0x32ca2d8c)
    case 4 => Working(0xb0fa238e, 0xc0645fde, 0xd932eb16, 0x87912990, 0x07590dcd, 0x0b92f20c, 0x745a48de, 0x1e578218)
    case 5 => Working(0xe1f20c33, 0xfe777bbf, 0xc2fbd9d1, 0x21da9a9b, 0xb0638179, 0xcc899961, 0x846ee454, 0x8034229c)
    case 6 => Working(0xc5d53d8d, 0xa7a3623f, 0xc2606d6d, 0x9dc68b63, 0xaa47c347, 0x49f5114a, 0xe1257970, 0x8ada8930)
    case 7 => Working(0x77d37528, 0xb62ec4bc, 0xcde8037d, 0x1c2c2838, 0xedffbff8, 0xc74c6516, 0x14383d8e, 0x2823ef91)
    case 8 => Working(0x73b33bf5, 0xea992a22, 0xa0060b30, 0x363482c9, 0xba591112, 0x0109ab3a, 0xade79437, 0x6112a3b7)
    case 9 => Working(0x65a0cfe4, 0xa9a7738c, 0xfe604df5, 0x98e12507, 0xf4b002d6, 0x085f3833, 0x59249dd3, 0x9cd9f5f6)
    case 10 => Working(0x79ea687a, 0x6dc57a8a, 0x34df1604, 0x41a65cb1, 0x1efbc0a0, 0xf0781bc8, 0xa507a53d, 0x0772a26b)
    case 11 => Working(0x9d4baf93, 0x17aa0dfe, 0xdf46652f, 0xd6670766, 0xfda24c2e, 0xdecd4715, 0x838b2711, 0x26352d63)
    case 12 => Working(0x4172328d, 0xa14c14b0, 0x72ab4b91, 0x26628815, 0xfecf0bc6, 0xd57b94a9, 0xb7755da1, 0xa80f11f0)
    case 13 => Working(0x886e7a22, 0x7a0508a1, 0xf11bfaa8, 0x05757ceb, 0x49231c1e, 0x52f1ccf7, 0x6e5c390c, 0xbd714038)
    case 14 => Working(0x38cc9913, 0x3ec45cdb, 0xf5702fdb, 0x101fd28f, 0x54cb266b, 0xe50e1b4f, 0x9f4787c3, 0x529e7d00)
    case 15 => Working(0xb6ae8fff, 0xffb70472, 0xc062d46f, 0xfcd1887b, 0xb21bad3d, 0x6d83bfc6, 0x7e44008e, 0x9b5e906c)
    case 16 => Working(0x506e3058, 0xd39a2165, 0x04d24d6c, 0xb85e2ce9, 0x5ef50f24, 0xfb121210, 0x948d25b6, 0x961f4894)
  }

  // ---------------------------------------------------------------------------
  // The message schedule
  // ---------------------------------------------------------------------------

  function Words(block: seq<Byte>, t: nat): (w: Quad)
    requires |block| == BLOCK
  {
    Quad(Schedule(block, t), Schedule(block, t + 1), Schedule(block, t + 2), Schedule(block, t + 3))
  }

  /** The words `w` follow the sixteen words in `p`, `q`, `r` and `s`. */
  predicate Extends(p: Quad, q: Quad, r: Quad, s: Quad, w: Quad) {
    && w.a == Extend(s.c, r.b, p.b, p.a) && w.b == Extend(s.d, r.c, p.c, p.b)
    && w.c == Extend(w.a, r.d, p.d, p.c) && w.d == Extend(w.b, s.a, q.a, p.d)
  }

  lemma Extends16()
    ensures Extends(W(0), W(1), W(2), W(3), W(4))
  {
  }

  lemma Extends20()
    ensures Extends(W(1), W(2), W(3), W(4), W(5))
  {
  }

  lemma Extends24()
    ensures Extends(W(2), W(3), W(4), W(5), W(6))
  {
  }

  lemma Extends28()
    ensures Extends(W(3), W(4), W(5), W(6), W(7))
  {
  }

  lemma Extends32()
    ensures Extends(W(4), W(5), W(6), W(7), W(8))
  {
  }

  lemma Extends36()
    ensures Extends(W(5), W(6), W(7), W(8), W(9))
  {
  }

  lemma Extends40()
    ensures Extends(W(6), W(7), W(8), W(9), W(10))
  {
  }

  lemma Extends44()
    ensures Extends(W(7), W(8), W(9), W(10), W(11))
  {
  }

  lemma Extends48()
    ensures Extends(W(8), W(9), W(10), W(11), W(12))
  {
  }

  lemma Extends52()
    ensures Extends(W(9), W(10), W(11), W(12), W(13))
  {
  }

  lemma Extends56()
    ensures Extends(W(10), W(11), W(12), W(13), W(14))
  {
  }

  lemma Extends60()
    ensures Extends(W(11), W(12), W(13), W(14), W(15))
  {
  }

  lemma ScheduleStep(block: seq<Byte>, t: nat)
    requires |block| == BLOCK && t >= 16
    ensures Schedule(block, t) ==
            Extend(Schedule(block, t - 2), Schedule(block, t - 7), Schedule(block, t - 15), Schedule(block, t - 16))
  {
  }

  /** The one block of the padded message. */
  lemma PaddedAbc()
    ensures var p := Pad(ABC);
            && |p| == BLOCK && p[0] == 0x61 && p[1] == 0x62 && p[2] == 0x63 && p[3] == 0x80 && p[63] == 0x18
            && forall i :: 4 <= i < 63 ==> p[i] == 0
  {
    hide LengthField;
    assert ZeroCount(3) == 52;
    LengthOfAbc();
  }

  lemma LengthOfAbc()
    ensures LengthField(24)[7] == 0x18 && forall i :: 0 <= i < 7 ==> LengthField(24)[i] == 0
  {
    hide NumberByte;
    OneByte(24, 0);
    forall i | 0 <= i < 7
      ensures LengthField(24)[i] == 0
    {
      OneByte(24, 7 - i);
    }
  }

  lemma OneByte(n: nat, k: nat)
    requires n < 256
    ensures NumberByte(n, k) == if k == 0 then n as bv8 else 0
  {
    OneDigit(n, k);
  }

  lemma OneDigit(n: nat, k: nat)
    requires n < 256
    ensures n / Pow256(k) % 256 == if k == 0 then n else 0
  {
    if k > 0 {
      TooSmall(n, Pow256(k));
    }
  }

  lemma TooSmall(n: nat, p: nat)
    requires n < p
    ensures n / p == 0
  {
  }

  ghost predicate Scheduled(block: seq<Byte>, r: nat)
    requires |block| == BLOCK && r < 16
  {
    Words(block, 4 * r) == W(r)
  }

  lemma FirstWords(block: seq<Byte>)
    requires |block| == BLOCK && block == Pad(ABC)
    ensures Scheduled(block, 0) && Scheduled(block, 1) && Scheduled(block, 2) && Scheduled(block, 3)
  {
    hide Pad;
    PaddedAbc();
  }

  lemma LaterWords(block: seq<Byte>, r: nat)
    requires |block| == BLOCK && r < 12
    requires Scheduled(block, r) && Scheduled(block, r + 1) && Scheduled(block, r + 2) && Scheduled(block, r + 3)
    requires Extends(W(r), W(r + 1), W(r + 2), W(r + 3), W(r + 4))
    ensures Scheduled(block, r + 4)
  {
    hide W, Extend, Schedule;
    var t := 4 * r + 16;
    ScheduleStep(block, t);
    ScheduleStep(block, t + 1);
    ScheduleStep(block, t + 2);
    ScheduleStep(block, t + 3);
  }

  lemma AbcSchedule(block: seq<Byte>)
    requires |block| == BLOCK && block == Pad(ABC)
    ensures forall r :: 0 <= r < 16 ==> Scheduled(block, r)
  {
    hide *;
    FirstWords(block);
    Extends16();
    LaterWords(block, 0);
    Extends20();
    LaterWords(block, 1);
    Extends24();
    LaterWords(block, 2);
    Extends28();
    LaterWords(block, 3);
    Extends32();
    LaterWords(block, 4);
    Extends36();
    LaterWords(block, 5);
    Extends40();
    LaterWords(block, 6);
    Extends44();
    LaterWords(block, 7);
    Extends48();
    LaterWords(block, 8);
    Extends52();
    LaterWords(block, 9);
    Extends56();
    LaterWords(block, 10);
    Extends60();
    LaterWords(block, 11);
  }

  // ---------------------------------------------------------------------------
  // The rounds
  // ---------------------------------------------------------------------------

  function Constants(t: nat): (k: Quad)
    requires t + 4 <= 64
  {
    Quad(K[t], K[t + 1], K[t + 2], K[t + 3])
  }

  lemma Constants0()
    ensures Constants(0) == C(0) && Constants(4) == C(1)
  {
  }

  lemma Constants8()
    ensures Constants(8) == C(2) && Constants(12) == C(3)
  {
  }

  lemma Constants16()
    ensures Constants(16) == C(4) && Constants(20) == C(5)
  {
  }

  lemma Constants24()
    ensures Constants(24) == C(6) && Constants(28) == C(7)
  {
  }

  lemma Constants32()
    ensures Constants(32) == C(8) && Constants(36) == C(9)
  {
  }

  lemma Constants40()
    ensures Constants(40) == C(10) && Constants(44) == C(11)
  {
  }

  lemma Constants48()
    ensures Constants(48) == C(12) && Constants(52) == C(13)
  {
  }

  lemma Constants56()
    ensures Constants(56) == C(14) && Constants(60) == C(15)
  {
  }

  /** The working variables through four rounds. */
  datatype Path = Path(v0: Working, v1: Working, v2: Working, v3: Working, v4: Working)

  predicate Rounded(p: Path, k: Quad, w: Quad) {
    && Round(p.v0, k.a, w.a) == p.v1 && Round(p.v1, k.b, w.b) == p.v2
    && Round(p.v2, k.c, w.c) == p.v3 && Round(p.v3, k.d, w.d) == p.v4
  }

  lemma Rounds0() returns (p: Path)
    ensures p.v0 == V(0) && p.v4 == V(1) && Rounded(p, C(0), W(0))
  {
    p := Path(Working(0x6a09e667, 0xbb67ae85, 0x3c6ef372, 0xa54ff53a, 0x510e527f, 0x9b05688c, 0x1f83d9ab, 0x5be0cd19),
              Working(0x5d6aebcd, 0x6a09e667, 0xbb67ae85, 0x3c6ef372, 0xfa2a4622, 0x510e527f, 0x9b05688c, 0x1f83d9ab),
              Working(0x5a6ad9ad, 0x5d6aebcd, 0x6a09e667, 0xbb67ae85, 0x78ce7989, 0xfa2a4622, 0x510e527f, 0x9b05688c),
              Working(0xc8c347a7, 0x5a6ad9ad, 0x5d6aebcd, 0x6a09e667, 0xf92939eb, 0x78ce7989, 0xfa2a4622, 0x510e527f),
              Working(0xd550f666, 0xc8c347a7, 0x5a6ad9ad, 0x5d6aebcd, 0x24e00850, 0xf92939eb, 0x78ce7989, 0xfa2a4622));
  }

  lemma Rounds4() returns (p: Path)
    ensures p.v0 == V(1) && p.v4 == V(2) && Rounded(p, C(1), W(1))
  {
    p := Path(Working(0xd550f666, 0xc8c347a7, 0x5a6ad9ad, 0x5d6aebcd, 0x24e00850, 0xf92939eb, 0x78ce7989, 0xfa2a4622),
              Working(0x04409a6a, 0xd550f666, 0xc8c347a7, 0x5a6ad9ad, 0x43ada245, 0x24e00850, 0xf92939eb, 0x78ce7989),
              Working(0x2b4209f5, 0x04409a6a, 0xd550f666, 0xc8c347a7, 0x714260ad, 0x43ada245, 0x24e00850, 0xf92939eb),
              Working(0xe5030380, 0x2b4209f5, 0x04409a6a, 0xd550f666, 0x9b27a401, 0x714260ad, 0x43ada245, 0x24e00850),
              Working(0x85a07b5f, 0xe5030380, 0x2b4209f5, 0x04409a6a, 0x0c657a79, 0x9b27a401, 0x714260ad, 0x43ada245));
  }

  lemma Rounds8() returns (p: Path)
    ensures p.v0 == V(2) && p.v4 == V(3) && Rounded(p, C(2), W(2))
  {
    p := Path(Working(0x85a07b5f, 0xe5030380, 0x2b4209f5, 0x04409a6a, 0x0c657a79, 0x9b27a401, 0x714260ad, 0x43ada245),
              Working(0x8e04ecb9, 0x85a07b5f, 0xe5030380, 0x2b4209f5, 0x32ca2d8c, 0x0c657a79, 0x9b27a401, 0x714260ad),
              Working(0x8c87346b, 0x8e04ecb9, 0x85a07b5f, 0xe5030380, 0x1cc92596, 0x32ca2d8c, 0x0c657a79, 0x9b27a401),
              Working(0x4798a3f4, 0x8c87346b, 0x8e04ecb9, 0x85a07b5f, 0x436b23e8, 0x1cc92596, 0x32ca2d8c, 0x0c657a79),
              Working(0xf71fc5a9, 0x4798a3f4, 0x8c87346b, 0x8e04ecb9, 0x816fd6e9, 0x436b23e8, 0x1cc92596, 0x32ca2d8c));
  }

  lemma Rounds12() returns (p: Path)
    ensures p.v0 == V(3) && p.v4 == V(4) && Rounded(p, C(3), W(3))
  {
    p := Path(Working(0xf71fc5a9, 0x4798a3f4, 0x8c87346b, 0x8e04ecb9, 0x816fd6e9, 0x436b23e8, 0x1cc92596, 0x32ca2d8c),
              Working(0x87912990, 0xf71fc5a9, 0x4798a3f4, 0x8c87346b, 0x1e578218, 0x816fd6e9, 0x436b23e8, 0x1cc92596),
              Working(0xd932eb16, 0x87912990, 0xf71fc5a9, 0x4798a3f4, 0x745a48de, 0x1e578218, 0x816fd6e9, 0x436b23e8),
              Working(0xc0645fde, 0xd932eb16, 0x87912990, 0xf71fc5a9, 0x0b92f20c, 0x745a48de, 0x1e578218, 0x816fd6e9),
              Working(0xb0fa238e, 0xc0645fde, 0xd932eb16, 0x87912990, 0x07590dcd, 0x0b92f20c, 0x745a48de, 0x1e578218));
  }

  lemma Rounds16() returns (p: Path)
    ensures p.v0 == V(4) && p.v4 == V(5) && Rounded(p, C(4), W(4))
  {
    p := Path(Working(0xb0fa238e, 0xc0645fde, 0xd932eb16, 0x87912990, 0x07590dcd, 0x0b92f20c, 0x745a48de, 0x1e578218),
              Working(0x21da9a9b, 0xb0fa238e, 0xc0645fde, 0xd932eb16, 0x8034229c, 0x07590dcd, 0x0b92f20c, 0x745a48de),
              Working(0xc2fbd9d1, 0x21da9a9b, 0xb0fa238e, 0xc0645fde, 0x846ee454, 0x8034229c, 0x07590dcd, 0x0b92f20c),
              Working(0xfe777bbf, 0xc2fbd9d1, 0x21da9a9b, 0xb0fa238e, 0xcc899961, 0x846ee454, 0x8034229c, 0x07590dcd),
              Working(0xe1f20c33, 0xfe777bbf, 0xc2fbd9d1, 0x21da9a9b, 0xb0638179, 0xcc899961, 0x846ee454, 0x8034229c));
  }

  lemma Rounds20() returns (p: Path)
    ensures p.v0 == V(5) && p.v4 == V(6) && Rounded(p, C(5), W(5))
  {
    p := Path(Working(0xe1f20c33, 0xfe777bbf, 0xc2fbd9d1, 0x21da9a9b, 0xb0638179, 0xcc899961, 0x846ee454, 0x8034229c),
              Working(0x9dc68b63, 0xe1f20c33, 0xfe777bbf, 0xc2fbd9d1, 0x8ada8930, 0xb0638179, 0xcc899961, 0x846ee454),
              Working(0xc2606d6d, 0x9dc68b63, 0xe1f20c33, 0xfe777bbf, 0xe1257970, 0x8ada8930, 0xb0638179, 0xcc899961),
              Working(0xa7a3623f, 0xc2606d6d, 0x9dc68b63, 0xe1f20c33, 0x49f5114a, 0xe1257970, 0x8ada8930, 0xb0638179),
              Working(0xc5d53d8d, 0xa7a3623f, 0xc2606d6d, 0x9dc68b63, 0xaa47c347, 0x49f5114a, 0xe1257970, 0x8ada8930));
  }

  lemma Rounds24() returns (p: Path)
    ensures p.v0 == V(6) && p.v4 == V(7) && Rounded(p, C(6), W(6))
  {
    p := Path(Working(0xc5d53d8d, 0xa7a3623f, 0xc2606d6d, 0x9dc68b63, 0xaa47c347, 0x49f5114a, 0xe1257970, 0x8ada8930),
              Working(0x1c2c2838, 0xc5d53d8d, 0xa7a3623f, 0xc2606d6d, 0x2823ef91, 0xaa47c347, 0x49f5114a, 0xe1257970),
              Working(0xcde8037d, 0x1c2c2838, 0xc5d53d8d, 0xa7a3623f, 0x14383d8e, 0x2823ef91, 0xaa47c347, 0x49f5114a),
              Working(0xb62ec4bc, 0xcde8037d, 0x1c2c2838, 0xc5d53d8d, 0xc74c6516, 0x14383d8e, 0x2823ef91, 0xaa47c347),
              Working(0x77d37528, 0xb62ec4bc, 0xcde8037d, 0x1c2c2838, 0xedffbff8, 0xc74c6516, 0x14383d8e, 0x2823ef91));
  }

  lemma Rounds28() returns (p: Path)
    ensures p.v0 == V(7) && p.v4 == V(8) && Rounded(p, C(7), W(7))
  {
    p := Path(Working(0x77d37528, 0xb62ec4bc, 0xcde8037d, 0x1c2c2838, 0xedffbff8, 0xc74c6516, 0x14383d8e, 0x2823ef91),
              Working(0x363482c9, 0x77d37528, 0xb62ec4bc, 0xcde8037d, 0x6112a3b7, 0xedffbff8, 0xc74c6516, 0x14383d8e),
              Working(0xa0060b30, 0x363482c9, 0x77d37528, 0xb62ec4bc, 0xade79437, 0x6112a3b7, 0xedffbff8, 0xc74c6516),
              Working(0xea992a22, 0xa0060b30, 0x363482c9, 0x77d37528, 0x0109ab3a, 0xade79437, 0x6112a3b7, 0xedffbff8),
              Working(0x73b33bf5, 0xea992a22, 0xa0060b30, 0x363482c9, 0xba591112, 0x0109ab3a, 0xade79437, 0x6112a3b7));
  }

  lemma Rounds32() returns (p: Path)
    ensures p.v0 == V(8) && p.v4 == V(9) && Rounded(p, C(8), W(8))
  {
    p := Path(Working(0x73b33bf5, 0xea992a22, 0xa0060b30, 0x363482c9, 0xba591112, 0x0109ab3a, 0xade79437, 0x6112a3b7),
              Working(0x98e12507, 0x73b33bf5, 0xea992a22, 0xa0060b30, 0x9cd9f5f6, 0xba591112, 0x0109ab3a, 0xade79437),
              Working(0xfe604df5, 0x98e12507, 0x73b33bf5, 0xea992a22, 0x59249dd3, 0x9cd9f5f6, 0xba591112, 0x0109ab3a),
              Working(0xa9a7738c, 0xfe604df5, 0x98e12507, 0x73b33bf5, 0x085f3833, 0x59249dd3, 0x9cd9f5f6, 0xba591112),
              Working(0x65a0cfe4, 0xa9a7738c, 0xfe604df5, 0x98e12507, 0xf4b002d6, 0x085f3833, 0x59249dd3, 0x9cd9f5f6));
  }

  lemma Rounds36() returns (p: Path)
    ensures p.v0 == V(9) && p.v4 == V(10) && Rounded(p, C(9), W(9))
  {
    p := Path(Working(0x65a0cfe4, 0xa9a7738c, 0xfe604df5, 0x98e12507, 0xf4b002d6, 0x085f3833, 0x59249dd3, 0x9cd9f5f6),
              Working(0x41a65cb1, 0x65a0cfe4, 0xa9a7738c, 0xfe604df5, 0x0772a26b, 0xf4b002d6, 0x085f3833, 0x59249dd3),
              Working(0x34df1604, 0x41a65cb1, 0x65a0cfe4, 0xa9a7738c, 0xa507a53d, 0x0772a26b, 0xf4b002d6, 0x085f3833),
              Working(0x6dc57a8a, 0x34df1604, 0x41a65cb1, 0x65a0cfe4, 0xf0781bc8, 0xa507a53d, 0x0772a26b, 0xf4b002d6),
              Working(0x79ea687a, 0x6dc57a8a, 0x34df1604, 0x41a65cb1, 0x1efbc0a0, 0xf0781bc8, 0xa507a53d, 0x0772a26b));
  }

  lemma Rounds40() returns (p: Path)
    ensures p.v0 == V(10) && p.v4 == V(11) && Rounded(p, C(10), W(10))
  {
    p := Path(Working(0x79ea687a, 0x6dc57a8a, 0x34df1604, 0x41a65cb1, 0x1efbc0a0, 0xf0781bc8, 0xa507a53d, 0x0772a26b),
              Working(0xd6670766, 0x79ea687a, 0x6dc57a8a, 0x34df1604, 0x26352d63, 0x1efbc0a0, 0xf0781bc8, 0xa507a53d),
              Working(0xdf46652f, 0xd6670766, 0x79ea687a, 0x6dc57a8a, 0x838b2711, 0x26352d63, 0x1efbc0a0, 0xf0781bc8),
              Working(0x17aa0dfe, 0xdf46652f, 0xd6670766, 0x79ea687a, 0xdecd4715, 0x838b2711, 0x26352d63, 0x1efbc0a0),
              Working(0x9d4baf93, 0x17aa0dfe, 0xdf46652f, 0xd6670766, 0xfda24c2e, 0xdecd4715, 0x838b2711, 0x26352d63));
  }

  lemma Rounds44() returns (p: Path)
    ensures p.v0 == V(11) && p.v4 == V(12) && Rounded(p, C(11), W(11))
  {
    p := Path(Working(0x9d4baf93, 0x17aa0dfe, 0xdf46652f, 0xd6670766, 0xfda24c2e, 0xdecd4715, 0x838b2711, 0x26352d63),
              Working(0x26628815, 0x9d4baf93, 0x17aa0dfe, 0xdf46652f, 0xa80f11f0, 0xfda24c2e, 0xdecd4715, 0x838b2711),
              Working(0x72ab4b91, 0x26628815, 0x9d4baf93, 0x17aa0dfe, 0xb7755da1, 0xa80f11f0, 0xfda24c2e, 0xdecd4715),
              Working(0xa14c14b0, 0x72ab4b91, 0x26628815, 0x9d4baf93, 0xd57b94a9, 0xb7755da1, 0xa80f11f0, 0xfda24c2e),
              Working(0x4172328d, 0xa14c14b0, 0x72ab4b91, 0x26628815, 0xfecf0bc6, 0xd57b94a9, 0xb7755da1, 0xa80f11f0));
  }

  lemma Rounds48() returns (p: Path)
    ensures p.v0 == V(12) && p.v4 == V(13) && Rounded(p, C(12), W(12))
  {
    p := Path(Working(0x4172328d, 0xa14c14b0, 0x72ab4b91, 0x26628815, 0xfecf0bc6, 0xd57b94a9, 0xb7755da1, 0xa80f11f0),
              Working(0x05757ceb, 0x4172328d, 0xa14c14b0, 0x72ab4b91, 0xbd714038, 0xfecf0bc6, 0xd57b94a9, 0xb7755da1),
              Working(0xf11bfaa8, 0x05757ceb, 0x4172328d, 0xa14c14b0, 0x6e5c390c, 0xbd714038, 0xfecf0bc6, 0xd57b94a9),
              Working(0x7a0508a1, 0xf11bfaa8, 0x05757ceb, 0x4172328d, 0x52f1ccf7, 0x6e5c390c, 0xbd714038, 0xfecf0bc6),
              Working(0x886e7a22, 0x7a0508a1, 0xf11bfaa8, 0x05757ceb, 0x49231c1e, 0x52f1ccf7, 0x6e5c390c, 0xbd714038));
  }

  lemma Rounds52() returns (p: Path)
    ensures p.v0 == V(13) && p.v4 == V(14) && Rounded(p, C(13), W(13))
  {
    p := Path(Working(0x886e7a22, 0x7a0508a1, 0xf11bfaa8, 0x05757ceb, 0x49231c1e, 0x52f1ccf7, 0x6e5c390c, 0xbd714038),
              Working(0x101fd28f, 0x886e7a22, 0x7a0508a1, 0xf11bfaa8, 0x529e7d00, 0x49231c1e, 0x52f1ccf7, 0x6e5c390c),
              Working(0xf5702fdb, 0x101fd28f, 0x886e7a22, 0x7a0508a1, 0x9f4787c3, 0x529e7d00, 0x49231c1e, 0x52f1ccf7),
              Working(0x3ec45cdb, 0xf5702fdb, 0x101fd28f, 0x886e7a22, 0xe50e1b4f, 0x9f4787c3, 0x529e7d00, 0x49231c1e),
              Working(0x38cc9913, 0x3ec45cdb, 0xf5702fdb, 0x101fd28f, 0x54cb266b, 0xe50e1b4f, 0x9f4787c3, 0x529e7d00));
  }

  lemma Rounds56() returns (p: Path)
    ensures p.v0 == V(14) && p.v4 == V(15) && Rounded(p, C(14), W(14))
  {
    p := Path(Working(0x38cc9913, 0x3ec45cdb, 0xf5702fdb, 0x101fd28f, 0x54cb266b, 0xe50e1b4f, 0x9f4787c3, 0x529e7d00),
              Working(0xfcd1887b, 0x38cc9913, 0x3ec45cdb, 0xf5702fdb, 0x9b5e906c, 0x54cb266b, 0xe50e1b4f, 0x9f4787c3),
              Working(0xc062d46f, 0xfcd1887b, 0x38cc9913, 0x3ec45cdb, 0x7e44008e, 0x9b5e906c, 0x54cb266b, 0xe50e1b4f),
              Working(0xffb70472, 0xc062d46f, 0xfcd1887b, 0x38cc9913, 0x6d83bfc6, 0x7e44008e, 0x9b5e906c, 0x54cb266b),
              Working(0xb6ae8fff, 0xffb70472, 0xc062d46f, 0xfcd1887b, 0xb21bad3d, 0x6d83bfc6, 0x7e44008e, 0x9b5e906c));
  }

  lemma Rounds60() returns (p: Path)
    ensures p.v0 == V(15) && p.v4 == V(16) && Rounded(p, C(15), W(15))
  {
    p := Path(Working(0xb6ae8fff, 0xffb70472, 0xc062d46f, 0xfcd1887b, 0xb21bad3d, 0x6d83bfc6, 0x7e44008e, 0x9b5e906c),
              Working(0xb85e2ce9, 0xb6ae8fff, 0xffb70472, 0xc062d46f, 0x961f4894, 0xb21bad3d, 0x6d83bfc6, 0x7e44008e),
              Working(0x04d24d6c, 0xb85e2ce9, 0xb6ae8fff, 0xffb70472, 0x948d25b6, 0x961f4894, 0xb21bad3d, 0x6d83bfc6),
              Working(0xd39a2165, 0x04d24d6c, 0xb85e2ce9, 0xb6ae8fff, 0xfb121210, 0x948d25b6, 0x961f4894, 0xb21bad3d),
              Working(0x506e3058, 0xd39a2165, 0x04d24d6c, 0xb85e2ce9, 0x5ef50f24, 0xfb121210, 0x948d25b6, 0x961f4894));
  }

  lemma RoundStep(v: Working, block: seq<Byte>, t: nat)
    requires |block| == BLOCK && t < 64
    ensures Rounds(v, block, t + 1) == Round(Rounds(v, block, t), K[t], Schedule(block, t))
  {
  }

  lemma FourRounds(v: Working, block: seq<Byte>, r: nat, p: Path)
    requires |block| == BLOCK && r < 16 && Scheduled(block, r) && Rounds(v, block, 4 * r) == V(r)
    requires p.v0 == V(r) && p.v4 == V(r + 1) && Rounded(p, C(r), W(r)) && Constants(4 * r) == C(r)
    ensures Rounds(v, block, 4 * r + 4) == V(r + 1)
  {
    hide Round, Rounds, Schedule, K, V, W, C;
    var t := 4 * r;
    RoundStep(v, block, t);
    RoundStep(v, block, t + 1);
    RoundStep(v, block, t + 2);
    RoundStep(v, block, t + 3);
  }

  lemma AbcRounds(block: seq<Byte>)
    requires |block| == BLOCK && block == Pad(ABC)
    ensures Rounds(Load(H0), block, 64) == V(16)
  {
    hide Rounds, Pad, V, W, C, Scheduled, Rounded, Constants, Round;
    var v := Load(H0);
    AbcSchedule(block);
    Start(block);
    Constants0();
    var p0 := Rounds0();
    FourRounds(v, block, 0, p0);
    var p1 := Rounds4();
    FourRounds(v, block, 1, p1);
    Constants8();
    var p2 := Rounds8();
    FourRounds(v, block, 2, p2);
    var p3 := Rounds12();
    FourRounds(v, block, 3, p3);
    Constants16();
    var p4 := Rounds16();
    FourRounds(v, block, 4, p4);
    var p5 := Rounds20();
    FourRounds(v, block, 5, p5);
    Constants24();
    var p6 := Rounds24();
    FourRounds(v, block, 6, p6);
    var p7 := Rounds28();
    FourRounds(v, block, 7, p7);
    Constants32();
    var p8 := Rounds32();
    FourRounds(v, block, 8, p8);
    var p9 := Rounds36();
    FourRounds(v, block, 9, p9);
    Constants40();
    var p10 := Rounds40();
    FourRounds(v, block, 10, p10);
    var p11 := Rounds44();
    FourRounds(v, block, 11, p11);
    Constants48();
    var p12 := Rounds48();
    FourRounds(v, block, 12, p12);
    var p13 := Rounds52();
    FourRounds(v, block, 13, p13);
    Constants56();
    var p14 := Rounds56();
    FourRounds(v, block, 14, p14);
    var p15 := Rounds60();
    FourRounds(v, block, 15, p15);
  }

  lemma Start(block: seq<Byte>)
    requires |block| == BLOCK
    ensures Rounds(Load(H0), block, 0) == V(0)
  {
  }

  // ---------------------------------------------------------------------------
  // The hash
  // ---------------------------------------------------------------------------

  lemma AbcWords()
    ensures HashBlocks(Pad(ABC)) == [
              0xba7816bf, 0x8f01cfea, 0x414140de, 0x5dae2223,
              0xb00361a3, 0x96177a9c, 0xb410ff61, 0xf20015ad]
  {
    hide Pad, Rounds;
    PaddedAbc();
    var block := Pad(ABC);
    assert block[..0] == [] && block[0..] == block;
    AbcRounds(block);
  }

  lemma DigestWord(h: seq<Word>, j: nat, a: Byte, b: Byte, c: Byte, d: Byte)
    requires |h| == 8 && j < 8 && h[j] == (a as bv32 << 24) | (b as bv32 << 16) | (c as bv32 << 8) | (d as bv32)
    ensures Digest(h)[4 * j..4 * j + 4] == [a, b, c, d]
  {
    hide WordByte;
    BytesOfWord(h[j], a, b, c, d);
  }

  /** SHA-256("abc"). */
  lemma Abc()
    ensures Sha256(ABC) == ABC_HASH
  {
    hide Pad, HashBlocks, Digest;
    AbcWords();
    var h := HashBlocks(Pad(ABC));
    DigestWord(h, 0, 0xba, 0x78, 0x16, 0xbf);
    DigestWord(h, 1, 0x8f, 0x01, 0xcf, 0xea);
    DigestWord(h, 2, 0x41, 0x41, 0x40, 0xde);
    DigestWord(h, 3, 0x5d, 0xae, 0x22, 0x23);
    DigestWord(h, 4, 0xb0, 0x03, 0x61, 0xa3);
    DigestWord(h, 5, 0x96, 0x17, 0x7a, 0x9c);
    DigestWord(h, 6, 0xb4, 0x10, 0xff, 0x61);
    DigestWord(h, 7, 0xf2, 0x00, 0x15, 0xad);
    var d := Digest(h);
    assert d == d[0..4] + d[4..8] + d[8..12] + d[12..16] + d[16..20] + d[20..24] + d[24..28] + d[28..32];
  }
}
