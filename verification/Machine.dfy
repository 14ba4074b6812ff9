/** What several of the models share: 32-bit words, powers of two and optional values. */
module Machine {

  datatype Option<T> = None | Some(value: T)

  const UINT32: nat := 0x1_0000_0000

  /** The value an unsigned 32-bit word keeps. */
  function U32(x: int): (r: nat) {
    x % UINT32
  }

  function Pow2(k: nat): (p: nat)
    ensures p > 0
  {
    if k == 0 then 1 else 2 * Pow2(k - 1)
  }

  lemma {:induction false} Pow2Splits(k: nat, j: nat)
    requires j <= k
    ensures Pow2(k) == Pow2(k - j) * Pow2(j)
  {
    if j > 0 {
      Pow2Splits(k, j - 1);
      assert Pow2(k - j + 1) == 2 * Pow2(k - j);
    }
  }

  lemma WordsArePow2()
    ensures Pow2(31) == 0x8000_0000 && Pow2(32) == UINT32
  {
    assert Pow2(8) == 256;
    Pow2Splits(16, 8);
    Pow2Splits(24, 8);
    Pow2Splits(31, 7);
  }

  /** Quotient and remainder are the only ones that fit. */
  lemma QuotientIs(x: int, q: int, r: int, b: nat)
    requires b > 0 && x == q * b + r && 0 <= r < b
    ensures x / b == q && x % b == r
  {
    var p := x / b;
    assert x == p * b + x % b;
    if p > q {
      NextMultiple(q, p, b);
    } else if p < q {
      NextMultiple(p, q, b);
    }
  }

  lemma NextMultiple(p: int, q: int, b: nat)
    requires p < q
    ensures p * b + b <= q * b
  {
    var d := q - p - 1;
    assert d * b >= 0;
    assert q * b == p * b + b + d * b;
  }
}
