/** Machine integers, division with remainder, and decimal digits. */
module Integers {
  import opened Bytes

  const TWO_63: int := 0x8000_0000_0000_0000
  const TWO_64: int := 0x1_0000_0000_0000_0000

  type int64 = n: int | -TWO_63 <= n < TWO_63
  type uint64 = n: int | 0 <= n < TWO_64

  lemma Scale(d: nat, a: int, b: int)
    requires a <= b
    ensures d * a <= d * b
  {
  }

  lemma Remainder(d: nat, q: nat, r: nat)
    requires r < d
    ensures (d * q + r) % d == r && (d * q + r) / d == q
  {
    var n := d * q + r;
    var p := n / d;
    assert n == d * p + n % d;
    Scale(d, q + 1, if p > q then p else q + 1);
    Scale(d, p + 1, if p < q then q else p + 1);
    assert d * (p + 1) == d * p + d && d * (q + 1) == d * q + d;
    assert p == q;
  }

  /** The decimal form of n. */
  function Digits(n: nat): (r: bytes)
    ensures r != []
  {
    if n < 10 then [48 + n] else Digits(n / 10) + [48 + n % 10]
  }
}
