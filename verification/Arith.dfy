/** Small facts about integer division that several models use. */
module Arith {

  lemma SmallMultiple(s: int, k: int)
    requires -s < s * k < s
    ensures k == 0
  {
  }

  lemma DivAddMultiple(s: nat, m: nat, r: nat)
    requires s > 0
    ensures (s * m + r) / s == m + r / s
    ensures (s * m + r) % s == r % s
  {
    var q, p := (s * m + r) / s, m + r / s;
    assert s * (q - p) == r % s - (s * m + r) % s;
    SmallMultiple(s, q - p);
  }

  lemma DivBelow(x: nat, s: nat, k: nat)
    requires s > 0 && x < s * k
    ensures x / s < k
  {
    assert s * (x / s) <= x;
    assert s * (x / s - k) < 0;
  }

  lemma DigitOnTop(k: nat, high: nat, low: nat)
    requires low < k
    ensures (k * high + low) % k == low
  {
    DivAddMultiple(k, high, low);
    assert low == k * (low / k) + low % k;
    SmallMultiple(k, low / k);
  }

  /** Dropping high bits does not change the bits below them. */
  lemma LowPart(x: nat, s: nat, k: nat, high: nat, low: nat)
    requires s > 0 && k > 0 && x == s * (k * high) + low && low < s * k
    ensures x % s == low % s
    ensures (x / s) % k == low / s
  {
    DivBelow(low, s, k);
    DigitOnTop(k, high, low / s);
    DivAddMultiple(s, k * high, low);
  }
}
