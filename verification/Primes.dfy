/** Trial division by 6k-1 and 6k+1, against the definition of primality, and counting primes. */
module Primes {
  import opened Basics

  ghost predicate Divides(a: nat, n: nat) { exists k: nat :: a * k == n }

  ghost predicate Prime(n: nat) { n >= 2 && forall a: nat | Divides(a, n) :: a == 1 || a == n }

  /** Primes p with `a <= p < b`. */
  ghost function PrimesIn(a: nat, b: nat): nat {
    if b <= a then 0 else PrimesIn(a, b - 1) + if Prime(b - 1) then 1 else 0
  }

  lemma {:induction false} PrimesSplit(a: nat, b: nat, c: nat)
    requires a <= b <= c
    ensures PrimesIn(a, c) == PrimesIn(a, b) + PrimesIn(b, c)
    decreases c
  {
    if b < c { PrimesSplit(a, b, c - 1); }
  }

  lemma {:induction false} PrimesAtMost(a: nat, b: nat)
    requires a <= b
    ensures PrimesIn(a, b) <= b - a
    decreases b
  {
    if a < b { PrimesAtMost(a, b - 1); }
  }

  lemma RemainderDecides(a: nat, n: nat)
    requires a > 0
    ensures n % a == 0 <==> Divides(a, n)
  {
    assert n == a * (n / a) + n % a;
    if k: nat :| a * k == n {
      UniqueQuotient(a, k, n / a, n % a);
    }
  }

  lemma TimesMonotone(a: nat, x: nat, y: nat)
    requires x <= y
    ensures a * x <= a * y
  {
  }

  lemma UniqueQuotient(a: nat, k: nat, q: nat, r: nat)
    requires a * k == a * q + r && r < a
    ensures r == 0
  {
    if k > q {
      TimesMonotone(a, q + 1, k);
      assert false;
    }
  }

  lemma DividesThrough(a: nat, m: nat, n: nat)
    requires Divides(a * m, n)
    ensures Divides(a, n)
  {
    var k: nat :| a * m * k == n;
    assert a * (m * k) == n;
  }

  /** No divisor from 2 up to, not including, `i`. */
  ghost predicate NoneBelow(n: nat, i: nat) { forall d: nat | 2 <= d < i :: !Divides(d, n) }

  /** A number without a divisor up to its square root is prime. */
  lemma RootSuffices(n: nat, i: nat)
    requires n >= 2 && i * i > n && NoneBelow(n, i)
    ensures Prime(n)
  {
    forall a: nat | Divides(a, n) ensures a == 1 || a == n {
      var k: nat :| a * k == n;
      if a != 1 && a != n {
        Cofactor(a, k, n);
        assert Divides(k, n) by { assert k * a == n; }
        if a >= i && k >= i { Squares(a, k, i); }
      }
    }
  }

  lemma Cofactor(a: nat, k: nat, n: nat)
    requires a * k == n && n >= 2 && a != 1 && a != n
    ensures a >= 2 && k >= 2
  {
  }

  lemma Squares(a: nat, k: nat, i: nat)
    requires a >= i && k >= i
    ensures a * k >= i * i
  {
    assert a * k >= i * k;
    assert i * k >= i * i;
  }

  /** Six more candidates: two are tried, the others are multiples of 2 or 3. */
  lemma SixMore(n: nat, k: nat)
    requires !Divides(2, n) && !Divides(3, n) && NoneBelow(n, 6 * k + 5)
    requires !Divides(6 * k + 5, n) && !Divides(6 * k + 7, n)
    ensures NoneBelow(n, 6 * (k + 1) + 5)
  {
    forall d: nat | 6 * k + 5 <= d < 6 * k + 11 ensures !Divides(d, n) {
      if d == 6 * k + 6 && Divides(d, n) { DividesThrough(2, 3 * k + 3, n); }
      if d == 6 * k + 8 && Divides(d, n) { DividesThrough(2, 3 * k + 4, n); }
      if d == 6 * k + 9 && Divides(d, n) { DividesThrough(3, 2 * k + 3, n); }
      if d == 6 * k + 10 && Divides(d, n) { DividesThrough(2, 3 * k + 5, n); }
    }
  }

  /** 2^32 - 5, the largest divisor candidate whose square fits 64 bits. */
  const LAST_ROOT: nat := 0xFFFF_FFFB

  /** A candidate whose square is seven short of a multiple of 2^64: its wrapped square is as large as any. */
  const LAST_TRIED: nat := 1852311383259529397

  lemma RootsFit(i: nat)
    requires i <= LAST_ROOT
    ensures i * i % TWO64 == i * i
  {
    Squares(LAST_ROOT, LAST_ROOT, i);
    assert LAST_ROOT * LAST_ROOT < TWO64;
  }

  lemma LastTriedWraps()
    ensures LAST_TRIED * LAST_TRIED % TWO64 == TWO64 - 7
  {
    assert LAST_TRIED * LAST_TRIED == 185997997632698875 * TWO64 + (TWO64 - 7);
  }

  /** Each of the seven largest 64-bit numbers has a small divisor. */
  lemma TopIsComposite(n: nat)
    requires TWO64 - 7 <= n < TWO64
    ensures Divides(2, n) || Divides(3, n) || Divides(11, n) || Divides(13, n)
  {
    RemainderDecides(2, n);
    RemainderDecides(3, n);
    RemainderDecides(11, n);
    RemainderDecides(13, n);
    var d := TWO64 - n;
    assert d == 1 || d == 2 || d == 3 || d == 4 || d == 5 || d == 6 || d == 7;
  }

  lemma NotPrime(n: nat, d: nat)
    requires 2 <= d < n && Divides(d, n)
    ensures !Prime(n)
  {
  }

  lemma SmallRoot(i: nat, n: nat)
    requires i >= 5 && i * i <= n
    ensures i + 2 < n
  {
    Squares(i, i, 5);
    assert i * i >= 5 * i;
  }

  /** The loop's candidate: the next of its kind, and past the last root only for numbers at least its square. */
  ghost predicate Trying(n: nat, i: nat, k: nat) {
    && i == 6 * k + 5 && i <= LAST_TRIED && NoneBelow(n, i) && (i <= LAST_ROOT || n >= LAST_ROOT * LAST_ROOT)
  }

  /** While the guard holds, both divisors tried are below the number, and the last candidate is not reached. */
  lemma TriesBelow(n: nat, i: nat, k: nat)
    requires n < TWO64 && Trying(n, i, k) && i * i % TWO64 <= n
    ensures i + 2 < n && i < LAST_TRIED && (i + 6 <= LAST_ROOT || n >= LAST_ROOT * LAST_ROOT)
  {
    if i <= LAST_ROOT {
      RootsFit(i);
      SmallRoot(i, n);
      if i == LAST_ROOT { assert i * i == LAST_ROOT * LAST_ROOT; }
    }
    if i == LAST_TRIED {
      LastTriedWraps();
      TopIsComposite(n);
      assert false;
    }
  }

  /** Once the guard fails, the candidate is past the root, whether its square wrapped or not. */
  lemma TriedAll(n: nat, i: nat, k: nat)
    requires 2 <= n < TWO64 && Trying(n, i, k) && i * i % TWO64 > n
    ensures Prime(n)
  {
    if i <= LAST_ROOT {
      RootsFit(i);
    } else {
      Squares(i, i, LAST_ROOT + 6);
      assert (LAST_ROOT + 6) * (LAST_ROOT + 6) > TWO64;
    }
    RootSuffices(n, i);
  }

  /** `is_prime` on every 64-bit number, with the wrapping product of its loop guard. For a prime close to 2^64
      the loop runs past the root, until a square wraps to more than the number; the answer is right even so. */
  method IsPrime(n: nat) returns (r: bool)
    requires n < TWO64
    ensures r <==> Prime(n)
  {
    if n < 2 { return false; }
    if n == 2 {
      RootSuffices(n, 2);
      return true;
    }
    RemainderDecides(2, n);
    if n % 2 == 0 {
      NotPrime(n, 2);
      return false;
    }
    if n == 3 {
      RootSuffices(n, 2);
      return true;
    }
    RemainderDecides(3, n);
    if n % 3 == 0 {
      NotPrime(n, 3);
      return false;
    }
    if Divides(4, n) { DividesThrough(2, 2, n); }
    var i := 5;
    ghost var k := 0;
    while i * i % TWO64 <= n
      invariant Trying(n, i, k)
      decreases LAST_TRIED - i
    {
      TriesBelow(n, i, k);
      RemainderDecides(i, n);
      RemainderDecides(i + 2, n);
      if n % i == 0 || n % (i + 2) == 0 {
        NotPrime(n, if n % i == 0 then i else i + 2);
        return false;
      }
      SixMore(n, k);
      i, k := i + 6, k + 1;
    }
    TriedAll(n, i, k);
    return true;
  }

  /** `count_primes_in_range`; the count fits the range, so its 64 bits cannot wrap. */
  method CountPrimes(start: nat, end: nat) returns (count: nat)
    requires end <= TWO64
    ensures count == PrimesIn(start, end) && (start <= end ==> count <= end - start)
  {
    count := 0;
    var n := start;
    while n < end
      invariant start <= n && (n <= end || n == start) && count == PrimesIn(start, n)
    {
      var p := IsPrime(n);
      if p { count := count + 1; }
      n := n + 1;
    }
    if start <= end { PrimesAtMost(start, end); }
  }
}
