/**
 The two sieves (bench/langs/bench.c:6-7, tests/native/bench/c/sieve.c:7-17): both count primes, the
 second leaves out 2, and so they differ by one where they cover the same numbers.
 */
module Sieve {
  import opened Arithmetic

  ghost predicate Divides(d: nat, n: nat) {
    exists k: nat :: n == k * d
  }

  ghost predicate Prime(n: nat) {
    n >= 2 && forall d: nat | 2 <= d < n :: !Divides(d, n)
  }

  ghost function PrimesBelow(n: nat): set<nat> {
    set p: nat | p < n && Prime(p)
  }

  ghost function OddPrimesBelow(n: nat): set<nat> {
    set p: nat | p < n && p % 2 == 1 && Prime(p)
  }

  // ---- what a composite number is marked by --------------------------------

  lemma DividesTrans(d: nat, p: nat, n: nat)
    requires Divides(d, p) && Divides(p, n)
    ensures Divides(d, n)
  {
    var j: nat, k: nat :| p == j * d && n == k * p;
    assert n == (k * j) * d;
  }

  lemma LeastDivisor(n: nat) returns (p: nat)
    requires n >= 2
    ensures 2 <= p <= n && Divides(p, n)
    ensures forall d: nat | 2 <= d < p :: !Divides(d, n)
  {
    assert n == 1 * n;
    p := 2;
    while !Divides(p, n)
      invariant 2 <= p <= n
      invariant forall d: nat | 2 <= d < p :: !Divides(d, n)
      decreases n - p
    {
      p := p + 1;
    }
  }

  /** A number that is not prime is divisible by a prime no greater than its root. */
  lemma SmallFactor(n: nat) returns (p: nat)
    requires n >= 2 && !Prime(n)
    ensures Prime(p) && Divides(p, n) && p * p <= n && p < n
  {
    p := LeastDivisor(n);
    var k: nat :| n == k * p;
    forall d: nat | 2 <= d < p
      ensures !Divides(d, p)
    {
      if Divides(d, p) { DividesTrans(d, p, n); }
    }
    assert k != 1 && k != 0;
    assert n == p * k && Divides(k, n);
    assert p <= k;
    RootBelow(p, k);
  }

  lemma RootBelow(p: nat, k: nat)
    requires 2 <= p <= k
    ensures p * p <= k * p && p < k * p
  {
    assert k * p == p * p + (k - p) * p;
  }

  // ---- bench.c: from i * i on ----------------------------------------------

  ghost predicate Marked(j: nat, i: nat) {
    exists p: nat :: p < i && Prime(p) && p * p <= j && Divides(p, j)
  }

  lemma MarkedIsComposite(i: nat)
    requires i >= 2
    ensures Prime(i) <==> !Marked(i, i)
  {
    if !Prime(i) {
      var p := SmallFactor(i);
    }
  }

  lemma MarkedNext(j: nat, i: nat)
    ensures Marked(j, i + 1) <==> Marked(j, i) || (Prime(i) && i * i <= j && Divides(i, j))
  {
  }

  lemma MultipleFrom(j: nat, i: nat)
    requires i >= 1
    ensures i * i <= j && Divides(i, j) <==> exists m: nat :: i <= m && j == m * i
  {
    if i * i <= j && Divides(i, j) {
      var m: nat :| j == m * i;
      MultiplesApart(i, m, i);
    }
    if exists m: nat :: i <= m && j == m * i {
      var m: nat :| i <= m && j == m * i;
      assert m * i == i * i + (m - i) * i;
    }
  }

  lemma PrimesNext(n: nat)
    ensures |PrimesBelow(n + 1)| == |PrimesBelow(n)| + if Prime(n) then 1 else 0
  {
    assert PrimesBelow(n + 1) == PrimesBelow(n) + if Prime(n) then {n} else {};
  }

  lemma NoneBelowTwo(n: nat)
    requires n <= 2
    ensures PrimesBelow(n) == {} && OddPrimesBelow(n) == {}
  {
  }

  /** Clear the multiples of i from its square on. */
  method Clear(f: array<int>, i: nat)
    requires 2 <= i < f.Length
    modifies f
    ensures forall x :: 0 <= x < f.Length ==>
              f[x] == if i * i <= x && Divides(i, x) then 0 else old(f[x])
  {
    var j := i * i;
    ghost var m := i;
    while j < f.Length
      invariant j == m * i && i <= m
      invariant forall x :: 0 <= x < f.Length ==>
                  f[x] == if x < j && i * i <= x && Divides(i, x) then 0 else old(f[x])
    {
      f[j] := 0;
      GapFree(i, m);
      MultipleFrom(j, i);
      assert (m + 1) * i == m * i + i;
      j, m := j + i, m + 1;
    }
  }

  lemma GapFree(i: nat, m: nat)
    requires i >= 1
    ensures forall x: nat :: m * i < x < m * i + i ==> !Divides(i, x)
  {
    forall x: nat | m * i < x < m * i + i
      ensures !Divides(i, x)
    {
      forall k: nat ensures x != k * i {
        MultiplesApart(i, m, k);
      }
    }
  }

  lemma MultiplesApart(i: nat, m: nat, k: nat)
    ensures k <= m ==> k * i <= m * i
    ensures k > m ==> k * i >= m * i + i
  {
    if k <= m { MulMono(k, m, i); } else { MulMono(m + 1, k, i); }
  }

  method ByteSieve(n: nat) returns (c: nat)
    ensures c == |PrimesBelow(n)|
  {
    var f := new int[n](_ => 1);
    c := 0;
    var i := 2;
    NoneBelowTwo(if n < 2 then n else 2);
    while i < n
      invariant i >= 2 && (n < i ==> i == 2) && c == |PrimesBelow(if i <= n then i else n)|
      invariant forall x :: 2 <= x < n ==> f[x] == if Marked(x, i) then 0 else 1
    {
      MarkedIsComposite(i);
      PrimesNext(i);
      forall x: nat | 2 <= x < n
        ensures Marked(x, i + 1) <==> Marked(x, i) || (Prime(i) && i * i <= x && Divides(i, x))
      {
        MarkedNext(x, i);
      }
      if f[i] != 0 {
        c := c + 1;
        Clear(f, i);
      }
      i := i + 1;
    }
  }

  // ---- sieve.c: odd numbers only -------------------------------------------

  ghost predicate OddMarked(v: nat, b: nat) {
    exists p: nat :: 3 <= p < b && p < v && Prime(p) && Divides(p, v)
  }

  lemma OddMarkedIsComposite(v: nat)
    requires v >= 3 && v % 2 == 1
    ensures Prime(v) <==> !OddMarked(v, v)
  {
    if !Prime(v) {
      var p := SmallFactor(v);
      assert p != 2;
    }
  }

  lemma OddMarkedNext(v: nat, b: nat)
    requires b >= 3 && b % 2 == 1 && v % 2 == 1
    ensures OddMarked(v, b + 2) <==> OddMarked(v, b) || (Prime(b) && b < v && Divides(b, v))
  {
    assert !Prime(b + 1) by {
      assert b + 1 == ((b + 1) / 2) * 2;
      assert Divides(2, b + 1);
    }
  }

  /** The odd multiples of an odd number above itself lie twice that number apart. */
  lemma OddMultiple(i: nat, x: nat, p: nat)
    requires p == 2 * i + 3
    ensures p < 2 * x + 3 && Divides(p, 2 * x + 3) <==> exists s: nat :: s >= 1 && x == i + s * p
  {
    if p < 2 * x + 3 && Divides(p, 2 * x + 3) {
      var m: nat :| 2 * x + 3 == m * p;
      var s := m / 2;
      Halve(m, s, p);
      assert s >= 1 && x == i + s * p;
    }
    if s: nat :| s >= 1 && x == i + s * p {
      Halve(2 * s + 1, s, p);
      MulMono(1, s, p);
    }
  }

  lemma Halve(m: nat, s: nat, p: nat)
    requires s == m / 2
    ensures m * p == 2 * (s * p) + if m % 2 == 1 then p else 0
  {
    assert m == 2 * s + m % 2;
    assert m * p == (2 * s) * p + (m % 2) * p;
    assert (2 * s) * p == 2 * (s * p);
  }

  lemma OddPrimesNext(b: nat)
    requires b % 2 == 1
    ensures |OddPrimesBelow(b + 2)| == |OddPrimesBelow(b)| + if Prime(b) then 1 else 0
  {
    hide Prime;
    assert OddPrimesBelow(b + 2) == OddPrimesBelow(b) + if Prime(b) then {b} else {};
  }

  /** Clear the flags every prime steps beyond i. */
  method ClearOdd(flags: array<int>, i: nat, prime: nat)
    requires i < flags.Length && prime == i + i + 3
    modifies flags
    ensures forall x :: 0 <= x < flags.Length ==>
              flags[x] == if prime < 2 * x + 3 && Divides(prime, 2 * x + 3) then 0 else old(flags[x])
  {
    hide Divides;
    var k := i + prime;
    ghost var s := 1;
    OddGap(i, 0, prime);
    while k < flags.Length
      invariant k == i + s * prime && s >= 1
      invariant forall x :: 0 <= x < flags.Length ==>
                  flags[x] == if i <= x < k && prime < 2 * x + 3 && Divides(prime, 2 * x + 3) then 0 else old(flags[x])
    {
      flags[k] := 0;
      OddMultiple(i, k, prime);
      OddGap(i, s, prime);
      assert (s + 1) * prime == s * prime + prime;
      k, s := k + prime, s + 1;
    }
  }

  lemma OddGap(i: nat, s: nat, p: nat)
    requires p == 2 * i + 3
    ensures forall x: nat :: i + s * p < x < i + s * p + p ==> !(p < 2 * x + 3 && Divides(p, 2 * x + 3))
  {
    hide Divides;
    forall x: nat | i + s * p < x < i + s * p + p
      ensures !(p < 2 * x + 3 && Divides(p, 2 * x + 3))
    {
      OddMultiple(i, x, p);
      forall t: nat ensures x != i + t * p {
        MultiplesApart(p, s, t);
      }
    }
  }

  lemma LastIsEven(size: nat)
    ensures OddPrimesBelow(2 * size + 3) == OddPrimesBelow(2 * size + 2)
  {
    hide Prime;
  }

  method OddSieve(size: nat) returns (count: nat)
    ensures count == |OddPrimesBelow(2 * size + 2)|
  {
    hide Divides; hide Prime;
    count := 0;
    var flags := new int[size](_ => 1);
    LastIsEven(0);
    NoneBelowTwo(2);
    for i := 0 to size
      invariant count == |OddPrimesBelow(2 * i + 3)|
      invariant forall x :: 0 <= x < size ==> flags[x] == if OddMarked(2 * x + 3, 2 * i + 3) then 0 else 1
    {
      OddMarkedIsComposite(2 * i + 3);
      OddPrimesNext(2 * i + 3);
      forall x | 0 <= x < size
        ensures OddMarked(2 * x + 3, 2 * i + 5) <==>
                OddMarked(2 * x + 3, 2 * i + 3) || (Prime(2 * i + 3) && 2 * i + 3 < 2 * x + 3
                                                    && Divides(2 * i + 3, 2 * x + 3))
      {
        OddMarkedNext(2 * x + 3, 2 * i + 3);
      }
      if flags[i] != 0 {
        var prime := i + i + 3;
        ClearOdd(flags, i, prime);
        count := count + 1;
      }
    }
    LastIsEven(size);
  }

  /**
   What the two counts have to do with each other: the second is one less as soon as there is a flag
   at all; with none, both are 0.
   */
  lemma SievesMeet(size: nat)
    ensures |OddPrimesBelow(2 * size + 2)| + 1 == |PrimesBelow(2 * size + 2)| <==> size >= 1
    ensures size == 0 ==> |OddPrimesBelow(2 * size + 2)| == |PrimesBelow(2 * size + 2)| == 0
  {
    var n := 2 * size + 2;
    if size == 0 {
      NoneBelowTwo(n);
    } else {
      assert Prime(2);
      forall p | p in PrimesBelow(n)
        ensures p == 2 || p in OddPrimesBelow(n)
      {
        if p % 2 == 0 && p > 2 { assert p == (p / 2) * 2; assert Divides(2, p); }
      }
      assert PrimesBelow(n) == OddPrimesBelow(n) + {2};
    }
  }
}
