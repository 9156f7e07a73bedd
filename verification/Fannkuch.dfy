/**
 The fannkuch kernel (bench/langs/bench.c:16-25, bench/langs/bench.py:26-40): a counter of nested
 prefix rotations that walks through the permutations, and for each the number of prefix reversals
 until 0 comes to the front.
 */
module Fannkuch {
  import opened Arithmetic

  // ---- permutations and reversals ------------------------------------------

  ghost predicate Distinct(s: seq<nat>) {
    forall i, j :: 0 <= i < j < |s| ==> s[i] != s[j]
  }

  ghost predicate IsPermutation(s: seq<nat>, n: nat) {
    |s| == n && Distinct(s) && forall i :: 0 <= i < n ==> s[i] < n
  }

  function Identity(n: nat): (r: seq<nat>)
    ensures |r| == n
  {
    seq(n, i => i)
  }

  /** Python's p[:k + 1] = p[k::-1]. */
  function ReversePrefix(p: seq<nat>, k: nat): (r: seq<nat>)
    requires k < |p|
    ensures |r| == |p|
  {
    seq(k + 1, i requires 0 <= i <= k => p[k - i]) + p[k + 1..]
  }

  /** The sum of 2^i over the fixed points i below m. */
  function FixedSum(p: seq<nat>, m: nat): (r: nat)
    requires m <= |p|
    ensures r < Pow2(m)
  {
    if m == 0 then 0 else FixedSum(p, m - 1) + if p[m - 1] == m - 1 then Pow2(m - 1) else 0
  }

  lemma {:induction false} FixedSumAbove(p: seq<nat>, q: seq<nat>, k: nat, m: nat)
    requires k < m <= |p| == |q| && p[k] != k && q[k] == k
    requires forall i :: k < i < m ==> q[i] == p[i]
    ensures FixedSum(q, m) > FixedSum(p, m)
  {
    if k < m - 1 {
      FixedSumAbove(p, q, k, m - 1);
    }
  }

  lemma ReverseKeepsPermutation(p: seq<nat>, k: nat, n: nat)
    requires IsPermutation(p, n) && k < n
    ensures IsPermutation(ReversePrefix(p, k), n)
  {
    var q := ReversePrefix(p, k);
    forall i | 0 <= i < n
      ensures q[i] == if i <= k then p[k - i] else p[i]
    {
    }
  }

  /** A flip fixes the position its front card names, and leaves those above it alone: the sum grows. */
  lemma FlipProgress(p: seq<nat>, n: nat)
    requires IsPermutation(p, n) && n > 0 && p[0] != 0
    ensures IsPermutation(ReversePrefix(p, p[0]), n)
    ensures FixedSum(ReversePrefix(p, p[0]), n) > FixedSum(p, n)
  {
    ReverseKeepsPermutation(p, p[0], n);
    FixedSumAbove(p, ReversePrefix(p, p[0]), p[0], n);
  }

  /** How many flips bring 0 to the front: never more than 2^n. */
  function Flips(p: seq<nat>): (f: nat)
    requires |p| > 0 && IsPermutation(p, |p|)
    ensures f + FixedSum(p, |p|) < Pow2(|p|)
    decreases Pow2(|p|) - FixedSum(p, |p|)
  {
    if p[0] == 0 then 0
    else
      FlipProgress(p, |p|);
      1 + Flips(ReversePrefix(p, p[0]))
  }

  // ---- rotations -----------------------------------------------------------

  /** The first r + 1 elements rotated one place to the left. */
  function Rotate(a: seq<nat>, r: nat): (b: seq<nat>)
    requires r < |a|
    ensures |b| == |a|
  {
    a[1..r + 1] + [a[0]] + a[r + 1..]
  }

  function Rotations(a: seq<nat>, r: nat, d: nat): (b: seq<nat>)
    requires r < |a|
    ensures |b| == |a|
  {
    if d == 0 then a else Rotate(Rotations(a, r, d - 1), r)
  }

  /** Where the element at i comes from after d rotations of a prefix of r + 1. */
  function Source(r: nat, d: nat, i: nat): nat {
    if i > r then i else if i + d <= r then i + d else i + d - r - 1
  }

  lemma {:induction false} RotationsAt(a: seq<nat>, r: nat, d: nat, i: nat)
    requires r < |a| && d <= r + 1 && i < |a|
    ensures Source(r, d, i) < |a| && Rotations(a, r, d)[i] == a[Source(r, d, i)]
    decreases d
  {
    if d > 0 {
      RotationsAt(a, r, d - 1, if i < r then i + 1 else if i == r then 0 else i);
    }
  }

  /** r + 1 rotations of a prefix of r + 1 are none. */
  lemma FullTurn(a: seq<nat>, r: nat)
    requires r < |a|
    ensures Rotations(a, r, r + 1) == a
  {
    forall i | 0 <= i < |a|
      ensures Rotations(a, r, r + 1)[i] == a[i]
    {
      RotationsAt(a, r, r + 1, i);
    }
  }

  lemma RotationsDistinct(a: seq<nat>, r: nat, d: nat)
    requires r < |a| && d <= r + 1 && Distinct(a)
    ensures Distinct(Rotations(a, r, d))
  {
    var b := Rotations(a, r, d);
    forall i, j | 0 <= i < j < |b|
      ensures b[i] != b[j]
    {
      RotationsAt(a, r, d, i);
      RotationsAt(a, r, d, j);
    }
  }

  function Factorial(n: nat): (r: nat)
    ensures r >= 1
  {
    if n == 0 then 1 else n * Factorial(n - 1)
  }

  /**
   The k-th arrangement of a's first m elements: rotate all m of them as often as k's leading
   factorial-base digit says, then go on with the first m - 1 and the remaining digits.
   */
  function Arrange(a: seq<nat>, m: nat, k: nat): (b: seq<nat>)
    requires 1 <= m <= |a|
    ensures |b| == |a|
    decreases m
  {
    if m == 1 then a
    else
      var f := Factorial(m - 1);
      Arrange(Rotations(a, m - 1, k / f), m - 1, k % f)
  }

  function Arrangement(n: nat, k: nat): (b: seq<nat>)
    requires n >= 1
    ensures |b| == n
  {
    Arrange(Identity(n), n, k)
  }

  lemma DigitBound(k: nat, m: nat)
    requires m >= 1 && k < Factorial(m)
    ensures k / Factorial(m - 1) < m
  {
    var f := Factorial(m - 1);
    assert k == k / f * f + k % f;
    MulMono(m, k / f, f);
  }

  /** Beyond the first m elements nothing moves; the m-th is decided by the leading digit. */
  lemma {:induction false} ArrangeAbove(a: seq<nat>, m: nat, k: nat, i: nat)
    requires 1 <= m <= i < |a| && k < Factorial(m)
    ensures Arrange(a, m, k)[i] == a[i]
    decreases m
  {
    if m > 1 {
      DigitBound(k, m);
      RotationsAt(a, m - 1, k / Factorial(m - 1), i);
      ArrangeAbove(Rotations(a, m - 1, k / Factorial(m - 1)), m - 1, k % Factorial(m - 1), i);
    }
  }

  lemma {:induction false} ArrangeDistinct(a: seq<nat>, m: nat, k: nat)
    requires 1 <= m <= |a| && k < Factorial(m) && Distinct(a)
    ensures Distinct(Arrange(a, m, k))
    ensures forall i :: 0 <= i < |a| ==> Arrange(a, m, k)[i] in a
    decreases m
  {
    if m > 1 {
      var d := k / Factorial(m - 1);
      var b := Rotations(a, m - 1, d);
      DigitBound(k, m);
      RotationsDistinct(a, m - 1, d);
      ArrangeDistinct(b, m - 1, k % Factorial(m - 1));
      forall x | x in b
        ensures x in a
      {
        var i :| 0 <= i < |b| && b[i] == x;
        RotationsAt(a, m - 1, d, i);
      }
    }
  }

  /** Every round's arrangement is a permutation. */
  lemma ArrangementIsPermutation(n: nat, k: nat)
    requires n >= 1 && k < Factorial(n)
    ensures IsPermutation(Arrangement(n, k), n)
  {
    ArrangeDistinct(Identity(n), n, k);
    forall i | 0 <= i < n
      ensures Arrangement(n, k)[i] < n
    {
      assert Arrangement(n, k)[i] in Identity(n);
    }
  }

  /** No two rounds have the same one. */
  lemma {:induction false} ArrangeInjective(a: seq<nat>, m: nat, j: nat, k: nat)
    requires 1 <= m <= |a| && Distinct(a) && j < Factorial(m) && k < Factorial(m)
    requires Arrange(a, m, j) == Arrange(a, m, k)
    ensures j == k
    decreases m
  {
    hide Distinct; hide Arrange; hide Rotations;
    if m == 1 {
      assert Factorial(1) == 1;
    } else {
      hide Factorial;
      var f := Factorial(m - 1);
      LeadingDigit(a, m, j, k);
      DigitBound(j, m);
      RotationsDistinct(a, m - 1, j / f);
      ArrangeStep(a, m, j);
      ArrangeStep(a, m, k);
      ArrangeInjective(Rotations(a, m - 1, j / f), m - 1, j % f, k % f);
      SameDigits(j, k, f);
    }
  }

  lemma ArrangeStep(a: seq<nat>, m: nat, k: nat)
    requires 1 < m <= |a|
    ensures Arrange(a, m, k) == Arrange(Rotations(a, m - 1, k / Factorial(m - 1)), m - 1, k % Factorial(m - 1))
  {
  }

  lemma SameDigits(j: nat, k: nat, f: nat)
    requires f > 0 && j / f == k / f && j % f == k % f
    ensures j == k
  {
  }

  lemma LeadingDigit(a: seq<nat>, m: nat, j: nat, k: nat)
    requires 1 < m <= |a| && Distinct(a) && j < Factorial(m) && k < Factorial(m)
    requires Arrange(a, m, j)[m - 1] == Arrange(a, m, k)[m - 1]
    ensures j / Factorial(m - 1) == k / Factorial(m - 1)
  {
    hide Arrange; hide Factorial;
    ArrangeLast(a, m, j);
    ArrangeLast(a, m, k);
    DigitBound(j, m);
    DigitBound(k, m);
  }

  lemma ArrangeLast(a: seq<nat>, m: nat, k: nat)
    requires 1 < m <= |a| && k < Factorial(m)
    ensures Source(m - 1, k / Factorial(m - 1), m - 1) < m
    ensures Arrange(a, m, k)[m - 1] == a[Source(m - 1, k / Factorial(m - 1), m - 1)]
  {
    var f := Factorial(m - 1);
    DigitBound(k, m);
    ArrangeAbove(Rotations(a, m - 1, k / f), m - 1, k % f, m - 1);
    RotationsAt(a, m - 1, k / f, m - 1);
  }

  /** Every rearrangement of the first m elements is some round's. */
  lemma {:induction false} ArrangeSurjective(a: seq<nat>, m: nat, q: seq<nat>) returns (k: nat)
    requires 1 <= m <= |a| == |q| && Distinct(q) && q[m..] == a[m..]
    requires forall i :: 0 <= i < m ==> q[i] in a[..m]
    ensures k < Factorial(m) && Arrange(a, m, k) == q
    decreases m
  {
    hide Factorial; hide Distinct; hide Rotations;
    if m == 1 {
      k := 0;
      assert q == [q[0]] + q[1..] && a == [a[0]] + a[1..];
    } else {
      var d := PlaceLast(a, m, q);
      var rest := ArrangeSurjective(Rotations(a, m - 1, d), m - 1, q);
      k := d * Factorial(m - 1) + rest;
      JoinDigits(m, d, rest);
    }
  }

  lemma JoinDigits(m: nat, d: nat, rest: nat)
    requires d < m && rest < Factorial(m - 1)
    ensures
      var f := Factorial(m - 1);
      d * f + rest < Factorial(m) && (d * f + rest) / f == d && (d * f + rest) % f == rest
  {
    var f := Factorial(m - 1);
    DivMod(f, d, rest);
    MulMono(d + 1, m, f);
    assert (d + 1) * f == d * f + f;
  }

  /** Some number of rotations brings the element that q has there to place m - 1. */
  lemma PlaceLast(a: seq<nat>, m: nat, q: seq<nat>) returns (d: nat)
    requires 1 < m <= |a| == |q| && Distinct(q) && q[m..] == a[m..]
    requires forall i :: 0 <= i < m ==> q[i] in a[..m]
    ensures d < m
    ensures q[m - 1..] == Rotations(a, m - 1, d)[m - 1..]
    ensures forall i :: 0 <= i < m - 1 ==> q[i] in Rotations(a, m - 1, d)[..m - 1]
  {
    hide Rotations;
    var s :| 0 <= s < m && a[s] == q[m - 1];
    d := if s == m - 1 then 0 else s + 1;
    var b := Rotations(a, m - 1, d);
    forall i | m - 1 <= i < |q|
      ensures q[i] == b[i]
    {
      RotationsAt(a, m - 1, d, i);
      if i >= m { assert q[i] == q[m..][i - m] && a[i] == a[m..][i - m]; }
    }
    forall i | 0 <= i < m - 1
      ensures q[i] in b[..m - 1]
    {
      var t :| 0 <= t < m && a[t] == q[i];
      var u := if t >= d then t - d else t + m - d;
      assert t != s;
      RotationsAt(a, m - 1, d, u);
      assert b[..m - 1][u] == q[i];
    }
  }

  /** Each permutation of 0..n-1 is the arrangement of exactly one round below n!. */
  lemma EachPermutationOnce(n: nat, q: seq<nat>) returns (k: nat)
    requires n >= 1 && IsPermutation(q, n)
    ensures k < Factorial(n) && Arrangement(n, k) == q
    ensures forall j :: 0 <= j < Factorial(n) && Arrangement(n, j) == q ==> j == k
  {
    var a := Identity(n);
    forall i | 0 <= i < n
      ensures q[i] in a[..n]
    {
      assert a[..n][q[i]] == q[i];
    }
    k := ArrangeSurjective(a, n, q);
    forall j: nat | j < Factorial(n) && Arrangement(n, j) == q
      ensures j == k
    {
      ArrangeInjective(a, n, j, k);
    }
  }

  // ---- the counter ---------------------------------------------------------

  /** digits[j] is how often the prefix of j + 1 has been rotated since it last came full turn. */
  ghost predicate Digits(ds: seq<nat>) {
    forall j :: 0 <= j < |ds| ==> ds[j] <= j
  }

  ghost function Value(ds: seq<nat>, m: nat): nat
    requires 1 <= m <= |ds|
  {
    if m == 1 then 0 else ds[m - 1] * Factorial(m - 1) + Value(ds, m - 1)
  }

  ghost function Turned(a: seq<nat>, m: nat, ds: seq<nat>): (b: seq<nat>)
    requires 1 <= m <= |a| == |ds|
    ensures |b| == |a|
    decreases m
  {
    if m == 1 then a else Turned(Rotations(a, m - 1, ds[m - 1]), m - 1, ds)
  }

  lemma {:induction false} TurnedIsArrange(a: seq<nat>, m: nat, ds: seq<nat>)
    requires 1 <= m <= |a| == |ds| && Digits(ds)
    ensures Value(ds, m) < Factorial(m) && Turned(a, m, ds) == Arrange(a, m, Value(ds, m))
    decreases m
  {
    if m == 1 {
      assert Factorial(1) == 1;
    } else {
      var b := Rotations(a, m - 1, ds[m - 1]);
      TurnedIsArrange(b, m - 1, ds);
      JoinDigits(m, ds[m - 1], Value(ds, m - 1));
      ArrangeStep(a, m, Value(ds, m));
    }
  }

  lemma {:induction false} ZeroTurns(a: seq<nat>, m: nat, ds: seq<nat>)
    requires 1 <= m <= |a| == |ds| && forall j :: 1 <= j < m ==> ds[j] == 0
    ensures Turned(a, m, ds) == a && Value(ds, m) == 0
    decreases m
  {
    hide Factorial;
    if m > 1 {
      ZeroTurns(a, m - 1, ds);
    }
  }

  /** With the lower digits 0, rotating a prefix of r + 1 adds one to digit r. */
  lemma {:induction false} TurnOnce(a: seq<nat>, m: nat, ds: seq<nat>, r: nat)
    requires 1 <= r < m <= |a| == |ds| && forall j :: 1 <= j < r ==> ds[j] == 0
    ensures Rotate(Turned(a, m, ds), r) == Turned(a, m, ds[r := ds[r] + 1])
    decreases m
  {
    hide Rotate;
    var b := Rotations(a, m - 1, ds[m - 1]);
    if m - 1 == r {
      ZeroTurns(b, r, ds);
      ZeroTurns(Rotate(b, r), r, ds[r := ds[r] + 1]);
    } else {
      TurnOnce(b, m - 1, ds, r);
    }
  }

  /** A full turn at level r is digit r back at 0. */
  lemma {:induction false} TurnFully(a: seq<nat>, m: nat, ds: seq<nat>, r: nat)
    requires 1 <= r < m <= |a| == |ds| && ds[r] == r + 1 && forall j :: 1 <= j < r ==> ds[j] == 0
    ensures Turned(a, m, ds) == Turned(a, m, ds[r := 0])
    decreases m
  {
    hide Rotate; hide Rotations;
    if m - 1 == r {
      FullTurn(a, r);
      ZeroTurns(a, r, ds);
      ZeroTurns(a, r, ds[r := 0]);
      assert Rotations(a, r, 0) == a by { NoTurn(a, r); }
    } else {
      TurnFully(Rotations(a, m - 1, ds[m - 1]), m - 1, ds, r);
    }
  }

  lemma NoTurn(a: seq<nat>, r: nat)
    requires r < |a|
    ensures Rotations(a, r, 0) == a
  {
  }

  lemma {:induction false} ValueSet(ds: seq<nat>, m: nat, r: nat, d: nat)
    requires 1 <= r < m <= |ds|
    ensures Value(ds[r := d], m) == Value(ds, m) + (d - ds[r]) * Factorial(r)
    decreases m
  {
    hide Factorial;
    if m - 1 == r {
      ValueBelow(ds, ds[r := d], m - 1);
      assert (d - ds[r]) * Factorial(r) == d * Factorial(r) - ds[r] * Factorial(r);
    } else {
      ValueSet(ds, m - 1, r, d);
    }
  }

  lemma {:induction false} ValueBelow(ds: seq<nat>, es: seq<nat>, m: nat)
    requires 1 <= m <= |ds| == |es| && forall j :: 1 <= j < m ==> ds[j] == es[j]
    ensures Value(ds, m) == Value(es, m)
  {
    hide Factorial;
    if m > 1 {
      ValueBelow(ds, es, m - 1);
    }
  }

  // ---- what the kernel computes --------------------------------------------

  function FlipsAt(n: nat, k: nat): nat
    requires n >= 1 && k < Factorial(n)
  {
    ArrangementIsPermutation(n, k);
    Flips(Arrangement(n, k))
  }

  /** The alternating sum of the first k rounds' flips. */
  function Checksum(n: nat, k: nat): int
    requires n >= 1 && k <= Factorial(n)
  {
    if k == 0 then 0
    else Checksum(n, k - 1) + if (k - 1) % 2 == 1 then 0 - FlipsAt(n, k - 1) else FlipsAt(n, k - 1)
  }

  function MaxFlips(n: nat, k: nat): nat
    requires n >= 1 && k <= Factorial(n)
  {
    if k == 0 then 0
    else if FlipsAt(n, k - 1) > MaxFlips(n, k - 1) then FlipsAt(n, k - 1)
    else MaxFlips(n, k - 1)
  }

  // ---- what that number is -------------------------------------------------

  /** 0 is not in front of p, and q is p with its first p[0] + 1 elements turned round. */
  ghost predicate Flipped(p: seq<nat>, q: seq<nat>) {
    && |p| == |q| && p != [] && 0 < p[0] < |p|
    && (forall i :: 0 <= i <= p[0] ==> q[i] == p[p[0] - i])
    && (forall i :: p[0] < i < |p| ==> q[i] == p[i])
  }

  /** f flips lead from p to an arrangement with 0 in front, and no fewer do. */
  ghost predicate ComesUpAfter(p: seq<nat>, f: nat) {
    exists way: seq<seq<nat>> ::
      && |way| == f + 1 && way[0] == p
      && (forall i :: 0 <= i < f ==> Flipped(way[i], way[i + 1]))
      && way[f] != [] && way[f][0] == 0
  }

  /** Flips counts them. */
  lemma {:induction false} FlipsComeUp(p: seq<nat>) returns (way: seq<seq<nat>>)
    requires |p| > 0 && IsPermutation(p, |p|)
    ensures |way| == Flips(p) + 1 && way[0] == p
    ensures forall i :: 0 <= i < Flips(p) ==> Flipped(way[i], way[i + 1])
    ensures way[Flips(p)] != [] && way[Flips(p)][0] == 0
    decreases Pow2(|p|) - FixedSum(p, |p|)
  {
    if p[0] == 0 {
      way := [p];
    } else {
      FlipProgress(p, |p|);
      var q := ReversePrefix(p, p[0]);
      assert Flipped(p, q);
      hide IsPermutation; hide FixedSum;
      var rest := FlipsComeUp(q);
      way := [p] + rest;
    }
  }

  lemma FlippedSame(p: seq<nat>, q: seq<nat>, q': seq<nat>)
    requires Flipped(p, q) && Flipped(p, q')
    ensures q == q'
  {
    forall i | 0 <= i < |p|
      ensures q[i] == q'[i]
    {
    }
    assert q == q';
  }

  lemma FlippedFront(p: seq<nat>, q: seq<nat>)
    requires Flipped(p, q)
    ensures p != [] && p[0] != 0
  {
  }

  /** There is one number of flips after which 0 comes up. */
  lemma {:induction false} SameWay(way: seq<seq<nat>>, way': seq<seq<nat>>, f: nat, f': nat, i: nat)
    requires |way| == f + 1 && |way'| == f' + 1 && way[0] == way'[0] && i <= f && i <= f'
    requires forall j :: 0 <= j < f ==> Flipped(way[j], way[j + 1])
    requires forall j :: 0 <= j < f' ==> Flipped(way'[j], way'[j + 1])
    ensures way[i] == way'[i]
    decreases i
  {
    if i > 0 {
      hide Flipped;
      SameWay(way, way', f, f', i - 1);
      assert Flipped(way[i - 1], way[i - 1 + 1]) && Flipped(way'[i - 1], way'[i - 1 + 1]);
      FlippedSame(way[i - 1], way[i], way'[i]);
    }
  }

  lemma FlipsExactly(p: seq<nat>, f: nat)
    requires |p| > 0 && IsPermutation(p, |p|)
    ensures ComesUpAfter(p, f) <==> f == Flips(p)
  {
    hide Flips; hide Flipped; hide IsPermutation;
    var way := FlipsComeUp(p);
    assert ComesUpAfter(p, Flips(p));
    if ComesUpAfter(p, f) {
      var way': seq<seq<nat>> :|
        && |way'| == f + 1 && way'[0] == p
        && (forall i :: 0 <= i < f ==> Flipped(way'[i], way'[i + 1]))
        && way'[f] != [] && way'[f][0] == 0;
      if f < Flips(p) {
        SameWay(way, way', Flips(p), f, f);
        FlippedFront(way[f], way[f + 1]);
      } else if Flips(p) < f {
        SameWay(way, way', Flips(p), f, Flips(p));
        FlippedFront(way'[Flips(p)], way'[Flips(p) + 1]);
      }
    }
  }

  lemma {:induction false} MaxOfRounds(n: nat, k: nat)
    requires n >= 1 && k <= Factorial(n)
    ensures forall j: nat :: j < k ==> FlipsAt(n, j) <= MaxFlips(n, k)
    ensures k > 0 ==> exists j: nat :: j < k && FlipsAt(n, j) == MaxFlips(n, k)
    decreases k
  {
    hide FlipsAt; hide Factorial;
    if k > 0 {
      MaxOfRounds(n, k - 1);
      if FlipsAt(n, k - 1) > MaxFlips(n, k - 1) || k == 1 {
        assert FlipsAt(n, k - 1) == MaxFlips(n, k);
      } else {
        var j: nat :| j < k - 1 && FlipsAt(n, j) == MaxFlips(n, k - 1);
        assert FlipsAt(n, j) == MaxFlips(n, k);
      }
    }
  }

  lemma RoundComesUp(n: nat, k: nat)
    requires n >= 1 && k < Factorial(n)
    ensures IsPermutation(Arrangement(n, k), n) && ComesUpAfter(Arrangement(n, k), FlipsAt(n, k))
  {
    ArrangementIsPermutation(n, k);
    FlipsExactly(Arrangement(n, k), FlipsAt(n, k));
  }

  /** The kernel's maximum is the greatest number of flips any permutation of 0..n-1 takes. */
  lemma MaxIsGreatest(n: nat)
    requires n >= 1
    ensures forall q: seq<nat>, f: nat :: IsPermutation(q, n) && ComesUpAfter(q, f) ==> f <= MaxFlips(n, Factorial(n))
    ensures exists q: seq<nat> :: IsPermutation(q, n) && ComesUpAfter(q, MaxFlips(n, Factorial(n)))
  {
    hide ComesUpAfter; hide IsPermutation; hide MaxFlips; hide Factorial; hide FlipsAt;
    var max := MaxFlips(n, Factorial(n));
    MaxOfRounds(n, Factorial(n));
    forall q: seq<nat>, f: nat | IsPermutation(q, n) && ComesUpAfter(q, f)
      ensures f <= max
    {
      var k := EachPermutationOnce(n, q);
      FlipsExactly(q, f) by { assert |q| == n by { SizeOf(q, n); } }
      RoundComesUp(n, k);
      FlipsExactly(q, FlipsAt(n, k)) by { SizeOf(q, n); }
    }
    var j: nat :| j < Factorial(n) && FlipsAt(n, j) == max;
    RoundComesUp(n, j);
    assert IsPermutation(Arrangement(n, j), n) && ComesUpAfter(Arrangement(n, j), max);
  }

  lemma SizeOf(q: seq<nat>, n: nat)
    requires IsPermutation(q, n)
    ensures |q| == n
  {
  }

  /** fs[0] + fs[2] + ..., and fs[1] + fs[3] + ... */
  ghost function EverySecond(fs: seq<nat>): (sum: nat) {
    if fs == [] then 0 else fs[0] + if |fs| == 1 then 0 else EverySecond(fs[2..])
  }

  ghost predicate FlipsOfRounds(n: nat, fs: seq<nat>)
    requires n >= 1
  {
    forall k: nat :: k < |fs| ==> ComesUpAfter(Arrangement(n, k), fs[k])
  }

  lemma {:induction false} SecondsGrow(fs: seq<nat>, f: nat)
    ensures EverySecond(fs + [f]) == EverySecond(fs) + if |fs| % 2 == 0 then f else 0
  {
    if |fs| >= 2 {
      SecondsGrow(fs[2..], f);
      assert (fs + [f])[2..] == fs[2..] + [f];
    } else if |fs| == 1 {
      assert (fs + [f])[2..] == [];
    } else {
      assert fs + [f] == [f];
    }
  }

  lemma {:induction false} ChecksumOf(n: nat, k: nat) returns (fs: seq<nat>)
    requires n >= 1 && k <= Factorial(n)
    ensures |fs| == k && FlipsOfRounds(n, fs)
    ensures Checksum(n, k) == EverySecond(fs) - if k == 0 then 0 else EverySecond(fs[1..])
    decreases k
  {
    hide ComesUpAfter; hide Factorial; hide FlipsAt; hide Arrangement;
    if k == 0 {
      fs := [];
    } else {
      var rest := ChecksumOf(n, k - 1);
      RoundComesUp(n, k - 1);
      fs := rest + [FlipsAt(n, k - 1)];
      SecondsGrow(rest, FlipsAt(n, k - 1));
      if k > 1 {
        SecondsGrow(rest[1..], FlipsAt(n, k - 1));
        assert fs[1..] == rest[1..] + [FlipsAt(n, k - 1)];
      } else {
        assert fs[1..] == [];
      }
    }
  }

  /** The checksum is the even rounds' flips less the odd rounds', every round's flips counted on its arrangement. */
  lemma ChecksumAlternates(n: nat, fs: seq<nat>)
    requires n >= 1 && |fs| == Factorial(n) && FlipsOfRounds(n, fs)
    ensures Checksum(n, Factorial(n)) == EverySecond(fs) - EverySecond(fs[1..])
  {
    var gs := ChecksumOf(n, Factorial(n));
    hide ComesUpAfter; hide Factorial; hide FlipsAt; hide Arrangement; hide IsPermutation; hide EverySecond;
    forall k: nat | k < |fs|
      ensures fs[k] == gs[k]
    {
      RoundComesUp(n, k);
      SizeOf(Arrangement(n, k), n);
      FlipsExactly(Arrangement(n, k), fs[k]);
      FlipsExactly(Arrangement(n, k), gs[k]);
    }
    assert fs == gs;
  }

  // ---- bench.c -------------------------------------------------------------

  /** Turn the first k + 1 elements round, swapping from both ends inward. */
  method SwapPrefix(p: array<nat>, k: nat)
    requires k < p.Length
    modifies p
    ensures p[..] == ReversePrefix(old(p[..]), k)
  {
    ghost var a := p[..];
    var lo, hi := 0, k;
    while lo < hi
      invariant lo + hi == k && lo <= hi + 1 && p.Length == |a|
      invariant forall i :: 0 <= i < lo ==> p[i] == a[k - i]
      invariant forall i :: lo <= i <= hi ==> p[i] == a[i]
      invariant forall i :: hi < i <= k ==> p[i] == a[k - i]
      invariant forall i :: k < i < p.Length ==> p[i] == a[i]
    {
      p[lo], p[hi] := p[hi], p[lo];
      lo, hi := lo + 1, hi - 1;
    }
    assert p[..] == ReversePrefix(a, k);
  }

  method CountFlips(p: array<nat>) returns (f: nat)
    requires p.Length > 0 && IsPermutation(p[..], p.Length)
    modifies p
    ensures f == Flips(old(p[..]))
  {
    f := 0;
    var k := p[0];
    while k != 0
      invariant IsPermutation(p[..], p.Length) && k == p[0]
      invariant f + Flips(p[..]) == Flips(old(p[..]))
      decreases Pow2(p.Length) - FixedSum(p[..], p.Length)
    {
      FlipProgress(p[..], p.Length);
      SwapPrefix(p, k);
      f := f + 1;
      k := p[0];
    }
  }

  /** Shift the first r + 1 elements down by one, the first of them to the end. */
  method RotatePrefix(p: array<nat>, r: nat)
    requires r < p.Length
    modifies p
    ensures p[..] == Rotate(old(p[..]), r)
  {
    ghost var a := p[..];
    var p0 := p[0];
    var i := 0;
    while i < r
      invariant i <= r && p.Length == |a|
      invariant forall j :: 0 <= j < i ==> p[j] == a[j + 1]
      invariant forall j :: i <= j < p.Length ==> p[j] == a[j]
    {
      p[i] := p[i + 1];
      i := i + 1;
    }
    p[r] := p0;
    assert p[..] == Rotate(a, r);
  }

  /** The state between rotations: digits below r are 0, and count[j] says how many turns of digit j are left. */
  ghost predicate Counter(p1: seq<nat>, count: seq<int>, n: nat, r: nat, ds: seq<nat>) {
    && 1 <= r <= n == |p1| == |count| == |ds| && Digits(ds)
    && (forall j :: 1 <= j < r ==> ds[j] == 0)
    && (forall j :: r <= j < n ==> count[j] == j + 1 - ds[j])
    && p1 == Turned(Identity(n), n, ds)
  }

  /** Give every digit below r its full number of turns. */
  method ResetCounts(count: array<int>, n: nat, r0: nat, ghost p1: seq<nat>, ghost ds: seq<nat>)
    requires Counter(p1, count[..], n, r0, ds)
    modifies count
    ensures Counter(p1, count[..], n, 1, ds)
  {
    hide Turned;
    var r := r0;
    while r != 1
      invariant Counter(p1, count[..], n, r, ds)
      decreases r
    {
      count[r - 1] := r;
      r := r - 1;
    }
  }

  /** One rotation at level r: its digit goes up, or comes full turn. */
  lemma RotateCounter(p1: seq<nat>, count: seq<int>, n: nat, r: nat, ds: seq<nat>)
    requires Counter(p1, count, n, r, ds) && r < n
    ensures ds[r] < r ==>
      Counter(Rotate(p1, r), count[r := count[r] - 1], n, r, ds[r := ds[r] + 1])
      && Value(ds[r := ds[r] + 1], n) == Value(ds, n) + Factorial(r)
    ensures ds[r] == r ==>
      Counter(Rotate(p1, r), count[r := count[r] - 1], n, r + 1, ds[r := 0])
      && Value(ds[r := 0], n) + Factorial(r + 1) == Value(ds, n) + Factorial(r)
  {
    hide Turned; hide Rotate; hide Value;
    TurnOnce(Identity(n), n, ds, r);
    if ds[r] < r {
      ValueSet(ds, n, r, ds[r] + 1);
    } else {
      TurnFully(Identity(n), n, ds[r := ds[r] + 1], r);
      assert ds[r := ds[r] + 1][r := 0] == ds[r := 0];
      ValueSet(ds, n, r, 0);
      assert Factorial(r + 1) == (r + 1) * Factorial(r) == r * Factorial(r) + Factorial(r);
      assert (0 - r) * Factorial(r) == -(r * Factorial(r));
    }
  }

  /** The kernel's inner loop: rotate, carrying to longer prefixes while counts run out. */
  method Advance(p1: array<nat>, count: array<int>, n: nat, ghost ds0: seq<nat>)
    returns (done: bool, r: nat, ghost ds: seq<nat>)
    requires p1.Length > 0 && Counter(p1[..], count[..], n, 1, ds0)
    modifies p1, count
    ensures !done ==> Counter(p1[..], count[..], n, r, ds) && Value(ds, n) == Value(ds0, n) + 1
    ensures done ==> p1[..] == Identity(n) && Value(ds0, n) + 1 == Factorial(n)
  {
    hide Turned; hide Rotate; hide Value;
    r, ds := 1, ds0;
    assert Factorial(1) == 1;
    while r < n
      invariant Counter(p1[..], count[..], n, r, ds)
      invariant Value(ds, n) + Factorial(r) == Value(ds0, n) + 1
      decreases n - r
    {
      hide Factorial;
      RotateCounter(p1[..], count[..], n, r, ds);
      RotatePrefix(p1, r);
      count[r] := count[r] - 1;
      if count[r] > 0 {
        ds := ds[r := ds[r] + 1];
        return false, r, ds;
      }
      ds := ds[r := 0];
      r := r + 1;
    }
    ZeroTurns(Identity(n), n, ds);
    done := true;
  }

  lemma CounterBound(p1: seq<nat>, count: seq<int>, n: nat, r: nat, ds: seq<nat>)
    requires Counter(p1, count, n, r, ds)
    ensures |ds| == n && Value(ds, n) < Factorial(n)
  {
    TurnedIsArrange(Identity(n), n, ds);
  }

  /** With the counts reset, the array is the arrangement that the digits name. */
  lemma Reached(p1: seq<nat>, count: seq<int>, n: nat, ds: seq<nat>)
    requires Counter(p1, count, n, 1, ds)
    ensures Value(ds, n) < Factorial(n) && p1 == Arrangement(n, Value(ds, n))
    ensures IsPermutation(p1, n) && Flips(p1) == FlipsAt(n, Value(ds, n))
  {
    TurnedIsArrange(Identity(n), n, ds);
    ArrangementIsPermutation(n, Value(ds, n));
  }

  lemma FreshIdentity(n: nat, a: seq<nat>)
    requires |a| == n && forall i :: 0 <= i < n ==> a[i] == i
    ensures a == Identity(n)
  {
  }

  lemma StartCounter(n: nat, count: seq<int>)
    requires n >= 1 && |count| == n
    ensures
      var ds := seq(n, _ => 0);
      Counter(Identity(n), count, n, n, ds) && Value(ds, n) == 0
  {
    ZeroTurns(Identity(n), n, seq(n, _ => 0));
  }

  /** The arrangements of the first k rounds, in order. */
  ghost function Rounds(n: nat, k: nat): (r: seq<seq<nat>>)
    requires n >= 1
    ensures |r| == k && forall j: nat :: j < k ==> r[j] == Arrangement(n, j)
  {
    if k == 0 then [] else Rounds(n, k - 1) + [Arrangement(n, k - 1)]
  }

  /**
   The kernel, for any n: it runs one round for each k below n!, on the k-th arrangement, and its
   array ends as it began.
   */
  method Fannkuch(n: nat) returns (result: int, ghost visited: seq<seq<nat>>, ghost final: seq<nat>)
    requires n >= 1
    ensures result == Checksum(n, Factorial(n)) * 1000 + MaxFlips(n, Factorial(n))
    ensures visited == Rounds(n, Factorial(n)) && final == Identity(n)
  {
    hide Turned; hide Rotate; hide Value; hide Factorial; hide Arrange; hide Flips; hide FlipsAt; hide Identity;
    var p1, p, count := new nat[n](i => i), new nat[n](_ => 0), new int[n](_ => 0);
    var r, maxf, pc, cs: int := n, 0, 0, 0;
    ghost var ds: seq<nat> := seq(n, _ => 0);
    visited := [];
    assert p1[..] == Identity(n) by { FreshIdentity(n, p1[..]); }
    StartCounter(n, count[..]);
    while true
      invariant p1.Length == p.Length == count.Length == n && p != p1 && |ds| == n
      invariant Counter(p1[..], count[..], n, r, ds) && Value(ds, n) == pc < Factorial(n)
      invariant cs == Checksum(n, pc) && maxf == MaxFlips(n, pc)
      invariant visited == Rounds(n, pc)
      decreases Factorial(n) - pc
    {
      ResetCounts(count, n, r, p1[..], ds);
      Reached(p1[..], count[..], n, ds);
      visited := visited + [p1[..]];
      forall i | 0 <= i < n {
        p[i] := p1[i];
      }
      ghost var a, c := p1[..], count[..];
      assert IsPermutation(a, n);
      assert p[..] == a;
      assert IsPermutation(p[..], p.Length);
      var f := CountFlips(p);
      assert p1[..] == a && count[..] == c;
      assert Counter(a, c, n, 1, ds);
      if f > maxf { maxf := f; }
      if pc % 2 == 1 { cs := cs - f; } else { cs := cs + f; }
      var done;
      done, r, ds := Advance(p1, count, n, ds);
      pc := pc + 1;
      if done {
        return cs * 1000 + maxf, visited, p1[..];
      }
      CounterBound(p1[..], count[..], n, r, ds);
    }
  }

  // ---- bench.py ------------------------------------------------------------

  method CountFlipsBySlices(p0: seq<nat>) returns (f: nat)
    requires |p0| > 0 && IsPermutation(p0, |p0|)
    ensures f == Flips(p0)
  {
    var p, k := p0, p0[0];
    f := 0;
    while k != 0
      invariant |p| == |p0| && IsPermutation(p, |p|) && k == p[0]
      invariant f + Flips(p) == Flips(p0)
      decreases Pow2(|p|) - FixedSum(p, |p|)
    {
      FlipProgress(p, |p|);
      p := ReversePrefix(p, k);
      f, k := f + 1, p[0];
    }
  }

  method AdvanceBySlices(p0: seq<nat>, count0: seq<int>, n: nat, ghost ds0: seq<nat>)
    returns (done: bool, p1: seq<nat>, count: seq<int>, r: nat, ghost ds: seq<nat>)
    requires Counter(p0, count0, n, 1, ds0)
    ensures !done ==> Counter(p1, count, n, r, ds) && Value(ds, n) == Value(ds0, n) + 1
    ensures done ==> p1 == Identity(n) && Value(ds0, n) + 1 == Factorial(n)
  {
    assert Factorial(1) == 1;
    hide Turned; hide Value; hide Factorial;
    p1, count, r, ds := p0, count0, 1, ds0;
    while r != n
      invariant Counter(p1, count, n, r, ds)
      invariant Value(ds, n) + Factorial(r) == Value(ds0, n) + 1
      decreases n - r
    {
      RotateCounter(p1, count, n, r, ds);
      p1 := p1[1..r + 1] + [p1[0]] + p1[r + 1..];
      count := count[r := count[r] - 1];
      if count[r] > 0 {
        return false, p1, count, r, ds[r := ds[r] + 1];
      }
      ds := ds[r := 0];
      r := r + 1;
    }
    ZeroTurns(Identity(n), n, ds);
    done := true;
  }

  /** The script's form on list slices comes to the same number, through the same rounds. */
  method FannkuchBySlices(n: nat) returns (result: int, ghost visited: seq<seq<nat>>)
    requires n >= 1
    ensures result == Checksum(n, Factorial(n)) * 1000 + MaxFlips(n, Factorial(n))
    ensures visited == Rounds(n, Factorial(n))
  {
    hide Turned; hide Value; hide Factorial; hide Arrange; hide Flips; hide FlipsAt; hide Identity;
    var p1: seq<nat>, count: seq<int> := Identity(n), seq(n, _ => 0);
    var r, maxf, pc, sum: int := n, 0, 0, 0;
    ghost var ds: seq<nat> := seq(n, _ => 0);
    visited := [];
    StartCounter(n, count);
    while true
      invariant Counter(p1, count, n, r, ds) && Value(ds, n) == pc < Factorial(n)
      invariant sum == Checksum(n, pc) && maxf == MaxFlips(n, pc)
      invariant visited == Rounds(n, pc)
      decreases Factorial(n) - pc
    {
      while r != 1
        invariant Counter(p1, count, n, r, ds)
        decreases r
      {
        count := count[r - 1 := r];
        r := r - 1;
      }
      Reached(p1, count, n, ds);
      visited := visited + [p1];
      var f := CountFlipsBySlices(p1);
      maxf := if f > maxf then f else maxf;
      if pc % 2 == 1 { sum := sum - f; } else { sum := sum + f; }
      var done;
      done, p1, count, r, ds := AdvanceBySlices(p1, count, n, ds);
      if done {
        return sum * 1000 + maxf, visited;
      }
      pc := pc + 1;
      CounterBound(p1, count, n, r, ds);
    }
  }
}
