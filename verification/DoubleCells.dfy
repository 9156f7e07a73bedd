/**
 UM*, D+ and UM/MOD as double-cell arithmetic (engine/cv8.c:494-519 and 1085-1090; sections
 6.1.2360, 6.1.2370 and 8.6.1.1040 of Forth 2012). The engine's D+, which takes its carry from a
 comparison, is proved against the same meaning in Engine and PlainMeaning.CarryByCompare.
 */
module DoubleCells {
  import opened Arithmetic
  import opened Cells
  import opened Instructions

  /** What an arithmetic instruction pushes for these arguments, tops first. */
  function Pushed(c: Config, i: Instr, args: seq<nat>): seq<nat>
    requires |args| == Args(i) && RArgs(i) == 0
    requires i.UmStar? || i.DPlus? || (i.UmDiv? && args[0] != 0)
  {
    Act(c, i, 0, args, [], 0, [], 0, 0).push
  }

  /** A double below 2^(2w) is its two halves. */
  lemma HalvesJoin(w: Width, d: nat)
    requires d < Modulus(w) * Modulus(w)
    ensures Double(w, High(w, d), Low(w, d)) == d && High(w, d) == d / Modulus(w)
  {
    var m := Modulus(w);
    assert d == d / m * m + d % m;
    MulMono(m, d / m, m);
  }

  /** In general its halves are its residue mod 2^(2w). */
  lemma HalvesWrap(w: Width, d: nat)
    ensures Double(w, High(w, d), Low(w, d)) == d % (Modulus(w) * Modulus(w))
  {
    var m := Modulus(w);
    var q := d / m;
    assert d == q * m + d % m && q == q / m * m + q % m;
    MulMono(q % m + 1, m, m);
    assert (q % m + 1) * m == q % m * m + m;
    var r := q % m * m + d % m;
    assert d == q / m * (m * m) + r by {
      assert q * m == q / m * m * m + q % m * m;
      assert q / m * m * m == q / m * (m * m);
    }
    DivMod(m * m, q / m, r);
  }

  lemma ProductBound(x: nat, y: nat, m: nat)
    requires x < m && y < m
    ensures x * y < m * m
  {
    MulMono(x, m - 1, y);
    MulMono(y, m, m);
    assert (m - 1) * y == m * y - y;
    if y > 0 {
      assert m * y <= m * m;
    } else {
      assert m * m > 0;
    }
  }

  /** UM* is exact. */
  lemma UmStarExact(c: Config, u: nat, v: nat)
    requires u < Modulus(c.w) && v < Modulus(c.w)
    ensures
      var p := Pushed(c, UmStar, [v, u]);
      |p| == 2 && Double(c.w, p[0], p[1]) == u * v
  {
    hide Double; hide High; hide Low;
    ProductBound(u, v, Modulus(c.w));
    HalvesJoin(c.w, u * v);
  }

  /** D+ is addition mod 2^(2w). */
  lemma DPlusAdds(c: Config, h1: nat, l1: nat, h2: nat, l2: nat)
    ensures
      var p := Pushed(c, DPlus, [h2, l2, h1, l1]);
      |p| == 2 &&
      Double(c.w, p[0], p[1]) == (Double(c.w, h1, l1) + Double(c.w, h2, l2)) % (Modulus(c.w) * Modulus(c.w))
  {
    hide Double; hide High; hide Low;
    HalvesWrap(c.w, Double(c.w, h2, l2) + Double(c.w, h1, l1));
  }

  /** UM/MOD's quotient and remainder make up the dividend exactly when its high cell is below the divisor. */
  lemma UmDivExact(c: Config, d: nat, hi: nat, lo: nat)
    requires 0 < d < Modulus(c.w) && hi < Modulus(c.w) && lo < Modulus(c.w)
    ensures
      var p := Pushed(c, UmDiv, [d, hi, lo]);
      |p| == 2 && (p[0] * d + p[1] == Double(c.w, hi, lo) <==> hi < d)
  {
    var m, n := Modulus(c.w), Double(c.w, hi, lo);
    assert n == hi * m + lo;
    QuotientFits(m, d, hi, lo);
    hide Double;
    TruncatedQuotient(m, d, n / d);
    assert n == n / d * d + n % d;
    assert Wrap(c.w, n % d) == n % d;
  }

  /** Cutting the quotient down to a cell changes its multiple unless it was one. */
  lemma TruncatedQuotient(m: nat, d: nat, q: nat)
    requires 0 < d && 0 < m
    ensures q % m * d == q * d <==> q < m
  {
    if q >= m {
      MulMono(q % m + 1, q, d);
      assert (q % m + 1) * d == q % m * d + d;
    }
  }

  /** The quotient is below m exactly when the high part is below the divisor. */
  lemma QuotientFits(m: nat, d: nat, hi: nat, lo: nat)
    requires 0 < d && lo < m
    ensures (hi * m + lo) / d < m <==> hi < d
  {
    var n := hi * m + lo;
    var q, r := n / d, n % d;
    assert n == q * d + r;
    MulMono(hi + 1, d, m);
    MulMono(d, hi, m);
    MulMono(m, q, d);
    MulMono(q + 1, m, d);
    assert (hi + 1) * m == hi * m + m && (q + 1) * d == q * d + d && m * d == d * m;
  }

  /** `u v UM* r 0 D+ v UM/MOD` leaves r and u, at either cell width, whenever r < v. */
  lemma MultiplyAddDivide(c: Config, u: nat, v: nat, r: nat)
    requires u < Modulus(c.w) && r < v < Modulus(c.w)
    ensures
      var product := Pushed(c, UmStar, [v, u]);
      var sum := Pushed(c, DPlus, [0, r] + product);
      Pushed(c, UmDiv, [v] + sum) == [u, r]
  {
    hide Double; hide High; hide Low; hide Pushed;
    var m := Modulus(c.w);
    var p := Pushed(c, UmStar, [v, u]);
    UmStarExact(c, u, v);
    assert [0, r] + p == [0, r, p[0], p[1]];
    DPlusAdds(c, p[0], p[1], 0, r);
    var s := Pushed(c, DPlus, [0, r, p[0], p[1]]);
    SmallDouble(c.w, r);
    var n := u * v + r;
    MulMono(u + 1, m, v);
    MulMono(v, m, m);
    assert (u + 1) * v == u * v + v && m * v == v * m;
    assert n < m * m;
    assert n % (m * m) == n by { DivMod(m * m, 0, n); }
    assert [v] + s == [v, s[0], s[1]];
    DivideBack(c, u, v, r, s[0], s[1]);
  }

  lemma SmallDouble(w: Width, r: nat)
    ensures Double(w, 0, r) == r
  {
  }

  lemma DivideBack(c: Config, u: nat, v: nat, r: nat, hi: nat, lo: nat)
    requires u < Modulus(c.w) && r < v < Modulus(c.w) && Double(c.w, hi, lo) == u * v + r
    ensures Pushed(c, UmDiv, [v, hi, lo]) == [u, r]
  {
    hide Double;
    DivMod(v, u, r);
  }
}
