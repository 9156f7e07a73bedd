/** AND with a run of low ones, or of high ones: the remainder, and the rounding down, of a power of two. */
module Masks {
  import opened Arithmetic
  import opened Cells

  lemma HalfRemainder(x: nat, k: nat)
    requires k > 0
    ensures x % Pow2(k) == x % 2 + 2 * ((x / 2) % Pow2(k - 1))
    ensures Pow2(k) == 2 * Pow2(k - 1)
  {
    var p := Pow2(k - 1);
    var q := (x / 2) / p;
    var r := x % 2 + 2 * ((x / 2) % p);
    assert x / 2 == q * p + (x / 2) % p;
    assert x == 2 * (q * p + (x / 2) % p) + x % 2;
    assert 2 * (q * p) == q * (2 * p);
    DivMod(2 * p, q, r);
  }

  /** One bit of the conjunction, and the rest. */
  lemma AndBit(x: nat, y: nat, n: nat)
    requires n > 0
    ensures Bitwise(And, x, y, n) == (x % 2) * (y % 2) + 2 * Bitwise(And, x / 2, y / 2, n - 1)
  {
  }

  /** The low k bits are the remainder. */
  lemma {:induction false} MaskLow(x: nat, k: nat, n: nat)
    requires k <= n
    ensures Bitwise(And, x, Pow2(k) - 1, n) == x % Pow2(k)
    decreases n
  {
    hide Bitwise; hide Pow2;
    NoBits(x);
    if n > 0 {
      if k == 0 {
        MaskLow(x / 2, 0, n - 1);
        NoBits(x / 2);
        AndBit(x, 0, n);
      } else {
        MaskLow(x / 2, k - 1, n - 1);
        LowStep(x, k, n, Bitwise(And, x / 2, Pow2(k - 1) - 1, n - 1));
      }
    }
  }

  lemma LowStep(x: nat, k: nat, n: nat, rest: nat)
    requires 0 < k <= n && rest == Bitwise(And, x / 2, Pow2(k - 1) - 1, n - 1) == (x / 2) % Pow2(k - 1)
    ensures Bitwise(And, x, Pow2(k) - 1, n) == x % Pow2(k)
  {
    HalfRemainder(x, k);
    hide Bitwise; hide Pow2;
    var y := 2 * Pow2(k - 1) - 1;
    assert y % 2 == 1 && y / 2 == Pow2(k - 1) - 1;
    AndBit(x, y, n);
    assert Bitwise(And, x, y, n) == x % 2 + 2 * rest;
  }

  lemma NoBits(x: nat)
    ensures Pow2(0) == 1 && x % Pow2(0) == 0 && Bitwise(And, x, 0, 0) == 0
  {
  }

  /** All but the low k of n bits round down. */
  lemma {:induction false} MaskHigh(x: nat, k: nat, n: nat)
    requires k <= n && x < Pow2(n)
    ensures Pow2(k) <= Pow2(n) && Bitwise(And, x, Pow2(n) - Pow2(k), n) == x - x % Pow2(k)
    decreases n
  {
    hide Bitwise; hide Pow2;
    NoBits(x);
    if k == 0 {
      MaskLow(x, n, n);
      Small(x, Pow2(n));
    } else {
      MaskHigh(x / 2, k - 1, n - 1) by { Twice(n); }
      HighStep(x, k, n, Bitwise(And, x / 2, Pow2(n - 1) - Pow2(k - 1), n - 1));
    }
  }

  lemma Small(x: nat, p: nat)
    requires x < p
    ensures x % p == x
  {
  }

  lemma Twice(n: nat)
    requires n > 0
    ensures Pow2(n) == 2 * Pow2(n - 1)
  {
  }

  lemma HighStep(x: nat, k: nat, n: nat, rest: nat)
    requires 0 < k <= n && Pow2(k - 1) <= Pow2(n - 1)
    requires rest == Bitwise(And, x / 2, Pow2(n - 1) - Pow2(k - 1), n - 1) == x / 2 - (x / 2) % Pow2(k - 1)
    ensures Pow2(k) <= Pow2(n) && Bitwise(And, x, Pow2(n) - Pow2(k), n) == x - x % Pow2(k)
  {
    Twice(n);
    HalfRemainder(x, k);
    hide Bitwise; hide Pow2;
    var p, q := Pow2(k - 1), Pow2(n - 1);
    var y := 2 * q - 2 * p;
    assert y % 2 == 0 && y / 2 == q - p;
    AndBit(x, y, n);
    assert Bitwise(And, x, y, n) == 2 * rest;
  }

  lemma {:induction false} AndCommutes(x: nat, y: nat, n: nat)
    ensures Bitwise(And, x, y, n) == Bitwise(And, y, x, n)
    decreases n
  {
    if n > 0 {
      AndCommutes(x / 2, y / 2, n - 1);
    }
  }

  lemma Pow2Small()
    ensures Pow2(0) == 1 && Pow2(1) == 2 && Pow2(2) == 4 && Pow2(3) == 8
  {
  }

  lemma Pow2Bits(w: Width)
    ensures Pow2(Bits(w)) == Modulus(w)
  {
    Pow2Small();
    hide Pow2;
    Pow2Add(1, 3);
    Pow2Add(4, 4);
    Pow2Add(8, 8);
    Pow2Add(16, 16);
    Pow2Add(32, 32);
  }
}
