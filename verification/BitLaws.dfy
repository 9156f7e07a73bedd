/** The bits of a cell, and what the engine's logic and shifts do to each of them. */
module BitLaws {
  import opened Arithmetic
  import opened Cells
  import opened Masks

  predicate HasBit(x: nat, k: nat) {
    x / Pow2(k) % 2 == 1
  }

  lemma HalfPower(x: nat, k: nat)
    requires k > 0
    ensures x / Pow2(k) == x / 2 / Pow2(k - 1)
  {
    var p := Pow2(k - 1);
    var q, r := x / 2 / p, x / 2 % p;
    assert x == 2 * (q * p + r) + x % 2;
    assert 2 * (q * p) == q * (2 * p);
    DivMod(2 * p, q, 2 * r + x % 2);
  }

  lemma BitBelow(x: nat, k: nat)
    ensures HasBit(x, 0) <==> x % 2 == 1
    ensures k > 0 ==> (HasBit(x, k) <==> HasBit(x / 2, k - 1))
  {
    assert Pow2(0) == 1;
    if k > 0 { HalfPower(x, k); }
  }

  /** AND, OR and XOR, bit by bit. */
  lemma {:induction false} LogicBits(op: BitOp, x: nat, y: nat, n: nat, k: nat)
    requires k < n
    ensures HasBit(Bitwise(op, x, y, n), k) <==>
      match op
      case And => HasBit(x, k) && HasBit(y, k)
      case Or => HasBit(x, k) || HasBit(y, k)
      case Xor => HasBit(x, k) != HasBit(y, k)
    decreases n
  {
    var rest := Bitwise(op, x / 2, y / 2, n - 1);
    var r := Bitwise(op, x, y, n);
    assert r == BitOf(op, x, y) + 2 * rest && r / 2 == rest && r % 2 == BitOf(op, x, y);
    BitBelow(x, k);
    BitBelow(y, k);
    BitBelow(r, k);
    if k > 0 {
      hide HasBit; hide Bitwise;
      LogicBits(op, x / 2, y / 2, n - 1, k - 1);
    }
  }

  /** A number is its bits. */
  lemma {:induction false} SameBits(x: nat, y: nat, n: nat)
    requires x < Pow2(n) && y < Pow2(n) && forall k: nat :: k < n ==> (HasBit(x, k) <==> HasBit(y, k))
    ensures x == y
    decreases n
  {
    if n > 0 {
      forall k: nat | k < n - 1
        ensures HasBit(x / 2, k) <==> HasBit(y / 2, k)
      {
        BitBelow(x, k + 1);
        BitBelow(y, k + 1);
        assert HasBit(x, k + 1) <==> HasBit(y, k + 1);
      }
      SameBits(x / 2, y / 2, n - 1);
      BitBelow(x, 0);
      BitBelow(y, 0);
      assert HasBit(x, 0) <==> HasBit(y, 0);
    }
  }

  /** Cutting a number to n bits leaves those. */
  lemma {:induction false} LowBits(x: nat, n: nat, k: nat)
    requires k < n
    ensures HasBit(x % Pow2(n), k) <==> HasBit(x, k)
    decreases n
  {
    HalfRemainder(x, n);
    var r := x % Pow2(n);
    assert r % 2 == x % 2 && r / 2 == x / 2 % Pow2(n - 1);
    BitBelow(x, k);
    BitBelow(r, k);
    if k > 0 {
      hide HasBit; hide Pow2;
      LowBits(x / 2, n - 1, k - 1);
    }
  }

  lemma {:induction false} HighBits(x: nat, n: nat, k: nat)
    requires x < Pow2(n) && n <= k
    ensures !HasBit(x, k)
    decreases n
  {
    if n == 0 {
      assert x == 0;
    } else {
      BitBelow(x, k);
      HighBits(x / 2, n - 1, k - 1);
    }
  }

  lemma NoShift(x: nat)
    ensures x * Pow2(0) == x && x / Pow2(0) == x
  {
  }

  /** x times 2^y has x's bits y places up. */
  lemma {:induction false} UpBits(x: nat, y: nat, k: nat)
    ensures HasBit(x * Pow2(y), k) <==> y <= k && HasBit(x, k - y)
    decreases y
  {
    NoShift(x);
    if y > 0 {
      var p := Pow2(y - 1);
      var z := x * p;
      assert Pow2(y) == 2 * p;
      hide Pow2;
      assert x * (2 * p) == 2 * z;
      BitBelow(2 * z, k);
      if k > 0 {
        hide HasBit;
        UpBits(x, y - 1, k - 1);
      }
    }
  }

  /** x divided by 2^y has them y places down. */
  lemma {:induction false} DownBits(x: nat, y: nat, z: nat, k: nat)
    requires z == x / Pow2(y)
    ensures HasBit(z, k) <==> HasBit(x, k + y)
    decreases y
  {
    NoShift(x);
    if y > 0 {
      HalfPower(x, y);
      BitBelow(x, k + y);
      hide HasBit; hide Pow2;
      DownBits(x / 2, y - 1, z, k);
    }
  }
}
