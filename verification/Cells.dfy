/**
 Cells of 32 or 64 bits and a flat, byte-addressed, little-endian memory:
 the engine's CELL(a) and BYTE(a) (engine/cv8.c:229-230) without host pointers.
 */
module Cells {
  import opened Arithmetic

  datatype Width = W32 | W64

  /** CELL_BYTES. */
  function CellBytes(w: Width): nat {
    if w.W32? then 4 else 8
  }

  /** The size of n cells. */
  function Bytes(w: Width, n: int): int {
    if w.W32? then 4 * n else 8 * n
  }

  function Bits(w: Width): nat {
    if w.W32? then 32 else 64
  }

  /** 2^w: cells are naturals below it. */
  function Modulus(w: Width): nat {
    if w.W32? then 0x1_0000_0000 else 0x1_0000_0000_0000_0000
  }

  /** Unsigned wrap-around; Dafny's % is Euclidean, so this also wraps negatives. */
  function Wrap(w: Width, x: int): (r: nat)
    ensures r < Modulus(w)
    ensures 0 <= x < Modulus(w) ==> r == x
  {
    x % Modulus(w)
  }

  /** The C cast to INT64. */
  function Signed(w: Width, x: nat): int {
    if x < Modulus(w) / 2 then x else x - Modulus(w)
  }

  /** A Forth flag: all bits set for true. */
  function Flag(w: Width, b: bool): (r: nat)
    ensures r < Modulus(w)
  {
    if b then Modulus(w) - 1 else 0
  }

  /** The first multiple of the cell size at or above a. */
  function Align(w: Width, a: int): (r: int)
    ensures a <= r < a + CellBytes(w) && r % CellBytes(w) == 0
  {
    (a + CellBytes(w) - 1) / CellBytes(w) * CellBytes(w)
  }

  datatype BitOp = And | Or | Xor

  function BitOf(op: BitOp, a: nat, b: nat): (r: nat)
    ensures r < 2
  {
    match op
    case And => if a % 2 == 1 && b % 2 == 1 then 1 else 0
    case Or => if a % 2 == 1 || b % 2 == 1 then 1 else 0
    case Xor => if a % 2 != b % 2 then 1 else 0
  }

  /** The low n bits of a op b. */
  function Bitwise(op: BitOp, a: nat, b: nat, n: nat): (r: nat)
    ensures r < Pow2(n)
  {
    if n == 0 then 0 else BitOf(op, a, b) + 2 * Bitwise(op, a / 2, b / 2, n - 1)
  }

  // ---- memory --------------------------------------------------------------

  type Memory = map<int, Byte>

  function Get(m: Memory, a: int): Byte {
    if a in m then m[a] else 0
  }

  function Pow256(n: nat): (r: nat)
    ensures r >= 1
  {
    if n == 0 then 1 else 256 * Pow256(n - 1)
  }

  /** The n bytes at a, little-endian. */
  function LoadN(m: Memory, a: int, n: nat): (r: nat)
    ensures r < Pow256(n)
    decreases n
  {
    if n == 0 then 0 else Get(m, a) + 256 * LoadN(m, a + 1, n - 1)
  }

  function StoreN(m: Memory, a: int, v: nat, n: nat): Memory
    decreases n
  {
    if n == 0 then m else StoreN(m, a + 1, v / 256, n - 1)[a := v % 256]
  }

  function Load(w: Width, m: Memory, a: int): nat {
    LoadN(m, a, CellBytes(w))
  }

  function Store(w: Width, m: Memory, a: int, v: nat): Memory {
    StoreN(m, a, v, CellBytes(w))
  }

  /** [a, a+n) and [b, b+k) have no byte in common. */
  predicate Apart(a: int, n: nat, b: int, k: nat) {
    a + n <= b || b + k <= a
  }

  /** m and n hold the same bytes outside [lo, hi). */
  ghost predicate AgreeOutside(m: Memory, n: Memory, lo: int, hi: int) {
    forall x :: !(lo <= x < hi) ==> Get(m, x) == Get(n, x)
  }

  lemma Pow2Add(a: nat, b: nat)
    ensures Pow2(a + b) == Pow2(a) * Pow2(b)
  {
    if a > 0 {
      Pow2Add(a - 1, b);
      assert a + b - 1 == (a - 1) + b;
    }
  }

  lemma Pow256Modulus(w: Width)
    ensures Pow256(CellBytes(w)) == Modulus(w)
  {
    assert Pow256(2) == 0x1_0000;
    assert Pow256(4) == 256 * (256 * Pow256(2));
    assert Pow256(6) == 256 * (256 * Pow256(4));
    assert Pow256(8) == 256 * (256 * Pow256(6));
  }

  lemma LoadBound(w: Width, m: Memory, a: int)
    ensures Load(w, m, a) < Modulus(w)
  {
    Pow256Modulus(w);
  }

  /** A store changes no byte outside the cell. */
  lemma {:induction false} StoreOutside(m: Memory, a: int, v: nat, n: nat, x: int)
    requires !(a <= x < a + n)
    ensures Get(StoreN(m, a, v, n), x) == Get(m, x)
    decreases n
  {
    if n > 0 {
      StoreOutside(m, a + 1, v / 256, n - 1, x);
    }
  }

  /** The byte a store puts at x depends on the value only, not on the memory. */
  lemma {:induction false} StoreInside(m: Memory, m': Memory, a: int, v: nat, n: nat, x: int)
    requires a <= x < a + n
    ensures Get(StoreN(m, a, v, n), x) == Get(StoreN(m', a, v, n), x)
    decreases n
  {
    if x > a {
      StoreInside(m, m', a + 1, v / 256, n - 1, x);
    }
  }

  lemma StoreOnly(w: Width, m: Memory, a: int, v: nat)
    ensures AgreeOutside(Store(w, m, a, v), m, a, a + CellBytes(w))
  {
    forall x | !(a <= x < a + CellBytes(w))
      ensures Get(Store(w, m, a, v), x) == Get(m, x)
    {
      StoreOutside(m, a, v, CellBytes(w), x);
    }
  }

  lemma {:induction false} LoadSame(m: Memory, m': Memory, a: int, n: nat)
    requires forall x :: a <= x < a + n ==> Get(m, x) == Get(m', x)
    ensures LoadN(m, a, n) == LoadN(m', a, n)
    decreases n
  {
    if n > 0 {
      LoadSame(m, m', a + 1, n - 1);
    }
  }

  lemma {:induction false} LoadStoreN(m: Memory, a: int, v: nat, n: nat)
    requires v < Pow256(n)
    ensures LoadN(StoreN(m, a, v, n), a, n) == v
    decreases n
  {
    if n > 0 {
      var m1 := StoreN(m, a + 1, v / 256, n - 1);
      LoadStoreN(m, a + 1, v / 256, n - 1);
      LoadSame(m1[a := v % 256], m1, a + 1, n - 1);
    }
  }

  /** CELL(a) = v; then CELL(a) reads v. */
  lemma LoadStore(w: Width, m: Memory, a: int, v: nat)
    requires v < Modulus(w)
    ensures Load(w, Store(w, m, a, v), a) == v
  {
    Pow256Modulus(w);
    LoadStoreN(m, a, v, CellBytes(w));
  }

  lemma LoadApart(w: Width, m: Memory, a: int, v: nat, b: int)
    requires Apart(a, CellBytes(w), b, CellBytes(w))
    ensures Load(w, Store(w, m, a, v), b) == Load(w, m, b)
  {
    forall x | b <= x < b + CellBytes(w)
      ensures Get(Store(w, m, a, v), x) == Get(m, x)
    {
      StoreOutside(m, a, v, CellBytes(w), x);
    }
    LoadSame(Store(w, m, a, v), m, b, CellBytes(w));
  }

  lemma LoadAgree(w: Width, m: Memory, m': Memory, lo: int, hi: int, a: int)
    requires AgreeOutside(m, m', lo, hi)
    requires a + CellBytes(w) <= lo || hi <= a
    ensures Load(w, m, a) == Load(w, m', a)
  {
    LoadSame(m, m', a, CellBytes(w));
  }

  lemma AgreeSame(m: Memory, lo: int, hi: int)
    ensures AgreeOutside(m, m, lo, hi)
  {
  }

  lemma Widen(m: Memory, m': Memory, lo: int, hi: int, hi': int)
    requires AgreeOutside(m, m', lo, hi) && hi <= hi'
    ensures AgreeOutside(m, m', lo, hi')
  {
  }

  lemma ByteAgree(m: Memory, m': Memory, lo: int, hi: int, a: int, v: Byte)
    requires AgreeOutside(m, m', lo, hi)
    ensures AgreeOutside(m[a := v], m'[a := v], lo, hi)
  {
    var n, n' := m[a := v], m'[a := v];
    forall x | !(lo <= x < hi)
      ensures Get(n, x) == Get(n', x)
    {
      assert x != a ==> Get(n, x) == Get(m, x) && Get(n', x) == Get(m', x);
    }
  }

  /** The same store on both sides keeps the agreement. */
  lemma StoreAgree(w: Width, m: Memory, m': Memory, lo: int, hi: int, a: int, v: nat)
    requires AgreeOutside(m, m', lo, hi)
    ensures AgreeOutside(Store(w, m, a, v), Store(w, m', a, v), lo, hi)
  {
    forall x | !(lo <= x < hi)
      ensures Get(Store(w, m, a, v), x) == Get(Store(w, m', a, v), x)
    {
      if a <= x < a + CellBytes(w) {
        StoreInside(m, m', a, v, CellBytes(w), x);
      } else {
        StoreOutside(m, a, v, CellBytes(w), x);
        StoreOutside(m', a, v, CellBytes(w), x);
      }
    }
  }

  /** The same store at the upper end of the disagreement removes that cell from it. */
  lemma StoreCovers(w: Width, m: Memory, m': Memory, lo: int, a: int, v: nat)
    requires AgreeOutside(m, m', lo, a + CellBytes(w))
    ensures AgreeOutside(Store(w, m, a, v), Store(w, m', a, v), lo, a)
  {
    forall x | !(lo <= x < a)
      ensures Get(Store(w, m, a, v), x) == Get(Store(w, m', a, v), x)
    {
      if a <= x < a + CellBytes(w) {
        StoreInside(m, m', a, v, CellBytes(w), x);
      } else {
        StoreOutside(m, a, v, CellBytes(w), x);
        StoreOutside(m', a, v, CellBytes(w), x);
      }
    }
  }

  /** A store inside [lo, hi) on one side only keeps the agreement. */
  lemma StoreDead(w: Width, m: Memory, m': Memory, lo: int, hi: int, a: int, v: nat)
    requires AgreeOutside(m, m', lo, hi)
    requires lo <= a && a + CellBytes(w) <= hi
    ensures AgreeOutside(Store(w, m, a, v), m', lo, hi)
    ensures AgreeOutside(m, Store(w, m', a, v), lo, hi)
  {
    forall x | !(lo <= x < hi)
      ensures Get(Store(w, m, a, v), x) == Get(m, x)
      ensures Get(Store(w, m', a, v), x) == Get(m', x)
    {
      StoreOutside(m, a, v, CellBytes(w), x);
      StoreOutside(m', a, v, CellBytes(w), x);
    }
  }

  /** Storing back what is there changes nothing. */
  lemma {:induction false} StoreLoaded(m: Memory, a: int, n: nat, x: int)
    ensures Get(StoreN(m, a, LoadN(m, a, n), n), x) == Get(m, x)
    decreases n
  {
    if n > 0 {
      StoreLoaded(m, a + 1, n - 1, x);
    }
  }
}
