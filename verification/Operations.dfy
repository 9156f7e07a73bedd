/**
 What the engine's opcodes leave, in numbers, bits and stack pictures (engine/opcodes.tab:33-127,
 engine/cv8.c:990-1090): facts that name neither the decoder's table nor the meaning table, for the
 machine with sequence stacks, which the flat machine and so the engine follows.
 */
module Operations {
  import opened Arithmetic
  import opened Cells
  import opened Masks
  import opened BitLaws
  import opened Instructions
  import opened PlainMachine
  import opened StackMachine

  /** op at ip, n cells on the data stack. */
  ghost predicate At(c: Config, s: Abs, op: nat, n: nat) {
    && Outside(c, s.ip, 10) && Get(s.mem, s.ip) == op
    && |s.ds| >= n && forall i :: 0 <= i < n ==> s.ds[i] < Modulus(c.w)
  }

  /** The next state, with len bytes of code passed and the first n cells replaced by xs. */
  ghost predicate Leaves(c: Config, s: Abs, len: nat, n: nat, xs: seq<nat>)
    requires n <= |s.ds|
  {
    StepAbs(c, s) == Running(s.(ip := Wrap(c.w, s.ip + len), ds := xs + s.ds[n..]))
  }

  /** n more cells fit the data stack. */
  ghost predicate Room(c: Config, s: Abs, n: int) {
    c.DLimit() + Bytes(c.w, n) <= Sp(c, s) + c.C()
  }

  lemma StackStep(c: Config, s: Abs, i: Instr, len: nat, drop: nat, push: seq<nat>)
    requires Outside(c, s.ip, 10) && DecodeAt(c, s.mem, s.ip) == (i, len) && !i.SpStore? && !i.RpStore?
    requires drop <= Args(i) <= |s.ds| && RArgs(i) == 0 && Reads(c, i, s.ds[..Args(i)], s.ls) == NoRead
    requires Act(c, i, Wrap(c.w, s.ip + len), s.ds[..Args(i)], [], 0, s.ls, Wrap(c.w, Sp(c, s)), Wrap(c.w, Rp(c, s)))
          == Stack(Wrap(c.w, s.ip + len), drop, push, s.ls)
    requires |push| > drop ==> Room(c, s, |push| - drop)
    requires Spills(i) ==> Room(c, s, |push| - drop + 1) && Room(c, s, 1)
    ensures Leaves(c, s, len, drop, push)
  {
    hide DecodeAt; hide Wrap; hide Act; hide Args; hide Reads;
    assert s.rs[..0] == [] && [] + s.rs[0..] == s.rs;
  }

  lemma UnaryStep(c: Config, s: Abs, u: UnOp, len: nat)
    requires Outside(c, s.ip, 10) && DecodeAt(c, s.mem, s.ip) == (Unary(u), len) && |s.ds| >= 1
    ensures Leaves(c, s, len, 1, [UnVal(c.w, u, s.ds[0])])
  {
    hide DecodeAt; hide Wrap; hide UnVal; hide Leaves;
    StackStep(c, s, Unary(u), len, 1, [UnVal(c.w, u, s.ds[0])]);
  }

  lemma BinaryStep(c: Config, s: Abs, b: BinOp, len: nat)
    requires Outside(c, s.ip, 10) && DecodeAt(c, s.mem, s.ip) == (Binary(b), len) && |s.ds| >= 2
    requires b.LShift? || b.RShift? ==> s.ds[0] < Bits(c.w)
    ensures Leaves(c, s, len, 2, [BinVal(c.w, b, s.ds[1], s.ds[0])])
  {
    hide DecodeAt; hide Wrap; hide BinVal; hide Leaves;
    StackStep(c, s, Binary(b), len, 2, [BinVal(c.w, b, s.ds[1], s.ds[0])]);
  }

  /** The code at a is the escape byte and a selector. */
  ghost predicate Escape(c: Config, s: Abs, selector: nat, n: nat) {
    At(c, s, 0x7E, n) && Get(s.mem, s.ip + 1) == selector
  }

  // ---- logic and shifts ----------------------------------------------------

  /** AND, OR and XOR of x under y. */
  lemma LogicOps(c: Config, s: Abs, op: nat) returns (r: nat)
    requires 0x0E <= op <= 0x10 && At(c, s, op, 2)
    ensures Leaves(c, s, 1, 2, [r]) && r < Modulus(c.w)
    ensures forall k: nat :: k < Bits(c.w) ==>
      (HasBit(r, k) <==>
         var x, y := HasBit(s.ds[1], k), HasBit(s.ds[0], k);
         if op == 0x0E then x && y else if op == 0x0F then x || y else x != y)
  {
    var o: BitOp := if op == 0x0E then And else if op == 0x0F then Or else Xor;
    LogicDecodes(c, s.mem, s.ip);
    hide DecodeAt; hide HasBit; hide Leaves; hide Bitwise;
    BinaryStep(c, s, Logic(o), 1);
    Pow2Bits(c.w);
    r := Bitwise(o, s.ds[1], s.ds[0], Bits(c.w));
    forall k: nat | k < Bits(c.w)
      ensures HasBit(r, k) <==>
        var x, y := HasBit(s.ds[1], k), HasBit(s.ds[0], k);
        if op == 0x0E then x && y else if op == 0x0F then x || y else x != y
    {
      LogicBits(o, s.ds[1], s.ds[0], Bits(c.w), k);
    }
  }

  lemma LogicDecodes(c: Config, m: Memory, a: int)
    ensures Get(m, a) == 0x0E ==> DecodeAt(c, m, a) == (Binary(Logic(And)), 1)
    ensures Get(m, a) == 0x0F ==> DecodeAt(c, m, a) == (Binary(Logic(Or)), 1)
    ensures Get(m, a) == 0x10 ==> DecodeAt(c, m, a) == (Binary(Logic(Xor)), 1)
  {
    hide Get;
  }

  /** LSHIFT and RSHIFT by less than a cell's width: the bits move up or down, and zeros come in. */
  lemma ShiftOps(c: Config, s: Abs, selector: nat) returns (r: nat)
    requires 0x42 <= selector <= 0x43 && Escape(c, s, selector, 2) && s.ds[0] < Bits(c.w)
    ensures Leaves(c, s, 2, 2, [r]) && r < Modulus(c.w)
    ensures forall k: nat :: k < Bits(c.w) ==>
      (HasBit(r, k) <==>
         if selector == 0x42 then k >= s.ds[0] && HasBit(s.ds[1], k - s.ds[0]) else HasBit(s.ds[1], k + s.ds[0]))
  {
    ShiftDecodes(c, s.mem, s.ip);
    hide DecodeAt; hide HasBit; hide Leaves; hide Pow2; hide Get; hide BinVal; hide Outside;
    var b := if selector == 0x42 then LShift else RShift;
    BinaryStep(c, s, b, 2);
    var x, y := s.ds[1], s.ds[0];
    r := ShiftBits(c.w, b, x, y);
  }

  lemma ShiftBits(w: Width, b: BinOp, x: nat, y: nat) returns (r: nat)
    requires b.LShift? || b.RShift?
    ensures r == BinVal(w, b, x, y) && r < Modulus(w)
    ensures forall k: nat :: k < Bits(w) ==>
      (HasBit(r, k) <==> if b.LShift? then k >= y && HasBit(x, k - y) else HasBit(x, k + y))
  {
    Pow2Bits(w);
    hide HasBit; hide Pow2;
    var z := if b.LShift? then x * Pow2(y) else x / Pow2(y);
    r := z % Pow2(Bits(w));
    forall k: nat | k < Bits(w)
      ensures HasBit(r, k) <==> if b.LShift? then k >= y && HasBit(x, k - y) else HasBit(x, k + y)
    {
      LowBits(z, Bits(w), k);
      if b.LShift? { UpBits(x, y, k); } else { DownBits(x, y, z, k); }
    }
  }

  lemma ShiftDecodes(c: Config, m: Memory, a: int)
    ensures Get(m, a) == 0x7E && Get(m, a + 1) == 0x42 ==> DecodeAt(c, m, a) == (Binary(LShift), 2)
    ensures Get(m, a) == 0x7E && Get(m, a + 1) == 0x43 ==> DecodeAt(c, m, a) == (Binary(RShift), 2)
  {
    hide Get;
  }

  // ---- comparisons ---------------------------------------------------------

  /** a is the number the cell x stands for in two's complement. */
  ghost predicate Denotes(w: Width, x: nat, a: int) {
    0 - Modulus(w) as int <= 2 * a < Modulus(w) && (x == a || x == a + Modulus(w))
  }

  /** A true flag has every bit set, a false one none. */
  ghost predicate IsFlag(w: Width, r: nat, b: bool) {
    r < Modulus(w) && forall k: nat :: k < Bits(w) ==> (HasBit(r, k) <==> b)
  }

  lemma {:induction false} AllBits(n: nat, k: nat)
    requires k < n
    ensures HasBit(Pow2(n) - 1, k)
    decreases n
  {
    var x := Pow2(n) - 1;
    assert x % 2 == 1 && x / 2 == Pow2(n - 1) - 1;
    BitBelow(x, k);
    if k > 0 {
      hide HasBit; hide Pow2;
      AllBits(n - 1, k - 1);
    }
  }

  lemma FlagBits(w: Width, b: bool)
    ensures IsFlag(w, Flag(w, b), b)
  {
    Pow2Bits(w);
    hide Pow2; hide HasBit;
    forall k: nat | k < Bits(w)
      ensures HasBit(Flag(w, b), k) <==> b
    {
      if b {
        AllBits(Bits(w), k);
      } else {
        ZeroBits(k);
      }
    }
  }

  lemma ZeroBits(k: nat)
    ensures !HasBit(0, k)
  {
  }

  /** =, <>, U<, < and > of x under y, where x and y stand for a and b. */
  lemma CompareOps(c: Config, s: Abs, op: nat, a: int, b: int) returns (r: nat)
    requires op in {0x14, 0x6C, 0x15, 0x16, 0x6E} && At(c, s, op, 2)
    requires Denotes(c.w, s.ds[1], a) && Denotes(c.w, s.ds[0], b)
    ensures Leaves(c, s, 1, 2, [r])
    ensures IsFlag(c.w, r,
                   if op == 0x14 then s.ds[1] == s.ds[0] else if op == 0x6C then s.ds[1] != s.ds[0]
                   else if op == 0x15 then s.ds[1] < s.ds[0] else if op == 0x16 then a < b else a > b)
  {
    var o: BinOp := if op == 0x14 then Eq else if op == 0x6C then Ne else if op == 0x15 then ULess
                    else if op == 0x16 then Less else Greater;
    CompareDecodes(c, s.mem, s.ip);
    hide DecodeAt; hide IsFlag; hide Leaves;
    BinaryStep(c, s, o, 1);
    FlagBits(c.w, true);
    FlagBits(c.w, false);
    r := BinVal(c.w, o, s.ds[1], s.ds[0]);
  }

  lemma CompareDecodes(c: Config, m: Memory, a: int)
    ensures Get(m, a) == 0x14 ==> DecodeAt(c, m, a) == (Binary(Eq), 1)
    ensures Get(m, a) == 0x6C ==> DecodeAt(c, m, a) == (Binary(Ne), 1)
    ensures Get(m, a) == 0x15 ==> DecodeAt(c, m, a) == (Binary(ULess), 1)
    ensures Get(m, a) == 0x16 ==> DecodeAt(c, m, a) == (Binary(Less), 1)
    ensures Get(m, a) == 0x6E ==> DecodeAt(c, m, a) == (Binary(Greater), 1)
  {
    hide Get;
  }

  /** 0= and 0<, and EQI's comparison with its signed byte n. */
  lemma TestOps(c: Config, s: Abs, op: nat, a: int, n: int) returns (r: nat)
    requires op in {0x6A, 0x6D, 0x7B} && At(c, s, op, 1) && Denotes(c.w, s.ds[0], a)
    requires -128 <= n < 128 && (Get(s.mem, s.ip + 1) == n || Get(s.mem, s.ip + 1) == n + 256)
    ensures Leaves(c, s, if op == 0x7B then 2 else 1, 1, [r])
    ensures IsFlag(c.w, r, if op == 0x6A then a == 0 else if op == 0x6D then a < 0 else a == n)
  {
    TestDecodes(c, s.mem, s.ip, n);
    TestValues(c.w, s.ds[0], a, n);
    hide DecodeAt; hide IsFlag; hide Leaves; hide Flag; hide Signed; hide Wrap; hide Denotes;
    var u: UnOp := if op == 0x6A then ZeroEq else if op == 0x6D then ZeroLt else EqTo(n);
    UnaryStep(c, s, u, if op == 0x7B then 2 else 1);
    FlagBits(c.w, true);
    FlagBits(c.w, false);
    r := UnVal(c.w, u, s.ds[0]);
  }

  lemma TestValues(w: Width, x: nat, a: int, n: int)
    requires Denotes(w, x, a) && x < Modulus(w) && -128 <= n < 128
    ensures (x == 0 <==> a == 0) && (Signed(w, x) < 0 <==> a < 0) && (x == Wrap(w, n) <==> a == n)
  {
  }

  lemma TestDecodes(c: Config, m: Memory, a: int, n: int)
    requires -128 <= n < 128 && (Get(m, a + 1) == n || Get(m, a + 1) == n + 256)
    ensures Get(m, a) == 0x6A ==> DecodeAt(c, m, a) == (Unary(ZeroEq), 1)
    ensures Get(m, a) == 0x6D ==> DecodeAt(c, m, a) == (Unary(ZeroLt), 1)
    ensures Get(m, a) == 0x7B ==> DecodeAt(c, m, a) == (Unary(EqTo(n)), 2)
    ensures Get(m, a) == 0x79 ==> DecodeAt(c, m, a) == (Unary(AddTo(n)), 2)
  {
    hide Get;
  }

  // ---- sums ----------------------------------------------------------------

  /** The cell x stands for the number v, whatever multiples of 2^w that is off. */
  ghost predicate Congruent(w: Width, x: nat, v: int) {
    x < Modulus(w) && (x - v) % Modulus(w) == 0
  }

  lemma WrapCongruent(w: Width, v: int)
    ensures Congruent(w, Wrap(w, v), v)
  {
    var m := Modulus(w);
    DivMod(m, -(v / m), 0);
  }

  /** + and - of x under y, modulo 2^w. */
  lemma SumOps(c: Config, s: Abs, op: nat) returns (r: nat)
    requires (op == 0x17 || op == 0x6B) && At(c, s, op, 2)
    ensures Leaves(c, s, 1, 2, [r])
    ensures
      var x: int, y: int := s.ds[1], s.ds[0];
      Congruent(c.w, r, if op == 0x17 then x + y else x - y)
  {
    var x: int, y: int := s.ds[1], s.ds[0];
    SumDecodes(c, s.mem, s.ip);
    WrapCongruent(c.w, x + y);
    WrapCongruent(c.w, x - y);
    hide DecodeAt; hide Congruent; hide Leaves; hide Wrap;
    var b := if op == 0x17 then Plus else Minus;
    BinaryStep(c, s, b, 1);
    r := BinVal(c.w, b, x, y);
  }

  lemma SumDecodes(c: Config, m: Memory, a: int)
    ensures Get(m, a) == 0x17 ==> DecodeAt(c, m, a) == (Binary(Plus), 1)
    ensures Get(m, a) == 0x6B ==> DecodeAt(c, m, a) == (Binary(Minus), 1)
  {
    hide Get;
  }

  /** 1+, 1-, CELL+ and ADDI of the signed byte n, modulo 2^w. */
  lemma AddOps(c: Config, s: Abs, op: nat, n: int) returns (r: nat)
    requires op in {0x72, 0x75, 0x73, 0x79} && At(c, s, op, 1)
    requires op == 0x79 ==> -128 <= n < 128 && (Get(s.mem, s.ip + 1) == n || Get(s.mem, s.ip + 1) == n + 256)
    ensures Leaves(c, s, if op == 0x79 then 2 else 1, 1, [r])
    ensures Congruent(c.w, r, s.ds[0] + if op == 0x72 then 1 else if op == 0x75 then -1 else if op == 0x79 then n
                                        else if c.w.W32? then 4 else 8)
  {
    if op == 0x79 { TestDecodes(c, s.mem, s.ip, n); } else { StepDecodes(c, s.mem, s.ip); }
    hide DecodeAt; hide Congruent; hide Leaves; hide Wrap; hide Get; hide Outside; hide UnVal;
    var k: int := if op == 0x72 then 1 else if op == 0x75 then -1 else if op == 0x79 then n else c.C();
    UnaryStep(c, s, AddTo(k), if op == 0x79 then 2 else 1);
    StepValue(c, AddTo(k), s.ds[0]);
    WrapCongruent(c.w, s.ds[0] + k);
    r := UnVal(c.w, AddTo(k), s.ds[0]);
  }

  /** CELLS, modulo 2^w. */
  lemma CellsOp(c: Config, s: Abs) returns (r: nat)
    requires At(c, s, 0x74, 1)
    ensures Leaves(c, s, 1, 1, [r]) && Congruent(c.w, r, s.ds[0] * if c.w.W32? then 4 else 8)
  {
    StepDecodes(c, s.mem, s.ip);
    hide DecodeAt; hide Congruent; hide Leaves; hide Wrap; hide Get; hide Outside; hide UnVal;
    UnaryStep(c, s, CellsOf, 1);
    StepValue(c, CellsOf, s.ds[0]);
    WrapCongruent(c.w, s.ds[0] * c.C());
    r := UnVal(c.w, CellsOf, s.ds[0]);
  }

  /** NEGATE, modulo 2^w. */
  lemma NegateOp(c: Config, s: Abs) returns (r: nat)
    requires Escape(c, s, 0x41, 1)
    ensures Leaves(c, s, 2, 1, [r]) && Congruent(c.w, r, 0 - s.ds[0] as int)
  {
    StepDecodes(c, s.mem, s.ip);
    hide DecodeAt; hide Congruent; hide Leaves; hide Wrap; hide Get; hide Outside; hide UnVal;
    UnaryStep(c, s, Negate, 2);
    StepValue(c, Negate, s.ds[0]);
    WrapCongruent(c.w, 0 - s.ds[0] as int);
    r := UnVal(c.w, Negate, s.ds[0]);
  }

  lemma StepValue(c: Config, u: UnOp, x: nat)
    ensures u.AddTo? ==> UnVal(c.w, u, x) == Wrap(c.w, x + u.n)
    ensures u.CellsOf? ==> UnVal(c.w, u, x) == Wrap(c.w, x * c.C())
    ensures u.Negate? ==> UnVal(c.w, u, x) == Wrap(c.w, 0 - x)
  {
    hide Wrap;
  }

  lemma StepDecodes(c: Config, m: Memory, a: int)
    ensures Get(m, a) == 0x72 ==> DecodeAt(c, m, a) == (Unary(AddTo(1)), 1)
    ensures Get(m, a) == 0x75 ==> DecodeAt(c, m, a) == (Unary(AddTo(-1)), 1)
    ensures Get(m, a) == 0x73 ==> DecodeAt(c, m, a) == (Unary(AddTo(c.C())), 1)
    ensures Get(m, a) == 0x74 ==> DecodeAt(c, m, a) == (Unary(CellsOf), 1)
    ensures Get(m, a) == 0x7E && Get(m, a + 1) == 0x41 ==> DecodeAt(c, m, a) == (Unary(Negate), 2)
  {
    hide Get;
  }

  // ---- the data stack ------------------------------------------------------

  predicate Shuffles(op: nat) {
    0x05 <= op <= 0x09 || op == 0x6F || op == 0x70 || op == 0x42
  }

  /** How many cells it takes. */
  function Takes(op: nat): nat {
    if op == 0x08 then 3 else if op == 0x05 || op == 0x06 || op == 0x42 then 1 else 2
  }

  /** The stack picture of an opcode: the cells taken, top first, and what is in their place afterwards. */
  function Picture(op: nat, taken: seq<nat>): seq<nat>
    requires |taken| == Takes(op)
  {
    var x := taken[0];
    match op
    case 0x05 => []
    case 0x06 => [x, x]
    case 0x07 => [taken[1], x]
    case 0x08 => [taken[2], x, taken[1]]
    case 0x09 => [taken[1], x, taken[1]]
    case 0x6F => [x, taken[1], x, taken[1]]
    case 0x70 => []
    case _ => if x == 0 then [x] else [x, x]
  }

  /** DROP, DUP, SWAP, ROT, OVER, 2DUP, 2DROP and ?DUP. */
  lemma StackOps(c: Config, s: Abs, op: nat)
    requires Shuffles(op) && At(c, s, op, Takes(op)) && Room(c, s, if op == 0x6F then 2 else 1)
    ensures |s.ds| >= Takes(op) && Leaves(c, s, 1, Takes(op), Picture(op, s.ds[..Takes(op)]))
  {
    hide Leaves; hide Picture; hide Room; hide Outside; hide Get;
    var drop, push;
    if op in {0x05, 0x07, 0x08, 0x70} {
      push := Dropping(c, s, op);
      drop := Takes(op);
      assert push + s.ds[drop..drop] == push;
    } else if op == 0x6F {
      push := CopyingTwo(c, s);
      drop := 0;
      assert s.ds[0..2] == s.ds[..2];
    } else {
      push := Copying(c, s, op);
      drop := 0;
      assert s.ds[0..Takes(op)] == s.ds[..Takes(op)];
    }
    Regroup(c, s, drop, push, Takes(op));
  }

  lemma Dropping(c: Config, s: Abs, op: nat) returns (push: seq<nat>)
    requires op in {0x05, 0x07, 0x08, 0x70} && At(c, s, op, Takes(op))
    ensures |s.ds| >= Takes(op) && Leaves(c, s, 1, Takes(op), push) && push == Picture(op, s.ds[..Takes(op)])
  {
    StackDecodes(c, s.mem, s.ip);
    hide DecodeAt; hide Wrap; hide Leaves; hide Get; hide Outside; hide Room;
    match op {
      case 0x05 => push := []; StackStep(c, s, Drop, 1, 1, push);
      case 0x07 => push := [s.ds[1], s.ds[0]]; StackStep(c, s, Swap, 1, 2, push);
      case 0x08 => push := [s.ds[2], s.ds[0], s.ds[1]]; StackStep(c, s, Rot, 1, 3, push);
      case 0x70 => push := []; StackStep(c, s, TwoDrop, 1, 2, push);
    }
  }

  lemma Copying(c: Config, s: Abs, op: nat) returns (push: seq<nat>)
    requires op in {0x06, 0x09, 0x42} && At(c, s, op, Takes(op)) && Room(c, s, 1)
    ensures |s.ds| >= Takes(op) && Leaves(c, s, 1, 0, push)
    ensures push + s.ds[..Takes(op)] == Picture(op, s.ds[..Takes(op)])
  {
    StackDecodes(c, s.mem, s.ip);
    hide DecodeAt; hide Wrap; hide Leaves; hide Get; hide Outside; hide Room; hide Sp; hide Rp;
    var x := s.ds[0];
    match op {
      case 0x06 => push := [x]; StackStep(c, s, Dup, 1, 0, push);
      case 0x09 => push := [s.ds[1]]; StackStep(c, s, Over, 1, 0, push);
      case 0x42 => push := if x == 0 then [] else [x]; StackStep(c, s, QDup, 1, 0, push);
    }
  }

  lemma CopyingTwo(c: Config, s: Abs) returns (push: seq<nat>)
    requires At(c, s, 0x6F, 2) && Room(c, s, 2)
    ensures |s.ds| >= 2 && Leaves(c, s, 1, 0, push) && push + s.ds[..2] == Picture(0x6F, s.ds[..2])
  {
    StackDecodes(c, s.mem, s.ip);
    hide DecodeAt; hide Wrap; hide Leaves; hide Get; hide Outside; hide Room;
    push := s.ds[..2];
    StackStep(c, s, TwoDup, 1, 0, push);
  }

  /** The same step, said of the cells taken. */
  lemma Regroup(c: Config, s: Abs, drop: nat, push: seq<nat>, n: nat)
    requires drop <= n <= |s.ds| && Leaves(c, s, 1, drop, push)
    ensures Leaves(c, s, 1, n, push + s.ds[drop..n])
  {
    hide StepAbs;
    assert push + s.ds[drop..] == push + s.ds[drop..n] + s.ds[n..];
  }

  lemma StackDecodes(c: Config, m: Memory, a: int)
    ensures Get(m, a) == 0x05 ==> DecodeAt(c, m, a) == (Drop, 1)
    ensures Get(m, a) == 0x06 ==> DecodeAt(c, m, a) == (Dup, 1)
    ensures Get(m, a) == 0x07 ==> DecodeAt(c, m, a) == (Swap, 1)
    ensures Get(m, a) == 0x08 ==> DecodeAt(c, m, a) == (Rot, 1)
    ensures Get(m, a) == 0x09 ==> DecodeAt(c, m, a) == (Over, 1)
    ensures Get(m, a) == 0x6F ==> DecodeAt(c, m, a) == (TwoDup, 1)
    ensures Get(m, a) == 0x70 ==> DecodeAt(c, m, a) == (TwoDrop, 1)
    ensures Get(m, a) == 0x42 ==> DecodeAt(c, m, a) == (QDup, 1)
  {
    hide Get;
  }

  // ---- literals ------------------------------------------------------------

  /** The literal opcodes, with their bytes little-endian: LIT, LIT8, LIT32, whose number is signed, 0, 1 and -1. */
  lemma LiteralOps(c: Config, s: Abs, op: nat) returns (r: nat)
    requires op in {0x02, 0x1D, 0x1A, 0x61, 0x62, 0x63} && At(c, s, op, 0) && Room(c, s, if op == 0x1A then 2 else 1)
    ensures Leaves(c, s, if op == 0x02 then 3 else if op == 0x1D then 2 else if op == 0x1A then 5 else 1, 0, [r])
    ensures
      var b0, b1 := Get(s.mem, s.ip + 1) as int, Get(s.mem, s.ip + 2) as int;
      var b2, b3 := Get(s.mem, s.ip + 3) as int, Get(s.mem, s.ip + 4) as int;
      var n := b0 + 0x100 * b1 + 0x1_0000 * b2 + 0x100_0000 * b3;
      Congruent(c.w, r, if op == 0x02 then b0 + 0x100 * b1 else if op == 0x1D then b0
                        else if op == 0x1A then (if b3 < 128 then n else n - 0x1_0000_0000)
                        else if op == 0x61 then 0 else if op == 0x62 then 1 else -1)
  {
    r := LiteralDecodes(c, s.mem, s.ip, op);
    hide DecodeAt; hide Wrap; hide Leaves; hide Get; hide Congruent;
    var (i, len) := DecodeAt(c, s.mem, s.ip);
    StackStep(c, s, i, len, 0, [r]);
  }

  lemma LiteralDecodes(c: Config, m: Memory, a: int, op: nat) returns (r: nat)
    requires op in {0x02, 0x1D, 0x1A, 0x61, 0x62, 0x63} && Get(m, a) == op
    ensures DecodeAt(c, m, a) ==
      (Lit(r, op == 0x1A), if op == 0x02 then 3 else if op == 0x1D then 2 else if op == 0x1A then 5 else 1)
    ensures
      var b0, b1 := Get(m, a + 1) as int, Get(m, a + 2) as int;
      var b2, b3 := Get(m, a + 3) as int, Get(m, a + 4) as int;
      var n := b0 + 0x100 * b1 + 0x1_0000 * b2 + 0x100_0000 * b3;
      Congruent(c.w, r, if op == 0x02 then b0 + 0x100 * b1 else if op == 0x1D then b0
                        else if op == 0x1A then (if b3 < 128 then n else n - 0x1_0000_0000)
                        else if op == 0x61 then 0 else if op == 0x62 then 1 else -1)
  {
    hide Get;
    var s := CodeAt(m, a);
    r := DecodeAt(c, m, a).0.v;
    if op == 0x02 {
      LittleIs(s[1..3]);
    } else if op == 0x1A {
      LittleIs(s[1..5]);
      LittleIs(s[1..5][2..]);
      WrapCongruent(c.w, Sext(Little(s[1..5]), 0x1_0000_0000));
    }
  }

  lemma LittleIs(s: seq<Byte>)
    requires |s| >= 2
    ensures Little(s) == s[0] + 0x100 * s[1] + 0x1_0000 * Little(s[2..])
    ensures |s| == 2 ==> Little(s[2..]) == 0
  {
    assert s[1..][1..] == s[2..];
  }

  /** LIT64: the cell in the code. */
  lemma CellLiteral(c: Config, s: Abs)
    requires At(c, s, 0x7D, 0) && Room(c, s, 2)
    ensures Leaves(c, s, 1 + c.C(), 0, [Load(c.w, s.mem, s.ip + 1)])
  {
    CellDecodes(c, s.mem, s.ip);
    hide DecodeAt; hide Wrap; hide Leaves; hide Get; hide Load;
    StackStep(c, s, Lit(Load(c.w, s.mem, s.ip + 1), true), 1 + c.C(), 0, [Load(c.w, s.mem, s.ip + 1)]);
  }

  lemma CellDecodes(c: Config, m: Memory, a: int)
    requires Get(m, a) == 0x7D
    ensures DecodeAt(c, m, a) == (Lit(Load(c.w, m, a + 1), true), 1 + c.C())
  {
    hide Get;
    LittleLoads(m, a + 1, CodeAt(m, a)[1..1 + c.C()]);
  }

  lemma {:induction false} LittleLoads(m: Memory, a: int, s: seq<Byte>)
    requires forall k :: 0 <= k < |s| ==> s[k] == Get(m, a + k)
    ensures Little(s) == LoadN(m, a, |s|)
    decreases |s|
  {
    if s != [] { LittleLoads(m, a + 1, s[1..]); }
  }

  // ---- memory --------------------------------------------------------------

  /** t is the next state: a byte of code passed, n cells dropped, and at most the memory in [a, a + k) changed. */
  ghost predicate Writes(c: Config, s: Abs, n: nat, a: int, k: nat, t: Abs)
    requires n <= |s.ds|
  {
    && StepAbs(c, s) == Running(t)
    && t == s.(ip := Wrap(c.w, s.ip + 1), ds := s.ds[n..], mem := t.mem)
    && forall z :: !(a <= z < a + k) ==> Get(t.mem, z) == Get(s.mem, z)
  }

  /** ! of x at a, outside the stacks: x is there afterwards, and nothing else has changed. */
  lemma StoreCellOp(c: Config, s: Abs) returns (t: Abs)
    requires At(c, s, 0x0D, 2) && Outside(c, s.ds[0], c.C())
    ensures Writes(c, s, 2, s.ds[0], c.C(), t) && Load(c.w, t.mem, s.ds[0]) == s.ds[1]
  {
    hide DecodeAt; hide Wrap; hide Load; hide Store; hide Get; hide StepAbs; hide Outside;
    StoreDecodes(c, s.mem, s.ip);
    var a, x := s.ds[0], s.ds[1];
    LoadStore(c.w, s.mem, a, x);
    StoreOnly(c.w, s.mem, a, x);
    t := StoreStep(c, s, StoreCell, WriteCell(a, x));
  }

  /** +!: the sum, modulo 2^w. */
  lemma PlusStoreOp(c: Config, s: Abs) returns (t: Abs)
    requires At(c, s, 0x41, 2) && Outside(c, s.ds[0], c.C())
    ensures Writes(c, s, 2, s.ds[0], c.C(), t)
    ensures Congruent(c.w, Load(c.w, t.mem, s.ds[0]), Load(c.w, s.mem, s.ds[0]) + s.ds[1])
  {
    hide DecodeAt; hide Wrap; hide Load; hide Store; hide Get; hide StepAbs; hide Outside; hide Congruent;
    StoreDecodes(c, s.mem, s.ip);
    var a, sum := s.ds[0], Load(c.w, s.mem, s.ds[0]) + s.ds[1];
    WrapCongruent(c.w, sum);
    LoadStore(c.w, s.mem, a, Wrap(c.w, sum));
    StoreOnly(c.w, s.mem, a, Wrap(c.w, sum));
    t := StoreStep(c, s, PlusStore, WriteCell(a, Wrap(c.w, sum)));
  }

  /** C!: the low byte, and no other. */
  lemma StoreByte(c: Config, s: Abs) returns (t: Abs)
    requires At(c, s, 0x0C, 2) && Outside(c, s.ds[0], 1)
    ensures Writes(c, s, 2, s.ds[0], 1, t) && Get(t.mem, s.ds[0]) == s.ds[1] % 256
  {
    StoreDecodes(c, s.mem, s.ip);
    ByteWrites(s.mem, s.ds[0], s.ds[1] % 256);
    hide DecodeAt; hide Wrap; hide Get; hide StepAbs;
    t := StoreStep(c, s, CStore, WriteByte(s.ds[0], s.ds[1] % 256));
  }

  lemma StoreStep(c: Config, s: Abs, i: Instr, w: Write) returns (t: Abs)
    requires Outside(c, s.ip, 10) && DecodeAt(c, s.mem, s.ip) == (i, 1) && |s.ds| >= 2
    requires i.CStore? || i.StoreCell? || i.PlusStore?
    requires Outside(c, s.ds[0], if i.CStore? then 1 else c.C())
    requires w == if i.CStore? then WriteByte(s.ds[0], s.ds[1] % 256)
                  else if i.StoreCell? then WriteCell(s.ds[0], s.ds[1])
                  else WriteCell(s.ds[0], Wrap(c.w, Load(c.w, s.mem, s.ds[0]) + s.ds[1]))
    ensures StepAbs(c, s) == Running(t)
    ensures t == s.(ip := Wrap(c.w, s.ip + 1), ds := s.ds[2..], mem := DoWrite(c.w, s.mem, w))
  {
    hide DecodeAt; hide Wrap; hide Load; hide Store;
    assert [] + s.ds[2..] == s.ds[2..] && [] + s.rs[0..] == s.rs;
    t := s.(ip := Wrap(c.w, s.ip + 1), ds := s.ds[2..], mem := DoWrite(c.w, s.mem, w));
  }

  /** VAR@ pushes the cell the slot operand names. */
  lemma VarFetchOp(c: Config, s: Abs)
    requires At(c, s, 0x64, 0) && Room(c, s, 1) && Outside(c, Slot(c, CodeAt(s.mem, s.ip), s.ip + 1).0, c.C())
    ensures
      var (a, n) := Slot(c, CodeAt(s.mem, s.ip), s.ip + 1);
      Leaves(c, s, 1 + n, 0, [Load(c.w, s.mem, a)])
  {
    SlotOpDecodes(c, s.mem, s.ip);
    hide DecodeAt; hide Wrap; hide Load; hide Get; hide Slot;
    assert [] + s.rs[0..] == s.rs;
  }

  /** VAR! and L! store the top cell there, LZERO zero, and they change nothing else. */
  lemma VarStoreOps(c: Config, s: Abs, op: nat) returns (t: Abs)
    requires op in {0x65, 0x68, 0x69} && At(c, s, op, if op == 0x69 then 0 else 1)
    requires Outside(c, Slot(c, CodeAt(s.mem, s.ip), s.ip + 1).0, c.C())
    ensures
      var (a, n) := Slot(c, CodeAt(s.mem, s.ip), s.ip + 1);
      && StepAbs(c, s) == Running(t)
      && t == s.(ip := Wrap(c.w, s.ip + 1 + n), ds := if op == 0x69 then s.ds else s.ds[1..], mem := t.mem)
      && Load(c.w, t.mem, a) == (if op == 0x69 then 0 else s.ds[0])
      && AgreeOutside(t.mem, s.mem, a, a + c.C())
  {
    hide DecodeAt; hide Wrap; hide Load; hide Store; hide Get; hide Slot; hide AgreeOutside; hide StepAbs; hide Outside;
    SlotOpDecodes(c, s.mem, s.ip);
    var (a, n) := Slot(c, CodeAt(s.mem, s.ip), s.ip + 1);
    var v := if op == 0x69 then 0 else s.ds[0];
    LoadStore(c.w, s.mem, a, v);
    StoreOnly(c.w, s.mem, a, v);
    t := VarStoreStep(c, s, if op == 0x69 then LZero(a) else VarStore(a), 1 + n);
  }

  lemma VarStoreStep(c: Config, s: Abs, i: Instr, len: nat) returns (t: Abs)
    requires Outside(c, s.ip, 10) && DecodeAt(c, s.mem, s.ip) == (i, len)
    requires i.LZero? || (i.VarStore? && s.ds != [])
    requires Outside(c, i.a, c.C())
    ensures StepAbs(c, s) == Running(t)
    ensures t == s.(ip := Wrap(c.w, s.ip + len), ds := if i.LZero? then s.ds else s.ds[1..],
                    mem := Store(c.w, s.mem, i.a, if i.LZero? then 0 else s.ds[0]))
  {
    hide DecodeAt; hide Wrap; hide Store;
    t := s.(ip := Wrap(c.w, s.ip + len), ds := if i.LZero? then s.ds else s.ds[1..],
            mem := Store(c.w, s.mem, i.a, if i.LZero? then 0 else s.ds[0]));
    assert [] + s.rs[0..] == s.rs;
    if i.LZero? { assert [] + s.ds[0..] == s.ds; } else { assert [] + s.ds[1..] == s.ds[1..]; }
  }

  lemma SlotOpDecodes(c: Config, m: Memory, ip: nat)
    ensures
      var (a, n) := Slot(c, CodeAt(m, ip), ip + 1);
      && (Get(m, ip) == 0x64 ==> DecodeAt(c, m, ip) == (VarFetch(a), 1 + n))
      && (Get(m, ip) == 0x65 || Get(m, ip) == 0x68 ==> DecodeAt(c, m, ip) == (VarStore(a), 1 + n))
      && (Get(m, ip) == 0x69 ==> DecodeAt(c, m, ip) == (LZero(a), 1 + n))
  {
    hide Get; hide Slot;
  }

  lemma ByteWrites(m: Memory, a: int, v: Byte)
    ensures Get(m[a := v], a) == v && forall z :: z != a ==> Get(m[a := v], z) == Get(m, z)
  {
  }

  lemma StoreDecodes(c: Config, m: Memory, a: int)
    ensures Get(m, a) == 0x0C ==> DecodeAt(c, m, a) == (CStore, 1)
    ensures Get(m, a) == 0x0D ==> DecodeAt(c, m, a) == (StoreCell, 1)
    ensures Get(m, a) == 0x41 ==> DecodeAt(c, m, a) == (PlusStore, 1)
  {
    hide Get;
  }

  /** @ and @XT outside the stacks: the cell there, and that with the image's base added. */
  lemma FetchCells(c: Config, s: Abs, op: nat) returns (r: nat)
    requires (op == 0x0B || op == 0x47) && At(c, s, op, 1) && Outside(c, s.ds[0], c.C())
    ensures Leaves(c, s, 1, 1, [r])
    ensures if op == 0x0B then r == Load(c.w, s.mem, s.ds[0]) else Congruent(c.w, r, c.base + Load(c.w, s.mem, s.ds[0]))
  {
    FetchDecodes(c, s.mem, s.ip);
    hide DecodeAt; hide Wrap; hide Load; hide Get; hide Congruent; hide Outside; hide Leaves;
    var v := Load(c.w, s.mem, s.ds[0]);
    WrapCongruent(c.w, v + c.base);
    r := if op == 0x0B then v else Wrap(c.w, v + c.base);
    FetchStep(c, s, if op == 0x0B then Fetch else AtXt, [r]);
  }

  /** C@ and COUNT: the byte there, for COUNT over the next address. */
  lemma FetchBytes(c: Config, s: Abs, op: nat) returns (next: nat)
    requires (op == 0x0A || op == 0x77) && At(c, s, op, 1) && Outside(c, s.ds[0], 1) && Room(c, s, 1)
    ensures Congruent(c.w, next, s.ds[0] + 1)
    ensures Leaves(c, s, 1, 1, [Get(s.mem, s.ds[0])] + if op == 0x0A then [] else [next])
  {
    FetchDecodes(c, s.mem, s.ip);
    hide DecodeAt; hide Wrap; hide Load; hide Get; hide Congruent; hide Outside; hide Leaves; hide Room;
    WrapCongruent(c.w, s.ds[0] + 1);
    next := Wrap(c.w, s.ds[0] + 1);
    FetchStep(c, s, if op == 0x0A then CFetch else Count, [Get(s.mem, s.ds[0])] + if op == 0x0A then [] else [next]);
  }

  lemma FetchStep(c: Config, s: Abs, i: Instr, xs: seq<nat>)
    requires i.Fetch? || i.CFetch? || i.AtXt? || i.Count?
    requires Outside(c, s.ip, 10) && DecodeAt(c, s.mem, s.ip) == (i, 1) && |s.ds| >= 1
    requires i.Count? ==> Room(c, s, 1)
    requires Outside(c, s.ds[0], if i.CFetch? || i.Count? then 1 else c.C())
    requires xs == if i.Fetch? then [Load(c.w, s.mem, s.ds[0])]
                   else if i.CFetch? then [Get(s.mem, s.ds[0])]
                   else if i.AtXt? then [Wrap(c.w, Load(c.w, s.mem, s.ds[0]) + c.base)]
                   else [Get(s.mem, s.ds[0]), Wrap(c.w, s.ds[0] + 1)]
    ensures Leaves(c, s, 1, 1, xs)
  {
    hide DecodeAt; hide Wrap; hide Load; hide Get;
    assert [] + s.rs[0..] == s.rs;
  }

  lemma FetchDecodes(c: Config, m: Memory, a: int)
    ensures Get(m, a) == 0x0A ==> DecodeAt(c, m, a) == (CFetch, 1)
    ensures Get(m, a) == 0x0B ==> DecodeAt(c, m, a) == (Fetch, 1)
    ensures Get(m, a) == 0x47 ==> DecodeAt(c, m, a) == (AtXt, 1)
    ensures Get(m, a) == 0x77 ==> DecodeAt(c, m, a) == (Count, 1)
  {
    hide Get;
  }

  // ---- the return stack and control ----------------------------------------

  /** >R. */
  lemma ToReturn(c: Config, s: Abs)
    requires At(c, s, 0x12, 1) && c.RFloor() + c.C() <= Rp(c, s)
    ensures StepAbs(c, s) == Running(s.(ip := Wrap(c.w, s.ip + 1), ds := s.ds[1..], rs := [s.ds[0]] + s.rs))
  {
    ReturnDecodes(c, s.mem, s.ip);
    hide DecodeAt; hide Wrap; hide Get; hide Outside;
    assert [] + s.ds[1..] == s.ds[1..] && s.rs[0..] == s.rs;
  }

  /** R>. */
  lemma FromReturn(c: Config, s: Abs)
    requires At(c, s, 0x11, 0) && s.rs != [] && Room(c, s, 1)
    ensures StepAbs(c, s) == Running(s.(ip := Wrap(c.w, s.ip + 1), ds := [s.rs[0]] + s.ds, rs := s.rs[1..]))
  {
    ReturnDecodes(c, s.mem, s.ip);
    hide DecodeAt; hide Wrap; hide Get; hide Outside;
    assert s.ds[0..] == s.ds && [] + s.rs[1..] == s.rs[1..];
  }

  /** R@ and I. */
  lemma ReturnFetch(c: Config, s: Abs, op: nat)
    requires (op == 0x13 || op == 0x43) && At(c, s, op, 0) && s.rs != [] && Room(c, s, 1)
    ensures Leaves(c, s, 1, 0, [s.rs[0]])
  {
    ReturnDecodes(c, s.mem, s.ip);
    hide DecodeAt; hide Wrap; hide Get; hide Outside;
    assert s.rs[0..] == s.rs && [] + s.rs == s.rs;
  }

  lemma ReturnDecodes(c: Config, m: Memory, a: int)
    ensures Get(m, a) == 0x11 ==> DecodeAt(c, m, a) == (RFrom, 1)
    ensures Get(m, a) == 0x12 ==> DecodeAt(c, m, a) == (ToR, 1)
    ensures Get(m, a) == 0x13 || Get(m, a) == 0x43 ==> DecodeAt(c, m, a) == (RFetch, 1)
    ensures Get(m, a) == 0x46 ==> DecodeAt(c, m, a) == (Execute, 1)
    ensures Get(m, a) == 0x01 ==> DecodeAt(c, m, a) == (Exit, 1)
  {
    hide Get;
  }

  /** EXECUTE goes where the top cell says. */
  lemma ExecuteOp(c: Config, s: Abs)
    requires At(c, s, 0x46, 1) && c.RFloor() + c.C() <= Rp(c, s)
    ensures StepAbs(c, s) == Running(s.(ip := s.ds[0], ds := s.ds[1..], rs := [Wrap(c.w, s.ip + 1)] + s.rs))
  {
    ReturnDecodes(c, s.mem, s.ip);
    hide DecodeAt; hide Wrap; hide Get; hide Outside;
    assert [] + s.ds[1..] == s.ds[1..] && s.rs[0..] == s.rs;
  }

  /** EXIT comes back. */
  lemma ExitOp(c: Config, s: Abs)
    requires At(c, s, 0x01, 0) && s.rs != []
    ensures StepAbs(c, s) == Running(s.(ip := s.rs[0], rs := s.rs[1..]))
  {
    ReturnDecodes(c, s.mem, s.ip);
    hide DecodeAt; hide Wrap; hide Get; hide Outside;
    assert [] + s.ds[0..] == s.ds && [] + s.rs[1..] == s.rs[1..];
  }

  /** BRANCH8, by the signed offset o from the operand, and ?BRANCH8 when the top cell is 0. */
  lemma NearBranch(c: Config, s: Abs, op: nat, o: int) returns (next: nat)
    requires (op == 0x3F && At(c, s, op, 0)) || (op == 0x40 && At(c, s, op, 1))
    requires -128 <= o < 128 && Get(s.mem, s.ip + 1) == o % 0x100
    ensures StepAbs(c, s) == Running(s.(ip := next, ds := if op == 0x3F then s.ds else s.ds[1..]))
    ensures Congruent(c.w, next, s.ip + if op == 0x3F || s.ds[0] == 0 then 1 + o else 2)
  {
    NearBranchDecodes(c, s.mem, s.ip, op, o);
    hide DecodeAt; hide Wrap; hide Get; hide Congruent; hide Outside; hide StepAbs;
    var t := Wrap(c.w, s.ip + 1 + o);
    WrapCongruent(c.w, s.ip + 1 + o);
    WrapCongruent(c.w, s.ip + 2);
    next := if op == 0x3F || s.ds[0] == 0 then t else Wrap(c.w, s.ip + 2);
    BranchStep(c, s, if op == 0x3F then Branch(t) else QBranch(t), 2);
  }

  /** BRANCH and ?BRANCH, whose offset is two bytes, little-endian. */
  lemma FarBranch(c: Config, s: Abs, op: nat, o: int) returns (next: nat)
    requires (op == 0x03 && At(c, s, op, 0)) || (op == 0x04 && At(c, s, op, 1))
    requires -0x8000 <= o < 0x8000 && Get(s.mem, s.ip + 1) == o % 0x100 && Get(s.mem, s.ip + 2) == o % 0x1_0000 / 0x100
    ensures StepAbs(c, s) == Running(s.(ip := next, ds := if op == 0x03 then s.ds else s.ds[1..]))
    ensures Congruent(c.w, next, s.ip + if op == 0x03 || s.ds[0] == 0 then 1 + o else 3)
  {
    FarBranchDecodes(c, s.mem, s.ip, op, o);
    hide DecodeAt; hide Wrap; hide Get; hide Congruent; hide Outside; hide StepAbs;
    var t := Wrap(c.w, s.ip + 1 + o);
    WrapCongruent(c.w, s.ip + 1 + o);
    WrapCongruent(c.w, s.ip + 3);
    next := if op == 0x03 || s.ds[0] == 0 then t else Wrap(c.w, s.ip + 3);
    BranchStep(c, s, if op == 0x03 then Branch(t) else QBranch(t), 3);
  }

  lemma BranchStep(c: Config, s: Abs, i: Instr, len: nat)
    requires Outside(c, s.ip, 10) && DecodeAt(c, s.mem, s.ip) == (i, len)
    requires i.Branch? || (i.QBranch? && s.ds != [])
    ensures StepAbs(c, s) == Running(
      if i.Branch? then s.(ip := i.target)
      else s.(ip := if s.ds[0] == 0 then i.target else Wrap(c.w, s.ip + len), ds := s.ds[1..]))
  {
    hide DecodeAt; hide Wrap; hide Outside;
    assert s.ds[0..] == s.ds && [] + s.ds == s.ds && s.rs[0..] == s.rs && [] + s.rs == s.rs;
    if i.QBranch? { assert [] + s.ds[1..] == s.ds[1..]; }
  }

  lemma NearBranchDecodes(c: Config, m: Memory, a: nat, op: nat, o: int)
    requires (op == 0x3F || op == 0x40) && Get(m, a) == op && -128 <= o < 128 && Get(m, a + 1) == o % 0x100
    ensures
      var t := Wrap(c.w, a + 1 + o);
      DecodeAt(c, m, a) == (if op == 0x3F then Branch(t) else QBranch(t), 2)
  {
    hide Get; hide Wrap;
  }

  lemma FarBranchDecodes(c: Config, m: Memory, a: nat, op: nat, o: int)
    requires (op == 0x03 || op == 0x04) && Get(m, a) == op
    requires -0x8000 <= o < 0x8000 && Get(m, a + 1) == o % 0x100 && Get(m, a + 2) == o % 0x1_0000 / 0x100
    ensures
      var t := Wrap(c.w, a + 1 + o);
      DecodeAt(c, m, a) == (if op == 0x03 then Branch(t) else QBranch(t), 3)
  {
    hide Get; hide Wrap; hide Little; hide Sext;
    var b := CodeAt(m, a)[1..3];
    LittleIs(b);
    TwoBytes(o);
    assert Little(b) == o % 0x1_0000;
  }

  lemma TwoBytes(o: int)
    requires -0x8000 <= o < 0x8000
    ensures o % 0x100 + 0x100 * (o % 0x1_0000 / 0x100) == o % 0x1_0000 && Sext(o % 0x1_0000, 0x1_0000) == o
  {
  }

  /** DOVAR: the first cell boundary that leaves three bytes behind the opcode; and back to the caller. */
  lemma DataWord(c: Config, s: Abs) returns (r: nat)
    requires At(c, s, 0x1B, 0) && s.rs != [] && Room(c, s, 1) && s.ip + 12 < Modulus(c.w)
    ensures StepAbs(c, s) == Running(s.(ip := s.rs[0], ds := [r] + s.ds, rs := s.rs[1..]))
    ensures r % (if c.w.W32? then 4 else 8) == 0 && s.ip + 4 <= r < s.ip + 4 + if c.w.W32? then 4 else 8
  {
    r := Align(c.w, s.ip + 4);
    DataDecodes(c, s.mem, s.ip);
    hide DecodeAt; hide Wrap; hide Get; hide Align;
    assert [] + s.rs[1..] == s.rs[1..] && s.ds[0..] == s.ds;
  }

  lemma DataDecodes(c: Config, m: Memory, a: nat)
    requires Get(m, a) == 0x1B && a + 12 < Modulus(c.w)
    ensures DecodeAt(c, m, a) == (DoVar(Align(c.w, a + 4)), 1)
  {
    hide Get;
  }

  /** DODOES: the parameter field, behind the tail's operand, goes on the return stack, and the tail is entered. */
  lemma DoesWord(c: Config, s: Abs) returns (pfa: nat, tail: nat)
    requires At(c, s, 0x1C, 0) && c.RFloor() + c.C() <= Rp(c, s) && s.ip + 12 < Modulus(c.w)
    ensures StepAbs(c, s) == Running(s.(ip := tail, rs := [pfa] + s.rs))
    ensures
      var (t, n) := CallOperand(CodeAt(s.mem, s.ip), 1);
      && Congruent(c.w, tail, c.base + t)
      && pfa % (if c.w.W32? then 4 else 8) == 0 && s.ip + 1 + n <= pfa < s.ip + 1 + n + if c.w.W32? then 4 else 8
  {
    var (t, n) := CallOperand(CodeAt(s.mem, s.ip), 1);
    pfa, tail := Align(c.w, s.ip + 1 + n), Wrap(c.w, c.base + t);
    WrapCongruent(c.w, c.base + t);
    DoesDecodes(c, s.mem, s.ip);
    hide DecodeAt; hide Wrap; hide Get; hide Align; hide CallOperand; hide Congruent; hide Outside; hide StepAbs;
    DoesStep(c, s, pfa, tail, 1 + n);
  }

  lemma DoesStep(c: Config, s: Abs, pfa: nat, tail: nat, len: nat)
    requires Outside(c, s.ip, 10) && DecodeAt(c, s.mem, s.ip) == (DoDoes(pfa, tail), len)
    requires c.RFloor() + c.C() <= Rp(c, s)
    ensures StepAbs(c, s) == Running(s.(ip := tail, rs := [pfa] + s.rs))
  {
    hide DecodeAt; hide Wrap; hide Outside;
    assert [] + s.ds[0..] == s.ds && s.rs[0..] == s.rs;
  }

  lemma DoesDecodes(c: Config, m: Memory, a: nat)
    requires Get(m, a) == 0x1C && a + 12 < Modulus(c.w)
    ensures
      var (t, n) := CallOperand(CodeAt(m, a), 1);
      DecodeAt(c, m, a) == (DoDoes(Align(c.w, a + 1 + n), Wrap(c.w, c.base + t)), 1 + n)
  {
    hide Get;
  }
}
