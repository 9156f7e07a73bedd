/**
 The CV8 byte stream (engine/opcodes.tab) and what each instruction means.

 Decode reads one instruction from memory. Act gives its meaning once, on the cells it takes
 from the two stacks: every machine of this project - the flat one the engine refines, the one
 whose stacks are sequences, the one with an environment for locals - is built from Act.
 */
module Instructions {
  import opened Arithmetic
  import opened Cells

  const MEMSIZE := 4 * 1024 * 1024
  const RSTACK_BYTES := 65536
  const DSTACK_BYTES := 262144
  const LSAVE_MAX := 4096
  const OPC_BRANCH8 := 0x3F

  /** Cell width, the image's load address and the host's page size. */
  datatype Config = Config(w: Width, base: nat, page: nat) {
    ghost predicate Valid() {
      && base % 65536 == 0 && base + MEMSIZE + 65536 <= Modulus(w)
      && 4096 <= page <= 65536 && page % 4096 == 0
    }

    function C(): nat { CellBytes(w) }

    /** Bottom of the data stack's guard page, which is also DICT-LIMIT. */
    function DGuard(): int { base + MEMSIZE - RSTACK_BYTES - DSTACK_BYTES }

    /** The lowest address a data-stack cell may have. */
    function DLimit(): int { DGuard() + page }

    function RGuard(): int { RFloor() - page }

    /** The lowest address a return-stack cell may have. */
    function RFloor(): int { base + MEMSIZE - RSTACK_BYTES }

    function RTop(): int { base + MEMSIZE }

    /** Address of the top cell of an empty data stack: one cell of slack below the guard. */
    function DTop(): int { RGuard() - C() }

    /** What touching the n bytes at a traps with: -3 or -5 in a guard page, else 0. */
    function GuardCode(a: int, n: nat): int {
      if !Apart(a, n, DGuard(), page) then -3
      else if !Apart(a, n, RGuard(), page) then -5
      else 0
    }
  }

  datatype UnOp = ZeroEq | ZeroLt | CellsOf | Negate | AddTo(n: int) | EqTo(n: int)

  datatype BinOp = Logic(op: BitOp) | Eq | Ne | ULess | Less | Greater | Plus | Minus | LShift | RShift

  datatype Instr =
    | Nop | Exit | Lit(v: nat, spills: bool) | DictLimit
    | Branch(target: nat) | QBranch(target: nat)
    | Drop | Dup | Swap | Rot | Over | TwoDup | TwoDrop | QDup
    | Unary(u: UnOp) | Binary(b: BinOp) | UmStar | UmDiv | DPlus
    | CFetch | Fetch | AtXt | CStore | StoreCell | PlusStore | Count
    | VarFetch(a: nat) | VarStore(a: nat) | LSave(a: nat) | LRestore(a: nat) | LZero(a: nat)
    | RFrom | ToR | RFetch | Loop(after: nat) | QDo(after: nat)
    | Execute | Call(target: nat) | DoVar(body: nat) | DoDoes(body: nat, target: nat)
    | SpFetch | SpStore | RpFetch | RpStore
    | BadOp | External(selector: nat)

  // ---- decoding ------------------------------------------------------------

  /** A field of n values read as signed. */
  function Sext(v: nat, n: nat): int {
    if v < n / 2 then v else v - n
  }

  /** The bytes of code an instruction can span. */
  type Window = s: seq<Byte> | |s| == 10 witness [0, 0, 0, 0, 0, 0, 0, 0, 0, 0]

  function CodeAt(m: Memory, ip: int): Window {
    [Get(m, ip), Get(m, ip + 1), Get(m, ip + 2), Get(m, ip + 3), Get(m, ip + 4),
     Get(m, ip + 5), Get(m, ip + 6), Get(m, ip + 7), Get(m, ip + 8), Get(m, ip + 9)]
  }

  function Little(s: seq<Byte>): nat {
    if s == [] then 0 else s[0] + 256 * Little(s[1..])
  }

  /** The address the slot operand s[1..] at a names, and the operand's length. */
  function Slot(c: Config, s: Window, a: int): (nat, nat) {
    var b: int, b1: int, b2: int := s[1], s[2], s[3];
    if b >= 0x80 then (Wrap(c.w, a + Sext((b - 0x80) * 0x1_0000 + b1 * 0x100 + b2, 0x80_0000)), 3)
    else (Wrap(c.w, a + Sext(b * 0x100 + b1, 0x8000)), 2)
  }

  /** The offset from the base of the call whose first byte is s[k], and the call's length. */
  function CallOperand(s: Window, k: nat): (nat, nat)
    requires k <= 1
  {
    var b: int, b1: int, b2: int := s[k], s[k + 1], s[k + 2];
    if (b / 0x40) % 2 == 1 then ((b % 0x40) * 0x1_0000 + b1 * 0x100 + b2, 3)
    else ((b % 0x40) * 0x100 + b1, 2)
  }

  /** Past the branch s[1..] at a: the counted-loop opcodes step over it. */
  function PastBranch(c: Config, s: Window, a: int): nat {
    Wrap(c.w, a + if s[1] == OPC_BRANCH8 then 2 else 3)
  }

  /** An instruction with no operand, or BadOp. */
  function Simple(op: nat): Instr {
    match op
    case 0x00 => Nop
    case 0x01 => Exit
    case 0x05 => Drop
    case 0x06 => Dup
    case 0x07 => Swap
    case 0x08 => Rot
    case 0x09 => Over
    case 0x0A => CFetch
    case 0x0B => Fetch
    case 0x0C => CStore
    case 0x0D => StoreCell
    case 0x0E => Binary(Logic(And))
    case 0x0F => Binary(Logic(Or))
    case 0x10 => Binary(Logic(Xor))
    case 0x11 => RFrom
    case 0x12 => ToR
    case 0x13 => RFetch
    case 0x14 => Binary(Eq)
    case 0x15 => Binary(ULess)
    case 0x16 => Binary(Less)
    case 0x17 => Binary(Plus)
    case 0x18 => UmStar
    case 0x19 => SpFetch
    case 0x41 => PlusStore
    case 0x42 => QDup
    case 0x43 => RFetch
    case 0x46 => Execute
    case 0x47 => AtXt
    case 0x61 => Lit(0, false)
    case 0x62 => Lit(1, false)
    case 0x6A => Unary(ZeroEq)
    case 0x6B => Binary(Minus)
    case 0x6C => Binary(Ne)
    case 0x6D => Unary(ZeroLt)
    case 0x6E => Binary(Greater)
    case 0x6F => TwoDup
    case 0x70 => TwoDrop
    case 0x72 => Unary(AddTo(1))
    case 0x74 => Unary(CellsOf)
    case 0x75 => Unary(AddTo(-1))
    case 0x77 => Count
    case _ => BadOp
  }

  function Escaped(selector: nat): Instr {
    match selector
    case 0x41 => Unary(Negate)
    case 0x42 => Binary(LShift)
    case 0x43 => Binary(RShift)
    case 0x44 => UmDiv
    case 0x45 => DPlus
    case 0x47 => SpStore
    case 0x48 => RpFetch
    case 0x49 => RpStore
    case 0x4A => DictLimit
    case _ => if selector < 78 then External(selector) else BadOp
  }

  /** The instruction whose bytes s begins with, laid at ip, and its length. */
  function Decode(c: Config, s: Window, ip: int): (r: (Instr, nat))
    ensures 1 <= r.1 <= 9
  {
    var op := s[0];
    var a := ip + 1;
    if op >= 0x80 then
      var (t, n) := CallOperand(s, 0);
      (Call(Wrap(c.w, c.base + t)), n)
    else match op
      case 0x02 => (Lit(Little(s[1..3]), false), 3)
      case 0x03 => (Branch(Wrap(c.w, a + Sext(Little(s[1..3]), 0x1_0000))), 3)
      case 0x04 => (QBranch(Wrap(c.w, a + Sext(Little(s[1..3]), 0x1_0000))), 3)
      case 0x1A => (Lit(Wrap(c.w, Sext(Little(s[1..5]), 0x1_0000_0000)), true), 5)
      case 0x1B => (DoVar(Wrap(c.w, Align(c.w, a + 3))), 1)
      case 0x1C =>
        var (t, n) := CallOperand(s, 1);
        (DoDoes(Wrap(c.w, Align(c.w, a + n)), Wrap(c.w, c.base + t)), 1 + n)
      case 0x1D => (Lit(s[1], false), 2)
      case 0x3F => (Branch(Wrap(c.w, a + Sext(s[1], 0x100))), 2)
      case 0x40 => (QBranch(Wrap(c.w, a + Sext(s[1], 0x100))), 2)
      case 0x44 => (Loop(PastBranch(c, s, a)), 1)
      case 0x45 => (QDo(PastBranch(c, s, a)), 1)
      case 0x63 => (Lit(Modulus(c.w) - 1, false), 1)
      case 0x64 => var (t, n) := Slot(c, s, a); (VarFetch(t), 1 + n)
      case 0x65 => var (t, n) := Slot(c, s, a); (VarStore(t), 1 + n)
      case 0x66 => var (t, n) := Slot(c, s, a); (LSave(t), 1 + n)
      case 0x67 => var (t, n) := Slot(c, s, a); (LRestore(t), 1 + n)
      case 0x68 => var (t, n) := Slot(c, s, a); (VarStore(t), 1 + n)
      case 0x69 => var (t, n) := Slot(c, s, a); (LZero(t), 1 + n)
      case 0x73 => (Unary(AddTo(c.C())), 1)
      case 0x79 => (Unary(AddTo(Sext(s[1], 0x100))), 2)
      case 0x7B => (Unary(EqTo(Sext(s[1], 0x100))), 2)
      case 0x7D => (Lit(Little(s[1..1 + c.C()]), true), 1 + c.C())
      case 0x7E => (Escaped(s[1]), 2)
      case _ => (Simple(op), 1)
  }

  function DecodeAt(c: Config, m: Memory, ip: int): (r: (Instr, nat))
    ensures 1 <= r.1 <= 9
  {
    Decode(c, CodeAt(m, ip), ip)
  }

  // ---- which bytes matter ---------------------------------------------------

  /** The bytes an instruction depends on: its own, and for the loop opcodes the branch opcode after them. */
  function Reach(i: Instr, n: nat): nat {
    if i.Loop? || i.QDo? then 2 else n
  }

  ghost predicate SameReach(c: Config, s: Window, t: Window, ip: int) {
    forall k :: 0 <= k < Reach(Decode(c, s, ip).0, Decode(c, s, ip).1) && k < 10 ==> s[k] == t[k]
  }

  lemma CallReach(c: Config, s: Window, t: Window, ip: int)
    requires SameReach(c, s, t, ip) && (s[0] >= 0x80 || s[0] == 0x1C)
    ensures Decode(c, t, ip) == Decode(c, s, ip)
  {
    hide Wrap; hide Align;
    assert s[0] == t[0] && s[1] == t[1];
    assert Decode(c, s, ip).1 >= 3 ==> s[2] == t[2];
    assert Decode(c, s, ip).1 >= 4 ==> s[3] == t[3];
  }

  lemma SlotReach(c: Config, s: Window, t: Window, ip: int)
    requires SameReach(c, s, t, ip) && 0x64 <= s[0] <= 0x69
    ensures Decode(c, t, ip) == Decode(c, s, ip)
  {
    hide Wrap; hide Sext;
    assert s[0] == t[0] && s[1] == t[1] && s[2] == t[2];
    assert Decode(c, s, ip).1 >= 4 ==> s[3] == t[3];
  }

  lemma NumberReach(c: Config, s: Window, t: Window, ip: int)
    requires SameReach(c, s, t, ip) && (2 <= s[0] <= 4 || s[0] == 0x1A || s[0] == 0x7D)
    ensures Decode(c, t, ip) == Decode(c, s, ip)
  {
    hide Wrap; hide Sext; hide Little;
    var n := Decode(c, s, ip).1;
    assert s[0] == t[0];
    forall k | 0 <= k < n - 1
      ensures s[1..n][k] == t[1..n][k]
    {
      assert s[k + 1] == t[k + 1];
    }
    assert s[1..n] == t[1..n];
  }

  lemma DecodeReach(c: Config, s: Window, t: Window, ip: int)
    requires SameReach(c, s, t, ip)
    ensures Decode(c, t, ip) == Decode(c, s, ip)
  {
    if s[0] >= 0x80 || s[0] == 0x1C {
      CallReach(c, s, t, ip);
    } else if 0x64 <= s[0] <= 0x69 {
      SlotReach(c, s, t, ip);
    } else if 2 <= s[0] <= 4 || s[0] == 0x1A || s[0] == 0x7D {
      NumberReach(c, s, t, ip);
    } else {
      hide Wrap; hide Sext; hide Align; hide Simple; hide Escaped;
      SimpleLength(c, s, ip);
      assert s[0] == t[0];
      assert Decode(c, s, ip).1 >= 2 ==> s[1] == t[1];
    }
  }

  lemma SimpleLength(c: Config, s: Window, ip: int)
    ensures s[0] == 0x44 || s[0] == 0x45 ==> Reach(Decode(c, s, ip).0, Decode(c, s, ip).1) == 2
    ensures Reach(Decode(c, s, ip).0, Decode(c, s, ip).1) >= Decode(c, s, ip).1
  {
    hide Wrap; hide Sext; hide Little; hide Align;
  }

  /** Memories that agree on those bytes hold the same instruction. */
  lemma DecodeAtReach(c: Config, m: Memory, m': Memory, ip: int)
    requires
      var (i, n) := DecodeAt(c, m, ip);
      forall z :: ip <= z < ip + Reach(i, n) ==> Get(m', z) == Get(m, z)
    ensures DecodeAt(c, m', ip) == DecodeAt(c, m, ip)
  {
    hide Decode; hide Reach; hide Get;
    var s, t := CodeAt(m, ip), CodeAt(m', ip);
    var (i, n) := DecodeAt(c, m, ip);
    forall k | 0 <= k < Reach(i, n) && k < 10
      ensures s[k] == t[k]
    {
      assert s[k] == Get(m, ip + k) && t[k] == Get(m', ip + k);
    }
    DecodeReach(c, s, t, ip);
  }

  // ---- meaning -------------------------------------------------------------

  datatype Read = NoRead | ReadCell(a: nat) | ReadByte(a: nat)
  datatype Write = NoWrite | WriteCell(a: nat, v: nat) | WriteByte(a: nat, v: nat)

  /**
   What an instruction does: where ip goes, how many cells leave each stack, which are then
   pushed (the first is the new top), what is written to memory and the locals save stack.
   */
  datatype Effect =
    | Effect(ip: nat, drop: nat, push: seq<nat>, rdrop: nat, rpush: seq<nat>, write: Write, ls: seq<nat>)
    | SetSp(sp: nat)
    | SetRp(rp: nat)
    | Fault(code: int)
    | Undefined
    | Halt(status: int)
    | Host(selector: nat)

  /** How many data-stack cells the instruction looks at. */
  function Args(i: Instr): nat {
    match i
    case Drop | Dup | QDup | Unary(_) | CFetch | Fetch | AtXt | Count | VarStore(_)
       | QBranch(_) | ToR | Execute | SpStore | RpStore => 1
    case Swap | Over | TwoDup | TwoDrop | Binary(_) | UmStar | CStore | StoreCell | PlusStore | QDo(_) => 2
    case Rot | UmDiv => 3
    case DPlus => 4
    case _ => 0
  }

  /** How many return-stack cells the instruction looks at. */
  function RArgs(i: Instr): nat {
    match i
    case Exit | RFrom | RFetch | DoVar(_) => 1
    case Loop(_) => 2
    case _ => 0
  }

  /** What the instruction loads besides its stack cells; a failing LSAVE or LRESTORE reads LOCHDR(0). */
  function Reads(c: Config, i: Instr, args: seq<nat>, ls: seq<nat>): Read
    requires |args| == Args(i)
  {
    match i
    case CFetch | Count => ReadByte(args[0])
    case Fetch | AtXt | PlusStore => ReadCell(args[0])
    case VarFetch(a) => ReadCell(a)
    case LSave(a) => if |ls| >= LSAVE_MAX then ReadCell(c.base + 8) else ReadCell(a)
    case LRestore(a) => if ls == [] then ReadCell(c.base + 8) else NoRead
    case _ => NoRead
  }

  function UnVal(w: Width, u: UnOp, x: nat): nat {
    match u
    case ZeroEq => Flag(w, x == 0)
    case ZeroLt => Flag(w, Signed(w, x) < 0)
    case CellsOf => Wrap(w, x * CellBytes(w))
    case Negate => Wrap(w, 0 - x)
    case AddTo(n) => Wrap(w, x + n)
    case EqTo(n) => Flag(w, x == Wrap(w, n))
  }

  /** y is the top of the stack, x the cell under it. */
  function BinVal(w: Width, b: BinOp, x: nat, y: nat): nat {
    match b
    case Logic(op) => Wrap(w, Bitwise(op, x, y, Bits(w)))
    case Eq => Flag(w, x == y)
    case Ne => Flag(w, x != y)
    case ULess => Flag(w, x < y)
    case Less => Flag(w, Signed(w, x) < Signed(w, y))
    case Greater => Flag(w, Signed(w, x) > Signed(w, y))
    case Plus => Wrap(w, x + y)
    case Minus => Wrap(w, x - y)
    case LShift => Wrap(w, x * Pow2(y))
    case RShift => Wrap(w, x / Pow2(y))
  }

  /** A double cell: high half, low half. */
  function Double(w: Width, hi: nat, lo: nat): nat {
    hi * Modulus(w) + lo
  }

  function High(w: Width, d: nat): (r: nat)
    ensures r < Modulus(w)
  {
    Wrap(w, d / Modulus(w))
  }

  function Low(w: Width, d: nat): (r: nat)
    ensures r < Modulus(w)
  {
    Wrap(w, d)
  }

  /** The quotient udiv leaves: its low cell. */
  function Quotient(w: Width, d: nat, x: nat): (r: nat)
    requires x != 0
    ensures r < Modulus(w)
  {
    Wrap(w, d / x)
  }

  function Remainder(w: Width, d: nat, x: nat): (r: nat)
    requires x != 0
    ensures r < Modulus(w)
  {
    Wrap(w, d % x)
  }

  /** An effect on the data stack alone. */
  function Stack(next: nat, drop: nat, push: seq<nat>, ls: seq<nat>): Effect {
    Effect(next, drop, push, 0, [], NoWrite, ls)
  }

  /** locals_failed: the code on the stack and a call to the word offset 8 names, or exit(70). */
  function LocalsFailed(c: Config, code: nat, next: nat, word: nat, ls: seq<nat>): Effect {
    if word == 0 then Halt(70) else Effect(Wrap(c.w, c.base + word), 0, [code], 0, [next], NoWrite, ls)
  }

  /**
   The meaning of i: args and rargs are the cells it looks at, tops first, v what Reads loaded,
   sp and rp the two stacks' addresses and next the address after the instruction.
   */
  function Act(c: Config, i: Instr, next: nat, args: seq<nat>, rargs: seq<nat>, v: nat, ls: seq<nat>, sp: nat,
               rp: nat): (e: Effect)
    requires |args| == Args(i) && |rargs| == RArgs(i)
    ensures e.Effect? ==> e.drop <= Args(i) && e.rdrop <= RArgs(i)
  {
    var w := c.w;
    match i
    case Nop => Stack(next, 0, [], ls)
    case Exit => Effect(rargs[0], 0, [], 1, [], NoWrite, ls)
    case Lit(x, _) => Stack(next, 0, [x], ls)
    case DictLimit => Stack(next, 0, [Wrap(w, c.DGuard())], ls)
    case Branch(t) => Stack(t, 0, [], ls)
    case QBranch(t) => Stack(if args[0] == 0 then t else next, 1, [], ls)
    case Drop => Stack(next, 1, [], ls)
    case Dup => Stack(next, 0, [args[0]], ls)
    case Swap => Stack(next, 2, [args[1], args[0]], ls)
    case Rot => Stack(next, 3, [args[2], args[0], args[1]], ls)
    case Over => Stack(next, 0, [args[1]], ls)
    case TwoDup => Stack(next, 0, args, ls)
    case TwoDrop => Stack(next, 2, [], ls)
    case QDup => Stack(next, 0, if args[0] != 0 then [args[0]] else [], ls)
    case Unary(u) => Stack(next, 1, [UnVal(w, u, args[0])], ls)
    case Binary(b) =>
      if (b.LShift? || b.RShift?) && args[0] >= Bits(w) then Undefined
      else Stack(next, 2, [BinVal(w, b, args[1], args[0])], ls)
    case UmStar =>
      var d := args[1] * args[0];
      Stack(next, 2, [High(w, d), Low(w, d)], ls)
    case UmDiv =>
      if args[0] == 0 then Fault(-10)
      else
        var d := Double(w, args[1], args[2]);
        Stack(next, 3, [Quotient(w, d, args[0]), Remainder(w, d, args[0])], ls)
    case DPlus =>
      var d := Double(w, args[0], args[1]) + Double(w, args[2], args[3]);
      Stack(next, 4, [High(w, d), Low(w, d)], ls)
    case CFetch => Stack(next, 1, [v], ls)
    case Fetch => Stack(next, 1, [v], ls)
    case AtXt => Stack(next, 1, [Wrap(w, v + c.base)], ls)
    case CStore => Effect(next, 2, [], 0, [], WriteByte(args[0], args[1] % 256), ls)
    case StoreCell => Effect(next, 2, [], 0, [], WriteCell(args[0], args[1]), ls)
    case PlusStore => Effect(next, 2, [], 0, [], WriteCell(args[0], Wrap(w, v + args[1])), ls)
    case Count => Stack(next, 1, [v, Wrap(w, args[0] + 1)], ls)
    case VarFetch(_) => Stack(next, 0, [v], ls)
    case VarStore(a) => Effect(next, 1, [], 0, [], WriteCell(a, args[0]), ls)
    case LSave(_) =>
      if |ls| >= LSAVE_MAX then LocalsFailed(c, 1, next, v, ls) else Stack(next, 0, [], ls + [v])
    case LRestore(a) =>
      if ls == [] then LocalsFailed(c, 2, next, v, ls)
      else Effect(next, 0, [], 0, [], WriteCell(a, ls[|ls| - 1]), ls[..|ls| - 1])
    case LZero(a) => Effect(next, 0, [], 0, [], WriteCell(a, 0), ls)
    case RFrom => Effect(next, 0, [rargs[0]], 1, [], NoWrite, ls)
    case ToR => Effect(next, 1, [], 0, [args[0]], NoWrite, ls)
    case RFetch => Stack(next, 0, [rargs[0]], ls)
    case Loop(after) =>
      var n := Wrap(w, rargs[0] + 1);
      if n == rargs[1] then Effect(after, 0, [], 2, [], NoWrite, ls)
      else Effect(next, 0, [], 1, [n], NoWrite, ls)
    case QDo(after) =>
      if args[0] == args[1] then Stack(next, 2, [], ls)
      else Effect(after, 2, [], 0, args, NoWrite, ls)
    case Execute => Effect(args[0], 1, [], 0, [next], NoWrite, ls)
    case Call(t) => Effect(t, 0, [], 0, [next], NoWrite, ls)
    case DoVar(body) => Effect(rargs[0], 0, [body], 1, [], NoWrite, ls)
    case DoDoes(body, t) => Effect(t, 0, [], 0, [body], NoWrite, ls)
    case SpFetch => Stack(next, 0, [sp], ls)
    case SpStore => SetSp(args[0])
    case RpFetch => Stack(next, 0, [rp], ls)
    case RpStore => SetRp(args[0])
    case BadOp => Fault(-256)
    case External(s) => Host(s)
  }

  /** All of xs are cells. */
  ghost predicate AreCells(w: Width, xs: seq<nat>) {
    forall i :: 0 <= i < |xs| ==> xs[i] < Modulus(w)
  }

  ghost predicate ReadFits(c: Config, r: Read, v: nat) {
    match r
    case NoRead => true
    case ReadByte(_) => v < 256
    case ReadCell(_) => v < Modulus(c.w)
  }

  ghost predicate EffectFits(c: Config, e: Effect) {
    match e
    case Effect(ip, _, push, _, rpush, write, ls) =>
      && ip < Modulus(c.w) && AreCells(c.w, push) && AreCells(c.w, rpush) && AreCells(c.w, ls)
      && (write.WriteCell? ==> write.v < Modulus(c.w))
      && (write.WriteByte? ==> write.v < 256)
    case _ => true
  }

  ghost predicate InstrFits(c: Config, i: Instr) {
    match i
    case Lit(v, _) => v < Modulus(c.w)
    case Branch(t) => t < Modulus(c.w)
    case QBranch(t) => t < Modulus(c.w)
    case Loop(t) => t < Modulus(c.w)
    case QDo(t) => t < Modulus(c.w)
    case Call(t) => t < Modulus(c.w)
    case DoVar(b) => b < Modulus(c.w)
    case DoDoes(b, t) => b < Modulus(c.w) && t < Modulus(c.w)
    case _ => true
  }

  lemma {:induction false} LittleBound(s: seq<Byte>)
    ensures Little(s) < Pow256(|s|)
  {
    if s != [] {
      LittleBound(s[1..]);
    }
  }

  lemma DecodeFits(c: Config, s: Window, ip: int)
    ensures InstrFits(c, Decode(c, s, ip).0)
  {
    hide Wrap; hide Sext; hide Little; hide CallOperand; hide Slot;
    LittleBound(s[1..3]);
    assert |s[1..1 + c.C()]| == c.C();
    LittleBound(s[1..1 + c.C()]);
    Pow256Modulus(c.w);
    assert Pow256(2) == 0x1_0000;
  }

  /** Cells in, cells out: no instruction makes a value wider than a cell. */
  lemma ActFits(c: Config, i: Instr, next: nat, args: seq<nat>, rargs: seq<nat>, v: nat, ls: seq<nat>, sp: nat, rp: nat)
    requires |args| == Args(i) && |rargs| == RArgs(i)
    requires InstrFits(c, i) && next < Modulus(c.w) && sp < Modulus(c.w) && rp < Modulus(c.w)
    requires AreCells(c.w, args) && AreCells(c.w, rargs) && AreCells(c.w, ls)
    requires ReadFits(c, Reads(c, i, args, ls), v)
    ensures EffectFits(c, Act(c, i, next, args, rargs, v, ls, sp, rp))
  {
    hide Wrap; hide Bitwise; hide Pow2; hide Signed; hide High; hide Low; hide Double; hide Quotient; hide Remainder;
    if i.Rot? || i.Swap? || i.TwoDup? || i.QDo? || i.Count? {
    } else if i.LSave? || i.LRestore? || i.UmDiv? || i.UmStar? || i.DPlus? {
    }
  }
}
