/**
 Position independence (docs/CV8.md 1 and 2.4): nothing in an image is a pointer, so one image at
 two load addresses runs in lockstep. A cell is an integer, the same in both runs, or an address,
 shifted by the difference of the bases; the kinds are worked out along the first run, and a
 program that mixes them (adds two addresses, tests the bits of one above a cell's alignment) has no
 kinds from there on.
 */
module Relocation {
  import opened Arithmetic
  import opened Cells
  import opened Instructions
  import opened PlainMachine
  import opened StackMachine
  import opened Masks

  datatype Kind = Int | Addr

  datatype Option<+T> = None | Some(value: T)

  /** The other run: the image delta bytes further on. */
  function Moved(c: Config, delta: int): Config
    requires c.base + delta >= 0
  {
    c.(base := c.base + delta)
  }

  /** Two cell-aligned load addresses with room for the whole region below 2^w. */
  ghost predicate Bases(c: Config, delta: int) {
    && delta % c.C() == 0 && 0 <= c.base + delta
    && c.base + MEMSIZE + 65536 <= Modulus(c.w) && c.base + delta + MEMSIZE + 65536 <= Modulus(c.w)
    && 4096 <= c.page <= 65536
  }

  function Shift(w: Width, delta: int, x: int): (r: nat)
    ensures r < Modulus(w)
  {
    Wrap(w, x + delta)
  }

  function Move(w: Width, delta: int, k: Kind, x: nat): nat {
    if k.Addr? then Shift(w, delta, x) else x
  }

  function MoveAll(w: Width, delta: int, ks: seq<Kind>, xs: seq<nat>): (r: seq<nat>)
    requires |ks| == |xs|
    ensures |r| == |xs|
    ensures forall i :: 0 <= i < |xs| ==> r[i] == Move(w, delta, ks[i], xs[i])
  {
    seq(|xs|, i requires 0 <= i < |xs| => Move(w, delta, ks[i], xs[i]))
  }

  /** The same instruction in the other run: what names an address in the region moves with it. */
  function MoveInstr(w: Width, delta: int, i: Instr): Instr {
    match i
    case Branch(t) => Branch(Shift(w, delta, t))
    case QBranch(t) => QBranch(Shift(w, delta, t))
    case Loop(t) => Instr.Loop(Shift(w, delta, t))
    case QDo(t) => QDo(Shift(w, delta, t))
    case Call(t) => Call(Shift(w, delta, t))
    case DoVar(b) => DoVar(Shift(w, delta, b))
    case DoDoes(b, t) => DoDoes(Shift(w, delta, b), Shift(w, delta, t))
    case VarFetch(a) => VarFetch(Shift(w, delta, a))
    case VarStore(a) => VarStore(Shift(w, delta, a))
    case LSave(a) => LSave(Shift(w, delta, a))
    case LRestore(a) => LRestore(Shift(w, delta, a))
    case LZero(a) => LZero(Shift(w, delta, a))
    case _ => i
  }

  // ---- alignment -----------------------------------------------------------

  /**
   DOVAR and DODOES round an address up to a cell; that commutes with moving the image, for every
   address, exactly when the bases differ by whole cells.
   */
  lemma AlignMoves(w: Width, delta: int)
    ensures (forall a: int :: Align(w, a + delta) == Align(w, a) + delta) <==> delta % CellBytes(w) == 0
  {
    if delta % CellBytes(w) == 0 {
      forall a: int
        ensures Align(w, a + delta) == Align(w, a) + delta
      {
        AlignShift(w, a, delta);
      }
    } else {
      assert Align(w, 0 + delta) % CellBytes(w) == 0 && Align(w, 0) == 0;
    }
  }

  lemma AlignShift(w: Width, a: int, delta: int)
    requires delta % CellBytes(w) == 0
    ensures Align(w, a + delta) == Align(w, a) + delta
  {
    var C := CellBytes(w);
    var x, q := a + C - 1, delta / C;
    assert delta == q * C && x == x / C * C + x % C;
    DivMod(C, x / C + q, x % C);
  }

  lemma WrapMultiple(w: Width, x: int, k: int)
    ensures Wrap(w, x + k * Modulus(w)) == Wrap(w, x)
  {
    var m := Modulus(w);
    var q := x / m;
    assert x == q * m + x % m && x + k * m == (q + k) * m + x % m;
    DivMod(m, q + k, x % m);
  }

  lemma WrapDifference(w: Width, x: int, y: int)
    ensures Wrap(w, Wrap(w, x) - Wrap(w, y)) == Wrap(w, x - y)
  {
    var p, q := x / Modulus(w), y / Modulus(w);
    assert Wrap(w, x) - Wrap(w, y) == x - y + (q - p) * Modulus(w);
    WrapMultiple(w, x - y, q - p);
  }

  lemma ShiftAdd(w: Width, delta: int, x: int, n: int)
    ensures Wrap(w, Shift(w, delta, x) + n) == Shift(w, delta, Wrap(w, x + n))
    ensures Wrap(w, x + delta + n) == Shift(w, delta, Wrap(w, x + n))
    ensures Shift(w, delta, Wrap(w, x)) == Shift(w, delta, x)
  {
    hide Wrap;
    Rewrap(w, x + delta, n);
    Rewrap(w, x + n, delta);
    Rewrap(w, x, delta);
    assert x + n + delta == x + delta + n;
  }

  lemma Rewrap(w: Width, x: int, n: int)
    ensures Wrap(w, Wrap(w, x) + n) == Wrap(w, x + n)
  {
    var q := x / Modulus(w);
    assert Wrap(w, x) + n == x + n + (-q) * Modulus(w);
    WrapMultiple(w, x + n, -q);
  }

  lemma OperandsMove(c: Config, delta: int, s: Window, a: int)
    requires Bases(c, delta)
    ensures Slot(Moved(c, delta), s, a + delta) == (Shift(c.w, delta, Slot(c, s, a).0), Slot(c, s, a).1)
    ensures PastBranch(Moved(c, delta), s, a + delta) == Shift(c.w, delta, PastBranch(c, s, a))
  {
    hide Wrap; hide Shift; hide Sext;
    var b: int, b1: int, b2: int := s[1], s[2], s[3];
    if b >= 0x80 {
      ShiftAdd(c.w, delta, a, Sext((b - 0x80) * 0x1_0000 + b1 * 0x100 + b2, 0x80_0000));
    }
    ShiftAdd(c.w, delta, a, Sext(b * 0x100 + b1, 0x8000));
    ShiftAdd(c.w, delta, a, 2);
    ShiftAdd(c.w, delta, a, 3);
  }

  lemma AlignMove(w: Width, delta: int, a: int)
    requires delta % CellBytes(w) == 0
    ensures Wrap(w, Align(w, a + delta)) == Shift(w, delta, Wrap(w, Align(w, a)))
  {
    hide Wrap; hide Shift; hide Align;
    AlignShift(w, a, delta);
    ShiftAdd(w, delta, Align(w, a), 0);
  }

  /** The same bytes decode in the other run to the moved instruction. */
  lemma DecodeMoves(c: Config, delta: int, s: Window, ip: nat)
    requires Bases(c, delta) && 0 <= ip + delta
    ensures Decode(Moved(c, delta), s, ip + delta) == (MoveInstr(c.w, delta, Decode(c, s, ip).0), Decode(c, s, ip).1)
  {
    hide Wrap; hide Shift; hide Sext; hide Little; hide Align; hide Simple; hide Escaped; hide Slot; hide PastBranch;
    hide CallOperand;
    var w, a := c.w, ip + 1;
    OperandsMove(c, delta, s, a);
    SimpleStays(w, delta, s[0]);
    SimpleStays(w, delta, s[1]);
    ShiftAdd(w, delta, c.base, CallOperand(s, 0).0);
    ShiftAdd(w, delta, c.base, CallOperand(s, 1).0);
    ShiftAdd(w, delta, a, Sext(Little(s[1..3]), 0x1_0000));
    ShiftAdd(w, delta, a, Sext(s[1], 0x100));
    AlignMove(w, delta, a + 3);
    AlignMove(w, delta, a + CallOperand(s, 1).1);
  }

  lemma SimpleStays(w: Width, delta: int, op: nat)
    ensures MoveInstr(w, delta, Simple(op)) == Simple(op) && MoveInstr(w, delta, Escaped(op)) == Escaped(op)
  {
  }

  // ---- kinds ---------------------------------------------------------------

  /** The kinds of what an effect pushes, writes and saves. */
  datatype Typing = Typing(push: seq<Kind>, rpush: seq<Kind>, write: Kind, ls: seq<Kind>)

  /** x is inside the image's region, above its first byte: no move can make it 0 or wrap. */
  predicate InRegion(c: Config, x: nat) {
    c.base < x < c.base + MEMSIZE
  }

  /** Comparing with 0 means the same in both runs. */
  predicate Testable(c: Config, k: Kind, x: nat) {
    k.Int? || InRegion(c, x)
  }

  function UnKind(c: Config, u: UnOp, k: Kind, x: nat): Option<Kind> {
    match u
    case AddTo(_) => Some(k)
    case ZeroEq => if Testable(c, k, x) then Some(Int) else None
    case EqTo(n) => if k.Int? || (n == 0 && Testable(c, k, x)) then Some(Int) else None
    case _ => if k.Int? then Some(Int) else None
  }

  /** A mask of the low bits of an address that no move changes: at most a cell's alignment. */
  predicate LowMask(w: Width, y: nat) {
    y == 0 || y == 1 || y == 3 || (y == 7 && w.W64?)
  }

  /** A mask that rounds an address down to such an alignment: ALIGNED's, for one. */
  predicate HighMask(w: Width, y: nat) {
    y < Modulus(w) && LowMask(w, Modulus(w) - 1 - y)
  }

  /** The kind of an address and y. */
  function MaskKind(w: Width, y: nat): Option<Kind> {
    if LowMask(w, y) then Some(Int) else if HighMask(w, y) then Some(Addr) else None
  }

  /** The kind of x b y; kx and ky are the operands'. */
  function BinKind(c: Config, b: BinOp, kx: Kind, ky: Kind, x: nat, y: nat): Option<Kind> {
    if kx.Int? && ky.Int? then Some(Int)
    else match b
      case Plus => if kx.Addr? && ky.Addr? then None else Some(Addr)
      case Minus => if ky.Int? then Some(Addr) else if kx.Addr? then Some(Int) else None
      case Eq | Ne =>
        if kx == ky || (kx.Addr? && InRegion(c, x) && y == 0) || (ky.Addr? && InRegion(c, y) && x == 0)
        then Some(Int) else None
      case ULess => if kx == ky && InRegion(c, x) && InRegion(c, y) then Some(Int) else None
      case Logic(And) =>
        if kx.Addr? && ky.Addr? then None
        else if kx.Addr? then MaskKind(c.w, y)
        else MaskKind(c.w, x)
      case _ => None
  }

  function Pushes(ks: seq<Kind>, ls: seq<Kind>): Option<Typing> {
    Some(Typing(ks, [], Int, ls))
  }

  function Writes(k: Kind, ls: seq<Kind>): Option<Typing> {
    Some(Typing([], [], k, ls))
  }

  predicate AllInt(ks: seq<Kind>) {
    forall i :: 0 <= i < |ks| ==> ks[i].Int?
  }

  /**
   The kinds an instruction leaves, from those of its arguments, of what it loads and of the save
   stack; None where the two runs could part.
   */
  function TypeOf(c: Config, i: Instr, ks: seq<Kind>, rks: seq<Kind>, kv: Kind, ls: seq<Kind>, args: seq<nat>,
                  rargs: seq<nat>): Option<Typing>
    requires |ks| == |args| == Args(i) && |rks| == |rargs| == RArgs(i)
  {
    match i
    case Nop | Branch(_) | Drop | TwoDrop | BadOp | External(_) => Pushes([], ls)
    case Lit(_, _) => Pushes([Int], ls)
    case DictLimit | SpFetch | RpFetch => Pushes([Addr], ls)
    case Exit => if rks[0].Addr? then Pushes([], ls) else None
    case QBranch(_) => if Testable(c, ks[0], args[0]) then Pushes([], ls) else None
    case QDup => if Testable(c, ks[0], args[0]) then Pushes(if args[0] != 0 then ks else [], ls) else None
    case Dup => Pushes(ks, ls)
    case Swap => Pushes([ks[1], ks[0]], ls)
    case Rot => Pushes([ks[2], ks[0], ks[1]], ls)
    case Over => Pushes([ks[1]], ls)
    case TwoDup => Pushes(ks, ls)
    case Unary(u) => (match UnKind(c, u, ks[0], args[0]) case Some(k) => Pushes([k], ls) case None => None)
    case Binary(b) =>
      (match BinKind(c, b, ks[1], ks[0], args[1], args[0]) case Some(k) => Pushes([k], ls) case None => None)
    case UmStar | UmDiv | DPlus => if AllInt(ks) then Pushes([Int, Int], ls) else None
    case CFetch => if ks[0].Addr? && kv.Int? then Pushes([Int], ls) else None
    case Count => if ks[0].Addr? && kv.Int? then Pushes([Int, Addr], ls) else None
    case Fetch => if ks[0].Addr? then Pushes([kv], ls) else None
    case AtXt => if ks[0].Addr? && kv.Int? then Pushes([Addr], ls) else None
    case CStore => if ks[0].Addr? && ks[1].Int? then Writes(Int, ls) else None
    case StoreCell => if ks[0].Addr? then Writes(ks[1], ls) else None
    case PlusStore =>
      if ks[0].Int? || (kv.Addr? && ks[1].Addr?) then None
      else Writes(if kv.Addr? || ks[1].Addr? then Addr else Int, ls)
    case VarFetch(_) => Pushes([kv], ls)
    case VarStore(_) => Writes(ks[0], ls)
    case LZero(_) => Writes(Int, ls)
    case LSave(_) =>
      if |ls| < LSAVE_MAX then Pushes([], ls + [kv])
      else if kv.Int? then Some(Typing([Int], [Addr], Int, ls)) else None
    case LRestore(_) =>
      if ls != [] then Writes(ls[|ls| - 1], ls[..|ls| - 1])
      else if kv.Int? then Some(Typing([Int], [Addr], Int, ls)) else None
    case RFrom | RFetch => Pushes(rks, ls)
    case ToR => Some(Typing([], ks, Int, ls))
    case Loop(_) =>
      if rks[0] != rks[1] then None
      else Some(Typing([], if Wrap(c.w, rargs[0] + 1) == rargs[1] then [] else [rks[0]], Int, ls))
    case QDo(_) =>
      if ks[0] != ks[1] then None
      else Some(Typing([], if args[0] == args[1] then [] else ks, Int, ls))
    case Execute => if ks[0].Addr? then Some(Typing([], [Addr], Int, ls)) else None
    case Call(_) | DoDoes(_, _) => Some(Typing([], [Addr], Int, ls))
    case DoVar(_) => if rks[0].Addr? then Pushes([Addr], ls) else None
    case SpStore | RpStore => None
  }

  /** Integers may be computed with, tested and counted. */
  lemma NumbersServe(c: Config, i: Instr, ks: seq<Kind>, rks: seq<Kind>, kv: Kind, ls: seq<Kind>, args: seq<nat>,
                      rargs: seq<nat>)
    requires |ks| == |args| == Args(i) && |rks| == |rargs| == RArgs(i)
    requires AllInt(ks) && AllInt(rks)
    requires i.Unary? || i.Binary? || i.UmStar? || i.UmDiv? || i.DPlus? || i.QBranch? || i.QDup? || i.Loop? || i.QDo?
    ensures
      var t := TypeOf(c, i, ks, rks, kv, ls, args, rargs);
      t.Some? && AllInt(t.value.push) && AllInt(t.value.rpush)
  {
    hide Wrap; hide InRegion;
    match i
    case Loop(_) => assert rks[0] == rks[1];
    case QDo(_) => assert ks[0] == ks[1];
    case _ =>
  }

  /** Either kind may be copied, ordered, saved and called with. */
  lemma EitherServes(c: Config, i: Instr, ks: seq<Kind>, rks: seq<Kind>, kv: Kind, ls: seq<Kind>, args: seq<nat>,
                      rargs: seq<nat>)
    requires |ks| == |args| == Args(i) && |rks| == |rargs| == RArgs(i)
    requires i.Dup? || i.Swap? || i.Rot? || i.Over? || i.TwoDup? || i.Drop? || i.TwoDrop? || i.ToR? || i.RFrom?
          || i.RFetch? || i.VarFetch? || i.VarStore? || i.Call? || i.DoDoes? || i.Branch? || i.Lit? || i.SpFetch?
    ensures TypeOf(c, i, ks, rks, kv, ls, args, rargs).Some?
  {
    hide Wrap; hide InRegion;
  }

  /** Memory may be read and written at addresses, and control go to them. */
  lemma AddressesServe(c: Config, i: Instr, ks: seq<Kind>, rks: seq<Kind>, kv: Kind, ls: seq<Kind>, args: seq<nat>,
                      rargs: seq<nat>)
    requires |ks| == |args| == Args(i) && |rks| == |rargs| == RArgs(i)
    requires ks != [] ==> ks[0].Addr?
    requires rks != [] ==> rks[0].Addr?
    ensures
      var t := TypeOf(c, i, ks, rks, kv, ls, args, rargs);
      && (i.Fetch? ==> t.Some? && t.value.push == [kv])
      && ((i.CFetch? || i.Count? || i.AtXt?) && kv.Int? ==> t.Some?)
      && (i.StoreCell? ==> t.Some? && t.value.write == ks[1])
      && (i.CStore? && ks[1].Int? ==> t.Some?)
      && (i.PlusStore? && (ks[1].Int? || kv.Int?) ==> t.Some?)
      && (i.Execute? || i.Exit? || i.DoVar? ==> t.Some?)
  {
    hide Wrap; hide InRegion; hide BinKind; hide UnKind;
  }

  /** An integer may be added to an address or taken off it, and two addresses subtracted and compared. */
  lemma AddressArithmetic(c: Config, x: nat, y: nat)
    ensures BinKind(c, Plus, Addr, Int, x, y) == BinKind(c, Plus, Int, Addr, x, y) == Some(Addr)
    ensures BinKind(c, Minus, Addr, Int, x, y) == Some(Addr) && BinKind(c, Minus, Addr, Addr, x, y) == Some(Int)
    ensures BinKind(c, Eq, Addr, Addr, x, y) == BinKind(c, Ne, Addr, Addr, x, y) == Some(Int)
    ensures c.base < x < c.base + MEMSIZE && c.base < y < c.base + MEMSIZE ==>
      BinKind(c, ULess, Addr, Addr, x, y) == Some(Int) && UnKind(c, ZeroEq, Addr, x) == Some(Int)
      && BinKind(c, Eq, Addr, Int, x, 0) == Some(Int)
  {
  }

  /** e' is e in the other run. */
  ghost predicate MovedEffect(w: Width, delta: int, t: Typing, e: Effect, e': Effect) {
    if e.Effect? then
      && e'.Effect? && |t.push| == |e.push| && |t.rpush| == |e.rpush| && |t.ls| == |e.ls|
      && e' == Effect(Shift(w, delta, e.ip), e.drop, MoveAll(w, delta, t.push, e.push), e.rdrop,
                      MoveAll(w, delta, t.rpush, e.rpush), e'.write, MoveAll(w, delta, t.ls, e.ls))
      && match e.write
         case NoWrite => e'.write.NoWrite?
         case WriteByte(a, v) => t.write.Int? && e'.write == WriteByte(Shift(w, delta, a), v)
         case WriteCell(a, v) => e'.write == WriteCell(Shift(w, delta, a), Move(w, delta, t.write, v))
    else e' == e
  }

  lemma ShiftInjective(w: Width, delta: int, x: nat, y: nat)
    requires x < Modulus(w) && y < Modulus(w)
    ensures Shift(w, delta, x) == Shift(w, delta, y) <==> x == y
  {
    hide Wrap;
    Rewrap(w, x + delta, -delta);
    Rewrap(w, y + delta, -delta);
  }

  lemma UnMoves(c: Config, delta: int, u: UnOp, k: Kind, x: nat)
    requires Bases(c, delta) && x < Modulus(c.w) && UnKind(c, u, k, x).Some?
    ensures UnVal(c.w, u, Move(c.w, delta, k, x)) == Move(c.w, delta, UnKind(c, u, k, x).value, UnVal(c.w, u, x))
  {
    hide Wrap;
    if k.Addr? && u.AddTo? {
      ShiftAdd(c.w, delta, x, u.n);
    } else if Testable(c, k, x) {
      TestMoves(c, delta, k, x);
    }
  }

  /** A whole multiple more leaves the remainder. */
  lemma SameRemainder(x: nat, e: int, p: nat)
    requires p in {1, 2, 4, 8} && e % p == 0 && 0 <= x + e
    ensures (x + e) % p == x % p
  {
  }

  lemma WholeTurns(w: Width, delta: int, q: int, p: nat)
    requires p in {1, 2, 4, 8} && delta % p == 0
    ensures (delta - q * Modulus(w)) % p == 0
  {
    var m := Modulus(w) / p;
    assert Modulus(w) == m * p;
    Turns(delta, q, m, p);
  }

  lemma Turns(delta: int, q: int, m: int, p: nat)
    requires p > 0 && delta % p == 0
    ensures (delta - q * (m * p)) % p == 0
  {
    var a := delta / p - q * m;
    assert q * (m * p) == (q * m) * p && delta == (delta / p) * p;
    assert delta - q * (m * p) == a * p;
    DivMod(p, a, 0);
  }

  lemma ShiftRemainder(w: Width, delta: int, x: nat, p: nat)
    requires p in {1, 2, 4} || (p == 8 && w.W64?)
    requires x < Modulus(w) && delta % p == 0
    ensures Shift(w, delta, x) % p == x % p
    ensures Shift(w, delta, x) - x % p == Shift(w, delta, x - x % p)
  {
    var q, s := (x + delta) / Modulus(w), Shift(w, delta, x);
    assert s == x + delta - q * Modulus(w);
    WholeTurns(w, delta, q, p);
    SameRemainder(x, delta - q * Modulus(w), p);
    RoundedShift(w, delta, x, q, s, x % p) by { assert s % p <= s; }
  }

  lemma RoundedShift(w: Width, delta: int, x: nat, q: int, s: nat, r: nat)
    requires r <= s < Modulus(w) && s == x + delta - q * Modulus(w)
    ensures s - r == Shift(w, delta, x - r)
  {
    DivMod(Modulus(w), q, s - r);
  }

  /** An address under such a mask: its low bits are the same in both runs, rounded down it is moved. */
  lemma MaskMoves(c: Config, delta: int, x: nat, y: nat)
    requires Bases(c, delta) && x < Modulus(c.w) && y < Modulus(c.w) && MaskKind(c.w, y).Some?
    ensures Bitwise(And, Shift(c.w, delta, x), y, Bits(c.w)) ==
            Move(c.w, delta, MaskKind(c.w, y).value, Bitwise(And, x, y, Bits(c.w)))
  {
    var w, n, s := c.w, Bits(c.w), Shift(c.w, delta, x);
    var z := if LowMask(w, y) then y else Modulus(w) - 1 - y;
    var k: nat := if z == 0 then 0 else if z == 1 then 1 else if z == 3 then 2 else 3;
    Pow2Small();
    Pow2Bits(w);
    assert Pow2(k) == z + 1 && delta % Pow2(k) == 0 by { WholeCells(delta, c.C(), z + 1); }
    ShiftRemainder(w, delta, x, z + 1);
    hide Pow2; hide Shift; hide Bitwise;
    if LowMask(w, y) {
      MaskLow(x, k, n);
      MaskLow(s, k, n);
    } else {
      MaskHigh(x, k, n);
      MaskHigh(s, k, n);
    }
  }

  lemma WholeCells(delta: int, cell: nat, p: nat)
    requires cell in {4, 8} && delta % cell == 0 && p in {1, 2, 4, 8} && p <= cell
    ensures delta % p == 0
  {
  }

  lemma AndMoves(c: Config, delta: int, kx: Kind, ky: Kind, x: nat, y: nat)
    requires Bases(c, delta) && x < Modulus(c.w) && y < Modulus(c.w)
    requires kx != ky && BinKind(c, Logic(And), kx, ky, x, y).Some?
    ensures BinVal(c.w, Logic(And), Move(c.w, delta, kx, x), Move(c.w, delta, ky, y))
         == Move(c.w, delta, BinKind(c, Logic(And), kx, ky, x, y).value, BinVal(c.w, Logic(And), x, y))
  {
    hide Bitwise; hide Pow2; hide MaskKind; hide Shift;
    var n := Bits(c.w);
    Pow2Bits(c.w);
    if kx.Addr? {
      MaskMoves(c, delta, x, y);
    } else {
      MaskMoves(c, delta, y, x);
      AndCommutes(x, y, n);
      AndCommutes(x, Shift(c.w, delta, y), n);
    }
  }

  /** Comparing. */
  lemma CompareMoves(c: Config, delta: int, b: BinOp, kx: Kind, ky: Kind, x: nat, y: nat)
    requires Bases(c, delta) && x < Modulus(c.w) && y < Modulus(c.w) && BinKind(c, b, kx, ky, x, y).Some?
    requires kx.Addr? || ky.Addr?
    requires b.Eq? || b.Ne?
    ensures BinVal(c.w, b, Move(c.w, delta, kx, x), Move(c.w, delta, ky, y)) == BinVal(c.w, b, x, y)
    ensures BinKind(c, b, kx, ky, x, y).value.Int?
  {
    ShiftInjective(c.w, delta, x, y);
    if InRegion(c, x) { TestMoves(c, delta, Addr, x); }
    if InRegion(c, y) { TestMoves(c, delta, Addr, y); }
    hide Shift; hide Bases; hide InRegion;
  }

  lemma BinMoves(c: Config, delta: int, b: BinOp, kx: Kind, ky: Kind, x: nat, y: nat)
    requires Bases(c, delta) && x < Modulus(c.w) && y < Modulus(c.w) && BinKind(c, b, kx, ky, x, y).Some?
    ensures BinVal(c.w, b, Move(c.w, delta, kx, x), Move(c.w, delta, ky, y))
         == Move(c.w, delta, BinKind(c, b, kx, ky, x, y).value, BinVal(c.w, b, x, y))
  {
    var w := c.w;
    if kx.Int? && ky.Int? {
    } else {
      match b
      case Plus =>
        ShiftAdd(w, delta, x, y);
        ShiftAdd(w, delta, y, x);
        hide Wrap; hide Bitwise; hide Pow2;
      case Eq => CompareMoves(c, delta, b, kx, ky, x, y);
      case Ne => CompareMoves(c, delta, b, kx, ky, x, y);
      case ULess =>
      case Minus => MinusMoves(c, delta, kx, ky, x, y);
      case Logic(And) => AndMoves(c, delta, kx, ky, x, y);
      case _ =>
    }
  }

  lemma MinusMoves(c: Config, delta: int, kx: Kind, ky: Kind, x: nat, y: nat)
    requires x < Modulus(c.w) && y < Modulus(c.w) && BinKind(c, Minus, kx, ky, x, y).Some?
    ensures BinVal(c.w, Minus, Move(c.w, delta, kx, x), Move(c.w, delta, ky, y))
         == Move(c.w, delta, BinKind(c, Minus, kx, ky, x, y).value, BinVal(c.w, Minus, x, y))
  {
    hide Wrap;
    ShiftAdd(c.w, delta, x, 0 - y);
    WrapDifference(c.w, x + delta, y + delta);
  }

  /** An instruction's operands and their kinds: stack cells, what it loads, the save stack, the two stack addresses. */
  datatype Operands = Operands(ks: seq<Kind>, rks: seq<Kind>, kv: Kind, lks: seq<Kind>,
                               args: seq<nat>, rargs: seq<nat>, v: nat, ls: seq<nat>, sp: nat, rp: nat) {
    ghost predicate Fit(c: Config, i: Instr) {
      && |ks| == |args| == Args(i) && |rks| == |rargs| == RArgs(i) && |lks| == |ls|
      && AreCells(c.w, args) && AreCells(c.w, rargs)
    }

    function Type(c: Config, i: Instr): Option<Typing>
      requires |ks| == |args| == Args(i) && |rks| == |rargs| == RArgs(i)
    {
      TypeOf(c, i, ks, rks, kv, lks, args, rargs)
    }

    /** The meaning of the moved instruction on the moved operands is the moved meaning. */
    ghost predicate Moves(c: Config, delta: int, i: Instr, next: nat)
      requires Bases(c, delta) && Fit(c, i) && Type(c, i).Some?
    {
      var w := c.w;
      MovedEffect(w, delta, Type(c, i).value,
        Act(c, i, next, args, rargs, v, ls, sp, rp),
        Act(Moved(c, delta), MoveInstr(w, delta, i), Shift(w, delta, next), MoveAll(w, delta, ks, args),
            MoveAll(w, delta, rks, rargs), Move(w, delta, kv, v), MoveAll(w, delta, lks, ls),
            Shift(w, delta, sp), Shift(w, delta, rp)))
    }
  }

  lemma MoveAllSmall(w: Width, delta: int)
    ensures MoveAll(w, delta, [], []) == []
    ensures forall k, x :: MoveAll(w, delta, [k], [x]) == [Move(w, delta, k, x)]
    ensures forall k, j, x, y :: MoveAll(w, delta, [k, j], [x, y]) == [Move(w, delta, k, x), Move(w, delta, j, y)]
    ensures forall k, j, i, x, y, z :: MoveAll(w, delta, [k, j, i], [x, y, z])
                                    == [Move(w, delta, k, x), Move(w, delta, j, y), Move(w, delta, i, z)]
  {
    hide Move;
  }

  /** Stack shuffling. */
  lemma StackMoves(c: Config, delta: int, i: Instr, next: nat, x: Operands)
    requires Bases(c, delta) && x.Fit(c, i) && x.Type(c, i).Some?
    requires i.Dup? || i.Swap? || i.Rot? || i.Over? || i.TwoDup? || i.Drop? || i.TwoDrop?
    ensures x.Moves(c, delta, i, next)
  {
    hide Wrap; hide Shift; hide MoveAll; hide Move;
    MoveAllSmall(c.w, delta);
    if i.Swap? || i.TwoDup? {
      assert x.args == [x.args[0], x.args[1]] && x.ks == [x.ks[0], x.ks[1]];
    } else if i.Dup? {
      assert x.args == [x.args[0]] && x.ks == [x.ks[0]];
    }
  }

  /** Literals, pointers and plain branches. */
  lemma PlainMoves(c: Config, delta: int, i: Instr, next: nat, x: Operands)
    requires Bases(c, delta) && x.Fit(c, i) && x.Type(c, i).Some?
    requires i.Nop? || i.Branch? || i.BadOp? || i.External? || i.Lit? || i.DictLimit? || i.SpFetch? || i.RpFetch?
    ensures x.Moves(c, delta, i, next)
  {
    hide Wrap; hide Shift; hide MoveAll; hide Testable;
    MoveAllSmall(c.w, delta);
    ShiftAdd(c.w, delta, c.base, MEMSIZE - RSTACK_BYTES - DSTACK_BYTES);
  }

  /** ?BRANCH and ?DUP. */
  lemma TestingMoves(c: Config, delta: int, i: Instr, next: nat, x: Operands)
    requires Bases(c, delta) && x.Fit(c, i) && x.Type(c, i).Some?
    requires i.QBranch? || i.QDup?
    ensures x.Moves(c, delta, i, next)
  {
    hide Wrap; hide Shift; hide MoveAll; hide Testable;
    MoveAllSmall(c.w, delta);
    TestMoves(c, delta, x.ks[0], x.args[0]);
    assert x.args == [x.args[0]] && x.ks == [x.ks[0]];
  }

  /** Arithmetic. */
  lemma AluMoves(c: Config, delta: int, i: Instr, next: nat, x: Operands)
    requires Bases(c, delta) && x.Fit(c, i) && x.Type(c, i).Some?
    requires i.Unary? || i.Binary? || i.UmStar? || i.UmDiv? || i.DPlus?
    ensures x.Moves(c, delta, i, next)
  {
    hide Wrap; hide Shift; hide UnVal; hide BinVal; hide Double; hide High; hide Low; hide Quotient; hide Remainder;
    if i.Unary? {
      UnMoves(c, delta, i.u, x.ks[0], x.args[0]);
    } else if i.Binary? {
      BinMoves(c, delta, i.b, x.ks[1], x.ks[0], x.args[1], x.args[0]);
    } else {
      DoubleMoves(c, delta, i, next, x);
    }
  }

  lemma DoubleMoves(c: Config, delta: int, i: Instr, next: nat, x: Operands)
    requires Bases(c, delta) && x.Fit(c, i) && x.Type(c, i).Some?
    requires i.UmStar? || i.UmDiv? || i.DPlus?
    ensures x.Moves(c, delta, i, next)
  {
    hide Wrap; hide Shift; hide UnVal; hide BinVal; hide Double; hide High; hide Low; hide Quotient; hide Remainder;
    hide UnKind; hide BinKind;
    assert MoveAll(c.w, delta, x.ks, x.args) == x.args;
  }

  /** @XT: an offset from the image base becomes an address. */
  lemma AtXtMoves(c: Config, delta: int, next: nat, x: Operands)
    requires Bases(c, delta) && x.Fit(c, AtXt) && x.Type(c, AtXt).Some?
    ensures x.Moves(c, delta, AtXt, next)
  {
    hide Wrap; hide Shift; hide MoveAll;
    MoveAllSmall(c.w, delta);
    ShiftAdd(c.w, delta, x.v + c.base, 0);
  }

  /** COUNT. */
  lemma CountMoves(c: Config, delta: int, next: nat, x: Operands)
    requires Bases(c, delta) && x.Fit(c, Count) && x.Type(c, Count).Some?
    ensures x.Moves(c, delta, Count, next)
  {
    hide Wrap; hide Shift; hide MoveAll; hide Move;
    MoveAllSmall(c.w, delta);
    IntStays(c.w, delta, x.v);
    AddressSteps(c.w, delta, x.args[0]);
  }

  /** Loads. */
  lemma LoadingMoves(c: Config, delta: int, i: Instr, next: nat, x: Operands)
    requires Bases(c, delta) && x.Fit(c, i) && x.Type(c, i).Some?
    requires i.CFetch? || i.Fetch? || i.VarFetch?
    ensures x.Moves(c, delta, i, next)
  {
    hide Wrap; hide Shift; hide MoveAll; hide Move;
    MoveAllSmall(c.w, delta);
    if i.CFetch? {
    } else if i.Fetch? {
    }
  }

  lemma IntStays(w: Width, delta: int, x: nat)
    ensures Move(w, delta, Int, x) == x
  {
  }

  lemma AddressSteps(w: Width, delta: int, x: nat)
    ensures Move(w, delta, Addr, Wrap(w, x + 1)) == Wrap(w, Move(w, delta, Addr, x) + 1)
  {
    hide Wrap; hide Shift;
    ShiftAdd(w, delta, x, 1);
  }

  /** Stores. */
  lemma StoringMoves(c: Config, delta: int, i: Instr, next: nat, x: Operands)
    requires Bases(c, delta) && x.Fit(c, i) && x.Type(c, i).Some?
    requires i.CStore? || i.StoreCell? || i.PlusStore? || i.VarStore? || i.LZero?
    ensures x.Moves(c, delta, i, next)
  {
    hide Wrap; hide Shift; hide UnVal; hide BinVal; hide Double; hide High; hide Low; hide Quotient; hide Remainder;
    if i.PlusStore? {
      PlusStoreMoves(c, delta, next, x);
    } else if i.CStore? {
    } else if i.StoreCell? {
    }
  }

  lemma PlusStoreMoves(c: Config, delta: int, next: nat, x: Operands)
    requires Bases(c, delta) && x.Fit(c, PlusStore) && x.Type(c, PlusStore).Some?
    ensures x.Moves(c, delta, PlusStore, next)
  {
    hide Wrap; hide Shift; hide UnVal; hide BinVal; hide Double; hide High; hide Low; hide Quotient; hide Remainder;
    ShiftAdd(c.w, delta, x.v, x.args[1]);
    ShiftAdd(c.w, delta, x.args[1], x.v);
  }

  /** Locals, and their failures. */
  lemma LocalMoves(c: Config, delta: int, i: Instr, next: nat, x: Operands)
    requires Bases(c, delta) && x.Fit(c, i) && x.Type(c, i).Some?
    requires i.LSave? || i.LRestore?
    ensures x.Moves(c, delta, i, next)
  {
    hide Wrap; hide Shift; hide UnVal; hide BinVal; hide Double; hide High; hide Low; hide Quotient; hide Remainder;
    ShiftAdd(c.w, delta, c.base, x.v);
  }

  /** Calls and returns. */
  lemma ReturnMoves(c: Config, delta: int, i: Instr, next: nat, x: Operands)
    requires Bases(c, delta) && x.Fit(c, i) && x.Type(c, i).Some?
    requires i.Exit? || i.RFrom? || i.RFetch? || i.ToR? || i.Execute? || i.Call? || i.DoDoes? || i.DoVar?
    ensures x.Moves(c, delta, i, next)
  {
    hide Wrap; hide Shift; hide UnVal; hide BinVal; hide Double; hide High; hide Low; hide Quotient; hide Remainder;
  }

  /** Counted loops. */
  lemma LoopMoves(c: Config, delta: int, i: Instr, next: nat, x: Operands)
    requires Bases(c, delta) && x.Fit(c, i) && x.Type(c, i).Some?
    requires i.Loop? || i.QDo?
    ensures x.Moves(c, delta, i, next)
  {
    hide Wrap; hide Shift; hide UnVal; hide BinVal; hide Double; hide High; hide Low; hide Quotient; hide Remainder;
    if i.Loop? {
      ShiftAdd(c.w, delta, x.rargs[0], 1);
      ShiftInjective(c.w, delta, Wrap(c.w, x.rargs[0] + 1), x.rargs[1]);
    } else {
      ShiftInjective(c.w, delta, x.args[0], x.args[1]);
    }
  }

  lemma TestMoves(c: Config, delta: int, k: Kind, x: nat)
    requires Bases(c, delta) && Testable(c, k, x)
    ensures Move(c.w, delta, k, x) == 0 <==> x == 0
  {
  }

  lemma ActMoves(c: Config, delta: int, i: Instr, next: nat, x: Operands)
    requires Bases(c, delta) && x.Fit(c, i) && x.Type(c, i).Some?
    ensures x.Moves(c, delta, i, next)
  {
    hide Operands.Moves;
    match i
    case Unary(_) | Binary(_) | UmStar | UmDiv | DPlus => AluMoves(c, delta, i, next, x);
    case AtXt => AtXtMoves(c, delta, next, x);
    case Count => CountMoves(c, delta, next, x);
    case CFetch | Fetch | VarFetch(_) => LoadingMoves(c, delta, i, next, x);
    case CStore | StoreCell | PlusStore | VarStore(_) | LZero(_) => StoringMoves(c, delta, i, next, x);
    case LSave(_) | LRestore(_) => LocalMoves(c, delta, i, next, x);
    case Exit | RFrom | RFetch | ToR | Execute | Call(_) | DoDoes(_, _) | DoVar(_) => ReturnMoves(c, delta, i, next, x);
    case Loop(_) | QDo(_) => LoopMoves(c, delta, i, next, x);
    case Dup | Swap | Rot | Over | TwoDup | Drop | TwoDrop => StackMoves(c, delta, i, next, x);
    case QBranch(_) | QDup => TestingMoves(c, delta, i, next, x);
    case _ => PlainMoves(c, delta, i, next, x);
  }
}
