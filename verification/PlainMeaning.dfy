/** The plain machine's step, worked out instruction by instruction from the meaning table. */
module PlainMeaning {
  import opened Arithmetic
  import opened Cells
  import opened Instructions
  import opened PlainMachine

  lemma CellsTwo(w: Width, m: Memory, a: int)
    ensures CellsAt(w, m, a, 2) == [Load(w, m, a), Load(w, m, a + CellBytes(w))]
  {
  }

  lemma PushTwo(w: Width, m: Memory, top: int, x: nat, y: nat)
    ensures PushCells(w, m, top, [y]) == Store(w, m, top - CellBytes(w), y)
    ensures PushCells(w, m, top, [x, y])
         == Store(w, Store(w, m, top - CellBytes(w), y), top - 2 * CellBytes(w), x)
  {
    assert [x, y][1..] == [y] && [y][1..] == [];
  }

  lemma PushThree(w: Width, m: Memory, top: int, x: nat, y: nat, z: nat)
    ensures PushCells(w, m, top, [x, y, z])
         == Store(w, Store(w, Store(w, m, top - CellBytes(w), z), top - 2 * CellBytes(w), y), top - 3 * CellBytes(w), x)
  {
    PushTwo(w, m, top, y, z);
    assert [x, y, z][1..] == [y, z];
  }

  /** The cell a one-cell push leaves on top. */
  function Pushed(c: Config, p: Plain, i: Instr): nat {
    match i
    case Lit(v, _) => v
    case DictLimit => Wrap(c.w, c.DGuard())
    case Dup | QDup => Load(c.w, p.mem, p.sp)
    case Over => Load(c.w, p.mem, p.sp + c.C())
    case RFetch => Load(c.w, p.mem, p.rp)
    case VarFetch(a) => Load(c.w, p.mem, a)
    case _ => 0
  }

  predicate IsPush(i: Instr) {
    (i.Lit? && !i.spills) || i.DictLimit? || i.Dup? || i.Over? || i.QDup? || i.RFetch? || i.VarFetch?
  }

  /** Pushing x after taking drop cells, by a handler that does not spill. */
  lemma ApplyOne(c: Config, p: Plain, i: Instr, next: nat, ip: nat, drop: nat, x: nat)
    requires drop <= 2 && !Spills(i)
    ensures
      var sp := p.sp + Bytes(c.w, drop - 1);
      Apply(c, p, i, next, Stack(ip, drop, [x], p.ls)) ==
      if drop == 0 && p.sp < c.DLimit() then Trap(-3)
      else Running(Plain(ip, sp, p.rp, Store(c.w, p.mem, sp, x), p.ls))
    ensures Apply(c, p, i, next, Undefined) == NoMeaning
  {
    hide Store; hide Wrap; hide Config.GuardCode; hide Config.DLimit; hide Config.RFloor;
    PushTwo(c.w, p.mem, p.sp + Bytes(c.w, drop), 0, x);
  }

  /** Taking cells and storing at most one to memory. */
  lemma ApplyWrite(c: Config, p: Plain, i: Instr, next: nat, ip: nat, drop: nat, x: Write)
    requires !Spills(i)
    ensures Apply(c, p, i, next, Effect(ip, drop, [], 0, [], x, p.ls)) ==
      if WriteTrap(c, x) != 0 then Trap(WriteTrap(c, x))
      else Running(Plain(ip, p.sp + Bytes(c.w, drop), p.rp, DoWrite(c.w, p.mem, x), p.ls))
  {
    hide WriteTrap; hide DoWrite;
  }

  lemma ApplyReturn(c: Config, p: Plain, i: Instr, next: nat, ip: nat, drop: nat, x: nat)
    requires !Spills(i)
    ensures Apply(c, p, i, next, Effect(ip, drop, [], 0, [x], NoWrite, p.ls)) ==
      if p.rp - c.C() < c.RFloor() then Trap(-5)
      else Running(Plain(ip, p.sp + Bytes(c.w, drop), p.rp - c.C(), Store(c.w, p.mem, p.rp - c.C(), x), p.ls))
  {
    hide Store;
    PushTwo(c.w, p.mem, p.rp, 0, x);
  }

  lemma PushMeaning(c: Config, p: Plain, i: Instr, next: nat)
    requires IsPush(i)
    ensures Exec(c, p, i, next) ==
      if i.VarFetch? && c.GuardCode(i.a, c.C()) != 0 then Trap(c.GuardCode(i.a, c.C()))
      else if i.QDup? && Pushed(c, p, i) == 0 then Running(p.(ip := next))
      else if p.sp < c.DLimit() then Trap(-3)
      else Running(Plain(next, p.sp - c.C(), p.rp, Store(c.w, p.mem, p.sp - c.C(), Pushed(c, p, i)), p.ls))
  {
    hide Load; hide Store; hide Get; hide Wrap; hide UnVal; hide BinVal; hide Config.GuardCode; hide Config.DLimit;
    hide Apply;
    CellsTwo(c.w, p.mem, p.sp);
    ApplyOne(c, p, i, next, next, 0, Pushed(c, p, i));
    if i.QDup? {
      ApplyWrite(c, p, i, next, next, 0, NoWrite);
    } else if i.VarFetch? {
    } else if i.RFetch? {
    } else if i.Over? {
    }
  }

  lemma CellsDeep(w: Width, m: Memory, a: int)
    ensures CellsAt(w, m, a, 3) == [Load(w, m, a), Load(w, m, a + CellBytes(w)), Load(w, m, a + 2 * CellBytes(w))]
    ensures CellsAt(w, m, a, 4) == CellsAt(w, m, a, 3) + [Load(w, m, a + 3 * CellBytes(w))]
  {
    CellsTwo(w, m, a + CellBytes(w));
    CellsTwo(w, m, a + 2 * CellBytes(w));
    assert CellsAt(w, m, a + CellBytes(w), 3) == [Load(w, m, a + CellBytes(w))]
        + CellsAt(w, m, a + 2 * CellBytes(w), 2);
  }

  lemma TwoPushMeaning(c: Config, p: Plain, i: Instr, next: nat)
    requires i.TwoDup? || i.Count?
    ensures
      var a := Load(c.w, p.mem, p.sp);
      Exec(c, p, i, next) ==
      if i.TwoDup? then
        if p.sp - c.C() < c.DLimit() then Trap(-3)
        else Running(Plain(next, p.sp - 2 * c.C(), p.rp,
                           PushCells(c.w, p.mem, p.sp, [a, Load(c.w, p.mem, p.sp + c.C())]), p.ls))
      else if c.GuardCode(a, 1) != 0 then Trap(c.GuardCode(a, 1))
      else if p.sp < c.DLimit() then Trap(-3)
      else Running(Plain(next, p.sp - c.C(), p.rp,
                         PushCells(c.w, p.mem, p.sp + c.C(), [Get(p.mem, a), Wrap(c.w, a + 1)]), p.ls))
  {
    hide Load; hide Store; hide Get; hide Wrap; hide UnVal; hide BinVal; hide Double; hide High; hide Low;
    hide Quotient; hide Remainder; hide LocalsFailed; hide Config.GuardCode; hide Config.DLimit; hide Config.RFloor;
    CellsTwo(c.w, p.mem, p.sp);
  }

  predicate IsReplace(i: Instr) {
    i.Unary? || i.Binary? || i.CFetch? || i.Fetch? || i.AtXt?
  }

  /** The cell that replaces the instruction's arguments. */
  function Replaced(c: Config, p: Plain, i: Instr): nat
    requires IsReplace(i)
  {
    var x, y := Load(c.w, p.mem, p.sp), Load(c.w, p.mem, p.sp + c.C());
    match i
    case Unary(u) => UnVal(c.w, u, x)
    case Binary(b) => BinVal(c.w, b, y, x)
    case CFetch => Get(p.mem, x)
    case Fetch => Load(c.w, p.mem, x)
    case AtXt => Wrap(c.w, Load(c.w, p.mem, x) + c.base)
  }

  lemma ReplaceMeaning(c: Config, p: Plain, i: Instr, next: nat)
    requires IsReplace(i)
    ensures
      var x := Load(c.w, p.mem, p.sp);
      var sp := p.sp + (if i.Binary? then c.C() else 0);
      Exec(c, p, i, next) ==
      if i.CFetch? && c.GuardCode(x, 1) != 0 then Trap(c.GuardCode(x, 1))
      else if (i.Fetch? || i.AtXt?) && c.GuardCode(x, c.C()) != 0 then Trap(c.GuardCode(x, c.C()))
      else if i.Binary? && (i.b.LShift? || i.b.RShift?) && x >= Bits(c.w) then NoMeaning
      else Running(Plain(next, sp, p.rp, Store(c.w, p.mem, sp, Replaced(c, p, i)), p.ls))
  {
    hide Load; hide Store; hide Get; hide Wrap; hide UnVal; hide BinVal; hide Config.GuardCode; hide Config.DLimit;
    hide Apply;
    CellsTwo(c.w, p.mem, p.sp);
    ApplyOne(c, p, i, next, next, Args(i), Replaced(c, p, i));
  }

  lemma ReplacedFits(c: Config, p: Plain, i: Instr)
    requires IsReplace(i)
    ensures Replaced(c, p, i) < Modulus(c.w)
  {
    LoadBound(c.w, p.mem, Load(c.w, p.mem, p.sp));
  }

  predicate IsPop(i: Instr) {
    i.Drop? || i.TwoDrop? || i.QBranch? || i.VarStore? || i.CStore? || i.StoreCell? || i.PlusStore?
  }

  /** What a popping instruction writes. */
  function Popped(c: Config, p: Plain, i: Instr): Write
    requires IsPop(i)
  {
    var x, y := Load(c.w, p.mem, p.sp), Load(c.w, p.mem, p.sp + c.C());
    match i
    case VarStore(a) => WriteCell(a, x)
    case CStore => WriteByte(x, y % 256)
    case StoreCell => WriteCell(x, y)
    case PlusStore => WriteCell(x, Wrap(c.w, Load(c.w, p.mem, x) + y))
    case _ => NoWrite
  }

  lemma PopMeaning(c: Config, p: Plain, i: Instr, next: nat)
    requires IsPop(i)
    ensures
      var x := Popped(c, p, i);
      Exec(c, p, i, next) ==
      if WriteTrap(c, x) != 0 then Trap(WriteTrap(c, x))
      else Running(Plain(if i.QBranch? && Load(c.w, p.mem, p.sp) == 0 then i.target else next,
                         p.sp + Bytes(c.w, Args(i)), p.rp, DoWrite(c.w, p.mem, x), p.ls))
  {
    hide Load; hide Store; hide Get; hide Wrap; hide UnVal; hide BinVal; hide Config.GuardCode; hide Config.DLimit;
    hide Apply; hide DoWrite;
    CellsTwo(c.w, p.mem, p.sp);
    var ip := if i.QBranch? && Load(c.w, p.mem, p.sp) == 0 then i.target else next;
    ApplyWrite(c, p, i, next, ip, Args(i), Popped(c, p, i));
    if i.PlusStore? {
    } else if i.StoreCell? {
    } else if i.CStore? {
    } else if i.VarStore? {
    }
  }

  lemma PermuteMeaning(c: Config, p: Plain, i: Instr, next: nat)
    requires i.Swap? || i.Rot?
    ensures
      var x, y, z := Load(c.w, p.mem, p.sp), Load(c.w, p.mem, p.sp + c.C()), Load(c.w, p.mem, p.sp + 2 * c.C());
      Exec(c, p, i, next) ==
      Running(Plain(next, p.sp, p.rp,
                    if i.Swap? then PushCells(c.w, p.mem, p.sp + 2 * c.C(), [y, x])
                    else PushCells(c.w, p.mem, p.sp + 3 * c.C(), [z, x, y]), p.ls))
  {
    hide Load; hide Store; hide Get; hide Wrap; hide UnVal; hide BinVal; hide Double; hide High; hide Low;
    hide Quotient; hide Remainder; hide LocalsFailed; hide Config.GuardCode; hide Config.DLimit; hide Config.RFloor;
    CellsTwo(c.w, p.mem, p.sp);
    CellsDeep(c.w, p.mem, p.sp);
  }

  predicate IsSpilledPush(i: Instr) {
    (i.Lit? && i.spills) || i.SpFetch? || i.RpFetch?
  }

  function SpilledPush(c: Config, p: Plain, i: Instr): nat
    requires IsSpilledPush(i)
  {
    match i
    case Lit(v, _) => v
    case SpFetch => Wrap(c.w, p.sp)
    case RpFetch => Wrap(c.w, p.rp)
  }

  lemma SpilledPushMeaning(c: Config, p: Plain, i: Instr, next: nat)
    requires IsSpilledPush(i)
    ensures Exec(c, p, i, next) ==
      if p.sp - c.C() < c.DLimit() then Trap(-3)
      else Running(Plain(next, p.sp - c.C(), p.rp, Store(c.w, p.mem, p.sp - c.C(), SpilledPush(c, p, i)), p.ls))
  {
    hide Load; hide Store; hide Get; hide Wrap; hide UnVal; hide BinVal; hide Double; hide High; hide Low;
    hide Quotient; hide Remainder; hide LocalsFailed; hide Config.GuardCode; hide Config.DLimit; hide Config.RFloor;
    PushTwo(c.w, p.mem, p.sp, 0, SpilledPush(c, p, i));
  }

  /** UM*, UM/MOD and D+: the double-cell result over the cells left. */
  function DoubleResult(c: Config, p: Plain, i: Instr): (nat, nat)
    requires i.UmStar? || i.DPlus? || (i.UmDiv? && Load(c.w, p.mem, p.sp) != 0)
  {
    var w, C := c.w, c.C();
    var x, y, z, u :=
      Load(w, p.mem, p.sp), Load(w, p.mem, p.sp + C), Load(w, p.mem, p.sp + 2 * C), Load(w, p.mem, p.sp + 3 * C);
    match i
    case UmStar => (High(w, y * x), Low(w, y * x))
    case UmDiv => (Quotient(w, Double(w, y, z), x), Remainder(w, Double(w, y, z), x))
    case DPlus => var d := Double(w, x, y) + Double(w, z, u); (High(w, d), Low(w, d))
  }

  lemma DoubleMeaning(c: Config, p: Plain, i: Instr, next: nat)
    requires i.UmStar? || i.UmDiv? || i.DPlus?
    ensures
      Exec(c, p, i, next) ==
      if p.sp < c.DLimit() then Trap(-3)
      else if i.UmDiv? && Load(c.w, p.mem, p.sp) == 0 then Trap(-10)
      else
        var (hi, lo) := DoubleResult(c, p, i);
        var top := p.sp + Bytes(c.w, Args(i));
        Running(Plain(next, top - 2 * c.C(), p.rp, PushCells(c.w, p.mem, top, [hi, lo]), p.ls))
  {
    hide Load; hide Store; hide Get; hide Wrap; hide UnVal; hide BinVal; hide Double; hide High; hide Low;
    hide Quotient; hide Remainder; hide LocalsFailed; hide Config.GuardCode; hide Config.DLimit; hide Config.RFloor;
    CellsTwo(c.w, p.mem, p.sp);
    CellsDeep(c.w, p.mem, p.sp);
  }

  lemma PointerMeaning(c: Config, p: Plain, i: Instr, next: nat)
    requires i.SpStore? || i.RpStore?
    ensures
      var x := Load(c.w, p.mem, p.sp);
      Exec(c, p, i, next) ==
      if p.sp < c.DLimit() then Trap(-3)
      else if i.SpStore? then Running(p.(ip := next, sp := x))
      else Running(p.(ip := next, sp := p.sp + c.C(), rp := x))
  {
    hide Load; hide Store; hide Get; hide Wrap; hide UnVal; hide BinVal; hide Double; hide High; hide Low;
    hide Quotient; hide Remainder; hide LocalsFailed; hide Config.GuardCode; hide Config.DLimit; hide Config.RFloor;
  }

  /** The LSAVE or LRESTORE cannot: the save stack is full or empty. */
  predicate LocalsFail(p: Plain, i: Instr) {
    (i.LSave? && |p.ls| >= LSAVE_MAX) || (i.LRestore? && p.ls == [])
  }

  lemma LocalsFailMeaning(c: Config, p: Plain, i: Instr, next: nat)
    requires c.Valid() && LocalsFail(p, i)
    ensures
      var w, C := c.w, c.C();
      var word, code := Load(w, p.mem, c.base + 8), if i.LSave? then 1 else 2;
      Exec(c, p, i, next) ==
      if p.sp < c.DLimit() then Trap(-3)
      else if word == 0 then Halted(70)
      else if p.rp - C < c.RFloor() then Trap(-5)
      else Running(Plain(Wrap(w, c.base + word), p.sp - C, p.rp - C,
                         Store(w, Store(w, p.mem, p.sp - C, code), p.rp - C, next), p.ls))
  {
    hide Load; hide Store; hide Get; hide Wrap; hide UnVal; hide BinVal; hide Double; hide High; hide Low;
    hide Quotient; hide Remainder;
    var code := if i.LSave? then 1 else 2;
    PushTwo(c.w, p.mem, p.sp, 0, code);
    PushTwo(c.w, Store(c.w, p.mem, p.sp - c.C(), code), p.rp, 0, next);
    assert c.GuardCode(c.base + 8, c.C()) == 0;
  }

  lemma LocalsMeaning(c: Config, p: Plain, i: Instr, next: nat)
    requires (i.LZero? || i.LSave? || i.LRestore?) && !LocalsFail(p, i)
    ensures
      var w, t := c.w, c.GuardCode(i.a, c.C());
      Exec(c, p, i, next) ==
      if t != 0 then Trap(t)
      else match i
        case LSave(a) => Running(p.(ip := next, ls := p.ls + [Load(w, p.mem, a)]))
        case LRestore(a) =>
          var k := |p.ls| - 1;
          Running(p.(ip := next, mem := Store(w, p.mem, a, p.ls[k]), ls := p.ls[..k]))
        case LZero(a) => Running(p.(ip := next, mem := Store(w, p.mem, a, 0)))
  {
    hide Load; hide Store; hide Get; hide Wrap; hide UnVal; hide BinVal; hide Double; hide High; hide Low;
    hide Quotient; hide Remainder; hide LocalsFailed; hide Config.GuardCode; hide Config.DLimit; hide Config.RFloor;
  }

  predicate IsReturnPush(i: Instr) {
    i.Call? || i.DoDoes? || i.Execute? || i.ToR?
  }

  lemma ReturnPushMeaning(c: Config, p: Plain, i: Instr, next: nat)
    requires IsReturnPush(i)
    ensures
      var x := Load(c.w, p.mem, p.sp);
      var pushed := match i case Call(_) => next case DoDoes(body, _) => body case Execute => next case _ => x;
      var ip := match i case Call(t) => t case DoDoes(_, t) => t case Execute => x case _ => next;
      Exec(c, p, i, next) ==
      if p.rp - c.C() < c.RFloor() then Trap(-5)
      else Running(Plain(ip, p.sp + Bytes(c.w, Args(i)), p.rp - c.C(), Store(c.w, p.mem, p.rp - c.C(), pushed), p.ls))
  {
    hide Load; hide Store; hide Get; hide Wrap; hide UnVal; hide BinVal; hide Config.GuardCode; hide Config.DLimit;
    hide Apply;
    var x := Load(c.w, p.mem, p.sp);
    match i
    case Call(t) => ApplyReturn(c, p, i, next, t, 0, next);
    case DoDoes(body, t) => ApplyReturn(c, p, i, next, t, 0, body);
    case Execute => ApplyReturn(c, p, i, next, x, 1, next);
    case ToR => ApplyReturn(c, p, i, next, next, 1, x);
  }

  lemma LoopMeaning(c: Config, p: Plain, i: Instr, next: nat)
    requires i.Loop? || i.QDo?
    ensures
      var w, C := c.w, c.C();
      Exec(c, p, i, next) ==
      match i
      case Loop(after) =>
        var n := Wrap(w, Load(w, p.mem, p.rp) + 1);
        if n == Load(w, p.mem, p.rp + C) then Running(p.(ip := after, rp := p.rp + 2 * C))
        else Running(p.(ip := next, mem := Store(w, p.mem, p.rp, n)))
      case QDo(after) =>
        var start, limit := Load(w, p.mem, p.sp), Load(w, p.mem, p.sp + C);
        if start == limit then Running(p.(ip := next, sp := p.sp + 2 * C))
        else if p.rp - 2 * C < c.RFloor() then Trap(-5)
        else Running(Plain(after, p.sp + 2 * C, p.rp - 2 * C,
                           Store(w, Store(w, p.mem, p.rp - C, limit), p.rp - 2 * C, start), p.ls))
  {
    hide Load; hide Store; hide Get; hide Wrap; hide UnVal; hide BinVal; hide Double; hide High; hide Low;
    hide Quotient; hide Remainder; hide LocalsFailed; hide Config.GuardCode; hide Config.DLimit; hide Config.RFloor;
    CellsTwo(c.w, p.mem, p.sp);
    CellsTwo(c.w, p.mem, p.rp);
    PushTwo(c.w, p.mem, p.rp + c.C(), 0, Wrap(c.w, Load(c.w, p.mem, p.rp) + 1));
    PushTwo(c.w, p.mem, p.rp, Load(c.w, p.mem, p.sp), Load(c.w, p.mem, p.sp + c.C()));
  }

  lemma ReturnMeaning(c: Config, p: Plain, i: Instr, next: nat)
    requires i.Nop? || i.Branch? || i.Exit? || i.RFrom? || i.DoVar?
    ensures
      var w, C := c.w, c.C();
      var r := Load(w, p.mem, p.rp);
      Exec(c, p, i, next) ==
      match i
      case Nop => Running(p.(ip := next))
      case Branch(t) => Running(p.(ip := t))
      case Exit => Running(p.(ip := r, rp := p.rp + C))
      case RFrom =>
        if p.sp < c.DLimit() then Trap(-3)
        else Running(Plain(next, p.sp - C, p.rp + C, Store(w, p.mem, p.sp - C, r), p.ls))
      case DoVar(body) =>
        if p.sp < c.DLimit() then Trap(-3)
        else Running(Plain(r, p.sp - C, p.rp + C, Store(w, p.mem, p.sp - C, body), p.ls))
  {
    hide Load; hide Store; hide Get; hide Wrap; hide UnVal; hide BinVal; hide Double; hide High; hide Low;
    hide Quotient; hide Remainder; hide LocalsFailed; hide Config.GuardCode; hide Config.DLimit; hide Config.RFloor;
    PushTwo(c.w, p.mem, p.sp, 0, Load(c.w, p.mem, p.rp));
    if i.DoVar? { PushTwo(c.w, p.mem, p.sp, 0, i.body); }
  }

  lemma StopMeaning(c: Config, p: Plain, i: Instr, next: nat)
    requires i.BadOp? || i.External?
    ensures Exec(c, p, i, next) == if i.BadOp? then Trap(-256) else HostCall(i.selector)
  {
  }

  /** D+'s carry: the low halves' sum wrapped exactly when it is below one of them. */
  lemma CarryByCompare(w: Width, h1: nat, l1: nat, h2: nat, l2: nat)
    requires h1 < Modulus(w) && l1 < Modulus(w) && h2 < Modulus(w) && l2 < Modulus(w)
    ensures
      var d := Double(w, h2, l2) + Double(w, h1, l1);
      var l := Wrap(w, l1 + l2);
      l == Low(w, d) && Wrap(w, Wrap(w, h1 + h2) + if l < l2 then 1 else 0) == High(w, d)
  {
    var M, k := Modulus(w), if l1 + l2 < Modulus(w) then 0 else 1;
    var d := Double(w, h2, l2) + Double(w, h1, l1);
    assert d == (h1 + h2 + k) * M + (l1 + l2 - k * M);
    DivMod(M, h1 + h2 + k, l1 + l2 - k * M);
    DivMod(M, k, l1 + l2 - k * M);
    WrapAdd(w, h1 + h2, k);
  }

  lemma WrapAdd(w: Width, x: int, y: int)
    ensures Wrap(w, Wrap(w, x) + y) == Wrap(w, x + y)
  {
    var M := Modulus(w);
    var q, r := x / M, x % M;
    var p := (r + y) / M;
    assert x + y == (p + q) * M + (r + y) % M;
    DivMod(M, p + q, (r + y) % M);
  }
}
