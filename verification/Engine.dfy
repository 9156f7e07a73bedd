/**
 The engine: virtual_machine()'s registers and handlers (engine/cv8.c:843-1110), with the top of
 the data stack in tos and dsp one cell above the logical top. Every handler is proved against
 the plain stack machine, so the cache is invisible to any CacheSafe program.
 */
module Engine {
  import opened Arithmetic
  import opened Cells
  import opened Instructions
  import opened PlainMachine
  import opened PlainMeaning

  /** The plain machine stores x at sp; the engine may keep it in a register, leaving the cell dead. */
  lemma Settle(w: Width, fm: Memory, pm: Memory, lo: int, sp: int, x: nat)
    requires x < Modulus(w) && lo <= sp
    requires AgreeOutside(fm, pm, lo, sp + CellBytes(w))
    ensures Load(w, Store(w, pm, sp, x), sp) == x
    ensures AgreeOutside(fm, Store(w, pm, sp, x), lo, sp + CellBytes(w))
  {
    LoadStore(w, pm, sp, x);
    StoreDead(w, fm, pm, lo, sp + CellBytes(w), sp, x);
  }

  /** SPILL brings the top cell's place up to date. */
  lemma Spilled(w: Width, fm: Memory, pm: Memory, lo: int, sp: int)
    requires AgreeOutside(fm, pm, lo, sp + CellBytes(w))
    ensures AgreeOutside(Store(w, fm, sp, Load(w, pm, sp)), pm, lo, sp)
  {
    var v := Load(w, pm, sp);
    StoreCovers(w, fm, pm, lo, sp, v);
    forall x
      ensures Get(Store(w, pm, sp, v), x) == Get(pm, x)
    {
      StoreLoaded(pm, sp, CellBytes(w), x);
    }
  }

  /** A double result stored low half first or high half first: the high half then goes to a register. */
  lemma StoreHalves(w: Width, fm: Memory, pm: Memory, lo: int, sp: int, hi: nat, low: nat)
    requires hi < Modulus(w) && lo <= sp && AgreeOutside(fm, pm, lo, sp)
    ensures
      var fm' := Store(w, Store(w, fm, sp, hi), sp + CellBytes(w), low);
      var pm' := Store(w, Store(w, pm, sp + CellBytes(w), low), sp, hi);
      Load(w, fm', sp) == hi == Load(w, pm', sp) && AgreeOutside(fm', pm', lo, sp + CellBytes(w))
  {
    hide Load; hide Store; hide Get; hide AgreeOutside;
    var C := CellBytes(w);
    Widen(fm, pm, lo, sp, sp + C);
    StoreDead(w, fm, pm, lo, sp + C, sp, hi);
    StoreAgree(w, Store(w, fm, sp, hi), pm, lo, sp + C, sp + C, low);
    LoadApart(w, Store(w, fm, sp, hi), sp + C, low, sp);
    LoadStore(w, fm, sp, hi);
    Settle(w, Store(w, Store(w, fm, sp, hi), sp + C, low), Store(w, pm, sp + C, low), lo, sp, hi);
  }

  class VirtualMachine {
    const c: Config
    var ip: nat
    var rp: int
    var dsp: int
    var tos: nat
    var mem: Memory
    const lsaveStack: array<nat>
    var lsaveSp: nat

    ghost predicate Valid()
      reads this
    {
      c.Valid() && lsaveStack.Length == LSAVE_MAX && lsaveSp <= LSAVE_MAX
    }

    /** Everything but ip stands for p. */
    ghost predicate Holds(p: Plain)
      reads this, lsaveStack
    {
      && Valid()
      && rp == p.rp && dsp == p.sp + c.C() && tos == Load(c.w, p.mem, p.sp)
      && DeadLo(c) <= p.sp <= c.DTop() && c.RFloor() <= p.rp
      && AgreeOutside(mem, p.mem, DeadLo(c), dsp)
      && lsaveStack[..lsaveSp] == p.ls
    }

    ghost predicate Refines(p: Plain)
      reads this, lsaveStack
    {
      Holds(p) && ip == p.ip
    }

    ghost predicate Matches(out: Outcome<()>, o: Outcome<Plain>)
      reads this, lsaveStack
    {
      match o
      case Running(q) => out.Running? && Refines(q)
      case Trap(code) => out == Trap(code)
      case Halted(s) => out == Halted(s)
      case HostCall(s) => out == HostCall(s)
      case NoMeaning => out == NoMeaning
    }

    /** No byte below the data stack's guard page, or above the return stack, has changed. */
    ghost predicate StackOnly(m: Memory, m': Memory) {
      AgreeOutside(m, m', c.DLimit(), c.RTop())
    }

    /** i has been fetched and ip moved past it. */
    ghost predicate Fetched(p: Plain, i: Instr)
      reads this, lsaveStack
    {
      Holds(p) && InstrSafe(c, p, i) && InstrFits(c, i)
    }

    /** main(): ip at the image's start, both stacks at their tops, the base on the data stack. */
    constructor Boot(c: Config, image: Memory)
      requires c.Valid()
      ensures Refines(Booted(c, image)) && fresh(lsaveStack) && this.c == c
    {
      this.c := c;
      ip := c.base;
      rp := c.base + MEMSIZE;
      var d := c.base + MEMSIZE - RSTACK_BYTES - c.page - 2 * c.C();
      var m := Store(c.w, image, d, c.base);
      mem := m;
      tos := Load(c.w, m, d);
      dsp := d + c.C();
      lsaveStack := new nat[LSAVE_MAX](_ => 0);
      lsaveSp := 0;
    }

    // ---- the macros --------------------------------------------------------

    /** PUSHT: the cached cell to memory, x in its place. */
    method PushT(x: nat) returns (trap: int)
      modifies this`dsp, this`tos, this`mem
      ensures trap == c.GuardCode(old(dsp) - c.C(), c.C())
      ensures trap != 0 ==> mem == old(mem)
      ensures trap == 0 ==>
        dsp == old(dsp) - c.C() && tos == x && mem == Store(c.w, old(mem), dsp, old(tos))
    {
      dsp := dsp - c.C();
      trap := c.GuardCode(dsp, c.C());
      if trap == 0 {
        mem := Store(c.w, mem, dsp, tos);
        tos := x;
      }
    }

    /** POPT. */
    method PopT()
      modifies this`dsp, this`tos
      ensures tos == Load(c.w, mem, old(dsp)) && dsp == old(dsp) + c.C()
    {
      tos := Load(c.w, mem, dsp);
      dsp := dsp + c.C();
    }

    /** SPILL. */
    method Spill() returns (trap: int)
      modifies this`dsp, this`mem
      ensures trap == c.GuardCode(old(dsp) - c.C(), c.C())
      ensures trap != 0 ==> mem == old(mem)
      ensures trap == 0 ==> dsp == old(dsp) - c.C() && mem == Store(c.w, old(mem), dsp, tos)
    {
      dsp := dsp - c.C();
      trap := c.GuardCode(dsp, c.C());
      if trap == 0 {
        mem := Store(c.w, mem, dsp, tos);
      }
    }

    /** PUSH, after a SPILL. */
    method Push(x: nat) returns (trap: int)
      modifies this`dsp, this`mem
      ensures trap == c.GuardCode(old(dsp) - c.C(), c.C())
      ensures trap != 0 ==> mem == old(mem)
      ensures trap == 0 ==> dsp == old(dsp) - c.C() && mem == Store(c.w, old(mem), dsp, x)
    {
      dsp := dsp - c.C();
      trap := c.GuardCode(dsp, c.C());
      if trap == 0 {
        mem := Store(c.w, mem, dsp, x);
      }
    }

    /** RPUSH. */
    method RPush(x: nat) returns (trap: int)
      modifies this`rp, this`mem
      ensures trap == c.GuardCode(old(rp) - c.C(), c.C())
      ensures trap != 0 ==> mem == old(mem)
      ensures trap == 0 ==> rp == old(rp) - c.C() && mem == Store(c.w, old(mem), rp, x)
    {
      rp := rp - c.C();
      trap := c.GuardCode(rp, c.C());
      if trap == 0 {
        mem := Store(c.w, mem, rp, x);
      }
    }

    // ---- handlers ----------------------------------------------------------

    /** The handlers that PUSHT one cell. */
    method Pushing(ghost p: Plain, i: Instr) returns (out: Outcome<()>)
      requires Fetched(p, i) && IsPush(i)
      modifies this
      ensures Matches(out, Exec(c, p, i, old(ip)))
      ensures out.Trap? ==> StackOnly(old(mem), mem)
    {
      hide Load; hide Store; hide Get; hide Exec;
      ghost var w, lo, sp := c.w, DeadLo(c), p.sp;
      PushMeaning(c, p, i, ip);
      Spilled(w, mem, p.mem, lo, sp);
      LoadAgree(w, mem, p.mem, lo, dsp, dsp);
      LoadAgree(w, mem, p.mem, lo, dsp, rp);
      LoadBound(w, p.mem, sp); LoadBound(w, p.mem, dsp); LoadBound(w, p.mem, rp);
      var x := 0;
      match i {
        case Lit(v, _) => x := v;
        case DictLimit => x := Wrap(c.w, c.DGuard());
        case Dup => x := tos;
        case Over => x := Load(c.w, mem, dsp);
        case QDup =>
          if tos == 0 { return Running(()); }
          x := tos;
        case RFetch => x := Load(c.w, mem, rp);
        case VarFetch(a) =>
          var t := c.GuardCode(a, c.C());
          if t != 0 { return Trap(t); }
          x := Load(c.w, mem, a);
          LoadAgree(w, mem, p.mem, lo, dsp, a);
          LoadBound(w, p.mem, a);
      }
      assert x == Pushed(c, p, i);
      var t := PushT(x);
      if t != 0 { return Trap(t); }
      Settle(w, mem, p.mem, lo, sp - c.C(), x);
      out := Running(());
    }

    /** 2DUP. */
    method PushingTwo(ghost p: Plain) returns (out: Outcome<()>)
      requires Fetched(p, TwoDup)
      modifies this
      ensures Matches(out, Exec(c, p, TwoDup, old(ip)))
      ensures out.Trap? ==> StackOnly(old(mem), mem)
    {
      hide Load; hide Store; hide Get; hide Exec; hide PushCells;
      ghost var w, lo, sp, C := c.w, DeadLo(c), p.sp, c.C();
      ghost var m0 := mem;
      TwoPushMeaning(c, p, TwoDup, ip);
      LoadBound(w, p.mem, sp);
      Spilled(w, mem, p.mem, lo, sp);
      LoadAgree(w, mem, p.mem, lo, dsp, dsp);
      var a, b := Load(c.w, mem, dsp), tos;
      AgreeSame(mem, c.DLimit(), c.RTop());
      if sp >= c.DLimit() { StoreDead(w, mem, mem, c.DLimit(), c.RTop(), sp, b); }
      var t := PushT(a);
      if t != 0 { return Trap(t); }
      t := PushT(b);
      if t != 0 { return Trap(t); }
      StoreCovers(w, Store(w, m0, sp, b), p.mem, lo, sp - C, a);
      PushTwo(w, p.mem, sp, b, a);
      Settle(w, mem, Store(w, p.mem, sp - C, a), lo, sp - 2 * C, b);
      out := Running(());
    }

    /** COUNT. */
    method Counting(ghost p: Plain) returns (out: Outcome<()>)
      requires Fetched(p, Count)
      modifies this
      ensures Matches(out, Exec(c, p, Count, old(ip)))
      ensures out.Trap? ==> StackOnly(old(mem), mem)
    {
      hide Load; hide Store; hide Get; hide Exec; hide PushCells;
      ghost var w, lo, sp, C := c.w, DeadLo(c), p.sp, c.C();
      ghost var m0 := mem;
      TwoPushMeaning(c, p, Count, ip);
      LoadBound(w, p.mem, sp);
      var a := tos;
      var t := c.GuardCode(a, 1);
      if t != 0 { return Trap(t); }
      tos := Wrap(c.w, a + 1);
      ghost var a1 := tos;
      var b := Get(mem, a);
      t := PushT(b);
      if t != 0 { return Trap(t); }
      StoreCovers(w, m0, p.mem, lo, sp, a1);
      PushTwo(w, p.mem, sp + C, b, a1);
      Settle(w, mem, Store(w, p.mem, sp, a1), lo, sp - C, b);
      out := Running(());
    }

    /** C's -(UNS64)(b). */
    function Negated(b: bool): nat {
      Wrap(c.w, if b then -1 else 0)
    }

    /** The one-operand handlers. */
    method UnaryOp(u: UnOp)
      modifies this`tos
      ensures tos == UnVal(c.w, u, old(tos))
    {
      match u {
        case ZeroEq => tos := Negated(tos == 0);
        case ZeroLt => tos := Negated(Signed(c.w, tos) < 0);
        case CellsOf => tos := Wrap(c.w, tos * c.C());
        case Negate => tos := Wrap(c.w, 0 - tos);
        case AddTo(n) => tos := Wrap(c.w, tos + n);
        case EqTo(n) => tos := Negated(tos == Wrap(c.w, n));
      }
    }

    /** The two-operand handlers: tos = NOS op tos, and the stack one cell shorter. */
    method BinaryOp(b: BinOp)
      modifies this`tos, this`dsp
      ensures tos == BinVal(c.w, b, Load(c.w, mem, old(dsp)), old(tos)) && dsp == old(dsp) + c.C()
    {
      hide Load; hide Bitwise;
      var nos := Load(c.w, mem, dsp);
      match b {
        case Logic(op) => tos := Wrap(c.w, Bitwise(op, nos, tos, Bits(c.w)));
        case Eq => tos := Negated(nos == tos);
        case Ne => tos := Negated(nos != tos);
        case ULess => tos := Negated(nos < tos);
        case Less => tos := Negated(Signed(c.w, nos) < Signed(c.w, tos));
        case Greater => tos := Negated(Signed(c.w, tos) < Signed(c.w, nos));
        case Plus => tos := Wrap(c.w, tos + nos);
        case Minus => tos := Wrap(c.w, nos - tos);
        case LShift => tos := Wrap(c.w, nos * Pow2(tos));
        case RShift => tos := Wrap(c.w, nos / Pow2(tos));
      }
      dsp := dsp + c.C();
    }

    /** Arithmetic and the fetches: only tos changes, and dsp when there was a second cell. */
    method Replacing(ghost p: Plain, i: Instr) returns (out: Outcome<()>)
      requires Fetched(p, i) && IsReplace(i)
      modifies this
      ensures Matches(out, Exec(c, p, i, old(ip)))
      ensures out.Trap? ==> StackOnly(old(mem), mem)
    {
      hide Load; hide Store; hide Get; hide Exec; hide UnVal; hide BinVal;
      ghost var w, lo := c.w, DeadLo(c);
      ReplaceMeaning(c, p, i, ip);
      LoadAgree(w, mem, p.mem, lo, dsp, dsp);
      ReplacedFits(c, p, i);
      match i {
        case Unary(u) =>
          UnaryOp(u);
        case Binary(b) =>
          if (b.LShift? || b.RShift?) && tos >= Bits(c.w) { return NoMeaning; }
          BinaryOp(b);
        case CFetch =>
          var t := c.GuardCode(tos, 1);
          if t != 0 { return Trap(t); }
          tos := Get(mem, tos);
        case Fetch =>
          var t := c.GuardCode(tos, c.C());
          if t != 0 { return Trap(t); }
          LoadAgree(w, mem, p.mem, lo, dsp, tos);
          tos := Load(c.w, mem, tos);
        case AtXt =>
          var t := c.GuardCode(tos, c.C());
          if t != 0 { return Trap(t); }
          LoadAgree(w, mem, p.mem, lo, dsp, tos);
          tos := Wrap(c.w, Load(c.w, mem, tos) + c.base);
      }
      Settle(w, mem, p.mem, lo, dsp - c.C(), tos);
      out := Running(());
    }

    /** DROP, 2DROP, ?BRANCH and the stores: arguments leave the stack, tos is filled from memory. */
    method Popping(ghost p: Plain, i: Instr) returns (out: Outcome<()>)
      requires Fetched(p, i) && IsPop(i)
      modifies this
      ensures Matches(out, Exec(c, p, i, old(ip)))
      ensures out.Trap? ==> StackOnly(old(mem), mem)
    {
      hide Wrap; hide Config.GuardCode; hide Load; hide Store; hide Exec; hide Get; hide AgreeOutside;
      ghost var w, lo, d := c.w, DeadLo(c), dsp;
      AgreeSame(mem, c.DLimit(), c.RTop());
      PopMeaning(c, p, i, ip);
      LoadAgree(w, mem, p.mem, lo, dsp, dsp);
      var nos := Load(c.w, mem, dsp);
      match i {
        case Drop =>
          PopT();
        case TwoDrop =>
          tos := Load(c.w, mem, dsp + c.C());
          dsp := dsp + 2 * c.C();
        case QBranch(target) =>
          var t := tos;
          PopT();
          if t == 0 { ip := target; }
        case VarStore(a) =>
          var t := c.GuardCode(a, c.C());
          if t != 0 { return Trap(t); }
          StoreAgree(w, mem, p.mem, lo, d, a, tos);
          mem := Store(c.w, mem, a, tos);
          PopT();
        case CStore =>
          var t := c.GuardCode(tos, 1);
          if t != 0 { return Trap(t); }
          ByteAgree(mem, p.mem, lo, d, tos, nos % 256);
          mem := mem[tos := nos % 256];
          tos := Load(c.w, mem, dsp + c.C());
          dsp := dsp + 2 * c.C();
        case StoreCell =>
          var t := c.GuardCode(tos, c.C());
          if t != 0 { return Trap(t); }
          StoreAgree(w, mem, p.mem, lo, d, tos, nos);
          mem := Store(c.w, mem, tos, nos);
          tos := Load(c.w, mem, dsp + c.C());
          dsp := dsp + 2 * c.C();
        case PlusStore =>
          var t := c.GuardCode(tos, c.C());
          if t != 0 { return Trap(t); }
          LoadAgree(w, mem, p.mem, lo, d, tos);
          StoreAgree(w, mem, p.mem, lo, d, tos, Wrap(w, Load(w, mem, tos) + nos));
          mem := Store(c.w, mem, tos, Wrap(c.w, Load(c.w, mem, tos) + nos));
          tos := Load(c.w, mem, dsp + c.C());
          dsp := dsp + 2 * c.C();
      }
      ghost var pm := DoWrite(w, p.mem, Popped(c, p, i));
      LoadAgree(w, mem, pm, lo, d, dsp - c.C());
      Widen(mem, pm, lo, d, dsp);
      out := Running(());
    }

    /** SWAP and ROT. */
    method Permuting(ghost p: Plain, i: Instr) returns (out: Outcome<()>)
      requires Fetched(p, i) && (i.Swap? || i.Rot?)
      modifies this
      ensures Matches(out, Exec(c, p, i, old(ip)))
      ensures out.Trap? ==> StackOnly(old(mem), mem)
    {
      hide Load; hide Store; hide Exec; hide PushCells;
      ghost var w, lo, sp, C := c.w, DeadLo(c), p.sp, c.C();
      PermuteMeaning(c, p, i, ip);
      LoadAgree(w, mem, p.mem, lo, dsp, dsp);
      LoadAgree(w, mem, p.mem, lo, dsp, dsp + C);
      LoadBound(w, p.mem, dsp); LoadBound(w, p.mem, dsp + C);
      ghost var x, y, z := tos, Load(w, mem, dsp), Load(w, mem, dsp + C);
      if i.Swap? {
        StoreAgree(w, mem, p.mem, lo, dsp, dsp, x);
        PushTwo(w, p.mem, sp + 2 * C, y, x);
        var t := Load(c.w, mem, dsp);
        mem := Store(c.w, mem, dsp, tos);
        tos := t;
        Settle(w, mem, Store(w, p.mem, sp + C, x), lo, sp, y);
      } else {
        StoreAgree(w, mem, p.mem, lo, dsp, dsp + C, y);
        StoreAgree(w, Store(w, mem, dsp + C, y), Store(w, p.mem, dsp + C, y), lo, dsp, dsp, x);
        PushThree(w, p.mem, sp + 3 * C, z, x, y);
        var t, nos := Load(c.w, mem, dsp + c.C()), Load(c.w, mem, dsp);
        mem := Store(c.w, mem, dsp + c.C(), nos);
        mem := Store(c.w, mem, dsp, tos);
        tos := t;
        Settle(w, mem, Store(w, Store(w, p.mem, sp + 2 * C, y), sp + C, x), lo, sp, z);
      }
      out := Running(());
    }

    /** LIT32, LIT64, SP@ and RP@: SPILL, PUSH, FILLNEXT. */
    method SpillingPush(ghost p: Plain, i: Instr) returns (out: Outcome<()>)
      requires Fetched(p, i) && IsSpilledPush(i)
      modifies this
      ensures Matches(out, Exec(c, p, i, old(ip)))
      ensures out.Trap? ==> StackOnly(old(mem), mem)
    {
      hide Load; hide Store; hide Exec;
      ghost var w, lo, sp, C := c.w, DeadLo(c), p.sp, c.C();
      ghost var m0 := mem;
      AgreeSame(mem, c.DLimit(), c.RTop());
      if sp >= c.DLimit() { StoreDead(w, mem, mem, c.DLimit(), c.RTop(), sp, tos); }
      SpilledPushMeaning(c, p, i, ip);
      Spilled(w, mem, p.mem, lo, sp);
      var t := Spill();
      if t != 0 { return Trap(t); }
      // PUSH's argument is evaluated after dsp has moved, so SP@ sees dsp + CELL_BYTES
      var x := match i case Lit(v, _) => v case SpFetch => Wrap(c.w, dsp - c.C() + c.C()) case RpFetch => Wrap(c.w, rp);
      t := Push(x);
      if t != 0 { return Trap(t); }
      StoreAgree(w, Store(w, m0, sp, tos), p.mem, lo, sp, sp - C, x);
      LoadStore(w, Store(w, m0, sp, tos), sp - C, x);
      LoadStore(w, p.mem, sp - C, x);
      PopT();
      out := Running(());
    }

    /** umul: DS0 and DS1 become the product's halves. */
    method UMul()
      modifies this`mem
      ensures
        var d := Load(c.w, old(mem), dsp) * Load(c.w, old(mem), dsp + c.C());
        mem == Store(c.w, Store(c.w, old(mem), dsp, High(c.w, d)), dsp + c.C(), Low(c.w, d))
    {
      hide Load; hide Store;
      var a, b := Load(c.w, mem, dsp), Load(c.w, mem, dsp + c.C());
      var prod := a * b;
      mem := Store(c.w, mem, dsp, Wrap(c.w, prod / Modulus(c.w)));
      mem := Store(c.w, mem, dsp + c.C(), Wrap(c.w, prod));
    }

    /** UM*. */
    method Multiplying(ghost p: Plain) returns (out: Outcome<()>)
      requires Fetched(p, UmStar)
      modifies this
      ensures Matches(out, Exec(c, p, UmStar, old(ip)))
      ensures out.Trap? ==> StackOnly(old(mem), mem)
    {
      hide Load; hide Store; hide Exec; hide PushCells; hide High; hide Low; hide Wrap; hide Get; hide AgreeOutside;
      ghost var w, lo, sp, C := c.w, DeadLo(c), p.sp, c.C();
      AgreeSame(mem, c.DLimit(), c.RTop());
      DoubleMeaning(c, p, UmStar, ip);
      Spilled(w, mem, p.mem, lo, sp);
      var t := Spill();
      if t != 0 { return Trap(t); }
      LoadAgree(w, mem, p.mem, lo, sp, sp);
      LoadAgree(w, mem, p.mem, lo, sp, sp + C);
      ghost var r := DoubleResult(c, p, UmStar);
      StoreHalves(w, mem, p.mem, lo, sp, r.0, r.1);
      UMul();
      PopT();
      PushTwo(w, p.mem, sp + 2 * C, r.0, r.1);
      out := Running(());
    }

    /** UM/MOD: udiv's quotient is truncated to a cell; a zero divisor is SIGFPE. */
    method Dividing(ghost p: Plain) returns (out: Outcome<()>)
      requires Fetched(p, UmDiv)
      modifies this
      ensures Matches(out, Exec(c, p, UmDiv, old(ip)))
      ensures out.Trap? ==> StackOnly(old(mem), mem)
    {
      hide Load; hide Store; hide Get; hide Exec; hide PushCells; hide Double; hide Quotient; hide Remainder; hide Wrap;
      hide AgreeOutside;
      ghost var w, lo, sp, C := c.w, DeadLo(c), p.sp, c.C();
      AgreeSame(mem, c.DLimit(), c.RTop());
      if sp >= c.DLimit() { StoreDead(w, mem, mem, c.DLimit(), c.RTop(), sp, tos); }
      DoubleMeaning(c, p, UmDiv, ip);
      Spilled(w, mem, p.mem, lo, sp);
      var t := Spill();
      if t != 0 { return Trap(t); }
      LoadAgree(w, mem, p.mem, lo, sp, sp); LoadAgree(w, mem, p.mem, lo, sp, sp + C);
      LoadAgree(w, mem, p.mem, lo, sp, sp + 2 * C);
      var x, y, z := Load(c.w, mem, dsp), Load(c.w, mem, dsp + c.C()), Load(c.w, mem, dsp + 2 * c.C());
      if x == 0 { return Trap(-10); }
      var d := Double(c.w, y, z);
      var q, r := Quotient(c.w, d, x), Remainder(c.w, d, x);
      Widen(mem, p.mem, lo, sp, sp + C);
      StoreHalves(w, mem, p.mem, lo, sp + C, q, r);
      mem := Store(c.w, mem, dsp + c.C(), q);
      mem := Store(c.w, mem, dsp + 2 * c.C(), r);
      dsp := dsp + c.C();
      PopT();
      PushTwo(w, p.mem, sp + 3 * C, q, r);
      out := Running(());
    }

    /** D+ on DS0..DS3: the carry comes from an unsigned comparison. */
    method DAdd()
      modifies this`mem
      ensures
        var w, C, m := c.w, c.C(), old(mem);
        var d := Double(w, Load(w, m, dsp), Load(w, m, dsp + C))
            + Double(w, Load(w, m, dsp + 2 * C), Load(w, m, dsp + 3 * C));
        var h0 := Wrap(w, Load(w, m, dsp + 2 * C) + Load(w, m, dsp));
        mem == Store(w, Store(w, Store(w, m, dsp + 3 * C, Low(w, d)), dsp + 2 * C, h0), dsp + 2 * C, High(w, d))
    {
      hide Load; hide Store; hide Wrap; hide High; hide Low; hide Double;
      var h2, l2 := Load(c.w, mem, dsp), Load(c.w, mem, dsp + c.C());
      var h1, l1 := Load(c.w, mem, dsp + 2 * c.C()), Load(c.w, mem, dsp + 3 * c.C());
      LoadBound(c.w, mem, dsp); LoadBound(c.w, mem, dsp + c.C());
      LoadBound(c.w, mem, dsp + 2 * c.C()); LoadBound(c.w, mem, dsp + 3 * c.C());
      CarryByCompare(c.w, h1, l1, h2, l2);
      var l, h := Wrap(c.w, l1 + l2), Wrap(c.w, h1 + h2);
      mem := Store(c.w, mem, dsp + 3 * c.C(), l);
      mem := Store(c.w, mem, dsp + 2 * c.C(), h);
      mem := Store(c.w, mem, dsp + 2 * c.C(), Wrap(c.w, h + if l < l2 then 1 else 0));
    }

    /** D+. */
    method DoubleAdding(ghost p: Plain) returns (out: Outcome<()>)
      requires Fetched(p, DPlus)
      modifies this
      ensures Matches(out, Exec(c, p, DPlus, old(ip)))
      ensures out.Trap? ==> StackOnly(old(mem), mem)
    {
      hide Load; hide Store; hide Exec; hide PushCells; hide High; hide Low; hide Double; hide Wrap; hide Get;
      hide AgreeOutside;
      ghost var w, lo, sp, C := c.w, DeadLo(c), p.sp, c.C();
      AgreeSame(mem, c.DLimit(), c.RTop());
      DoubleMeaning(c, p, DPlus, ip);
      Spilled(w, mem, p.mem, lo, sp);
      var t := Spill();
      if t != 0 { return Trap(t); }
      LoadAgree(w, mem, p.mem, lo, sp, sp); LoadAgree(w, mem, p.mem, lo, sp, sp + C);
      LoadAgree(w, mem, p.mem, lo, sp, sp + 2 * C); LoadAgree(w, mem, p.mem, lo, sp, sp + 3 * C);
      ghost var r := DoubleResult(c, p, DPlus);
      ghost var h0 := Wrap(w, Load(w, mem, sp + 2 * C) + Load(w, mem, sp));
      ghost var f1, p1 := Store(w, mem, sp + 3 * C, r.1), Store(w, p.mem, sp + 3 * C, r.1);
      Widen(mem, p.mem, lo, sp, sp + 3 * C);
      StoreAgree(w, mem, p.mem, lo, sp + 3 * C, sp + 3 * C, r.1);
      StoreDead(w, f1, p1, lo, sp + 3 * C, sp + 2 * C, h0);
      StoreDead(w, Store(w, f1, sp + 2 * C, h0), p1, lo, sp + 3 * C, sp + 2 * C, r.0);
      LoadStore(w, Store(w, f1, sp + 2 * C, h0), sp + 2 * C, r.0);
      DAdd();
      dsp := dsp + 2 * c.C();
      PopT();
      PushTwo(w, p.mem, sp + 4 * C, r.0, r.1);
      Settle(w, mem, p1, lo, sp + 2 * C, r.0);
      out := Running(());
    }

    /** SP! and RP!. */
    method Repointing(ghost p: Plain, i: Instr) returns (out: Outcome<()>)
      requires Fetched(p, i) && (i.SpStore? || i.RpStore?)
      modifies this
      ensures Matches(out, Exec(c, p, i, old(ip)))
      ensures out.Trap? ==> StackOnly(old(mem), mem)
    {
      hide Load; hide Store; hide Exec;
      ghost var w, lo, sp, C := c.w, DeadLo(c), p.sp, c.C();
      PointerMeaning(c, p, i, ip);
      Spilled(w, mem, p.mem, lo, sp);
      var t := Spill();
      if t != 0 { return Trap(t); }
      LoadAgree(w, mem, p.mem, lo, sp, sp);
      if i.SpStore? {
        dsp := Load(c.w, mem, dsp);
      } else {
        rp := Load(c.w, mem, dsp);
        dsp := dsp + c.C();
      }
      LoadAgree(w, mem, p.mem, lo, sp, dsp);
      PopT();
      out := Running(());
    }

    /** LSAVE, LRESTORE and LZERO where they can. */
    method Locals(ghost p: Plain, i: Instr) returns (out: Outcome<()>)
      requires Fetched(p, i) && (i.LZero? || i.LSave? || i.LRestore?) && !LocalsFail(p, i)
      modifies this, lsaveStack
      ensures Matches(out, Exec(c, p, i, old(ip)))
      ensures out.Trap? ==> StackOnly(old(mem), mem)
    {
      hide Load; hide Store; hide Exec;
      ghost var w, lo, sp := c.w, DeadLo(c), p.sp;
      LocalsMeaning(c, p, i, ip);
      var a := match i case LSave(a) => a case LRestore(a) => a case LZero(a) => a;
      var t := c.GuardCode(a, c.C());
      if t != 0 { return Trap(t); }
      match i {
        case LSave(_) =>
          LoadAgree(w, mem, p.mem, lo, dsp, a);
          lsaveStack[lsaveSp] := Load(c.w, mem, a);
          lsaveSp := lsaveSp + 1;
          assert lsaveStack[..lsaveSp] == p.ls + [Load(w, p.mem, a)];
        case LRestore(_) =>
          lsaveSp := lsaveSp - 1;
          var v := lsaveStack[lsaveSp];
          assert v == p.ls[|p.ls| - 1];
          StoreAgree(w, mem, p.mem, lo, dsp, a, v);
          LoadApart(w, p.mem, a, v, sp);
          mem := Store(c.w, mem, a, v);
        case LZero(_) =>
          StoreAgree(w, mem, p.mem, lo, dsp, a, 0);
          LoadApart(w, p.mem, a, 0, sp);
          mem := Store(c.w, mem, a, 0);
      }
      out := Running(());
    }

    /** locals_failed. */
    method LocalsFailed(ghost p: Plain, i: Instr) returns (out: Outcome<()>)
      requires Fetched(p, i) && LocalsFail(p, i)
      modifies this
      ensures Matches(out, Exec(c, p, i, old(ip)))
      ensures out.Trap? ==> StackOnly(old(mem), mem)
    {
      hide Load; hide Store; hide Exec;
      ghost var w, lo, sp, C := c.w, DeadLo(c), p.sp, c.C();
      AgreeSame(mem, c.DLimit(), c.RTop());
      if sp >= c.DLimit() { StoreDead(w, mem, mem, c.DLimit(), c.RTop(), sp, tos); }
      ghost var pm := p.mem;
      LocalsFailMeaning(c, p, i, ip);
      Spilled(w, mem, pm, lo, sp);
      var code := if i.LSave? then 1 else 2;
      var t := PushT(code);
      if t != 0 { return Trap(t); }
      Settle(w, mem, pm, lo, sp - C, code);
      LoadAgree(w, mem, pm, lo, sp, c.base + 8);
      var word := Load(c.w, mem, c.base + 8);
      if word == 0 { return Halted(70); }
      StoreAgree(w, mem, Store(w, pm, sp - C, code), lo, dsp, rp - C, ip);
      LoadApart(w, Store(w, pm, sp - C, code), rp - C, ip, sp - C);
      t := RPush(ip);
      if t != 0 { return Trap(t); }
      ip := Wrap(c.w, c.base + word);
      out := Running(());
    }

    /** Calls, DODOES, EXECUTE and >R. */
    method ReturnPushing(ghost p: Plain, i: Instr) returns (out: Outcome<()>)
      requires Fetched(p, i) && IsReturnPush(i)
      modifies this
      ensures Matches(out, Exec(c, p, i, old(ip)))
      ensures out.Trap? ==> StackOnly(old(mem), mem)
    {
      hide AgreeOutside; hide Load; hide Store; hide Get; hide Exec;
      ghost var w, lo, d, C := c.w, DeadLo(c), dsp, c.C();
      AgreeSame(mem, c.DLimit(), c.RTop());
      ReturnPushMeaning(c, p, i, ip);
      var x := tos;
      var pushed := match i case Call(_) => ip case DoDoes(body, _) => body case Execute => ip case _ => x;
      if i.Execute? || i.ToR? {
        LoadAgree(w, mem, p.mem, lo, dsp, dsp);
        PopT();
      }
      Widen(mem, p.mem, lo, d, dsp);
      StoreAgree(w, mem, p.mem, lo, dsp, rp - C, pushed);
      LoadApart(w, p.mem, rp - C, pushed, dsp - C);
      var t := RPush(pushed);
      if t != 0 { return Trap(t); }
      match i {
        case Call(target) => ip := target;
        case DoDoes(_, target) => ip := target;
        case Execute => ip := x;
        case _ =>
      }
      out := Running(());
    }

    /** (LOOP). */
    method Looping(ghost p: Plain, after: nat) returns (out: Outcome<()>)
      requires Fetched(p, Loop(after))
      modifies this
      ensures Matches(out, Exec(c, p, Loop(after), old(ip)))
      ensures out.Trap? ==> StackOnly(old(mem), mem)
    {
      hide Load; hide Store; hide Exec; hide Get; hide AgreeOutside; hide Wrap;
      ghost var w, lo, d, C := c.w, DeadLo(c), dsp, c.C();
      LoopMeaning(c, p, Loop(after), ip);
      LoadAgree(w, mem, p.mem, lo, d, rp);
      LoadAgree(w, mem, p.mem, lo, d, rp + C);
      var n := Wrap(c.w, Load(c.w, mem, rp) + 1);
      if n == Load(c.w, mem, rp + c.C()) {
        rp := rp + 2 * c.C();
        ip := after;
      } else {
        StoreAgree(w, mem, p.mem, lo, d, rp, n);
        LoadApart(w, p.mem, rp, n, d - C);
        mem := Store(c.w, mem, rp, n);
      }
      out := Running(());
    }

    /** (?DO). */
    method QueryDo(ghost p: Plain, after: nat) returns (out: Outcome<()>)
      requires Fetched(p, QDo(after))
      modifies this
      ensures Matches(out, Exec(c, p, QDo(after), old(ip)))
      ensures out.Trap? ==> StackOnly(old(mem), mem)
    {
      hide Load; hide Store; hide Exec; hide Get; hide AgreeOutside;
      ghost var w, lo, d, C := c.w, DeadLo(c), dsp, c.C();
      AgreeSame(mem, c.DLimit(), c.RTop());
      if rp <= c.RTop() { StoreDead(w, mem, mem, c.DLimit(), c.RTop(), rp - C, Load(w, mem, dsp)); }
      LoopMeaning(c, p, QDo(after), ip);
      LoadAgree(w, mem, p.mem, lo, d, d);
      LoadAgree(w, mem, p.mem, lo, d, d + C);
      var start, limit := tos, Load(c.w, mem, dsp);
      tos := Load(c.w, mem, dsp + c.C());
      dsp := dsp + 2 * c.C();
      Widen(mem, p.mem, lo, d, dsp);
      if start != limit {
        StoreAgree(w, mem, p.mem, lo, dsp, rp - C, limit);
        LoadApart(w, p.mem, rp - C, limit, d + C);
        var t := RPush(limit);
        if t != 0 { return Trap(t); }
        StoreAgree(w, mem, Store(w, p.mem, rp, limit), lo, dsp, rp - C, start);
        LoadApart(w, Store(w, p.mem, rp, limit), rp - C, start, d + C);
        t := RPush(start);
        if t != 0 { return Trap(t); }
        ip := after;
      }
      out := Running(());
    }

    /** R> and DOVAR. */
    method FromReturn(ghost p: Plain, i: Instr) returns (out: Outcome<()>)
      requires Fetched(p, i) && (i.RFrom? || i.DoVar?)
      modifies this
      ensures Matches(out, Exec(c, p, i, old(ip)))
      ensures out.Trap? ==> StackOnly(old(mem), mem)
    {
      hide Load; hide Store; hide Exec;
      ghost var w, lo, sp, C := c.w, DeadLo(c), p.sp, c.C();
      ReturnMeaning(c, p, i, ip);
      LoadAgree(w, mem, p.mem, lo, dsp, rp);
      LoadBound(w, p.mem, rp);
      Spilled(w, mem, p.mem, lo, sp);
      var x := match i case DoVar(body) => body case _ => Load(c.w, mem, rp);
      var t := PushT(x);
      if t != 0 { return Trap(t); }
      Settle(w, mem, p.mem, lo, sp - C, x);
      LoadAgree(w, mem, p.mem, lo, sp, rp);
      if i.DoVar? { ip := Load(c.w, mem, rp); }
      rp := rp + c.C();
      out := Running(());
    }

    /** NOOP, branches and EXIT. */
    method Returning(ghost p: Plain, i: Instr) returns (out: Outcome<()>)
      requires Fetched(p, i) && (i.Nop? || i.Branch? || i.Exit?)
      modifies this
      ensures Matches(out, Exec(c, p, i, old(ip)))
      ensures out.Trap? ==> StackOnly(old(mem), mem)
    {
      hide Load; hide Store; hide Exec;
      ReturnMeaning(c, p, i, ip);
      LoadAgree(c.w, mem, p.mem, DeadLo(c), dsp, rp);
      match i {
        case Nop =>
        case Branch(target) =>
          ip := target;
        case Exit =>
          ip := Load(c.w, mem, rp);
          rp := rp + c.C();
      }
      out := Running(());
    }

    // ---- dispatch ----------------------------------------------------------

    /** NEXT: fetch, move ip, and run the handler. */
    method Next(ghost p: Plain) returns (out: Outcome<()>)
      requires Refines(p) && CacheSafe(c, p)
      modifies this, lsaveStack
      ensures Matches(out, Step(c, p))
      ensures out.Trap? ==> StackOnly(old(mem), mem)
    {
      hide Exec; hide Decode; hide Load; hide Store;
      DecodeAgree(c, mem, p.mem, ip);
      DecodeFits(c, CodeAt(p.mem, p.ip), p.ip);
      var (i, n) := DecodeAt(c, mem, ip);
      ip := Wrap(c.w, ip + n);
      if IsPush(i) { out := Pushing(p, i); }
      else if IsReplace(i) { out := Replacing(p, i); }
      else if IsPop(i) { out := Popping(p, i); }
      else if IsSpilledPush(i) { out := SpillingPush(p, i); }
      else if IsReturnPush(i) { out := ReturnPushing(p, i); }
      else {
        match i
        case TwoDup => out := PushingTwo(p);
        case Count => out := Counting(p);
        case Swap | Rot => out := Permuting(p, i);
        case UmStar => out := Multiplying(p);
        case UmDiv => out := Dividing(p);
        case DPlus => out := DoubleAdding(p);
        case SpStore | RpStore => out := Repointing(p, i);
        case LSave(_) =>
          if lsaveSp >= LSAVE_MAX { out := LocalsFailed(p, i); } else { out := Locals(p, i); }
        case LRestore(_) =>
          if lsaveSp <= 0 { out := LocalsFailed(p, i); } else { out := Locals(p, i); }
        case LZero(_) => out := Locals(p, i);
        case Loop(after) => out := Looping(p, after);
        case QDo(after) => out := QueryDo(p, after);
        case Nop | Branch(_) | Exit => out := Returning(p, i);
        case RFrom | DoVar(_) => out := FromReturn(p, i);
        case BadOp => StopMeaning(c, p, i, ip); out := Trap(-256);
        case External(s) => StopMeaning(c, p, i, ip); out := HostCall(s);
      }
    }

    /** At some step of the run memory outside the stacks' regions was what it is now. */
    ghost predicate TrappedIn(p: Plain, steps: nat)
      reads this
    {
      exists k: nat ::
        && k < steps && Run(c, p, k).Running? && !Run(c, p, k + 1).Running?
        && AgreeOutside(mem, Run(c, p, k).s.mem, c.DGuard(), c.RTop())
    }

    lemma KeptBelow(m: Memory, q: Plain)
      requires Refines(q) && m == mem
      ensures AgreeOutside(m, q.mem, c.DGuard(), c.RTop())
    {
    }

    lemma StillBelow(m: Memory, m': Memory, q: Memory)
      requires c.Valid() && StackOnly(m, m') && AgreeOutside(m, q, c.DGuard(), c.RTop())
      ensures AgreeOutside(m', q, c.DGuard(), c.RTop())
    {
    }

    /** Any run of the engine is the plain machine's, as long as each instruction is CacheSafe. */
    method Execute(ghost p: Plain, steps: nat) returns (out: Outcome<()>)
      requires Refines(p)
      requires forall k :: 0 <= k < steps && Run(c, p, k).Running? ==> CacheSafe(c, Run(c, p, k).s)
      modifies this, lsaveStack
      ensures Matches(out, Run(c, p, steps))
      ensures out.Trap? ==> TrappedIn(p, steps)
    {
      hide Step; hide CacheSafe;
      out := Running(());
      var k := 0;
      while k < steps && out.Running?
        invariant k <= steps
        invariant Matches(out, Run(c, p, k))
        invariant !out.Running? ==> Matches(out, Run(c, p, steps))
        invariant out.Trap? ==> TrappedIn(p, steps)
      {
        ghost var m, q := mem, Run(c, p, k).s;
        KeptBelow(m, q);
        out := Next(q);
        if out.Trap? {
          StillBelow(m, mem, q.mem);
          assert Run(c, p, k).Running?;
        }
        k := k + 1;
        if !out.Running? { RunStops(c, p, k, steps); }
      }
    }
  }
}
