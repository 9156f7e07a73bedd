/**
 The machine a Forth programmer sees: two stacks that are sequences, and a memory that does not
 contain them. It has no meaning for an instruction that pops past a stack's top or touches the
 stacks' region through an address; on everything else the flat machine, and so the engine, agrees.
 */
module StackMachine {
  import opened Cells
  import opened Instructions
  import opened PlainMachine

  /** The data and return stacks' top cells are ds[0] and rs[0]. */
  datatype Abs = Abs(ip: nat, ds: seq<nat>, rs: seq<nat>, mem: Memory, ls: seq<nat>)

  /** Where the flat machine's pointers are. */
  function Sp(c: Config, s: Abs): int {
    c.DTop() - Bytes(c.w, |s.ds|)
  }

  function Rp(c: Config, s: Abs): int {
    c.RTop() - Bytes(c.w, |s.rs|)
  }

  /** The n bytes at a are not in the stacks' region, guard pages included. */
  predicate Outside(c: Config, a: int, n: nat) {
    Apart(a, n, c.DGuard(), c.RTop() - c.DGuard())
  }

  predicate ReadOutside(c: Config, r: Read) {
    match r
    case NoRead => true
    case ReadCell(a) => Outside(c, a, c.C())
    case ReadByte(a) => Outside(c, a, 1)
  }

  predicate WriteOutside(c: Config, x: Write) {
    match x
    case NoWrite => true
    case WriteCell(a, _) => Outside(c, a, c.C())
    case WriteByte(a, _) => Outside(c, a, 1)
  }

  /** The state an effect leaves. */
  function After(c: Config, s: Abs, e: Effect): Abs
    requires e.Effect? && e.drop <= |s.ds| && e.rdrop <= |s.rs|
  {
    Abs(e.ip, e.push + s.ds[e.drop..], e.rpush + s.rs[e.rdrop..], DoWrite(c.w, s.mem, e.write), e.ls)
  }

  function ApplyAbs(c: Config, s: Abs, i: Instr, e: Effect): (o: Outcome<Abs>)
    requires e.Effect? ==> e.drop <= |s.ds| && e.rdrop <= |s.rs|
    ensures o.Running? ==> e.Effect?
  {
    match e
    case Effect(ip, drop, push, rdrop, rpush, write, ls) =>
      var t := After(c, s, e);
      if !WriteOutside(c, write) then NoMeaning
      else if LowestTouch(c, i, Sp(c, s), Sp(c, t)) < c.DLimit() then Trap(-3)
      else if Rp(c, t) < Rp(c, s) && Rp(c, t) < c.RFloor() then Trap(-5)
      else Running(t)
    case Fault(code) => Trap(code)
    case Halt(status) => if Sp(c, s) < c.DLimit() then Trap(-3) else Halted(status)
    case Host(h) => HostCall(h)
    case _ => NoMeaning
  }

  function ExecAbs(c: Config, s: Abs, i: Instr, next: nat): Outcome<Abs> {
    if |s.ds| < Args(i) || |s.rs| < RArgs(i) || i.SpStore? || i.RpStore? then NoMeaning
    else
      var args, rargs := s.ds[..Args(i)], s.rs[..RArgs(i)];
      var r := Reads(c, i, args, s.ls);
      if !ReadOutside(c, r) then NoMeaning
      else if Spills(i) && Sp(c, s) < c.DLimit() then Trap(-3)
      else
        ApplyAbs(c, s, i, Act(c, i, next, args, rargs, DoRead(c.w, s.mem, r), s.ls, Wrap(c.w, Sp(c, s)),
                              Wrap(c.w, Rp(c, s))))
  }

  function StepAbs(c: Config, s: Abs): Outcome<Abs> {
    if !Outside(c, s.ip, 10) then NoMeaning
    else
      var (i, n) := DecodeAt(c, s.mem, s.ip);
      ExecAbs(c, s, i, Wrap(c.w, s.ip + n))
  }

  function RunAbs(c: Config, s: Abs, n: nat): Outcome<Abs> {
    if n == 0 then Running(s)
    else match RunAbs(c, s, n - 1)
      case Running(t) => StepAbs(c, t)
      case stop => stop
  }

  /** p is s laid out in flat memory; cells below the stacks' tops do not matter. */
  ghost predicate Lays(c: Config, p: Plain, s: Abs) {
    && p.ip == s.ip < Modulus(c.w) && p.ls == s.ls && AreCells(c.w, s.ls)
    && p.sp == Sp(c, s) && CellsAt(c.w, p.mem, p.sp, |s.ds|) == s.ds
    && p.rp == Rp(c, s) && CellsAt(c.w, p.mem, p.rp, |s.rs|) == s.rs
    && AgreeOutside(p.mem, s.mem, c.DGuard(), c.RTop())
    && DeadLo(c) <= p.sp && c.RFloor() <= p.rp
  }

  ghost predicate LaysOut(c: Config, o: Outcome<Plain>, oa: Outcome<Abs>) {
    match oa
    case Running(s) => o.Running? && Lays(c, o.s, s)
    case Trap(code) => o == Trap(code)
    case Halted(status) => o == Halted(status)
    case HostCall(h) => o == HostCall(h)
    case NoMeaning => true
  }

  // ---- cells in memory -----------------------------------------------------

  lemma {:induction false} CellsSplit(w: Width, m: Memory, a: int, n: nat, k: nat)
    requires k <= n
    ensures CellsAt(w, m, a, n) == CellsAt(w, m, a, k) + CellsAt(w, m, a + Bytes(w, k), n - k)
    decreases n
  {
    hide Load;
    if k > 0 {
      CellsSplit(w, m, a + CellBytes(w), n - 1, k - 1);
    }
  }

  lemma {:induction false} CellsSame(w: Width, m: Memory, m': Memory, a: int, n: nat)
    requires forall x :: a <= x < a + Bytes(w, n) ==> Get(m, x) == Get(m', x)
    ensures CellsAt(w, m, a, n) == CellsAt(w, m', a, n)
    decreases n
  {
    if n > 0 {
      LoadSame(m, m', a, CellBytes(w));
      CellsSame(w, m, m', a + CellBytes(w), n - 1);
    }
  }

  lemma {:induction false} CellsAreCells(w: Width, m: Memory, a: int, n: nat)
    ensures AreCells(w, CellsAt(w, m, a, n))
    decreases n
  {
    if n > 0 {
      LoadBound(w, m, a);
      CellsAreCells(w, m, a + CellBytes(w), n - 1);
    }
  }

  /** Cells pushed below top read back, followed by what lay above. */
  lemma {:induction false} CellsPushed(w: Width, m: Memory, top: int, xs: seq<nat>, n: nat)
    requires AreCells(w, xs)
    ensures CellsAt(w, PushCells(w, m, top, xs), top - Bytes(w, |xs|), |xs| + n) == xs + CellsAt(w, m, top, n)
  {
    hide Load; hide Store; hide Get; hide CellsAt;
    var C, a := CellBytes(w), top - Bytes(w, |xs|);
    if xs == [] {
      assert [] + CellsAt(w, m, top, n) == CellsAt(w, m, top, n);
    } else {
      var rest := xs[1..];
      var m1 := PushCells(w, m, top, rest);
      CellsPushed(w, m, top, rest, n);
      CellStacked(w, m1, a, xs[0], |rest| + n);
      assert a + C == top - Bytes(w, |rest|);
      assert [xs[0]] + (rest + CellsAt(w, m, top, n)) == xs + CellsAt(w, m, top, n);
    }
  }

  lemma CellStacked(w: Width, m: Memory, a: int, x: nat, n: nat)
    requires x < Modulus(w)
    ensures CellsAt(w, Store(w, m, a, x), a, n + 1) == [x] + CellsAt(w, m, a + CellBytes(w), n)
  {
    hide Load; hide Store; hide Get;
    var m' := Store(w, m, a, x);
    LoadStore(w, m, a, x);
    StoreOnly(w, m, a, x);
    CellsSame(w, m', m, a + CellBytes(w), n);
    assert CellsAt(w, m', a, n + 1) == [Load(w, m', a)] + CellsAt(w, m', a + CellBytes(w), n);
  }

  lemma CellsPrefix(w: Width, m: Memory, a: int, n: nat, k: nat)
    requires k <= n
    ensures CellsAt(w, m, a, k) == CellsAt(w, m, a, n)[..k]
    ensures CellsAt(w, m, a + Bytes(w, k), n - k) == CellsAt(w, m, a, n)[k..]
  {
    CellsSplit(w, m, a, n, k);
  }

  // ---- the flat machine refines this one -----------------------------------

  lemma WriteKeeps(c: Config, m: Memory, x: Write)
    requires c.Valid() && WriteOutside(c, x)
    ensures forall y :: c.DGuard() <= y < c.RTop() ==> Get(DoWrite(c.w, m, x), y) == Get(m, y)
    ensures WriteTrap(c, x) == 0
  {
    match x
    case WriteCell(a, v) =>
      hide Store;
      StoreOnly(c.w, m, a, v);
    case _ =>
  }

  lemma WriteAgree(c: Config, m: Memory, m': Memory, x: Write)
    requires AgreeOutside(m, m', c.DGuard(), c.RTop())
    ensures AgreeOutside(DoWrite(c.w, m, x), DoWrite(c.w, m', x), c.DGuard(), c.RTop())
  {
    match x
    case NoWrite =>
    case WriteCell(a, v) => StoreAgree(c.w, m, m', c.DGuard(), c.RTop(), a, v);
    case WriteByte(a, v) => ByteAgree(m, m', c.DGuard(), c.RTop(), a, v % 256);
  }

  lemma PushesAgree(w: Width, m: Memory, top: int, xs: seq<nat>)
    ensures AgreeOutside(PushCells(w, m, top, xs), m, top - Bytes(w, |xs|), top)
  {
    forall x | !(top - Bytes(w, |xs|) <= x < top)
      ensures Get(PushCells(w, m, top, xs), x) == Get(m, x)
    {
      PushOutside(w, m, top, xs, x);
    }
  }

  /** Replacing the top drop cells by xs, in memory that changes only outside the region [lo, hi). */
  lemma StackReplaced(w: Width, m: Memory, m0: Memory, a: int, ds: seq<nat>, drop: nat, xs: seq<nat>, lo: int, hi: int)
    requires drop <= |ds| && CellsAt(w, m, a, |ds|) == ds && AreCells(w, xs)
    requires lo <= a && a + Bytes(w, |ds|) <= hi && forall y :: lo <= y < hi ==> Get(m0, y) == Get(m, y)
    ensures CellsAt(w, PushCells(w, m0, a + Bytes(w, drop), xs), a + Bytes(w, drop) - Bytes(w, |xs|), |xs|
                    + |ds| - drop)
         == xs + ds[drop..]
  {
    hide Load; hide Store; hide Get; hide CellsAt; hide PushCells;
    CellsPrefix(w, m, a, |ds|, drop);
    CellsSame(w, m0, m, a + Bytes(w, drop), |ds| - drop);
    CellsPushed(w, m0, a + Bytes(w, drop), xs, |ds| - drop);
  }

  /** The memory an effect leaves holds exactly the stacks it leaves. */
  lemma EffectLays(c: Config, p: Plain, s: Abs, e: Effect)
    requires c.Valid() && Lays(c, p, s) && e.Effect? && EffectFits(c, e) && WriteOutside(c, e.write)
    requires e.drop <= |s.ds| && e.rdrop <= |s.rs|
    requires DeadLo(c) <= Sp(c, After(c, s, e)) && c.RFloor() <= Rp(c, After(c, s, e))
    ensures
      var t := After(c, s, e);
      var m := PushCells(c.w, PushCells(c.w, DoWrite(c.w, p.mem, e.write), p.sp + Bytes(c.w, e.drop), e.push),
                         p.rp + Bytes(c.w, e.rdrop), e.rpush);
      Lays(c, Plain(e.ip, Sp(c, t), Rp(c, t), m, e.ls), t)
  {
    hide Load; hide Store; hide Get; hide CellsAt; hide PushCells; hide DoWrite; hide WriteOutside;
    var w, t := c.w, After(c, s, e);
    var sp, rp := p.sp + Bytes(w, e.drop), p.rp + Bytes(w, e.rdrop);
    var m0 := DoWrite(w, p.mem, e.write);
    var m1 := PushCells(w, m0, sp, e.push);
    var m2 := PushCells(w, m1, rp, e.rpush);
    assert Sp(c, t) == sp - Bytes(w, |e.push|) && Rp(c, t) == rp - Bytes(w, |e.rpush|);
    WriteKeeps(c, p.mem, e.write);
    WriteAgree(c, p.mem, s.mem, e.write);
    PushesAgree(w, m0, sp, e.push);
    PushesAgree(w, m1, rp, e.rpush);
    assert CellsAt(w, m2, Sp(c, t), |t.ds|) == t.ds by {
      StackReplaced(w, p.mem, m0, p.sp, s.ds, e.drop, e.push, c.DGuard(), c.RTop());
      CellsSame(w, m2, m1, Sp(c, t), |t.ds|);
    }
    assert CellsAt(w, m2, Rp(c, t), |t.rs|) == t.rs by {
      StackReplaced(w, p.mem, m1, p.rp, s.rs, e.rdrop, e.rpush, c.RFloor(), c.RTop());
    }
  }

  lemma ExecSimulates(c: Config, p: Plain, s: Abs, i: Instr, next: nat)
    requires c.Valid() && Lays(c, p, s) && InstrFits(c, i) && next < Modulus(c.w)
    ensures LaysOut(c, Exec(c, p, i, next), ExecAbs(c, s, i, next))
  {
    hide Load; hide Store; hide Get; hide CellsAt; hide PushCells; hide DoWrite; hide Act; hide EffectFits;
    hide Apply; hide ApplyAbs; hide Wrap; hide Args; hide RArgs; hide Reads; hide ReadTrap; hide DoRead;
    if |s.ds| < Args(i) || |s.rs| < RArgs(i) { return; }
    var args, rargs := s.ds[..Args(i)], s.rs[..RArgs(i)];
    CellsPrefix(c.w, p.mem, p.sp, |s.ds|, Args(i));
    CellsPrefix(c.w, p.mem, p.rp, |s.rs|, RArgs(i));
    CellsAreCells(c.w, p.mem, p.sp, |s.ds|);
    CellsAreCells(c.w, p.mem, p.rp, |s.rs|);
    var r := Reads(c, i, args, s.ls);
    if !ReadOutside(c, r) { return; }
    ReadSame(c, p.mem, s.mem, r);
    if Spills(i) && p.sp < c.DLimit() { return; }
    var v := DoRead(c.w, s.mem, r);
    var e := Act(c, i, next, args, rargs, v, s.ls, Wrap(c.w, p.sp), Wrap(c.w, p.rp));
    ActFits(c, i, next, args, rargs, v, s.ls, Wrap(c.w, p.sp), Wrap(c.w, p.rp));
    if !i.SpStore? && !i.RpStore? {
      PointersStay(c, i, next, args, rargs, v, s.ls, Wrap(c.w, p.sp), Wrap(c.w, p.rp));
      ApplySimulates(c, p, s, i, next, e);
    }
  }

  lemma PointersStay(c: Config, i: Instr, next: nat, args: seq<nat>, rargs: seq<nat>, v: nat, ls: seq<nat>, sp: nat,
                     rp: nat)
    requires |args| == Args(i) && |rargs| == RArgs(i) && !i.SpStore? && !i.RpStore?
    ensures
      var e := Act(c, i, next, args, rargs, v, ls, sp, rp);
      !e.SetSp? && !e.SetRp?
  {
    hide Wrap; hide UnVal; hide BinVal; hide Double; hide High; hide Low; hide Quotient; hide Remainder;
  }

  lemma ReadSame(c: Config, m: Memory, m': Memory, r: Read)
    requires c.Valid() && ReadOutside(c, r) && AgreeOutside(m, m', c.DGuard(), c.RTop())
    ensures DoRead(c.w, m, r) == DoRead(c.w, m', r) && ReadTrap(c, r) == 0
    ensures ReadFits(c, r, DoRead(c.w, m, r))
  {
    hide Load;
    match r
    case ReadCell(a) =>
      LoadAgree(c.w, m, m', c.DGuard(), c.RTop(), a);
      LoadBound(c.w, m, a);
    case _ =>
  }

  /** A handler that touches nothing below the limit leaves the stack at most one cell below it. */
  lemma TouchFloor(c: Config, i: Instr, sp: int, sp': int)
    requires DeadLo(c) <= sp
    ensures c.DLimit() <= LowestTouch(c, i, sp, sp') ==> DeadLo(c) <= sp'
  {
  }

  lemma AfterPointers(c: Config, s: Abs, e: Effect)
    requires e.Effect? && e.drop <= |s.ds| && e.rdrop <= |s.rs|
    ensures Sp(c, After(c, s, e)) == Sp(c, s) + Bytes(c.w, e.drop) - Bytes(c.w, |e.push|)
    ensures Rp(c, After(c, s, e)) == Rp(c, s) + Bytes(c.w, e.rdrop) - Bytes(c.w, |e.rpush|)
  {
    hide DoWrite;
  }

  lemma ApplySimulates(c: Config, p: Plain, s: Abs, i: Instr, next: nat, e: Effect)
    requires c.Valid() && Lays(c, p, s) && EffectFits(c, e) && !e.SetSp? && !e.SetRp?
    requires e.Effect? ==> e.drop <= |s.ds| && e.rdrop <= |s.rs|
    requires Spills(i) ==> c.DLimit() <= p.sp
    ensures LaysOut(c, Apply(c, p, i, next, e), ApplyAbs(c, s, i, e))
  {
    hide Load; hide Store; hide Get; hide CellsAt; hide PushCells; hide DoWrite; hide WriteOutside; hide WriteTrap;
    hide EffectFits; hide Config.DLimit; hide Config.RFloor; hide AgreeOutside; hide LowestTouch;
    hide Sp; hide Rp; hide Bytes;
    if e.Effect? && WriteOutside(c, e.write) {
      WriteKeeps(c, p.mem, e.write);
      var t := After(c, s, e);
      AfterPointers(c, s, e);
      TouchFloor(c, i, p.sp, Sp(c, t));
      if ApplyAbs(c, s, i, e).Running? {
        EffectLays(c, p, s, e);
      }
    }
  }

  /** One step: wherever this machine has a meaning, the flat machine does the same. */
  lemma StepSimulates(c: Config, p: Plain, s: Abs)
    requires c.Valid() && Lays(c, p, s)
    ensures LaysOut(c, Step(c, p), StepAbs(c, s))
  {
    hide Decode; hide Exec; hide ExecAbs; hide Get;
    if Outside(c, s.ip, 10) {
      DecodeAgree(c, p.mem, s.mem, s.ip);
      DecodeFits(c, CodeAt(p.mem, p.ip), p.ip);
      var (i, n) := DecodeAt(c, p.mem, p.ip);
      ExecSimulates(c, p, s, i, Wrap(c.w, p.ip + n));
    }
  }

  /** Any run. */
  lemma {:induction false} RunSimulates(c: Config, p: Plain, s: Abs, n: nat)
    requires c.Valid() && Lays(c, p, s)
    ensures LaysOut(c, Run(c, p, n), RunAbs(c, s, n))
  {
    hide Step; hide StepAbs; hide Lays;
    if n > 0 {
      RunSimulates(c, p, s, n - 1);
      if RunAbs(c, s, n - 1).Running? {
        StepSimulates(c, Run(c, p, n - 1).s, RunAbs(c, s, n - 1).s);
      }
    }
  }

  /** Two runs end to end. */
  lemma {:induction false} RunAdd(c: Config, s: Abs, m: nat, n: nat)
    requires RunAbs(c, s, m).Running?
    ensures RunAbs(c, s, m + n) == RunAbs(c, RunAbs(c, s, m).s, n)
  {
    hide StepAbs;
    if n > 0 {
      RunAdd(c, s, m, n - 1);
    }
  }

  /** A run that has a meaning has one at every earlier step. */
  lemma {:induction false} RunPrefix(c: Config, s: Abs, k: nat, n: nat)
    requires k <= n && !RunAbs(c, s, n).NoMeaning?
    ensures !RunAbs(c, s, k).NoMeaning?
    ensures k < n && RunAbs(c, s, k).Running? ==> !StepAbs(c, RunAbs(c, s, k).s).NoMeaning?
    ensures RunAbs(c, s, n).Running? ==> RunAbs(c, s, k).Running?
  {
    hide StepAbs;
    if k < n {
      RunPrefix(c, s, k, n - 1);
    }
  }

  /** Where this machine has a meaning the engine's cache is safe. */
  lemma MeaningIsSafe(c: Config, p: Plain, s: Abs)
    requires c.Valid() && Lays(c, p, s) && !StepAbs(c, s).NoMeaning?
    ensures CacheSafe(c, p)
  {
    hide Decode; hide Act; hide Load; hide Get; hide CellsAt; hide DoWrite;
    DecodeAgree(c, p.mem, s.mem, s.ip);
    var (i, n) := DecodeAt(c, s.mem, s.ip);
    CellsPrefix(c.w, p.mem, p.sp, |s.ds|, Args(i));
    if i.LZero? || (i.LRestore? && s.ls != []) {
      InPlaceWrite(c, s, i, Wrap(c.w, s.ip + n));
    }
  }

  lemma InPlaceWrite(c: Config, s: Abs, i: Instr, next: nat)
    requires c.Valid() && (i.LZero? || (i.LRestore? && s.ls != [])) && !ExecAbs(c, s, i, next).NoMeaning?
    ensures Outside(c, i.a, c.C())
  {
    hide LowestTouch; hide Store;
  }

  lemma CallMeaning(c: Config, s: Abs, target: nat, next: nat)
    ensures ExecAbs(c, s, Call(target), next) ==
      if Rp(c, s) - c.C() < c.RFloor() then Trap(-5) else Running(s.(ip := target, rs := [next] + s.rs))
  {
    hide Wrap;
    assert [] + s.ds[0..] == s.ds && [next] + s.rs[0..] == [next] + s.rs;
  }

  // ---- confinement ---------------------------------------------------------

  /** Both stacks in their own regions: they cannot overlap, nor reach the dictionary below the guard. */
  ghost predicate Confined(c: Config, s: Abs) {
    && c.DLimit() - c.C() <= Sp(c, s) <= c.DTop() < c.RGuard()
    && c.RFloor() <= Rp(c, s) <= c.RTop()
  }

  /** The instructions that store through an address. */
  predicate Stores(i: Instr) {
    i.CStore? || i.StoreCell? || i.PlusStore? || i.VarStore? || i.LRestore? || i.LZero?
  }

  lemma StepConfined(c: Config, s: Abs)
    requires c.Valid() && Confined(c, s) && StepAbs(c, s).Running?
    ensures Confined(c, StepAbs(c, s).s)
    ensures !Stores(DecodeAt(c, s.mem, s.ip).0) ==> StepAbs(c, s).s.mem == s.mem
  {
    hide Decode; hide Load; hide Get; hide Store; hide WriteOutside; hide Wrap; hide BinVal; hide UnVal;
    hide High; hide Low; hide Double; hide Quotient; hide Remainder;
  }
}
