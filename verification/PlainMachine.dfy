/**
 The plain stack machine: both stacks entirely in flat memory, no register holding a top cell.
 It is the meaning table of Instructions run on memory: take cells, act, push cells.
 */
module PlainMachine {
  import opened Cells
  import opened Instructions

  /** ip, the address of the data stack's top cell, that of the return stack's, memory, locals stack. */
  datatype Plain = Plain(ip: nat, sp: int, rp: int, mem: Memory, ls: seq<nat>)

  datatype Outcome<+S> = Running(s: S) | Trap(code: int) | Halted(status: int) | HostCall(selector: nat) | NoMeaning

  /** The n cells from address a upward. */
  function CellsAt(w: Width, m: Memory, a: int, n: nat): (r: seq<nat>)
    ensures |r| == n
    decreases n
  {
    if n == 0 then [] else [Load(w, m, a)] + CellsAt(w, m, a + CellBytes(w), n - 1)
  }

  /** Lay xs below top, its first cell lowest; deeper cells are stored first. */
  function PushCells(w: Width, m: Memory, top: int, xs: seq<nat>): Memory {
    if xs == [] then m
    else Store(w, PushCells(w, m, top, xs[1..]), top - Bytes(w, |xs|), xs[0])
  }

  function DoRead(w: Width, m: Memory, r: Read): nat {
    match r
    case NoRead => 0
    case ReadCell(a) => Load(w, m, a)
    case ReadByte(a) => Get(m, a)
  }

  function DoWrite(w: Width, m: Memory, x: Write): Memory {
    match x
    case NoWrite => m
    case WriteCell(a, v) => Store(w, m, a, v)
    case WriteByte(a, v) => m[a := v % 256]
  }

  function ReadTrap(c: Config, r: Read): int {
    match r
    case NoRead => 0
    case ReadCell(a) => c.GuardCode(a, c.C())
    case ReadByte(a) => c.GuardCode(a, 1)
  }

  function WriteTrap(c: Config, x: Write): int {
    match x
    case NoWrite => 0
    case WriteCell(a, _) => c.GuardCode(a, c.C())
    case WriteByte(a, _) => c.GuardCode(a, 1)
  }

  /** The handlers that SPILL: they store the top cell before doing anything. */
  predicate Spills(i: Instr) {
    match i
    case Lit(_, spills) => spills
    case UmStar | UmDiv | DPlus | SpFetch | SpStore | RpFetch | RpStore => true
    case _ => false
  }

  /** The lowest stack address the engine's handler for i pushes to, or the limit when it pushes to none. */
  function LowestTouch(c: Config, i: Instr, sp: int, sp': int): int {
    if Spills(i) && sp' < sp then sp'
    else if sp' < sp then sp' + c.C()
    else c.DLimit()
  }

  /** The stacks' and memory's part of an effect. A load, store or push in a guard page traps, -3 or -5. */
  function Apply(c: Config, p: Plain, i: Instr, next: nat, e: Effect): Outcome<Plain> {
    var w := c.w;
    match e
    case Effect(ip, drop, push, rdrop, rpush, write, ls) =>
      var sp, rp := p.sp + Bytes(w, drop), p.rp + Bytes(w, rdrop);
      var sp', rp' := sp - Bytes(w, |push|), rp - Bytes(w, |rpush|);
      if WriteTrap(c, write) != 0 then Trap(WriteTrap(c, write))
      else if LowestTouch(c, i, p.sp, sp') < c.DLimit() then Trap(-3)
      else if rp' < p.rp && rp' < c.RFloor() then Trap(-5)
      else
        var m := PushCells(w, PushCells(w, DoWrite(w, p.mem, write), sp, push), rp, rpush);
        Running(Plain(ip, sp', rp', m, ls))
    case SetSp(sp) => Running(p.(ip := next, sp := sp))
    case SetRp(rp) => Running(p.(ip := next, sp := p.sp + c.C(), rp := rp))
    case Fault(code) => Trap(code)
    case Halt(status) => if p.sp < c.DLimit() then Trap(-3) else Halted(status)
    case Host(s) => HostCall(s)
    case Undefined => NoMeaning
  }

  /** The meaning of i on the cells and memory of p. */
  function Exec(c: Config, p: Plain, i: Instr, next: nat): Outcome<Plain> {
    var args := CellsAt(c.w, p.mem, p.sp, Args(i));
    var rargs := CellsAt(c.w, p.mem, p.rp, RArgs(i));
    var r := Reads(c, i, args, p.ls);
    if ReadTrap(c, r) != 0 then Trap(ReadTrap(c, r))
    else if Spills(i) && p.sp < c.DLimit() then Trap(-3)
    else
      Apply(c, p, i, next,
            Act(c, i, next, args, rargs, DoRead(c.w, p.mem, r), p.ls, Wrap(c.w, p.sp), Wrap(c.w, p.rp)))
  }

  /** One instruction. */
  function Step(c: Config, p: Plain): Outcome<Plain> {
    var (i, n) := DecodeAt(c, p.mem, p.ip);
    Exec(c, p, i, Wrap(c.w, p.ip + n))
  }

  /** The machine as main() starts it. */
  function Booted(c: Config, image: Memory): Plain {
    Plain(c.base, c.DTop() - c.C(), c.RTop(), Store(c.w, image, c.DTop() - c.C(), c.base), [])
  }

  function Run(c: Config, p: Plain, n: nat): Outcome<Plain> {
    if n == 0 then Running(p)
    else match Run(c, p, n - 1)
      case Running(q) => Step(c, q)
      case stop => stop
  }

  lemma {:induction false} RunStops(c: Config, p: Plain, k: nat, n: nat)
    requires k <= n && !Run(c, p, k).Running?
    ensures Run(c, p, n) == Run(c, p, k)
  {
    hide Step;
    if k < n {
      RunStops(c, p, k, n - 1);
    }
  }

  /** Below this no stack cell is live, even a cell the engine has not stored yet. */
  function DeadLo(c: Config): int {
    c.DLimit() - c.C()
  }

  ghost predicate ReadAvoids(c: Config, r: Read, lo: int, hi: int) {
    match r
    case NoRead => true
    case ReadCell(a) => a + c.C() <= lo || hi <= a
    case ReadByte(a) => a < lo || hi <= a
  }

  /**
   What the engine's cache needs of an instruction: it does not load from, or bring back, cells
   below the second item, where a plain machine would keep the top cell and its popped cells;
   LZERO and LRESTORE do not store into the top cell's place; the stacks are not popped past
   their tops. Stores anywhere else, live stack cells included, are free.
   */
  ghost predicate InstrSafe(c: Config, p: Plain, i: Instr) {
    var args := CellsAt(c.w, p.mem, p.sp, Args(i));
    && ReadAvoids(c, Reads(c, i, args, p.ls), DeadLo(c), p.sp + c.C())
    && (i.LZero? || (i.LRestore? && p.ls != []) ==> Apart(i.a, c.C(), p.sp, c.C()))
    && (i.SpStore? ==> p.sp <= args[0] <= c.DTop())
    && (i.RpStore? ==> c.RFloor() <= args[0])
    && p.sp + (if i.SpStore? then 0 else Bytes(c.w, Args(i))) <= c.DTop()
  }

  /** The same, one instruction at a time; nor is code executed from those dead cells. */
  ghost predicate CacheSafe(c: Config, p: Plain) {
    && (p.ip + 10 <= DeadLo(c) || p.sp + c.C() <= p.ip)
    && InstrSafe(c, p, DecodeAt(c, p.mem, p.ip).0)
  }

  // ---- pushed cells --------------------------------------------------------

  /** Pushing changes nothing outside the cells pushed. */
  lemma {:induction false} PushOutside(w: Width, m: Memory, top: int, xs: seq<nat>, x: int)
    requires !(top - Bytes(w, |xs|) <= x < top)
    ensures Get(PushCells(w, m, top, xs), x) == Get(m, x)
  {
    if xs != [] {
      PushOutside(w, m, top, xs[1..], x);
      StoreOutside(PushCells(w, m, top, xs[1..]), top - Bytes(w, |xs|), xs[0], CellBytes(w), x);
    }
  }

  /** The same ten bytes decode to the same instruction. */
  lemma DecodeAgree(c: Config, m: Memory, m': Memory, ip: int)
    requires forall x :: ip <= x < ip + 10 ==> Get(m, x) == Get(m', x)
    ensures DecodeAt(c, m, ip) == DecodeAt(c, m', ip)
  {
    assert CodeAt(m, ip) == CodeAt(m', ip);
  }
}
