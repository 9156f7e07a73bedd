/**
 The same image at two load addresses: memory, steps and whole runs (engine/cv8.c:699-706, 902-1053).
 */
module RelocatedRuns {
  import opened Arithmetic
  import opened Cells
  import opened Instructions
  import opened PlainMachine
  import opened StackMachine
  import opened Relocation

  // ---- memory --------------------------------------------------------------

  /** The kinds of a state's cells; ptrs are the memory cells that hold addresses. */
  datatype Kinds = Kinds(ds: seq<Kind>, rs: seq<Kind>, ls: seq<Kind>, ptrs: set<nat>)

  /** The n bytes at a are in the image's region. */
  predicate InImage(c: Config, a: int, n: nat) {
    c.base <= a && a + n <= c.base + MEMSIZE
  }

  /** No address cell has a byte among the n at a. */
  ghost predicate Clear(c: Config, ptrs: set<nat>, a: int, n: nat) {
    forall p :: p in ptrs ==> Apart(a, n, p, c.C())
  }

  ghost predicate PtrsOk(c: Config, ptrs: set<nat>) {
    && (forall p :: p in ptrs ==> InImage(c, p, c.C()))
    && forall p, q :: p in ptrs && q in ptrs ==> p == q || Apart(p, c.C(), q, c.C())
  }

  /** The region holds the same bytes delta further on, but for its address cells, which are shifted. */
  ghost predicate MemMoved(c: Config, delta: int, ptrs: set<nat>, m: Memory, m': Memory) {
    && PtrsOk(c, ptrs)
    && (forall z :: InImage(c, z, 1) && Clear(c, ptrs, z, 1) ==> Get(m', z + delta) == Get(m, z))
    && forall p :: p in ptrs ==> Load(c.w, m', p + delta) == Shift(c.w, delta, Load(c.w, m, p))
  }

  /** The kind of the cell at a, if it is one thing or the other. */
  ghost function CellKind(c: Config, ptrs: set<nat>, a: nat): Option<Kind> {
    if !InImage(c, a, c.C()) then None
    else if a in ptrs then Some(Addr)
    else if Clear(c, ptrs, a, c.C()) then Some(Int)
    else None
  }

  ghost function ReadKind(c: Config, ptrs: set<nat>, r: Read): Option<Kind> {
    match r
    case NoRead => Some(Int)
    case ReadCell(a) => CellKind(c, ptrs, a)
    case ReadByte(a) => if InImage(c, a, 1) && Clear(c, ptrs, a, 1) then Some(Int) else None
  }

  /** The address cells after a write of a value of kind k. */
  ghost function WriteKind(c: Config, ptrs: set<nat>, x: Write, k: Kind): Option<set<nat>> {
    match x
    case NoWrite => Some(ptrs)
    case WriteCell(a, _) =>
      if CellKind(c, ptrs, a).None? then None else Some(if k.Addr? then ptrs + {a} else ptrs - {a})
    case WriteByte(a, _) => if InImage(c, a, 1) && Clear(c, ptrs, a, 1) then Some(ptrs) else None
  }

  lemma {:induction false} LoadMovedN(m: Memory, m': Memory, a: int, delta: int, n: nat)
    requires forall x :: a <= x < a + n ==> Get(m', x + delta) == Get(m, x)
    ensures LoadN(m', a + delta, n) == LoadN(m, a, n)
    decreases n
  {
    if n > 0 {
      LoadMovedN(m, m', a + 1, delta, n - 1);
    }
  }

  lemma {:induction false} StoreMovedN(m: Memory, m': Memory, a: int, b: int, v: nat, n: nat, i: nat)
    requires i < n
    ensures Get(StoreN(m', b, v, n), b + i) == Get(StoreN(m, a, v, n), a + i)
    decreases n
  {
    if i > 0 {
      StoreMovedN(m, m', a + 1, b + 1, v / 256, n - 1, i - 1);
    }
  }

  lemma LoadMoves(c: Config, delta: int, ptrs: set<nat>, m: Memory, m': Memory, a: nat)
    requires MemMoved(c, delta, ptrs, m, m') && CellKind(c, ptrs, a).Some?
    ensures Load(c.w, m', a + delta) == Move(c.w, delta, CellKind(c, ptrs, a).value, Load(c.w, m, a))
  {
    if a !in ptrs {
      forall x | a <= x < a + c.C()
        ensures Get(m', x + delta) == Get(m, x)
      {
        assert InImage(c, x, 1) && Clear(c, ptrs, x, 1);
      }
      LoadMovedN(m, m', a, delta, c.C());
    }
  }

  lemma StoreMoves(c: Config, delta: int, ptrs: set<nat>, m: Memory, m': Memory, a: nat, v: nat, k: Kind)
    requires MemMoved(c, delta, ptrs, m, m') && CellKind(c, ptrs, a).Some? && v < Modulus(c.w)
    ensures MemMoved(c, delta, if k.Addr? then ptrs + {a} else ptrs - {a},
                     Store(c.w, m, a, v), Store(c.w, m', a + delta, Move(c.w, delta, k, v)))
  {
    hide Load; hide Get;
    var ptrs' := if k.Addr? then ptrs + {a} else ptrs - {a};
    var n, n' := Store(c.w, m, a, v), Store(c.w, m', a + delta, Move(c.w, delta, k, v));
    forall p | p in ptrs'
      ensures Load(c.w, n', p + delta) == Shift(c.w, delta, Load(c.w, n, p))
    {
      if p == a {
        LoadStore(c.w, m, a, v);
        LoadStore(c.w, m', a + delta, Shift(c.w, delta, v));
      } else {
        LoadApart(c.w, m, a, v, p);
        LoadApart(c.w, m', a + delta, Move(c.w, delta, k, v), p + delta);
      }
    }
    forall z | InImage(c, z, 1) && Clear(c, ptrs', z, 1)
      ensures Get(n', z + delta) == Get(n, z)
    {
      if a <= z < a + c.C() {
        assert k.Int?;
        StoreMovedN(m, m', a, a + delta, v, c.C(), z - a);
      } else {
        StoreOutside(m, a, v, c.C(), z);
        StoreOutside(m', a + delta, Move(c.w, delta, k, v), c.C(), z + delta);
        assert Clear(c, ptrs, z, 1);
      }
    }
  }

  lemma ByteMoves(c: Config, delta: int, ptrs: set<nat>, m: Memory, m': Memory, a: nat, v: Byte)
    requires MemMoved(c, delta, ptrs, m, m') && InImage(c, a, 1) && Clear(c, ptrs, a, 1)
    ensures MemMoved(c, delta, ptrs, m[a := v], m'[a + delta := v])
  {
    hide Load; hide Get;
    var n, n' := m[a := v], m'[a + delta := v];
    forall p | p in ptrs
      ensures Load(c.w, n', p + delta) == Shift(c.w, delta, Load(c.w, n, p))
    {
      assert Apart(a, 1, p, c.C());
      ByteApart(c.w, m, a, v, p);
      ByteApart(c.w, m', a + delta, v, p + delta);
    }
    forall z | InImage(c, z, 1) && Clear(c, ptrs, z, 1)
      ensures Get(n', z + delta) == Get(n, z)
    {
      ByteElsewhere(m, a, v, z);
      ByteElsewhere(m', a + delta, v, z + delta);
    }
  }

  lemma ByteApart(w: Width, m: Memory, a: int, v: Byte, b: int)
    requires Apart(a, 1, b, CellBytes(w))
    ensures Load(w, m[a := v], b) == Load(w, m, b)
  {
    LoadSame(m[a := v], m, b, CellBytes(w));
  }

  lemma ByteElsewhere(m: Memory, a: int, v: Byte, z: int)
    ensures Get(m[a := v], z) == if z == a then v else Get(m, z)
  {
  }

  // ---- one step ------------------------------------------------------------

  /** s' is s with the image delta bytes further on. */
  ghost predicate Twin(c: Config, delta: int, k: Kinds, s: Abs, s': Abs) {
    var w := c.w;
    && |k.ds| == |s.ds| && |k.rs| == |s.rs| && |k.ls| == |s.ls| && s.ip < Modulus(w)
    && AreCells(w, s.ds) && AreCells(w, s.rs) && AreCells(w, s.ls)
    && s'.ip == Shift(w, delta, s.ip) && s'.ds == MoveAll(w, delta, k.ds, s.ds)
    && s'.rs == MoveAll(w, delta, k.rs, s.rs) && s'.ls == MoveAll(w, delta, k.ls, s.ls)
    && MemMoved(c, delta, k.ptrs, s.mem, s'.mem)
  }

  /** The operands of i in s, with their kinds. */
  function OperandsOf(c: Config, s: Abs, k: Kinds, i: Instr, kv: Kind): (x: Operands)
    requires |k.ds| == |s.ds| && |k.rs| == |s.rs| && Args(i) <= |s.ds| && RArgs(i) <= |s.rs|
    ensures |x.ks| == |x.args| == Args(i) && |x.rks| == |x.rargs| == RArgs(i)
  {
    var args := s.ds[..Args(i)];
    Operands(k.ds[..Args(i)], k.rs[..RArgs(i)], kv, k.ls, args, s.rs[..RArgs(i)],
             DoRead(c.w, s.mem, Reads(c, i, args, s.ls)), s.ls, Wrap(c.w, Sp(c, s)), Wrap(c.w, Rp(c, s)))
  }

  /** The kinds after one step of s, if every use of a value agrees with its kind. */
  ghost function TypeStep(c: Config, s: Abs, k: Kinds): Option<Kinds>
    requires |k.ds| == |s.ds| && |k.rs| == |s.rs| && |k.ls| == |s.ls|
  {
    var (i, n) := DecodeAt(c, s.mem, s.ip);
    if !InImage(c, s.ip, 10) || !Clear(c, k.ptrs, s.ip, Reach(i, n)) then None
    else TypeExec(c, s, k, i, Wrap(c.w, s.ip + n))
  }

  ghost function TypeExec(c: Config, s: Abs, k: Kinds, i: Instr, next: nat): Option<Kinds>
    requires |k.ds| == |s.ds| && |k.rs| == |s.rs| && |k.ls| == |s.ls|
  {
    if |s.ds| < Args(i) || |s.rs| < RArgs(i) then None
    else
      match ReadKind(c, k.ptrs, Reads(c, i, s.ds[..Args(i)], s.ls))
      case None => None
      case Some(kv) =>
        var x := OperandsOf(c, s, k, i, kv);
        match x.Type(c, i)
        case None => None
        case Some(t) =>
          var e := Act(c, i, next, x.args, x.rargs, x.v, x.ls, x.sp, x.rp);
          if !e.Effect? then Some(k)
          else
            match WriteKind(c, k.ptrs, e.write, t.write)
            case None => None
            case Some(ptrs) => Some(Kinds(t.push + k.ds[e.drop..], t.rpush + k.rs[e.rdrop..], t.ls, ptrs))
  }

  ghost predicate TwinOutcome(c: Config, delta: int, k: Kinds, o: Outcome<Abs>, o': Outcome<Abs>) {
    if o.Running? then o'.Running? && Twin(c, delta, k, o.s, o'.s) else o' == o
  }

  /** Moved operands make moved reads. */
  lemma ReadsMove(c: Config, delta: int, i: Instr, x: Operands)
    requires Bases(c, delta) && x.Fit(c, i) && x.Type(c, i).Some?
    ensures
      var r := Reads(c, i, x.args, x.ls);
      Reads(Moved(c, delta), MoveInstr(c.w, delta, i), MoveAll(c.w, delta, x.ks, x.args),
            MoveAll(c.w, delta, x.lks, x.ls)) ==
      match r
      case NoRead => NoRead
      case ReadCell(a) => ReadCell(Shift(c.w, delta, a))
      case ReadByte(a) => ReadByte(Shift(c.w, delta, a))
  {
    hide UnKind; hide BinKind;
  }

  /** A read of one kind reads the moved value. */
  lemma ReadMoves(c: Config, delta: int, ptrs: set<nat>, m: Memory, m': Memory, r: Read)
    requires Bases(c, delta) && MemMoved(c, delta, ptrs, m, m') && ReadKind(c, ptrs, r).Some?
    ensures
      var r' := match r
                case NoRead => NoRead
                case ReadCell(a) => ReadCell(Shift(c.w, delta, a))
                case ReadByte(a) => ReadByte(Shift(c.w, delta, a));
      && DoRead(c.w, m', r') == Move(c.w, delta, ReadKind(c, ptrs, r).value, DoRead(c.w, m, r))
      && ReadOutside(Moved(c, delta), r') == ReadOutside(c, r)
  {
    hide Load; hide Get;
    match r
    case NoRead =>
    case ReadCell(a) => LoadMoves(c, delta, ptrs, m, m', a);
    case ReadByte(a) =>
  }

  lemma WriteMoves(c: Config, delta: int, ptrs: set<nat>, m: Memory, m': Memory, x: Write, x': Write, k: Kind)
    requires Bases(c, delta) && MemMoved(c, delta, ptrs, m, m') && WriteKind(c, ptrs, x, k).Some?
    requires match x
             case NoWrite => x'.NoWrite?
             case WriteByte(a, v) => x' == WriteByte(Shift(c.w, delta, a), v)
             case WriteCell(a, v) => v < Modulus(c.w) && x' == WriteCell(Shift(c.w, delta, a), Move(c.w, delta, k, v))
    ensures MemMoved(c, delta, WriteKind(c, ptrs, x, k).value, DoWrite(c.w, m, x), DoWrite(c.w, m', x'))
    ensures WriteOutside(Moved(c, delta), x') == WriteOutside(c, x)
  {
    hide Load; hide Get; hide Store; hide MemMoved;
    match x
    case NoWrite =>
    case WriteCell(a, v) => StoreMoves(c, delta, ptrs, m, m', a, v, k);
    case WriteByte(a, v) => ByteMoves(c, delta, ptrs, m, m', a, v % 256);
  }

  lemma MoveAllParts(w: Width, delta: int, ks: seq<Kind>, xs: seq<nat>, n: nat)
    requires |ks| == |xs| && n <= |xs|
    ensures MoveAll(w, delta, ks, xs)[..n] == MoveAll(w, delta, ks[..n], xs[..n])
    ensures MoveAll(w, delta, ks, xs)[n..] == MoveAll(w, delta, ks[n..], xs[n..])
  {
    hide Move;
  }

  lemma MoveAllJoin(w: Width, delta: int, ks: seq<Kind>, xs: seq<nat>, js: seq<Kind>, ys: seq<nat>)
    requires |ks| == |xs| && |js| == |ys|
    ensures MoveAll(w, delta, ks, xs) + MoveAll(w, delta, js, ys) == MoveAll(w, delta, ks + js, xs + ys)
  {
    hide Move;
  }

  /** The stack pointers move with the image, and so does every limit they are compared with. */
  lemma PointersMove(c: Config, delta: int, s: Abs, s': Abs)
    requires Bases(c, delta) && |s'.ds| == |s.ds| && |s'.rs| == |s.rs|
    ensures Sp(Moved(c, delta), s') == Sp(c, s) + delta && Rp(Moved(c, delta), s') == Rp(c, s) + delta
    ensures Wrap(c.w, Sp(Moved(c, delta), s')) == Shift(c.w, delta, Wrap(c.w, Sp(c, s)))
    ensures Wrap(c.w, Rp(Moved(c, delta), s')) == Shift(c.w, delta, Wrap(c.w, Rp(c, s)))
  {
    hide Wrap; hide Shift;
    ShiftAdd(c.w, delta, Sp(c, s), 0);
    ShiftAdd(c.w, delta, Rp(c, s), 0);
  }

  lemma LimitsMove(c: Config, delta: int, i: Instr, sp: int, sp': int)
    requires Bases(c, delta)
    ensures
      var c' := Moved(c, delta);
      && c'.DLimit() == c.DLimit() + delta && c'.RFloor() == c.RFloor() + delta
      && Spills(MoveInstr(c.w, delta, i)) == Spills(i)
      && LowestTouch(c', MoveInstr(c.w, delta, i), sp + delta, sp' + delta) == LowestTouch(c, i, sp, sp') + delta
  {
  }

  /** An effect and its moved twin leave twins, or end the same way. */
  lemma ApplyMoves(c: Config, delta: int, k: Kinds, s: Abs, s': Abs, i: Instr, t: Typing, e: Effect, e': Effect)
    requires Bases(c, delta) && Twin(c, delta, k, s, s') && EffectFits(c, e) && MovedEffect(c.w, delta, t, e, e')
    requires e.Effect? ==> e.drop <= |s.ds| && e.rdrop <= |s.rs| && WriteKind(c, k.ptrs, e.write, t.write).Some?
    ensures e.Effect? ==>
      TwinOutcome(c, delta, Kinds(t.push + k.ds[e.drop..], t.rpush + k.rs[e.rdrop..], t.ls,
                                  WriteKind(c, k.ptrs, e.write, t.write).value),
                  ApplyAbs(c, s, i, e), ApplyAbs(Moved(c, delta), s', MoveInstr(c.w, delta, i), e'))
    ensures !e.Effect? ==> ApplyAbs(Moved(c, delta), s', MoveInstr(c.w, delta, i), e') == ApplyAbs(c, s, i, e)
  {
    hide Wrap; hide Shift; hide MoveAll; hide MemMoved; hide Load; hide Get; hide DoWrite; hide WriteOutside;
    hide WriteKind;
    hide LowestTouch; hide Sp; hide Rp; hide Config.DLimit; hide Config.RFloor; hide MoveInstr; hide Bytes;
    var w, c' := c.w, Moved(c, delta);
    PointersMove(c, delta, s, s');
    if e.Effect? {
      var u, u' := StackMachine.After(c, s, e), StackMachine.After(c', s', e');
      WriteMoves(c, delta, k.ptrs, s.mem, s'.mem, e.write, e'.write, t.write);
      MoveAllParts(w, delta, k.ds, s.ds, e.drop);
      MoveAllParts(w, delta, k.rs, s.rs, e.rdrop);
      MoveAllJoin(w, delta, t.push, e.push, k.ds[e.drop..], s.ds[e.drop..]);
      MoveAllJoin(w, delta, t.rpush, e.rpush, k.rs[e.rdrop..], s.rs[e.rdrop..]);
      PointersMove(c, delta, u, u');
      LimitsMove(c, delta, i, Sp(c, s), Sp(c, u));
    } else {
      LimitsMove(c, delta, i, 0, 0);
    }
  }

  lemma ExecMoves(c: Config, delta: int, k: Kinds, s: Abs, s': Abs, i: Instr, next: nat)
    requires Bases(c, delta) && Twin(c, delta, k, s, s') && InstrFits(c, i) && next < Modulus(c.w)
    requires TypeExec(c, s, k, i, next).Some?
    ensures TwinOutcome(c, delta, TypeExec(c, s, k, i, next).value, ExecAbs(c, s, i, next),
                        ExecAbs(Moved(c, delta), s', MoveInstr(c.w, delta, i), Shift(c.w, delta, next)))
  {
    hide Wrap; hide Shift; hide MoveAll; hide MemMoved; hide Load; hide Get; hide Act; hide ApplyAbs; hide EffectFits;
    hide Reads; hide ReadOutside; hide WriteKind; hide ReadKind; hide TypeOf; hide DoRead; hide MovedEffect;
    hide InstrFits;
    hide Sp; hide Rp; hide Config.DLimit; hide Spills; hide MoveInstr; hide Args; hide RArgs;
    var w, c', i' := c.w, Moved(c, delta), MoveInstr(c.w, delta, i);
    var r := Reads(c, i, s.ds[..Args(i)], s.ls);
    var kv := ReadKind(c, k.ptrs, r).value;
    var x := OperandsOf(c, s, k, i, kv);
    var t := x.Type(c, i).value;
    MoveKeeps(w, delta, i);
    MoveAllParts(w, delta, k.ds, s.ds, Args(i));
    MoveAllParts(w, delta, k.rs, s.rs, RArgs(i));
    PointersMove(c, delta, s, s');
    LimitsMove(c, delta, i, 0, 0);
    ReadsMove(c, delta, i, x);
    ReadMoves(c, delta, k.ptrs, s.mem, s'.mem, r);
    ReadBound(c, s.mem, r);
    ActMoves(c, delta, i, next, x);
    ActFits(c, i, next, x.args, x.rargs, x.v, x.ls, x.sp, x.rp);
    var e := Act(c, i, next, x.args, x.rargs, x.v, x.ls, x.sp, x.rp);
    var e' := Act(c', i', Shift(w, delta, next), MoveAll(w, delta, x.ks, x.args), MoveAll(w, delta, x.rks, x.rargs),
                  Move(w, delta, kv, x.v), MoveAll(w, delta, x.lks, x.ls), Shift(w, delta, x.sp),
                      Shift(w, delta, x.rp));
    ApplyMoves(c, delta, k, s, s', i, t, e, e');
    NoPointerStores(c, i, x);
  }

  lemma MoveKeeps(w: Width, delta: int, i: Instr)
    ensures
      var i' := MoveInstr(w, delta, i);
      Args(i') == Args(i) && RArgs(i') == RArgs(i) && i'.SpStore? == i.SpStore? && i'.RpStore? == i.RpStore?
  {
  }

  lemma ReadBound(c: Config, m: Memory, r: Read)
    ensures ReadFits(c, r, DoRead(c.w, m, r))
  {
    hide Load;
    if r.ReadCell? {
      LoadBound(c.w, m, r.a);
    }
  }

  lemma NoPointerStores(c: Config, i: Instr, x: Operands)
    requires |x.ks| == |x.args| == Args(i) && |x.rks| == |x.rargs| == RArgs(i) && x.Type(c, i).Some?
    ensures !i.SpStore? && !i.RpStore?
  {
  }

  /** One step of the two runs. */
  lemma StepMoves(c: Config, delta: int, k: Kinds, s: Abs, s': Abs)
    requires Bases(c, delta) && Twin(c, delta, k, s, s') && TypeStep(c, s, k).Some? && !StepAbs(c, s).NoMeaning?
    ensures TwinOutcome(c, delta, TypeStep(c, s, k).value, StepAbs(c, s), StepAbs(Moved(c, delta), s'))
  {
    hide Decode; hide ExecAbs; hide TypeExec; hide MoveInstr; hide TwinOutcome; hide Reach; hide Twin; hide Clear;
    hide Wrap; hide Shift; hide CodeAt;
    TwinSizes(c, delta, k, s, s');
    var w := c.w;
    var (i, n) := DecodeAt(c, s.mem, s.ip);
    var next := Wrap(w, s.ip + n);
    CodeMoves(c, delta, k, s, s');
    DecodeFits(c, CodeAt(s.mem, s.ip), s.ip);
    ShiftAdd(w, delta, s.ip, n);
    ExecMoves(c, delta, k, s, s', i, next);
  }

  lemma CodeMoves(c: Config, delta: int, k: Kinds, s: Abs, s': Abs)
    requires Bases(c, delta) && Twin(c, delta, k, s, s') && InImage(c, s.ip, 10)
    requires Clear(c, k.ptrs, s.ip, Reach(DecodeAt(c, s.mem, s.ip).0, DecodeAt(c, s.mem, s.ip).1))
    ensures s'.ip == s.ip + delta
    ensures DecodeAt(Moved(c, delta), s'.mem, s'.ip) == (MoveInstr(c.w, delta, DecodeAt(c, s.mem, s.ip).0),
                                                         DecodeAt(c, s.mem, s.ip).1)
  {
    hide Decode; hide MoveInstr; hide MoveAll; hide MemMoved; hide CodeAt; hide Clear; hide Reach;
    var a, b := CodeAt(s.mem, s.ip), CodeAt(s'.mem, s'.ip);
    BytesMove(c, delta, k.ptrs, s.mem, s'.mem, s.ip, Reach(Decode(c, a, s.ip).0, Decode(c, a, s.ip).1));
    assert SameReach(c, a, b, s.ip);
    DecodeReach(c, a, b, s.ip);
    DecodeMoves(c, delta, b, s.ip);
  }

  lemma BytesMove(c: Config, delta: int, ptrs: set<nat>, m: Memory, m': Memory, a: nat, n: nat)
    requires MemMoved(c, delta, ptrs, m, m') && InImage(c, a, 10) && Clear(c, ptrs, a, n)
    ensures forall j :: 0 <= j < n && j < 10 ==> CodeAt(m, a)[j] == CodeAt(m', a + delta)[j]
  {
    hide Load; hide Get; hide PtrsOk;
    forall j | 0 <= j < n && j < 10
      ensures CodeAt(m, a)[j] == CodeAt(m', a + delta)[j]
    {
      SameByte(c, delta, ptrs, m, m', a + j);
    }
  }

  lemma SameByte(c: Config, delta: int, ptrs: set<nat>, m: Memory, m': Memory, z: nat)
    requires MemMoved(c, delta, ptrs, m, m') && InImage(c, z, 1) && Clear(c, ptrs, z, 1)
    ensures Get(m', z + delta) == Get(m, z)
  {
    hide Load; hide Get; hide PtrsOk;
  }

  lemma TwinSizes(c: Config, delta: int, k: Kinds, s: Abs, s': Abs)
    requires Twin(c, delta, k, s, s')
    ensures |k.ds| == |s.ds| && |k.rs| == |s.rs| && |k.ls| == |s.ls|
  {
  }

  /** The kinds n steps on. */
  ghost function TypeRun(c: Config, s: Abs, k: Kinds, n: nat): Option<Kinds>
    requires |k.ds| == |s.ds| && |k.rs| == |s.rs| && |k.ls| == |s.ls|
  {
    if n == 0 then Some(k)
    else
      match (TypeRun(c, s, k, n - 1), RunAbs(c, s, n - 1))
      case (Some(j), Running(t)) =>
        if |j.ds| == |t.ds| && |j.rs| == |t.rs| && |j.ls| == |t.ls| then TypeStep(c, t, j) else None
      case (j, _) => j
  }

  /**
   Position independence: for as long as the kinds work out, the image at base + delta runs in
   lockstep with the image at base. At every step ip is at the same offset, every stack cell,
   return-stack cell, saved local and memory cell is the same integer or the same offset, and the
   two runs trap or stop together.
   */
  lemma {:induction false} PositionIndependent(c: Config, delta: int, k: Kinds, s: Abs, s': Abs, n: nat)
    requires Bases(c, delta) && Twin(c, delta, k, s, s')
    requires TypeRun(c, s, k, n).Some? && !RunAbs(c, s, n).NoMeaning?
    ensures TwinOutcome(c, delta, TypeRun(c, s, k, n).value, RunAbs(c, s, n), RunAbs(Moved(c, delta), s', n))
  {
    hide StepAbs; hide TypeStep; hide Twin;
    TwinSizes(c, delta, k, s, s');
    if n > 0 {
      PositionIndependent(c, delta, k, s, s', n - 1);
      match RunAbs(c, s, n - 1)
      case Running(t) =>
        var j := TypeRun(c, s, k, n - 1).value;
        StepMoves(c, delta, j, t, RunAbs(Moved(c, delta), s', n - 1).s);
      case _ =>
    }
  }

  /** The start: no cell of an image is an address, only the base that main() puts on the stack. */
  lemma BootTwins(c: Config, delta: int, image: Memory, image': Memory)
    requires Bases(c, delta) && forall z :: InImage(c, z, 1) ==> Get(image', z + delta) == Get(image, z)
    ensures Twin(c, delta, Kinds([Addr], [], [], {}), Abs(c.base, [c.base], [], image, []),
                 Abs(c.base + delta, [c.base + delta], [], image', []))
  {
  }

  /** So an image runs the same wherever main() loads it. */
  lemma ImageRunsAnywhere(c: Config, delta: int, image: Memory, image': Memory, n: nat)
    requires Bases(c, delta) && forall z :: InImage(c, z, 1) ==> Get(image', z + delta) == Get(image, z)
    requires
      var s := Abs(c.base, [c.base], [], image, []);
      TypeRun(c, s, Kinds([Addr], [], [], {}), n).Some? && !RunAbs(c, s, n).NoMeaning?
    ensures
      var s, s' := Abs(c.base, [c.base], [], image, []), Abs(c.base + delta, [c.base + delta], [], image', []);
      TwinOutcome(c, delta, TypeRun(c, s, Kinds([Addr], [], [], {}), n).value, RunAbs(c, s, n),
                  RunAbs(Moved(c, delta), s', n))
  {
    hide TypeRun; hide RunAbs; hide Twin; hide TwinOutcome;
    BootTwins(c, delta, image, image');
    PositionIndependent(c, delta, Kinds([Addr], [], [], {}), Abs(c.base, [c.base], [], image, []),
                        Abs(c.base + delta, [c.base + delta], [], image', []), n);
  }
}
