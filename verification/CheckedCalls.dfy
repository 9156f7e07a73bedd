/**
 A check on the image that makes inlining safe (forth/kernel.4:1528-1592). INL-OP looks at the
 first opcode of a word a body calls; what inlining needs is that no word called from there takes,
 or looks at, more return cells than it has pushed. Here that is a check on the code alone: every
 instruction of those words is given the number of cells its word has pushed when it comes to it.
 */
module CheckedCalls {
  import opened Cells
  import opened Instructions
  import opened PlainMachine
  import opened StackMachine
  import opened Inlining

  /** The addresses of instructions, and how many return cells their words have pushed there. */
  type Depths = map<nat, nat>

  predicate At(f: Depths, a: nat, d: int) {
    a in f && f[a] == d
  }

  /**
   i, d cells deep, takes no return cell its word has not pushed, and the instructions it leads to
   are as deep as it leaves them; handler is what the locals' failure path calls, if not 0.
   */
  predicate Flows(c: Config, f: Depths, i: Instr, d: nat, next: nat, handler: nat) {
    match i
    case Exit | DoVar(_) => d == 0
    case RFrom => d >= 1 && At(f, next, d - 1)
    case RFetch => d >= 1 && At(f, next, d)
    case ToR => At(f, next, d + 1)
    case Loop(t) => d >= 2 && At(f, next, d) && At(f, t, d - 2)
    case QDo(t) => At(f, next, d) && At(f, t, d + 2)
    case Branch(t) => At(f, t, d)
    case QBranch(t) => At(f, next, d) && At(f, t, d)
    case Call(t) => At(f, next, d) && At(f, t, 0)
    case DoDoes(_, t) => At(f, t, d + 1)
    case LSave(_) | LRestore(_) => At(f, next, d) && (handler == 0 || At(f, Wrap(c.w, c.base + handler), 0))
    case RpFetch | RpStore | SpStore => false
    case BadOp | External(_) => true
    case _ => At(f, next, d)
  }

  predicate FlowsAt(c: Config, m: Memory, f: Depths, a: nat)
    requires a in f
  {
    var (i, n) := DecodeAt(c, m, a);
    Flows(c, f, i, f[a], Wrap(c.w, a + n), Load(c.w, m, c.base + 8))
  }

  /** i looks at no return cell and pushes none but a call's. */
  predicate LeavesFrame(i: Instr) {
    && RArgs(i) == 0 && !i.ToR? && !i.QDo? && !i.DoDoes? && !i.RpFetch? && !i.RpStore? && !i.SpStore?
  }

  /** Where i may lead, next and a word it calls included. */
  function LeadsTo(c: Config, i: Instr, next: nat, handler: nat): set<nat> {
    match i
    case Branch(t) => {t}
    case QBranch(t) => {next, t}
    case Call(t) => {next, t}
    case LSave(_) | LRestore(_) => if handler == 0 then {next} else {next, Wrap(c.w, c.base + handler)}
    case BadOp | External(_) => {}
    case _ => {next}
  }

  /**
   Any code passes the check that leaves the return stack to calls and returns: branches, conditional ones,
   loops of them, calls and locals included.
   */
  lemma FramelessPasses(c: Config, m: Memory, f: Depths)
    requires forall a :: a in f ==> f[a] == 0
    requires forall a :: a in f ==>
      var (i, n) := DecodeAt(c, m, a);
      || i.Exit? || i.DoVar?
      || (LeavesFrame(i) && LeadsTo(c, i, Wrap(c.w, a + n), Load(c.w, m, c.base + 8)) <= f.Keys)
    ensures forall a :: a in f ==> FlowsAt(c, m, f, a)
  {
    hide DecodeAt; hide Wrap; hide Load;
    forall a | a in f
      ensures FlowsAt(c, m, f, a)
    {
      var (i, n) := DecodeAt(c, m, a);
      FramelessFlows(c, f, i, Wrap(c.w, a + n), Load(c.w, m, c.base + 8));
    }
  }

  lemma FramelessFlows(c: Config, f: Depths, i: Instr, next: nat, handler: nat)
    requires forall a :: a in f ==> f[a] == 0
    requires i.Exit? || i.DoVar? || (LeavesFrame(i) && LeadsTo(c, i, next, handler) <= f.Keys)
    ensures Flows(c, f, i, 0, next, handler)
  {
    hide Wrap;
    if !i.Exit? && !i.DoVar? {
      assert forall a :: a in LeadsTo(c, i, next, handler) ==> At(f, a, 0);
    }
  }

  /** A body [a, e): inlinable instructions, and every word it calls in f. */
  predicate BodyFlows(c: Config, m: Memory, f: Depths, a: nat, e: nat)
    decreases e - a
  {
    if a >= e then a == e
    else
      var (i, n) := DecodeAt(c, m, a);
      && Inlinable(i) && a + n <= e < Modulus(c.w) && (i.Call? ==> At(f, i.target, 0))
      && BodyFlows(c, m, f, a + n, e)
  }

  /** The checked code: the depths of the words called, and the body [x, e) they are called from. */
  datatype Check = Check(code: Memory, f: Depths, x: nat, e: nat) {
    /** The check itself: f is right at each of its instructions, and has the words the body calls. */
    predicate Passes(c: Config) {
      (forall a :: a in f ==> FlowsAt(c, code, f, a)) && BodyFlows(c, code, f, x, e)
    }

    /** m still has the code that was checked. */
    ghost predicate Kept(c: Config, m: Memory) {
      && (forall a, z :: a in f && Depends(c, code, a, z) ==> Get(m, z) == Get(code, z))
      && forall z :: x <= z < e ==> Get(m, z) == Get(code, z)
    }
  }

  /** The bytes the check depends on at a: the instruction's and, for the locals, the handler's offset. */
  predicate Depends(c: Config, m: Memory, a: nat, z: int) {
    var (i, n) := DecodeAt(c, m, a);
    a <= z < a + Reach(i, n) || ((i.LSave? || i.LRestore?) && c.base + 8 <= z < c.base + 8 + c.C())
  }

  /** EXECUTE, whose target no check of the code can see, goes to a checked word. */
  predicate ExecutesChecked(c: Config, f: Depths, s: Abs) {
    DecodeAt(c, s.mem, s.ip).0.Execute? && s.ds != [] ==> At(f, s.ds[0], 0)
  }

  /** The cells above depth are the frames of checked words, each called from the next; the last from the body. */
  ghost predicate Framed(c: Config, k: Check, ip: nat, rs: seq<nat>, depth: nat)
    decreases |rs|
  {
    if |rs| <= depth then |rs| == depth && k.x <= ip && BodyFlows(c, k.code, k.f, ip, k.e)
    else ip in k.f && |rs| > depth + k.f[ip] && Framed(c, k, rs[k.f[ip]], rs[k.f[ip] + 1..], depth)
  }

  // ---- one step ------------------------------------------------------------

  /** What a checked instruction may do: go on in its word, call one, or return. */
  datatype Flow = Onward | Calls | Returns

  ghost predicate Does(f: Depths, e: Effect, d: nat, rargs: seq<nat>, w: Flow)
    requires e.Effect?
  {
    match w
    case Onward => e.rdrop <= d && At(f, e.ip, d - e.rdrop + |e.rpush|)
    case Calls => e.rdrop == 0 && |e.rpush| == 1 && At(f, e.ip, 0) && At(f, e.rpush[0], d)
    case Returns => d == 0 && e.rdrop == 1 && e.rpush == [] && rargs != [] && e.ip == rargs[0]
  }

  /** When a locals instruction fails, v is the handler's offset. */
  ghost predicate Fails(i: Instr, ls: seq<nat>) {
    (i.LSave? && |ls| >= LSAVE_MAX) || (i.LRestore? && ls == [])
  }

  lemma ActFlows(c: Config, f: Depths, i: Instr, d: nat, next: nat, handler: nat, args: seq<nat>, rargs: seq<nat>,
                 v: nat,
                 ls: seq<nat>, sp: nat, rp: nat) returns (w: Flow)
    requires |args| == Args(i) && |rargs| == RArgs(i) && Flows(c, f, i, d, next, handler)
    requires (i.Execute? ==> At(f, args[0], 0)) && (Fails(i, ls) ==> v == handler)
    ensures
      var e := Act(c, i, next, args, rargs, v, ls, sp, rp);
      e.Effect? ==> Does(f, e, d, rargs, w)
  {
    hide Wrap; hide UnVal; hide BinVal; hide Double; hide High; hide Low; hide Quotient; hide Remainder;
    var e := Act(c, i, next, args, rargs, v, ls, sp, rp);
    match i
    case Exit | DoVar(_) => w := Returns;
    case Call(_) | Execute => w := Calls;
    case LSave(_) | LRestore(_) => w := if e.Effect? && e.rpush != [] then Calls else Onward;
    case _ => w := Onward;
  }

  /** What it does to the frames. */
  lemma FrameStep(c: Config, k: Check, ip: nat, rs: seq<nat>, depth: nat, e: Effect, rargs: seq<nat>, w: Flow)
    requires Framed(c, k, ip, rs, depth) && |rs| > depth
    requires e.Effect? && Does(k.f, e, k.f[ip], rargs, w) && rargs <= rs && e.rdrop <= |rs|
    ensures Framed(c, k, e.ip, e.rpush + rs[e.rdrop..], depth)
  {
    hide BodyFlows;
    var d, rs' := k.f[ip], e.rpush + rs[e.rdrop..];
    match w
    case Onward =>
      var d' := k.f[e.ip];
      assert rs'[d'] == rs[d] && rs'[d' + 1..] == rs[d + 1..];
    case Calls =>
      assert rs' == e.rpush + rs && rs'[0] == e.rpush[0] && rs'[1..] == rs;
      assert Framed(c, k, e.rpush[0], rs, depth);
    case Returns =>
      assert rs' == rs[1..] && rs[0] == rargs[0];
  }

  /** It looks at no cell its word has not pushed, but to return. */
  lemma FlowsArgs(c: Config, f: Depths, i: Instr, d: nat, next: nat, handler: nat)
    requires Flows(c, f, i, d, next, handler)
    ensures !i.RpFetch? && (RArgs(i) <= d || (d == 0 && RArgs(i) == 1 && (i.Exit? || i.DoVar?)))
  {
  }

  /** An instruction of the body: on in it, or into a checked word. */
  lemma BodyFrame(c: Config, k: Check, ip: nat, rs: seq<nat>, depth: nat, args: seq<nat>, v: nat, ls: seq<nat>,
                  sp: nat, rp: nat)
    requires Framed(c, k, ip, rs, depth) && ip < k.e && |rs| == depth
    requires
      var i := DecodeAt(c, k.code, ip).0;
      |args| == Args(i) && (i.Execute? ==> At(k.f, args[0], 0))
    ensures
      var (i, n) := DecodeAt(c, k.code, ip);
      var e := Act(c, i, Wrap(c.w, ip + n), args, [], v, ls, sp, rp);
      RArgs(i) == 0 && (e.Effect? ==> e.rdrop == 0 && Framed(c, k, e.ip, e.rpush + rs, depth))
  {
    hide DecodeAt; hide Act;
    var (i, n) := DecodeAt(c, k.code, ip);
    var next := Wrap(c.w, ip + n);
    InlinableMeaning(c, i, next, next, args, v, ls, sp, rp, rp);
    var e := Act(c, i, next, args, [], v, ls, sp, rp);
    if e.Effect? {
      var rs' := e.rpush + rs;
      if i.Call? || i.Execute? {
        assert rs'[0] == next && rs'[1..] == rs;
      } else {
        assert rs' == rs;
      }
    }
  }

  /** A kept instruction is still the checked one. */
  lemma StillChecked(c: Config, k: Check, m: Memory, a: nat)
    requires k.Passes(c) && k.Kept(c, m) && a in k.f
    ensures DecodeAt(c, m, a) == DecodeAt(c, k.code, a)
    ensures
      var i := DecodeAt(c, m, a).0;
      i.LSave? || i.LRestore? ==> Load(c.w, m, c.base + 8) == Load(c.w, k.code, c.base + 8)
  {
    hide DecodeAt; hide Flows; hide Get; hide Wrap;
    var (i, n) := DecodeAt(c, k.code, a);
    forall z | a <= z < a + Reach(i, n)
      ensures Get(m, z) == Get(k.code, z)
    {
      assert Depends(c, k.code, a, z);
    }
    DecodeAtReach(c, k.code, m, a);
    if i.LSave? || i.LRestore? {
      forall z: int | c.base + 8 <= z < c.base + 8 + c.C()
        ensures Get(m, z) == Get(k.code, z)
      {
        assert Depends(c, k.code, a, z);
      }
      LoadSame(m, k.code, c.base + 8, c.C());
    }
  }

  lemma BodyStill(c: Config, k: Check, m: Memory, a: nat)
    requires BodyFlows(c, k.code, k.f, a, k.e) && k.x <= a < k.e && k.Kept(c, m)
    ensures DecodeAt(c, m, a) == DecodeAt(c, k.code, a)
  {
    hide DecodeAt; hide Get;
    DecodeAtReach(c, k.code, m, a);
  }

  /** s is in checked, unchanged code, and not at the body's end. */
  ghost predicate Ready(c: Config, k: Check, s: Abs, depth: nat) {
    k.Passes(c) && k.Kept(c, s.mem) && Framed(c, k, s.ip, s.rs, depth) && (|s.rs| == depth ==> s.ip != k.e)
  }

  /** The discipline of one instruction of such code. */
  lemma ReadyDisciplined(c: Config, k: Check, s: Abs, depth: nat)
    requires Ready(c, k, s, depth)
    ensures Disciplined(c, s, depth)
  {
    hide DecodeAt; hide Load; hide Flows; hide BodyFlows; hide Wrap; hide Check.Kept;
    if |s.rs| > depth {
      StillChecked(c, k, s.mem, s.ip);
      assert FlowsAt(c, k.code, k.f, s.ip);
      var (i, n) := DecodeAt(c, k.code, s.ip);
      FlowsArgs(c, k.f, i, k.f[s.ip], Wrap(c.w, s.ip + n), Load(c.w, k.code, c.base + 8));
    }
  }

  /** What running one instruction does. */
  lemma ExecEffect(c: Config, s: Abs, i: Instr, next: nat)
    requires ExecAbs(c, s, i, next).Running?
    ensures |s.ds| >= Args(i) && |s.rs| >= RArgs(i)
    ensures
      var args := s.ds[..Args(i)];
      var e := Act(c, i, next, args, s.rs[..RArgs(i)], DoRead(c.w, s.mem, Reads(c, i, args, s.ls)), s.ls,
                   Wrap(c.w, Sp(c, s)), Wrap(c.w, Rp(c, s)));
      var t := ExecAbs(c, s, i, next).s;
      e.Effect? && t.ip == e.ip && t.rs == e.rpush + s.rs[e.rdrop..]
  {
    hide Act; hide Args; hide RArgs; hide Reads; hide ReadOutside; hide LowestTouch; hide DoWrite; hide DoRead;
    hide Wrap;
  }

  lemma CheckedStep(c: Config, k: Check, s: Abs, depth: nat)
    requires Ready(c, k, s, depth) && StepAbs(c, s).Running? && ExecutesChecked(c, k.f, s)
    ensures
      var t := StepAbs(c, s).s;
      Framed(c, k, t.ip, t.rs, depth)
  {
    hide Act; hide DecodeAt; hide Wrap; hide Load; hide Flows; hide BodyFlows; hide ExecAbs; hide Check.Kept;
    hide Args; hide RArgs; hide Reads; hide Does; hide Sp; hide Rp;
    var (i, n) := DecodeAt(c, s.mem, s.ip);
    var next := Wrap(c.w, s.ip + n);
    ExecEffect(c, s, i, next);
    var args, rargs := s.ds[..Args(i)], s.rs[..RArgs(i)];
    var v := DoRead(c.w, s.mem, Reads(c, i, args, s.ls));
    var sp, rp := Wrap(c.w, Sp(c, s)), Wrap(c.w, Rp(c, s));
    ExecuteArg(c, k.f, s, i);
    if |s.rs| > depth {
      StillChecked(c, k, s.mem, s.ip);
      assert FlowsAt(c, k.code, k.f, s.ip);
      var handler := Load(c.w, k.code, c.base + 8);
      FailureReads(c, s, i, args);
      var w := ActFlows(c, k.f, i, k.f[s.ip], next, handler, args, rargs, v, s.ls, sp, rp);
      FrameStep(c, k, s.ip, s.rs, depth, Act(c, i, next, args, rargs, v, s.ls, sp, rp), rargs, w);
    } else {
      BodyEnd(c, k, s.ip);
      BodyStill(c, k, s.mem, s.ip);
      BodyFrame(c, k, s.ip, s.rs, depth, args, v, s.ls, sp, rp);
      assert rargs == [] && s.rs[0..] == s.rs;
    }
  }

  lemma BodyEnd(c: Config, k: Check, a: nat)
    requires BodyFlows(c, k.code, k.f, a, k.e)
    ensures a <= k.e
  {
    hide DecodeAt;
  }

  lemma ExecuteArg(c: Config, f: Depths, s: Abs, i: Instr)
    requires DecodeAt(c, s.mem, s.ip).0 == i && ExecutesChecked(c, f, s) && |s.ds| >= Args(i)
    ensures i.Execute? ==> At(f, s.ds[..Args(i)][0], 0)
  {
    hide DecodeAt;
  }

  lemma FailureReads(c: Config, s: Abs, i: Instr, args: seq<nat>)
    requires |args| == Args(i)
    ensures Fails(i, s.ls) ==> DoRead(c.w, s.mem, Reads(c, i, args, s.ls)) == Load(c.w, s.mem, c.base + 8)
  {
    hide Load;
  }

  // ---- whole runs ----------------------------------------------------------

  /** A state of a run through the checked code: the code is kept, and EXECUTE goes to a checked word. */
  ghost predicate Minds(c: Config, k: Check, s: Abs, depth: nat) {
    k.Kept(c, s.mem) && ExecutesChecked(c, k.f, s) && (|s.rs| == depth ==> s.ip != k.e)
  }

  /** Such a run is disciplined at each step: the check of the code is enough. */
  lemma {:induction false} CheckedRun(c: Config, k: Check, s: Abs, depth: nat, n: nat)
    requires k.Passes(c) && Framed(c, k, s.ip, s.rs, depth) && RunAbs(c, s, n).Running?
    requires forall j :: 0 <= j < n && RunAbs(c, s, j).Running? ==> Minds(c, k, RunAbs(c, s, j).s, depth)
    ensures
      var t := RunAbs(c, s, n).s;
      Framed(c, k, t.ip, t.rs, depth)
    ensures forall j :: 0 <= j < n && RunAbs(c, s, j).Running? ==> Disciplined(c, RunAbs(c, s, j).s, depth)
  {
    hide StepAbs; hide Check.Passes; hide Framed; hide Disciplined; hide Check.Kept; hide ExecutesChecked;
    if n > 0 {
      CheckedRun(c, k, s, depth, n - 1);
      var t := RunAbs(c, s, n - 1).s;
      assert Minds(c, k, t, depth);
      ReadyDisciplined(c, k, t, depth);
      CheckedStep(c, k, t, depth);
    }
  }

  /**
   Inlining preserves meaning where the words called pass the check. The call's run, keeping the
   code, comes first to the body's EXIT after n + 1 steps; it returns to the site, and from the copy
   n steps do the same.
   */
  lemma CheckedInlines(c: Config, g: Site, f: Depths, s: Abs, n: nat)
    requires c.Valid() && g.Valid(c) && Outside(c, s.ip, 10) && Check(g.code, f, g.x, g.e).Passes(c)
    requires DecodeAt(c, s.mem, s.ip).0 == Call(g.x) && g.after == Wrap(c.w, s.ip + DecodeAt(c, s.mem, s.ip).1)
    requires forall j :: 0 <= j <= n + 1 && RunAbs(c, s, j).Running? ==> g.Kept(RunAbs(c, s, j).s.mem)
    requires forall j :: 1 <= j < n + 1 && RunAbs(c, s, j).Running? ==>
               Minds(c, Check(g.code, f, g.x, g.e), RunAbs(c, s, j).s, |s.rs| + 1)
    requires
      var end := RunAbs(c, s, n + 1);
      end.Running? && end.s.ip == g.e && |end.s.rs| == |s.rs| + 1
    ensures
      var end := RunAbs(c, s, n + 2);
      && end.Running? && end.s.ip == g.after && end.s.rs == s.rs
      && RunAbs(c, s.(ip := g.y), n) == Running(end.s.(ip := g.be))
  {
    hide DecodeAt; hide ExecAbs; hide Copies; hide Disciplined; hide Wrap; hide Site.Kept; hide Check.Passes;
    hide Minds;
    hide Site.Valid;
    var k := Check(g.code, f, g.x, g.e);
    assert RunAbs(c, s, 0) == Running(s);
    assert g.Kept(s.mem);
    CallMeaning(c, s, g.x, g.after);
    RunPrefix(c, s, 1, n + 1);
    assert RunAbs(c, s, 1) == StepAbs(c, s);
    var s1 := s.(ip := g.x, rs := [g.after] + s.rs);
    assert RunAbs(c, s, 1) == Running(s1);
    forall j | 0 <= j <= n
      ensures RunAbs(c, s, j + 1) == RunAbs(c, s1, j)
    {
      RunAdd(c, s, 1, j);
    }
    assert Framed(c, k, s1.ip, s1.rs, |s.rs| + 1) by { PassesBody(c, k); }
    forall j | 0 <= j < n && RunAbs(c, s1, j).Running?
      ensures Minds(c, k, RunAbs(c, s1, j).s, |s.rs| + 1)
    {
      assert RunAbs(c, s, j + 1) == RunAbs(c, s1, j);
    }
    hide StepAbs; hide RunAbs; hide Framed;
    CheckedRun(c, k, s1, |s.rs| + 1, n);
    forall j | 1 <= j < n + 1 && RunAbs(c, s, j).Running?
      ensures Inside(c, g, RunAbs(c, s, j).s, |s.rs| + 1)
    {
      assert RunAbs(c, s, (j - 1) + 1) == RunAbs(c, s1, j - 1);
      MindsEnd(c, k, RunAbs(c, s, j).s, |s.rs| + 1);
    }
    InliningPreserves(c, g, s, n);
  }

  lemma PassesBody(c: Config, k: Check)
    requires k.Passes(c)
    ensures BodyFlows(c, k.code, k.f, k.x, k.e)
  {
  }

  lemma MindsEnd(c: Config, k: Check, s: Abs, depth: nat)
    requires Minds(c, k, s, depth)
    ensures |s.rs| == depth ==> s.ip != k.e
  {
  }

  lemma {:induction false} CopyFlows(c: Config, m: Memory, f: Depths, a: nat, e: nat, b: nat, be: nat)
    requires Copies(c, m, a, e, b, be) && BodyFlows(c, m, f, a, e)
    ensures BodyFlows(c, m, f, b, be)
    decreases e - a
  {
    hide DecodeAt;
    if a < e {
      var n, k := DecodeAt(c, m, a).1, DecodeAt(c, m, b).1;
      CopiesEnd(c, m, a, e, b, be);
      CopyFlows(c, m, f, a + n, e, b + k, be);
    } else {
      BothEnd(c, m, a, e, b, be);
    }
  }

  /** The other way about: where the copy comes to its end, return cells to spare, the call comes back alike. */
  lemma CheckedReflects(c: Config, g: Site, f: Depths, s: Abs, n: nat)
    requires c.Valid() && g.Valid(c) && Outside(c, s.ip, 10) && Check(g.code, f, g.x, g.e).Passes(c)
    requires DecodeAt(c, s.mem, s.ip).0 == Call(g.x) && g.after == Wrap(c.w, s.ip + DecodeAt(c, s.mem, s.ip).1)
    requires
      var t := s.(ip := g.y);
      && (forall j :: 0 <= j <= n && RunAbs(c, t, j).Running? ==>
            g.Kept(RunAbs(c, t, j).s.mem) && Room(c, RunAbs(c, t, j)))
      && (forall j :: 0 <= j < n && RunAbs(c, t, j).Running? ==>
            Minds(c, Check(g.code, f, g.y, g.be), RunAbs(c, t, j).s, |s.rs|))
      && RunAbs(c, t, n).Running? && RunAbs(c, t, n).s.ip == g.be && |RunAbs(c, t, n).s.rs| == |s.rs|
    ensures
      var end := RunAbs(c, s, n + 2);
      && end.Running? && end.s.ip == g.after && end.s.rs == s.rs
      && RunAbs(c, s.(ip := g.y), n) == Running(end.s.(ip := g.be))
  {
    hide DecodeAt; hide Disciplined; hide Wrap; hide Site.Kept; hide Minds; hide StepAbs; hide RunAbs;
    var k, t := Check(g.code, f, g.y, g.be), s.(ip := g.y);
    assert k.Passes(c) by { CopyFlows(c, g.code, f, g.x, g.e, g.y, g.be); }
    PassesBody(c, k);
    hide Check.Passes; hide Copies; hide BodyFlows;
    CheckedRun(c, k, t, |s.rs|, n);
    forall j | 0 <= j < n && RunAbs(c, t, j).Running?
      ensures InsideCopy(c, g, RunAbs(c, t, j).s, |s.rs|)
    {
      MindsEnd(c, k, RunAbs(c, t, j).s, |s.rs|);
    }
    assert RunAbs(c, t, n).Running?;
    InliningReflects(c, g, s, n);
  }
}
