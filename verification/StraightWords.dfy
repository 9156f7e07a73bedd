/**
 Words without branches or calls, on which the check of CheckedCalls is exact: such a word, when its
 EXIT finds no cell of its own, passes if and only if it never looks below its own frame. One that
 does look there sees a different return address from the copy than from the body, and one that
 takes cells from there returns past them.
 */
module StraightWords {
  import opened Cells
  import opened Instructions
  import opened PlainMachine
  import opened StackMachine
  import opened Inlining
  import opened CheckedCalls

  /** own cells pushed and still there; below cells taken from under the word's frame, seen looked at there. */
  datatype Depth = Depth(own: nat, below: nat, seen: nat)

  const FRESH := Depth(0, 0, 0)

  predicate StraightOp(i: Instr) {
    || i.ToR? || i.RFrom? || i.RFetch?
    || (Inlinable(i) && !i.Call? && !i.Execute? && !i.SpStore? && !i.BadOp? && !i.External?)
  }

  function Looks(d: Depth): Depth {
    d.(seen := if d.seen > d.below then d.seen else d.below + 1)
  }

  function Takes(i: Instr, d: Depth): Depth {
    match i
    case ToR => d.(own := d.own + 1)
    case RFrom => if d.own > 0 then d.(own := d.own - 1) else Looks(d).(below := d.below + 1)
    case RFetch => if d.own > 0 then d else Looks(d)
    case _ => d
  }

  /** n straight instructions lead from a, at depth d, to z at depth d'. */
  ghost predicate Leads(c: Config, m: Memory, a: nat, n: nat, d: Depth, z: nat, d': Depth)
    decreases n
  {
    if n == 0 then a == z && d == d'
    else
      var (i, k) := DecodeAt(c, m, a);
      StraightOp(i) && a + k < Modulus(c.w) && Leads(c, m, a + k, n - 1, Takes(i, d), z, d')
  }

  lemma {:induction false} LeadsOn(c: Config, m: Memory, a: nat, n: nat, d: Depth, z: nat, d': Depth)
    requires Leads(c, m, a, n, d, z, d')
    ensures a <= z && d.seen <= d'.seen
    ensures n > 0 ==> a + DecodeAt(c, m, a).1 <= z
    decreases n
  {
    hide DecodeAt; hide StraightOp;
    if n > 0 {
      var (i, k) := DecodeAt(c, m, a);
      LeadsOn(c, m, a + k, n - 1, Takes(i, d), z, d');
    }
  }

  // ---- the check is exact --------------------------------------------------

  /** The word at a passes with the depths f. */
  predicate WordPasses(c: Config, m: Memory, f: Depths, a: nat) {
    At(f, a, 0) && forall b :: b in f ==> FlowsAt(c, m, f, b)
  }

  /** The depths along a straight word. */
  ghost function Along(c: Config, m: Memory, a: nat, n: nat, d: Depth): Depths
    decreases n
  {
    if n == 0 then map[a := d.own]
    else
      var (i, k) := DecodeAt(c, m, a);
      Along(c, m, a + k, n - 1, Takes(i, d))[a := d.own]
  }

  /** More depths do not hurt. */
  lemma FlowsMore(c: Config, m: Memory, f: Depths, f': Depths, a: nat)
    requires a in f && (forall b :: b in f ==> At(f', b, f[b])) && FlowsAt(c, m, f, a)
    ensures a in f' && FlowsAt(c, m, f', a)
  {
    hide DecodeAt; hide Wrap; hide Load;
  }

  /** A straight instruction that does not look below its frame flows on. */
  lemma StraightFlows(c: Config, f: Depths, i: Instr, d: Depth, next: nat, handler: nat)
    requires StraightOp(i) && d.seen == 0
    ensures Takes(i, d).seen == 0 ==> (Flows(c, f, i, d.own, next, handler) <==> At(f, next, Takes(i, d).own))
    ensures Takes(i, d).seen != 0 ==> !Flows(c, f, i, d.own, next, handler)
  {
  }

  lemma {:induction false} AlongFlows(c: Config, m: Memory, a: nat, n: nat, d: Depth, z: nat, d': Depth)
    requires Leads(c, m, a, n, d, z, d') && d.seen == d'.seen == 0 && d'.own == 0 && DecodeAt(c, m, z).0.Exit?
    ensures
      var f := Along(c, m, a, n, d);
      At(f, a, d.own) && forall b :: b in f ==> a <= b && FlowsAt(c, m, f, b)
    decreases n
  {
    hide DecodeAt; hide StraightOp; hide Takes; hide FlowsAt;
    var f := Along(c, m, a, n, d);
    if n == 0 {
      assert FlowsAt(c, m, f, a) by { ExitFlows(c, m, f, a); }
    } else {
      var (i, k) := DecodeAt(c, m, a);
      var d1 := Takes(i, d);
      LeadsOn(c, m, a + k, n - 1, d1, z, d');
      AlongFlows(c, m, a + k, n - 1, d1, z, d');
      var g := Along(c, m, a + k, n - 1, d1);
      forall b | b in g
        ensures FlowsAt(c, m, f, b)
      {
        FlowsMore(c, m, g, f, b);
      }
      assert FlowsAt(c, m, f, a) by { StraightFlowsAt(c, m, f, a, d); }
    }
  }

  lemma ExitFlows(c: Config, m: Memory, f: Depths, a: nat)
    requires a in f && DecodeAt(c, m, a).0.Exit?
    ensures FlowsAt(c, m, f, a) <==> f[a] == 0
  {
    hide DecodeAt; hide Load; hide Wrap;
  }

  lemma StraightFlowsAt(c: Config, m: Memory, f: Depths, a: nat, d: Depth)
    requires At(f, a, d.own) && d.seen == 0
    requires
      var (i, k) := DecodeAt(c, m, a);
      StraightOp(i) && a + k < Modulus(c.w)
    ensures
      var (i, k) := DecodeAt(c, m, a);
      var d1 := Takes(i, d);
      FlowsAt(c, m, f, a) <==> d1.seen == 0 && At(f, a + k, d1.own)
  {
    hide DecodeAt; hide Load; hide Flows; hide Takes; hide StraightOp;
    var (i, k) := DecodeAt(c, m, a);
    StraightFlows(c, f, i, d, a + k, Load(c.w, m, c.base + 8));
  }

  lemma {:induction false} PassesAlong(c: Config, m: Memory, f: Depths, a: nat, n: nat, d: Depth, z: nat, d': Depth)
    requires Leads(c, m, a, n, d, z, d') && d.seen == 0 && At(f, a, d.own) && forall b :: b in f ==> FlowsAt(c, m, f, b)
    ensures d'.seen == 0 && At(f, z, d'.own)
    decreases n
  {
    hide DecodeAt; hide StraightOp; hide Takes; hide FlowsAt;
    if n > 0 {
      var (i, k) := DecodeAt(c, m, a);
      StraightFlowsAt(c, m, f, a, d);
      PassesAlong(c, m, f, a + k, n - 1, Takes(i, d), z, d');
    }
  }

  /** A straight word passes the check exactly when it never looks below its frame and leaves it empty. */
  lemma StraightWordPasses(c: Config, m: Memory, a: nat, n: nat, z: nat, d: Depth)
    requires Leads(c, m, a, n, FRESH, z, d) && DecodeAt(c, m, z).0.Exit?
    ensures (exists f: Depths :: WordPasses(c, m, f, a)) <==> d.own == 0 && d.seen == 0
  {
    hide DecodeAt; hide FlowsAt; hide Leads;
    if d.own == 0 && d.seen == 0 {
      AlongFlows(c, m, a, n, FRESH, z, d);
      assert WordPasses(c, m, Along(c, m, a, n, FRESH), a);
    }
    forall f: Depths | WordPasses(c, m, f, a)
      ensures d.own == 0 && d.seen == 0
    {
      PassesAlong(c, m, f, a, n, FRESH, z, d);
      ExitFlows(c, m, f, z);
    }
  }

  // ---- what a straight word does to the return stack -----------------------

  /** One straight instruction. */
  lemma StraightStep(c: Config, s: Abs, i: Instr, next: nat)
    requires StraightOp(i) && ExecAbs(c, s, i, next).Running?
    ensures
      var t := ExecAbs(c, s, i, next).s;
      && t.ip == next
      && match i
         case ToR => |t.rs| == |s.rs| + 1 && t.rs[1..] == s.rs
         case RFrom => s.rs != [] && t.rs == s.rs[1..] && t.ds == [s.rs[0]] + s.ds
         case RFetch => s.rs != [] && t.rs == s.rs && t.ds == [s.rs[0]] + s.ds
         case _ => t.rs == s.rs
  {
    hide Act; hide Wrap; hide DoRead; hide DoWrite; hide WriteOutside; hide ReadOutside; hide LowestTouch; hide Reads;
    var args := s.ds[..Args(i)];
    var v := DoRead(c.w, s.mem, Reads(c, i, args, s.ls));
    StraightMeaning(c, i, next, args, s.rs[..RArgs(i)], v, s.ls, Wrap(c.w, Sp(c, s)), Wrap(c.w, Rp(c, s)));
    assert s.rs[0..] == s.rs && s.ds[0..] == s.ds && [] + s.rs == s.rs;
    assert s.rs != [] ==> [] + s.rs[1..] == s.rs[1..];
  }

  lemma StraightMeaning(c: Config, i: Instr, next: nat, args: seq<nat>, rargs: seq<nat>, v: nat, ls: seq<nat>,
                        sp: nat, rp: nat)
    requires StraightOp(i) && |args| == Args(i) && |rargs| == RArgs(i)
    ensures
      var e := Act(c, i, next, args, rargs, v, ls, sp, rp);
      e.Effect? ==>
        && e.ip == next
        && match i
           case ToR => e.rdrop == 0 && |e.rpush| == 1
           case RFrom => e.rdrop == 1 && e.rpush == [] && e.drop == 0 && e.push == [rargs[0]]
           case RFetch => e.rdrop == 0 && e.rpush == [] && e.drop == 0 && e.push == [rargs[0]]
           case _ => e.rdrop == 0 && e.rpush == []
  {
    hide Wrap; hide UnVal; hide BinVal; hide Double; hide High; hide Low; hide Quotient; hide Remainder;
  }

  /** m' has the code of the word from lo to its EXIT at z. */
  ghost predicate WordKept(m: Memory, lo: nat, z: nat, m': Memory) {
    forall y :: lo <= y <= z ==> Get(m', y) == Get(m, y)
  }

  lemma StraightKept(c: Config, m: Memory, lo: nat, a: nat, n: nat, d: Depth, z: nat, d': Depth, m': Memory)
    requires Leads(c, m, a, n, d, z, d') && lo <= a && WordKept(m, lo, z, m')
    ensures n > 0 ==> DecodeAt(c, m', a) == DecodeAt(c, m, a)
    ensures DecodeAt(c, m, z).0.Exit? ==> DecodeAt(c, m', z) == (Exit, 1)
  {
    hide DecodeAt; hide Get;
    LeadsOn(c, m, a, n, d, z, d');
    if n > 0 {
      DecodeAtReach(c, m, m', a);
    }
    if DecodeAt(c, m, z).0.Exit? {
      ExitLength(c, m, z);
      DecodeAtReach(c, m, m', z);
    }
  }

  lemma ExitLength(c: Config, m: Memory, z: nat)
    requires DecodeAt(c, m, z).0.Exit?
    ensures DecodeAt(c, m, z) == (Exit, 1)
  {
    hide Get; hide Wrap; hide Sext; hide Little;
  }

  /** The run of s keeps the word's code for n steps. */
  ghost predicate RunKeeps(c: Config, s: Abs, m: Memory, lo: nat, z: nat, n: nat) {
    forall j :: 0 <= j <= n && RunAbs(c, s, j).Running? ==> WordKept(m, lo, z, RunAbs(c, s, j).s.mem)
  }

  lemma KeepsNext(c: Config, s: Abs, m: Memory, lo: nat, z: nat, n: nat)
    requires n > 0 && RunAbs(c, s, n).Running? && RunKeeps(c, s, m, lo, z, n)
    ensures WordKept(m, lo, z, s.mem) && StepAbs(c, s).Running?
    ensures RunAbs(c, s, n) == RunAbs(c, StepAbs(c, s).s, n - 1) && RunKeeps(c, StepAbs(c, s).s, m, lo, z, n - 1)
  {
    hide StepAbs; hide WordKept;
    assert RunAbs(c, s, 0) == Running(s);
    RunPrefix(c, s, 1, n);
    assert RunAbs(c, s, 1) == StepAbs(c, s);
    var t := StepAbs(c, s).s;
    forall j | 0 <= j <= n - 1
      ensures RunAbs(c, s, j + 1) == RunAbs(c, t, j)
    {
      RunAdd(c, s, 1, j);
    }
    assert RunAbs(c, s, (n - 1) + 1) == RunAbs(c, t, n - 1);
    forall j | 0 <= j <= n - 1 && RunAbs(c, t, j).Running?
      ensures WordKept(m, lo, z, RunAbs(c, t, j).s.mem)
    {
      assert RunAbs(c, s, j + 1) == RunAbs(c, t, j);
    }
  }

  /** After the word's n instructions the return stack is its own cells on what it has left of the cells rs below. */
  lemma {:induction false} LeadsRun(c: Config, s: Abs, m: Memory, lo: nat, n: nat, d: Depth, z: nat, d': Depth,
                                    top: seq<nat>, rs: seq<nat>) returns (top': seq<nat>)
    requires Leads(c, m, s.ip, n, d, z, d') && lo <= s.ip && RunAbs(c, s, n).Running? && RunKeeps(c, s, m, lo, z, n)
    requires d.below <= |rs| && |top| == d.own && s.rs == top + rs[d.below..]
    ensures RunAbs(c, s, n).s.ip == z && d'.below <= |rs| && |top'| == d'.own
    ensures RunAbs(c, s, n).s.rs == top' + rs[d'.below..]
    decreases n
  {
    hide DecodeAt; hide ExecAbs; hide StraightOp; hide Wrap; hide WordKept; hide RunKeeps; hide RunAbs;
    if n == 0 {
      assert RunAbs(c, s, 0) == Running(s) by { NoSteps(c, s); }
      top' := top;
    } else {
      KeepsNext(c, s, m, lo, z, n);
      StraightKept(c, m, lo, s.ip, n, d, z, d', s.mem);
      var (i, k) := DecodeAt(c, m, s.ip);
      StraightStep(c, s, i, s.ip + k);
      var t := StepAbs(c, s).s;
      var top1 := match i
                  case ToR => [t.rs[0]] + top
                  case RFrom => if d.own > 0 then top[1..] else []
                  case _ => top;
      var d1 := Takes(i, d);
      assert d1.below <= |rs| && |top1| == d1.own && t.rs == top1 + rs[d1.below..];
      top' := LeadsRun(c, t, m, lo, n - 1, d1, z, d', top1, rs);
    }
  }

  lemma NoSteps(c: Config, s: Abs)
    ensures RunAbs(c, s, 0) == Running(s)
  {
  }

  /** Then its EXIT, none of its own cells left, returns to the first cell it has not taken. */
  lemma StraightWordReturns(c: Config, s: Abs, m: Memory, n: nat, z: nat, d: Depth)
    requires Leads(c, m, s.ip, n, FRESH, z, d) && d.own == 0 && DecodeAt(c, m, z).0.Exit?
    requires RunAbs(c, s, n + 1).Running? && RunKeeps(c, s, m, s.ip, z, n)
    ensures d.below < |s.rs|
    ensures
      var t := RunAbs(c, s, n + 1).s;
      t.ip == s.rs[d.below] && t.rs == s.rs[d.below + 1..]
  {
    hide DecodeAt; hide ExecAbs; hide Leads; hide Wrap; hide WordKept;
    RunPrefix(c, s, n, n + 1);
    assert s.rs[0..] == s.rs && [] + s.rs == s.rs;
    var top := LeadsRun(c, s, m, s.ip, n, FRESH, z, d, [], s.rs);
    var t := RunAbs(c, s, n).s;
    assert top == [] && t.rs == s.rs[d.below..];
    StraightKept(c, m, s.ip, s.ip, n, FRESH, z, d, t.mem);
    ExitNeeds(c, t, Wrap(c.w, z + 1));
    ExitMeaning(c, t, Wrap(c.w, z + 1));
    assert t.rs[1..] == s.rs[d.below + 1..];
  }

  lemma ExitNeeds(c: Config, s: Abs, next: nat)
    requires ExecAbs(c, s, Exit, next).Running?
    ensures s.rs != []
  {
  }

  /** A call that runs. */
  lemma CallRuns(c: Config, s: Abs, target: nat)
    requires DecodeAt(c, s.mem, s.ip).0 == Call(target) && StepAbs(c, s).Running?
    ensures StepAbs(c, s) ==
      Running(s.(ip := target, rs := [Wrap(c.w, s.ip + DecodeAt(c, s.mem, s.ip).1)] + s.rs))
  {
    hide DecodeAt; hide ExecAbs; hide Wrap;
    CallMeaning(c, s, target, Wrap(c.w, s.ip + DecodeAt(c, s.mem, s.ip).1));
  }

  /** A word called through and back: what it leaves is the return stack past the cells it took. */
  lemma CalledWordReturns(c: Config, s: Abs, word: nat, n: nat, z: nat, d: Depth)
    requires DecodeAt(c, s.mem, s.ip).0 == Call(word)
    requires Leads(c, s.mem, word, n, FRESH, z, d) && d.own == 0 && DecodeAt(c, s.mem, z).0.Exit?
    requires RunAbs(c, s, n + 2).Running? && RunKeeps(c, s, s.mem, word, z, n + 2)
    ensures d.below <= |s.rs|
    ensures
      var t, rs := RunAbs(c, s, n + 2).s, [Wrap(c.w, s.ip + DecodeAt(c, s.mem, s.ip).1)] + s.rs;
      t.ip == rs[d.below] && t.rs == rs[d.below + 1..]
  {
    hide DecodeAt; hide StepAbs; hide Leads; hide Wrap; hide RunAbs;
    KeepsNext(c, s, s.mem, word, z, n + 2);
    CallRuns(c, s, word);
    StraightWordReturns(c, StepAbs(c, s).s, s.mem, n, z, d);
  }

  /**
   A straight word called from the body and from its copy. The call comes back into the body, and the
   copy's run into the copy, exactly when the word takes no cell below its frame; else the copy has
   lost as many cells of the word it was inlined into, the call one fewer.
   */
  lemma StraightCalleeParts(c: Config, s: Abs, body: nat, copy: nat, word: nat, n: nat, z: nat, d: Depth)
    requires DecodeAt(c, s.mem, s.ip).0 == Call(body)
    requires DecodeAt(c, s.mem, body).0 == Call(word) && DecodeAt(c, s.mem, copy).0 == Call(word)
    requires Leads(c, s.mem, word, n, FRESH, z, d) && d.own == 0 && DecodeAt(c, s.mem, z).0.Exit?
    requires RunAbs(c, s, n + 3).Running? && RunKeeps(c, s, s.mem, word, z, n + 3)
    requires RunAbs(c, s.(ip := copy), n + 2).Running? && RunKeeps(c, s.(ip := copy), s.mem, word, z, n + 2)
    ensures d.below <= |s.rs|
    ensures
      var after := Wrap(c.w, s.ip + DecodeAt(c, s.mem, s.ip).1);
      var rs := [Wrap(c.w, body + DecodeAt(c, s.mem, body).1), after] + s.rs;
      var t := RunAbs(c, s, n + 3).s;
      t.ip == rs[d.below] && t.rs == rs[d.below + 1..]
    ensures
      var rs := [Wrap(c.w, copy + DecodeAt(c, s.mem, copy).1)] + s.rs;
      var t := RunAbs(c, s.(ip := copy), n + 2).s;
      t.ip == rs[d.below] && t.rs == rs[d.below + 1..] && (d.below == 0 <==> t.rs == s.rs)
  {
    hide DecodeAt; hide StepAbs; hide Leads; hide Wrap; hide RunAbs;
    KeepsNext(c, s, s.mem, word, z, n + 3);
    CallRuns(c, s, body);
    var s1 := StepAbs(c, s).s;
    CalledWordReturns(c, s1, word, n, z, d);
    CalledWordReturns(c, s.(ip := copy), word, n, z, d);
    var after, ra := s1.rs[0], Wrap(c.w, body + DecodeAt(c, s.mem, body).1);
    assert [ra] + s1.rs == [ra, after] + s.rs;
  }

  // ---- what a straight word sees -------------------------------------------

  /** The word called from the body and from its copy, in lockstep until it looks below its frame. */
  lemma {:induction false} StraightLockstep(c: Config, s: Abs, t: Abs, m: Memory, lo: nat, n: nat, d: Depth, z: nat,
                                            d': Depth, top: seq<nat>, sb: seq<nat>, tb: seq<nat>)
                                                returns (top': seq<nat>)
    requires Leads(c, m, s.ip, n, d, z, d') && d'.seen == 0 && lo <= s.ip
    requires t == s.(rs := top + tb) && s.rs == top + sb && |top| == d.own && |sb| == |tb| + 1
    requires RunAbs(c, s, n).Running? && RunKeeps(c, s, m, lo, z, n)
    ensures RunAbs(c, t, n).Running? && |top'| == d'.own
    ensures
      var s', t' := RunAbs(c, s, n).s, RunAbs(c, t, n).s;
      s'.ip == z && t' == s'.(rs := top' + tb) && s'.rs == top' + sb
    decreases n
  {
    hide DecodeAt; hide ExecAbs; hide StraightOp; hide Wrap; hide WordKept; hide RunKeeps; hide RunAbs;
    NoSteps(c, s);
    NoSteps(c, t);
    top' := top;
    if n > 0 {
      KeepsNext(c, s, m, lo, z, n);
      StraightKept(c, m, lo, s.ip, n, d, z, d', s.mem);
      LeadsOn(c, m, s.ip, n, d, z, d');
      var (i, k) := DecodeAt(c, m, s.ip);
      var d1 := Takes(i, d);
      LeadsOn(c, m, s.ip + k, n - 1, d1, z, d');
      StraightStep(c, s, i, s.ip + k);
      StraightArgs(i, d);
      var top1 := DeepStep(c, s, t, i, s.ip + k, top, sb, tb);
      var s1, t1 := StepAbs(c, s).s, StepAbs(c, t).s;
      assert |top1| + |sb| == |s1.rs| && |top| + |sb| == |s.rs|;
      assert |top1| == d1.own;
      top' := StraightLockstep(c, s1, t1, m, lo, n - 1, d1, z, d', top1, sb, tb);
      StepFirst(c, t, n);
    }
  }

  lemma StepFirst(c: Config, s: Abs, n: nat)
    requires n > 0 && StepAbs(c, s).Running?
    ensures RunAbs(c, s, n) == RunAbs(c, StepAbs(c, s).s, n - 1)
  {
    hide StepAbs;
    assert RunAbs(c, s, 0) == Running(s);
    assert RunAbs(c, s, 1) == StepAbs(c, s);
    RunAdd(c, s, 1, n - 1);
  }

  /** While nothing has been seen below the frame, an instruction looks at the word's own cells. */
  lemma StraightArgs(i: Instr, d: Depth)
    requires StraightOp(i) && Takes(i, d).seen == 0
    ensures RArgs(i) <= d.own && !i.RpFetch?
  {
  }

  /**
   Where it looks, the two runs part: the call's has on its data stack the return address in the
   body, the copy's that in the copy.
   */
  lemma StraightCalleeSees(c: Config, s: Abs, t: Abs, ra: nat, after: nat, rb: nat, r: seq<nat>, n: nat, d: Depth,
                           z: nat)
    requires t == s.(rs := [rb] + r) && s.rs == [ra, after] + r
    requires Leads(c, s.mem, s.ip, n, FRESH, z, d) && d.own == 0 && d.seen == 0
    requires DecodeAt(c, s.mem, z).0.RFrom? || DecodeAt(c, s.mem, z).0.RFetch?
    requires RunAbs(c, s, n + 1).Running? && RunKeeps(c, s, s.mem, s.ip, z, n + 1)
    ensures RunAbs(c, t, n + 1).Running?
    ensures
      var a, b := RunAbs(c, s, n + 1).s, RunAbs(c, t, n + 1).s;
      a.ds != [] && b.ds != [] && a.ds[0] == ra && b.ds[0] == rb && a.ds[1..] == b.ds[1..]
  {
    hide DecodeAt; hide ExecAbs; hide Leads; hide Wrap; hide WordKept;
    RunPrefix(c, s, n, n + 1);
    assert [] + s.rs == s.rs && [] + t.rs == t.rs;
    var top := StraightLockstep(c, s, t, s.mem, s.ip, n, FRESH, z, d, [], s.rs, t.rs);
    var a, b := RunAbs(c, s, n).s, RunAbs(c, t, n).s;
    assert a.rs == s.rs && b.rs == t.rs;
    LeadsOn(c, s.mem, s.ip, n, FRESH, z, d);
    LookKept(c, s.mem, s.ip, z, a.mem);
    var (i, k) := DecodeAt(c, s.mem, z);
    LookRuns(c, a, b, i, Wrap(c.w, z + k));
    StraightStep(c, a, i, Wrap(c.w, z + k));
    StraightStep(c, b, i, Wrap(c.w, z + k));
  }

  lemma LookKept(c: Config, m: Memory, lo: nat, z: nat, m': Memory)
    requires lo <= z && WordKept(m, lo, z, m') && (DecodeAt(c, m, z).0.RFrom? || DecodeAt(c, m, z).0.RFetch?)
    ensures DecodeAt(c, m', z) == DecodeAt(c, m, z)
  {
    hide Get; hide DecodeAt;
    LookLength(c, m, z);
    DecodeAtReach(c, m, m', z);
  }

  lemma LookLength(c: Config, m: Memory, z: nat)
    requires DecodeAt(c, m, z).0.RFrom? || DecodeAt(c, m, z).0.RFetch?
    ensures DecodeAt(c, m, z).1 == 1
  {
    hide Get; hide Wrap; hide Sext; hide Little;
  }

  lemma LookRuns(c: Config, s: Abs, t: Abs, i: Instr, next: nat)
    requires (i.RFrom? || i.RFetch?) && s.rs != [] && t.rs != [] && t == s.(rs := t.rs)
        && ExecAbs(c, s, i, next).Running?
    ensures ExecAbs(c, t, i, next).Running?
  {
    hide Wrap;
  }
}
