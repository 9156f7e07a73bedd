/**
 The counted loop (engine/cv8.c:990-1011, docs/CV8.md 2.3): `limit start ?DO body LOOP` is laid
 as ?DO, a branch to the end, the body, LOOP and a branch back to the body. ?DO and LOOP decide by
 stepping over the branch after them, whichever of the two widths it has.
 */
module Loops {
  import opened Cells
  import opened Instructions
  import opened PlainMachine
  import opened StackMachine

  /** Addresses of ?DO, the body, LOOP and the code after the loop. */
  datatype Loop = Loop(start: nat, body: nat, loop: nat, end: nat) {
    /** The loop's own four instructions are in m, below the stacks. */
    ghost predicate In(c: Config, m: Memory) {
      && c.Valid() && start + 12 <= c.DGuard() && loop + 12 <= c.DGuard()
      && Get(m, start) == 0x45 && DecodeAt(c, m, start + 1) == (Branch(end), body - start - 1)
      && Get(m, loop) == 0x44 && DecodeAt(c, m, loop + 1) == (Branch(body), end - loop - 1)
      && start < body && loop < end
    }
  }

  lemma LoopDecodes(c: Config, m: Memory, g: Loop)
    requires g.In(c, m)
    ensures DecodeAt(c, m, g.start).0 == QDo(g.body) && DecodeAt(c, m, g.loop).0 == Instr.Loop(g.end)
    ensures DecodeAt(c, m, g.start).1 == 1 && DecodeAt(c, m, g.loop).1 == 1
  {
    hide DecodeAt; hide Get; hide Wrap;
    BranchBytes(c, m, g.start + 1);
    BranchBytes(c, m, g.loop + 1);
    StepsOver(c, m, g.start);
    StepsOver(c, m, g.loop);
  }

  lemma StepsOver(c: Config, m: Memory, a: nat)
    ensures
      var after := Wrap(c.w, a + 1 + if Get(m, a + 1) == OPC_BRANCH8 then 2 else 3);
      && (Get(m, a) == 0x45 ==> DecodeAt(c, m, a) == (QDo(after), 1))
      && (Get(m, a) == 0x44 ==> DecodeAt(c, m, a) == (Instr.Loop(after), 1))
  {
    hide Get; hide Wrap;
  }

  /** A branch is two or three bytes, by its opcode. */
  lemma BranchBytes(c: Config, m: Memory, a: int)
    requires DecodeAt(c, m, a).0.Branch?
    ensures DecodeAt(c, m, a).1 == if Get(m, a) == OPC_BRANCH8 then 2 else 3
  {
    hide Wrap; hide Little; hide Sext;
  }

  /** From s at the body, k steps come to LOOP with the return stack as it was. */
  ghost predicate BodyRuns(c: Config, g: Loop, s: Abs, k: nat) {
    var o := RunAbs(c, s, k);
    o.Running? && o.s.ip == g.loop && o.s.rs == s.rs && g.In(c, o.s.mem)
  }

  /** Where the body begins again after it has run once, in k steps, from s. */
  function Again(c: Config, g: Loop, s: Abs, k: nat): Abs {
    match RunAbs(c, s, k)
    case Running(t) =>
      if t.rs == [] then t else t.(ip := g.body, rs := [Wrap(c.w, t.rs[0] + 1)] + t.rs[1..])
    case _ => s
  }

  /**
   A body that, from any state inv describes, comes to LOOP in steps(s) steps without disturbing
   the return stack, and leaves inv true for the next time round.
   */
  ghost predicate Neutral(c: Config, g: Loop, inv: Abs -> bool, steps: Abs -> nat) {
    forall s :: inv(s) && s.ip == g.body && |s.rs| >= 2 ==>
      && BodyRuns(c, g, s, steps(s))
      && (Wrap(c.w, s.rs[0] + 1) != s.rs[1] ==> inv(Again(c, g, s, steps(s))))
  }

  /** The state in which the body begins for the j-th time, counting from 0, and the steps until then. */
  function Entry(c: Config, g: Loop, s: Abs, steps: Abs -> nat, j: nat): Abs {
    if j == 0 then s
    else
      var e := Entry(c, g, s, steps, j - 1);
      Again(c, g, e, steps(e))
  }

  function Clock(c: Config, g: Loop, s: Abs, steps: Abs -> nat, j: nat): nat {
    if j == 0 then 0 else Clock(c, g, s, steps, j - 1) + steps(Entry(c, g, s, steps, j - 1)) + 2
  }

  lemma LoopMeaning(c: Config, s: Abs, after: nat, next: nat)
    requires |s.rs| >= 2
    ensures
      var n := Wrap(c.w, s.rs[0] + 1);
      ExecAbs(c, s, Instr.Loop(after), next) ==
      if n == s.rs[1] then Running(s.(ip := after, rs := s.rs[2..]))
      else Running(s.(ip := next, rs := [n] + s.rs[1..]))
  {
    hide Wrap;
    assert [] + s.ds[0..] == s.ds && [] + s.rs[2..] == s.rs[2..];
  }

  lemma QDoMeaning(c: Config, s: Abs, after: nat, next: nat)
    requires |s.ds| >= 2 && c.RFloor() + 2 * c.C() <= Rp(c, s)
    ensures ExecAbs(c, s, QDo(after), next) ==
      if s.ds[0] == s.ds[1] then Running(s.(ip := next, ds := s.ds[2..]))
      else Running(s.(ip := after, ds := s.ds[2..], rs := s.ds[..2] + s.rs))
  {
    hide Wrap;
    assert [] + s.ds[2..] == s.ds[2..] && [] + s.rs[0..] == s.rs && s.ds[..2] + s.rs[0..] == s.ds[..2] + s.rs;
  }

  lemma BranchMeaning(c: Config, s: Abs, target: nat, next: nat)
    ensures ExecAbs(c, s, Branch(target), next) == Running(s.(ip := target))
  {
    hide Wrap;
    assert [] + s.ds[0..] == s.ds && [] + s.rs[0..] == s.rs;
  }

  /** LOOP from s: past the end at the limit, else by the branch back to the body. */
  lemma LoopStep(c: Config, g: Loop, s: Abs)
    requires g.In(c, s.mem) && s.ip == g.loop && |s.rs| >= 2
    ensures
      var n := Wrap(c.w, s.rs[0] + 1);
      if n == s.rs[1] then RunAbs(c, s, 1) == Running(s.(ip := g.end, rs := s.rs[2..]))
      else RunAbs(c, s, 2) == Running(s.(ip := g.body, rs := [n] + s.rs[1..]))
  {
    hide DecodeAt; hide ExecAbs; hide Wrap; hide Get;
    LoopDecodes(c, s.mem, g);
    LoopMeaning(c, s, g.end, g.loop + 1);
    var n := Wrap(c.w, s.rs[0] + 1);
    var t := s.(ip := g.loop + 1, rs := [n] + s.rs[1..]);
    BranchMeaning(c, t, g.body, g.end);
    assert RunAbs(c, s, 1) == StepAbs(c, s) by { assert RunAbs(c, s, 0) == Running(s); }
    if n != s.rs[1] {
      assert RunAbs(c, s, 1) == Running(t);
    }
  }

  /** (limit - i) mod 2^w. */
  function Rounds(w: Width, i: nat, limit: nat): (r: nat)
    ensures r < Modulus(w)
  {
    var d: int := limit - i;
    Wrap(w, d)
  }

  /** Counting up from i with wrap-around first meets limit after Rounds. */
  lemma RoundsMeet(w: Width, i: nat, limit: nat, k: nat)
    requires i < Modulus(w) && limit < Modulus(w) && k < Modulus(w)
    ensures Wrap(w, i + k) == limit <==> k == Rounds(w, i, limit)
    ensures Wrap(w, Wrap(w, i + k) + 1) == Wrap(w, i + k + 1)
  {
  }

  /** Once round, not at the limit: the body, LOOP and the branch back. */
  lemma OneRound(c: Config, g: Loop, e: Abs, k: nat)
    requires |e.rs| >= 2 && BodyRuns(c, g, e, k) && Wrap(c.w, e.rs[0] + 1) != e.rs[1]
    ensures RunAbs(c, e, k + 2) == Running(Again(c, g, e, k))
    ensures Again(c, g, e, k).ip == g.body && Again(c, g, e, k).rs == [Wrap(c.w, e.rs[0] + 1)] + e.rs[1..]
  {
    hide Wrap; hide StepAbs; hide RunAbs; hide Loop.In;
    LoopStep(c, g, RunAbs(c, e, k).s);
    RunAdd(c, e, k, 2);
  }

  /** The last time round: LOOP drops its two cells and goes past the branch back. */
  lemma LastRound(c: Config, g: Loop, e: Abs, k: nat)
    requires |e.rs| >= 2 && BodyRuns(c, g, e, k) && Wrap(c.w, e.rs[0] + 1) == e.rs[1]
    ensures RunAbs(c, e, k + 1) == Running(RunAbs(c, e, k).s.(ip := g.end, rs := e.rs[2..]))
  {
    hide Wrap; hide StepAbs; hide RunAbs; hide Loop.In;
    LoopStep(c, g, RunAbs(c, e, k).s);
    RunAdd(c, e, k, 1);
  }

  /** The j-th time round, for every j below the distance, I is start + j. */
  lemma {:induction false} Iterates(c: Config, g: Loop, s: Abs, inv: Abs -> bool, steps: Abs -> nat, j: nat)
    requires Neutral(c, g, inv, steps) && inv(s) && s.ip == g.body && |s.rs| >= 2
    requires s.rs[0] < Modulus(c.w) && s.rs[1] < Modulus(c.w) && j < Rounds(c.w, s.rs[0], s.rs[1])
    ensures
      var e := Entry(c, g, s, steps, j);
      && RunAbs(c, s, Clock(c, g, s, steps, j)) == Running(e) && inv(e)
      && e.ip == g.body && e.rs == [Wrap(c.w, s.rs[0] + j)] + s.rs[1..]
  {
    hide Wrap; hide RunAbs; hide BodyRuns; hide Again; hide Rounds;
    if j == 0 {
      assert s.rs == [s.rs[0]] + s.rs[1..];
      RunZero(c, s);
    } else {
      Iterates(c, g, s, inv, steps, j - 1);
      RoundsMeet(c.w, s.rs[0], s.rs[1], j - 1);
      RoundsMeet(c.w, s.rs[0], s.rs[1], j);
      var e := Entry(c, g, s, steps, j - 1);
      assert e.rs[1..] == s.rs[1..] && e.rs[1] == s.rs[1];
      OneRound(c, g, e, steps(e));
      RunAdd(c, s, Clock(c, g, s, steps, j - 1), steps(e) + 2);
    }
  }

  lemma RunZero(c: Config, s: Abs)
    ensures RunAbs(c, s, 0) == Running(s)
  {
  }

  /** The run from the body's first beginning to the end of the loop. */
  lemma Completes(c: Config, g: Loop, s: Abs, inv: Abs -> bool, steps: Abs -> nat)
    requires Neutral(c, g, inv, steps) && inv(s) && s.ip == g.body && |s.rs| >= 2
    requires s.rs[0] < Modulus(c.w) && s.rs[1] < Modulus(c.w) && Rounds(c.w, s.rs[0], s.rs[1]) > 0
    ensures
      var n := Rounds(c.w, s.rs[0], s.rs[1]);
      var e := Entry(c, g, s, steps, n - 1);
      && RunAbs(c, e, steps(e)).Running?
      && RunAbs(c, s, Clock(c, g, s, steps, n - 1) + steps(e) + 1)
         == Running(RunAbs(c, e, steps(e)).s.(ip := g.end, rs := s.rs[2..]))
  {
    hide Wrap; hide RunAbs; hide Again; hide Rounds; hide Loop.In;
    var n := Rounds(c.w, s.rs[0], s.rs[1]);
    Iterates(c, g, s, inv, steps, n - 1);
    RoundsMeet(c.w, s.rs[0], s.rs[1], n - 1);
    RoundsMeet(c.w, s.rs[0], s.rs[1], n);
    var e := Entry(c, g, s, steps, n - 1);
    assert e.rs[1..] == s.rs[1..] && e.rs[1] == s.rs[1] && e.rs[2..] == s.rs[2..];
    LastRound(c, g, e, steps(e));
    RunAdd(c, s, Clock(c, g, s, steps, n - 1), steps(e) + 1);
  }

  /**
   `limit start ?DO body LOOP`: nothing at all when they are equal; else the body begins exactly
   (limit - start) mod 2^w times, its I counting up from start with wrap-around, and the loop ends
   after its branch back with the return stack as it was.
   */
  lemma DoLoop(c: Config, g: Loop, s: Abs, inv: Abs -> bool, steps: Abs -> nat)
    requires g.In(c, s.mem) && s.ip == g.start && |s.ds| >= 2 && c.RFloor() + 2 * c.C() <= Rp(c, s)
    requires s.ds[0] < Modulus(c.w) && s.ds[1] < Modulus(c.w)
    requires Neutral(c, g, inv, steps) && inv(s.(ip := g.body, ds := s.ds[2..], rs := s.ds[..2] + s.rs))
    ensures
      var start, limit := s.ds[0], s.ds[1];
      var n := Rounds(c.w, start, limit);
      if n == 0 then RunAbs(c, s, 2) == Running(s.(ip := g.end, ds := s.ds[2..]))
      else
        var b := s.(ip := g.body, ds := s.ds[2..], rs := s.ds[..2] + s.rs);
        var last := Entry(c, g, b, steps, n - 1);
        && (forall j: nat :: j < n ==>
              && RunAbs(c, s, 1 + Clock(c, g, b, steps, j)) == Running(Entry(c, g, b, steps, j))
              && Entry(c, g, b, steps, j).rs == [Wrap(c.w, start + j), limit] + s.rs)
        && RunAbs(c, last, steps(last)).Running?
        && RunAbs(c, s, 2 + Clock(c, g, b, steps, n - 1) + steps(last))
           == Running(RunAbs(c, last, steps(last)).s.(ip := g.end, rs := s.rs))
  {
    hide Wrap; hide RunAbs; hide Loop.In; hide Neutral; hide Rounds; hide Entry; hide Clock;
    var start, limit := s.ds[0], s.ds[1];
    var n := Rounds(c.w, start, limit);
    RoundsMeet(c.w, start, limit, 0);
    EnterLoop(c, g, s);
    if n != 0 {
      var b := s.(ip := g.body, ds := s.ds[2..], rs := s.ds[..2] + s.rs);
      var last := Entry(c, g, b, steps, n - 1);
      assert b.rs[0] == start && b.rs[1] == limit && b.rs[1..] == [limit] + s.rs && b.rs[2..] == s.rs;
      forall j: nat | j < n
        ensures RunAbs(c, s, 1 + Clock(c, g, b, steps, j)) == Running(Entry(c, g, b, steps, j))
        ensures Entry(c, g, b, steps, j).rs == [Wrap(c.w, start + j), limit] + s.rs
      {
        Iterates(c, g, b, inv, steps, j);
        RunAdd(c, s, 1, Clock(c, g, b, steps, j));
        assert [Wrap(c.w, start + j)] + ([limit] + s.rs) == [Wrap(c.w, start + j), limit] + s.rs;
      }
      Completes(c, g, b, inv, steps);
      RunAdd(c, s, 1, Clock(c, g, b, steps, n - 1) + steps(last) + 1);
    }
  }

  lemma EnterLoop(c: Config, g: Loop, s: Abs)
    requires g.In(c, s.mem) && s.ip == g.start && |s.ds| >= 2 && c.RFloor() + 2 * c.C() <= Rp(c, s)
    ensures
      if s.ds[0] == s.ds[1] then RunAbs(c, s, 2) == Running(s.(ip := g.end, ds := s.ds[2..]))
      else RunAbs(c, s, 1) == Running(s.(ip := g.body, ds := s.ds[2..], rs := s.ds[..2] + s.rs))
  {
    hide DecodeAt; hide ExecAbs; hide Wrap; hide Get;
    LoopDecodes(c, s.mem, g);
    QDoMeaning(c, s, g.body, g.start + 1);
    var t := s.(ip := g.start + 1, ds := s.ds[2..]);
    BranchMeaning(c, t, g.end, g.body);
    assert RunAbs(c, s, 1) == StepAbs(c, s) by { assert RunAbs(c, s, 0) == Running(s); }
    if s.ds[0] == s.ds[1] {
      assert RunAbs(c, s, 1) == Running(t);
    }
  }

  lemma EmptyNeutral(c: Config, g: Loop, m: Memory, inv: Abs -> bool, steps: Abs -> nat)
    requires g.In(c, m) && g.body == g.loop
    requires (forall x :: inv(x) <==> x.mem == m) && forall x :: steps(x) == 0
    ensures Neutral(c, g, inv, steps)
  {
    hide DecodeAt; hide StepAbs; hide Wrap; hide Loop.In;
    forall x: Abs | inv(x) && x.ip == g.body && |x.rs| >= 2
      ensures BodyRuns(c, g, x, steps(x)) && inv(Again(c, g, x, steps(x)))
    {
      RunZero(c, x);
    }
  }

  lemma {:induction false} EmptyRounds(c: Config, g: Loop, b: Abs, steps: Abs -> nat, j: nat)
    requires |b.rs| >= 2 && b.ip == g.body && forall x :: steps(x) == 0
    ensures Clock(c, g, b, steps, j) == 2 * j
    ensures
      var e := Entry(c, g, b, steps, j);
      |e.rs| >= 2 && e == b.(rs := e.rs)
  {
    hide Wrap; hide StepAbs;
    if j > 0 {
      EmptyRounds(c, g, b, steps, j - 1);
      RunZero(c, Entry(c, g, b, steps, j - 1));
    }
  }

  /** A loop without a body: (limit - start) mod 2^w times LOOP and its branch, and nothing changed. */
  lemma EmptyLoop(c: Config, g: Loop, s: Abs)
    requires g.In(c, s.mem) && g.body == g.loop
    requires s.ip == g.start && |s.ds| >= 2 && c.RFloor() + 2 * c.C() <= Rp(c, s)
    requires s.ds[0] < Modulus(c.w) && s.ds[1] < Modulus(c.w)
    ensures
      var n := Rounds(c.w, s.ds[0], s.ds[1]);
      RunAbs(c, s, if n == 0 then 2 else 2 * n) == Running(s.(ip := g.end, ds := s.ds[2..]))
  {
    hide *;
    var n := Rounds(c.w, s.ds[0], s.ds[1]);
    var inv, steps := (x: Abs) => x.mem == s.mem, (x: Abs) => 0;
    EmptyNeutral(c, g, s.mem, inv, steps);
    DoLoop(c, g, s, inv, steps);
    if n > 0 {
      var b := s.(ip := g.body, ds := s.ds[2..], rs := s.ds[..2] + s.rs);
      var last := Entry(c, g, b, steps, n - 1);
      EmptyRounds(c, g, b, steps, n - 1);
      RunZero(c, last);
      assert last.(ip := g.end, rs := s.rs) == s.(ip := g.end, ds := s.ds[2..]);
    }
  }
}
