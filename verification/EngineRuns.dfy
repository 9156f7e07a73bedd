/**
 Whole runs of the engine against the machine with sequences for stacks: what it computes, that
 its stacks stay in their regions, and that a runaway recursion is stopped by the guard page.
 */
module EngineRuns {
  import opened Cells
  import opened Instructions
  import opened PlainMachine
  import opened StackMachine
  import opened Engine

  /** Boot's machine is this one with an empty return stack and the base on the data stack. */
  lemma BootLays(c: Config, image: Memory)
    requires c.Valid()
    ensures Lays(c, Booted(c, image), Abs(c.base, [c.base], [], image, []))
  {
    hide Load; hide Store; hide Get;
    var a := c.DTop() - c.C();
    StoreOnly(c.w, image, a, c.base);
    LoadStore(c.w, image, a, c.base);
  }

  /** No instruction of the run stores through an address. */
  ghost predicate NoStores(c: Config, s: Abs, n: nat) {
    forall k :: 0 <= k < n && RunAbs(c, s, k).Running? ==>
      !Stores(DecodeAt(c, RunAbs(c, s, k).s.mem, RunAbs(c, s, k).s.ip).0)
  }

  /** Over every run the two stacks stay in their regions. */
  lemma {:induction false} RunConfined(c: Config, s: Abs, n: nat)
    requires c.Valid() && Confined(c, s) && RunAbs(c, s, n).Running?
    ensures Confined(c, RunAbs(c, s, n).s)
    ensures NoStores(c, s, n) ==> RunAbs(c, s, n).s.mem == s.mem
  {
    hide StepAbs; hide Confined; hide Stores; hide DecodeAt;
    if n > 0 {
      RunConfined(c, s, n - 1);
      StepConfined(c, RunAbs(c, s, n - 1).s);
    }
  }

  /**
   The engine runs as the machine with sequences does, for as long as that machine has a meaning. A
   run that ends in a trap, such as a runaway push or recursion, leaves outside the stacks' regions
   just the memory of that machine's last state; without stores, what was there at the start.
   */
  method Follow(vm: VirtualMachine, ghost p: Plain, ghost s: Abs, steps: nat) returns (out: Outcome<()>)
    requires vm.Refines(p) && Lays(vm.c, p, s) && !RunAbs(vm.c, s, steps).NoMeaning?
    modifies vm, vm.lsaveStack
    ensures vm.Matches(out, Run(vm.c, p, steps)) && LaysOut(vm.c, Run(vm.c, p, steps), RunAbs(vm.c, s, steps))
    ensures out.Trap? ==> LeftBehind(vm.c, s, steps, vm.mem)
    ensures out.Trap? && Confined(vm.c, s) && NoStores(vm.c, s, steps) ==>
      AgreeOutside(vm.mem, s.mem, vm.c.DGuard(), vm.c.RTop())
  {
    ghost var c := vm.c;
    RunSimulates(c, p, s, steps);
    forall k | 0 <= k < steps && Run(c, p, k).Running?
      ensures CacheSafe(c, Run(c, p, k).s)
    {
      RunPrefix(c, s, k, steps);
      RunSimulates(c, p, s, k);
      MeaningIsSafe(c, Run(c, p, k).s, RunAbs(c, s, k).s);
    }
    out := vm.Execute(p, steps);
    if out.Trap? {
      ghost var k: nat :| && k < steps && Run(c, p, k).Running? && !Run(c, p, k + 1).Running?
                          && AgreeOutside(vm.mem, Run(c, p, k).s.mem, c.DGuard(), c.RTop());
      TrapKeeps(c, p, s, k, steps, vm.mem);
    }
  }

  /** m is the memory of the run's last state, outside the stacks' regions. */
  ghost predicate LeftBehind(c: Config, s: Abs, steps: nat, m: Memory) {
    exists k: nat ::
      && k < steps && RunAbs(c, s, k).Running? && !RunAbs(c, s, k + 1).Running?
      && AgreeOutside(m, RunAbs(c, s, k).s.mem, c.DGuard(), c.RTop())
  }

  lemma TrapKeeps(c: Config, p: Plain, s: Abs, k: nat, steps: nat, m: Memory)
    requires c.Valid() && Lays(c, p, s) && k < steps
    requires !RunAbs(c, s, steps).NoMeaning? && Run(c, p, k).Running? && !Run(c, p, k + 1).Running?
    requires AgreeOutside(m, Run(c, p, k).s.mem, c.DGuard(), c.RTop())
    ensures LeftBehind(c, s, steps, m)
    ensures Confined(c, s) && NoStores(c, s, steps) ==> AgreeOutside(m, s.mem, c.DGuard(), c.RTop())
  {
    hide *;
    RunPrefix(c, s, k, steps);
    RunPrefix(c, s, k + 1, steps);
    RunSimulates(c, p, s, k);
    RunSimulates(c, p, s, k + 1);
    StillLaid(c, Run(c, p, k), RunAbs(c, s, k), m);
    NotRunning(c, Run(c, p, k + 1), RunAbs(c, s, k + 1));
    IsLeftBehind(c, s, k, steps, m);
    if Confined(c, s) && NoStores(c, s, steps) {
      FewerStores(c, s, k, steps);
      RunConfined(c, s, k);
    }
  }

  lemma StillLaid(c: Config, o: Outcome<Plain>, oa: Outcome<Abs>, m: Memory)
    requires o.Running? && LaysOut(c, o, oa) && !oa.NoMeaning? && AgreeOutside(m, o.s.mem, c.DGuard(), c.RTop())
    ensures oa.Running? && AgreeOutside(m, oa.s.mem, c.DGuard(), c.RTop())
  {
    hide CellsAt; hide AreCells; hide Get;
  }

  lemma NotRunning(c: Config, o: Outcome<Plain>, oa: Outcome<Abs>)
    requires !o.Running? && LaysOut(c, o, oa)
    ensures !oa.Running?
  {
  }

  lemma IsLeftBehind(c: Config, s: Abs, k: nat, steps: nat, m: Memory)
    requires k < steps && RunAbs(c, s, k).Running? && !RunAbs(c, s, k + 1).Running?
    requires AgreeOutside(m, RunAbs(c, s, k).s.mem, c.DGuard(), c.RTop())
    ensures LeftBehind(c, s, steps, m)
  {
    hide RunAbs; hide AgreeOutside;
  }

  lemma FewerStores(c: Config, s: Abs, k: nat, steps: nat)
    requires k <= steps && NoStores(c, s, steps)
    ensures NoStores(c, s, k)
  {
    hide RunAbs; hide DecodeAt; hide Stores;
  }

  function Copies(x: nat, n: nat): (r: seq<nat>)
    ensures |r| == n
  {
    seq(n, _ => x)
  }

  lemma RecurseOnce(c: Config, s: Abs)
    requires Outside(c, s.ip, 10) && DecodeAt(c, s.mem, s.ip).0 == Call(s.ip)
    ensures StepAbs(c, s) ==
      if Rp(c, s) - c.C() < c.RFloor() then Trap(-5)
      else Running(s.(rs := [Wrap(c.w, s.ip + DecodeAt(c, s.mem, s.ip).1)] + s.rs))
  {
    hide DecodeAt; hide ExecAbs;
    CallMeaning(c, s, s.ip, Wrap(c.w, s.ip + DecodeAt(c, s.mem, s.ip).1));
  }

  /** `: R RECURSE ;` fills the return stack, then the guard page stops it with -5; memory is as it was. */
  lemma {:induction false} RunawayRecursion(c: Config, s: Abs, n: nat)
    requires c.Valid() && Confined(c, s) && Outside(c, s.ip, 10)
    requires DecodeAt(c, s.mem, s.ip).0 == Call(s.ip)
    requires Bytes(c.w, n + |s.rs|) <= RSTACK_BYTES
    ensures
      var next := Wrap(c.w, s.ip + DecodeAt(c, s.mem, s.ip).1);
      RunAbs(c, s, n) == Running(s.(rs := Copies(next, n) + s.rs))
    ensures Bytes(c.w, n + |s.rs|) == RSTACK_BYTES ==> RunAbs(c, s, n + 1) == Trap(-5)
  {
    hide DecodeAt; hide StepAbs; hide Wrap;
    var next := Wrap(c.w, s.ip + DecodeAt(c, s.mem, s.ip).1);
    var t := s.(rs := Copies(next, n) + s.rs);
    RecurseOnce(c, t);
    if n > 0 {
      RunawayRecursion(c, s, n - 1);
      RecurseOnce(c, s.(rs := Copies(next, n - 1) + s.rs));
      assert [next] + (Copies(next, n - 1) + s.rs) == Copies(next, n) + s.rs;
    } else {
      assert Copies(next, 0) + s.rs == s.rs;
    }
  }

  lemma PushOnce(c: Config, s: Abs, x: nat, next: nat)
    requires Outside(c, s.ip, 10) && Outside(c, next, 10)
    requires DecodeAt(c, s.mem, s.ip).0 == Lit(x, false) && next == Wrap(c.w, s.ip + DecodeAt(c, s.mem, s.ip).1)
    requires DecodeAt(c, s.mem, next).0 == Branch(s.ip)
    ensures Sp(c, s) < c.DLimit() ==> StepAbs(c, s) == Trap(-3)
    ensures Sp(c, s) >= c.DLimit() ==>
      && StepAbs(c, s) == Running(s.(ip := next, ds := [x] + s.ds))
      && StepAbs(c, s.(ip := next, ds := [x] + s.ds)) == Running(s.(ds := [x] + s.ds))
  {
    hide DecodeAt; hide Wrap;
    assert [x] + s.ds[0..] == [x] + s.ds && [] + s.rs[0..] == s.rs;
    var t := s.(ip := next, ds := [x] + s.ds);
    assert [] + t.ds[0..] == t.ds && [] + t.rs[0..] == t.rs;
  }

  /** `BEGIN 1 AGAIN` fills the data stack, then its guard page stops it with -3; memory is as it was. */
  lemma {:induction false} RunawayPush(c: Config, s: Abs, x: nat, next: nat, n: nat)
    requires c.Valid() && Confined(c, s) && Outside(c, s.ip, 10) && Outside(c, next, 10)
    requires DecodeAt(c, s.mem, s.ip).0 == Lit(x, false) && next == Wrap(c.w, s.ip + DecodeAt(c, s.mem, s.ip).1)
    requires DecodeAt(c, s.mem, next).0 == Branch(s.ip)
    requires Sp(c, s) - Bytes(c.w, n) >= c.DLimit() - c.C()
    ensures RunAbs(c, s, 2 * n) == Running(s.(ds := Copies(x, n) + s.ds))
    ensures Sp(c, s) - Bytes(c.w, n) == c.DLimit() - c.C() ==> RunAbs(c, s, 2 * n + 1) == Trap(-3)
  {
    hide DecodeAt; hide StepAbs; hide Wrap;
    var t := s.(ds := Copies(x, n) + s.ds);
    PushOnce(c, t, x, next);
    if n > 0 {
      var u := s.(ds := Copies(x, n - 1) + s.ds);
      RunawayPush(c, s, x, next, n - 1);
      PushOnce(c, u, x, next);
      assert [x] + (Copies(x, n - 1) + s.ds) == Copies(x, n) + s.ds;
      assert RunAbs(c, s, 2 * n - 1) == StepAbs(c, u);
    } else {
      assert Copies(x, 0) + s.ds == s.ds;
    }
  }
}
