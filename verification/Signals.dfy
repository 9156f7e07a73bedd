/**
 Signals caught into flags or thrown (engine/cv8.c:725-745, 1319-1372, 1735-1768), as a state machine in
 which a signal may be delivered between any two steps of a primitive, or inside another's handler.
 */
module Signals {

  const NSIG_FLAGS := 65

  datatype Act = Default | Ignore | Catch | CatchNoRestart | Throw

  /** The handler SIGACTION installs for its action argument. */
  function ActOf(act: int): Act {
    if act == 1 then Ignore else if act == 2 then Catch else if act == 3 then CatchNoRestart
    else if act == 4 then Throw else Default
  }

  /** SIGBUS 7, SIGFPE 8, SIGKILL 9, SIGSEGV 11 and SIGSTOP 19 are refused. */
  predicate Settable(sig: int) {
    0 < sig < NSIG_FLAGS && sig !in {7, 8, 9, 11, 19}
  }

  /**
   Where the engine is: between primitives; in SIGNALS-PENDING, about to test flag i, to clear it, or to
   push its number; in SIGACTION, the flag dealt with and the handler not yet changed; in ALLOCATE, FREE
   or RESIZE, before, in and after libc's call.
   */
  datatype Where =
    | Idle
    | Testing(i: nat)
    | Found(i: nat)
    | Cleared(i: nat)
    | Changing(sig: nat, act: int)
    | AllocEntered
    | InAllocator
    | AllocLeft

  /**
   What became of one delivery of a caught signal: its handler is entered and has not run yet; it waits
   with its flag up; a poll has taken it and not yet pushed its answer; the poll with this answer reported
   it; it was thrown as -28; SIGACTION has taken its flag down and not yet changed the handler; its signal
   was then set to default or ignore; or it was lost.
   */
  datatype Fate =
    | Entered(sig: nat)
    | Waiting(sig: nat)
    | Taken(sig: nat)
    | Reported(sig: nat, answer: nat)
    | Thrown(sig: nat)
    | Erased(sig: nat)
    | Dropped(sig: nat)
    | Lost(sig: nat)

  /**
   handlers are the handlers entered and not run, the innermost first: none of them blocks another's
   signal (sa_mask is empty), only its own. answers is what the polls have pushed, fates the history of
   the deliveries in their order.
   */
  datatype State = State(flags: set<nat>, action: map<nat, Act>, trapXt: bool, inAlloc: bool, at: Where,
                         handlers: seq<nat>, answers: seq<nat>, fates: seq<Fate>)

  /**
   A delivery, which enters its signal's handler; the innermost handler's run; the start of a primitive;
   or the engine's next step in the one it is in.
   */
  datatype Event =
    | Deliver(sig: nat)
    | Handle
    | Advance
    | SignalsPending
    | SigAction(signo: int, act: int)
    | TrapXt(xt: bool)
    | Allocate
    | Fault

  function ActionFor(s: State, sig: nat): Act {
    if sig in s.action then s.action[sig] else Default
  }

  function Move(fates: seq<Fate>, from: Fate, to: Fate): (r: seq<Fate>)
    ensures |r| == |fates|
    ensures forall d :: 0 <= d < |fates| ==> r[d] == if fates[d] == from then to else fates[d]
  {
    seq(|fates|, d requires 0 <= d < |fates| => if fates[d] == from then to else fates[d])
  }

  /** Each handler's own Entered fate, abandoned. */
  function Abandon(fates: seq<Fate>): (r: seq<Fate>)
    ensures |r| == |fates|
    ensures forall d :: 0 <= d < |fates| ==> r[d] == if fates[d].Entered? then Lost(fates[d].sig) else fates[d]
  {
    seq(|fates|, d requires 0 <= d < |fates| => if fates[d].Entered? then Lost(fates[d].sig) else fates[d])
  }

  predicate Caught(s: State, sig: nat) {
    0 < sig < NSIG_FLAGS && ActionFor(s, sig) !in {Default, Ignore}
  }

  /** A handler is entered, unless it has been: its own signal is blocked, and delivered when it has returned. */
  function Enter(s: State, sig: nat): State {
    if !Caught(s, sig) || sig in s.handlers then s
    else s.(handlers := [sig] + s.handlers, fates := s.fates + [Entered(sig)])
  }

  /** trap_restart: whatever the engine was doing is abandoned, a poll's answer or a change of handler with it. */
  function Restart(s: State): State {
    match s.at
    case Cleared(i) => s.(at := Idle, fates := Move(s.fates, Taken(i), Lost(i)))
    case Changing(sig, _) => s.(at := Idle, fates := Move(s.fates, Erased(sig), Lost(sig)))
    case _ => s.(at := Idle)
  }

  predicate Throws(s: State, sig: nat) {
    ActionFor(s, sig) == Throw && s.trapXt && !s.inAlloc
  }

  /** The innermost handler runs: it jumps out over all the others, or raises its flag and returns. */
  function RunHandler(s: State): State
    requires s.handlers != []
  {
    var sig := s.handlers[0];
    if Throws(s, sig) then
      var t := Restart(s);
      t.(handlers := [], fates := Abandon(Move(t.fates, Entered(sig), Thrown(sig))))
    else
      s.(handlers := s.handlers[1..], flags := s.flags + {sig}, fates := Move(s.fates, Entered(sig), Waiting(sig)))
  }

  function AdvanceOne(s: State): State {
    match s.at
    case Idle => s
    case Testing(i) =>
      if i >= NSIG_FLAGS then s.(at := Idle, answers := s.answers + [0])
      else if i in s.flags then s.(at := Found(i))
      else s.(at := Testing(i + 1))
    case Found(i) => s.(at := Cleared(i), flags := s.flags - {i}, fates := Move(s.fates, Waiting(i), Taken(i)))
    case Cleared(i) =>
      s.(at := Idle, answers := s.answers + [i], fates := Move(s.fates, Taken(i), Reported(i, |s.answers|)))
    case Changing(sig, act) =>
      s.(at := Idle, action := s.action[sig := ActOf(act)], fates := Move(s.fates, Erased(sig), Dropped(sig)))
    case AllocEntered => s.(at := InAllocator, inAlloc := true)
    case InAllocator => s.(at := AllocLeft)
    case AllocLeft => s.(at := Idle, inAlloc := false)
  }

  /**
   A fault in a guard page, with a trap word, restarts the engine: between primitives, in the
   allocator, or where a poll pushes its answer and SIGNALS-PENDING's own SPILL has taken the last cell.
   */
  predicate Faults(s: State) {
    s.trapXt
    && (s.at.Idle? || s.at.InAllocator? || s.at.Cleared? || (s.at.Testing? && s.at.i >= NSIG_FLAGS))
  }

  /** The engine's own steps, no handler running. A primitive starts only between primitives. */
  function EngineStep(s: State, e: Event): State {
    match e
    case Advance => AdvanceOne(s)
    case SignalsPending => if s.at.Idle? then s.(at := Testing(1)) else s
    case SigAction(sig, act) =>
      if !s.at.Idle? || !Settable(sig) then s
      else if act < 2 then
        s.(flags := s.flags - {sig}, fates := Move(s.fates, Waiting(sig), Erased(sig)), at := Changing(sig, act))
      else s.(at := Changing(sig, act))
    case TrapXt(xt) => if s.at.Idle? then s.(trapXt := xt) else s
    case Allocate => if s.at.Idle? then s.(at := AllocEntered) else s
    case Fault => if Faults(s) then Restart(s) else s
    case _ => s
  }

  function Step(s: State, e: Event): State {
    match e
    case Deliver(sig) => Enter(s, sig)
    case Handle => if s.handlers == [] then s else RunHandler(s)
    case _ => if s.handlers == [] then EngineStep(s, e) else s
  }

  function Run(s: State, es: seq<Event>): State {
    if es == [] then s else Step(Run(s, es[..|es| - 1]), es[|es| - 1])
  }

  function Boot(): State {
    State({}, map[], false, false, Idle, [], [], [])
  }

  // ---- what every step keeps -----------------------------------------------

  ghost predicate Some(fates: seq<Fate>, f: Fate) {
    exists d :: 0 <= d < |fates| && fates[d] == f
  }

  /** The flags that are up are those of the deliveries waiting, no more and no fewer. */
  ghost predicate FlagsTell(s: State) {
    forall f: nat :: f in s.flags <==> Some(s.fates, Waiting(f)) && 0 < f < NSIG_FLAGS
  }

  /**
   A poll that has cleared a flag has taken deliveries of that signal; else none are taken. None are
   erased but while SIGACTION, having cleared their flag, is about to change the handler.
   */
  ghost predicate PollHolds(s: State) {
    && (s.at.Cleared? ==> Some(s.fates, Taken(s.at.i)))
    && (s.at.Found? ==> s.at.i in s.flags)
    && (s.at.Testing? ==> s.at.i >= 1)
    && (forall d :: 0 <= d < |s.fates| && s.fates[d].Taken? ==> s.at == Cleared(s.fates[d].sig))
    && forall d :: 0 <= d < |s.fates| && s.fates[d].Erased? ==>
         s.at.Changing? && s.at.sig == s.fates[d].sig && s.at.act < 2
  }

  /** What was reported was the answer of the poll that reported it; only caught signals have fates. */
  ghost predicate FatesMean(s: State) {
    forall d :: 0 <= d < |s.fates| ==>
      && 0 < s.fates[d].sig < NSIG_FLAGS
      && (s.fates[d].Reported? ==> s.fates[d].answer < |s.answers| && s.answers[s.fates[d].answer] == s.fates[d].sig)
  }

  /** The handlers entered are those whose deliveries have not got further. */
  ghost predicate HandlersHold(s: State) {
    && (forall f: nat :: f in s.handlers <==> Some(s.fates, Entered(f)))
    && forall i, j :: 0 <= i < j < |s.handlers| ==> s.handlers[i] != s.handlers[j]
  }

  ghost predicate Good(s: State) {
    && FlagsTell(s) && PollHolds(s) && FatesMean(s) && HandlersHold(s)
    && (s.at.InAllocator? ==> s.inAlloc)
  }

  lemma MoveSome(fates: seq<Fate>, from: Fate, to: Fate, f: Fate)
    ensures Some(Move(fates, from, to), f) <==>
      (f != from && Some(fates, f)) || (f == to && Some(fates, from))
  {
    var r := Move(fates, from, to);
    if d :| 0 <= d < |fates| && fates[d] == f { assert r[d] == if f == from then to else f; }
    if d :| 0 <= d < |fates| && fates[d] == from { assert r[d] == to; }
  }

  lemma MoveSomeAll(fates: seq<Fate>, from: Fate, to: Fate)
    ensures forall f: Fate ::
              Some(Move(fates, from, to), f) <==> (f != from && Some(fates, f)) || (f == to && Some(fates, from))
  {
    hide Some;
    forall f: Fate
      ensures Some(Move(fates, from, to), f) <==> (f != from && Some(fates, f)) || (f == to && Some(fates, from))
    {
      MoveSome(fates, from, to, f);
    }
  }

  lemma AddSome(fates: seq<Fate>, g: Fate, f: Fate)
    ensures Some(fates + [g], f) <==> Some(fates, f) || f == g
  {
    if d :| 0 <= d < |fates| && fates[d] == f { assert (fates + [g])[d] == f; }
    assert (fates + [g])[|fates|] == g;
  }

  lemma AbandonSome(fates: seq<Fate>)
    ensures forall f: Fate :: Some(Abandon(fates), f) <==>
              !f.Entered? && (Some(fates, f) || (f.Lost? && Some(fates, Entered(f.sig))))
  {
    var r := Abandon(fates);
    forall f: Fate
      ensures Some(r, f) <==> !f.Entered? && (Some(fates, f) || (f.Lost? && Some(fates, Entered(f.sig))))
    {
      if d :| 0 <= d < |fates| && fates[d] == f { assert !f.Entered? ==> r[d] == f; }
      if f.Lost? {
        if d :| 0 <= d < |fates| && fates[d] == Entered(f.sig) { assert r[d] == f; }
      }
      if d :| 0 <= d < |r| && r[d] == f { assert fates[d] == f || (f.Lost? && fates[d] == Entered(f.sig)); }
    }
  }

  lemma EnterKeeps(s: State, sig: nat)
    requires Good(s)
    ensures Good(Enter(s, sig))
  {
    hide Some;
    forall f: Fate
      ensures Some(s.fates + [Entered(sig)], f) <==> Some(s.fates, f) || f == Entered(sig)
    {
      AddSome(s.fates, Entered(sig), f);
    }
  }

  lemma RestartKeeps(s: State)
    requires Good(s)
    ensures Good(Restart(s))
  {
    hide Some;
    match s.at
    case Cleared(i) => MoveSomeAll(s.fates, Taken(i), Lost(i));
    case Changing(sig, _) => MoveSomeAll(s.fates, Erased(sig), Lost(sig));
    case _ =>
  }

  lemma RaiseKeeps(s: State)
    requires Good(s) && s.handlers != [] && !Throws(s, s.handlers[0])
    ensures Good(RunHandler(s))
  {
    var sig := s.handlers[0];
    HandlerRange(s, sig);
    hide Some;
    MoveSomeAll(s.fates, Entered(sig), Waiting(sig));
  }

  lemma HandlerRange(s: State, sig: nat)
    requires Good(s) && sig in s.handlers
    ensures 0 < sig < NSIG_FLAGS && Some(s.fates, Entered(sig))
  {
    var d :| 0 <= d < |s.fates| && s.fates[d] == Entered(sig);
  }

  lemma ThrowKeeps(s: State)
    requires Good(s) && s.handlers != [] && Throws(s, s.handlers[0])
    ensures Good(RunHandler(s))
  {
    RestartKeeps(s);
    hide Good;
    JumpKeeps(Restart(s), s.handlers[0]);
  }

  lemma JumpKeeps(s: State, sig: nat)
    requires Good(s) && s.at.Idle? && sig in s.handlers
    ensures Good(s.(handlers := [], fates := Abandon(Move(s.fates, Entered(sig), Thrown(sig)))))
  {
    HandlerRange(s, sig);
    hide Some;
    MoveSomeAll(s.fates, Entered(sig), Thrown(sig));
    AbandonSome(Move(s.fates, Entered(sig), Thrown(sig)));
  }

  lemma AdvanceKeeps(s: State)
    requires Good(s)
    ensures Good(AdvanceOne(s))
  {
    hide Some;
    match s.at
    case Found(i) =>
      MoveSomeAll(s.fates, Waiting(i), Taken(i));
    case Cleared(i) =>
      var to := Reported(i, |s.answers|);
      MoveSomeAll(s.fates, Taken(i), to);
    case Changing(sig, _) =>
      MoveSomeAll(s.fates, Erased(sig), Dropped(sig));
    case _ =>
  }

  lemma EraseKeeps(s: State, sig: nat, act: int)
    requires Good(s) && s.at.Idle? && act < 2
    ensures Good(s.(flags := s.flags - {sig}, fates := Move(s.fates, Waiting(sig), Erased(sig)),
                    at := Changing(sig, act)))
  {
    hide Some;
    MoveSomeAll(s.fates, Waiting(sig), Erased(sig));
  }

  /** Whatever is delivered whenever, in a handler too: the flags keep telling what waits. */
  lemma StepKeeps(s: State, e: Event)
    requires Good(s)
    ensures Good(Step(s, e))
  {
    match e
    case Deliver(sig) => EnterKeeps(s, sig);
    case Handle =>
      if s.handlers != [] {
        if Throws(s, s.handlers[0]) { ThrowKeeps(s); } else { RaiseKeeps(s); }
      }
    case Advance => AdvanceKeeps(s);
    case SigAction(sig, act) =>
      if s.at.Idle? && Settable(sig) && act < 2 { EraseKeeps(s, sig, act); }
    case Fault => RestartKeeps(s);
    case _ =>
  }

  lemma {:induction false} RunKeeps(es: seq<Event>)
    ensures Good(Run(Boot(), es))
  {
    if es != [] {
      RunKeeps(es[..|es| - 1]);
      StepKeeps(Run(Boot(), es[..|es| - 1]), es[|es| - 1]);
    }
  }

  // ---- where deliveries end up ---------------------------------------------

  /** The event abandons what the engine is doing: a signal thrown as -28, or a fault. */
  predicate Restarts(s: State, e: Event) {
    if s.handlers != [] then e.Handle? && Throws(s, s.handlers[0]) else e.Fault? && Faults(s)
  }

  /** The innermost handler runs, and is sig's. */
  predicate Handles(s: State, e: Event, sig: nat) {
    e.Handle? && s.handlers != [] && s.handlers[0] == sig
  }

  /** The engine takes a step of its own. */
  predicate Advances(s: State, e: Event) {
    e.Advance? && s.handlers == []
  }

  /**
   A delivery's handler raises its flag or throws; it waits until a poll takes it or SIGACTION erases
   it; what is taken is reported, what is erased dropped when the handler changes. A restart that comes
   first loses it, and so does a throw from a handler inside its own.
   */
  ghost predicate MayBecome(s: State, e: Event, f: Fate, g: Fate) {
    || g == f
    || (f.Entered? && Handles(s, e, f.sig) && g == if Throws(s, f.sig) then Thrown(f.sig) else Waiting(f.sig))
    || (f.Entered? && f.sig in s.handlers && f.sig != s.handlers[0] && Restarts(s, e) && g == Lost(f.sig))
    || (f.Waiting? && s.at == Found(f.sig) && Advances(s, e) && g == Taken(f.sig))
    || (f.Waiting? && Erases(s, e) && e.signo == f.sig && g == Erased(f.sig))
    || (f.Taken? && s.at == Cleared(f.sig) && Advances(s, e) && g == Reported(f.sig, |s.answers|))
    || (f.Taken? && s.at == Cleared(f.sig) && Restarts(s, e) && g == Lost(f.sig))
    || (f.Erased? && s.at.Changing? && s.at.sig == f.sig && Advances(s, e) && g == Dropped(f.sig))
    || (f.Erased? && s.at.Changing? && s.at.sig == f.sig && Restarts(s, e) && g == Lost(f.sig))
  }

  /** A SIGACTION to default or ignore starts. */
  predicate Erases(s: State, e: Event) {
    e.SigAction? && e.act < 2 && s.at.Idle? && s.handlers == [] && Settable(e.signo)
  }

  lemma FatesMove(s: State, e: Event, d: nat)
    requires Good(s) && d < |s.fates|
    ensures |Step(s, e).fates| >= |s.fates| && MayBecome(s, e, s.fates[d], Step(s, e).fates[d])
  {
    if s.fates[d].Entered? { assert Some(s.fates, s.fates[d]); }
    hide Some; hide FlagsTell; hide FatesMean; hide Move; hide Abandon;
  }

  /** Something has been lost. */
  ghost predicate AnyLost(s: State) {
    exists d :: 0 <= d < |s.fates| && s.fates[d].Lost?
  }

  ghost predicate AnyErased(s: State) {
    exists d :: 0 <= d < |s.fates| && s.fates[d].Erased?
  }

  /** What a restart does to a delivery it finds on its way. */
  lemma RestartLoses(s: State, e: Event, d: nat)
    requires Good(s) && Restarts(s, e) && d < |s.fates|
    requires
      var f := s.fates[d];
      f.Taken? || f.Erased? || (f.Entered? && s.handlers != [] && f.sig != s.handlers[0])
    ensures d < |Step(s, e).fates| && Step(s, e).fates[d].Lost?
  {
    hide FlagsTell; hide FatesMean; hide HandlersHold; hide Some;
  }

  lemma LostAt(s: State, d: nat)
    requires d < |s.fates| && s.fates[d].Lost?
    ensures AnyLost(s)
  {
  }

  lemma NewLost(s: State, e: Event, d: nat)
    requires Good(s) && d < |Step(s, e).fates| && Step(s, e).fates[d].Lost?
    ensures AnyLost(s) || (Restarts(s, e) && (s.at.Cleared? || AnyErased(s) || |s.handlers| > 1))
  {
    NewEntered(s, e);
    if d < |s.fates| {
      FatesMove(s, e, d);
      var f := s.fates[d];
      hide Step; hide Good; hide Restarts;
      if f.Lost? { LostAt(s, d); }
    }
  }

  /** A new delivery has its handler entered. */
  lemma NewEntered(s: State, e: Event)
    ensures forall d :: |s.fates| <= d < |Step(s, e).fates| ==> Step(s, e).fates[d].Entered?
  {
  }

  lemma StepLoses(s: State, e: Event)
    requires Good(s)
    ensures AnyLost(Step(s, e)) <==>
            AnyLost(s) || (Restarts(s, e) && (s.at.Cleared? || AnyErased(s) || |s.handlers| > 1))
  {
    var t := Step(s, e);
    if AnyLost(s) {
      var d :| 0 <= d < |s.fates| && s.fates[d].Lost?;
      FatesMove(s, e, d);
      hide Step; hide Good;
      LostAt(t, d);
    } else if Restarts(s, e) && s.at.Cleared? {
      var d :| 0 <= d < |s.fates| && s.fates[d] == Taken(s.at.i);
      hide Step; hide Good; hide Restarts;
      RestartLoses(s, e, d);
      LostAt(t, d);
    } else if Restarts(s, e) && AnyErased(s) {
      var d :| 0 <= d < |s.fates| && s.fates[d].Erased?;
      hide Step; hide Good; hide Restarts;
      RestartLoses(s, e, d);
      LostAt(t, d);
    } else if Restarts(s, e) && |s.handlers| > 1 {
      HandlerRange(s, s.handlers[1]);
      var d :| 0 <= d < |s.fates| && s.fates[d] == Entered(s.handlers[1]);
      assert s.handlers[0] != s.handlers[1];
      hide Step; hide Good; hide Restarts;
      RestartLoses(s, e, d);
      LostAt(t, d);
    } else {
      hide Step; hide Good; hide Restarts;
      if d :| 0 <= d < |t.fates| && t.fates[d].Lost? { NewLost(s, e, d); }
    }
  }

  // ---- when one is lost ----------------------------------------------------

  /** The state before the k-th event of a run. */
  function At(es: seq<Event>, k: nat): State
    requires k <= |es|
  {
    Run(Boot(), es[..k])
  }

  lemma AtNext(es: seq<Event>, k: nat)
    requires k < |es|
    ensures At(es, k + 1) == Step(At(es, k), es[k])
  {
    assert es[..k + 1][..k] == es[..k];
  }

  lemma AtGood(es: seq<Event>, k: nat)
    requires k <= |es|
    ensures Good(At(es, k))
  {
    RunKeeps(es[..k]);
  }

  /** Event a starts a SIGACTION to default or ignore that finds a flag up, and is still at it before event k. */
  ghost predicate ErasesFrom(es: seq<Event>, a: nat, k: nat)
    requires a < k <= |es|
  {
    && Erases(At(es, a), es[a]) && es[a].signo in At(es, a).flags
    && forall j :: a < j <= k ==> At(es, j).at == Changing(es[a].signo, es[a].act)
  }

  /** A SIGACTION has taken a flag down and not yet changed the handler. */
  ghost predicate Erasing(es: seq<Event>, k: nat)
    requires k <= |es|
  {
    exists a :: 0 <= a < k && ErasesFrom(es, a, k)
  }

  /** What is erased stays so while the engine stays where it is. */
  lemma StaysErased(s: State, e: Event, d: nat)
    requires Good(s) && d < |s.fates| && s.fates[d].Erased? && Step(s, e).at == s.at
    ensures AnyErased(Step(s, e))
  {
    FatesMove(s, e, d);
    assert Step(s, e).fates[d].Erased?;
  }

  lemma NowErased(s: State, e: Event)
    requires Good(s) && Erases(s, e) && e.signo in s.flags
    ensures AnyErased(Step(s, e))
  {
    var d :| 0 <= d < |s.fates| && s.fates[d] == Waiting(e.signo);
    assert Step(s, e).fates[d].Erased?;
  }

  lemma ErasedFrom(s: State, e: Event, d: nat)
    requires Good(s) && d < |Step(s, e).fates| && Step(s, e).fates[d].Erased?
    ensures (AnyErased(s) && Step(s, e).at == s.at) || (Erases(s, e) && e.signo in s.flags)
  {
    NewEntered(s, e);
    FatesMove(s, e, d);
    StepKeeps(s, e);
    var f := s.fates[d];
    assert f.Waiting? ==> Some(s.fates, f);
    if f.Erased? { SameChange(s, e, d); }
    hide Step; hide HandlersHold; hide PollHolds; hide Restarts;
  }

  /** An erased delivery is the signal's that SIGACTION is at. */
  lemma SameChange(s: State, e: Event, d: nat)
    requires Good(s) && d < |s.fates| && s.fates[d].Erased? && |s.fates| <= |Step(s, e).fates|
    requires Step(s, e).fates[d].Erased?
    ensures Step(s, e).at == s.at && AnyErased(s)
  {
    hide FlagsTell; hide FatesMean; hide HandlersHold; hide Some;
  }

  lemma StepErases(s: State, e: Event)
    requires Good(s)
    ensures AnyErased(Step(s, e)) <==>
      || (AnyErased(s) && Step(s, e).at == s.at)
      || (Erases(s, e) && e.signo in s.flags)
  {
    hide Step; hide Good;
    var t := Step(s, e);
    if AnyErased(s) && t.at == s.at {
      var d :| 0 <= d < |s.fates| && s.fates[d].Erased?;
      StaysErased(s, e, d);
    } else if Erases(s, e) && e.signo in s.flags {
      NowErased(s, e);
    } else if d :| 0 <= d < |t.fates| && t.fates[d].Erased? {
      ErasedFrom(s, e, d);
    }
  }

  lemma {:induction false} ErasedIsErasing(es: seq<Event>, k: nat)
    requires k <= |es|
    ensures AnyErased(At(es, k)) <==> Erasing(es, k)
    decreases k
  {
    hide *;
    if k == 0 {
      NoneErasedYet(es);
    } else {
      ErasedIsErasing(es, k - 1);
      AtGood(es, k - 1);
      AtNext(es, k - 1);
      StepErases(At(es, k - 1), es[k - 1]);
      ErasingNext(es, k - 1);
    }
  }

  lemma NoneErasedYet(es: seq<Event>)
    ensures !AnyErased(At(es, 0)) && !Erasing(es, 0)
  {
    assert es[..0] == [];
  }

  lemma ErasingNext(es: seq<Event>, k: nat)
    requires k < |es| && At(es, k + 1) == Step(At(es, k), es[k])
    ensures
      var s, e := At(es, k), es[k];
      Erasing(es, k + 1) <==>
      || (Erasing(es, k) && Step(s, e).at == s.at)
      || (Erases(s, e) && e.signo in s.flags)
  {
    hide Run; hide At; hide Move;
    var s, e := At(es, k), es[k];
    assert ErasesFrom(es, k, k + 1) <==> Erases(s, e) && e.signo in s.flags;
    forall a: nat | a < k
      ensures ErasesFrom(es, a, k + 1) <==> ErasesFrom(es, a, k) && Step(s, e).at == s.at
    {
      assert ErasesFrom(es, a, k) ==> s.at == Changing(es[a].signo, es[a].act);
      assert ErasesFrom(es, a, k + 1) ==> Step(s, e).at == s.at == Changing(es[a].signo, es[a].act);
    }
    if Erasing(es, k + 1) && !ErasesFrom(es, k, k + 1) {
      var a :| 0 <= a < k + 1 && ErasesFrom(es, a, k + 1);
      assert a < k && ErasesFrom(es, a, k);
    }
    if Erasing(es, k) && Step(s, e).at == s.at {
      var a :| 0 <= a < k && ErasesFrom(es, a, k);
      assert ErasesFrom(es, a, k + 1);
    }
  }

  /** A restart comes where a poll has taken a flag down, or a SIGACTION has, or inside another signal's handler. */
  ghost predicate LosesAt(es: seq<Event>, k: nat)
    requires k < |es|
  {
    Restarts(At(es, k), es[k]) && (At(es, k).at.Cleared? || Erasing(es, k) || |At(es, k).handlers| > 1)
  }

  lemma LostNext(es: seq<Event>, k: nat)
    requires k < |es|
    ensures AnyLost(At(es, k + 1)) <==> AnyLost(At(es, k)) || LosesAt(es, k)
  {
    AtGood(es, k);
    AtNext(es, k);
    ErasedIsErasing(es, k);
    StepLoses(At(es, k), es[k]);
    hide Run; hide At; hide Good; hide AnyErased; hide AnyLost; hide Erasing; hide Restarts; hide Step;
  }

  lemma NoneLostYet(es: seq<Event>)
    ensures !AnyLost(At(es, 0))
  {
    assert es[..0] == [];
  }

  lemma {:induction false} LostUpTo(es: seq<Event>, n: nat)
    requires n <= |es|
    ensures AnyLost(At(es, n)) <==> exists k :: 0 <= k < n && LosesAt(es, k)
    decreases n
  {
    hide *;
    if n == 0 {
      NoneLostYet(es);
    } else {
      LostUpTo(es, n - 1);
      LostNext(es, n - 1);
    }
  }

  /**
   For every run, with deliveries and faults wherever they fall: a caught signal is lost if and only if
   some restart came after a poll had cleared a flag and before it had pushed the signal's number, or
   after a SIGACTION to default or ignore had cleared a flag that was up and before it changed the
   handler, or from a handler entered inside another that had not run yet.
   */
  lemma LostOnlyByRestart(es: seq<Event>)
    ensures AnyLost(Run(Boot(), es)) <==> exists k :: 0 <= k < |es| && LosesAt(es, k)
  {
    LostUpTo(es, |es|);
    assert es[..|es|] == es;
  }

  /** Up, or about to be: its handler is entered. */
  predicate Raised(s: State, sig: nat) {
    sig in s.flags || sig in s.handlers
  }

  /**
   Whatever is delivered while libc's allocator runs, it is left to run: nothing is thrown or forgotten,
   and the flags raised, by the handlers run or yet to, are those of the signals caught or to be thrown.
   */
  lemma {:induction false} NoThrowInAllocator(s: State, es: seq<Event>)
    requires Good(s) && s.at.InAllocator? && forall k :: 0 <= k < |es| ==> es[k].Deliver? || es[k].Handle?
    ensures
      var t := Run(s, es);
      && t == s.(flags := t.flags, handlers := t.handlers, fates := t.fates) && Good(t)
      && |s.fates| <= |t.fates|
      && (forall d :: 0 <= d < |s.fates| ==>
            t.fates[d] == s.fates[d] || (s.fates[d].Entered? && t.fates[d] == Waiting(s.fates[d].sig)))
      && (forall d :: |s.fates| <= d < |t.fates| ==> t.fates[d].Waiting? || t.fates[d].Entered?)
      && forall sig :: Raised(t, sig) <==> Raised(s, sig) || (Deliver(sig) in es && Caught(s, sig))
  {
    hide Good;
    if es != [] {
      var init, e := es[..|es| - 1], es[|es| - 1];
      NoThrowInAllocator(s, init);
      var u, t := Run(s, init), Run(s, es);
      AllocatorFlag(u);
      StepKeeps(u, e);
      assert es == init + [e];
      assert forall sig: nat :: Deliver(sig) in es <==> Deliver(sig) in init || e == Deliver(sig);
      assert u.handlers != [] ==> u.handlers == [u.handlers[0]] + u.handlers[1..];
    }
  }

  lemma AllocatorFlag(s: State)
    requires Good(s) && s.at.InAllocator?
    ensures s.inAlloc
  {
  }

  // ---- which handler -------------------------------------------------------

  /** What a signal does that comes between primitives and whose handler runs at once, by the action set for it. */
  ghost predicate ActsAs(s: State, sig: nat, act: int) {
    var t := Step(Step(s, Deliver(sig)), Handle);
    if act == 2 || act == 3 || (act == 4 && (!s.trapXt || s.inAlloc)) then
      t == s.(flags := s.flags + {sig}, fates := s.fates + [Waiting(sig)])
    else if act == 4 then t == s.(fates := s.fates + [Thrown(sig)])
    else t == s
  }

  /**
   SIGACTION refuses SIGBUS, SIGFPE, SIGKILL, SIGSEGV, SIGSTOP and what is no signal number below 65. For any
   other, action 1 installs ignore, 2 and 3 the handler that raises the flag, with and without restarting an
   interrupted call, 4 the one that throws, and all else the default; and so the next delivery is taken.
   */
  lemma ActionInstalls(s: State, signo: nat, act: int)
    requires Good(s) && s.at.Idle? && s.handlers == []
    ensures
      var t := Step(Step(s, SigAction(signo, act)), Advance);
      if 1 <= signo <= 64 && signo != 7 && signo != 8 && signo != 9 && signo != 11 && signo != 19 then
        && t.at.Idle? && t.handlers == []
        && t.action == s.action[signo := match act
                                         case 1 => Ignore
                                         case 2 => Catch
                                         case 3 => CatchNoRestart
                                         case 4 => Throw
                                         case _ => Default]
        && ActsAs(t, signo, act)
      else t == s
  {
    var t := Step(Step(s, SigAction(signo, act)), Advance);
    if Settable(signo) {
      ActionMeans(t, signo, act);
    }
  }

  lemma ActionMeans(s: State, sig: nat, act: int)
    requires s.at.Idle? && s.handlers == [] && 0 < sig < NSIG_FLAGS && ActionFor(s, sig) == ActOf(act)
    requires forall d :: 0 <= d < |s.fates| ==> !s.fates[d].Entered?
    ensures ActsAs(s, sig, act)
  {
    var entered := s.fates + [Entered(sig)];
    assert Move(entered, Entered(sig), Waiting(sig)) == s.fates + [Waiting(sig)];
    var thrown := s.fates + [Thrown(sig)];
    assert Move(entered, Entered(sig), Thrown(sig)) == thrown;
    assert Abandon(thrown) == thrown;
    assert [sig][1..] == [];
  }

  // ---- draining ------------------------------------------------------------

  predicate Quiet(s: State) {
    s.at.Idle? || s.at.Testing? || s.at.Found? || s.at.Cleared?
  }

  function StepsLeft(s: State): nat {
    match s.at
    case Testing(i) => if i >= NSIG_FLAGS then 3 else NSIG_FLAGS - i + 3
    case Found(_) => 2
    case Cleared(_) => 1
    case _ => 0
  }

  /** The rest of a poll, with nothing delivered. */
  function Finish(s: State): State
    requires Quiet(s)
    decreases StepsLeft(s)
  {
    if s.at.Idle? then s else Finish(AdvanceOne(s))
  }

  /** SIGNALS-PENDING, with nothing delivered. */
  function Poll(s: State): State
    requires s.at.Idle? && s.handlers == []
  {
    Finish(Step(s, SignalsPending))
  }

  /** It answers the lowest flag that is up, and takes it down; or 0. */
  function Lowest(flags: set<nat>, from: nat): nat
    decreases NSIG_FLAGS - from
  {
    if from >= NSIG_FLAGS then 0 else if from in flags then from else Lowest(flags, from + 1)
  }

  lemma {:induction false} FinishAnswers(s: State)
    requires s.at.Testing? && s.at.i >= 1
    ensures
      var r := Lowest(s.flags, s.at.i);
      Finish(s) == if r == 0 then s.(at := Idle, answers := s.answers + [0])
                   else s.(at := Idle, answers := s.answers + [r], flags := s.flags - {r},
                           fates := Move(Move(s.fates, Waiting(r), Taken(r)), Taken(r), Reported(r, |s.answers|)))
    decreases StepsLeft(s)
  {
    var t := AdvanceOne(s);
    if t.at.Testing? {
      FinishAnswers(t);
    } else if t.at.Found? {
      var u := AdvanceOne(t);
      var v := AdvanceOne(u);
      assert Finish(v) == v;
      assert Finish(u) == v;
      assert Finish(t) == v;
    } else {
      assert Finish(t) == t;
    }
  }

  lemma {:induction false} LowestIs(flags: set<nat>, from: nat)
    ensures
      var r := Lowest(flags, from);
      && (r != 0 ==> r in flags && from <= r < NSIG_FLAGS)
      && (from >= 1 ==> (r == 0 <==> forall f :: f in flags && f < NSIG_FLAGS ==> f < from))
    decreases NSIG_FLAGS - from
  {
    if from < NSIG_FLAGS && from !in flags {
      LowestIs(flags, from + 1);
    }
  }

  /** Left alone, one poll reports every delivery of the signal it answers. */
  lemma PollReports(s: State)
    requires Good(s) && s.at.Idle? && s.handlers == []
    ensures
      var t := Poll(s);
      && Good(t) && t.at.Idle? && t.handlers == [] && |t.fates| == |s.fates| && |t.answers| == |s.answers| + 1
      && (s.flags == {} ==> t.flags == {} && t.answers[|s.answers|] == 0 && t.fates == s.fates)
      && (s.flags != {} ==> |t.flags| == |s.flags| - 1)
      && forall d :: 0 <= d < |s.fates| ==>
           t.fates[d] == s.fates[d] || (s.fates[d].Waiting? && t.fates[d] == Reported(s.fates[d].sig, |s.answers|))
  {
    var u := Step(s, SignalsPending);
    var r := Lowest(s.flags, 1);
    StepKeeps(s, SignalsPending);
    FinishAnswers(u);
    FinishGood(u);
    LowestIs(s.flags, 1);
    hide Finish; hide Lowest; hide Good;
    assert r == 0 <==> s.flags == {} by { assert forall f :: f in s.flags ==> 0 < f < NSIG_FLAGS by { FlagRange(s); } }
    NoneTaken(s);
  }

  lemma FlagRange(s: State)
    requires Good(s)
    ensures forall f :: f in s.flags ==> 0 < f < NSIG_FLAGS
  {
  }

  lemma NoneTaken(s: State)
    requires Good(s) && s.at.Idle?
    ensures forall d :: 0 <= d < |s.fates| ==> !s.fates[d].Taken?
  {
  }

  lemma {:induction false} FinishGood(s: State)
    requires Good(s) && Quiet(s)
    ensures Good(Finish(s)) && Finish(s).at.Idle? && Finish(s).handlers == s.handlers
    decreases StepsLeft(s)
  {
    hide Good;
    if !s.at.Idle? {
      AdvanceKeeps(s);
      FinishGood(AdvanceOne(s));
    }
  }

  function Polls(s: State, n: nat): (t: State)
    requires s.at.Idle? && s.handlers == [] && Good(s)
    ensures Good(t) && t.at.Idle? && t.handlers == []
  {
    if n == 0 then s
    else
      var t := Polls(s, n - 1);
      PollReports(t);
      Poll(t)
  }

  lemma {:induction false} FlagsFall(s: State, n: nat)
    requires s.at.Idle? && s.handlers == [] && Good(s)
    ensures
      var t := Polls(s, n);
      && |t.flags| <= (if |s.flags| > n then |s.flags| - n else 0) && |t.fates| == |s.fates|
      && forall d :: 0 <= d < |s.fates| ==>
           t.fates[d] == s.fates[d] || (s.fates[d].Waiting? && t.fates[d].Reported? && t.fates[d].sig == s.fates[d].sig)
  {
    hide Good; hide Poll;
    if n > 0 {
      FlagsFall(s, n - 1);
      PollReports(Polls(s, n - 1));
    }
  }

  lemma {:induction false} FewFlags(flags: set<nat>, n: nat)
    requires n >= 1 && forall f :: f in flags ==> 0 < f < n
    ensures |flags| < n
  {
    if n == 1 {
      assert flags == {};
    } else {
      FewFlags(flags - {n - 1}, n - 1);
    }
  }

  lemma NoneWaiting(s: State)
    requires Good(s) && s.flags == {}
    ensures forall d :: 0 <= d < |s.fates| ==> !s.fates[d].Waiting?
  {
    forall d | 0 <= d < |s.fates|
      ensures !s.fates[d].Waiting?
    {
      assert Some(s.fates, s.fates[d]);
    }
  }

  /** Once deliveries stop and their handlers have run, 64 polls report everything that waits, whatever came before. */
  lemma SixtyFourPollsDrain(es: seq<Event>)
    requires Run(Boot(), es).at.Idle? && Run(Boot(), es).handlers == []
    ensures
      var s := Run(Boot(), es);
      && Good(s)
      && Polls(s, 64).flags == {} && |Polls(s, 64).fates| == |s.fates|
      && forall d :: 0 <= d < |s.fates| && s.fates[d].Waiting? ==>
           Polls(s, 64).fates[d].Reported? && Polls(s, 64).fates[d].sig == s.fates[d].sig
  {
    var s := Run(Boot(), es);
    RunKeeps(es);
    FlagRange(s);
    FewFlags(s.flags, NSIG_FLAGS);
    FlagsFall(s, 64);
    NoneWaiting(Polls(s, 64));
  }

  // ---- what interleaving does ----------------------------------------------

  lemma {:induction false} RunOn(s: State, es: seq<Event>, e: Event)
    ensures Run(s, es + [e]) == Step(Run(s, es), e)
  {
    assert (es + [e])[..|es|] == es;
  }

  /** SIGHUP is to be caught, SIGINT to be thrown. */
  function Armed(): State {
    State({}, map[1 := Catch, 2 := Throw], true, false, Idle, [], [], [])
  }

  /** And SIGHUP has come. */
  function HupWaits(): State {
    Armed().(flags := {1}, fates := [Waiting(1)])
  }

  lemma CanBeArmed()
    ensures Run(Boot(), [TrapXt(true), SigAction(1, 2)] + [Advance, SigAction(2, 4)] + [Advance]) == Armed()
  {
    var a, b := [TrapXt(true), SigAction(1, 2)], [Advance, SigAction(2, 4)];
    RunTwo(Boot(), [], TrapXt(true), SigAction(1, 2));
    RunTwo(Boot(), a, Advance, SigAction(2, 4));
    RunOn(Boot(), a + b, Advance);
    assert [] + a == a;
    assert Run(Boot(), []) == Boot();
    assert Run(Boot(), a) == Boot().(trapXt := true, at := Changing(1, 2));
    assert Run(Boot(), a + b) == Boot().(trapXt := true, action := map[1 := Catch], at := Changing(2, 4));
  }

  lemma HupCanWait()
    ensures exists es :: Run(Boot(), es) == HupWaits()
  {
    CanBeArmed();
    var es := [TrapXt(true), SigAction(1, 2)] + [Advance, SigAction(2, 4)] + [Advance];
    RunTwo(Boot(), es, Deliver(1), Handle);
    var u := Enter(Armed(), 1);
    assert u.fates == [Entered(1)] && u.handlers == [1];
    assert Step(u, Handle) == HupWaits();
  }

  lemma RunTwo(s: State, es: seq<Event>, e: Event, f: Event)
    ensures Run(s, es + [e, f]) == Step(Step(Run(s, es), e), f)
  {
    hide *;
    RunOn(s, es, e);
    RunOn(s, es + [e], f);
    assert es + [e] + [f] == es + [e, f];
  }

  /**
   SIGINT, thrown between a poll's clearing of SIGHUP's flag and its answer: the flag is down, nothing
   was answered, and no later poll will.
   */
  lemma ThrowLosesPolled()
    ensures exists es :: Run(Boot(), es) == HupWaits()
    ensures
      var t := Run(HupWaits(), [SignalsPending, Advance, Advance, Deliver(2), Handle]);
      t.at == Idle && t.flags == {} && t.answers == [] && t.fates == [Lost(1), Thrown(2)]
  {
    HupCanWait();
    var s := HupWaits();
    RunTwo(s, [], SignalsPending, Advance);
    RunTwo(s, [SignalsPending, Advance], Advance, Deliver(2));
    RunOn(s, [SignalsPending, Advance, Advance, Deliver(2)], Handle);
    assert [] + [SignalsPending, Advance] == [SignalsPending, Advance];
    assert [SignalsPending, Advance] + [Advance, Deliver(2)] == [SignalsPending, Advance, Advance, Deliver(2)];
    assert [SignalsPending, Advance, Advance, Deliver(2)] + [Handle] ==
           [SignalsPending, Advance, Advance, Deliver(2), Handle];
    assert Run(s, []) == s;
    var u := HupTaken();
    hide Run;
    ThrowIn(u, Lost(1));
  }

  /** The poll has taken SIGHUP's flag down. */
  lemma HupTaken() returns (u: State)
    ensures u == Step(Step(Step(HupWaits(), SignalsPending), Advance), Advance)
    ensures u == HupWaits().(at := Cleared(1), flags := {}, fates := [Taken(1)])
  {
    var s := HupWaits();
    u := AdvanceOne(s.(at := Found(1)));
    assert u.fates == [Taken(1)] && u.flags == {};
  }

  /** SIGINT comes, and its handler throws. */
  lemma ThrowIn(s: State, f: Fate)
    requires ActionFor(s, 2) == Throw && s.trapXt && !s.inAlloc && s.handlers == [] && |s.fates| == 1
    requires !s.fates[0].Entered? && Restart(s).fates == [f] && !f.Entered?
    ensures Step(Step(s, Deliver(2)), Handle) == s.(at := Idle, fates := [f, Thrown(2)])
  {
    var u := Enter(s, 2);
    assert u == s.(handlers := [2], fates := s.fates + [Entered(2)]);
    var t := Restart(u);
    assert t.fates == [f, Entered(2)] by {
      assert Restart(s).fates[0] == f;
      assert t.fates[0] == f && t.fates[1] == Entered(2);
    }
    assert Move(t.fates, Entered(2), Thrown(2)) == [f, Thrown(2)];
    assert Abandon([f, Thrown(2)]) == [f, Thrown(2)];
  }

  /** The same by a fault: the poll's own push of its answer finds the data stack full. */
  lemma FullStackLosesPolled()
    ensures
      var t := Run(HupWaits(), [SignalsPending, Advance, Advance, Fault]);
      t.at == Idle && ActionFor(t, 1) == Catch && t.flags == {} && t.answers == [] && t.fates == [Lost(1)]
  {
    var s := HupWaits();
    RunTwo(s, [], SignalsPending, Advance);
    RunTwo(s, [SignalsPending, Advance], Advance, Fault);
    assert [] + [SignalsPending, Advance] == [SignalsPending, Advance];
    assert [SignalsPending, Advance] + [Advance, Fault] == [SignalsPending, Advance, Advance, Fault];
    assert Run(s, []) == s;
    var u := AdvanceOne(s.(at := Found(1)));
    assert u.fates == [Taken(1)] && u.flags == {} && Faults(u);
    assert Restart(u).fates == [Lost(1)];
  }

  /**
   SIGINT, thrown between SIGACTION's clearing of SIGHUP's flag and its change of the handler: SIGHUP is
   still to be caught, and the one that had come is gone.
   */
  lemma ThrowLosesErased()
    ensures
      var t := Run(HupWaits(), [SigAction(1, 1), Deliver(2), Handle]);
      && t.at == Idle && ActionFor(t, 1) == Catch && t.flags == {} && t.answers == []
      && t.fates == [Lost(1), Thrown(2)]
  {
    var s := HupWaits();
    RunOn(s, [], SigAction(1, 1));
    RunTwo(s, [SigAction(1, 1)], Deliver(2), Handle);
    assert [] + [SigAction(1, 1)] == [SigAction(1, 1)];
    assert [SigAction(1, 1)] + [Deliver(2), Handle] == [SigAction(1, 1), Deliver(2), Handle];
    assert Run(s, []) == s;
    var u := Step(s, SigAction(1, 1));
    assert u.fates == [Erased(1)] && u.flags == {};
    ThrowIn(u, Lost(1));
  }

  /**
   SIGINT, come while SIGHUP's handler was entered and had not stored its flag: the throw jumps out over
   that handler, and nothing tells of SIGHUP. The engine was between primitives all the while.
   */
  lemma ThrowBuriesHandler()
    ensures exists es :: Run(Boot(), es) == Armed()
    ensures
      var t := Run(Armed(), [Deliver(1), Deliver(2), Handle]);
      && t.at == Idle && ActionFor(t, 1) == Catch && t.flags == {} && t.handlers == [] && t.answers == []
      && t.fates == [Lost(1), Thrown(2)]
  {
    CanBeArmed();
    BuriedSteps();
    hide Step;
    var s := Armed();
    RunOn(s, [], Deliver(1));
    RunTwo(s, [Deliver(1)], Deliver(2), Handle);
    assert [] + [Deliver(1)] == [Deliver(1)];
    assert [Deliver(1)] + [Deliver(2), Handle] == [Deliver(1), Deliver(2), Handle];
    assert Run(s, []) == s;
    hide Run;
  }

  lemma BuriedSteps()
    ensures Step(Step(Step(Armed(), Deliver(1)), Deliver(2)), Handle) == Armed().(fates := [Lost(1), Thrown(2)])
  {
    var u := Enter(Enter(Armed(), 1), 2);
    assert u.handlers == [2, 1] && u.fates == [Entered(1), Entered(2)];
    assert Move(u.fates, Entered(2), Thrown(2)) == [Entered(1), Thrown(2)];
    assert Abandon([Entered(1), Thrown(2)]) == [Lost(1), Thrown(2)];
  }

  // ---- signals set to default or ignore ------------------------------------

  predicate Starts(es: seq<Event>, a: nat, sig: nat, act: int)
    requires a < |es|
  {
    es[a] == SigAction(sig, act) && At(es, a).at.Idle? && At(es, a).handlers == [] && Settable(sig)
  }

  /** From event a to event b one SIGACTION of sig runs, and installs what act asks for. */
  ghost predicate Installs(es: seq<Event>, a: nat, b: nat, sig: nat, act: int) {
    && a < b < |es| && Starts(es, a, sig, act) && Advances(At(es, b), es[b])
    && forall k :: a < k <= b ==> At(es, k).at == Changing(sig, act)
  }

  /** sig's handler runs and raises its flag. */
  predicate CaughtAt(es: seq<Event>, k: nat, sig: nat)
    requires k < |es|
  {
    Handles(At(es, k), es[k], sig) && !Throws(At(es, k), sig)
  }

  predicate TakenAt(es: seq<Event>, k: nat, sig: nat)
    requires k < |es|
  {
    Advances(At(es, k), es[k]) && At(es, k).at == Found(sig)
  }

  /** While SIGACTION runs, the flag is what it left of it, or up once the signal is caught. */
  lemma {:induction false} FlagWhileChanging(es: seq<Event>, a: nat, b: nat, sig: nat, act: int)
    requires a < b < |es| && Starts(es, a, sig, act)
    requires forall k :: a < k <= b ==> At(es, k).at == Changing(sig, act)
    ensures sig in At(es, b).flags <==>
      (exists k :: a < k < b && CaughtAt(es, k, sig)) || (act >= 2 && sig in At(es, a).flags)
    decreases b
  {
    hide Run; hide At; hide Move;
    AtNext(es, b - 1);
    if a < b - 1 {
      FlagWhileChanging(es, a, b - 1, sig, act);
      assert At(es, b).at == At(es, b - 1).at == Changing(sig, act);
      assert sig in At(es, b).flags <==> sig in At(es, b - 1).flags || CaughtAt(es, b - 1, sig);
    }
  }

  /** One step, no SIGACTION for sig running. */
  lemma UncaughtStep(s: State, e: Event, sig: nat)
    requires ActionFor(s, sig) in {Default, Ignore} && sig !in s.handlers && (s.at.Changing? ==> s.at.sig != sig)
    requires !(e.SigAction? && e.signo == sig)
    ensures
      var t := Step(s, e);
      && ActionFor(t, sig) == ActionFor(s, sig) && sig !in t.handlers && (t.at.Changing? ==> t.at.sig != sig)
      && (sig in t.flags <==> sig in s.flags && !(Advances(s, e) && s.at == Found(sig)))
  {
    hide Move; hide Abandon;
    match e
    case Deliver(_) =>
    case Handle =>
      if s.handlers != [] {
        assert s.handlers[0] in s.handlers;
      }
    case Advance =>
    case _ =>
  }

  /** A signal that is neither caught nor thrown does not raise its flag, and only a poll takes it down. */
  lemma {:induction false} FlagWhileUncaught(es: seq<Event>, b: nat, c: nat, sig: nat)
    requires b <= c <= |es| && ActionFor(At(es, b), sig) in {Default, Ignore} && !At(es, b).at.Changing?
    requires sig !in At(es, b).handlers
    requires forall k :: b <= k < c ==> !(es[k].SigAction? && es[k].signo == sig)
    ensures ActionFor(At(es, c), sig) == ActionFor(At(es, b), sig) && sig !in At(es, c).handlers
    ensures At(es, c).at.Changing? ==> At(es, c).at.sig != sig
    ensures sig in At(es, c).flags <==> sig in At(es, b).flags && !exists k :: b <= k < c && TakenAt(es, k, sig)
    decreases c
  {
    hide Run; hide At; hide Step; hide ActionFor;
    if b < c {
      FlagWhileUncaught(es, b, c - 1, sig);
      AtNext(es, c - 1);
      UncaughtStep(At(es, c - 1), es[c - 1], sig);
      assert sig in At(es, c).flags <==> sig in At(es, c - 1).flags && !TakenAt(es, c - 1, sig);
    }
  }

  /**
   When a signal set to default or ignore is still there to be answered. After a SIGACTION that
   installed either, and until the next for that signal, its flag is up exactly if the signal was
   caught while SIGACTION ran, or the action was 5 or more and the flag was already up; and if no
   poll has taken it since.
   */
  lemma StaleExactly(es: seq<Event>, a: nat, b: nat, c: nat, sig: nat, act: int)
    requires Installs(es, a, b, sig, act) && ActOf(act) in {Default, Ignore} && b < c <= |es|
    requires forall k :: b < k < c ==> !(es[k].SigAction? && es[k].signo == sig)
    ensures ActionFor(At(es, c), sig) == ActOf(act)
    ensures sig in At(es, c).flags <==>
      && ((exists k :: a < k < b && CaughtAt(es, k, sig)) || (act >= 5 && sig in At(es, a).flags))
      && !exists k :: b < k < c && TakenAt(es, k, sig)
  {
    hide Run; hide At; hide Move;
    FlagWhileChanging(es, a, b, sig, act);
    AtNext(es, b);
    FlagWhileUncaught(es, b + 1, c, sig);
  }

  /** SIGACTION with an action above 4 installs the default and leaves the flag up: the next poll answers it. */
  lemma DefaultStillAnswered()
    ensures
      var t := Run(HupWaits(), [SigAction(1, 5), Advance]);
      t.at == Idle && t.handlers == [] && ActionFor(t, 1) == Default && t.flags == {1} && Poll(t).answers == [1]
  {
    var s := HupWaits();
    RunTwo(s, [], SigAction(1, 5), Advance);
    assert [] + [SigAction(1, 5), Advance] == [SigAction(1, 5), Advance];
    assert Run(s, []) == s;
    var t := Step(Step(s, SigAction(1, 5)), Advance);
    FinishAnswers(Step(t, SignalsPending));
  }

  /**
   SIGACTION takes the flag down before it changes the handler: a signal caught in between leaves its
   flag up although the signal is now ignored, and the next poll answers it.
   */
  lemma IgnoredStillAnswered()
    ensures
      var t := Run(HupWaits(), [SigAction(1, 1), Deliver(1), Handle, Advance]);
      && t.at == Idle && ActionFor(t, 1) == Ignore && t.flags == {1} && t.fates == [Dropped(1), Waiting(1)]
      && t.handlers == [] && Poll(t).answers == [1]
  {
    var s := HupWaits();
    StaleSteps();
    hide Step; hide Poll;
    RunTwo(s, [], SigAction(1, 1), Deliver(1));
    RunTwo(s, [SigAction(1, 1), Deliver(1)], Handle, Advance);
    assert [] + [SigAction(1, 1), Deliver(1)] == [SigAction(1, 1), Deliver(1)];
    assert [SigAction(1, 1), Deliver(1)] + [Handle, Advance] == [SigAction(1, 1), Deliver(1), Handle, Advance];
    assert Run(s, []) == s;
    hide Run;
  }

  lemma StaleSteps()
    ensures
      var t := Step(Step(Step(Step(HupWaits(), SigAction(1, 1)), Deliver(1)), Handle), Advance);
      && t == HupWaits().(action := map[1 := Ignore, 2 := Throw], fates := [Dropped(1), Waiting(1)])
      && Poll(t).answers == [1]
  {
    var u := Step(HupWaits(), SigAction(1, 1));
    assert u.fates == [Erased(1)] && u.flags == {};
    var v := Step(u, Deliver(1));
    assert v.fates == [Erased(1), Entered(1)] && v.handlers == [1];
    var w := Step(v, Handle);
    assert w.fates == [Erased(1), Waiting(1)] && w.handlers == [] && w.flags == {1};
    var t := Step(w, Advance);
    assert t.fates == [Dropped(1), Waiting(1)];
    assert t.action == map[1 := Ignore, 2 := Throw];
    hide EngineStep; hide Step;
    StaleAnswered(t);
  }

  lemma StaleAnswered(s: State)
    requires s.at.Idle? && s.handlers == [] && s.flags == {1} && s.answers == []
    ensures Poll(s).answers == [1]
  {
    FinishAnswers(Step(s, SignalsPending));
  }

  // ---- the flags -----------------------------------------------------------

  /** sig_flag, and SIGNALS-PENDING's loop over it. */
  class SignalFlags {
    const flag: array<bool>

    ghost predicate Valid()
      reads this
    {
      flag.Length == NSIG_FLAGS
    }

    ghost function Up(): set<nat>
      requires Valid()
      reads this, flag
    {
      set f: nat | 1 <= f < NSIG_FLAGS && flag[f]
    }

    constructor ()
      ensures Valid() && fresh(flag) && Up() == {}
    {
      flag := new bool[NSIG_FLAGS](_ => false);
    }

    method Catch(sig: int)
      requires Valid()
      modifies flag
      ensures Up() == if 0 < sig < NSIG_FLAGS then old(Up()) + {sig} else old(Up())
    {
      if 0 < sig < NSIG_FLAGS { flag[sig] := true; }
    }

    /** Left alone: the lowest flag that is up, taken down; or 0. */
    method Pending() returns (r: nat)
      requires Valid()
      modifies flag
      ensures r == Lowest(old(Up()), 1)
      ensures Up() == old(Up()) - {r}
    {
      r := 0;
      var i := 1;
      while i < NSIG_FLAGS
        invariant 1 <= i <= NSIG_FLAGS && flag[..] == old(flag[..])
        invariant Lowest(old(Up()), 1) == Lowest(old(Up()), i)
      {
        if flag[i] {
          assert i in Up();
          flag[i] := false;
          return i;
        }
        assert i !in Up() && Up() == old(Up());
        i := i + 1;
      }
    }
  }
}
