/**
 Fusing adjacent instructions (tools/superinst.py:13-22, 143-151, 200-213): two instructions dispatched
 as one, chosen left to right through every body, and how many dispatches that saves.
 */
module Fusion {

  // ---- programs ------------------------------------------------------------

  /**
   An instruction by what it may do to control. Skip is (LOOP) and (?DO), which step over the branch
   behind them; Divert is EXECUTE, which enters the body its data names, and LSAVE and LRESTORE, which
   enter their handler's when they fail; Jump takes its branch or not.
   */
  datatype Instr =
    | Plain(op: int)
    | Skip(op: int)
    | Divert(op: int)
    | Jump(op: int, target: nat)
    | Call(callee: nat)
    | Exit

  type Body = seq<Instr>
  type Program = seq<Body>

  datatype Kind = OpKind | BranchKind | CallKind | ExitKind

  /** The tool's kinds: what is no branch, no call and no return is an 'op'. */
  function KindOf(i: Instr): Kind {
    match i
    case Plain(_) => OpKind
    case Skip(_) => OpKind
    case Divert(_) => OpKind
    case Jump(_, _) => BranchKind
    case Call(_) => CallKind
    case Exit => ExitKind
  }

  /** What a pair is counted under. */
  function Key(i: Instr): int {
    match i
    case Call(_) => -1
    case Exit => 1
    case _ => i.op
  }

  function Targets(body: Body): set<nat> {
    set i | 0 <= i < |body| && body[i].Jump? :: body[i].target
  }

  predicate Fusible(body: Body, chosen: set<(int, int)>, i: nat) {
    && i + 1 < |body|
    && KindOf(body[i]) == OpKind
    && KindOf(body[i + 1]) != CallKind
    && i + 1 !in Targets(body)
    && (Key(body[i]), Key(body[i + 1])) in chosen
  }

  function Width(body: Body, chosen: set<(int, int)>, i: nat): nat {
    if Fusible(body, chosen, i) then 2 else 1
  }

  /** What the compiler lays: branches stay in their body, a loop opcode is followed by its branch. */
  ghost predicate WellLaid(body: Body) {
    forall i :: 0 <= i < |body| ==>
      && (body[i].Jump? ==> body[i].target < |body|)
      && (body[i].Skip? ==> i + 1 < |body| && body[i + 1].Jump?)
  }

  // ---- what an instruction does --------------------------------------------

  /** The data side, left open: any effect, any condition, any callee, any reason to stop. */
  datatype Machine<!D> = Machine(effect: (int, D) -> D, taken: (int, D) -> bool, halts: (int, D) -> bool,
                                 callee: D -> nat)

  datatype Control = Fall | Over | To(target: nat) | Enter(body: nat) | Leave | Halt

  function ControlOf<D>(m: Machine<D>, i: Instr, d: D): Control {
    match i
    case Call(b) => Enter(b)
    case Exit => Leave
    case Plain(op) => if m.halts(op, d) then Halt else Fall
    case Skip(op) => if m.halts(op, d) then Halt else if m.taken(op, d) then Over else Fall
    case Divert(op) => if m.halts(op, d) then Halt else if m.taken(op, d) then Enter(m.callee(d)) else Fall
    case Jump(op, t) => if m.halts(op, d) then Halt else if m.taken(op, d) then To(t) else Fall
  }

  function DataOf<D>(m: Machine<D>, i: Instr, d: D): D {
    match i
    case Call(_) => d
    case Exit => d
    case _ => m.effect(i.op, d)
  }

  datatype Place = Place(body: nat, ip: nat)
  datatype State<D> = State(at: Place, frames: seq<Place>, data: D)
  datatype Next<D> = Running(s: State<D>) | Returned(data: D) | Halted(data: D) | Stuck

  function Continue<D>(s: State<D>, go: Control, d: D, bodies: nat): Next<D> {
    var b, ip := s.at.body, s.at.ip;
    match go
    case Fall => Running(State(Place(b, ip + 1), s.frames, d))
    case Over => Running(State(Place(b, ip + 2), s.frames, d))
    case To(t) => Running(State(Place(b, t), s.frames, d))
    case Enter(c) => if c < bodies then Running(State(Place(c, 0), [Place(b, ip + 1)] + s.frames, d)) else Stuck
    case Leave => if s.frames == [] then Returned(d) else Running(State(s.frames[0], s.frames[1..], d))
    case Halt => Halted(d)
  }

  predicate Within<T>(p: seq<seq<T>>, at: Place) {
    at.body < |p| && at.ip < |p[at.body]|
  }

  function Step<D>(p: Program, m: Machine<D>, s: State<D>): Next<D> {
    if !Within(p, s.at) then Stuck
    else
      var i := p[s.at.body][s.at.ip];
      Continue(s, ControlOf(m, i, s.data), DataOf(m, i, s.data), |p|)
  }

  /** n dispatches; Returned and Halted only if it is exactly the last that ends the run. */
  function Run<D>(p: Program, m: Machine<D>, s: State<D>, n: nat): Next<D>
    decreases n
  {
    if n == 0 then Running(s)
    else
      match Step(p, m, s)
      case Running(t) => Run(p, m, t, n - 1)
      case end => if n == 1 then end else Stuck
  }

  function Start<D>(b: nat, d: D): State<D> {
    State(Place(b, 0), [], d)
  }

  // ---- fused programs ------------------------------------------------------

  datatype FusedInstr = One(i: Instr) | Two(first: Instr, second: Instr)
  type FusedBody = seq<FusedInstr>

  /** How many groups lie between i and t. */
  function IndexOf(body: Body, chosen: set<(int, int)>, i: nat, t: nat): nat
    decreases |body| - i
  {
    if t <= i || i >= |body| then 0 else 1 + IndexOf(body, chosen, i + Width(body, chosen, i), t)
  }

  function Relay(body: Body, chosen: set<(int, int)>, i: Instr): Instr {
    if i.Jump? then Jump(i.op, IndexOf(body, chosen, 0, i.target)) else i
  }

  function GroupAt(body: Body, chosen: set<(int, int)>, i: nat): FusedInstr
    requires i < |body|
  {
    if Fusible(body, chosen, i) then Two(Relay(body, chosen, body[i]), Relay(body, chosen, body[i + 1]))
    else One(Relay(body, chosen, body[i]))
  }

  function FuseFrom(body: Body, chosen: set<(int, int)>, i: nat): FusedBody
    decreases |body| - i
  {
    if i >= |body| then [] else [GroupAt(body, chosen, i)] + FuseFrom(body, chosen, i + Width(body, chosen, i))
  }

  function Fuse(p: Program, chosen: set<(int, int)>): (q: seq<FusedBody>)
    ensures |q| == |p| && forall b :: 0 <= b < |p| ==> q[b] == FuseFrom(p[b], chosen, 0)
  {
    seq(|p|, b requires 0 <= b < |p| => FuseFrom(p[b], chosen, 0))
  }

  /** One dispatch does both halves, the second if the first does not lead away. */
  function FusedStep<D>(q: seq<FusedBody>, m: Machine<D>, s: State<D>): Next<D> {
    if !Within(q, s.at) then Stuck
    else
      match q[s.at.body][s.at.ip]
      case One(i) => Continue(s, ControlOf(m, i, s.data), DataOf(m, i, s.data), |q|)
      case Two(a, c) =>
        var d := DataOf(m, a, s.data);
        match ControlOf(m, a, s.data)
        case Fall => Continue(s, ControlOf(m, c, d), DataOf(m, c, d), |q|)
        case Over => Continue(s, Fall, d, |q|)
        case go => Continue(s, go, d, |q|)
  }

  function FusedRun<D>(q: seq<FusedBody>, m: Machine<D>, s: State<D>, n: nat): Next<D>
    decreases n
  {
    if n == 0 then Running(s)
    else
      match FusedStep(q, m, s)
      case Running(t) => FusedRun(q, m, t, n - 1)
      case end => if n == 1 then end else Stuck
  }

  // ---- where the groups lie ------------------------------------------------

  /** Where the g-th group from i starts. */
  function GroupStart(body: Body, chosen: set<(int, int)>, i: nat, g: nat): nat
    decreases g
  {
    if g == 0 || i >= |body| then i else GroupStart(body, chosen, i + Width(body, chosen, i), g - 1)
  }

  lemma {:induction false} GroupsInOrder(body: Body, chosen: set<(int, int)>, i: nat, g: nat)
    requires i <= |body|
    ensures
      var q := GroupStart(body, chosen, i, g);
      && i <= q <= |body|
      && (g < |FuseFrom(body, chosen, i)| <==> q < |body|)
      && (q < |body| ==>
            && FuseFrom(body, chosen, i)[g] == GroupAt(body, chosen, q)
            && GroupStart(body, chosen, i, g + 1) == q + Width(body, chosen, q))
    decreases g
  {
    if g > 0 && i < |body| {
      GroupsInOrder(body, chosen, i + Width(body, chosen, i), g - 1);
    }
  }

  /** A branch target is never in the middle of a group. */
  lemma {:induction false} TargetStartsGroup(body: Body, chosen: set<(int, int)>, i: nat, t: nat)
    requires i <= t < |body| && t in Targets(body)
    ensures GroupStart(body, chosen, i, IndexOf(body, chosen, i, t)) == t
    decreases |body| - i
  {
    if i < t {
      TargetStartsGroup(body, chosen, i + Width(body, chosen, i), t);
    }
  }

  /** A group starts at q, counting from one that starts at i. */
  predicate StartsGroup(body: Body, chosen: set<(int, int)>, i: nat, q: nat)
    decreases q - i
  {
    if i >= q then i == q else StartsGroup(body, chosen, i + Width(body, chosen, i), q)
  }

  lemma {:induction false} GroupStarts(body: Body, chosen: set<(int, int)>, i: nat, g: nat)
    requires i <= |body| && GroupStart(body, chosen, i, g) < |body|
    ensures StartsGroup(body, chosen, i, GroupStart(body, chosen, i, g))
    decreases g
  {
    if g > 0 && i < |body| {
      GroupsInOrder(body, chosen, i + Width(body, chosen, i), g - 1);
      GroupStarts(body, chosen, i + Width(body, chosen, i), g - 1);
    }
  }

  /** No group starts at another's second half. */
  lemma {:induction false} SecondStartsNone(body: Body, chosen: set<(int, int)>, i: nat, q: nat)
    requires StartsGroup(body, chosen, i, q) && Fusible(body, chosen, q)
    ensures !StartsGroup(body, chosen, i, q + 1)
    decreases q - i
  {
    if i < q {
      SecondStartsNone(body, chosen, i + Width(body, chosen, i), q);
    }
  }

  /** How many of the groups before the g-th are pairs, and so how far behind its own number it starts. */
  function Starts(groups: FusedBody, g: nat): (q: nat)
    requires g <= |groups|
  {
    if g == 0 then 0 else Starts(groups, g - 1) + if groups[g - 1].Two? then 2 else 1
  }

  lemma {:induction false} StartIs(body: Body, chosen: set<(int, int)>, g: nat)
    requires g <= |FuseFrom(body, chosen, 0)|
    ensures Starts(FuseFrom(body, chosen, 0), g) == GroupStart(body, chosen, 0, g)
  {
    GroupsInOrder(body, chosen, 0, g);
    if g > 0 {
      StartIs(body, chosen, g - 1);
      GroupsInOrder(body, chosen, 0, g - 1);
    }
  }

  /** i as it is laid among the groups: a branch leads to the group that starts at its target. */
  ghost predicate LaidAs(groups: FusedBody, i: Instr, j: Instr) {
    match i
    case Jump(op, t) => j.Jump? && j.op == op && j.target < |groups| && Starts(groups, j.target) == t
    case _ => j == i
  }

  lemma RelaidAs(body: Body, chosen: set<(int, int)>, q: nat)
    requires WellLaid(body) && q < |body|
    ensures LaidAs(FuseFrom(body, chosen, 0), body[q], Relay(body, chosen, body[q]))
  {
    if body[q].Jump? {
      var t := body[q].target;
      var h := IndexOf(body, chosen, 0, t);
      assert t in Targets(body);
      TargetStartsGroup(body, chosen, 0, t);
      GroupsInOrder(body, chosen, 0, h);
      StartIs(body, chosen, h);
    }
  }

  /**
   Which pairs are fused, and that nothing else changes. The groups cover the body from end to end. One
   is a pair if and only if its first instruction is no branch, call or EXIT, its second is no call and no
   branch's target, and the pair - EXIT is opcode 1 - is chosen.
   */
  lemma FusesExactly(body: Body, chosen: set<(int, int)>)
    requires WellLaid(body)
    ensures
      var groups := FuseFrom(body, chosen, 0);
      && Starts(groups, |groups|) == |body|
      && forall g :: 0 <= g < |groups| ==>
           var q := Starts(groups, g);
           && q < |body|
           && LaidAs(groups, body[q], match groups[g] case One(i) => i case Two(i, _) => i)
           && (groups[g].Two? ==> q + 1 < |body| && LaidAs(groups, body[q + 1], groups[g].second))
           && (groups[g].Two? <==>
                 && q + 1 < |body|
                 && !body[q].Jump? && !body[q].Call? && !body[q].Exit? && !body[q + 1].Call?
                 && (forall i :: 0 <= i < |body| && body[i].Jump? ==> body[i].target != q + 1)
                 && (body[q].op, if body[q + 1].Exit? then 1 else body[q + 1].op) in chosen)
  {
    var groups := FuseFrom(body, chosen, 0);
    GroupsInOrder(body, chosen, 0, |groups|);
    StartIs(body, chosen, |groups|);
    forall g | 0 <= g < |groups|
      ensures
        var q := Starts(groups, g);
        && q < |body| && groups[g] == GroupAt(body, chosen, q)
        && (Fusible(body, chosen, q) ==> LaidAs(groups, body[q + 1], Relay(body, chosen, body[q + 1])))
        && LaidAs(groups, body[q], Relay(body, chosen, body[q]))
    {
      GroupsInOrder(body, chosen, 0, g);
      StartIs(body, chosen, g);
      var q := Starts(groups, g);
      RelaidAs(body, chosen, q);
      if Fusible(body, chosen, q) { RelaidAs(body, chosen, q + 1); }
    }
  }

  // ---- one dispatch --------------------------------------------------------

  ghost predicate Meets(p: Program, chosen: set<(int, int)>, a: Place, f: Place) {
    a.body == f.body < |p| && a.ip == GroupStart(p[a.body], chosen, 0, f.ip)
  }

  ghost predicate Related<D>(p: Program, chosen: set<(int, int)>, s: State<D>, f: State<D>) {
    && Meets(p, chosen, s.at, f.at)
    && |s.frames| == |f.frames|
    && (forall j :: 0 <= j < |s.frames| ==> Meets(p, chosen, s.frames[j], f.frames[j]))
    && s.data == f.data
  }

  ghost predicate Alike<D>(p: Program, chosen: set<(int, int)>, x: Next<D>, y: Next<D>) {
    match x
    case Running(s) => y.Running? && Related(p, chosen, s, y.s)
    case _ => y == x
  }

  ghost predicate AllLaid(p: Program) {
    forall b :: 0 <= b < |p| ==> WellLaid(p[b])
  }

  /** Instructions i and i + 1 are fused. */
  predicate SiteAt(body: Body, chosen: set<(int, int)>, i: nat) {
    Fusible(body, chosen, i) && StartsGroup(body, chosen, 0, i)
  }

  /** The state is at a fused pair's first half. */
  ghost predicate AtFirst<D>(p: Program, chosen: set<(int, int)>, s: State<D>) {
    Within(p, s.at) && SiteAt(p[s.at.body], chosen, s.at.ip)
  }

  ghost predicate GoesOn<D>(p: Program, m: Machine<D>, s: State<D>) {
    Within(p, s.at) && ControlOf(m, p[s.at.body][s.at.ip], s.data).Fall?
  }

  /** A fused pair's first half enters a body: it will come back behind the pair. */
  ghost predicate Strays<D>(p: Program, chosen: set<(int, int)>, m: Machine<D>, s: State<D>) {
    AtFirst(p, chosen, s)
    && var go := ControlOf(m, p[s.at.body][s.at.ip], s.data); go.Enter? && go.body < |p|
  }

  /** How many plain dispatches one fused dispatch stands for. */
  ghost function Covers<D>(p: Program, chosen: set<(int, int)>, m: Machine<D>, s: State<D>): nat {
    if AtFirst(p, chosen, s) && GoesOn(p, m, s) then 2 else 1
  }

  lemma PlaceFacts(p: Program, chosen: set<(int, int)>, a: Place, f: Place)
    requires Meets(p, chosen, a, f)
    ensures Within(p, a) <==> Within(Fuse(p, chosen), f)
    ensures Within(p, a) ==>
      && StartsGroup(p[a.body], chosen, 0, a.ip)
      && Fuse(p, chosen)[a.body][f.ip] == GroupAt(p[a.body], chosen, a.ip)
      && Meets(p, chosen, Place(a.body, a.ip + Width(p[a.body], chosen, a.ip)), Place(a.body, f.ip + 1))
  {
    GroupsInOrder(p[a.body], chosen, 0, f.ip);
    if Within(p, a) { GroupStarts(p[a.body], chosen, 0, f.ip); }
  }

  lemma JumpMeets(p: Program, chosen: set<(int, int)>, b: nat, i: nat)
    requires b < |p| && WellLaid(p[b]) && i < |p[b]| && p[b][i].Jump?
    ensures Meets(p, chosen, Place(b, p[b][i].target), Place(b, IndexOf(p[b], chosen, 0, p[b][i].target)))
  {
    TargetStartsGroup(p[b], chosen, 0, p[b][i].target);
  }

  /** The last instruction of a group, dispatched at a and as part of the group at f. */
  lemma LastMeets<D>(p: Program, chosen: set<(int, int)>, m: Machine<D>, s: State<D>, f: State<D>, d: D)
    requires AllLaid(p) && Within(p, s.at) && f.at.body == s.at.body
    requires Meets(p, chosen, Place(s.at.body, s.at.ip + 1), Place(s.at.body, f.at.ip + 1))
    requires |s.frames| == |f.frames|
    requires forall j :: 0 <= j < |s.frames| ==> Meets(p, chosen, s.frames[j], f.frames[j])
    ensures
      var i := p[s.at.body][s.at.ip];
      var r := Relay(p[s.at.body], chosen, i);
      Alike(p, chosen, Continue(s, ControlOf(m, i, d), DataOf(m, i, d), |p|),
            Continue(f, ControlOf(m, r, d), DataOf(m, r, d), |p|))
  {
    hide GroupStart; hide FuseFrom; hide Fuse; hide Fusible; hide Targets;
    var b, i := s.at.body, p[s.at.body][s.at.ip];
    assert WellLaid(p[b]);
    hide WellLaid;
    if i.Jump? { JumpMeets(p, chosen, b, s.at.ip); }
    if i.Skip? {
      BranchBehind(p[b], chosen, s.at.ip);
      PlaceFacts(p, chosen, Place(b, s.at.ip + 1), Place(b, f.at.ip + 1));
    }
    if i.Call? || i.Divert? {
      EntryMeets(p, chosen);
    }
  }

  lemma BranchBehind(body: Body, chosen: set<(int, int)>, i: nat)
    requires WellLaid(body) && i < |body| && body[i].Skip?
    ensures i + 1 < |body| && body[i + 1].Jump? && Width(body, chosen, i + 1) == 1
  {
  }

  lemma EntryMeets(p: Program, chosen: set<(int, int)>)
    ensures forall c: nat :: c < |p| ==> Meets(p, chosen, Place(c, 0), Place(c, 0))
  {
  }

  /** A fused dispatch does what one or two plain ones do, exactly when its first half enters no body. */
  lemma DispatchMeets<D>(p: Program, chosen: set<(int, int)>, m: Machine<D>, s: State<D>, f: State<D>)
    requires AllLaid(p) && Related(p, chosen, s, f)
    ensures Alike(p, chosen, Run(p, m, s, Covers(p, chosen, m, s)), FusedStep(Fuse(p, chosen), m, f)) <==>
            !Strays(p, chosen, m, s)
  {
    hide GroupStart; hide FuseFrom; hide Fuse; hide Fusible; hide Targets;
    PlaceFacts(p, chosen, s.at, f.at);
    if Within(p, s.at) {
      var b := s.at.body;
      if Fusible(p[b], chosen, s.at.ip) {
        FirstIs(p[b], chosen, s.at.ip);
        var d := DataOf(m, p[b][s.at.ip], s.data);
        if GoesOn(p, m, s) {
          var t := State(Place(b, s.at.ip + 1), s.frames, d);
          assert Step(p, m, s) == Running(t);
          LastMeets(p, chosen, m, t, f, d);
          RunOne(p, m, t);
          assert Run(p, m, s, 2) == Run(p, m, t, 1);
        } else {
          RunOne(p, m, s);
          if Strays(p, chosen, m, s) {
            StrayMisplaces(p, chosen, m, s, f);
          }
        }
      } else {
        LastMeets(p, chosen, m, s, f, s.data);
        RunOne(p, m, s);
      }
    }
  }

  /** Wherever it enters one the two runs come apart at once. */
  lemma StrayMisplaces<D>(p: Program, chosen: set<(int, int)>, m: Machine<D>, s: State<D>, f: State<D>)
    requires Related(p, chosen, s, f) && Strays(p, chosen, m, s)
    ensures !Alike(p, chosen, Step(p, m, s), FusedStep(Fuse(p, chosen), m, f))
  {
    PlaceFacts(p, chosen, s.at, f.at);
    FirstIs(p[s.at.body], chosen, s.at.ip);
    hide Fuse; hide FuseFrom; hide Fusible; hide StartsGroup;
    var x, y := Step(p, m, s), FusedStep(Fuse(p, chosen), m, f);
    assert !Meets(p, chosen, x.s.frames[0], y.s.frames[0]);
  }

  lemma RunOne<D>(p: Program, m: Machine<D>, s: State<D>)
    ensures Run(p, m, s, 1) == Step(p, m, s)
  {
  }

  lemma FirstIs(body: Body, chosen: set<(int, int)>, i: nat)
    requires Fusible(body, chosen, i)
    ensures i + 1 < |body| && KindOf(body[i]) == OpKind
  {
  }

  // ---- whole runs ----------------------------------------------------------

  ghost predicate Ends<D>(x: Next<D>) {
    x.Returned? || x.Halted?
  }

  /** Among n dispatches, those of fused first halves. */
  ghost function Firsts<D>(p: Program, chosen: set<(int, int)>, m: Machine<D>, s: State<D>, n: nat): nat
    decreases n
  {
    if n == 0 then 0
    else
      (if AtFirst(p, chosen, s) then 1 else 0)
      + match Step(p, m, s) case Running(t) => Firsts(p, chosen, m, t, n - 1) case _ => 0
  }

  /** Those of them that fell through to the second half. */
  ghost function Followed<D>(p: Program, chosen: set<(int, int)>, m: Machine<D>, s: State<D>, n: nat): nat
    decreases n
  {
    if n == 0 then 0
    else
      (if AtFirst(p, chosen, s) && GoesOn(p, m, s) then 1 else 0)
      + match Step(p, m, s) case Running(t) => Followed(p, chosen, m, t, n - 1) case _ => 0
  }

  /** Those at one place: what the counting engine's counter for it holds. */
  ghost function Visits<D>(p: Program, m: Machine<D>, s: State<D>, n: nat, at: Place): nat
    decreases n
  {
    if n == 0 then 0
    else
      (if s.at == at then 1 else 0)
      + match Step(p, m, s) case Running(t) => Visits(p, m, t, n - 1, at) case _ => 0
  }

  /** The second half is dispatched next, and is no first half itself. */
  lemma SecondNext<D>(p: Program, chosen: set<(int, int)>, m: Machine<D>, s: State<D>)
    requires AtFirst(p, chosen, s) && GoesOn(p, m, s)
    ensures
      var x := Step(p, m, s);
      x.Running? && x.s.at == Place(s.at.body, s.at.ip + 1) && !AtFirst(p, chosen, x.s)
  {
    SecondStartsNone(p[s.at.body], chosen, 0, s.at.ip);
  }

  /** In n dispatches no fused first half enters a body. */
  ghost predicate NoneStrays<D>(p: Program, chosen: set<(int, int)>, m: Machine<D>, s: State<D>, n: nat)
    decreases n
  {
    n == 0
    || (!Strays(p, chosen, m, s)
        && match Step(p, m, s) case Running(t) => NoneStrays(p, chosen, m, t, n - 1) case _ => true)
  }

  /** The same of the fused program's own dispatches. */
  ghost predicate NoneStraysFused<D>(q: seq<FusedBody>, m: Machine<D>, f: State<D>, k: nat)
    decreases k
  {
    k == 0
    || (!StraysFused(q, m, f)
        && match FusedStep(q, m, f) case Running(g) => NoneStraysFused(q, m, g, k - 1) case _ => true)
  }

  ghost predicate StraysFused<D>(q: seq<FusedBody>, m: Machine<D>, f: State<D>) {
    Within(q, f.at) && q[f.at.body][f.at.ip].Two?
    && var go := ControlOf(m, q[f.at.body][f.at.ip].first, f.data); go.Enter? && go.body < |q|
  }

  lemma SameStrays<D>(p: Program, chosen: set<(int, int)>, m: Machine<D>, s: State<D>, f: State<D>)
    requires Related(p, chosen, s, f)
    ensures Strays(p, chosen, m, s) <==> StraysFused(Fuse(p, chosen), m, f)
  {
    PlaceFacts(p, chosen, s.at, f.at);
    if Within(p, s.at) && Fusible(p[s.at.body], chosen, s.at.ip) {
      FirstIs(p[s.at.body], chosen, s.at.ip);
    }
    hide Fuse; hide FuseFrom; hide Fusible; hide StartsGroup;
  }

  /** Fusing keeps every run that ends, and saves one dispatch for every pair run through. */
  lemma {:induction false} FusedRunMeets<D>(p: Program, chosen: set<(int, int)>, m: Machine<D>, s: State<D>,
                                            f: State<D>, n: nat)
    returns (k: nat)
    requires AllLaid(p) && Related(p, chosen, s, f) && Ends(Run(p, m, s, n)) && NoneStrays(p, chosen, m, s, n)
    ensures FusedRun(Fuse(p, chosen), m, f, k) == Run(p, m, s, n)
    ensures n == k + Followed(p, chosen, m, s, n)
    decreases n
  {
    hide AllLaid; hide Related; hide AtFirst; hide Fuse; hide Step; hide FusedStep; hide Strays; hide StraysFused;
    DispatchMeets(p, chosen, m, s, f);
    RunOne(p, m, s);
    if Covers(p, chosen, m, s) == 2 {
      SecondNext(p, chosen, m, s);
      RunTwo(p, m, s);
    }
    var w := Covers(p, chosen, m, s);
    k := 1;
    match Run(p, m, s, w)
    case Running(t) =>
      var rest := FusedRunMeets(p, chosen, m, t, FusedStep(Fuse(p, chosen), m, f).s, n - w);
      k := 1 + rest;
    case _ =>
  }

  lemma RunTwo<D>(p: Program, m: Machine<D>, s: State<D>)
    requires Step(p, m, s).Running?
    ensures Run(p, m, s, 2) == Step(p, m, Step(p, m, s).s)
  {
    RunOne(p, m, Step(p, m, s).s);
  }

  /** And makes no run end that did not. */
  lemma {:induction false} PlainRunMeets<D>(p: Program, chosen: set<(int, int)>, m: Machine<D>, s: State<D>,
                                            f: State<D>, k: nat)
    returns (n: nat)
    requires AllLaid(p) && Related(p, chosen, s, f) && Ends(FusedRun(Fuse(p, chosen), m, f, k))
    requires NoneStraysFused(Fuse(p, chosen), m, f, k)
    ensures Run(p, m, s, n) == FusedRun(Fuse(p, chosen), m, f, k)
    decreases k
  {
    hide AllLaid; hide Related; hide AtFirst; hide Fuse; hide Step; hide FusedStep; hide Strays; hide StraysFused;
    SameStrays(p, chosen, m, s, f);
    DispatchMeets(p, chosen, m, s, f);
    RunOne(p, m, s);
    if Covers(p, chosen, m, s) == 2 {
      SecondNext(p, chosen, m, s);
      RunTwo(p, m, s);
    }
    var w := Covers(p, chosen, m, s);
    n := w;
    match Run(p, m, s, w)
    case Running(t) =>
      var rest := PlainRunMeets(p, chosen, m, t, FusedStep(Fuse(p, chosen), m, f).s, k - 1);
      n := w + rest;
    case _ =>
  }

  // ---- the tool's sum ------------------------------------------------------

  /** The counts of the first halves of a body's sites from i on, added up. */
  ghost function SavedFrom(b: nat, body: Body, chosen: set<(int, int)>, i: nat, cnt: Place -> nat): nat
    decreases |body| - i
  {
    if i >= |body| then 0
    else
      (if Fusible(body, chosen, i) then cnt(Place(b, i)) else 0)
      + SavedFrom(b, body, chosen, i + Width(body, chosen, i), cnt)
  }

  ghost function SavedIn(p: Program, chosen: set<(int, int)>, bodies: nat, cnt: Place -> nat): nat
    requires bodies <= |p|
  {
    if bodies == 0 then 0
    else SavedIn(p, chosen, bodies - 1, cnt) + SavedFrom(bodies - 1, p[bodies - 1], chosen, 0, cnt)
  }

  lemma {:induction false} OneMoreFrom(b: nat, body: Body, chosen: set<(int, int)>, i: nat, c: Place -> nat,
                                       e: Place -> nat, at: Place)
    requires forall x :: e(x) == c(x) + if x == at then 1 else 0
    ensures SavedFrom(b, body, chosen, i, e) == SavedFrom(b, body, chosen, i, c)
      + if at.body == b && Fusible(body, chosen, at.ip) && StartsGroup(body, chosen, i, at.ip) then 1 else 0
    decreases |body| - i
  {
    if i < |body| {
      OneMoreFrom(b, body, chosen, i + Width(body, chosen, i), c, e, at);
      NoneBefore(body, chosen, i + Width(body, chosen, i), i);
    }
  }

  lemma NoneBefore(body: Body, chosen: set<(int, int)>, i: nat, q: nat)
    requires q < i
    ensures !StartsGroup(body, chosen, i, q)
  {
  }

  lemma {:induction false} OneMore(p: Program, chosen: set<(int, int)>, bodies: nat, c: Place -> nat, e: Place -> nat,
                                   at: Place)
    requires bodies <= |p| && forall x :: e(x) == c(x) + if x == at then 1 else 0
    ensures SavedIn(p, chosen, bodies, e) == SavedIn(p, chosen, bodies, c)
      + if at.body < bodies && Within(p, at) && SiteAt(p[at.body], chosen, at.ip) then 1 else 0
  {
    if bodies > 0 {
      OneMore(p, chosen, bodies - 1, c, e, at);
      OneMoreFrom(bodies - 1, p[bodies - 1], chosen, 0, c, e, at);
    }
  }

  lemma {:induction false} NoneCounted(p: Program, chosen: set<(int, int)>, bodies: nat, c: Place -> nat)
    requires bodies <= |p| && forall x :: c(x) == 0
    ensures SavedIn(p, chosen, bodies, c) == 0
  {
    if bodies > 0 {
      NoneCounted(p, chosen, bodies - 1, c);
      NoneCountedFrom(bodies - 1, p[bodies - 1], chosen, 0, c);
    }
  }

  lemma {:induction false} NoneCountedFrom(b: nat, body: Body, chosen: set<(int, int)>, i: nat, c: Place -> nat)
    requires forall x :: c(x) == 0
    ensures SavedFrom(b, body, chosen, i, c) == 0
    decreases |body| - i
  {
    if i < |body| {
      NoneCountedFrom(b, body, chosen, i + Width(body, chosen, i), c);
    }
  }

  /** With a run's own counts, the sum is the number of its dispatches of first halves. */
  lemma {:induction false} SumIsFirsts<D>(p: Program, chosen: set<(int, int)>, m: Machine<D>, s: State<D>, n: nat,
                                          cnt: Place -> nat)
    requires forall x :: cnt(x) == Visits(p, m, s, n, x)
    ensures SavedIn(p, chosen, |p|, cnt) == Firsts(p, chosen, m, s, n)
    decreases n
  {
    if n == 0 {
      NoneCounted(p, chosen, |p|, cnt);
    } else {
      var rest: Place -> nat := x =>
        match Step(p, m, s) case Running(t) => Visits(p, m, t, n - 1, x) case _ => 0;
      OneMore(p, chosen, |p|, rest, cnt, s.at);
      match Step(p, m, s)
      case Running(t) => SumIsFirsts(p, chosen, m, t, n - 1, rest);
      case _ => NoneCounted(p, chosen, |p|, rest);
    }
  }

  /** Every fused first half falls through: it is no (LOOP) and no (?DO). */
  ghost predicate Sequential(p: Program, chosen: set<(int, int)>) {
    forall b, i :: 0 <= b < |p| && 0 <= i < |p[b]| && SiteAt(p[b], chosen, i) ==> p[b][i].Plain?
  }

  lemma {:induction false} SequentialFollows<D>(p: Program, chosen: set<(int, int)>, m: Machine<D>, s: State<D>, n: nat)
    requires Sequential(p, chosen) && Run(p, m, s, n).Returned?
    ensures Followed(p, chosen, m, s, n) == Firsts(p, chosen, m, s, n)
    decreases n
  {
    match Step(p, m, s)
    case Running(t) => SequentialFollows(p, chosen, m, t, n - 1);
    case _ =>
  }

  /** Then none enters a body, in any run. */
  lemma {:induction false} SequentialNeverStrays<D>(p: Program, chosen: set<(int, int)>, m: Machine<D>, s: State<D>,
                                                    n: nat)
    requires Sequential(p, chosen)
    ensures NoneStrays(p, chosen, m, s, n)
    decreases n
  {
    if n > 0 {
      match Step(p, m, s)
      case Running(t) => SequentialNeverStrays(p, chosen, m, t, n - 1);
      case _ =>
    }
  }

  /** Each dispatch of a fused first half falls through: it does not halt, skip its branch or enter a body. */
  ghost predicate AllFall<D>(p: Program, chosen: set<(int, int)>, m: Machine<D>, s: State<D>, n: nat)
    decreases n
  {
    n == 0
    || ((AtFirst(p, chosen, s) ==>
           var i := p[s.at.body][s.at.ip];
           !m.halts(Key(i), s.data) && (i.Skip? || i.Divert? ==> !m.taken(i.op, s.data)))
        && match Step(p, m, s) case Running(t) => AllFall(p, chosen, m, t, n - 1) case _ => true)
  }

  lemma FirstFalls<D>(p: Program, chosen: set<(int, int)>, m: Machine<D>, s: State<D>)
    requires AtFirst(p, chosen, s)
    ensures
      var i := p[s.at.body][s.at.ip];
      GoesOn(p, m, s) <==> !m.halts(Key(i), s.data) && (i.Skip? || i.Divert? ==> !m.taken(i.op, s.data))
  {
    FirstIs(p[s.at.body], chosen, s.at.ip);
    hide Fusible; hide StartsGroup;
  }

  lemma {:induction false} FollowedWhenAllFall<D>(p: Program, chosen: set<(int, int)>, m: Machine<D>, s: State<D>,
                                                  n: nat)
    ensures Followed(p, chosen, m, s, n) <= Firsts(p, chosen, m, s, n)
    ensures Followed(p, chosen, m, s, n) == Firsts(p, chosen, m, s, n) <==> AllFall(p, chosen, m, s, n)
    decreases n
  {
    hide AtFirst; hide GoesOn; hide Step;
    if n > 0 {
      if AtFirst(p, chosen, s) {
        FirstFalls(p, chosen, m, s);
      }
      match Step(p, m, s)
      case Running(t) => FollowedWhenAllFall(p, chosen, m, t, n - 1);
      case _ =>
    }
  }

  /**
   The tool's figure for a run that ends, against what the fused program really saves: it is right
   exactly when every dispatch of a fused first half falls through; and that is so for every run that
   returns if all the first halves are sequential.
   */
  lemma SavingCounted<D>(p: Program, chosen: set<(int, int)>, m: Machine<D>, b: nat, d: D, n: nat, cnt: Place -> nat)
    returns (k: nat)
    requires AllLaid(p) && b < |p| && Ends(Run(p, m, Start(b, d), n)) && NoneStrays(p, chosen, m, Start(b, d), n)
    requires forall x :: cnt(x) == Visits(p, m, Start(b, d), n, x)
    ensures FusedRun(Fuse(p, chosen), m, Start(b, d), k) == Run(p, m, Start(b, d), n)
    ensures k + SavedIn(p, chosen, |p|, cnt) == n <==> AllFall(p, chosen, m, Start(b, d), n)
    ensures Sequential(p, chosen) && Run(p, m, Start(b, d), n).Returned? ==> k + SavedIn(p, chosen, |p|, cnt) == n
  {
    k := FusedRunMeets(p, chosen, m, Start(b, d), Start(b, d), n);
    SumIsFirsts(p, chosen, m, Start(b, d), n, cnt);
    FollowedWhenAllFall(p, chosen, m, Start(b, d), n);
    if Sequential(p, chosen) && Run(p, m, Start(b, d), n).Returned? {
      SequentialFollows(p, chosen, m, Start(b, d), n);
    }
  }

  /**
   With all first halves sequential, a condition on the program alone, the figure is right for every
   run that returns.
   */
  lemma SequentialSaved<D>(p: Program, chosen: set<(int, int)>, m: Machine<D>, b: nat, d: D, n: nat, cnt: Place -> nat)
    returns (k: nat)
    requires AllLaid(p) && b < |p| && Run(p, m, Start(b, d), n).Returned? && Sequential(p, chosen)
    requires forall x :: cnt(x) == Visits(p, m, Start(b, d), n, x)
    ensures FusedRun(Fuse(p, chosen), m, Start(b, d), k) == Run(p, m, Start(b, d), n)
    ensures k + SavedIn(p, chosen, |p|, cnt) == n
  {
    SequentialNeverStrays(p, chosen, m, Start(b, d), n);
    k := SavingCounted(p, chosen, m, b, d, n, cnt);
  }

  // ---- both halves as often ------------------------------------------------

  /** A fused site's second half is dispatched exactly when its first has fallen through. */
  lemma {:induction false} HalvesMeet<D>(p: Program, chosen: set<(int, int)>, m: Machine<D>, s: State<D>, f: State<D>,
                                         n: nat, at: Place)
    requires AllLaid(p) && Related(p, chosen, s, f) && Ends(Run(p, m, s, n)) && NoneStrays(p, chosen, m, s, n)
    requires Within(p, at) && SiteAt(p[at.body], chosen, at.ip)
    ensures Visits(p, m, s, n, Place(at.body, at.ip + 1)) <= Visits(p, m, s, n, at)
    ensures p[at.body][at.ip].Plain? && Run(p, m, s, n).Returned? ==>
      Visits(p, m, s, n, Place(at.body, at.ip + 1)) == Visits(p, m, s, n, at)
    decreases n
  {
    hide AllLaid; hide Fuse; hide FusedStep; hide GroupStart; hide Fusible; hide Strays;
    DispatchMeets(p, chosen, m, s, f);
    PlaceFacts(p, chosen, s.at, f.at);
    SecondStartsNone(p[at.body], chosen, 0, at.ip);
    RunOne(p, m, s);
    if Covers(p, chosen, m, s) == 2 {
      SecondNext(p, chosen, m, s);
      SecondStartsNone(p[s.at.body], chosen, 0, s.at.ip);
      RunTwo(p, m, s);
    }
    var w := Covers(p, chosen, m, s);
    match Run(p, m, s, w)
    case Running(t) =>
      HalvesMeet(p, chosen, m, t, FusedStep(Fuse(p, chosen), m, f).s, n - w, at);
    case _ =>
  }

  // ---- the loop over the bodies --------------------------------------------

  /** How many instructions, and so dispatch sites and opcode bytes, fusing takes out of the first bodies. */
  ghost function Shorter(p: Program, chosen: set<(int, int)>, bodies: nat): int
    requires bodies <= |p|
  {
    if bodies == 0 then 0
    else Shorter(p, chosen, bodies - 1) + |p[bodies - 1]| - |FuseFrom(p[bodies - 1], chosen, 0)|
  }

  lemma LastAlone(b: nat, body: Body, chosen: set<(int, int)>, i: nat, cnt: Place -> nat)
    requires i + 1 >= |body|
    ensures SavedFrom(b, body, chosen, i, cnt) == 0
    ensures i <= |body| ==> |FuseFrom(body, chosen, i)| == |body| - i
  {
  }

  method FuseInSimulation(p: Program, chosen: set<(int, int)>, cnt: Place -> nat) returns (saved: nat, sites: nat)
    ensures saved == SavedIn(p, chosen, |p|, cnt)
    ensures sites == Shorter(p, chosen, |p|)
  {
    saved, sites := 0, 0;
    for b := 0 to |p|
      invariant saved == SavedIn(p, chosen, b, cnt)
      invariant sites == Shorter(p, chosen, b)
    {
      var ins, targets, i := p[b], Targets(p[b]), 0;
      ghost var saved0, sites0 := saved, sites;
      while i + 1 < |ins|
        invariant i <= |ins|
        invariant saved + SavedFrom(b, ins, chosen, i, cnt) == saved0 + SavedFrom(b, ins, chosen, 0, cnt)
        invariant sites + |ins| - i - |FuseFrom(ins, chosen, i)| == sites0 + |ins| - |FuseFrom(ins, chosen, 0)|
        decreases |ins| - i
      {
        var t1, t2 := KindOf(ins[i]), KindOf(ins[i + 1]);
        if t1 == OpKind && t2 != CallKind && i + 1 !in targets && (Key(ins[i]), Key(ins[i + 1])) in chosen {
          saved, sites, i := saved + cnt(Place(b, i)), sites + 1, i + 2;
        } else {
          i := i + 1;
        }
      }
      LastAlone(b, ins, chosen, i, cnt);
    }
  }

  // ---- firsts that are 'op' to the tool but no sequential operation ---------

  const LOOP := 0x44
  const BRANCH8 := 0x3F
  const EXECUTE := 0x46
  const DUP := 0x06

  /**
   A loop of one round: (LOOP) steps over the branch behind it. Fused, the pair saves nothing; the
   tool, to which (LOOP) is an 'op', counts one dispatch saved.
   */
  lemma LoopFirstOvercounted() returns (p: Program, chosen: set<(int, int)>, m: Machine<int>, n: nat, k: nat,
                                        cnt: Place -> nat)
    ensures p == [[Skip(LOOP), Jump(BRANCH8, 0), Exit]] && AllLaid(p) && n == k
    ensures Run(p, m, Start(0, 0), n) == Returned(1) == FusedRun(Fuse(p, chosen), m, Start(0, 0), k)
    ensures forall x :: cnt(x) == Visits(p, m, Start(0, 0), n, x)
    ensures SavedIn(p, chosen, |p|, cnt) == 1
  {
    var body := [Skip(LOOP), Jump(BRANCH8, 0), Exit];
    p, chosen := [body], {(LOOP, BRANCH8)};
    m := Machine((op, d: int) => d + 1, (op, d) => true, (op, d) => false, d => 0);
    n := 2;
    var s := Start(0, 0);
    var t := State(Place(0, 2), [], 1);
    assert Step(p, m, s) == Running(t);
    assert Step(p, m, t) == Returned(1);
    RunTwo(p, m, s);
    cnt := x => Visits(p, m, s, 2, x);
    k := FusedRunMeets(p, chosen, m, s, s, 2);
    assert !GoesOn(p, m, s) && !GoesOn(p, m, t);
    SumIsFirsts(p, chosen, m, s, 2, cnt);
    assert Targets(body) == {0} by {
      assert body[1].target in Targets(body);
    }
    assert AtFirst(p, chosen, s) && !AtFirst(p, chosen, t);
  }

  /** EXECUTE, too, is an 'op': its callee returns behind the pair, and the second half is lost. */
  lemma ExecuteFirstLosesSecond() returns (p: Program, chosen: set<(int, int)>, m: Machine<int>)
    ensures p == [[Divert(EXECUTE), Plain(DUP), Exit], [Exit]] && SiteAt(p[0], chosen, 0)
    ensures Run(p, m, Start(0, 0), 4) == Returned(1)
    ensures FusedRun(Fuse(p, chosen), m, Start(0, 0), 3) == Returned(0)
  {
    var body := [Divert(EXECUTE), Plain(DUP), Exit];
    p, chosen := [body, [Exit]], {(EXECUTE, DUP)};
    m := Machine((op, d: int) => if op == DUP then d + 1 else d, (op, d) => true, (op, d) => false, d => 1);
    assert Targets(body) == {};
    var q := Fuse(p, chosen);
    assert q[0] == [Two(body[0], body[1]), One(Exit)] by {
      assert FuseFrom(body, chosen, 0) == [Two(body[0], body[1])] + FuseFrom(body, chosen, 2);
      assert FuseFrom(body, chosen, 2) == [One(Exit)] + FuseFrom(body, chosen, 3);
    }
    assert q[1] == [One(Exit)] by {
      assert FuseFrom(p[1], chosen, 0) == [One(Exit)] + FuseFrom(p[1], chosen, 1);
    }
    var s := Start(0, 0);
    var called := State(Place(1, 0), [Place(0, 1)], 0);
    assert Step(p, m, s) == Running(called);
    assert FusedStep(q, m, s) == Running(called);
    assert Step(p, m, called) == FusedStep(q, m, called) == Running(State(Place(0, 1), [], 0));
    assert Step(p, m, State(Place(0, 1), [], 0)) == Running(State(Place(0, 2), [], 1));
    assert Run(p, m, State(Place(0, 2), [], 1), 1) == Returned(1);
    assert Run(p, m, State(Place(0, 1), [], 0), 2) == Returned(1);
    assert Run(p, m, called, 3) == Returned(1);
    assert FusedRun(q, m, State(Place(0, 1), [], 0), 1) == Returned(0);
    assert FusedRun(q, m, called, 2) == Returned(0);
  }
}
