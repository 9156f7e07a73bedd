/**
 Inlining small straight words (docs/CV8-LEDGER.md, entry 683): the compiler lays a copy of a
 word's body, without its EXIT, where it would have laid a call. Every instruction is copied as
 it is but VAR@ and VAR!, whose slots are laid again from their new place. Here the copy's run is
 proved to be the call's.
 */
module Inlining {
  import opened Cells
  import opened Instructions
  import opened PlainMachine
  import opened StackMachine

  /** What a copied body may hold: it neither looks at the return stack nor moves ip, calls apart. */
  predicate Inlinable(i: Instr) {
    match i
    case Lit(_, _) | DictLimit | Drop | Dup | Swap | Rot | Over | TwoDup | TwoDrop | QDup | Unary(_) | Binary(_)
       | UmStar | UmDiv | DPlus | CFetch | Fetch | AtXt | CStore | StoreCell | PlusStore | Count
       | VarFetch(_) | VarStore(_) | SpFetch | SpStore | Execute | Call(_) | BadOp | External(_) => true
    case _ => false
  }

  /** The code from b to be is the code from a to e, instruction by instruction. */
  ghost predicate Copies(c: Config, m: Memory, a: nat, e: nat, b: nat, be: nat)
    decreases e - a
  {
    if a >= e then a == e && b == be
    else
      var (i, n) := DecodeAt(c, m, a);
      var (j, k) := DecodeAt(c, m, b);
      && i == j && Inlinable(i) && Outside(c, a, 10) && Outside(c, b, 10)
      && b + k <= be < Modulus(c.w) && e < Modulus(c.w)
      && Copies(c, m, a + n, e, b + k, be)
  }

  /** A call site returning to after, a body [x, e) with its EXIT at e, and the body's copy [y, be). */
  datatype Site = Site(code: Memory, after: nat, x: nat, e: nat, y: nat, be: nat) {
    ghost predicate Valid(c: Config) {
      && x <= e && y <= be && Copies(c, code, x, e, y, be)
      && DecodeAt(c, code, e) == (Exit, 1) && Outside(c, e, 10)
    }

    /** No store has changed the body, its EXIT or the copy; what lies between them is free. */
    ghost predicate Kept(m: Memory) {
      forall z :: x <= z <= e || y <= z < be ==> Get(m, z) == Get(code, z)
    }
  }

  /**
   The return-stack discipline of a state inside the call: a callee looks only at what it pushed
   itself, until it returns; depth counts the cells down to the call's own return address.
   */
  ghost predicate Disciplined(c: Config, s: Abs, depth: nat) {
    var i := DecodeAt(c, s.mem, s.ip).0;
    && depth <= |s.rs|
    && (depth < |s.rs| ==>
          && !i.RpFetch?
          && (RArgs(i) < |s.rs| - depth || (|s.rs| == depth + 1 && (i.Exit? || i.DoVar?))))
  }

  /** Where the two runs are: in the body and its copy, or in a word both have called. */
  datatype Place = InBody | InCallee(top: seq<nat>, ra: nat, rb: nat)

  /** s is in the call, t in the copy; r is the return stack below both. */
  ghost predicate Paired(c: Config, g: Site, s: Abs, t: Abs, r: seq<nat>, p: Place) {
    && t.ds == s.ds && t.mem == s.mem && t.ls == s.ls && g.Kept(s.mem)
    && match p
       case InBody =>
         s.rs == [g.after] + r && t.rs == r && g.x <= s.ip <= g.e && g.y <= t.ip <= g.be
         && Copies(c, g.code, s.ip, g.e, t.ip, g.be)
       case InCallee(top, ra, rb) =>
         s.rs == top + [ra, g.after] + r && t.rs == top + [rb] + r && s.ip == t.ip
         && g.x <= ra <= g.e && g.y <= rb <= g.be && Copies(c, g.code, ra, g.e, rb, g.be)
  }

  /** What an inlinable instruction does depends neither on where it is nor on the return stack. */
  lemma InlinableMeaning(c: Config, i: Instr, next: nat, next': nat, args: seq<nat>, v: nat, ls: seq<nat>, sp: nat,
                         rp: nat, rp': nat)
    requires Inlinable(i) && |args| == Args(i)
    ensures RArgs(i) == 0
    ensures
      var e := Act(c, i, next, args, [], v, ls, sp, rp);
      var e' := Act(c, i, next', args, [], v, ls, sp, rp');
      if e.Effect? then
        var t := match i case Call(t) => t case Execute => args[0] case _ => next;
        var t' := match i case Call(t) => t case Execute => args[0] case _ => next';
        var calls := i.Call? || i.Execute?;
        && e == e.(ip := t, rdrop := 0, rpush := if calls then [next] else [])
        && e' == e.(ip := t', rpush := if calls then [next'] else [])
      else e' == e
  {
    hide Wrap; hide UnVal; hide BinVal; hide Double; hide High; hide Low; hide Quotient; hide Remainder;
    match i
    case Call(_) =>
    case Execute =>
    case Lit(_, _) | DictLimit | Dup | Over | QDup | TwoDup | VarFetch(_) | SpFetch =>
    case Drop | TwoDrop | Swap | Rot | Count | Unary(_) | CFetch | Fetch | AtXt =>
    case Binary(_) =>
    case UmStar | UmDiv | DPlus =>
    case CStore | StoreCell | PlusStore | VarStore(_) =>
    case SpStore | BadOp | External(_) =>
  }

  /** Where the code is kept, the body and its copy hold the same instruction still. */
  lemma PairKept(c: Config, g: Site, m: Memory, a: nat, b: nat)
    requires g.Kept(m) && g.x <= a < g.e && g.y <= b && Copies(c, g.code, a, g.e, b, g.be)
    ensures DecodeAt(c, m, a) == DecodeAt(c, g.code, a) && DecodeAt(c, m, b) == DecodeAt(c, g.code, b)
  {
    hide Get; hide DecodeAt;
    var n, k := DecodeAt(c, g.code, a).1, DecodeAt(c, g.code, b).1;
    CopiesEnd(c, g.code, a + n, g.e, b + k, g.be);
    DecodeAtReach(c, g.code, m, a);
    DecodeAtReach(c, g.code, m, b);
  }

  lemma ExitKept(c: Config, g: Site, m: Memory)
    requires g.Valid(c) && g.Kept(m)
    ensures DecodeAt(c, m, g.e) == (Exit, 1)
  {
    hide Get; hide DecodeAt; hide Copies;
    DecodeAtReach(c, g.code, m, g.e);
  }

  /** The run that needs a return cell more than o does has one. */
  ghost predicate Room(c: Config, o: Outcome<Abs>) {
    o.Running? && c.RFloor() + c.C() <= Rp(c, o.s)
  }

  /** Two effects alike but for ip and the cells they push on return stacks one cell apart. */
  lemma InlinableApply(c: Config, s: Abs, t: Abs, i: Instr, e: Effect, e': Effect)
    requires t.ds == s.ds && t.mem == s.mem && t.ls == s.ls && |s.rs| == |t.rs| + 1
    requires e.Effect? && e'.Effect? && e.rdrop == 0 && |e'.rpush| == |e.rpush| && e.drop <= |s.ds|
    requires e' == e.(ip := e'.ip, rpush := e'.rpush)
    requires ApplyAbs(c, s, i, e).Running? || Room(c, ApplyAbs(c, t, i, e'))
    ensures ApplyAbs(c, s, i, e) == Running(After(c, s, e)) && ApplyAbs(c, t, i, e') == Running(After(c, t, e'))
    ensures After(c, s, e).rs == e.rpush + s.rs && After(c, t, e').rs == e'.rpush + t.rs
  {
    hide LowestTouch; hide DoWrite; hide WriteOutside; hide Config.DLimit; hide Config.RFloor;
    assert s.rs[0..] == s.rs && t.rs[0..] == t.rs;
  }

  /** The same instruction on both sides, one return-stack cell apart. */
  lemma InlinableStep(c: Config, s: Abs, t: Abs, i: Instr, next: nat, next': nat)
    requires Inlinable(i) && t.ds == s.ds && t.mem == s.mem && t.ls == s.ls && |s.rs| == |t.rs| + 1
    requires ExecAbs(c, s, i, next).Running? || Room(c, ExecAbs(c, t, i, next'))
    ensures ExecAbs(c, s, i, next).Running? && ExecAbs(c, t, i, next').Running?
    ensures
      var s', t' := ExecAbs(c, s, i, next).s, ExecAbs(c, t, i, next').s;
      && t'.ds == s'.ds && t'.mem == s'.mem && t'.ls == s'.ls
      && if i.Call? || i.Execute? then s'.rs == [next] + s.rs && t'.rs == [next'] + t.rs && s'.ip == t'.ip
         else s'.rs == s.rs && t'.rs == t.rs && s'.ip == next && t'.ip == next'
  {
    hide Act; hide ApplyAbs; hide Wrap; hide DoRead; hide DoWrite; hide Inlinable; hide Args; hide Reads;
    hide ReadOutside;
    var args := s.ds[..Args(i)];
    var v := DoRead(c.w, s.mem, Reads(c, i, args, s.ls));
    InlinableMeaning(c, i, next, next', args, v, s.ls, Wrap(c.w, Sp(c, s)), Wrap(c.w, Rp(c, s)), Wrap(c.w, Rp(c, t)));
    assert s.rs[..0] == [] && t.rs[..0] == [];
    var e := Act(c, i, next, args, [], v, s.ls, Wrap(c.w, Sp(c, s)), Wrap(c.w, Rp(c, s)));
    var e' := Act(c, i, next', args, [], v, s.ls, Wrap(c.w, Sp(c, s)), Wrap(c.w, Rp(c, t)));
    InlinableApply(c, s, t, i, e, e');
    assert [] + s.rs == s.rs && [] + t.rs == t.rs;
  }

  /** One of the two runs goes on, and keeps the code; the copy's with a return cell to spare. */
  ghost predicate Goes(c: Config, g: Site, s: Abs, t: Abs) {
    var o, o' := StepAbs(c, s), StepAbs(c, t);
    (o.Running? && g.Kept(o.s.mem)) || (Room(c, o') && g.Kept(o'.s.mem))
  }

  /** One instruction of the body. */
  lemma BodyStep(c: Config, g: Site, s: Abs, t: Abs, r: seq<nat>) returns (p: Place)
    requires g.Valid(c) && Paired(c, g, s, t, r, InBody) && s.ip < g.e && Goes(c, g, s, t)
    ensures StepAbs(c, s).Running? && StepAbs(c, t).Running? && Paired(c, g, StepAbs(c, s).s, StepAbs(c, t).s, r, p)
    ensures p.InBody? || (p.InCallee? && p.top == [])
    ensures
      var (i, n) := DecodeAt(c, g.code, s.ip);
      !i.Call? && !i.Execute? ==> p.InBody? && StepAbs(c, s).s.ip == s.ip + n
  {
    hide DecodeAt; hide ExecAbs; hide Get; hide Wrap; hide Site.Kept;
    PairKept(c, g, s.mem, s.ip, t.ip);
    var (i, n) := DecodeAt(c, g.code, s.ip);
    var k := DecodeAt(c, g.code, t.ip).1;
    var next, next' := Wrap(c.w, s.ip + n), Wrap(c.w, t.ip + k);
    InlinableStep(c, s, t, i, next, next');
    CopiesEnd(c, g.code, s.ip, g.e, t.ip, g.be);
    CopiesEnd(c, g.code, s.ip + n, g.e, t.ip + k, g.be);
    assert next == s.ip + n && next' == t.ip + k;
    if i.Call? || i.Execute? {
      p := InCallee([], next, next');
      var s', t' := StepAbs(c, s).s, StepAbs(c, t).s;
      assert s'.rs == [] + [next, g.after] + r;
      assert t'.rs == [] + [next'] + r;
    } else {
      p := InBody;
    }
  }

  lemma {:induction false} CopiesEnd(c: Config, m: Memory, a: nat, e: nat, b: nat, be: nat)
    requires Copies(c, m, a, e, b, be)
    ensures a <= e && b <= be && (a < e ==> e < Modulus(c.w) && be < Modulus(c.w))
    decreases e - a
  {
    hide DecodeAt;
    if a < e {
      CopiesEnd(c, m, a + DecodeAt(c, m, a).1, e, b + DecodeAt(c, m, b).1, be);
    }
  }

  /** RP@ apart, the return stack's address means nothing. */
  lemma ActIgnoresRp(c: Config, i: Instr, next: nat, args: seq<nat>, rargs: seq<nat>, v: nat, ls: seq<nat>, sp: nat,
                     rp: nat, rp': nat)
    requires |args| == Args(i) && |rargs| == RArgs(i) && !i.RpFetch?
    ensures Act(c, i, next, args, rargs, v, ls, sp, rp) == Act(c, i, next, args, rargs, v, ls, sp, rp')
  {
    hide Wrap; hide UnVal; hide BinVal; hide Double; hide High; hide Low; hide Quotient; hide Remainder;
  }

  /** An effect that takes no more than the cells top, over different return stacks. */
  lemma DeepApply(c: Config, s: Abs, t: Abs, i: Instr, e: Effect, top: seq<nat>, sb: seq<nat>, tb: seq<nat>)
    returns (top': seq<nat>)
    requires t == s.(rs := top + tb) && s.rs == top + sb && |sb| == |tb| + 1
    requires e.Effect? ==> e.drop <= |s.ds| && e.rdrop <= |top|
    requires ApplyAbs(c, s, i, e).Running? || Room(c, ApplyAbs(c, t, i, e))
    ensures ApplyAbs(c, s, i, e).Running? && ApplyAbs(c, t, i, e).Running?
    ensures
      var s', t' := ApplyAbs(c, s, i, e).s, ApplyAbs(c, t, i, e).s;
      t' == s'.(rs := top' + tb) && s' == s'.(rs := top' + sb)
  {
    hide LowestTouch; hide DoWrite; hide WriteOutside; hide Config.DLimit; hide Config.RFloor;
    top' := e.rpush + top[e.rdrop..];
    assert e.rpush + s.rs[e.rdrop..] == top' + sb && e.rpush + t.rs[e.rdrop..] == top' + tb;
  }

  /** An instruction that looks at no more than the cells top, over different return stacks. */
  lemma DeepStep(c: Config, s: Abs, t: Abs, i: Instr, next: nat, top: seq<nat>, sb: seq<nat>, tb: seq<nat>)
    returns (top': seq<nat>)
    requires t.ds == s.ds && t.mem == s.mem && t.ls == s.ls && s.rs == top + sb && t.rs == top + tb && |sb| == |tb| + 1
    requires RArgs(i) <= |top| && !i.RpFetch?
    requires ExecAbs(c, s, i, next).Running? || Room(c, ExecAbs(c, t, i, next))
    ensures ExecAbs(c, s, i, next).Running? && ExecAbs(c, t, i, next).Running?
    ensures
      var s', t' := ExecAbs(c, s, i, next).s, ExecAbs(c, t, i, next).s;
      t' == s'.(rs := top' + tb) && s' == s'.(rs := top' + sb)
  {
    hide Act; hide ApplyAbs; hide Wrap; hide DoRead; hide Args; hide RArgs; hide Reads; hide ReadOutside;
    var args, rargs := s.ds[..Args(i)], s.rs[..RArgs(i)];
    assert rargs == top[..RArgs(i)] == t.rs[..RArgs(i)];
    var v := DoRead(c.w, s.mem, Reads(c, i, args, s.ls));
    ActIgnoresRp(c, i, next, args, rargs, v, s.ls, Wrap(c.w, Sp(c, s)), Wrap(c.w, Rp(c, s)), Wrap(c.w, Rp(c, t)));
    var e := Act(c, i, next, args, rargs, v, s.ls, Wrap(c.w, Sp(c, s)), Wrap(c.w, Rp(c, s)));
    ApplyIpOnly(c, s, t, i, e);
    top' := DeepApply(c, s, t.(ip := s.ip), i, e, top, sb, tb);
  }

  /** Applying an effect does not look at ip. */
  lemma ApplyIpOnly(c: Config, s: Abs, t: Abs, i: Instr, e: Effect)
    requires e.Effect? ==> e.drop <= |t.ds| && e.rdrop <= |t.rs|
    ensures ApplyAbs(c, t, i, e) == ApplyAbs(c, t.(ip := s.ip), i, e)
  {
    hide LowestTouch; hide DoWrite; hide WriteOutside; hide Config.DLimit; hide Config.RFloor;
  }

  /** EXIT and DOVAR return to whatever address is on top. */
  lemma ReturnStep(c: Config, s: Abs, i: Instr, next: nat)
    requires (i.Exit? || i.DoVar?) && s.rs != [] && ExecAbs(c, s, i, next).Running?
    ensures ExecAbs(c, s, i, next) ==
      Running(s.(ip := s.rs[0], rs := s.rs[1..], ds := (if i.DoVar? then [i.body] else []) + s.ds))
  {
    hide Wrap;
    assert s.ds[0..] == s.ds && [] + s.rs[1..] == s.rs[1..];
  }

  lemma ReturnRuns(c: Config, s: Abs, t: Abs, i: Instr, next: nat)
    requires (i.Exit? || i.DoVar?) && s.rs != [] && t.rs != [] && |s.ds| == |t.ds| && ExecAbs(c, s, i, next).Running?
    ensures ExecAbs(c, t, i, next).Running?
  {
    hide Wrap;
  }

  /** One instruction of a word the body has called, or its return to the body. */
  lemma CalleeStep(c: Config, g: Site, s: Abs, t: Abs, r: seq<nat>, top: seq<nat>, ra: nat, rb: nat) returns (p: Place)
    requires g.Valid(c) && Paired(c, g, s, t, r, InCallee(top, ra, rb)) && Disciplined(c, s, |r| + 1)
    requires Goes(c, g, s, t)
    ensures StepAbs(c, s).Running? && StepAbs(c, t).Running? && Paired(c, g, StepAbs(c, s).s, StepAbs(c, t).s, r, p)
  {
    hide DecodeAt; hide ExecAbs; hide Get; hide Wrap; hide Site.Kept; hide Copies; hide RArgs;
    var (i, n) := DecodeAt(c, s.mem, s.ip);
    var next := Wrap(c.w, s.ip + n);
    var sb, tb := [ra, g.after] + r, [rb] + r;
    assert s.rs == top + sb && t.rs == top + tb;
    if RArgs(i) <= |top| {
      var top' := DeepStep(c, s, t, i, next, top, sb, tb);
      p := InCallee(top', ra, rb);
      assert top' + sb == top' + [ra, g.after] + r && top' + tb == top' + [rb] + r;
    } else {
      if ExecAbs(c, s, i, next).Running? {
        ReturnRuns(c, s, t, i, next);
      } else {
        ReturnRuns(c, t, s, i, next);
      }
      ReturnStep(c, s, i, next);
      ReturnStep(c, t, i, next);
      assert s.rs[1..] == [g.after] + r && t.rs[1..] == r;
      p := InBody;
    }
  }

  /** s is inside the call and has not come to the body's EXIT. */
  ghost predicate Inside(c: Config, g: Site, s: Abs, depth: nat) {
    g.Kept(s.mem) && Disciplined(c, s, depth) && (|s.rs| == depth ==> s.ip != g.e)
  }

  /** The two runs go in lockstep. */
  lemma {:induction false} Lockstep(c: Config, g: Site, s: Abs, t: Abs, r: seq<nat>, n: nat) returns (p: Place)
    requires g.Valid(c) && Paired(c, g, s, t, r, InBody)
    requires RunAbs(c, s, n).Running? && g.Kept(RunAbs(c, s, n).s.mem)
    requires forall k :: 0 <= k < n && RunAbs(c, s, k).Running? ==> Inside(c, g, RunAbs(c, s, k).s, |r| + 1)
    ensures RunAbs(c, t, n).Running? && Paired(c, g, RunAbs(c, s, n).s, RunAbs(c, t, n).s, r, p)
  {
    hide StepAbs; hide Disciplined; hide Copies; hide Site.Kept; hide Site.Valid;
    p := InBody;
    if n > 0 {
      p := Lockstep(c, g, s, t, r, n - 1);
      var a, b := RunAbs(c, s, n - 1).s, RunAbs(c, t, n - 1).s;
      match p
      case InBody => p := BodyStep(c, g, a, b, r);
      case InCallee(top, ra, rb) => p := CalleeStep(c, g, a, b, r, top, ra, rb);
    }
  }

  /**
   Inlining preserves meaning. s is at the call; its run reaches the body's EXIT after 1 + n steps
   and returns. From the copy, n steps reach the copy's end with the same stacks, memory and
   locals.
   */
  lemma InliningPreserves(c: Config, g: Site, s: Abs, n: nat)
    requires c.Valid() && g.Valid(c) && g.Kept(s.mem) && Outside(c, s.ip, 10)
    requires DecodeAt(c, s.mem, s.ip).0 == Call(g.x) && g.after == Wrap(c.w, s.ip + DecodeAt(c, s.mem, s.ip).1)
    requires forall k :: 1 <= k < n + 1 && RunAbs(c, s, k).Running? ==> Inside(c, g, RunAbs(c, s, k).s, |s.rs| + 1)
    requires
      var end := RunAbs(c, s, n + 1);
      end.Running? && g.Kept(end.s.mem) && end.s.ip == g.e && |end.s.rs| == |s.rs| + 1
    ensures
      var end := RunAbs(c, s, n + 2);
      && end.Running? && end.s.ip == g.after && end.s.rs == s.rs
      && RunAbs(c, s.(ip := g.y), n) == Running(end.s.(ip := g.be))
  {
    hide DecodeAt; hide ExecAbs; hide Copies; hide Disciplined; hide Wrap; hide Site.Kept;
    CallMeaning(c, s, g.x, g.after);
    assert RunAbs(c, s, 1) == StepAbs(c, s) by { assert RunAbs(c, s, 0) == Running(s); }
    var s1, t := s.(ip := g.x, rs := [g.after] + s.rs), s.(ip := g.y);
    RunPrefix(c, s, 1, n + 1);
    assert StepAbs(c, s) == Running(s1);
    RunAdd(c, s, 1, n);
    forall k | 0 <= k < n && RunAbs(c, s1, k).Running?
      ensures Inside(c, g, RunAbs(c, s1, k).s, |s.rs| + 1)
    {
      RunAdd(c, s, 1, k);
    }
    var p := Lockstep(c, g, s1, t, s.rs, n);
    AtExit(c, g, RunAbs(c, s1, n).s, RunAbs(c, t, n).s, s.rs, p);
  }

  /** Where the call comes to the body's EXIT the copy is at its end; the EXIT returns to the site. */
  lemma AtExit(c: Config, g: Site, s: Abs, t: Abs, r: seq<nat>, p: Place)
    requires g.Valid(c) && Paired(c, g, s, t, r, p) && s.ip == g.e && |s.rs| == |r| + 1
    ensures StepAbs(c, s) == Running(s.(ip := g.after, rs := r)) && t == s.(ip := g.be, rs := r)
  {
    hide DecodeAt; hide Get; hide Site.Kept;
    ExitKept(c, g, s.mem);
    ExitMeaning(c, s, Wrap(c.w, s.ip + 1));
    assert s.rs[1..] == r;
  }

  /** t is inside the copy, short of its end, with return cells for the call's run as well. */
  ghost predicate InsideCopy(c: Config, g: Site, t: Abs, depth: nat) {
    g.Kept(t.mem) && c.RFloor() + c.C() <= Rp(c, t) && Disciplined(c, t, depth) && (|t.rs| == depth ==> t.ip != g.be)
  }

  /** The same the other way about. */
  lemma {:induction false} LockstepBack(c: Config, g: Site, s: Abs, t: Abs, r: seq<nat>, n: nat) returns (p: Place)
    requires g.Valid(c) && Paired(c, g, s, t, r, InBody)
    requires Room(c, RunAbs(c, t, n)) && g.Kept(RunAbs(c, t, n).s.mem)
    requires forall k :: 0 <= k < n && RunAbs(c, t, k).Running? ==> InsideCopy(c, g, RunAbs(c, t, k).s, |r|)
    ensures RunAbs(c, s, n).Running? && Paired(c, g, RunAbs(c, s, n).s, RunAbs(c, t, n).s, r, p)
  {
    hide StepAbs; hide Copies; hide Site.Kept; hide Site.Valid; hide DecodeAt; hide RArgs;
    p := InBody;
    if n > 0 {
      p := LockstepBack(c, g, s, t, r, n - 1);
      var a, b := RunAbs(c, s, n - 1).s, RunAbs(c, t, n - 1).s;
      match p
      case InBody =>
        BothEnd(c, g.code, a.ip, g.e, b.ip, g.be);
        p := BodyStep(c, g, a, b, r);
      case InCallee(top, ra, rb) => p := CalleeStep(c, g, a, b, r, top, ra, rb);
    }
  }

  lemma BothEnd(c: Config, m: Memory, a: nat, e: nat, b: nat, be: nat)
    requires Copies(c, m, a, e, b, be)
    ensures a == e <==> b == be
  {
    hide DecodeAt;
  }

  /**
   And inlining adds no meaning: where the copy's run comes to its end after n steps, leaving a
   return cell free at each of them, the call's run comes back to its site after n + 2 with the same
   stacks, memory and locals.
   */
  lemma InliningReflects(c: Config, g: Site, s: Abs, n: nat)
    requires c.Valid() && g.Valid(c) && Outside(c, s.ip, 10)
    requires DecodeAt(c, s.mem, s.ip).0 == Call(g.x) && g.after == Wrap(c.w, s.ip + DecodeAt(c, s.mem, s.ip).1)
    requires
      var t := s.(ip := g.y);
      && (forall k :: 0 <= k < n && RunAbs(c, t, k).Running? ==> InsideCopy(c, g, RunAbs(c, t, k).s, |s.rs|))
      && Room(c, RunAbs(c, t, n)) && g.Kept(RunAbs(c, t, n).s.mem)
      && RunAbs(c, t, n).s.ip == g.be && |RunAbs(c, t, n).s.rs| == |s.rs|
    ensures
      var end := RunAbs(c, s, n + 2);
      && end.Running? && end.s.ip == g.after && end.s.rs == s.rs
      && RunAbs(c, s.(ip := g.y), n) == Running(end.s.(ip := g.be))
  {
    hide DecodeAt; hide ExecAbs; hide Copies; hide Disciplined; hide Wrap; hide Site.Kept;
    var s1, t := s.(ip := g.x, rs := [g.after] + s.rs), s.(ip := g.y);
    CallMeaning(c, s, g.x, g.after);
    assert RunAbs(c, t, 0) == Running(t);
    assert RunAbs(c, s, 1) == Running(s1) by { assert RunAbs(c, s, 0) == Running(s); }
    CopiesEnd(c, g.code, g.x, g.e, g.y, g.be);
    var p := LockstepBack(c, g, s1, t, s.rs, n);
    var a := RunAbs(c, s1, n).s;
    assert p.InBody?;
    BothEnd(c, g.code, a.ip, g.e, g.be, g.be);
    AtExit(c, g, a, RunAbs(c, t, n).s, s.rs, p);
    RunAdd(c, s, 1, n);
  }

  lemma ExitMeaning(c: Config, s: Abs, next: nat)
    requires s.rs != []
    ensures ExecAbs(c, s, Exit, next) == Running(s.(ip := s.rs[0], rs := s.rs[1..]))
  {
    hide Wrap;
    assert [] + s.ds[0..] == s.ds && [] + s.rs[1..] == s.rs[1..];
  }

  // ---- bodies without calls ------------------------------------------------

  /** How many instructions the code from a to e is, if it calls nothing. */
  ghost predicate Straight(c: Config, m: Memory, a: nat, e: nat, n: nat)
    decreases n
  {
    if n == 0 then a == e
    else
      var (i, k) := DecodeAt(c, m, a);
      a < e && !i.Call? && !i.Execute? && Straight(c, m, a + k, e, n - 1)
  }

  /** It runs straight through, with its copy beside it. */
  lemma {:induction false} StraightRun(c: Config, g: Site, s: Abs, t: Abs, r: seq<nat>, n: nat)
    requires g.Valid(c) && Paired(c, g, s, t, r, InBody) && Straight(c, g.code, s.ip, g.e, n)
    requires RunAbs(c, s, n).Running?
    requires forall k :: 0 <= k <= n && RunAbs(c, s, k).Running? ==> g.Kept(RunAbs(c, s, k).s.mem)
    ensures forall k :: 0 <= k < n && RunAbs(c, s, k).Running? ==> Inside(c, g, RunAbs(c, s, k).s, |r| + 1)
    ensures RunAbs(c, s, n).s.ip == g.e && |RunAbs(c, s, n).s.rs| == |r| + 1
    decreases n
  {
    hide DecodeAt; hide StepAbs; hide Copies; hide Site.Kept; hide Site.Valid;
    assert RunAbs(c, s, 0) == Running(s);
    if n > 0 {
      RunPrefix(c, s, 1, n);
      assert RunAbs(c, s, 1) == StepAbs(c, s);
      assert g.Kept(RunAbs(c, s, 1).s.mem);
      var p := BodyStep(c, g, s, t, r);
      var s1, t1 := StepAbs(c, s).s, StepAbs(c, t).s;
      forall k | 0 <= k < n
        ensures RunAbs(c, s, k + 1) == RunAbs(c, s1, k)
      {
        RunAdd(c, s, 1, k);
      }
      StraightRun(c, g, s1, t1, r, n - 1);
      forall k | 0 <= k < n && RunAbs(c, s, k).Running?
        ensures Inside(c, g, RunAbs(c, s, k).s, |r| + 1)
      {
        if k > 0 {
          assert RunAbs(c, s, k) == RunAbs(c, s1, k - 1);
        }
      }
    }
  }

  /**
   For a body that calls nothing there is nothing more to ask: from any state, if the called body's n
   instructions run without a trap and without storing into the code, the copy does the same.
   */
  lemma StraightInlines(c: Config, g: Site, s: Abs, n: nat)
    requires c.Valid() && g.Valid(c) && Outside(c, s.ip, 10) && Straight(c, g.code, g.x, g.e, n)
    requires DecodeAt(c, s.mem, s.ip).0 == Call(g.x) && g.after == Wrap(c.w, s.ip + DecodeAt(c, s.mem, s.ip).1)
    requires RunAbs(c, s, n + 1).Running?
    requires forall k :: 0 <= k <= n + 1 && RunAbs(c, s, k).Running? ==> g.Kept(RunAbs(c, s, k).s.mem)
    ensures
      var end := RunAbs(c, s, n + 2);
      && end.Running? && end.s.ip == g.after && end.s.rs == s.rs
      && RunAbs(c, s.(ip := g.y), n) == Running(end.s.(ip := g.be))
  {
    hide DecodeAt; hide ExecAbs; hide Copies; hide Straight; hide Wrap; hide Site.Kept;
    assert RunAbs(c, s, 0) == Running(s);
    assert g.Kept(s.mem);
    CallMeaning(c, s, g.x, g.after);
    RunPrefix(c, s, 1, n + 1);
    assert RunAbs(c, s, 1) == StepAbs(c, s);
    var s1, t := s.(ip := g.x, rs := [g.after] + s.rs), s.(ip := g.y);
    assert RunAbs(c, s, 1) == Running(s1);
    forall k | 0 <= k <= n
      ensures RunAbs(c, s, k + 1) == RunAbs(c, s1, k)
    {
      RunAdd(c, s, 1, k);
    }
    StraightRun(c, g, s1, t, s.rs, n);
    forall k | 1 <= k < n + 1 && RunAbs(c, s, k).Running?
      ensures Inside(c, g, RunAbs(c, s, k).s, |s.rs| + 1)
    {
      assert RunAbs(c, s, k) == RunAbs(c, s1, k - 1);
    }
    hide StepAbs; hide RunAbs; hide Inside;
    InliningPreserves(c, g, s, n);
  }
}
