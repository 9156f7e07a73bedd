/**
 Bodies compiled from structured source: what the decoder makes of them, and where their branches lead
 (tools/image-audit.py:64-124, tools/superinst.py:106-140, docs/CV8.md:160-176).
 */
module StructuredBodies {
  import opened Arithmetic
  import opened BodyDecoder

  // ---- structured bodies ---------------------------------------------------

  /**
   Compiled source: straight code, control structures, and EXIT and LEAVE anywhere inside. Each
   branch is short (one offset byte) or not; forward ones of LEAVE are always two bytes.
   */
  datatype Code =
    | Nothing
    | Straight(i: Ins)
    | Both(first: Code, second: Code)
    | If(short: bool, body: Code)
    | IfElse(short: bool, short2: bool, yes: Code, no: Code)
    | Again(short: bool, body: Code)
    | Until(short: bool, body: Code)
    | While(short: bool, short2: bool, test: Code, body: Code)
    | DoLoop(short: bool, short2: bool, body: Code)
    | Leave
    | EarlyExit

  function BranchSize(short: bool): nat { if short then 2 else 3 }

  function Size(c: Code): nat {
    match c
    case Nothing => 0
    case Straight(i) => |Encode(i)|
    case Both(x, y) => Size(x) + Size(y)
    case If(s, x) => BranchSize(s) + Size(x)
    case IfElse(s, s2, x, y) => BranchSize(s) + Size(x) + BranchSize(s2) + Size(y)
    case Again(s, x) => Size(x) + BranchSize(s)
    case Until(s, x) => Size(x) + BranchSize(s)
    case While(s, s2, t, x) => Size(t) + BranchSize(s) + Size(x) + BranchSize(s2)
    case DoLoop(s, s2, x) => 1 + BranchSize(s) + Size(x) + 1 + BranchSize(s2)
    case Leave => 3
    case EarlyExit => 1
  }

  function Branch(short: bool, off: int): Ins { Jump(if short then BRANCH8 else BRANCH, off) }
  function CondBranch(short: bool, off: int): Ins { Jump(if short then QBRANCH8 else QBRANCH, off) }

  /** over bytes are stepped over; the offset counts from the operand. */
  function Forward(short: bool, over: nat): int { BranchSize(short) - 1 + over }
  function Back(over: nat): int { -(over + 1) }

  /** The instructions of c; rest is how many bytes from its end to that of the loop it is in. */
  function Lay(c: Code, rest: nat): seq<Ins> {
    match c
    case Nothing => []
    case Straight(i) => [i]
    case Both(x, y) => Lay(x, rest + Size(y)) + Lay(y, rest)
    case If(s, x) => [CondBranch(s, Forward(s, Size(x)))] + Lay(x, rest)
    case IfElse(s, s2, x, y) =>
      [CondBranch(s, Forward(s, Size(x) + BranchSize(s2)))] + Lay(x, rest + BranchSize(s2) + Size(y))
      + ([Branch(s2, Forward(s2, Size(y)))] + Lay(y, rest))
    case Again(s, x) => Lay(x, rest + BranchSize(s)) + [Branch(s, Back(Size(x)))]
    case Until(s, x) => Lay(x, rest + BranchSize(s)) + [CondBranch(s, Back(Size(x)))]
    case While(s, s2, t, x) =>
      Lay(t, rest + BranchSize(s) + Size(x) + BranchSize(s2))
      + ([CondBranch(s, Forward(s, Size(x) + BranchSize(s2)))] + Lay(x, rest + BranchSize(s2)))
      + [Branch(s2, Back(Size(t) + BranchSize(s) + Size(x)))]
    case DoLoop(s, s2, x) =>
      [Plain(QDO, []), Branch(s, Forward(s, Size(x) + 1 + BranchSize(s2)))] + Lay(x, 1 + BranchSize(s2))
      + [Plain(LOOP, []), Branch(s2, Back(Size(x) + 1))]
    case Leave => [Branch(false, Forward(false, rest))]
    case EarlyExit => [Plain(EXIT, [])]
  }

  /** Straight code is neither branch nor EXIT; LEAVE is in a loop. */
  predicate WellFormed(c: Code, inLoop: bool) {
    match c
    case Nothing => true
    case Straight(i) => !i.Jump? && !IsExit(i)
    case Both(x, y) => WellFormed(x, inLoop) && WellFormed(y, inLoop)
    case If(_, x) => WellFormed(x, inLoop)
    case IfElse(_, _, x, y) => WellFormed(x, inLoop) && WellFormed(y, inLoop)
    case Again(_, x) => WellFormed(x, inLoop)
    case Until(_, x) => WellFormed(x, inLoop)
    case While(_, _, t, x) => WellFormed(t, inLoop) && WellFormed(x, inLoop)
    case DoLoop(_, _, x) => WellFormed(x, true)
    case Leave => inLoop
    case EarlyExit => true
  }

  /** Every early EXIT is inside an IF or ELSE part, behind a WHILE, or in a counted loop. */
  predicate Guarded(c: Code) {
    match c
    case Both(x, y) => Guarded(x) && Guarded(y)
    case Again(_, x) => Guarded(x)
    case Until(_, x) => Guarded(x)
    case While(_, _, t, _) => Guarded(t)
    case EarlyExit => false
    case _ => true
  }

  lemma BranchEncodes(short: bool, off: int)
    ensures |Bytes([Branch(short, off)])| == |Bytes([CondBranch(short, off)])| == BranchSize(short)
    ensures !IsExit(Branch(short, off)) && !IsExit(CondBranch(short, off))
  {
    assert Bytes([Branch(short, off)]) == Encode(Branch(short, off)) + [];
    assert Bytes([CondBranch(short, off)]) == Encode(CondBranch(short, off)) + [];
  }

  lemma {:induction false} Through(p: seq<Ins>, q: seq<Ins>, a: nat, far: nat)
    ensures |Bytes(p + q)| == |Bytes(p)| + |Bytes(q)|
    ensures FarAfter(p + q, a, far) == FarAfter(q, a + |Bytes(p)|, FarAfter(p, a, far))
    ensures Stops(p + q, a, far) <==> Stops(p, a, far) || Stops(q, a + |Bytes(p)|, FarAfter(p, a, far))
    decreases |p|
  {
    hide Encode; hide FarNext; hide IsExit;
    if p == [] {
      assert p + q == q;
    } else {
      Through(p[1..], q, a + |Encode(p[0])|, FarNext(far, a, p[0]));
      assert (p + q)[1..] == p[1..] + q;
    }
  }

  lemma Alone(i: Ins, a: nat, far: nat)
    ensures FarAfter([i], a, far) == FarNext(far, a, i)
    ensures Stops([i], a, far) <==> IsExit(i) && a + 1 > far
    ensures |Bytes([i])| == |Encode(i)|
  {
    assert Bytes([i]) == Encode(i) + [];
  }

  function Max(x: nat, y: nat): nat { if x > y then x else y }

  /** A branch over so many bytes, then q. */
  lemma AheadFirst(b: Ins, s: bool, over: nat, q: seq<Ins>, a: nat, far: nat)
    requires b == Branch(s, Forward(s, over)) || b == CondBranch(s, Forward(s, over))
    ensures |Bytes([b] + q)| == BranchSize(s) + |Bytes(q)|
    ensures FarAfter([b] + q, a, far) == FarAfter(q, a + BranchSize(s), Max(far, a + BranchSize(s) + over))
    ensures Stops([b] + q, a, far) <==> Stops(q, a + BranchSize(s), Max(far, a + BranchSize(s) + over))
  {
    hide Encode; hide FarAfter; hide Stops;
    BranchEncodes(s, Forward(s, over));
    Alone(b, a, far);
    Through([b], q, a, far);
  }

  /** p, then a backward branch. */
  lemma BackLast(p: seq<Ins>, b: Ins, s: bool, over: nat, a: nat, far: nat)
    requires b == Branch(s, Back(over)) || b == CondBranch(s, Back(over))
    ensures |Bytes(p + [b])| == |Bytes(p)| + BranchSize(s)
    ensures FarAfter(p + [b], a, far) == FarAfter(p, a, far)
    ensures Stops(p + [b], a, far) <==> Stops(p, a, far)
  {
    hide Encode; hide FarAfter; hide Stops;
    BranchEncodes(s, Back(over));
    Alone(b, a + |Bytes(p)|, FarAfter(p, a, far));
    Through(p, [b], a, far);
  }

  /** What reading code laid at a does, part by part: each construct's equation. */
  ghost predicate Measured(c: Code) {
    forall rest :: |Bytes(Lay(c, rest))| == Size(c)
  }

  lemma MeasuredAt(c: Code, rest: nat)
    requires Measured(c)
    ensures |Bytes(Lay(c, rest))| == Size(c)
  {
  }

  lemma ReadBoth(x: Code, y: Code, rest: nat, a: nat, far: nat)
    requires Measured(x) && Measured(y)
    ensures
      var c, lx, ly := Both(x, y), Lay(x, rest + Size(y)), Lay(y, rest);
      var farY := FarAfter(lx, a, far);
      && |Bytes(Lay(c, rest))| == Size(c)
      && (Stops(Lay(c, rest), a, far) <==> Stops(lx, a, far) || Stops(ly, a + Size(x), farY))
      && FarAfter(Lay(c, rest), a, far) == FarAfter(ly, a + Size(x), farY)
  {
    hide Encode; hide FarAfter; hide Stops; hide Bytes; hide Measured;
    assert Lay(Both(x, y), rest) == Lay(x, rest + Size(y)) + Lay(y, rest);
    hide Lay;
    MeasuredAt(x, rest + Size(y));
    MeasuredAt(y, rest);
    Through(Lay(x, rest + Size(y)), Lay(y, rest), a, far);
  }

  lemma ReadIf(s: bool, x: Code, rest: nat, a: nat, far: nat)
    requires Measured(x)
    ensures
      var c, lx := If(s, x), Lay(x, rest);
      var aX, farX := a + BranchSize(s), Max(far, a + Size(c));
      && |Bytes(Lay(c, rest))| == Size(c)
      && (Stops(Lay(c, rest), a, far) <==> Stops(lx, aX, farX))
      && FarAfter(Lay(c, rest), a, far) == FarAfter(lx, aX, farX)
  {
    hide Encode; hide FarAfter; hide Stops; hide Branch; hide CondBranch; hide Forward; hide Back; hide FarNext;
    hide Bytes;
    MeasuredAt(x, rest);
    AheadFirst(CondBranch(s, Forward(s, Size(x))), s, Size(x), Lay(x, rest), a, far);
  }

  lemma ReadIfElse(s: bool, s2: bool, x: Code, y: Code, rest: nat, a: nat, far: nat)
    requires Measured(x) && Measured(y)
    ensures
      var c := IfElse(s, s2, x, y);
      var aX := a + BranchSize(s);
      var aY := aX + Size(x) + BranchSize(s2);
      var lx, ly := Lay(x, rest + BranchSize(s2) + Size(y)), Lay(y, rest);
      var farX := Max(far, aY);
      var farY := Max(FarAfter(lx, aX, farX), a + Size(c));
      && |Bytes(Lay(c, rest))| == Size(c)
      && (Stops(Lay(c, rest), a, far) <==> Stops(lx, aX, farX) || Stops(ly, aY, farY))
      && FarAfter(Lay(c, rest), a, far) == FarAfter(ly, aY, farY)
  {
    hide Encode; hide FarAfter; hide Stops; hide Branch; hide CondBranch; hide Forward; hide Back; hide FarNext;
    hide Bytes;
    hide Measured;
    var aX := a + BranchSize(s);
    var lx, ly := Lay(x, rest + BranchSize(s2) + Size(y)), Lay(y, rest);
    var b := CondBranch(s, Forward(s, Size(x) + BranchSize(s2)));
    var d := Branch(s2, Forward(s2, Size(y)));
    assert Lay(IfElse(s, s2, x, y), rest) == [b] + lx + ([d] + ly);
    assert Size(IfElse(s, s2, x, y)) == BranchSize(s) + Size(x) + BranchSize(s2) + Size(y);
    hide Lay; hide Size; hide BranchSize;
    MeasuredAt(x, rest + BranchSize(s2) + Size(y));
    MeasuredAt(y, rest);
    var farX := Max(far, aX + Size(x) + BranchSize(s2));
    AheadFirst(b, s, Size(x) + BranchSize(s2), lx, a, far);
    AheadFirst(d, s2, Size(y), ly, aX + Size(x), FarAfter(lx, aX, farX));
    Through([b] + lx, [d] + ly, a, far);
  }

  /** AGAIN and UNTIL. */
  lemma ReadBack(c: Code, x: Code, s: bool, rest: nat, a: nat, far: nat)
    requires (c == Again(s, x) || c == Until(s, x)) && Measured(x)
    ensures
      var lx := Lay(x, rest + BranchSize(s));
      && |Bytes(Lay(c, rest))| == Size(c)
      && (Stops(Lay(c, rest), a, far) <==> Stops(lx, a, far))
      && FarAfter(Lay(c, rest), a, far) == FarAfter(lx, a, far)
  {
    hide Encode; hide FarAfter; hide Stops; hide Branch; hide CondBranch; hide Forward; hide Back; hide FarNext;
    hide Bytes;
    var lx := Lay(x, rest + BranchSize(s));
    MeasuredAt(x, rest + BranchSize(s));
    BackLast(lx, Branch(s, Back(Size(x))), s, Size(x), a, far);
    BackLast(lx, CondBranch(s, Back(Size(x))), s, Size(x), a, far);
  }

  lemma ReadWhile(s: bool, s2: bool, t: Code, x: Code, rest: nat, a: nat, far: nat)
    requires Measured(t) && Measured(x)
    ensures
      var c := While(s, s2, t, x);
      var aX := a + Size(t) + BranchSize(s);
      var lt, lx := Lay(t, rest + BranchSize(s) + Size(x) + BranchSize(s2)), Lay(x, rest + BranchSize(s2));
      var farX := Max(FarAfter(lt, a, far), a + Size(c));
      && |Bytes(Lay(c, rest))| == Size(c)
      && (Stops(Lay(c, rest), a, far) <==> Stops(lt, a, far) || Stops(lx, aX, farX))
      && FarAfter(Lay(c, rest), a, far) == FarAfter(lx, aX, farX)
  {
    hide Encode; hide FarAfter; hide Stops; hide Branch; hide CondBranch; hide Forward; hide Back; hide FarNext;
    hide Bytes;
    hide Measured;
    var r := rest + BranchSize(s) + Size(x) + BranchSize(s2);
    var lt, lx := Lay(t, r), Lay(x, rest + BranchSize(s2));
    var b := CondBranch(s, Forward(s, Size(x) + BranchSize(s2)));
    var d := Branch(s2, Back(Size(t) + BranchSize(s) + Size(x)));
    assert Lay(While(s, s2, t, x), rest) == lt + ([b] + lx) + [d];
    assert Size(While(s, s2, t, x)) == Size(t) + BranchSize(s) + Size(x) + BranchSize(s2);
    hide Lay; hide Size; hide BranchSize;
    MeasuredAt(t, r);
    MeasuredAt(x, rest + BranchSize(s2));
    AheadFirst(b, s, Size(x) + BranchSize(s2), lx, a + Size(t), FarAfter(lt, a, far));
    Through(lt, [b] + lx, a, far);
    BackLast(lt + ([b] + lx), d, s2, Size(t) + BranchSize(s) + Size(x), a, far);
  }

  /** (?DO) and its branch. */
  lemma LoopHead(s: bool, over: nat, a: nat, far: nat)
    ensures
      var p := [Plain(QDO, []), Branch(s, Forward(s, over))];
      var end := a + 1 + BranchSize(s) + over;
      |Bytes(p)| == 1 + BranchSize(s) && FarAfter(p, a, far) == Max(far, end) && !Stops(p, a, far)
  {
    var q, b := Plain(QDO, []), Branch(s, Forward(s, over));
    Alone(q, a, far);
    AheadFirst(b, s, over, [], a + 1, far);
    assert [b] + [] == [b];
    Through([q], [b], a, far);
    assert [q] + [b] == [q, b];
  }

  /** (LOOP) and its branch. */
  lemma LoopTail(s: bool, over: nat, a: nat, far: nat)
    ensures
      var p := [Plain(LOOP, []), Branch(s, Back(over))];
      |Bytes(p)| == 1 + BranchSize(s) && FarAfter(p, a, far) == far && !Stops(p, a, far)
  {
    var l, d := Plain(LOOP, []), Branch(s, Back(over));
    Alone(l, a, far);
    BackLast([l], d, s, over, a, far);
    assert [l] + [d] == [l, d];
  }

  lemma ReadDoLoop(s: bool, s2: bool, x: Code, rest: nat, a: nat, far: nat)
    requires Measured(x)
    ensures
      var c, lx := DoLoop(s, s2, x), Lay(x, 1 + BranchSize(s2));
      var aX, farX := a + 1 + BranchSize(s), Max(far, a + Size(c));
      && |Bytes(Lay(c, rest))| == Size(c)
      && (Stops(Lay(c, rest), a, far) <==> Stops(lx, aX, farX))
      && FarAfter(Lay(c, rest), a, far) == FarAfter(lx, aX, farX)
  {
    hide Encode; hide FarAfter; hide Stops; hide Branch; hide CondBranch; hide Forward; hide Back; hide FarNext;
    hide Bytes;
    hide Measured;
    var lx := Lay(x, 1 + BranchSize(s2));
    var b, d := Branch(s, Forward(s, Size(x) + 1 + BranchSize(s2))), Branch(s2, Back(Size(x) + 1));
    var head, tail := [Plain(QDO, []), b], [Plain(LOOP, []), d];
    assert Lay(DoLoop(s, s2, x), rest) == head + lx + tail;
    hide Lay;
    MeasuredAt(x, 1 + BranchSize(s2));
    LoopHead(s, Size(x) + 1 + BranchSize(s2), a, far);
    LoopTail(s2, Size(x) + 1, a + |Bytes(head + lx)|, FarAfter(head + lx, a, far));
    Through(head, lx, a, far);
    Through(head + lx, tail, a, far);
  }

  lemma ReadLeave(rest: nat, a: nat, far: nat)
    ensures |Bytes(Lay(Leave, rest))| == Size(Leave)
    ensures FarAfter(Lay(Leave, rest), a, far) == Max(far, a + 3 + rest) && !Stops(Lay(Leave, rest), a, far)
  {
    BranchEncodes(false, Forward(false, rest));
    Alone(Branch(false, Forward(false, rest)), a, far);
  }

  lemma ReadOne(c: Code, rest: nat, a: nat, far: nat)
    requires c.Nothing? || c.EarlyExit? || (c.Straight? && !c.i.Jump? && !IsExit(c.i))
    ensures |Bytes(Lay(c, rest))| == Size(c)
    ensures FarAfter(Lay(c, rest), a, far) == far
    ensures Stops(Lay(c, rest), a, far) <==> c.EarlyExit? && a + 1 > far
  {
    match c
    case Nothing =>
    case EarlyExit => Alone(Plain(EXIT, []), a, far); OneByte();
    case Straight(i) => Alone(i, a, far);
  }

  lemma OneByte()
    ensures |Encode(Plain(EXIT, []))| == 1
  {
  }

  lemma {:induction false} SizeLaid(c: Code, inLoop: bool)
    requires WellFormed(c, inLoop)
    ensures Measured(c)
    decreases c
  {
    hide Encode; hide FarAfter; hide Stops; hide Lay; hide Bytes;
    match c {
      case Both(x, y) => SizeLaid(x, inLoop); SizeLaid(y, inLoop);
      case If(s, x) => SizeLaid(x, inLoop);
      case IfElse(s, s2, x, y) => SizeLaid(x, inLoop); SizeLaid(y, inLoop);
      case Again(s, x) => SizeLaid(x, inLoop);
      case Until(s, x) => SizeLaid(x, inLoop);
      case While(s, s2, t, x) => SizeLaid(t, inLoop); SizeLaid(x, inLoop);
      case DoLoop(s, s2, x) => SizeLaid(x, true);
      case _ =>
    }
    hide Measured;
    hide WellFormed;
    forall rest: nat
      ensures |Bytes(Lay(c, rest))| == Size(c)
    {
      match c
      case Nothing => ReadOne(c, rest, 0, 0);
      case Straight(i) => StraightIs(i, inLoop); ReadOne(c, rest, 0, 0);
      case EarlyExit => ReadOne(c, rest, 0, 0);
      case Leave => ReadLeave(rest, 0, 0);
      case Both(x, y) => ReadBoth(x, y, rest, 0, 0);
      case If(s, x) => ReadIf(s, x, rest, 0, 0);
      case IfElse(s, s2, x, y) => ReadIfElse(s, s2, x, y, rest, 0, 0);
      case Again(s, x) => ReadBack(c, x, s, rest, 0, 0);
      case Until(s, x) => ReadBack(c, x, s, rest, 0, 0);
      case While(s, s2, t, x) => ReadWhile(s, s2, t, x, rest, 0, 0);
      case DoLoop(s, s2, x) => ReadDoLoop(s, s2, x, rest, 0, 0);
    }
    IsMeasured(c);
  }

  lemma StraightIs(i: Ins, inLoop: bool)
    requires WellFormed(Straight(i), inLoop)
    ensures !i.Jump? && !IsExit(i)
  {
  }

  lemma IsMeasured(c: Code)
    requires forall rest: nat :: |Bytes(Lay(c, rest))| == Size(c)
    ensures Measured(c)
  {
  }

  /** Reached past by a forward branch, code neither stops the decoder nor moves that branch's target. */
  lemma {:induction false} Covered(c: Code, rest: nat, inLoop: bool, a: nat, far: nat)
    requires WellFormed(c, inLoop) && far >= a + Size(c) + if inLoop then rest else 0
    ensures !Stops(Lay(c, rest), a, far) && FarAfter(Lay(c, rest), a, far) == far
    decreases c, 1
  {
    hide Encode; hide FarAfter; hide Stops; hide Lay; hide Bytes; hide Measured; hide IsExit;
    match c
    case Nothing => ReadOne(c, rest, a, far);
    case Straight(i) => ReadOne(c, rest, a, far);
    case EarlyExit => ReadOne(c, rest, a, far);
    case Leave => ReadLeave(rest, a, far);
    case If(s, x) =>
      SizeLaid(x, inLoop);
      ReadIf(s, x, rest, a, far);
      Covered(x, rest, inLoop, a + BranchSize(s), far);
    case Again(s, x) =>
      SizeLaid(x, inLoop);
      ReadBack(c, x, s, rest, a, far);
      Covered(x, rest + BranchSize(s), inLoop, a, far);
    case Until(s, x) =>
      SizeLaid(x, inLoop);
      ReadBack(c, x, s, rest, a, far);
      Covered(x, rest + BranchSize(s), inLoop, a, far);
    case DoLoop(s, s2, x) =>
      SizeLaid(x, true);
      ReadDoLoop(s, s2, x, rest, a, far);
      Covered(x, 1 + BranchSize(s2), true, a + 1 + BranchSize(s), far);
    case Both(x, y) => CoveredBoth(x, y, rest, inLoop, a, far);
    case IfElse(s, s2, x, y) => CoveredElse(s, s2, x, y, rest, inLoop, a, far);
    case While(s, s2, t, x) => CoveredWhile(s, s2, t, x, rest, inLoop, a, far);
  }

  lemma {:induction false} CoveredBoth(x: Code, y: Code, rest: nat, inLoop: bool, a: nat, far: nat)
    requires WellFormed(Both(x, y), inLoop) && far >= a + Size(Both(x, y)) + if inLoop then rest else 0
    ensures !Stops(Lay(Both(x, y), rest), a, far) && FarAfter(Lay(Both(x, y), rest), a, far) == far
    decreases Both(x, y), 0
  {
    hide Encode; hide FarAfter; hide Stops; hide Lay; hide Bytes; hide Measured; hide IsExit;
    SizeLaid(x, inLoop);
    SizeLaid(y, inLoop);
    ReadBoth(x, y, rest, a, far);
    Covered(x, rest + Size(y), inLoop, a, far);
    Covered(y, rest, inLoop, a + Size(x), far);
  }

  lemma {:induction false} CoveredElse(s: bool, s2: bool, x: Code, y: Code, rest: nat, inLoop: bool, a: nat, far: nat)
    requires
      var c := IfElse(s, s2, x, y);
      WellFormed(c, inLoop) && far >= a + Size(c) + if inLoop then rest else 0
    ensures
      var c := IfElse(s, s2, x, y);
      !Stops(Lay(c, rest), a, far) && FarAfter(Lay(c, rest), a, far) == far
    decreases IfElse(s, s2, x, y), 0
  {
    hide Encode; hide FarAfter; hide Stops; hide Lay; hide Bytes; hide Measured; hide IsExit;
    SizeLaid(x, inLoop);
    SizeLaid(y, inLoop);
    ReadIfElse(s, s2, x, y, rest, a, far);
    Covered(x, rest + BranchSize(s2) + Size(y), inLoop, a + BranchSize(s), far);
    Covered(y, rest, inLoop, a + BranchSize(s) + Size(x) + BranchSize(s2), far);
  }

  lemma {:induction false} CoveredWhile(s: bool, s2: bool, t: Code, x: Code, rest: nat, inLoop: bool, a: nat, far: nat)
    requires
      var c := While(s, s2, t, x);
      WellFormed(c, inLoop) && far >= a + Size(c) + if inLoop then rest else 0
    ensures
      var c := While(s, s2, t, x);
      !Stops(Lay(c, rest), a, far) && FarAfter(Lay(c, rest), a, far) == far
    decreases While(s, s2, t, x), 0
  {
    hide Encode; hide FarAfter; hide Stops; hide Lay; hide Bytes; hide Measured; hide IsExit;
    SizeLaid(t, inLoop);
    SizeLaid(x, inLoop);
    ReadWhile(s, s2, t, x, rest, a, far);
    Covered(t, rest + BranchSize(s) + Size(x) + BranchSize(s2), inLoop, a, far);
    Covered(x, rest + BranchSize(s2), inLoop, a + Size(t) + BranchSize(s), far);
  }

  /** Where no forward branch reaches in from before, the early EXITs that stop the decoder are the unguarded ones. */
  lemma {:induction false} Uncovered(c: Code, rest: nat, a: nat, far: nat)
    requires WellFormed(c, false) && far <= a
    ensures Stops(Lay(c, rest), a, far) <==> !Guarded(c)
    ensures FarAfter(Lay(c, rest), a, far) <= a + Size(c)
    decreases c, 1
  {
    hide Encode; hide FarAfter; hide Stops; hide Lay; hide Bytes; hide Measured; hide IsExit;
    match c
    case Nothing => ReadOne(c, rest, a, far);
    case Straight(i) => ReadOne(c, rest, a, far);
    case EarlyExit => ReadOne(c, rest, a, far);
    case If(s, x) =>
      SizeLaid(x, false);
      ReadIf(s, x, rest, a, far);
      Covered(x, rest, false, a + BranchSize(s), a + Size(c));
    case Again(s, x) =>
      SizeLaid(x, false);
      ReadBack(c, x, s, rest, a, far);
      Uncovered(x, rest + BranchSize(s), a, far);
    case Until(s, x) =>
      SizeLaid(x, false);
      ReadBack(c, x, s, rest, a, far);
      Uncovered(x, rest + BranchSize(s), a, far);
    case DoLoop(s, s2, x) =>
      SizeLaid(x, true);
      ReadDoLoop(s, s2, x, rest, a, far);
      Covered(x, 1 + BranchSize(s2), true, a + 1 + BranchSize(s), a + Size(c));
    case _ => UncoveredTwo(c, rest, a, far);
  }

  lemma {:induction false} UncoveredTwo(c: Code, rest: nat, a: nat, far: nat)
    requires c.Both? || c.IfElse? || c.While?
    requires WellFormed(c, false) && far <= a
    ensures Stops(Lay(c, rest), a, far) <==> !Guarded(c)
    ensures FarAfter(Lay(c, rest), a, far) <= a + Size(c)
    decreases c, 0
  {
    hide Encode; hide FarAfter; hide Stops; hide Lay; hide Bytes; hide Measured; hide IsExit;
    match c
    case Both(x, y) =>
      SizeLaid(x, false); SizeLaid(y, false);
      ReadBoth(x, y, rest, a, far);
      Uncovered(x, rest + Size(y), a, far);
      Uncovered(y, rest, a + Size(x), FarAfter(Lay(x, rest + Size(y)), a, far));
    case IfElse(s, s2, x, y) =>
      SizeLaid(x, false); SizeLaid(y, false);
      var aY := a + BranchSize(s) + Size(x) + BranchSize(s2);
      ReadIfElse(s, s2, x, y, rest, a, far);
      Covered(x, rest + BranchSize(s2) + Size(y), false, a + BranchSize(s), aY);
      Covered(y, rest, false, aY, a + Size(c));
    case While(s, s2, t, x) =>
      SizeLaid(t, false); SizeLaid(x, false);
      ReadWhile(s, s2, t, x, rest, a, far);
      Uncovered(t, rest + BranchSize(s) + Size(x) + BranchSize(s2), a, far);
      Covered(x, rest + BranchSize(s2), false, a + Size(t) + BranchSize(s), a + Size(c));
  }

  /**
   For every compiled body, wherever it lies and wherever the next header is: the decoder finds
   exactly the instructions laid and stops exactly behind the final EXIT, if and only if every early
   EXIT is under a conditional (or in a counted loop).
   */
  lemma StructuredBodyEnds(w: Inline, img: seq<Byte>, c: Code, xt: nat, end: nat)
    requires WellFormed(c, false)
    requires
      var body := Lay(c, 0) + [Plain(EXIT, [])];
      AllEncodable(w, body) && LiesAt(img, xt, Bytes(body)) && xt + |Bytes(body)| <= end
    ensures
      var body := Lay(c, 0) + [Plain(EXIT, [])];
      Scan(w, img, xt, xt, end) == Decoded(Listed(body, xt), xt + Size(c) + 1) <==> Guarded(c)
  {
    var p := Lay(c, 0);
    SizeLaid(c, false);
    MeasuredAt(c, 0);
    Uncovered(c, 0, xt, xt);
    BytesOf(p, [Plain(EXIT, [])]);
    Alone(Plain(EXIT, []), 0, 0);
    OneByte();
    assert AllEncodable(w, p) by {
      forall k | 0 <= k < |p| ensures Encodable(w, p[k]) { assert p[k] == (p + [Plain(EXIT, [])])[k]; }
    }
    BodyEnds(w, img, p, xt, end);
  }

  // ---- branch targets ------------------------------------------------------

  function Starts(p: seq<Ins>, a: nat): set<nat> {
    if p == [] then {} else {a} + Starts(p[1..], a + |Encode(p[0])|)
  }

  function Targets(p: seq<Ins>, a: nat): set<int> {
    if p == [] then {}
    else (if p[0].Jump? then {a + 1 + p[0].off} else {}) + Targets(p[1..], a + |Encode(p[0])|)
  }

  lemma {:induction false} PlacesOf(p: seq<Ins>, q: seq<Ins>, a: nat)
    ensures Starts(p + q, a) == Starts(p, a) + Starts(q, a + |Bytes(p)|)
    ensures Targets(p + q, a) == Targets(p, a) + Targets(q, a + |Bytes(p)|)
    decreases |p|
  {
    hide Encode;
    if p == [] {
      assert p + q == q;
    } else {
      PlacesOf(p[1..], q, a + |Encode(p[0])|);
      assert (p + q)[1..] == p[1..] + q;
    }
  }

  lemma StartsHere(p: seq<Ins>, a: nat)
    ensures a in Starts(p, a) || |Bytes(p)| == 0
  {
  }

  lemma OnePlace(i: Ins, a: nat)
    ensures Starts([i], a) == {a}
    ensures Targets([i], a) == if i.Jump? then {a + 1 + i.off} else {}
  {
  }

  /** Targets lie where an instruction starts, or at one of two places behind. */
  ghost predicate Land(p: seq<Ins>, a: nat, end: int, out: int) {
    forall t :: t in Targets(p, a) ==> t in Starts(p, a) || t == end || t == out
  }

  lemma LandBoth(p: seq<Ins>, q: seq<Ins>, a: nat, end: int, out: int)
    requires Land(p, a, a + |Bytes(p)|, out)
    requires Land(q, a + |Bytes(p)|, end, out)
    requires |Bytes(q)| == 0 ==> a + |Bytes(p)| == end
    ensures Land(p + q, a, end, out)
  {
    hide Starts; hide Targets; hide Bytes;
    PlacesOf(p, q, a);
    StartsHere(q, a + |Bytes(p)|);
  }

  /** A branch to end, before q. */
  lemma LandAhead(b: Ins, s: bool, over: nat, q: seq<Ins>, a: nat, end: int, out: int)
    requires b == Branch(s, Forward(s, over)) || b == CondBranch(s, Forward(s, over))
    requires Land(q, a + BranchSize(s), end, out) && end == a + BranchSize(s) + over
    ensures Land([b] + q, a, end, out)
  {
    hide Starts; hide Targets; hide Bytes;
    OnePlace(b, a);
    BranchEncodes(s, Forward(s, over));
    PlacesOf([b], q, a);
  }

  /** A branch back to an instruction's start, behind p. */
  lemma LandBack(p: seq<Ins>, b: Ins, s: bool, over: nat, a: nat, end: int, out: int)
    requires b == Branch(s, Back(over)) || b == CondBranch(s, Back(over))
    requires Land(p, a, a + |Bytes(p)|, out)
    requires var t := a + |Bytes(p)| - over; t in Starts(p, a) || t == a + |Bytes(p)|
    ensures Land(p + [b], a, end, out)
  {
    hide Starts; hide Targets; hide Bytes;
    OnePlace(b, a + |Bytes(p)|);
    PlacesOf(p, [b], a);
  }

  /** Where the branches out of c may go besides its own instructions: its end, or for LEAVE the end of its loop. */
  function Out(c: Code, rest: nat, inLoop: bool, a: nat): int {
    a + Size(c) + if inLoop then rest else 0
  }

  lemma {:induction false} TargetsLand(c: Code, rest: nat, inLoop: bool, a: nat)
    requires WellFormed(c, inLoop)
    ensures Land(Lay(c, rest), a, a + Size(c), Out(c, rest, inLoop, a))
    decreases c, 1
  {
    hide Encode; hide Bytes; hide Starts; hide Targets; hide Measured; hide Forward; hide Back; hide Branch;
    hide CondBranch; hide Land;
    match c
    case Nothing => NoTargets(c, rest, a, a + Size(c), Out(c, rest, inLoop, a));
    case Straight(i) => NoTargets(c, rest, a, a + Size(c), Out(c, rest, inLoop, a));
    case EarlyExit => NoTargets(c, rest, a, a + Size(c), Out(c, rest, inLoop, a));
    case Leave => LeaveLands(rest, a);
    case If(s, x) =>
      SizeLaid(x, inLoop); MeasuredAt(x, rest);
      TargetsLand(x, rest, inLoop, a + BranchSize(s));
      LandAhead(CondBranch(s, Forward(s, Size(x))), s, Size(x), Lay(x, rest), a, a + Size(c), Out(c, rest, inLoop, a));
    case Again(s, x) => BackLands(c, x, s, Branch(s, Back(Size(x))), rest, inLoop, a);
    case Until(s, x) => BackLands(c, x, s, CondBranch(s, Back(Size(x))), rest, inLoop, a);
    case Both(x, y) => BothLands(x, y, rest, inLoop, a);
    case IfElse(s, s2, x, y) => ElseLands(s, s2, x, y, rest, inLoop, a);
    case While(s, s2, t, x) => WhileLands(s, s2, t, x, rest, inLoop, a);
    case DoLoop(s, s2, x) => LoopLands(s, s2, x, rest, inLoop, a);
  }

  lemma {:induction false} BackLands(c: Code, x: Code, s: bool, b: Ins, rest: nat, inLoop: bool, a: nat)
    requires (c == Again(s, x) && b == Branch(s, Back(Size(x))))
        || (c == Until(s, x) && b == CondBranch(s, Back(Size(x))))
    requires WellFormed(c, inLoop)
    ensures Land(Lay(c, rest), a, a + Size(c), Out(c, rest, inLoop, a))
    decreases c, 0
  {
    hide Encode; hide Bytes; hide Starts; hide Targets; hide Measured; hide Forward; hide Back; hide Branch;
    hide CondBranch; hide Land;
    var lx := Lay(x, rest + BranchSize(s));
    assert Lay(c, rest) == lx + [b];
    hide Lay;
    SizeLaid(x, inLoop);
    MeasuredAt(x, rest + BranchSize(s));
    TargetsLand(x, rest + BranchSize(s), inLoop, a);
    StartsHere(lx, a);
    LandWider(lx, a, a + Size(x), Out(x, rest + BranchSize(s), inLoop, a), Out(c, rest, inLoop, a));
    LandBack(lx, b, s, Size(x), a, a + Size(c), Out(c, rest, inLoop, a));
  }

  lemma NoTargets(c: Code, rest: nat, a: nat, end: int, out: int)
    requires c.Nothing? || c.EarlyExit? || (c.Straight? && !c.i.Jump?)
    ensures Land(Lay(c, rest), a, end, out)
  {
  }

  lemma LeaveLands(rest: nat, a: nat)
    ensures Land(Lay(Leave, rest), a, a + Size(Leave), a + Size(Leave) + rest)
  {
    OnePlace(Branch(false, Forward(false, rest)), a);
  }

  lemma ElsePlaces(b: Ins, n: nat, lx: seq<Ins>, d: Ins, n2: nat, ly: seq<Ins>, a: nat)
    requires b.Jump? && d.Jump? && |Bytes([b])| == n && |Bytes([d])| == n2
    ensures
      var p := [b] + lx + ([d] + ly);
      var aD := a + n + |Bytes(lx)|;
      && Starts(p, a) == {a} + Starts(lx, a + n) + {aD} + Starts(ly, aD + n2)
      && Targets(p, a) == {a + 1 + b.off} + Targets(lx, a + n) + {aD + 1 + d.off} + Targets(ly, aD + n2)
  {
    hide Starts; hide Targets; hide Bytes;
    var aD := a + n + |Bytes(lx)|;
    OnePlace(b, a);
    OnePlace(d, aD);
    PlacesOf([b], lx, a);
    PlacesOf([d], ly, aD);
    BytesOf([b], lx);
    PlacesOf([b] + lx, [d] + ly, a);
  }

  lemma LandElse(b: Ins, s: bool, lx: seq<Ins>, d: Ins, s2: bool, ly: seq<Ins>, a: nat, out: int)
    requires b == CondBranch(s, Forward(s, |Bytes(lx)| + BranchSize(s2))) && d == Branch(s2, Forward(s2, |Bytes(ly)|))
    requires
      var aX := a + BranchSize(s);
      var aY := aX + |Bytes(lx)| + BranchSize(s2);
      Land(lx, aX, aX + |Bytes(lx)|, out) && Land(ly, aY, aY + |Bytes(ly)|, out)
    ensures Land([b] + lx + ([d] + ly), a, a + BranchSize(s) + |Bytes(lx)| + BranchSize(s2) + |Bytes(ly)|, out)
  {
    hide Starts; hide Targets; hide Bytes;
    BranchEncodes(s, b.off);
    BranchEncodes(s2, d.off);
    ElsePlaces(b, BranchSize(s), lx, d, BranchSize(s2), ly, a);
    StartsHere(ly, a + BranchSize(s) + |Bytes(lx)| + BranchSize(s2));
  }

  lemma WhilePlaces(lt: seq<Ins>, b: Ins, n: nat, lx: seq<Ins>, d: Ins, a: nat)
    requires b.Jump? && d.Jump? && |Bytes([b])| == n
    ensures
      var p := lt + ([b] + lx) + [d];
      var aB := a + |Bytes(lt)|;
      var aD := aB + n + |Bytes(lx)|;
      && Starts(p, a) == Starts(lt, a) + {aB} + Starts(lx, aB + n) + {aD}
      && Targets(p, a) == Targets(lt, a) + {aB + 1 + b.off} + Targets(lx, aB + n) + {aD + 1 + d.off}
  {
    hide Starts; hide Targets; hide Bytes;
    var aB := a + |Bytes(lt)|;
    OnePlace(b, aB);
    OnePlace(d, aB + n + |Bytes(lx)|);
    PlacesOf([b], lx, aB);
    BytesOf([b], lx);
    PlacesOf(lt, [b] + lx, a);
    BytesOf(lt, [b] + lx);
    PlacesOf(lt + ([b] + lx), [d], a);
  }

  lemma LandWhile(lt: seq<Ins>, b: Ins, s: bool, lx: seq<Ins>, d: Ins, s2: bool, a: nat, out: int)
    requires b == CondBranch(s, Forward(s, |Bytes(lx)| + BranchSize(s2)))
    requires d == Branch(s2, Back(|Bytes(lt)| + BranchSize(s) + |Bytes(lx)|))
    requires
      var aB := a + |Bytes(lt)|;
      var aX := aB + BranchSize(s);
      Land(lt, a, aB, out) && Land(lx, aX, aX + |Bytes(lx)|, out)
    ensures Land(lt + ([b] + lx) + [d], a, a + |Bytes(lt)| + BranchSize(s) + |Bytes(lx)| + BranchSize(s2), out)
  {
    hide Starts; hide Targets; hide Bytes;
    BranchEncodes(s, b.off);
    WhilePlaces(lt, b, BranchSize(s), lx, d, a);
    StartsHere(lt, a);
  }

  lemma LoopPlaces(b: Ins, n: nat, lx: seq<Ins>, d: Ins, a: nat)
    requires b.Jump? && d.Jump? && |Bytes([b])| == n
    ensures
      var p := [Plain(QDO, []), b] + lx + [Plain(LOOP, []), d];
      var aX := a + 1 + n;
      var aL := aX + |Bytes(lx)|;
      && Starts(p, a) == {a, a + 1} + Starts(lx, aX) + {aL, aL + 1}
      && Targets(p, a) == {a + 2 + b.off} + Targets(lx, aX) + {aL + 2 + d.off}
  {
    hide Starts; hide Targets; hide Bytes;
    var q, l := Plain(QDO, []), Plain(LOOP, []);
    Alone(q, a, 0);
    BytesOf([q], [b]);
    assert [q] + [b] == [q, b];
    TwoPlaces(q, b, a);
    TwoPlaces(l, d, a + 1 + n + |Bytes(lx)|);
    PlacesOf([q, b], lx, a);
    BytesOf([q, b], lx);
    PlacesOf([q, b] + lx, [l, d], a);
  }

  lemma LandLoop(b: Ins, s: bool, lx: seq<Ins>, d: Ins, s2: bool, a: nat)
    requires b == Branch(s, Forward(s, |Bytes(lx)| + 1 + BranchSize(s2))) && d == Branch(s2, Back(|Bytes(lx)| + 1))
    requires
      var aX := a + 1 + BranchSize(s);
      var aL := aX + |Bytes(lx)|;
      Land(lx, aX, aL, aL + 1 + BranchSize(s2))
    ensures
      var end := a + 1 + BranchSize(s) + |Bytes(lx)| + 1 + BranchSize(s2);
      Land([Plain(QDO, []), b] + lx + [Plain(LOOP, []), d], a, end, end)
  {
    hide Starts; hide Targets; hide Bytes;
    BranchEncodes(s, b.off);
    LoopPlaces(b, BranchSize(s), lx, d, a);
    StartsHere(lx, a + 1 + BranchSize(s));
  }

  lemma TwoPlaces(i: Ins, b: Ins, a: nat)
    requires i == Plain(QDO, []) || i == Plain(LOOP, [])
    requires b.Jump?
    ensures Starts([i, b], a) == {a, a + 1} && Targets([i, b], a) == {a + 2 + b.off}
  {
    OnePlace(i, a);
    OnePlace(b, a + 1);
    Alone(i, a, 0);
    PlacesOf([i], [b], a);
    assert [i] + [b] == [i, b];
  }

  lemma BothParts(x: Code, y: Code, rest: nat, inLoop: bool)
    requires WellFormed(Both(x, y), inLoop)
    ensures WellFormed(x, inLoop) && WellFormed(y, inLoop) && Size(Both(x, y)) == Size(x) + Size(y)
    ensures Lay(Both(x, y), rest) == Lay(x, rest + Size(y)) + Lay(y, rest)
  {
  }

  lemma {:induction false} BothLands(x: Code, y: Code, rest: nat, inLoop: bool, a: nat)
    requires WellFormed(Both(x, y), inLoop)
    ensures Land(Lay(Both(x, y), rest), a, a + Size(Both(x, y)), Out(Both(x, y), rest, inLoop, a))
    decreases Both(x, y), 0
  {
    hide Encode; hide Bytes; hide Starts; hide Targets; hide Measured; hide Land; hide Lay; hide WellFormed; hide Size;
    BothParts(x, y, rest, inLoop);
    SizeLaid(x, inLoop); MeasuredAt(x, rest + Size(y));
    SizeLaid(y, inLoop); MeasuredAt(y, rest);
    TargetsLand(x, rest + Size(y), inLoop, a);
    TargetsLand(y, rest, inLoop, a + Size(x));
    LandWider(Lay(x, rest + Size(y)), a, a + Size(x), Out(x, rest + Size(y), inLoop, a),
              Out(Both(x, y), rest, inLoop, a));
    LandBoth(Lay(x, rest + Size(y)), Lay(y, rest), a, a + Size(Both(x, y)), Out(Both(x, y), rest, inLoop, a));
  }

  lemma ElseParts(s: bool, s2: bool, x: Code, y: Code, rest: nat, inLoop: bool)
    requires WellFormed(IfElse(s, s2, x, y), inLoop)
    ensures WellFormed(x, inLoop) && WellFormed(y, inLoop)
    ensures
      var c := IfElse(s, s2, x, y);
      var b, d := CondBranch(s, Forward(s, Size(x) + BranchSize(s2))), Branch(s2, Forward(s2, Size(y)));
      && Size(c) == BranchSize(s) + Size(x) + BranchSize(s2) + Size(y)
      && Lay(c, rest) == [b] + Lay(x, rest + BranchSize(s2) + Size(y)) + ([d] + Lay(y, rest))
  {
    hide Forward; hide Branch; hide CondBranch; hide BranchSize;
  }

  lemma {:induction false} ElseLands(s: bool, s2: bool, x: Code, y: Code, rest: nat, inLoop: bool, a: nat)
    requires WellFormed(IfElse(s, s2, x, y), inLoop)
    ensures
      var c := IfElse(s, s2, x, y);
      Land(Lay(c, rest), a, a + Size(c), Out(c, rest, inLoop, a))
    decreases IfElse(s, s2, x, y), 0
  {
    hide Encode; hide Bytes; hide Starts; hide Targets; hide Measured; hide Forward; hide Back; hide Branch;
    hide CondBranch; hide Land; hide Lay; hide WellFormed; hide Size;
    var c := IfElse(s, s2, x, y);
    var lx, ly := Lay(x, rest + BranchSize(s2) + Size(y)), Lay(y, rest);
    var b, d := CondBranch(s, Forward(s, Size(x) + BranchSize(s2))), Branch(s2, Forward(s2, Size(y)));
    ElseParts(s, s2, x, y, rest, inLoop);
    SizeLaid(x, inLoop); MeasuredAt(x, rest + BranchSize(s2) + Size(y));
    SizeLaid(y, inLoop); MeasuredAt(y, rest);
    TargetsLand(x, rest + BranchSize(s2) + Size(y), inLoop, a + BranchSize(s));
    TargetsLand(y, rest, inLoop, a + BranchSize(s) + Size(x) + BranchSize(s2));
    var out := Out(c, rest, inLoop, a);
    LandWider(lx, a + BranchSize(s), a + BranchSize(s) + Size(x),
              Out(x, rest + BranchSize(s2) + Size(y), inLoop, a + BranchSize(s)), out);
    LandElse(b, s, lx, d, s2, ly, a, out);
  }

  /** Where there is no loop the second place is the first. */
  lemma LandWider(p: seq<Ins>, a: nat, end: int, out: int, other: int)
    requires Land(p, a, end, out) && (out == end || out == other)
    ensures Land(p, a, end, other)
  {
  }

  lemma WhileParts(s: bool, s2: bool, t: Code, x: Code, inLoop: bool)
    requires WellFormed(While(s, s2, t, x), inLoop)
    ensures WellFormed(t, inLoop) && WellFormed(x, inLoop)
    ensures Size(While(s, s2, t, x)) == Size(t) + BranchSize(s) + Size(x) + BranchSize(s2)
  {
    hide BranchSize; hide Encode;
  }

  lemma WhileLaid(s: bool, s2: bool, t: Code, x: Code, rest: nat)
    ensures
      var b := CondBranch(s, Forward(s, Size(x) + BranchSize(s2)));
      var d := Branch(s2, Back(Size(t) + BranchSize(s) + Size(x)));
      Lay(While(s, s2, t, x), rest) ==
      Lay(t, rest + BranchSize(s) + Size(x) + BranchSize(s2)) + ([b] + Lay(x, rest + BranchSize(s2))) + [d]
  {
    hide Size; hide Encode; hide Forward; hide Back; hide Branch; hide CondBranch; hide BranchSize;
  }

  lemma {:induction false} WhileLands(s: bool, s2: bool, t: Code, x: Code, rest: nat, inLoop: bool, a: nat)
    requires WellFormed(While(s, s2, t, x), inLoop)
    ensures
      var c := While(s, s2, t, x);
      Land(Lay(c, rest), a, a + Size(c), Out(c, rest, inLoop, a))
    decreases While(s, s2, t, x), 0
  {
    hide Encode; hide Bytes; hide Starts; hide Targets; hide Measured; hide Forward; hide Back; hide Branch;
    hide CondBranch; hide Land; hide Lay; hide WellFormed; hide Size;
    var c := While(s, s2, t, x);
    var r := rest + BranchSize(s) + Size(x) + BranchSize(s2);
    var lt, lx := Lay(t, r), Lay(x, rest + BranchSize(s2));
    var b := CondBranch(s, Forward(s, Size(x) + BranchSize(s2)));
    var d := Branch(s2, Back(Size(t) + BranchSize(s) + Size(x)));
    WhileParts(s, s2, t, x, inLoop);
    WhileLaid(s, s2, t, x, rest);
    SizeLaid(t, inLoop); MeasuredAt(t, r);
    SizeLaid(x, inLoop); MeasuredAt(x, rest + BranchSize(s2));
    var aX := a + Size(t) + BranchSize(s);
    TargetsLand(t, r, inLoop, a);
    TargetsLand(x, rest + BranchSize(s2), inLoop, aX);
    var out := Out(c, rest, inLoop, a);
    LandWider(lt, a, a + Size(t), Out(t, r, inLoop, a), out);
    LandWider(lx, aX, aX + Size(x), Out(x, rest + BranchSize(s2), inLoop, aX), out);
    LandWhile(lt, b, s, lx, d, s2, a, out);
  }

  lemma {:induction false} LoopLands(s: bool, s2: bool, x: Code, rest: nat, inLoop: bool, a: nat)
    requires WellFormed(DoLoop(s, s2, x), inLoop)
    ensures
      var c := DoLoop(s, s2, x);
      Land(Lay(c, rest), a, a + Size(c), Out(c, rest, inLoop, a))
    decreases DoLoop(s, s2, x), 0
  {
    hide Encode; hide Bytes; hide Starts; hide Targets; hide Measured; hide Forward; hide Back; hide Branch;
    hide CondBranch; hide Land;
    var c := DoLoop(s, s2, x);
    var lx := Lay(x, 1 + BranchSize(s2));
    var b, d := Branch(s, Forward(s, Size(x) + 1 + BranchSize(s2))), Branch(s2, Back(Size(x) + 1));
    assert Lay(c, rest) == [Plain(QDO, []), b] + lx + [Plain(LOOP, []), d];
    hide Lay;
    SizeLaid(x, true); MeasuredAt(x, 1 + BranchSize(s2));
    TargetsLand(x, 1 + BranchSize(s2), true, a + 1 + BranchSize(s));
    LandLoop(b, s, lx, d, s2, a);
    LandWider(Lay(c, rest), a, a + Size(c), a + Size(c), Out(c, rest, inLoop, a));
  }

  lemma {:induction false} StartsAreListed(p: seq<Ins>, a: nat, x: nat)
    ensures x in Starts(p, a) <==> exists k :: 0 <= k < |Listed(p, a)| && Listed(p, a)[k].0 == x
    decreases |p|
  {
    hide Encode;
    if p != [] {
      var next := a + |Encode(p[0])|;
      StartsAreListed(p[1..], next, x);
      var l, m := Listed(p, a), Listed(p[1..], next);
      assert l == [(a, p[0])] + m;
      if x in Starts(p[1..], next) {
        var k :| 0 <= k < |m| && m[k].0 == x;
        assert l[k + 1].0 == x;
      }
      if k :| 0 <= k < |l| && l[k].0 == x && k > 0 {
        assert m[k - 1].0 == x;
      }
      assert l[0].0 == a;
    }
  }

  /** In every compiled body, every branch leads to an instruction of that body. */
  lemma BranchesStayInside(c: Code, xt: nat, t: int)
    requires WellFormed(c, false)
    requires t in Targets(Lay(c, 0) + [Plain(EXIT, [])], xt)
    ensures
      var found := Listed(Lay(c, 0) + [Plain(EXIT, [])], xt);
      exists k :: 0 <= k < |found| && found[k].0 == t
  {
    hide Encode; hide Bytes; hide Starts; hide Targets; hide Measured; hide WellFormed; hide Lay; hide Size;
    hide Listed;
    var p := Lay(c, 0);
    SizeLaid(c, false);
    MeasuredAt(c, 0);
    TargetsLand(c, 0, false, xt);
    PlacesOf(p, [Plain(EXIT, [])], xt);
    OnePlace(Plain(EXIT, []), xt + Size(c));
    StartsAreListed(p + [Plain(EXIT, [])], xt, t);
  }
}
