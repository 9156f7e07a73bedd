/**
 The run-time compiler's inliner, INL-OP, INLINE-LEN and INLINE-COPY (forth/kernel.4:1528-1592):
 what it accepts, and that the bytes it lays satisfy what Inlining proves about copies.
 */
module InlineCompiler {
  import opened Arithmetic
  import opened Cells
  import opened Instructions
  import opened PlainMachine
  import opened StackMachine
  import opened Inlining
  import opened CheckedCalls
  import opened StraightWords

  const INL_MAXI := 3
  const INL_MAXB := 6

  /** INL-PLAIN?: an operand-free opcode that means the same anywhere. */
  predicate InlPlain(op: nat) {
    || 5 <= op < 17 || 20 <= op < 26 || 65 <= op < 67 || 70 <= op < 72
    || 97 <= op < 100 || 106 <= op < 113 || 114 <= op < 118 || op == 119
  }

  /** INL-OP: the length of the instruction at a if a copied body may hold it, else 0. */
  function InlOp(c: Config, m: Memory, a: nat): nat {
    var op := Get(m, a);
    if op >= 0x80 then
      var (t, n) := CallOperand(CodeAt(m, a), 0);
      var first := Get(m, c.base + t);
      if first == 0x11 || first == 0x13 then 0 else n
    else match op
      case 0x02 => 3
      case 0x1A => 5
      case 0x7D => 9
      case 0x1D => 2
      case 0x79 => 2
      case 0x7B => 2
      case 0x64 => if Get(m, a + 1) >= 0x80 then 4 else 3
      case 0x65 => if Get(m, a + 1) >= 0x80 then 4 else 3
      case 0x7E => if Get(m, a + 1) == 0x48 || Get(m, a + 1) == 0x49 then 0 else 2
      case _ => if InlPlain(op) then 1 else 0
  }

  /** [a, e) is a sequence of instructions INL-OP accepts. */
  ghost predicate Accepted(c: Config, m: Memory, a: nat, e: nat)
    decreases e - a
  {
    a == e || (a < e && InlOp(c, m, a) > 0 && Accepted(c, m, a + InlOp(c, m, a), e))
  }

  /** INLINE-LEN's loop: budget instructions left before the EXIT must have come. */
  function InlineLenFrom(c: Config, m: Memory, x: nat, a: nat, budget: nat): nat
    requires x <= a
    decreases budget
  {
    if budget == 0 then 0
    else if Get(m, a) == 1 then (if a - x <= INL_MAXB then a - x else 0)
    else if InlOp(c, m, a) == 0 then 0
    else InlineLenFrom(c, m, x, a + InlOp(c, m, a), budget - 1)
  }

  function InlineLen(c: Config, m: Memory, x: nat): nat {
    InlineLenFrom(c, m, x, x, INL_MAXI + 1)
  }

  lemma {:induction false} InlineLenAccepts(c: Config, m: Memory, x: nat, a: nat, budget: nat)
    requires x <= a
    ensures
      var u := InlineLenFrom(c, m, x, a, budget);
      u > 0 ==> u <= INL_MAXB && a <= x + u && Accepted(c, m, a, x + u) && Get(m, x + u) == 1
    decreases budget
  {
    hide InlOp;
    if budget > 0 && Get(m, a) != 1 && InlOp(c, m, a) > 0 {
      InlineLenAccepts(c, m, x, a + InlOp(c, m, a), budget - 1);
    }
  }

  datatype Laid = Laid(bytes: seq<Byte>) | BeyondReach

  /** SLOT,: the operand at h naming the address target; big-endian, 15 signed bits or 23. */
  function SlotBytes(c: Config, target: nat, h: nat): Laid {
    var off := Signed(c.w, Wrap(c.w, target - h));
    if off < -4194304 || off > 4194303 then BeyondReach
    else if off < -16384 || off > 16383 then
      var v := off % 0x80_0000;
      Laid([0x80 + v / 0x1_0000, v / 0x100 % 0x100, v % 0x100])
    else
      var v := off % 0x8000;
      Laid([v / 0x100, v % 0x100])
  }

  /** The n bytes at a. */
  function BytesAt(m: Memory, a: nat, n: nat): (r: seq<Byte>)
    ensures |r| == n
    decreases n
  {
    if n == 0 then [] else [Get(m, a)] + BytesAt(m, a + 1, n - 1)
  }

  /** INLINE-COPY for one instruction: as it is, but a VAR@ or VAR!, whose slot is laid again. */
  function CopyOne(c: Config, m: Memory, a: nat, h: nat): Laid {
    if Get(m, a) == 0x64 || Get(m, a) == 0x65 then
      match SlotBytes(c, Slot(c, CodeAt(m, a), a + 1).0, h + 1)
      case Laid(b) => Laid([Get(m, a)] + b)
      case BeyondReach => BeyondReach
    else Laid(BytesAt(m, a, InlOp(c, m, a)))
  }

  /** INLINE-COPY: the bytes it lays at h for the body [a, e). */
  function InlineCopy(c: Config, m: Memory, a: nat, e: nat, h: nat): Laid
    decreases e - a
  {
    if a >= e || InlOp(c, m, a) == 0 then Laid([])
    else
      match CopyOne(c, m, a, h)
      case BeyondReach => BeyondReach
      case Laid(b) =>
        match InlineCopy(c, m, a + InlOp(c, m, a), e, h + |b|)
        case BeyondReach => BeyondReach
        case Laid(rest) => Laid(b + rest)
  }

  function Lay(m: Memory, h: nat, bytes: seq<Byte>): Memory
    decreases |bytes|
  {
    if bytes == [] then m else Lay(m, h + 1, bytes[1..])[h := bytes[0]]
  }

  lemma {:induction false} LaidByte(m: Memory, h: nat, bytes: seq<Byte>, x: int)
    ensures Get(Lay(m, h, bytes), x) == if h <= x < h + |bytes| then bytes[x - h] else Get(m, x)
    decreases |bytes|
  {
    if bytes != [] {
      LaidByte(m, h + 1, bytes[1..], x);
    }
  }

  /** What SLOT, lays the engine reads back. */
  lemma SlotRoundTrip(c: Config, target: nat, h: nat, s: Window)
    requires target < Modulus(c.w) && SlotBytes(c, target, h).Laid?
    requires SlotBytes(c, target, h).bytes <= s[1..]
    ensures Slot(c, s, h) == (target, |SlotBytes(c, target, h).bytes|)
  {
    hide Wrap; hide Signed; hide Sext;
    var off := Signed(c.w, Wrap(c.w, target - h));
    var b := SlotBytes(c, target, h).bytes;
    forall k | 0 <= k < |b|
      ensures s[k + 1] == b[k]
    {
      assert s[1..][k] == b[k];
    }
    SignedWrap(c.w, target, h);
    if off < -16384 || off > 16383 {
      SextMod(off, 0x80_0000);
      Digits(off % 0x80_0000);
      assert s[1] == b[0] && s[2] == b[1] && s[3] == b[2];
    } else {
      SextMod(off, 0x8000);
      Digits(off % 0x8000);
      assert s[1] == b[0] && s[2] == b[1];
    }
  }

  /** SLOT, takes two bytes for a distance of 15 signed bits, three for one of 23, and gives up beyond. */
  lemma SlotBytesExactly(c: Config, target: nat, h: nat, d: int)
    requires target == Wrap(c.w, h + d) && 0 - Modulus(c.w) as int <= 2 * d < Modulus(c.w)
    ensures SlotBytes(c, target, h).Laid? <==> -0x40_0000 <= d < 0x40_0000
    ensures SlotBytes(c, target, h).Laid? ==>
      |SlotBytes(c, target, h).bytes| == if -0x4000 <= d < 0x4000 then 2 else 3
  {
    SignedDistance(c.w, target, h, d);
    hide Wrap; hide Signed;
  }

  lemma SignedDistance(w: Width, x: nat, h: int, d: int)
    requires x == Wrap(w, h + d) && 0 - Modulus(w) as int <= 2 * d < Modulus(w)
    ensures Signed(w, Wrap(w, x - h)) == d
  {
  }

  lemma SextMod(off: int, n: nat)
    requires n == 0x8000 || n == 0x80_0000
    requires -(n / 2) <= off < n / 2
    ensures Sext(off % n, n) == off
  {
  }

  lemma Digits(v: nat)
    ensures v == v / 0x1_0000 * 0x1_0000 + v / 0x100 % 0x100 * 0x100 + v % 0x100
    ensures v < 0x8000 ==> v == v / 0x100 * 0x100 + v % 0x100 && v / 0x100 < 0x80
  {
  }

  lemma SignedWrap(w: Width, x: nat, h: int)
    requires x < Modulus(w)
    ensures Wrap(w, h + Signed(w, Wrap(w, x - h))) == x
  {
  }

  lemma {:induction false} BytesAtIs(m: Memory, a: nat, n: nat, k: nat)
    requires k < n
    ensures BytesAt(m, a, n)[k] == Get(m, a + k)
    decreases n
  {
    if k > 0 {
      BytesAtIs(m, a + 1, n - 1, k - 1);
    }
  }

  /** LIT64 has a cell's bytes, which INL-OP takes to be eight: no 4-byte image holds one (forth/kernel.4:1448). */
  ghost predicate LitFits(c: Config, m: Memory, a: nat) {
    c.w.W64? || Get(m, a) != 0x7D
  }

  /** What INL-OP accepts is inlinable, and as long as it says. */
  lemma AcceptedDecodes(c: Config, m: Memory, a: nat)
    requires InlOp(c, m, a) > 0 && LitFits(c, m, a)
    ensures DecodeAt(c, m, a).1 == InlOp(c, m, a) && Inlinable(DecodeAt(c, m, a).0)
  {
    hide Get; hide Little; hide Wrap; hide Sext;
  }

  /** An accepted instruction decodes the same anywhere, unless it has a slot. */
  lemma SameBytes(c: Config, m: Memory, a: nat, m': Memory, b: nat)
    requires InlOp(c, m, a) > 0 && LitFits(c, m, a) && Get(m, a) != 0x64 && Get(m, a) != 0x65
    requires forall k :: 0 <= k < InlOp(c, m, a) ==> CodeAt(m, a)[k] == CodeAt(m', b)[k]
    ensures DecodeAt(c, m', b) == DecodeAt(c, m, a)
  {
    hide Get; hide Little; hide Wrap; hide Sext; hide Simple; hide Escaped;
    var s, t, n := CodeAt(m, a), CodeAt(m', b), InlOp(c, m, a);
    assert s[0] == t[0] && s[0] == Get(m, a);
    assert n >= 2 ==> s[1] == t[1];
    assert n >= 3 ==> s[2] == t[2];
    if s[0] == 0x02 {
      assert s[1..3] == t[1..3];
    } else if s[0] == 0x1A {
      assert s[1..5] == t[1..5];
    } else if s[0] == 0x7D {
      assert s[1..9] == t[1..9];
    }
  }

  /** A re-laid VAR@ or VAR! names the same variable. */
  lemma SlotDecodes(c: Config, m: Memory, a: nat, m': Memory, b: nat)
    requires Get(m, a) == 0x64 || Get(m, a) == 0x65
    requires CopyOne(c, m, a, b).Laid?
    requires
      var bs := CopyOne(c, m, a, b).bytes;
      forall k :: 0 <= k < |bs| ==> Get(m', b + k) == bs[k]
    ensures DecodeAt(c, m', b) == (DecodeAt(c, m, a).0, |CopyOne(c, m, a, b).bytes|)
    ensures 3 <= |CopyOne(c, m, a, b).bytes| <= 4
  {
    hide Get; hide SlotBytes; hide Slot; hide Wrap; hide InlOp;
    var s, t, bs := CodeAt(m, a), CodeAt(m', b), CopyOne(c, m, a, b).bytes;
    var target := Slot(c, s, a + 1).0;
    SlotFits(c, s, a + 1, b + 1);
    var slot := SlotBytes(c, target, b + 1).bytes;
    assert bs == [s[0]] + slot;
    assert Get(m', b + 0) == bs[0];
    assert t[0] == s[0];
    forall k | 0 <= k < |slot|
      ensures slot[k] == t[1..][k]
    {
      assert Get(m', b + (k + 1)) == bs[k + 1];
    }
    SlotRoundTrip(c, target, b + 1, t);
  }

  /** One instruction laid by INLINE-COPY at b decodes as the one it was copied from. */
  lemma CopyOneDecodes(c: Config, m: Memory, a: nat, m': Memory, b: nat)
    requires InlOp(c, m, a) > 0 && LitFits(c, m, a) && CopyOne(c, m, a, b).Laid?
    requires
      var bs := CopyOne(c, m, a, b).bytes;
      forall k :: 0 <= k < |bs| ==> Get(m', b + k) == bs[k]
    ensures DecodeAt(c, m', b) == (DecodeAt(c, m, a).0, |CopyOne(c, m, a, b).bytes|)
    ensures 1 <= |CopyOne(c, m, a, b).bytes| <= 9
  {
    hide Get; hide Decode; hide InlOp;
    AcceptedDecodes(c, m, a);
    if Get(m, a) == 0x64 || Get(m, a) == 0x65 {
      SlotDecodes(c, m, a, m', b);
    } else {
      var s, t, bs, n := CodeAt(m, a), CodeAt(m', b), CopyOne(c, m, a, b).bytes, InlOp(c, m, a);
      forall k | 0 <= k < n
        ensures s[k] == t[k]
      {
        BytesAtIs(m, a, n, k);
        assert Get(m', b + k) == bs[k];
      }
      SameBytes(c, m, a, m', b);
    }
  }

  lemma SlotFits(c: Config, s: Window, a: int, h: nat)
    ensures Slot(c, s, a).0 < Modulus(c.w)
    ensures SlotBytes(c, Slot(c, s, a).0, h).Laid? ==> 2 <= |SlotBytes(c, Slot(c, s, a).0, h).bytes| <= 3
  {
  }

  /** No accepted LIT64 in a 4-byte image. */
  ghost predicate LitsFit(c: Config, m: Memory, a: nat, e: nat)
    decreases e - a
  {
    a < e && InlOp(c, m, a) > 0 ==> LitFits(c, m, a) && LitsFit(c, m, a + InlOp(c, m, a), e)
  }

  /** What INLINE-COPY lays is a copy. */
  lemma {:induction false} InlineCopyCopies(c: Config, m: Memory, a: nat, e: nat, m': Memory, b: nat)
    requires c.Valid() && Accepted(c, m, a, e) && LitsFit(c, m, a, e) && InlineCopy(c, m, a, e, b).Laid?
    requires forall z :: a <= z < e ==> Get(m', z) == Get(m, z)
    requires
      var bs := InlineCopy(c, m, a, e, b).bytes;
      && e + 10 <= c.DGuard() && b + |bs| + 10 <= c.DGuard()
      && forall k :: 0 <= k < |bs| ==> Get(m', b + k) == bs[k]
    ensures Copies(c, m', a, e, b, b + |InlineCopy(c, m, a, e, b).bytes|)
    decreases e - a
  {
    hide Get; hide DecodeAt; hide InlOp; hide CopyOne; hide LitFits;
    if a < e {
      var n, one := InlOp(c, m, a), CopyOne(c, m, a, b).bytes;
      var rest := InlineCopy(c, m, a + n, e, b + |one|).bytes;
      var bs := InlineCopy(c, m, a, e, b).bytes;
      assert bs == one + rest;
      forall k | 0 <= k < |one| ensures Get(m', b + k) == one[k] { assert bs[k] == one[k]; }
      forall k | 0 <= k < |rest| ensures Get(m', b + |one| + k) == rest[k] { assert bs[|one| + k] == rest[k]; }
      CopyOneDecodes(c, m, a, m', b);
      AcceptedDecodes(c, m, a);
      AcceptedInside(c, m, a, e);
      DecodeAtReach(c, m, m', a);
      InlineCopyCopies(c, m, a + n, e, m', b + |one|);
    }
  }

  lemma {:induction false} AcceptedInside(c: Config, m: Memory, a: nat, e: nat)
    requires Accepted(c, m, a, e)
    ensures a <= e && (a < e ==> a + InlOp(c, m, a) <= e)
    decreases e - a
  {
    hide InlOp;
    if a < e {
      AcceptedInside(c, m, a + InlOp(c, m, a), e);
    }
  }

  /**
   COMPILE, of a word INLINE-LEN accepts: with its body's copy laid at y, a call to x that returns
   to after and the copy stand in the relation Inlining.InliningPreserves needs.
   */
  lemma CompiledSite(c: Config, m: Memory, x: nat, y: nat, after: nat) returns (g: Site)
    requires c.Valid() && InlineLen(c, m, x) > 0
    requires LitsFit(c, m, x, x + InlineLen(c, m, x))
    requires InlineCopy(c, m, x, x + InlineLen(c, m, x), y).Laid?
    requires
      var e, bs := x + InlineLen(c, m, x), InlineCopy(c, m, x, x + InlineLen(c, m, x), y).bytes;
      e + 10 <= c.DGuard() && y + |bs| + 10 <= c.DGuard() && (e < y || y + |bs| <= x)
    ensures
      var e, bs := x + InlineLen(c, m, x), InlineCopy(c, m, x, x + InlineLen(c, m, x), y).bytes;
      g.Valid(c) && g.code == Lay(m, y, bs) && g.after == after && g.x == x && g.e == e && g.y == y && g.be == y + |bs|
  {
    hide Get; hide DecodeAt; hide InlOp; hide InlineCopy; hide Lay;
    InlineLenAccepts(c, m, x, x, INL_MAXI + 1);
    var e := x + InlineLen(c, m, x);
    var bs := InlineCopy(c, m, x, e, y).bytes;
    var code := Lay(m, y, bs);
    forall z
      ensures Get(code, z) == if y <= z < y + |bs| then bs[z - y] else Get(m, z)
    {
      LaidByte(m, y, bs, z);
    }
    InlineCopyCopies(c, m, x, e, code, y);
    ExitDecodes(c, code, e);
    g := Site(code, after, x, e, y, y + |bs|);
  }

  lemma ExitDecodes(c: Config, m: Memory, a: nat)
    requires Get(m, a) == 1
    ensures DecodeAt(c, m, a) == (Exit, 1)
  {
  }

  /** A word of three instructions that drops its own return address: it returns to its caller's caller. */
  ghost predicate Escapes(c: Config, m: Memory, a: nat) {
    && a + 13 <= c.DGuard()
    && DecodeAt(c, m, a) == (Nop, 1) && DecodeAt(c, m, a + 1) == (RFrom, 1)
    && DecodeAt(c, m, a + 2) == (Drop, 1) && DecodeAt(c, m, a + 3) == (Exit, 1)
  }

  lemma EscapingRun(c: Config, s: Abs)
    requires c.Valid() && Escapes(c, s.mem, s.ip) && |s.rs| >= 2 && c.DLimit() <= Sp(c, s)
    ensures RunAbs(c, s, 4) == Running(s.(ip := s.rs[1], rs := s.rs[2..]))
  {
    hide DecodeAt; hide ExecAbs;
    var s1 := s.(ip := s.ip + 1);
    var s2 := s.(ip := s.ip + 2, ds := [s.rs[0]] + s.ds, rs := s.rs[1..]);
    var s3 := s.(ip := s.ip + 3, rs := s.rs[1..]);
    NopMeaning(c, s, s1.ip);
    RFromMeaning(c, s1, s2.ip);
    DropMeaning(c, s2, s3.ip);
    assert s2.ds[1..] == s.ds;
    ExitMeaning(c, s3, Wrap(c.w, s3.ip + 1));
    assert RunAbs(c, s, 1) == Running(s1) by { assert RunAbs(c, s, 0) == Running(s); }
    assert RunAbs(c, s, 2) == Running(s2);
    assert RunAbs(c, s, 3) == Running(s3);
  }

  lemma NopMeaning(c: Config, s: Abs, next: nat)
    ensures ExecAbs(c, s, Nop, next) == Running(s.(ip := next))
  {
    hide Wrap;
    assert [] + s.ds[0..] == s.ds && [] + s.rs[0..] == s.rs;
  }

  lemma DropMeaning(c: Config, s: Abs, next: nat)
    requires s.ds != []
    ensures ExecAbs(c, s, Drop, next) == Running(s.(ip := next, ds := s.ds[1..]))
  {
    hide Wrap;
    assert [] + s.ds[1..] == s.ds[1..] && [] + s.rs[0..] == s.rs;
  }

  lemma RFromMeaning(c: Config, s: Abs, next: nat)
    requires s.rs != [] && c.DLimit() <= Sp(c, s)
    ensures ExecAbs(c, s, RFrom, next) == Running(s.(ip := next, ds := [s.rs[0]] + s.ds, rs := s.rs[1..]))
  {
    hide Wrap;
    assert [s.rs[0]] + s.ds[0..] == [s.rs[0]] + s.ds && [] + s.rs[1..] == s.rs[1..];
  }

  /** INL-OP accepts a call by the first opcode of the word called. */
  lemma CallAccepted(c: Config, m: Memory, a: nat, word: nat)
    requires c.Valid() && DecodeAt(c, m, a).0 == Call(word)
    ensures InlOp(c, m, a) > 0 <==> Get(m, word) != 0x11 && Get(m, word) != 0x13
  {
    hide Get; hide Little; hide Sext; hide CallOperand; hide Slot; hide Align;
    CallReaches(c, CodeAt(m, a));
  }

  lemma CallReaches(c: Config, s: Window)
    requires c.Valid()
    ensures c.base + CallOperand(s, 0).0 < Modulus(c.w) && CallOperand(s, 0).1 > 0
  {
  }

  /**
   INL-OP's test of a callee's first opcode is not enough, for any straight word that does not begin
   with R> or R@ and takes d.below cells from under its frame: a body that begins with a call to it
   is accepted as far as that call, and its copy leaves with d.below cells of the word it is in gone.
   */
  lemma FirstOpcodeIsNotEnough(c: Config, s: Abs, body: nat, copy: nat, word: nat, n: nat, z: nat, d: Depth)
    requires c.Valid() && DecodeAt(c, s.mem, s.ip).0 == Call(body)
    requires DecodeAt(c, s.mem, body).0 == Call(word) && DecodeAt(c, s.mem, copy).0 == Call(word)
    requires Leads(c, s.mem, word, n, FRESH, z, d) && d.own == 0 && DecodeAt(c, s.mem, z).0.Exit?
    requires RunAbs(c, s, n + 3).Running? && RunKeeps(c, s, s.mem, word, z, n + 3)
    requires RunAbs(c, s.(ip := copy), n + 2).Running? && RunKeeps(c, s.(ip := copy), s.mem, word, z, n + 2)
    requires Get(s.mem, word) != 0x11 && Get(s.mem, word) != 0x13 && d.below > 0
    ensures InlOp(c, s.mem, body) > 0
    ensures |RunAbs(c, s.(ip := copy), n + 2).s.rs| == |s.rs| - d.below
    ensures |RunAbs(c, s, n + 3).s.rs| == |s.rs| + 1 - d.below
    ensures d.below == 1 ==>
      var t := RunAbs(c, s, n + 3).s;
      t.ip == Wrap(c.w, s.ip + DecodeAt(c, s.mem, s.ip).1) && t.rs == s.rs
          && RunAbs(c, s.(ip := copy), n + 2).s.ip == s.rs[0]
    ensures !exists f: Depths :: WordPasses(c, s.mem, f, word)
  {
    SeenBelow(c, s.mem, word, n, FRESH, z, d);
    hide *;
    CallAccepted(c, s.mem, body, word);
    StraightCalleeParts(c, s, body, copy, word, n, z, d);
    StraightWordPasses(c, s.mem, word, n, z, d);
  }

  lemma {:induction false} SeenBelow(c: Config, m: Memory, a: nat, n: nat, d: Depth, z: nat, d': Depth)
    requires Leads(c, m, a, n, d, z, d') && d.below <= d.seen
    ensures d'.below <= d'.seen
    decreases n
  {
    hide DecodeAt; hide StraightOp;
    if n > 0 {
      var (i, k) := DecodeAt(c, m, a);
      SeenBelow(c, m, a + k, n - 1, Takes(i, d), z, d');
    }
  }

  /** Called, it returns past its caller. */
  lemma CallThenEscape(c: Config, s: Abs, word: nat)
    requires c.Valid() && Escapes(c, s.mem, word) && s.rs != [] && c.DLimit() <= Sp(c, s)
    requires c.RFloor() + c.C() <= Rp(c, s) && s.ip + 13 <= c.DGuard() && DecodeAt(c, s.mem, s.ip).0 == Call(word)
    ensures RunAbs(c, s, 5) == Running(s.(ip := s.rs[0], rs := s.rs[1..]))
  {
    hide DecodeAt; hide StepAbs; hide RunAbs; hide Wrap; hide Escapes;
    CallStep(c, s, word);
    var t := StepAbs(c, s).s;
    NoSteps(c, s);
    OneStep(c, s, s, 0);
    EscapingRun(c, t);
    assert t.rs[1] == s.rs[0] && t.rs[2..] == s.rs[1..];
    RunAdd(c, s, 1, 4);
  }

  /** The smallest such word, with every step of both runs. */
  lemma EscapingCall(c: Config, s: Abs, body: nat, copy: nat, word: nat, n: nat)
    requires c.Valid() && Escapes(c, s.mem, word) && s.rs != [] && c.DLimit() <= Sp(c, s)
    requires c.RFloor() + 2 * c.C() <= Rp(c, s)
    requires s.ip + 13 <= c.DGuard() && body + 13 <= c.DGuard() && copy + 13 <= c.DGuard()
    requires DecodeAt(c, s.mem, s.ip) == (Call(body), n) && n <= 3
    requires DecodeAt(c, s.mem, body).0 == Call(word) && DecodeAt(c, s.mem, copy).0 == Call(word)
    ensures RunAbs(c, s, 6) == Running(s.(ip := s.ip + n))
    ensures RunAbs(c, s.(ip := copy), 5) == Running(s.(ip := s.rs[0], rs := s.rs[1..]))
  {
    hide DecodeAt; hide StepAbs; hide RunAbs; hide Escapes;
    CallStep(c, s, body);
    var s1 := StepAbs(c, s).s;
    NoSteps(c, s);
    OneStep(c, s, s, 0);
    CallThenEscape(c, s1, word);
    assert s1.rs[0] == s.ip + n && s1.rs[1..] == s.rs;
    RunAdd(c, s, 1, 5);
    CallThenEscape(c, s.(ip := copy), word);
  }

  lemma CallStep(c: Config, s: Abs, target: nat)
    requires Outside(c, s.ip, 10) && DecodeAt(c, s.mem, s.ip).0 == Call(target) && c.RFloor() + c.C() <= Rp(c, s)
    ensures StepAbs(c, s) ==
      Running(s.(ip := target, rs := [Wrap(c.w, s.ip + DecodeAt(c, s.mem, s.ip).1)] + s.rs))
  {
    hide DecodeAt; hide ExecAbs; hide Wrap;
    CallMeaning(c, s, target, Wrap(c.w, s.ip + DecodeAt(c, s.mem, s.ip).1));
  }

  // ---- what is accepted ----------------------------------------------------

  /**
   What a copied body may hold, by what it is: no branch, no return-stack word, no local, no data word,
   no NOOP and no opcode the engine does not know, but any escaped one; a call if its word does not begin
   with R> or R@.
   */
  predicate Copyable(c: Config, m: Memory, a: nat) {
    match DecodeAt(c, m, a).0
    case Branch(_) | QBranch(_) | Loop(_) | QDo(_) | Exit => false
    case RFrom | ToR | RFetch | RpFetch | RpStore => false
    case LSave(_) | LRestore(_) | LZero(_) => false
    case VarStore(_) => Get(m, a) == 0x65
    case DoVar(_) | DoDoes(_, _) | Nop => false
    case BadOp => Get(m, a) == 0x7E
    case Call(word) => Get(m, word) != 0x11 && Get(m, word) != 0x13
    case _ => true
  }

  /** INL-OP accepts just that; and it is as long as it says. */
  lemma InlOpExactly(c: Config, m: Memory, a: nat)
    requires c.Valid()
    ensures InlOp(c, m, a) > 0 <==> Copyable(c, m, a)
    ensures InlOp(c, m, a) > 0 && LitFits(c, m, a) ==> InlOp(c, m, a) == DecodeAt(c, m, a).1
  {
    if InlOp(c, m, a) > 0 && LitFits(c, m, a) { AcceptedDecodes(c, m, a); }
    if Get(m, a) >= 0x80 {
      CallReaches(c, CodeAt(m, a));
      hide Get; hide CallOperand; hide Little; hide Sext; hide Slot; hide Align;
      assert CodeAt(m, a)[0] == Get(m, a);
    } else {
      hide Get; hide CallOperand; hide Little; hide Sext; hide Slot; hide Align; hide Wrap;
      assert CodeAt(m, a)[0] == Get(m, a) && CodeAt(m, a)[1] == Get(m, a + 1);
    }
  }

  /** n such instructions, none of them LIT64, fill [a, e). */
  ghost predicate Fills(c: Config, m: Memory, a: nat, e: nat, n: nat)
    decreases n
  {
    if n == 0 then a == e
    else
      a < e && Copyable(c, m, a) && Get(m, a) != 0x7D && Fills(c, m, a + DecodeAt(c, m, a).1, e, n - 1)
  }

  lemma {:induction false} LenFills(c: Config, m: Memory, x: nat, a: nat, budget: nat) returns (n: nat)
    requires c.Valid() && x <= a && InlineLenFrom(c, m, x, a, budget) > 0
    ensures
      var u := InlineLenFrom(c, m, x, a, budget);
      n < budget && u <= 6 && a <= x + u && Fills(c, m, a, x + u, n) && DecodeAt(c, m, x + u).0.Exit?
    decreases budget
  {
    hide InlOp; hide DecodeAt; hide Copyable;
    if Get(m, a) == 1 {
      n := 0;
      ExitDecodes(c, m, a);
    } else {
      InlOpExactly(c, m, a);
      var k := LenFills(c, m, x, a + InlOp(c, m, a), budget - 1);
      n := k + 1;
      LitLong(c, m, a);
    }
  }

  lemma LitLong(c: Config, m: Memory, a: nat)
    ensures Get(m, a) == 0x7D ==> InlOp(c, m, a) == 9
    ensures Get(m, a) != 0x7D ==> LitFits(c, m, a)
  {
  }

  lemma {:induction false} FillsLen(c: Config, m: Memory, x: nat, a: nat, e: nat, n: nat, budget: nat)
    requires c.Valid() && x <= a && e <= x + 6 && n < budget && Fills(c, m, a, e, n) && DecodeAt(c, m, e).0.Exit?
    ensures a <= e && InlineLenFrom(c, m, x, a, budget) == e - x
    decreases n
  {
    hide InlOp; hide DecodeAt; hide Copyable;
    if n == 0 {
      ExitByte(c, m, e);
    } else {
      ExitUncopyable(c, m, a);
      InlOpExactly(c, m, a);
      LitLong(c, m, a);
      FillsLen(c, m, x, a + InlOp(c, m, a), e, n - 1, budget - 1);
    }
  }

  lemma ExitByte(c: Config, m: Memory, a: nat)
    requires DecodeAt(c, m, a).0.Exit?
    ensures Get(m, a) == 1
  {
    hide Get; hide Little; hide Wrap; hide Sext;
    assert CodeAt(m, a)[0] == Get(m, a);
  }

  lemma ExitUncopyable(c: Config, m: Memory, a: nat)
    requires Copyable(c, m, a)
    ensures Get(m, a) != 1
  {
    hide Copyable;
    if Get(m, a) == 1 { ExitDecodes(c, m, a); NotExit(c, m, a); }
  }

  lemma NotExit(c: Config, m: Memory, a: nat)
    requires Copyable(c, m, a)
    ensures !DecodeAt(c, m, a).0.Exit?
  {
    hide DecodeAt; hide Get;
  }

  /**
   INLINE-LEN accepts the body [x, e) of a word if and only if one to three such instructions fill it, it is
   at most six bytes long, and the word's EXIT is at e.
   */
  lemma InlineLenExactly(c: Config, m: Memory, x: nat, e: nat)
    requires c.Valid() && x < e
    ensures InlineLen(c, m, x) == e - x <==>
      e <= x + 6 && DecodeAt(c, m, e).0.Exit? && exists n :: 1 <= n <= 3 && Fills(c, m, x, e, n)
  {
    hide InlineLenFrom; hide DecodeAt; hide Copyable;
    if InlineLen(c, m, x) == e - x {
      var n := LenFills(c, m, x, x, INL_MAXI + 1);
    }
    if e <= x + 6 && DecodeAt(c, m, e).0.Exit? {
      if n :| 1 <= n <= 3 && Fills(c, m, x, e, n) { FillsLen(c, m, x, x, e, n, INL_MAXI + 1); }
    }
  }

  /** `: W NOOP R> DROP ;`, `: B W ;` and, at the start of the image, a call to B; the copy of B's body behind it. */
  function EscapingImage(base: nat): Memory {
    map[base := 0x80, base + 1 := 0x20,
        base + 16 := 0x80, base + 17 := 0x40,
        base + 32 := 0x80, base + 33 := 0x40, base + 34 := 0x01,
        base + 64 := 0x00, base + 65 := 0x11, base + 66 := 0x05, base + 67 := 0x01]
  }

  /** INLINE-LEN accepts B; called it comes back behind the call, copied it leaves the caller's own word. */
  lemma EscapingBodyAccepted(c: Config, s: Abs)
    requires c.Valid() && s.mem == EscapingImage(c.base) && s.ip == c.base && s.ds == [] && |s.rs| == 1
    ensures InlineLen(c, s.mem, c.base + 32) == 2
    ensures RunAbs(c, s, 6) == Running(s.(ip := c.base + 2))
    ensures RunAbs(c, s.(ip := c.base + 16), 5) == Running(s.(ip := s.rs[0], rs := []))
  {
    hide *;
    ImageDecodes(c);
    ImageAccepted(c);
    Roomy(c, s);
    assert s.rs[1..] == [];
    EscapingCall(c, s, c.base + 32, c.base + 16, c.base + 64, 2);
  }

  lemma Roomy(c: Config, s: Abs)
    requires c.Valid() && s.ds == [] && |s.rs| == 1
    ensures c.DLimit() <= Sp(c, s) && c.RFloor() + 2 * c.C() <= Rp(c, s) && c.base + 77 <= c.DGuard()
  {
  }

  lemma ImageBytes(base: nat)
    ensures
      var m := EscapingImage(base);
      && Get(m, base) == 0x80 && Get(m, base + 1) == 0x20 && Get(m, base + 16) == 0x80 && Get(m, base + 17) == 0x40
      && Get(m, base + 32) == 0x80 && Get(m, base + 33) == 0x40 && Get(m, base + 34) == 1
      && Get(m, base + 64) == 0 && Get(m, base + 65) == 0x11 && Get(m, base + 66) == 5 && Get(m, base + 67) == 1
  {
  }

  lemma ImageDecodes(c: Config)
    requires c.Valid()
    ensures
      var b, m := c.base, EscapingImage(c.base);
      && DecodeAt(c, m, b) == (Call(b + 32), 2)
      && DecodeAt(c, m, b + 16).0 == Call(b + 64) && DecodeAt(c, m, b + 32).0 == Call(b + 64)
      && Escapes(c, m, b + 64)
  {
    var b, m := c.base, EscapingImage(c.base);
    ImageBytes(b);
    hide DecodeAt; hide EscapingImage; hide Get;
    NearCall(c, m, b);
    NearCall(c, m, b + 16);
    NearCall(c, m, b + 32);
    PlainOps(c, m, b + 64);
  }

  lemma ImageAccepted(c: Config)
    requires c.Valid()
    ensures InlineLen(c, EscapingImage(c.base), c.base + 32) == 2
  {
    var b, m := c.base, EscapingImage(c.base);
    ImageBytes(b);
    hide EscapingImage; hide Get; hide CallOperand;
    NearCall(c, m, b + 32);
    assert InlOp(c, m, b + 32) == 2;
    hide InlOp;
    assert InlineLenFrom(c, m, b + 32, b + 34, 3) == 2;
  }

  lemma NearCall(c: Config, m: Memory, a: nat)
    requires c.Valid() && Get(m, a) == 0x80
    ensures DecodeAt(c, m, a) == (Call(c.base + Get(m, a + 1)), 2)
    ensures CallOperand(CodeAt(m, a), 0) == (Get(m, a + 1), 2)
  {
    hide Get;
  }

  lemma PlainOps(c: Config, m: Memory, a: nat)
    requires Get(m, a) == 0 && Get(m, a + 1) == 0x11 && Get(m, a + 2) == 5 && Get(m, a + 3) == 1
    ensures DecodeAt(c, m, a) == (Nop, 1) && DecodeAt(c, m, a + 1) == (RFrom, 1)
    ensures DecodeAt(c, m, a + 2) == (Drop, 1) && DecodeAt(c, m, a + 3) == (Exit, 1)
  {
    hide Get;
  }

  /** `: B DUP ;`, a call to it at the start of the image, and INLINE-COPY's copy behind the call. */
  function DupImage(base: nat): Memory {
    map[base := 0x80, base + 1 := 0x20, base + 16 := 0x06, base + 32 := 0x06, base + 33 := 0x01]
  }

  /** The smallest case of the inlining theorem: its premises hold, and the copy does the call's work. */
  lemma DupInlines(c: Config, s: Abs) returns (g: Site)
    requires c.Valid() && s.mem == DupImage(c.base) && s.ip == c.base && |s.ds| == 1 && |s.rs| == 1
    ensures InlineLen(c, s.mem, c.base + 32) == 1
    ensures g == Site(s.mem, c.base + 2, c.base + 32, c.base + 33, c.base + 16, c.base + 17)
    ensures g.Valid(c) && Straight(c, g.code, g.x, g.e, 1)
    ensures
      var end := RunAbs(c, s, 3);
      && end.Running? && end.s.ip == c.base + 2 && end.s.rs == s.rs
      && RunAbs(c, s.(ip := c.base + 16), 1) == Running(end.s.(ip := c.base + 17))
  {
    hide *;
    var b := c.base;
    g := Site(s.mem, b + 2, b + 32, b + 33, b + 16, b + 17);
    DupAccepted(c);
    DupDecodes(c);
    DupSite(c, g);
    DupRuns(c, s);
    forall k | 0 <= k <= 2 && RunAbs(c, s, k).Running?
      ensures g.Kept(RunAbs(c, s, k).s.mem)
    {
      assert k == 0 || k == 1 || k == 2;
    }
    StraightInlines(c, g, s, 1);
  }

  lemma DupBytes(base: nat)
    ensures
      var m := DupImage(base);
      && Get(m, base) == 0x80 && Get(m, base + 1) == 0x20 && Get(m, base + 16) == 6
      && Get(m, base + 32) == 6 && Get(m, base + 33) == 1
  {
  }

  lemma DupDecodes(c: Config)
    requires c.Valid()
    ensures
      var b, m := c.base, DupImage(c.base);
      && DecodeAt(c, m, b) == (Call(b + 32), 2) && DecodeAt(c, m, b + 16) == (Dup, 1)
      && DecodeAt(c, m, b + 32) == (Dup, 1) && DecodeAt(c, m, b + 33) == (Exit, 1)
  {
    hide *;
    var b, m := c.base, DupImage(c.base);
    DupBytes(b);
    NearCall(c, m, b);
    DupOp(c, m, b + 16);
    DupOp(c, m, b + 32);
    ExitOp(c, m, b + 33);
  }

  lemma DupAccepted(c: Config)
    requires c.Valid()
    ensures InlineLen(c, DupImage(c.base), c.base + 32) == 1
  {
    var b, m := c.base, DupImage(c.base);
    DupBytes(b);
    hide DupImage; hide Get; hide CallOperand;
    assert InlOp(c, m, b + 32) == 1;
    hide InlOp;
    assert InlineLenFrom(c, m, b + 32, b + 33, 3) == 1;
  }

  lemma DupOp(c: Config, m: Memory, a: nat)
    requires Get(m, a) == 6
    ensures DecodeAt(c, m, a) == (Dup, 1)
  {
    hide Get;
  }

  lemma ExitOp(c: Config, m: Memory, a: nat)
    requires Get(m, a) == 1
    ensures DecodeAt(c, m, a) == (Exit, 1)
  {
    hide Get;
  }

  lemma DupSite(c: Config, g: Site)
    requires c.Valid()
    requires
      var b := c.base;
      g == Site(DupImage(b), b + 2, b + 32, b + 33, b + 16, b + 17)
    ensures g.Valid(c) && g.Kept(g.code) && Straight(c, g.code, g.x, g.e, 1)
  {
    DupDecodes(c);
    hide DecodeAt; hide DupImage; hide Get;
    assert Copies(c, g.code, g.e, g.e, g.be, g.be);
    assert Straight(c, g.code, g.e, g.e, 0);
  }

  lemma DupRuns(c: Config, s: Abs)
    requires c.Valid() && s.mem == DupImage(c.base) && s.ip == c.base && |s.ds| == 1 && |s.rs| == 1
    ensures Outside(c, s.ip, 10) && Wrap(c.w, s.ip + 2) == c.base + 2
    ensures RunAbs(c, s, 0) == Running(s)
    ensures RunAbs(c, s, 1) == Running(s.(ip := c.base + 32, rs := [c.base + 2] + s.rs))
    ensures RunAbs(c, s, 2) == Running(s.(ip := c.base + 33, ds := [s.ds[0]] + s.ds, rs := [c.base + 2] + s.rs))
  {
    hide *;
    var t := s.(ip := c.base + 32, rs := [c.base + 2] + s.rs);
    DupRoom(c, s, t);
    DupDecodes(c);
    NoSteps(c, s);
    CallStep(c, s, c.base + 32);
    OneStep(c, s, s, 0);
    DupStep(c, t);
    OneStep(c, s, t, 1);
  }

  lemma OneStep(c: Config, s: Abs, t: Abs, n: nat)
    requires RunAbs(c, s, n) == Running(t)
    ensures RunAbs(c, s, n + 1) == StepAbs(c, t)
  {
  }

  lemma DupStep(c: Config, s: Abs)
    requires Outside(c, s.ip, 10) && DecodeAt(c, s.mem, s.ip) == (Dup, 1) && s.ds != [] && c.DLimit() <= Sp(c, s)
    ensures StepAbs(c, s) == Running(s.(ip := Wrap(c.w, s.ip + 1), ds := [s.ds[0]] + s.ds))
  {
    hide DecodeAt; hide ExecAbs; hide Wrap;
    DupMeaning(c, s, Wrap(c.w, s.ip + 1));
  }

  lemma DupRoom(c: Config, s: Abs, t: Abs)
    requires c.Valid() && s.ip == c.base && |s.ds| == 1 && |s.rs| == 1 && t.ip == c.base + 32 && t.ds == s.ds
        && |t.rs| == 2
    ensures Outside(c, s.ip, 10) && Outside(c, t.ip, 10) && c.RFloor() + c.C() <= Rp(c, s) && c.DLimit() <= Sp(c, t)
    ensures Wrap(c.w, s.ip + 2) == c.base + 2 && Wrap(c.w, t.ip + 1) == c.base + 33
  {
  }

  lemma DupMeaning(c: Config, s: Abs, next: nat)
    requires s.ds != [] && c.DLimit() <= Sp(c, s)
    ensures ExecAbs(c, s, Dup, next) == Running(s.(ip := next, ds := [s.ds[0]] + s.ds))
  {
    hide Wrap;
    assert [s.ds[0]] + s.ds[0..] == [s.ds[0]] + s.ds && [] + s.rs[0..] == s.rs;
  }
}
