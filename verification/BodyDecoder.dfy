/**
 Decoding a colon definition's body without knowing its length (tools/image-audit.py:61-123,
 tools/superinst.py:106-140), and the bodies a compiler lays: control structures, early EXITs, calls
 with inline operands, variable slots.
 */
module BodyDecoder {
  import opened Arithmetic

  // ---- instructions and their bytes ----------------------------------------

  datatype Format = NoOperand | U8 | I8 | U16 | I32 | U64 | Sel | B8 | B16 | SlotOperand

  const EXIT: Byte := 0x01
  const BRANCH: Byte := 0x03
  const QBRANCH: Byte := 0x04
  const BRANCH8: Byte := 0x3F
  const QBRANCH8: Byte := 0x40
  const LOOP: Byte := 0x44
  const QDO: Byte := 0x45

  /** The operand column of opcodes.tab; what the table does not list has none. */
  function FormatOf(op: Byte): Format {
    match op
    case 0x02 => U16
    case 0x03 => B16
    case 0x04 => B16
    case 0x1A => I32
    case 0x1D => U8
    case 0x3F => B8
    case 0x40 => B8
    case 0x64 => SlotOperand
    case 0x65 => SlotOperand
    case 0x66 => SlotOperand
    case 0x67 => SlotOperand
    case 0x68 => SlotOperand
    case 0x69 => SlotOperand
    case 0x79 => I8
    case 0x7B => I8
    case 0x7D => U64
    case 0x7E => Sel
    case _ => NoOperand
  }

  /** How many raw bytes a format other than a branch or a slot has. */
  function OperandSize(f: Format): nat {
    match f
    case U8 => 1
    case I8 => 1
    case Sel => 1
    case U16 => 2
    case I32 => 4
    case U64 => 8
    case _ => 0
  }

  /**
   One instruction: an opcode with its operand bytes, a branch with its offset, a slot opcode with
   its displacement, a call with its target and what lies in line behind it.
   */
  datatype Ins =
    | Plain(op: Byte, operand: seq<Byte>)
    | Jump(op: Byte, off: int)
    | SlotOp(op: Byte, far: bool, disp: int)
    | Call(far: bool, target: nat, inline: seq<Byte>)

  /** The words whose calls are followed by inline operands. */
  datatype Inline = Inline(postpones: set<nat>, strings: set<nat>)

  predicate Encodable(w: Inline, i: Ins) {
    match i
    case Plain(op, operand) =>
      op < 0x80 && FormatOf(op) !in {B8, B16, SlotOperand} && |operand| == OperandSize(FormatOf(op))
    case Jump(op, off) =>
      op < 0x80 && if FormatOf(op) == B8 then -128 <= off < 128 else FormatOf(op) == B16 && -32768 <= off < 32768
    case SlotOp(op, far, disp) =>
      op < 0x80 && FormatOf(op) == SlotOperand
      && if far then -0x400000 <= disp < 0x400000 else -0x4000 <= disp < 0x4000
    case Call(far, target, inline) =>
      && target < (if far then 0x400000 else 0x4000)
      && if target in w.postpones then |inline| == 3
         else if target in w.strings then |inline| >= 1 && |inline| - 1 == inline[0]
         else inline == []
  }

  function Encode(i: Ins): (r: seq<Byte>)
    ensures |r| >= 1
  {
    match i
    case Plain(op, operand) => [op] + operand
    case Jump(op, off) =>
      if FormatOf(op) == B8 then [op, LowByte(off)] else [op, LowByte(off), LowByte(off / 256)]
    case SlotOp(op, far, disp) =>
      var v := if far then disp % 0x800000 else disp % 0x8000;
      if far then [op, LowByte(v / 0x10000 + 0x80), LowByte(v / 256), LowByte(v)]
      else [op, LowByte(v / 256), LowByte(v)]
    case Call(far, target, inline) =>
      (if far then [LowByte(target / 0x10000 + 0xC0), LowByte(target / 256), LowByte(target)]
       else [LowByte(target / 256 + 0x80), LowByte(target)]) + inline
  }

  // ---- reading one ---------------------------------------------------------

  /** Python's img[a:b]. */
  function Slice(img: seq<Byte>, a: nat, b: nat): seq<Byte>
    requires a <= b
  {
    img[if a < |img| then a else |img|..if b < |img| then b else |img|]
  }

  /** s16 and its one-byte sister, and the two sign extensions of a slot. */
  function Sign(v: int, half: nat): int {
    if v >= half then v - 2 * half else v
  }

  function Big(high: int, middle: int, low: int): (r: int)
    ensures high >= 0 && middle >= 0 && low >= 0 ==> r >= 0
  {
    high * 0x10000 + middle * 256 + low
  }

  datatype Read = Found(i: Ins, next: nat) | IndexError

  /** The instruction at ip and where the next one is; an operand beyond the image is Python's IndexError. */
  function ReadAt(w: Inline, img: seq<Byte>, ip: nat): (r: Read)
    ensures r.Found? ==> r.next > ip
  {
    if ip >= |img| then IndexError
    else
      var op := img[ip];
      if op >= 0x80 then
        var length := if op < 0xC0 then 2 else 3;
        if ip + length > |img| then IndexError
        else
          var target := if op < 0xC0 then Big(0, op % 64, img[ip + 1]) else Big(op % 64, img[ip + 1], img[ip + 2]);
          var behind := ip + length;
          if target in w.postpones then Found(Call(op >= 0xC0, target, Slice(img, behind, behind + 3)), behind + 3)
          else if target in w.strings then
            if behind >= |img| then IndexError
            else
              var next := behind + 1 + img[behind];
              Found(Call(op >= 0xC0, target, Slice(img, behind, next)), next)
          else Found(Call(op >= 0xC0, target, []), behind)
      else
        match FormatOf(op)
        case B16 =>
          if ip + 2 >= |img| then IndexError
          else Found(Jump(op, Sign(Big(0, img[ip + 2], img[ip + 1]), 0x8000)), ip + 3)
        case B8 =>
          if ip + 1 >= |img| then IndexError else Found(Jump(op, Sign(img[ip + 1], 128)), ip + 2)
        case SlotOperand =>
          if ip + 2 >= |img| || (img[ip + 1] >= 128 && ip + 3 >= |img|) then IndexError
          else if img[ip + 1] >= 128 then
            Found(SlotOp(op, true, Sign(Big(img[ip + 1] % 128, img[ip + 2], img[ip + 3]), 0x400000)), ip + 4)
          else Found(SlotOp(op, false, Sign(Big(0, img[ip + 1], img[ip + 2]), 0x4000)), ip + 3)
        case Sel =>
          if ip + 1 >= |img| then IndexError else Found(Plain(op, [img[ip + 1]]), ip + 2)
        case f => Found(Plain(op, Slice(img, ip + 1, ip + 1 + OperandSize(f))), ip + 1 + OperandSize(f))
  }

  ghost predicate LiesAt(img: seq<Byte>, a: nat, bytes: seq<Byte>) {
    a + |bytes| <= |img| && img[a..a + |bytes|] == bytes
  }

  lemma Laid(img: seq<Byte>, a: nat, bytes: seq<Byte>)
    requires LiesAt(img, a, bytes)
    ensures forall k :: 0 <= k < |bytes| ==> img[a + k] == bytes[k]
  {
  }

  lemma PlainReads(w: Inline, img: seq<Byte>, a: nat, i: Ins)
    requires i.Plain? && Encodable(w, i) && LiesAt(img, a, Encode(i))
    ensures ReadAt(w, img, a) == Found(i, a + |Encode(i)|)
  {
    Laid(img, a, Encode(i));
    var operand := Slice(img, a + 1, a + 1 + |i.operand|);
    assert img[a + 0] == Encode(i)[0];
    assert img[a] == i.op;
    assert operand == i.operand by {
      forall k | 0 <= k < |operand|
        ensures operand[k] == i.operand[k]
      {
        assert img[a + (k + 1)] == Encode(i)[k + 1];
      }
    }
    if FormatOf(i.op) == Sel {
      assert img[a + 1] == Encode(i)[1] == i.operand[0];
    }
  }

  lemma JumpReads(w: Inline, img: seq<Byte>, a: nat, i: Ins)
    requires i.Jump? && Encodable(w, i) && LiesAt(img, a, Encode(i))
    ensures ReadAt(w, img, a) == Found(i, a + |Encode(i)|)
  {
    hide Slice; hide Sign; hide Big; hide LowByte;
    Laid(img, a, Encode(i));
    hide LiesAt;
    assert img[a] == i.op;
    assert img[a + 1] == LowByte(i.off);
    if FormatOf(i.op) == B8 {
      ShortOffset(i.off);
    } else {
      assert img[a + 2] == LowByte(i.off / 256);
      WideOffset(i.off);
    }
  }

  lemma ShortOffset(off: int)
    requires -128 <= off < 128
    ensures Sign(LowByte(off), 128) == off
  {
    Wraps(off, 256);
  }

  lemma WideOffset(off: int)
    requires -0x8000 <= off < 0x8000
    ensures Sign(Big(0, LowByte(off / 256), LowByte(off)), 0x8000) == off
  {
    Wraps(off / 256, 256);
    assert off == off / 256 * 256 + off % 256;
  }

  lemma Wraps(v: int, m: int)
    requires m > 0 && -m <= v < m
    ensures v % m == if v < 0 then v + m else v
  {
  }

  lemma SlotReads(w: Inline, img: seq<Byte>, a: nat, i: Ins)
    requires i.SlotOp? && Encodable(w, i) && LiesAt(img, a, Encode(i))
    ensures ReadAt(w, img, a) == Found(i, a + |Encode(i)|)
  {
    hide Slice;
    var b := Encode(i);
    Laid(img, a, b);
    hide LiesAt;
    assert img[a] == i.op && img[a + 1] == b[1] && img[a + 2] == b[2];
    if i.far {
      assert img[a + 3] == b[3];
      FarSlot(i.disp);
    } else {
      NearSlot(i.disp);
    }
  }

  lemma FarSlot(disp: int)
    requires -0x400000 <= disp < 0x400000
    ensures
      var v := disp % 0x800000;
      var high := LowByte(v / 0x10000 + 0x80);
      high >= 128 && Sign(Big(high % 128, LowByte(v / 256), LowByte(v)), 0x400000) == disp
  {
    var v := disp % 0x800000;
    Wraps(disp, 0x800000);
    Split(v);
    Marked(v / 0x10000, 128, 0x80);
  }

  lemma NearSlot(disp: int)
    requires -0x4000 <= disp < 0x4000
    ensures
      var v := disp % 0x8000;
      LowByte(v / 256) < 128 && Sign(Big(0, LowByte(v / 256), LowByte(v)), 0x4000) == disp
  {
    var v := disp % 0x8000;
    Wraps(disp, 0x8000);
    Wraps(v / 256, 256);
    assert v == v / 256 * 256 + v % 256;
  }

  lemma Split(v: nat)
    requires v < 0x800000
    ensures v / 0x10000 < 128 && v == Big(v / 0x10000, LowByte(v / 256), LowByte(v))
  {
    var q := v / 256;
    assert v == q * 256 + v % 256;
    assert q == q / 256 * 256 + q % 256;
    assert q / 256 == v / 0x10000;
  }

  /** The form bits above a value leave it readable. */
  lemma Marked(v: nat, size: nat, bits: nat)
    requires v < size && (size == 64 || size == 128) && bits % size == 0 && bits + size <= 256
    ensures LowByte(v + bits) == v + bits && (v + bits) % size == v
  {
  }

  lemma FarTarget(t: nat)
    requires t < 0x400000
    ensures
      var b := LowByte(t / 0x10000 + 0xC0);
      b >= 0xC0 && Big(b % 64, LowByte(t / 256), LowByte(t)) == t
  {
    Split(t);
    Marked(t / 0x10000, 64, 0xC0);
    hide LowByte; hide Big;
  }

  lemma NearTarget(t: nat)
    requires t < 0x4000
    ensures
      var b := LowByte(t / 256 + 0x80);
      0x80 <= b < 0xC0 && Big(0, b % 64, LowByte(t)) == t
  {
    Marked(t / 256, 64, 0x80);
    assert t == t / 256 * 256 + t % 256;
  }

  lemma CallReads(w: Inline, img: seq<Byte>, a: nat, i: Ins)
    requires i.Call? && Encodable(w, i) && LiesAt(img, a, Encode(i))
    ensures ReadAt(w, img, a) == Found(i, a + |Encode(i)|)
  {
    var n := if i.far then 3 else 2;
    CallBytes(w, img, a, i);
    BehindCall(img, a, i, n);
    assert |Encode(i)| == n + |i.inline|;
    hide Encode; hide Slice; hide LiesAt; hide Big; hide FormatOf; hide Sign; hide OperandSize;
  }

  /** The first bytes of a laid call: its form, and its target. */
  lemma CallBytes(w: Inline, img: seq<Byte>, a: nat, i: Ins)
    requires i.Call? && Encodable(w, i) && LiesAt(img, a, Encode(i))
    ensures a + |Encode(i)| <= |img|
    ensures i.far ==> a + 3 <= |img| && img[a] >= 0xC0 && Big(img[a] % 64, img[a + 1], img[a + 2]) == i.target
    ensures !i.far ==> a + 2 <= |img| && 0x80 <= img[a] < 0xC0 && Big(0, img[a] % 64, img[a + 1]) == i.target
  {
    var b := Encode(i);
    Laid(img, a, b);
    hide LiesAt; hide Big; hide FormatOf;
    assert img[a] == b[0] && img[a + 1] == b[1];
    if i.far {
      assert img[a + 2] == b[2];
      FarTarget(i.target);
    } else {
      NearTarget(i.target);
    }
  }

  lemma BehindCall(img: seq<Byte>, a: nat, i: Ins, n: nat)
    requires i.Call? && LiesAt(img, a, Encode(i)) && n == if i.far then 3 else 2
    ensures Slice(img, a + n, a + n + |i.inline|) == i.inline
    ensures i.inline != [] ==> a + n < |img| && img[a + n] == i.inline[0]
  {
    var b := Encode(i);
    Laid(img, a, b);
    assert b[n..] == i.inline;
    var behind := Slice(img, a + n, a + n + |i.inline|);
    forall k | 0 <= k < |i.inline|
      ensures behind[k] == i.inline[k]
    {
      assert img[a + (n + k)] == b[n + k];
    }
    if i.inline != [] {
      assert img[a + n] == b[n];
    }
  }

  /** What is laid is read back, wherever it lies. */
  lemma EncodeReads(w: Inline, img: seq<Byte>, a: nat, i: Ins)
    requires Encodable(w, i) && LiesAt(img, a, Encode(i))
    ensures ReadAt(w, img, a) == Found(i, a + |Encode(i)|)
  {
    match i
    case Plain(_, _) => PlainReads(w, img, a, i);
    case Jump(_, _) => JumpReads(w, img, a, i);
    case SlotOp(_, _, _) => SlotReads(w, img, a, i);
    case Call(_, _, _) => CallReads(w, img, a, i);
  }

  // ---- the decoder ---------------------------------------------------------

  /** One line of its listing: an instruction and where it is. */
  type Listing = seq<(nat, Ins)>

  datatype Outcome = Decoded(ins: Listing, ip: nat) | Failed

  function FarNext(far: nat, a: nat, i: Ins): nat {
    if i.Jump? && i.off > 0 && a + 1 + i.off > far then a + 1 + i.off else far
  }

  predicate IsExit(i: Ins) {
    i.Plain? && i.op == EXIT
  }

  /** Decode from ip on, until an EXIT that no forward branch yet seen reaches past, or the end. */
  function Scan(w: Inline, img: seq<Byte>, ip: nat, far: nat, end: nat): Outcome
    decreases end - ip
  {
    if ip >= end then Decoded([], ip)
    else
      match ReadAt(w, img, ip)
      case IndexError => Failed
      case Found(i, next) =>
        if IsExit(i) && next > far then Decoded([(ip, i)], next)
        else
          match Scan(w, img, next, FarNext(far, ip, i), end)
          case Failed => Failed
          case Decoded(rest, stop) => Decoded([(ip, i)] + rest, stop)
  }

  function Append(found: Listing, rest: Outcome): Outcome {
    match rest
    case Failed => Failed
    case Decoded(more, stop) => Decoded(found + more, stop)
  }

  /** The tool's loop over a body between xt and the next header. */
  method DecodeBody(w: Inline, img: seq<Byte>, xt: nat, end: nat) returns (r: Outcome)
    ensures r == Scan(w, img, xt, xt, end)
  {
    var ip, farTarget: nat := xt, xt;
    var ins: Listing := [];
    while ip < end
      invariant Append(ins, Scan(w, img, ip, farTarget, end)) == Scan(w, img, xt, xt, end)
      decreases end - ip
    {
      var one := ReadAt(w, img, ip);
      if one.IndexError? { return Failed; }
      var a := ip;
      ghost var before := ins;
      ins := ins + [(a, one.i)];
      ip := one.next;
      if one.i.Jump? {
        if one.i.off > 0 && a + 1 + one.i.off > farTarget { farTarget := a + 1 + one.i.off; }
      } else if IsExit(one.i) && ip > farTarget {
        return Decoded(ins, ip);
      }
      assert forall more: Listing {:trigger ins + more} :: ins + more == before + ([(a, one.i)] + more);
    }
    return Decoded(ins, ip);
  }

  // ---- any laid instructions -----------------------------------------------

  function Bytes(p: seq<Ins>): seq<Byte> {
    if p == [] then [] else Encode(p[0]) + Bytes(p[1..])
  }

  function Listed(p: seq<Ins>, a: nat): Listing {
    if p == [] then [] else [(a, p[0])] + Listed(p[1..], a + |Encode(p[0])|)
  }

  /** The farthest forward branch target once p, laid at a, has been read. */
  function FarAfter(p: seq<Ins>, a: nat, far: nat): nat {
    if p == [] then far else FarAfter(p[1..], a + |Encode(p[0])|, FarNext(far, a, p[0]))
  }

  /** Some EXIT in p has no forward branch before it that reaches past it. */
  predicate Stops(p: seq<Ins>, a: nat, far: nat) {
    p != [] && ((IsExit(p[0]) && a + 1 > far) || Stops(p[1..], a + |Encode(p[0])|, FarNext(far, a, p[0])))
  }

  ghost predicate AllEncodable(w: Inline, p: seq<Ins>) {
    forall k :: 0 <= k < |p| ==> Encodable(w, p[k])
  }

  lemma LiesParted(img: seq<Byte>, a: nat, b: seq<Byte>, c: seq<Byte>)
    requires LiesAt(img, a, b + c)
    ensures LiesAt(img, a, b) && LiesAt(img, a + |b|, c)
  {
    assert img[a..a + |b|] == (b + c)[..|b|] == b;
    assert img[a + |b|..a + |b| + |c|] == (b + c)[|b|..] == c;
  }

  lemma ExitIsOneByte(w: Inline, i: Ins)
    requires Encodable(w, i) && IsExit(i)
    ensures i == Plain(EXIT, []) && |Encode(i)| == 1
  {
  }

  lemma {:induction false} ScanLaid(w: Inline, img: seq<Byte>, p: seq<Ins>, a: nat, far: nat, end: nat)
    requires AllEncodable(w, p) && LiesAt(img, a, Bytes(p)) && a + |Bytes(p)| <= end
    ensures !Stops(p, a, far) ==>
      Scan(w, img, a, far, end) == Append(Listed(p, a), Scan(w, img, a + |Bytes(p)|, FarAfter(p, a, far), end))
    ensures Stops(p, a, far) ==>
      var r := Scan(w, img, a, far, end);
      r.Decoded? && r.ip <= a + |Bytes(p)|
    decreases |p|
  {
    hide ReadAt; hide Encode; hide Encodable;
    if p == [] {
      Unappended(Scan(w, img, a, far, end));
    } else {
      var i, next := p[0], a + |Encode(p[0])|;
      LiesParted(img, a, Encode(i), Bytes(p[1..]));
      EncodeReads(w, img, a, i);
      if IsExit(i) { ExitIsOneByte(w, i); }
      ScanLaid(w, img, p[1..], next, FarNext(far, a, i), end);
      if !Stops(p, a, far) {
        Appended([(a, i)], Listed(p[1..], next), Scan(w, img, a + |Bytes(p)|, FarAfter(p, a, far), end));
      }
    }
  }

  lemma Unappended(r: Outcome)
    ensures Append([], r) == r
  {
    if r.Decoded? { assert [] + r.ins == r.ins; }
  }

  lemma Appended(x: Listing, y: Listing, r: Outcome)
    ensures Append(x, Append(y, r)) == Append(x + y, r)
  {
    if r.Decoded? { assert x + (y + r.ins) == x + y + r.ins; }
  }

  lemma {:induction false} ScanAdvances(w: Inline, img: seq<Byte>, ip: nat, far: nat, end: nat)
    ensures
      var r := Scan(w, img, ip, far, end);
      r.Decoded? ==> r.ip >= ip && (ip < end ==> r.ip > ip)
    decreases end - ip
  {
    hide ReadAt;
    if ip < end {
      var r := ReadAt(w, img, ip);
      if r.Found? {
        ScanAdvances(w, img, r.next, FarNext(far, ip, r.i), end);
      }
    }
  }

  lemma {:induction false} BytesOf(p: seq<Ins>, q: seq<Ins>)
    ensures Bytes(p + q) == Bytes(p) + Bytes(q)
  {
    hide Encode;
    if p == [] {
      assert p + q == q;
    } else {
      BytesOf(p[1..], q);
      assert (p + q)[1..] == p[1..] + q;
    }
  }

  lemma {:induction false} ListedOf(p: seq<Ins>, q: seq<Ins>, a: nat)
    ensures Listed(p + q, a) == Listed(p, a) + Listed(q, a + |Bytes(p)|)
    decreases |p|
  {
    hide Encode;
    if p == [] {
      assert p + q == q;
    } else {
      var i, rest := p[0], p[1..];
      ListedOf(rest, q, a + |Encode(i)|);
      assert (p + q)[1..] == rest + q;
      assert |Bytes(p)| == |Encode(i)| + |Bytes(rest)|;
      hide Bytes;
    }
  }

  /**
   A body is p and a final EXIT, laid at xt with the next header no earlier than its end. The decoder
   finds exactly those instructions, and stops exactly behind them, if and only if every EXIT in p is
   reached past by a forward branch before it and the last is not (or the next header is right there).
   */
  lemma BodyEnds(w: Inline, img: seq<Byte>, p: seq<Ins>, xt: nat, end: nat)
    requires
      var body := p + [Plain(EXIT, [])];
      AllEncodable(w, p) && LiesAt(img, xt, Bytes(body)) && xt + |Bytes(body)| <= end
    ensures
      var body := p + [Plain(EXIT, [])];
      Scan(w, img, xt, xt, end) == Decoded(Listed(body, xt), xt + |Bytes(body)|) <==>
        !Stops(p, xt, xt) && (FarAfter(p, xt, xt) < xt + |Bytes(body)| || end == xt + |Bytes(body)|)
  {
    BodyParts(img, p, xt);
    hide *;
    ScanLaid(w, img, p, xt, xt, end);
    var r, at := Scan(w, img, xt, xt, end), xt + |Bytes(p)|;
    if Stops(p, xt, xt) {
      assert r.ip != at + 1;
    } else {
      var far := FarAfter(p, xt, xt);
      LastDecides(w, img, Listed(p, xt), at, far, end);
      assert r == Append(Listed(p, xt), Scan(w, img, at, far, end));
    }
  }

  lemma BodyParts(img: seq<Byte>, p: seq<Ins>, xt: nat)
    requires LiesAt(img, xt, Bytes(p + [Plain(EXIT, [])]))
    ensures
      var body, at := p + [Plain(EXIT, [])], xt + |Bytes(p)|;
      && |Bytes(body)| == |Bytes(p)| + 1
      && Listed(body, xt) == Listed(p, xt) + [(at, Plain(EXIT, []))]
      && LiesAt(img, xt, Bytes(p)) && LiesAt(img, at, [EXIT])
  {
    var last := Plain(EXIT, []);
    BytesOf(p, [last]);
    ListedOf(p, [last], xt);
    assert Bytes([last]) == [EXIT] && Listed([last], xt + |Bytes(p)|) == [(xt + |Bytes(p)|, last)];
    hide *;
    LiesParted(img, xt, Bytes(p), [EXIT]);
  }

  lemma LastDecides(w: Inline, img: seq<Byte>, found: Listing, at: nat, far: nat, end: nat)
    requires LiesAt(img, at, [EXIT]) && at < end
    ensures Append(found, Scan(w, img, at, far, end)) == Decoded(found + [(at, Plain(EXIT, []))], at + 1)
      <==> far < at + 1 || end == at + 1
  {
    hide Scan; hide LiesAt;
    var exit := [(at, Plain(EXIT, []))];
    ScanExit(w, img, at, far, end);
    ScanAdvances(w, img, at + 1, far, end);
    if at + 1 == end { ScanEnds(w, img, at + 1, far, end); }
    if at + 1 <= far { Appended(found, exit, Scan(w, img, at + 1, far, end)); }
    if at + 1 == end { assert found + exit + [] == found + exit; }
  }

  lemma ScanEnds(w: Inline, img: seq<Byte>, ip: nat, far: nat, end: nat)
    requires ip >= end
    ensures Scan(w, img, ip, far, end) == Decoded([], ip)
  {
  }

  lemma ScanExit(w: Inline, img: seq<Byte>, at: nat, far: nat, end: nat)
    requires LiesAt(img, at, [EXIT]) && at < end
    ensures Scan(w, img, at, far, end) ==
      if at + 1 > far then Decoded([(at, Plain(EXIT, []))], at + 1)
      else Append([(at, Plain(EXIT, []))], Scan(w, img, at + 1, far, end))
  {
    assert Encode(Plain(EXIT, [])) == [EXIT];
    EncodeReads(w, img, at, Plain(EXIT, []));
  }
}
