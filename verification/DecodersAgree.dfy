/**
 The body decoder of the tools (tools/image-audit.py:61-123) and the engine's own reading of the same
 bytes (engine/cv8.c:902-1003, engine/opcodes.tab): where each instruction ends and what it names.
 */
module DecodersAgree {
  import opened Arithmetic
  import opened Cells
  import E = Instructions
  import D = BodyDecoder

  /** The image's bytes lie at base in m. */
  ghost predicate Loaded(m: Memory, base: nat, img: seq<Byte>) {
    forall k :: 0 <= k < |img| ==> Get(m, base + k) == img[k]
  }

  /** The bytes of a call that lie behind it, for the word called to read. */
  function Behind(i: D.Ins): nat {
    if i.Call? then |i.inline| else 0
  }

  lemma ByteAt(m: Memory, base: nat, img: seq<Byte>, ip: nat, k: nat)
    requires Loaded(m, base, img) && k < 10 && ip + k < |img|
    ensures E.CodeAt(m, base + ip)[k] == img[ip + k]
  {
    hide Get;
    assert Get(m, base + (ip + k)) == img[ip + k];
  }

  /** What the tools read of a call. */
  lemma CallRead(img: seq<Byte>, w: D.Inline, ip: nat)
    requires ip + 10 <= |img| && img[ip] >= 0x80 && D.ReadAt(w, img, ip).Found?
    ensures
      var r, n := D.ReadAt(w, img, ip), if img[ip] < 0xC0 then 2 else 3;
      var b: int, b1: int, b2: int := img[ip], img[ip + 1], img[ip + 2];
      && r.i.Call? && r.i.far == (n == 3)
      && r.i.target == (if n == 2 then b % 0x40 * 0x100 + b1 else b % 0x40 * 0x1_0000 + b1 * 0x100 + b2)
      && (r.next <= |img| ==> r.next == ip + n + Behind(r.i))
  {
  }

  /** The two read the same call. */
  lemma CallsAgree(c: E.Config, m: Memory, img: seq<Byte>, w: D.Inline, ip: nat)
    requires Loaded(m, c.base, img) && ip + 10 <= |img| && img[ip] >= 0x80 && D.ReadAt(w, img, ip).Found?
    ensures
      var r := D.ReadAt(w, img, ip);
      && r.i.Call?
      && E.DecodeAt(c, m, c.base + ip) == (E.Call(Wrap(c.w, c.base + r.i.target)), if r.i.far then 3 else 2)
      && (r.next <= |img| ==> r.next == ip + (if r.i.far then 3 else 2) + Behind(r.i))
  {
    hide Get; hide Wrap; hide D.ReadAt; hide Behind;
    ByteAt(m, c.base, img, ip, 0);
    ByteAt(m, c.base, img, ip, 1);
    ByteAt(m, c.base, img, ip, 2);
    CallRead(img, w, ip);
    hide E.CodeAt; hide Loaded;
  }

  /** What the tools read of a branch. */
  lemma JumpRead(img: seq<Byte>, w: D.Inline, ip: nat)
    requires ip + 10 <= |img| && img[ip] < 0x80 && D.FormatOf(img[ip]) in {D.B8, D.B16}
    ensures img[ip] in {0x03, 0x04, 0x3F, 0x40}
    ensures
      var b1: nat, b2: nat := img[ip + 1], img[ip + 2];
      D.ReadAt(w, img, ip) ==
      if img[ip] < 0x3F then D.Found(D.Jump(img[ip], E.Sext(b1 + 256 * b2, 0x1_0000)), ip + 3)
      else D.Found(D.Jump(img[ip], E.Sext(b1, 0x100)), ip + 2)
  {
  }

  /** The same branch, counted from behind its opcode. */
  lemma JumpsAgree(c: E.Config, m: Memory, img: seq<Byte>, w: D.Inline, ip: nat)
    requires Loaded(m, c.base, img) && ip + 10 <= |img|
    requires img[ip] < 0x80 && D.FormatOf(img[ip]) in {D.B8, D.B16}
    ensures
      var r, (i, n) := D.ReadAt(w, img, ip), E.DecodeAt(c, m, c.base + ip);
      && r.Found? && r.i.Jump? && r.next == ip + n
      && i == if img[ip] == 0x03 || img[ip] == 0x3F then E.Branch(Wrap(c.w, c.base + ip + 1 + r.i.off))
              else E.QBranch(Wrap(c.w, c.base + ip + 1 + r.i.off))
  {
    hide Get; hide Wrap; hide E.Little; hide E.Sext; hide D.ReadAt; hide D.FormatOf;
    ByteAt(m, c.base, img, ip, 0);
    ByteAt(m, c.base, img, ip, 1);
    ByteAt(m, c.base, img, ip, 2);
    LittleTwo(E.CodeAt(m, c.base + ip));
    JumpRead(img, w, ip);
    hide E.CodeAt; hide Loaded;
  }

  lemma LittleTwo(s: E.Window)
    ensures
      var low: nat, high: nat := s[1], s[2];
      E.Little(s[1..3]) == low + 256 * high
  {
    assert s[1..3][1..] == [s[2]] && [s[2]][1..] == [];
    assert E.Little([]) == 0;
  }

  /** What the tools read of a slot instruction. */
  lemma SlotRead(img: seq<Byte>, w: D.Inline, ip: nat)
    requires ip + 10 <= |img| && img[ip] < 0x80 && D.FormatOf(img[ip]) == D.SlotOperand
    ensures
      var b: int, b1: int, b2: int := img[ip + 1], img[ip + 2], img[ip + 3];
      D.ReadAt(w, img, ip) ==
      if b >= 0x80 then
        D.Found(D.SlotOp(img[ip], true, E.Sext((b - 0x80) * 0x1_0000 + b1 * 0x100 + b2, 0x80_0000)), ip + 4)
      else D.Found(D.SlotOp(img[ip], false, E.Sext(b * 0x100 + b1, 0x8000)), ip + 3)
  {
  }

  /** The same slot, counted from its operand. */
  lemma SlotsAgree(c: E.Config, m: Memory, img: seq<Byte>, w: D.Inline, ip: nat)
    requires Loaded(m, c.base, img) && ip + 10 <= |img|
    requires img[ip] < 0x80 && D.FormatOf(img[ip]) == D.SlotOperand
    ensures
      var r, (i, n) := D.ReadAt(w, img, ip), E.DecodeAt(c, m, c.base + ip);
      && r.Found? && r.i.SlotOp? && r.next == ip + n
      && (i.VarFetch? || i.VarStore? || i.LSave? || i.LRestore? || i.LZero?)
      && i.a == Wrap(c.w, c.base + ip + 1 + r.i.disp)
  {
    hide Get; hide Wrap; hide E.Sext; hide D.ReadAt;
    ByteAt(m, c.base, img, ip, 0);
    ByteAt(m, c.base, img, ip, 1);
    ByteAt(m, c.base, img, ip, 2);
    ByteAt(m, c.base, img, ip, 3);
    SlotRead(img, w, ip);
    assert 0x64 <= img[ip] <= 0x69;
    hide E.CodeAt; hide Loaded; hide D.FormatOf;
  }

  /**
   For anything else the two agree on where the next instruction is, but for LIT64, which tools and
   compiler take to have eight bytes and a 4-byte engine to have four, and DODOES, whose operand the
   opcode table does not list.
   */
  lemma OthersAgree(c: E.Config, m: Memory, img: seq<Byte>, w: D.Inline, ip: nat)
    requires Loaded(m, c.base, img) && ip + 10 <= |img|
    requires img[ip] < 0x80 && D.FormatOf(img[ip]) !in {D.B8, D.B16, D.SlotOperand}
    ensures
      var r := D.ReadAt(w, img, ip);
      && r.Found? && r.i.Plain?
      && (r.next == ip + E.DecodeAt(c, m, c.base + ip).1 <==> img[ip] != 0x1C && (img[ip] != 0x7D || c.w.W64?))
  {
    hide Get; hide Wrap; hide E.Little; hide E.Sext; hide E.Simple; hide E.Escaped; hide Align;
    ByteAt(m, c.base, img, ip, 0);
    hide E.CodeAt; hide Loaded;
  }

  /**
   Every instruction the tools read ends where the engine's does, its inline operands apart, with
   those two exceptions.
   */
  lemma LengthsAgree(c: E.Config, m: Memory, img: seq<Byte>, w: D.Inline, ip: nat)
    requires Loaded(m, c.base, img) && ip + 10 <= |img|
    requires
      var r := D.ReadAt(w, img, ip);
      r.Found? && r.next <= |img|
    ensures
      var r := D.ReadAt(w, img, ip);
      r.next == ip + E.DecodeAt(c, m, c.base + ip).1 + Behind(r.i) <==>
      img[ip] != 0x1C && (img[ip] != 0x7D || c.w.W64?)
  {
    hide D.ReadAt; hide E.DecodeAt; hide Loaded;
    if img[ip] >= 0x80 {
      CallsAgree(c, m, img, w, ip);
    } else if D.FormatOf(img[ip]) in {D.B8, D.B16} {
      JumpsAgree(c, m, img, w, ip);
    } else if D.FormatOf(img[ip]) == D.SlotOperand {
      SlotsAgree(c, m, img, w, ip);
    } else {
      OthersAgree(c, m, img, w, ip);
    }
  }
}
