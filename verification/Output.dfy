/**
 Buffered terminal output (engine/cv8.c:349-359, 772-839, 1092-1105, 1127, 1232-1248, 1521-1549,
 1643-1644) against writing every byte at once.
 */
module Output {

  import opened Arithmetic

  const TIOBUF := 4096

  /** What descriptor 1 stands for. */
  datatype Sink = Closed | File(id: nat)

  /** A byte on descriptor 1, with what the descriptor stood for when it was written. */
  datatype Sent = Sent(sink: Sink, byte: Byte)

  function Tag(sink: Sink, bytes: seq<Byte>): (r: seq<Sent>)
    ensures |r| == |bytes|
  {
    seq(|bytes|, i requires 0 <= i < |bytes| => Sent(sink, bytes[i]))
  }

  function BytesOf(s: seq<Sent>): (r: seq<Byte>)
    ensures |r| == |s|
  {
    seq(|s|, i requires 0 <= i < |s| => s[i].byte)
  }

  /**
   What the operating system answers: the k-th write(2), asked for count bytes, takes as many of them
   as env(k) says, or fails. The engine does not choose it, and everything below holds for all of them.
   */
  type Env = nat -> int

  function Accepted(env: Env, k: nat, count: nat): (n: int)
    ensures n <= count
  {
    if env(k) > count then count else env(k)
  }

  // ---- the engine ----------------------------------------------------------

  /**
   buf is t_obuf[..t_olen]; fd1 is what has reached descriptor 1, which stands for sink; calls counts
   write(2). lost counts bytes dropped by a flush whose write failed. origins says, for each buffered
   byte, what descriptor 1 stood for when it was put there, and strayed how many were flushed elsewhere.
   */
  datatype Out = Out(buf: seq<Byte>, fd1: seq<Sent>, sink: Sink, calls: nat, lost: nat, origins: seq<Sink>,
                     strayed: nat)

  function Differing(origins: seq<Sink>, sink: Sink): nat {
    if origins == [] then 0
    else Differing(origins[..|origins| - 1], sink) + if origins[|origins| - 1] == sink then 0 else 1
  }

  /** full_write on descriptor 1. */
  function FullWrite(env: Env, t: Out, bytes: seq<Byte>): Out
    decreases |bytes|
  {
    if bytes == [] then t
    else
      var n := Accepted(env, t.calls, |bytes|);
      if n <= 0 then t.(calls := t.calls + 1, lost := t.lost + |bytes|)
      else FullWrite(env, t.(calls := t.calls + 1, fd1 := t.fd1 + Tag(t.sink, bytes[..n])), bytes[n..])
  }

  function Flush(env: Env, t: Out): Out {
    FullWrite(env, t, t.buf).(buf := [], origins := [], strayed := t.strayed + Differing(t.origins, t.sink))
  }

  function Put(env: Env, t: Out, c: Byte): Out {
    var u := if |t.buf| == TIOBUF then Flush(env, t) else t;
    u.(buf := u.buf + [c], origins := u.origins + [u.sink])
  }

  function Type(env: Env, t: Out, bytes: seq<Byte>): Out {
    if bytes == [] then t else Put(env, Type(env, t, bytes[..|bytes| - 1]), bytes[|bytes| - 1])
  }

  /**
   READ, POLL, RAW-MODE, FORK, EXECVE, SYSTEM, BYE and SYS-EXIT all flush first; WRITE too, and then
   writes once. Die is the engine's own exit on a locals failure or a bad opcode (engine/cv8.c:943,
   985, 989), which does not. Dup2 is DUP2 onto descriptor 1; CloseOne is CLOSE-FILE of it, and OpenOne
   an OPEN-FILE, PIPE, DUPFROM, socket or accept, which gets its number if it is closed
   (engine/cv8.c:1110-1126, 1562-1586).
   While it is closed write(2) fails; env, which may be anything, answers so.
   */
  datatype Event =
    | TypeOut(bytes: seq<Byte>)
    | WriteOut(fd: nat, bytes: seq<Byte>)
    | Read
    | Poll
    | RawMode
    | Fork
    | Execve
    | System
    | Bye
    | SysExit
    | Dup2(sink: Sink)
    | CloseOne
    | OpenOne(id: nat)
    | Die

  predicate Flushes(e: Event) {
    !e.TypeOut? && !e.Dup2? && !e.CloseOne? && !e.OpenOne? && !e.Die?
  }

  /** Nothing that changes what descriptor 1 stands for flushes first. */
  function Do(env: Env, t: Out, e: Event): Out {
    match e
    case TypeOut(bytes) => Type(env, t, bytes)
    case WriteOut(fd, bytes) =>
      var u := Flush(env, t);
      var n := Accepted(env, u.calls, |bytes|);
      u.(calls := u.calls + 1, fd1 := if fd == 1 && n > 0 then u.fd1 + Tag(u.sink, bytes[..n]) else u.fd1)
    case Dup2(sink) => t.(sink := sink)
    case CloseOne => t.(sink := Closed)
    case OpenOne(id) => if t.sink.Closed? then t.(sink := File(id)) else t
    case Die => t
    case _ => Flush(env, t)
  }

  /** What the event says on descriptor 1, in program order: for a WRITE, the bytes it reports as taken. */
  function Says(env: Env, t: Out, e: Event): seq<Sent> {
    match e
    case TypeOut(bytes) => Tag(t.sink, bytes)
    case WriteOut(fd, bytes) =>
      var n := Accepted(env, Flush(env, t).calls, |bytes|);
      if fd == 1 && n > 0 then Tag(t.sink, bytes[..n]) else []
    case _ => []
  }

  function Run(env: Env, t: Out, es: seq<Event>): Out {
    if es == [] then t else Do(env, Run(env, t, es[..|es| - 1]), es[|es| - 1])
  }

  function Said(env: Env, t: Out, es: seq<Event>): seq<Sent> {
    if es == [] then []
    else Said(env, t, es[..|es| - 1]) + Says(env, Run(env, t, es[..|es| - 1]), es[|es| - 1])
  }

  // ---- what a flush does ---------------------------------------------------

  lemma TagParts(sink: Sink, a: seq<Byte>, b: seq<Byte>)
    ensures Tag(sink, a + b) == Tag(sink, a) + Tag(sink, b)
    ensures BytesOf(Tag(sink, a)) == a
  {
  }

  lemma BytesParts(a: seq<Sent>, b: seq<Sent>)
    ensures BytesOf(a + b) == BytesOf(a) + BytesOf(b)
  {
  }

  /** full_write delivers everything in order, or a beginning and a failure; never a byte twice. */
  lemma {:induction false} FullWriteDelivers(env: Env, t: Out, bytes: seq<Byte>)
    ensures
      var u := FullWrite(env, t, bytes);
      && u.lost >= t.lost && u.lost - t.lost <= |bytes|
      && u.fd1 == t.fd1 + Tag(t.sink, bytes[..|bytes| - (u.lost - t.lost)])
      && u.(fd1 := t.fd1, calls := t.calls, lost := t.lost) == t
    decreases |bytes|
  {
    if bytes == [] {
      assert Tag(t.sink, []) == [];
      assert t.fd1 + [] == t.fd1;
    } else {
      var n := Accepted(env, t.calls, |bytes|);
      if n <= 0 {
        assert bytes[..0] == [];
        assert t.fd1 + Tag(t.sink, []) == t.fd1;
      } else {
        var v := t.(calls := t.calls + 1, fd1 := t.fd1 + Tag(t.sink, bytes[..n]));
        FullWriteDelivers(env, v, bytes[n..]);
        var u := FullWrite(env, t, bytes);
        var k := |bytes| - (u.lost - t.lost);
        assert bytes[..k] == bytes[..n] + bytes[n..][..k - n];
        TagParts(t.sink, bytes[..n], bytes[n..][..k - n]);
        hide FullWrite; hide Tag;
        assert v.fd1 + Tag(t.sink, bytes[n..][..k - n]) == t.fd1 + Tag(t.sink, bytes[..k]);
      }
    }
  }

  /** Nothing is lost if and only if each write(2) it makes takes something. */
  lemma {:induction false} FullWriteTakes(env: Env, t: Out, bytes: seq<Byte>)
    ensures
      var u := FullWrite(env, t, bytes);
      && t.calls <= u.calls && t.lost <= u.lost
      && (u.lost == t.lost <==> forall k :: t.calls <= k < u.calls ==> env(k) > 0)
    decreases |bytes|
  {
    if bytes != [] {
      var n := Accepted(env, t.calls, |bytes|);
      var u := FullWrite(env, t, bytes);
      if n > 0 {
        var v := t.(calls := t.calls + 1, fd1 := t.fd1 + Tag(t.sink, bytes[..n]));
        FullWriteTakes(env, v, bytes[n..]);
        assert u == FullWrite(env, v, bytes[n..]);
      } else {
        assert t.calls < u.calls && env(t.calls) <= 0;
      }
    }
  }

  lemma {:induction false} TypeTakes(env: Env, t: Out, bytes: seq<Byte>)
    ensures
      var u := Type(env, t, bytes);
      && t.calls <= u.calls && t.lost <= u.lost
      && (u.lost == t.lost <==> forall k :: t.calls <= k < u.calls ==> env(k) > 0)
    decreases |bytes|
  {
    if bytes != [] {
      var u := Type(env, t, bytes[..|bytes| - 1]);
      TypeTakes(env, t, bytes[..|bytes| - 1]);
      FullWriteTakes(env, u, u.buf);
      hide FullWrite;
    }
  }

  /** TYPE keeps its bytes back, and asks the operating system nothing, if and only if they fit 4096. */
  lemma {:induction false} TypeHolds(env: Env, t: Out, bytes: seq<Byte>)
    requires |t.buf| <= 4096
    ensures
      var u := Type(env, t, bytes);
      && t.calls <= u.calls && (u.calls == t.calls <==> |t.buf| + |bytes| <= 4096)
      && (u.calls == t.calls ==> u.buf == t.buf + bytes && u.fd1 == t.fd1 && u.lost == t.lost)
      && |u.buf| <= 4096
    decreases |bytes|
  {
    if bytes != [] {
      var init, c := bytes[..|bytes| - 1], bytes[|bytes| - 1];
      TypeHolds(env, t, init);
      var u := Type(env, t, init);
      WriteAsks(env, u, u.buf);
      hide FullWrite;
      assert t.buf + bytes == t.buf + init + [c];
    } else {
      assert t.buf + [] == t.buf;
    }
  }

  lemma {:induction false} WriteAsks(env: Env, t: Out, bytes: seq<Byte>)
    ensures FullWrite(env, t, bytes).calls >= t.calls + if bytes == [] then 0 else 1
    decreases |bytes|
  {
    if bytes != [] {
      var n := Accepted(env, t.calls, |bytes|);
      if n > 0 {
        WriteAsks(env, t.(calls := t.calls + 1, fd1 := t.fd1 + Tag(t.sink, bytes[..n])), bytes[n..]);
      }
    }
  }

  /** Up to which call the event flushes; a WRITE's own comes after that. */
  function FlushedTo(env: Env, t: Out, e: Event): nat {
    if e.WriteOut? then Flush(env, t).calls else Do(env, t, e).calls
  }

  /** Every write(2) that a flush makes takes at least one byte. */
  ghost predicate FlushesWrite(env: Env, t: Out, es: seq<Event>) {
    es != [] ==>
      var s := Run(env, t, es[..|es| - 1]);
      && FlushesWrite(env, t, es[..|es| - 1])
      && forall k :: s.calls <= k < FlushedTo(env, s, es[|es| - 1]) ==> env(k) > 0
  }

  lemma DoTakes(env: Env, t: Out, e: Event)
    ensures
      var u := Do(env, t, e);
      && t.lost <= u.lost
      && (u.lost == t.lost <==> forall k :: t.calls <= k < FlushedTo(env, t, e) ==> env(k) > 0)
  {
    FullWriteTakes(env, t, t.buf);
    FullWriteDelivers(env, t, t.buf);
    hide FullWrite; hide Type;
    if e.TypeOut? { TypeTakes(env, t, e.bytes); }
  }

  lemma {:induction false} RunTakes(env: Env, t: Out, es: seq<Event>)
    ensures t.lost <= Run(env, t, es).lost
    ensures Run(env, t, es).lost == t.lost <==> FlushesWrite(env, t, es)
    decreases |es|
  {
    hide Do; hide FlushedTo;
    if es != [] {
      RunTakes(env, t, es[..|es| - 1]);
      DoTakes(env, Run(env, t, es[..|es| - 1]), es[|es| - 1]);
    }
  }

  /**
   The invariant, for what has been said so far: the buffer is bounded; no byte is counted twice or
   forgotten; and as long as no write has failed, what has reached the descriptor and what is buffered
   are, in this order, what was said.
   */
  ghost predicate Buffers(t: Out, said: seq<Sent>) {
    && |t.buf| == |t.origins| <= TIOBUF
    && |t.fd1| + |t.buf| + t.lost == |said|
    && (t.lost == 0 ==> BytesOf(t.fd1) + t.buf == BytesOf(said))
  }

  lemma FlushKeeps(env: Env, t: Out, said: seq<Sent>)
    requires Buffers(t, said)
    ensures Buffers(Flush(env, t), said) && Flush(env, t).buf == [] && Flush(env, t).sink == t.sink
  {
    FullWriteDelivers(env, t, t.buf);
    var u := FullWrite(env, t, t.buf);
    hide FullWrite; hide Differing;
    if u.lost == 0 {
      assert t.buf[..|t.buf|] == t.buf;
      BytesParts(t.fd1, Tag(t.sink, t.buf));
      TagParts(t.sink, t.buf, []);
    }
    assert BytesOf(u.fd1) + [] == BytesOf(u.fd1);
  }

  lemma PutKeeps(env: Env, t: Out, said: seq<Sent>, c: Byte)
    requires Buffers(t, said)
    ensures Buffers(Put(env, t, c), said + [Sent(t.sink, c)]) && Put(env, t, c).sink == t.sink
  {
    FlushKeeps(env, t, said);
    hide Flush;
    var u := if |t.buf| == TIOBUF then Flush(env, t) else t;
    BytesParts(said, [Sent(t.sink, c)]);
    assert BytesOf([Sent(t.sink, c)]) == [c];
    assert BytesOf(u.fd1) + (u.buf + [c]) == BytesOf(u.fd1) + u.buf + [c];
  }

  lemma {:induction false} TypeKeeps(env: Env, t: Out, said: seq<Sent>, bytes: seq<Byte>)
    requires Buffers(t, said)
    ensures Buffers(Type(env, t, bytes), said + Tag(t.sink, bytes)) && Type(env, t, bytes).sink == t.sink
    decreases |bytes|
  {
    hide Buffers; hide Put;
    if bytes == [] {
      assert said + Tag(t.sink, []) == said;
    } else {
      var init, c := bytes[..|bytes| - 1], bytes[|bytes| - 1];
      TypeKeeps(env, t, said, init);
      PutKeeps(env, Type(env, t, init), said + Tag(t.sink, init), c);
      assert init + [c] == bytes;
      TagParts(t.sink, init, [c]);
      assert Tag(t.sink, [c]) == [Sent(t.sink, c)];
      assert said + Tag(t.sink, init) + [Sent(t.sink, c)] == said + Tag(t.sink, bytes);
    }
  }

  lemma WriteKeeps(env: Env, t: Out, said: seq<Sent>, more: seq<Sent>, calls: nat)
    requires Buffers(t, said) && t.buf == []
    ensures Buffers(t.(calls := calls, fd1 := t.fd1 + more), said + more)
  {
    BytesParts(t.fd1, more);
    BytesParts(said, more);
    assert BytesOf(t.fd1) + [] == BytesOf(t.fd1);
    assert BytesOf(t.fd1) + BytesOf(more) + [] == BytesOf(t.fd1) + BytesOf(more);
  }

  lemma DoKeeps(env: Env, t: Out, said: seq<Sent>, e: Event)
    requires Buffers(t, said)
    ensures Buffers(Do(env, t, e), said + Says(env, t, e))
    ensures Flushes(e) ==> Do(env, t, e).buf == []
  {
    assert said + [] == said;
    FlushKeeps(env, t, said);
    hide Flush;
    match e
    case TypeOut(bytes) => TypeKeeps(env, t, said, bytes);
    case WriteOut(fd, bytes) =>
      var u := Flush(env, t);
      var n := Accepted(env, u.calls, |bytes|);
      WriteKeeps(env, u, said, if fd == 1 && n > 0 then Tag(u.sink, bytes[..n]) else [], u.calls + 1);
      assert u.fd1 + [] == u.fd1;
    case _ =>
  }

  /**
   Over any run, whatever write(2) answers.
   */
  lemma {:induction false} RunKeeps(env: Env, t: Out, said: seq<Sent>, es: seq<Event>)
    requires Buffers(t, said)
    ensures Buffers(Run(env, t, es), said + Said(env, t, es))
    decreases |es|
  {
    hide Buffers; hide Do; hide Says;
    if es == [] {
      assert said + [] == said;
    } else {
      var init, e := es[..|es| - 1], es[|es| - 1];
      RunKeeps(env, t, said, init);
      DoKeeps(env, Run(env, t, init), said + Said(env, t, init), e);
      assert said + Said(env, t, init) + Says(env, Run(env, t, init), e) == said + Said(env, t, es);
    }
  }

  function Fresh(sink: Sink): Out { Out([], [], sink, 0, 0, [], 0) }

  /**
   Buffered output refines direct output, for every run and every way write(2) may answer: the buffer
   never passes 4096 bytes, and what is on the descriptor is the beginning of what was said, lacking
   just the buffer, if and only if each write(2) a flush has made took at least one byte.
   */
  lemma BufferedIsDirect(env: Env, sink: Sink, es: seq<Event>)
    ensures
      var t := Run(env, Fresh(sink), es);
      var said := Said(env, Fresh(sink), es);
      && |t.buf| <= TIOBUF && |t.fd1| + |t.buf| + t.lost == |said|
      && (BytesOf(t.fd1) + t.buf == BytesOf(said) <==> FlushesWrite(env, Fresh(sink), es))
  {
    var start := Fresh(sink);
    assert Buffers(start, []) by { assert BytesOf([]) == []; }
    RunKeeps(env, start, [], es);
    RunTakes(env, start, es);
    var t, said := Run(env, start, es), Said(env, start, es);
    hide Run; hide Said; hide FlushesWrite;
    assert [] + said == said;
    if BytesOf(t.fd1) + t.buf == BytesOf(said) {
      assert |t.fd1| + |t.buf| == |said|;
    }
  }

  lemma FlushEmptiesLast(env: Env, t: Out, es: seq<Event>, e: Event)
    requires Flushes(e)
    ensures Run(env, t, es + [e]).buf == [] && Run(env, t, es + [e]).origins == []
  {
    assert (es + [e])[..|es|] == es;
  }

  /**
   Whatever came before, at each READ, POLL, RAW-MODE, WRITE, FORK, EXECVE, SYSTEM, BYE and SYS-EXIT the output is
   complete if and only if each write(2) a flush has made took at least one byte.
   */
  lemma CompleteAtFlush(env: Env, sink: Sink, es: seq<Event>, e: Event)
    requires e.Read? || e.Poll? || e.RawMode? || e.WriteOut? || e.Fork? || e.Execve? || e.System? || e.Bye?
          || e.SysExit?
    ensures
      var t := Run(env, Fresh(sink), es + [e]);
      var said := Said(env, Fresh(sink), es + [e]);
      && t.buf == [] && |t.fd1| + t.lost == |said|
      && (BytesOf(t.fd1) == BytesOf(said) <==> FlushesWrite(env, Fresh(sink), es + [e]))
  {
    var start := Fresh(sink);
    BufferedIsDirect(env, sink, es + [e]);
    FlushEmptiesLast(env, start, es, e);
    var t := Run(env, start, es + [e]);
    hide Run; hide Said; hide FlushesWrite;
    assert BytesOf(t.fd1) + [] == BytesOf(t.fd1);
  }

  /** Nothing has been typed since the last flush. */
  predicate Settled(es: seq<Event>) {
    es == [] || Flushes(es[|es| - 1])
    || (!(es[|es| - 1].TypeOut? && es[|es| - 1].bytes != []) && Settled(es[..|es| - 1]))
  }

  lemma {:induction false} SettledIsEmpty(env: Env, sink: Sink, es: seq<Event>)
    ensures Run(env, Fresh(sink), es).buf == [] <==> Settled(es)
    decreases |es|
  {
    if es != [] {
      var init, e := es[..|es| - 1], es[|es| - 1];
      SettledIsEmpty(env, sink, init);
      var t := Run(env, Fresh(sink), init);
      LeavesEmpty(env, t, e);
      hide Do;
    }
  }

  lemma LeavesEmpty(env: Env, t: Out, e: Event)
    ensures Do(env, t, e).buf == [] <==> Flushes(e) || (t.buf == [] && !(e.TypeOut? && e.bytes != []))
  {
    FlushKeepsNone(env, t);
    hide Flush;
  }

  lemma FlushKeepsNone(env: Env, t: Out)
    ensures Flush(env, t).buf == []
  {
  }

  /**
   The exits that do not flush leave the output complete if and only if nothing was typed since the
   last flush and its writes took their bytes; else just the bytes typed since are missing.
   */
  lemma CompleteAtDeath(env: Env, sink: Sink, es: seq<Event>)
    ensures
      var t := Run(env, Fresh(sink), es + [Die]);
      var said := Said(env, Fresh(sink), es + [Die]);
      && (FlushesWrite(env, Fresh(sink), es) ==> BytesOf(t.fd1) + t.buf == BytesOf(said))
      && (BytesOf(t.fd1) == BytesOf(said) <==> Settled(es) && FlushesWrite(env, Fresh(sink), es))
  {
    assert (es + [Die])[..|es|] == es;
    BufferedIsDirect(env, sink, es);
    SettledIsEmpty(env, sink, es);
    var t, said := Run(env, Fresh(sink), es), Said(env, Fresh(sink), es);
    assert said + [] == said;
    assert Run(env, Fresh(sink), es + [Die]) == t && Said(env, Fresh(sink), es + [Die]) == said;
    hide Run; hide Said; hide FlushesWrite; hide Settled;
    assert |BytesOf(t.fd1)| == |t.fd1| && |BytesOf(said)| == |said|;
    if t.buf == [] {
      assert BytesOf(t.fd1) + t.buf == BytesOf(t.fd1);
    }
  }

  /**
   A child forked with the buffer flushed has nothing of its parent's to write: what it adds to the
   descriptor is a beginning of what it says itself.
   */
  lemma ChildSaysItsOwn(env: Env, childEnv: Env, sink: Sink, es: seq<Event>, child: seq<Event>)
    ensures
      var t := Run(env, Fresh(sink), es + [Fork]);
      var u := Run(childEnv, t, child);
      var said := Said(childEnv, t, child);
      && t.fd1 <= u.fd1
      && (BytesOf(u.fd1[|t.fd1|..]) + u.buf == BytesOf(said) <==> FlushesWrite(childEnv, t, child))
      && |u.fd1| - |t.fd1| + |u.buf| + (u.lost - t.lost) == |said|
  {
    FlushEmptiesLast(env, Fresh(sink), es, Fork);
    var t := Run(env, Fresh(sink), es + [Fork]);
    // Seen from the fork on, the descriptor starts empty.
    var s := t.(fd1 := [], lost := 0);
    assert Buffers(s, []) by { assert BytesOf([]) == []; }
    RunKeeps(childEnv, s, [], child);
    Shifted(childEnv, s, t, child);
    RunTakes(childEnv, t, child);
    var u, v := Run(childEnv, t, child), Run(childEnv, s, child);
    assert [] + Said(childEnv, s, child) == Said(childEnv, s, child);
    assert u.fd1[|t.fd1|..] == v.fd1;
    hide Run; hide Said; hide FlushesWrite;
    if BytesOf(v.fd1) + v.buf == BytesOf(Said(childEnv, t, child)) {
      assert |v.fd1| + |v.buf| == |Said(childEnv, t, child)|;
    }
  }

  /** t is s with more on the descriptor and more lost before. */
  ghost predicate Later(s: Out, t: Out, sent: seq<Sent>, lost: nat) {
    t == s.(fd1 := sent + s.fd1, lost := lost + s.lost)
  }

  lemma {:induction false} FullWriteLater(env: Env, s: Out, t: Out, sent: seq<Sent>, lost: nat, bytes: seq<Byte>)
    requires Later(s, t, sent, lost)
    ensures Later(FullWrite(env, s, bytes), FullWrite(env, t, bytes), sent, lost)
    decreases |bytes|
  {
    if bytes != [] {
      var n := Accepted(env, s.calls, |bytes|);
      if n > 0 {
        var a := s.(calls := s.calls + 1, fd1 := s.fd1 + Tag(s.sink, bytes[..n]));
        var b := t.(calls := t.calls + 1, fd1 := t.fd1 + Tag(t.sink, bytes[..n]));
        assert b.fd1 == sent + a.fd1;
        FullWriteLater(env, a, b, sent, lost, bytes[n..]);
      }
    }
  }

  lemma {:induction false} TypeLater(env: Env, s: Out, t: Out, sent: seq<Sent>, lost: nat, bytes: seq<Byte>)
    requires Later(s, t, sent, lost)
    ensures Later(Type(env, s, bytes), Type(env, t, bytes), sent, lost)
    decreases |bytes|
  {
    if bytes != [] {
      TypeLater(env, s, t, sent, lost, bytes[..|bytes| - 1]);
      var a, b := Type(env, s, bytes[..|bytes| - 1]), Type(env, t, bytes[..|bytes| - 1]);
      FullWriteLater(env, a, b, sent, lost, a.buf);
    }
  }

  lemma DoLater(env: Env, s: Out, t: Out, sent: seq<Sent>, lost: nat, e: Event)
    requires Later(s, t, sent, lost)
    ensures Later(Do(env, s, e), Do(env, t, e), sent, lost) && Says(env, s, e) == Says(env, t, e)
  {
    FullWriteLater(env, s, t, sent, lost, s.buf);
    hide FullWrite;
    match e
    case TypeOut(bytes) => TypeLater(env, s, t, sent, lost, bytes);
    case WriteOut(fd, bytes) =>
      var a, b := Flush(env, s), Flush(env, t);
      var n := Accepted(env, a.calls, |bytes|);
      if fd == 1 && n > 0 {
        assert b.fd1 + Tag(b.sink, bytes[..n]) == sent + (a.fd1 + Tag(a.sink, bytes[..n]));
      }
    case _ =>
  }

  lemma {:induction false} Shifted(env: Env, s: Out, t: Out, es: seq<Event>)
    requires Later(s, t, t.fd1, t.lost) && s.fd1 == [] && s.lost == 0
    ensures Later(Run(env, s, es), Run(env, t, es), t.fd1, t.lost) && Said(env, s, es) == Said(env, t, es)
    decreases |es|
  {
    hide Do; hide Says; hide Later;
    if es != [] {
      var init := es[..|es| - 1];
      Shifted(env, s, t, init);
      DoLater(env, Run(env, s, init), Run(env, t, init), t.fd1, t.lost, es[|es| - 1]);
    }
  }

  // ---- descriptor 1 made to stand for something else ----------------------------------------------

  /** Where each byte went, against where it was said to go. */
  ghost predicate Placed(t: Out, said: seq<Sent>) {
    && |t.buf| == |t.origins| && |t.fd1| + |t.buf| + t.lost == |said|
    && (t.lost == 0 ==>
          && (forall i :: 0 <= i < |t.buf| ==> said[|t.fd1| + i] == Sent(t.origins[i], t.buf[i]))
          && (t.strayed == 0 <==> t.fd1 == said[..|t.fd1|]))
  }

  lemma {:induction false} NoneDiffer(origins: seq<Sink>, sink: Sink)
    ensures Differing(origins, sink) == 0 <==> forall i :: 0 <= i < |origins| ==> origins[i] == sink
  {
    if origins != [] {
      NoneDiffer(origins[..|origins| - 1], sink);
      assert origins == origins[..|origins| - 1] + [origins[|origins| - 1]];
    }
  }

  lemma FlushPlaces(env: Env, t: Out, said: seq<Sent>)
    requires Placed(t, said)
    ensures Placed(Flush(env, t), said)
  {
    FullWriteDelivers(env, t, t.buf);
    NoneDiffer(t.origins, t.sink);
    var u := FullWrite(env, t, t.buf);
    hide FullWrite; hide Differing;
    if u.lost == 0 {
      assert t.buf[..|t.buf|] == t.buf;
      assert forall i :: 0 <= i < |t.buf| ==> u.fd1[|t.fd1| + i] == Sent(t.sink, t.buf[i]);
      assert u.fd1[..|t.fd1|] == t.fd1;
      if u.fd1 == said {
        assert t.fd1 == said[..|t.fd1|];
        forall i | 0 <= i < |t.buf| ensures t.origins[i] == t.sink {
          assert said[|t.fd1| + i] == u.fd1[|t.fd1| + i];
        }
      }
    }
  }

  lemma PutPlaces(env: Env, t: Out, said: seq<Sent>, c: Byte)
    requires Placed(t, said)
    ensures Placed(Put(env, t, c), said + [Sent(t.sink, c)]) && Put(env, t, c).sink == t.sink
  {
    FlushPlaces(env, t, said);
    FullWriteDelivers(env, t, t.buf);
    hide FullWrite; hide Differing;
    var u := if |t.buf| == TIOBUF then Flush(env, t) else t;
    assert (said + [Sent(t.sink, c)])[..|u.fd1|] == said[..|u.fd1|];
  }

  lemma {:induction false} TypePlaces(env: Env, t: Out, said: seq<Sent>, bytes: seq<Byte>)
    requires Placed(t, said)
    ensures Placed(Type(env, t, bytes), said + Tag(t.sink, bytes)) && Type(env, t, bytes).sink == t.sink
    decreases |bytes|
  {
    hide Placed; hide Put;
    if bytes == [] {
      assert said + Tag(t.sink, []) == said;
    } else {
      var init, c := bytes[..|bytes| - 1], bytes[|bytes| - 1];
      TypePlaces(env, t, said, init);
      PutPlaces(env, Type(env, t, init), said + Tag(t.sink, init), c);
      assert said + Tag(t.sink, init) + [Sent(t.sink, c)] == said + Tag(t.sink, bytes);
    }
  }

  lemma WritePlaces(t: Out, said: seq<Sent>, more: seq<Sent>, calls: nat)
    requires Placed(t, said) && t.buf == []
    ensures Placed(t.(calls := calls, fd1 := t.fd1 + more), said + more)
  {
    if t.lost == 0 {
      assert said[..|t.fd1|] == said;
      assert (said + more)[..|t.fd1 + more|] == said + more;
      if t.fd1 + more == said + more {
        assert t.fd1 == (t.fd1 + more)[..|t.fd1|] == (said + more)[..|said|] == said;
      }
    }
  }

  lemma DoPlaces(env: Env, t: Out, said: seq<Sent>, e: Event)
    requires Placed(t, said)
    ensures Placed(Do(env, t, e), said + Says(env, t, e))
  {
    assert said + [] == said;
    FlushPlaces(env, t, said);
    FlushEmpties(env, t);
    hide Flush; hide Placed;
    match e
    case TypeOut(bytes) => TypePlaces(env, t, said, bytes);
    case WriteOut(fd, bytes) =>
      var u := Flush(env, t);
      var n := Accepted(env, u.calls, |bytes|);
      WritePlaces(u, said, if fd == 1 && n > 0 then Tag(u.sink, bytes[..n]) else [], u.calls + 1);
      assert u.fd1 + [] == u.fd1;
    case Dup2(sink) => MovePlaces(t, said, sink);
    case CloseOne => MovePlaces(t, said, Closed);
    case OpenOne(id) => MovePlaces(t, said, File(id));
    case _ =>
  }

  lemma MovePlaces(t: Out, said: seq<Sent>, sink: Sink)
    requires Placed(t, said)
    ensures Placed(t.(sink := sink), said)
  {
  }

  lemma FlushEmpties(env: Env, t: Out)
    ensures Flush(env, t).buf == [] && Flush(env, t).sink == t.sink
  {
    FullWriteDelivers(env, t, t.buf);
  }

  lemma {:induction false} RunPlaces(env: Env, t: Out, said: seq<Sent>, es: seq<Event>)
    requires Placed(t, said)
    ensures Placed(Run(env, t, es), said + Said(env, t, es))
    decreases |es|
  {
    hide Placed; hide Do; hide Says;
    if es == [] {
      assert said + [] == said;
    } else {
      var init, e := es[..|es| - 1], es[|es| - 1];
      RunPlaces(env, t, said, init);
      DoPlaces(env, Run(env, t, init), said + Said(env, t, init), e);
      assert said + Said(env, t, init) + Says(env, Run(env, t, init), e) == said + Said(env, t, es);
    }
  }

  /** The event flushes what is in the buffer when it comes. */
  predicate FlushesBuffer(t: Out, e: Event) {
    Flushes(e) || (e.TypeOut? && |t.buf| + |e.bytes| > TIOBUF)
  }

  /** What is in the buffer, the last that was said, was said for where descriptor 1 points now. */
  ghost predicate Homely(t: Out, said: seq<Sent>) {
    forall j :: 0 <= j < |said| && |said| - |t.buf| <= j ==> said[j].sink == t.sink
  }

  /** No event flushes a byte that was said for elsewhere. */
  ghost predicate FlushesAtHome(env: Env, t: Out, es: seq<Event>) {
    es != [] ==>
      var init := es[..|es| - 1];
      && FlushesAtHome(env, t, init)
      && (FlushesBuffer(Run(env, t, init), es[|es| - 1]) ==> Homely(Run(env, t, init), Said(env, t, init)))
  }

  lemma DifferingMore(origins: seq<Sink>, sink: Sink)
    ensures Differing(origins + [sink], sink) == Differing(origins, sink)
  {
    assert (origins + [sink])[..|origins|] == origins;
  }

  lemma PutStrays(env: Env, t: Out, c: Byte)
    requires |t.buf| == |t.origins| <= TIOBUF
    ensures
      var u := Put(env, t, c);
      && u.sink == t.sink && |u.buf| == |u.origins| <= TIOBUF
      && if |t.buf| < TIOBUF
         then |u.buf| == |t.buf| + 1 && u.strayed == t.strayed
              && Differing(u.origins, t.sink) == Differing(t.origins, t.sink)
         else u.strayed == t.strayed + Differing(t.origins, t.sink) && Differing(u.origins, t.sink) == 0
  {
    FlushEmpties(env, t);
    FullWriteDelivers(env, t, t.buf);
    DifferingMore([], t.sink);
    DifferingMore(t.origins, t.sink);
    assert Differing([], t.sink) == 0;
    hide FullWrite; hide Differing;
  }

  /** TYPE flushes what it found in the buffer at most once, and then only its own bytes. */
  lemma {:induction false} TypeStrays(env: Env, t: Out, bytes: seq<Byte>)
    requires |t.buf| == |t.origins| <= TIOBUF
    ensures
      var u := Type(env, t, bytes);
      && u.sink == t.sink && |u.buf| == |u.origins| <= TIOBUF
      && if |t.buf| + |bytes| <= TIOBUF
         then |u.buf| == |t.buf| + |bytes| && u.strayed == t.strayed
              && Differing(u.origins, t.sink) == Differing(t.origins, t.sink)
         else u.strayed == t.strayed + Differing(t.origins, t.sink) && Differing(u.origins, t.sink) == 0
    decreases |bytes|
  {
    if bytes != [] {
      var v := Type(env, t, bytes[..|bytes| - 1]);
      TypeStrays(env, t, bytes[..|bytes| - 1]);
      PutStrays(env, v, bytes[|bytes| - 1]);
      hide Put; hide Differing;
    }
  }

  /** Whether the buffer's bytes are at home, by what was said. */
  lemma HomelyIs(t: Out, said: seq<Sent>)
    requires Placed(t, said) && t.lost == 0
    ensures Homely(t, said) <==> Differing(t.origins, t.sink) == 0
  {
    NoneDiffer(t.origins, t.sink);
    hide Differing;
    if Homely(t, said) {
      forall i | 0 <= i < |t.origins|
        ensures t.origins[i] == t.sink
      {
        assert said[|t.fd1| + i] == Sent(t.origins[i], t.buf[i]);
      }
    } else {
      var j :| 0 <= j < |said| && |said| - |t.buf| <= j && said[j].sink != t.sink;
      assert said[|t.fd1| + (j - |t.fd1|)] == Sent(t.origins[j - |t.fd1|], t.buf[j - |t.fd1|]);
    }
  }

  lemma DoStrays(env: Env, t: Out, e: Event)
    requires |t.buf| == |t.origins| <= TIOBUF
    ensures
      var u := Do(env, t, e);
      && |u.buf| == |u.origins| <= TIOBUF
      && u.strayed == t.strayed + if FlushesBuffer(t, e) then Differing(t.origins, t.sink) else 0
  {
    FlushEmpties(env, t);
    FullWriteDelivers(env, t, t.buf);
    hide FullWrite; hide Differing; hide Type;
    if e.TypeOut? { TypeStrays(env, t, e.bytes); }
  }

  lemma {:induction false} RunStrays(env: Env, sink: Sink, es: seq<Event>)
    requires FlushesWrite(env, Fresh(sink), es)
    ensures
      var t := Run(env, Fresh(sink), es);
      |t.buf| == |t.origins| <= TIOBUF && (t.strayed == 0 <==> FlushesAtHome(env, Fresh(sink), es))
    decreases |es|
  {
    hide Do; hide Differing; hide Homely; hide Placed; hide FlushesBuffer; hide FlushedTo; hide Says;
    if es != [] {
      var init, e := es[..|es| - 1], es[|es| - 1];
      RunStrays(env, sink, init);
      var t, said := Run(env, Fresh(sink), init), Said(env, Fresh(sink), init);
      RunPlaces(env, Fresh(sink), [], init) by { NothingPlaced(sink); }
      RunTakes(env, Fresh(sink), init);
      assert [] + said == said;
      HomelyIs(t, said);
      DoStrays(env, t, e);
    }
  }

  lemma NothingPlaced(sink: Sink)
    ensures Placed(Fresh(sink), [])
  {
  }

  /**
   Where each write of a flush has taken its bytes: at a flush every byte is where it was said to go if
   and only if no flush ever found in the buffer a byte typed while descriptor 1 stood for something else.
   */
  lemma BytesGoWhereSaid(env: Env, sink: Sink, es: seq<Event>, e: Event)
    requires Flushes(e) && FlushesWrite(env, Fresh(sink), es + [e])
    ensures
      var t := Run(env, Fresh(sink), es + [e]);
      t.fd1 == Said(env, Fresh(sink), es + [e]) <==> FlushesAtHome(env, Fresh(sink), es + [e])
  {
    var start := Fresh(sink);
    RunPlaces(env, start, [], es + [e]);
    RunTakes(env, start, es + [e]);
    CompleteAtFlush(env, sink, es, e);
    RunStrays(env, sink, es + [e]);
    var t, said := Run(env, start, es + [e]), Said(env, start, es + [e]);
    hide Run; hide Said; hide FlushesWrite; hide FlushesAtHome;
    assert [] + said == said && said[..|t.fd1|] == said;
  }

  /** The event changes what descriptor 1 stands for. */
  predicate Redirects(t: Out, e: Event) {
    e.Dup2? || e.CloseOne? || (e.OpenOne? && t.sink.Closed?)
  }

  /** Every such event finds the buffer empty. */
  ghost predicate RedirectsEmpty(env: Env, t: Out, es: seq<Event>) {
    es != [] ==>
      && RedirectsEmpty(env, t, es[..|es| - 1])
      && (Redirects(Run(env, t, es[..|es| - 1]), es[|es| - 1]) ==> Run(env, t, es[..|es| - 1]).buf == [])
  }

  /** All that is buffered is for where the descriptor points now. */
  ghost predicate AtHome(t: Out) {
    |t.buf| == |t.origins| && t.strayed == 0 && forall i :: 0 <= i < |t.origins| ==> t.origins[i] == t.sink
  }

  lemma FlushAtHome(env: Env, t: Out)
    requires AtHome(t)
    ensures AtHome(Flush(env, t))
  {
    NoneDiffer(t.origins, t.sink);
    FullWriteDelivers(env, t, t.buf);
  }

  lemma {:induction false} TypeAtHome(env: Env, t: Out, bytes: seq<Byte>)
    requires AtHome(t)
    ensures AtHome(Type(env, t, bytes))
    decreases |bytes|
  {
    if bytes != [] {
      var u := Type(env, t, bytes[..|bytes| - 1]);
      TypeAtHome(env, t, bytes[..|bytes| - 1]);
      FlushAtHome(env, u);
      hide Flush;
    }
  }

  lemma DoAtHome(env: Env, t: Out, e: Event)
    requires AtHome(t) && (Redirects(t, e) ==> t.buf == [])
    ensures AtHome(Do(env, t, e))
  {
    FlushAtHome(env, t);
    hide Flush; hide Type;
    if e.TypeOut? { TypeAtHome(env, t, e.bytes); }
  }

  /** Flushing before descriptor 1 is moved, closed or opened again is enough. */
  lemma {:induction false} NoneStrays(env: Env, sink: Sink, es: seq<Event>)
    requires RedirectsEmpty(env, Fresh(sink), es)
    ensures AtHome(Run(env, Fresh(sink), es))
    ensures FlushesWrite(env, Fresh(sink), es) ==> FlushesAtHome(env, Fresh(sink), es)
    decreases |es|
  {
    hide Do; hide FlushesWrite; hide FlushesAtHome; hide Redirects;
    if FlushesWrite(env, Fresh(sink), es) {
      RunStrays(env, sink, es);
    }
    if es != [] {
      NoneStrays(env, sink, es[..|es| - 1]);
      DoAtHome(env, Run(env, Fresh(sink), es[..|es| - 1]), es[|es| - 1]);
    }
  }

  // ---- what can go wrong ---------------------------------------------------

  /** One byte typed, and descriptor 1 as it is by now. */
  function Typed(sink: Sink): Out {
    Out([65], [], sink, 0, 0, [File(0)], 0)
  }

  lemma TypedOne(env: Env)
    ensures Run(env, Fresh(File(0)), [TypeOut([65])]) == Typed(File(0))
    ensures Said(env, Fresh(File(0)), [TypeOut([65])]) == [Sent(File(0), 65)]
  {
    hide Type; hide Tag;
    OneMore(env, Fresh(File(0)), [], TypeOut([65]));
    OneTyped(env, Fresh(File(0)), 65);
    OneSaid(File(0), 65);
    assert [] + [TypeOut([65])] == [TypeOut([65])];
    assert Run(env, Fresh(File(0)), []) == Fresh(File(0)) && Said(env, Fresh(File(0)), []) == [];
  }

  /** t_flush forgets the buffer whether or not full_write succeeded. */
  lemma FailedFlushLoses() returns (env: Env)
    ensures
      var es := [TypeOut([65]), Read];
      var t := Run(env, Fresh(File(0)), es);
      t.fd1 == [] && t.buf == [] && t.lost == 1 && Said(env, Fresh(File(0)), es) == [Sent(File(0), 65)]
  {
    hide Run; hide Said; hide Flush;
    env := k => -1;
    TypedOne(env);
    OneMore(env, Fresh(File(0)), [TypeOut([65])], Read);
    FlushOne(env, Typed(File(0)), 65);
    assert [TypeOut([65])] + [Read] == [TypeOut([65]), Read];
  }

  lemma ThenRead(env: Env, es: seq<Event>)
    requires env(0) > 0 && Run(env, Fresh(File(0)), es) == Typed(File(7))
    requires Said(env, Fresh(File(0)), es) == [Sent(File(0), 65)]
    ensures
      var u := Run(env, Fresh(File(0)), es + [Read]);
      && u.fd1 == [Sent(File(7), 65)] && u.lost == 0
      && Said(env, Fresh(File(0)), es + [Read]) == [Sent(File(0), 65)]
  {
    hide Run; hide Said; hide Flush;
    OneMore(env, Fresh(File(0)), es, Read);
    FlushOne(env, Typed(File(7)), 65);
  }

  /** A byte typed before DUP2 comes out behind it. */
  lemma RedirectStrays() returns (env: Env)
    ensures
      var es := [TypeOut([65]), Dup2(File(7)), Read];
      && Run(env, Fresh(File(0)), es).fd1 == [Sent(File(7), 65)] && Run(env, Fresh(File(0)), es).lost == 0
      && Said(env, Fresh(File(0)), es) == [Sent(File(0), 65)]
  {
    hide Run; hide Said;
    env := k => 1;
    TypedOne(env);
    OneMore(env, Fresh(File(0)), [TypeOut([65])], Dup2(File(7)));
    ThenRead(env, [TypeOut([65])] + [Dup2(File(7))]);
    assert [TypeOut([65])] + [Dup2(File(7))] + [Read] == [TypeOut([65]), Dup2(File(7)), Read];
  }

  /** So does one typed before descriptor 1 is closed, into the next file opened. */
  lemma ClosedStrays() returns (env: Env)
    ensures
      var es := [TypeOut([65]), CloseOne, OpenOne(7), Read];
      && Run(env, Fresh(File(0)), es).fd1 == [Sent(File(7), 65)] && Run(env, Fresh(File(0)), es).lost == 0
      && Said(env, Fresh(File(0)), es) == [Sent(File(0), 65)]
  {
    hide Run; hide Said;
    env := k => 1;
    TypedOne(env);
    var es := [TypeOut([65])] + [CloseOne];
    OneMore(env, Fresh(File(0)), [TypeOut([65])], CloseOne);
    OneMore(env, Fresh(File(0)), es, OpenOne(7));
    ThenRead(env, es + [OpenOne(7)]);
    assert es + [OpenOne(7)] + [Read] == [TypeOut([65]), CloseOne, OpenOne(7), Read];
  }

  lemma OneSaid(sink: Sink, c: Byte)
    ensures Tag(sink, [c]) == [Sent(sink, c)]
  {
  }

  lemma FlushOne(env: Env, t: Out, c: Byte)
    requires t.buf == [c] && |t.origins| == 1
    ensures
      var u := Flush(env, t);
      && u.buf == []
      && if env(t.calls) > 0 then u.fd1 == t.fd1 + [Sent(t.sink, c)] && u.lost == t.lost
         else u.fd1 == t.fd1 && u.lost == t.lost + 1
  {
    if env(t.calls) > 0 {
      assert [c][..1] == [c] && [c][1..] == [];
      assert Tag(t.sink, [c]) == [Sent(t.sink, c)];
      var v := t.(calls := t.calls + 1, fd1 := t.fd1 + [Sent(t.sink, c)]);
      assert FullWrite(env, t, [c]) == FullWrite(env, v, []) == v;
    }
  }

  lemma OneTyped(env: Env, t: Out, c: Byte)
    requires t.buf == [] && t.origins == []
    ensures Type(env, t, [c]) == t.(buf := [c], origins := [t.sink])
  {
    assert [c][..0] == [];
    assert Type(env, t, []) == t;
  }

  lemma OneMore(env: Env, t: Out, es: seq<Event>, e: Event)
    ensures Run(env, t, es + [e]) == Do(env, Run(env, t, es), e)
    ensures Said(env, t, es + [e]) == Said(env, t, es) + Says(env, Run(env, t, es), e)
  {
    assert (es + [e])[..|es|] == es;
  }
}
