/**
 t_put, t_flush, full_write and the primitives around them (engine/cv8.c:349-359, 817-839, 1092-1105),
 proved against what Output says they do.
 */
module Terminal {
  import opened Arithmetic
  import opened Output

  // ---- the engine's code ---------------------------------------------------

  class TerminalBuffer {
    const env: Env
    const obuf: array<Byte>
    var olen: nat
    // The world outside.
    var fd1: seq<Sent>
    var sink: Sink
    var calls: nat
    ghost var lost: nat
    ghost var origins: seq<Sink>
    ghost var strayed: nat

    ghost predicate Valid()
      reads this
    {
      obuf.Length == TIOBUF && olen <= TIOBUF && |origins| == olen
    }

    ghost function Now(): Out
      requires Valid()
      reads this, obuf
    {
      Out(obuf[..olen], fd1, sink, calls, lost, origins, strayed)
    }

    constructor (env: Env, sink: Sink)
      ensures Valid() && fresh(obuf) && this.env == env && Now() == Fresh(sink)
    {
      this.env := env;
      obuf := new Byte[TIOBUF](_ => 0);
      olen, fd1, this.sink, calls := 0, [], sink, 0;
      lost, origins, strayed := 0, [], 0;
    }

    /** write(2) on descriptor 1, as the outside world answers it. */
    method Write(bytes: seq<Byte>) returns (n: int)
      requires Valid()
      modifies this`fd1, this`calls
      ensures n == Accepted(env, old(calls), |bytes|) && calls == old(calls) + 1
      ensures fd1 == if n > 0 then old(fd1) + Tag(sink, bytes[..n]) else old(fd1)
    {
      n := Accepted(env, calls, |bytes|);
      calls := calls + 1;
      if n > 0 { fd1 := fd1 + Tag(sink, bytes[..n]); }
    }

    /** full_write(1, t_obuf, count) */
    method FullWrite(count: nat) returns (r: int)
      requires Valid() && count <= olen
      modifies this`fd1, this`calls, this`lost
      ensures Valid() && Now() == Output.FullWrite(env, old(Now()), obuf[..count])
      ensures r == count <==> lost == old(lost)
    {
      var total := 0;
      while total < count
        invariant total <= count && lost == old(lost)
        invariant Output.FullWrite(env, old(Now()), obuf[..count]) == Output.FullWrite(env, Now(), obuf[total..count])
        decreases count - total
      {
        ghost var t := Now();
        var n := Write(obuf[total..count]);
        ghost var left := obuf[total..count];
        if n <= 0 {
          lost := lost + (count - total);
          return if n < 0 then n else -1;
        }
        assert left[n..] == obuf[total + n..count];
        assert Now() == t.(calls := t.calls + 1, fd1 := t.fd1 + Tag(t.sink, left[..n]));
        total := total + n;
      }
      return total;
    }

    method Flush()
      requires Valid()
      modifies this`fd1, this`calls, this`lost, this`olen, this`origins, this`strayed
      ensures Valid() && Now() == Output.Flush(env, old(Now()))
    {
      ghost var t := Now();
      if olen != 0 {
        var _ := FullWrite(olen);
        FullWriteDelivers(env, t, t.buf);
        strayed := strayed + Differing(origins, sink);
        olen, origins := 0, [];
      }
    }

    method Put(c: Byte)
      requires Valid()
      modifies this`fd1, this`calls, this`lost, this`olen, this`origins, this`strayed, obuf
      ensures Valid() && Now() == Output.Put(env, old(Now()), c)
    {
      if olen == TIOBUF { Flush(); }
      obuf[olen] := c;
      olen, origins := olen + 1, origins + [sink];
    }

    /** TYPE */
    method Type(p: seq<Byte>)
      requires Valid()
      modifies this`fd1, this`calls, this`lost, this`olen, this`origins, this`strayed, obuf
      ensures Valid() && Now() == Output.Type(env, old(Now()), p)
    {
      for i := 0 to |p|
        invariant Valid() && Now() == Output.Type(env, old(Now()), p[..i])
      {
        assert p[..i + 1][..i] == p[..i];
        Put(p[i]);
      }
      assert p[..|p|] == p;
    }

    /** Everything else that flushes, as far as descriptor 1 goes. */
    method Perform(e: Event)
      requires Valid()
      modifies this, obuf
      ensures Valid() && Now() == Do(env, old(Now()), e)
    {
      match e
      case TypeOut(bytes) => Type(bytes);
      case WriteOut(fd, bytes) =>
        Flush();
        if fd == 1 {
          var _ := Write(bytes);
        } else {
          calls := calls + 1;
        }
      case Dup2(s) => sink := s;
      case CloseOne => sink := Closed;
      case OpenOne(id) => if sink.Closed? { sink := File(id); }
      case Die =>
      case _ => Flush();
    }

    method Serve(es: seq<Event>)
      requires Valid()
      modifies this, obuf
      ensures Valid() && Now() == Run(env, old(Now()), es)
    {
      for i := 0 to |es|
        invariant Valid() && Now() == Run(env, old(Now()), es[..i])
      {
        assert es[..i + 1][..i] == es[..i];
        Perform(es[i]);
      }
      assert es[..|es|] == es;
    }
  }
}
