/**
 Shallow-bound locals (docs/CV8.md 6.3, engine/cv8.c:936-950). The engine keeps a local in its
 variable's own cell: LSAVE pushes the old value on a save stack, LRESTORE pops it back. Here that
 is proved to be deep binding: a machine whose LSAVE opens a fresh binding of the slot, whose loads
 and stores go to the innermost binding, and whose LRESTORE just forgets it.
 */
module Locals {
  import opened Arithmetic
  import opened Cells
  import opened Instructions
  import opened PlainMachine
  import opened StackMachine

  datatype Binding = Binding(slot: nat, value: nat)

  /** globals is the memory under all bindings; env[|env| - 1] is the innermost. */
  datatype Deep = Deep(ip: nat, ds: seq<nat>, rs: seq<nat>, globals: Memory, env: seq<Binding>)

  function Last<T>(s: seq<T>): T
    requires s != []
  {
    s[|s| - 1]
  }

  function Front<T>(s: seq<T>): (r: seq<T>)
    requires s != []
    ensures |r| == |s| - 1 && s == r + [Last(s)]
  {
    s[..|s| - 1]
  }

  /** The visible value of the cell at a. */
  function Lookup(w: Width, g: Memory, env: seq<Binding>, a: nat): nat {
    if env == [] then Load(w, g, a)
    else if Last(env).slot == a then Last(env).value
    else Lookup(w, g, Front(env), a)
  }

  /** Storing v to the cell at a: to its innermost binding if it has one. */
  function Assign(w: Width, g: Memory, env: seq<Binding>, a: nat, v: nat): (r: (Memory, seq<Binding>))
    ensures |r.1| == |env|
    ensures forall k :: 0 <= k < |env| ==> r.1[k].slot == env[k].slot
  {
    if env == [] then (Store(w, g, a, v), [])
    else if Last(env).slot == a then (g, Front(env) + [Binding(a, Wrap(w, v))])
    else
      var (g', env') := Assign(w, g, Front(env), a, v);
      (g', env' + [Last(env)])
  }

  /** The n bytes at a are no part of a bound slot. */
  ghost predicate Unbound(w: Width, env: seq<Binding>, a: int, n: nat) {
    forall k :: 0 <= k < |env| ==> Apart(a, n, env[k].slot, CellBytes(w))
  }

  /** The n bytes at a are a bound slot exactly, or no part of any. */
  ghost predicate Whole(w: Width, env: seq<Binding>, a: int, n: nat) {
    forall k :: 0 <= k < |env| ==>
      (env[k].slot == a && n == CellBytes(w)) || Apart(a, n, env[k].slot, CellBytes(w))
  }

  ghost predicate ReadWhole(w: Width, env: seq<Binding>, r: Read) {
    match r
    case NoRead => true
    case ReadCell(a) => Whole(w, env, a, CellBytes(w))
    case ReadByte(a) => Whole(w, env, a, 1)
  }

  ghost predicate WriteWhole(w: Width, env: seq<Binding>, x: Write) {
    match x
    case NoWrite => true
    case WriteCell(a, _) => Whole(w, env, a, CellBytes(w))
    case WriteByte(a, _) => Whole(w, env, a, 1)
  }

  function ReadDeep(w: Width, g: Memory, env: seq<Binding>, r: Read): nat {
    match r
    case NoRead => 0
    case ReadCell(a) => Lookup(w, g, env, a)
    case ReadByte(a) => Get(g, a)
  }

  function WriteDeep(w: Width, g: Memory, env: seq<Binding>, x: Write): (Memory, seq<Binding>) {
    match x
    case NoWrite => (g, env)
    case WriteCell(a, v) => Assign(w, g, env, a, v)
    case WriteByte(a, v) => (g[a := v % 256], env)
  }

  /** The machine as the stack machine sees it, its memory the globals and its save stack only a depth. */
  function Bare(d: Deep): Abs {
    Abs(d.ip, d.ds, d.rs, d.globals, seq(|d.env|, _ => 0))
  }

  /** One instruction of the environment machine, not read from a bound slot; LRESTORE must name the innermost one. */
  ghost function StepDeep(c: Config, d: Deep): Outcome<Deep> {
    var (i, n) := DecodeAt(c, d.globals, d.ip);
    if !Outside(c, d.ip, 10) || !Unbound(c.w, d.env, d.ip, Reach(i, n)) then NoMeaning
    else ExecDeep(c, d, i, Wrap(c.w, d.ip + n))
  }

  /** The stacks and ip are t's; the instruction's write, or its binding, goes to the environment. */
  ghost function After(c: Config, d: Deep, i: Instr, e: Effect, t: Abs): Outcome<Deep>
    requires e.Effect?
  {
    if i.LSave? && |d.env| < LSAVE_MAX then
      if !Whole(c.w, d.env, i.a, c.C()) then NoMeaning
      else
        var b := Binding(i.a, Lookup(c.w, d.globals, d.env, i.a));
        Running(Deep(t.ip, t.ds, t.rs, d.globals, d.env + [b]))
    else if i.LRestore? && d.env != [] then
      if Last(d.env).slot != i.a then NoMeaning
      else Running(Deep(t.ip, t.ds, t.rs, d.globals, Front(d.env)))
    else if !WriteWhole(c.w, d.env, e.write) then NoMeaning
    else
      var (g, env) := WriteDeep(c.w, d.globals, d.env, e.write);
      Running(Deep(t.ip, t.ds, t.rs, g, env))
  }

  ghost function ExecDeep(c: Config, d: Deep, i: Instr, next: nat): Outcome<Deep> {
    var w, s := c.w, Bare(d);
    if |d.ds| < Args(i) || |d.rs| < RArgs(i) || i.SpStore? || i.RpStore? then NoMeaning
    else
      var args, rargs := d.ds[..Args(i)], d.rs[..RArgs(i)];
      var r := Reads(c, i, args, s.ls);
      if !ReadOutside(c, r) || !ReadWhole(w, d.env, r) then NoMeaning
      else if Spills(i) && Sp(c, s) < c.DLimit() then Trap(-3)
      else
        var e := Act(c, i, next, args, rargs, ReadDeep(w, d.globals, d.env, r), s.ls, Wrap(w, Sp(c, s)),
                     Wrap(w, Rp(c, s)));
        match ApplyAbs(c, s, i, e)
        case Running(t) => After(c, d, i, e, t)
        case Trap(code) => Trap(code)
        case Halted(status) => Halted(status)
        case HostCall(h) => HostCall(h)
        case NoMeaning => NoMeaning
  }

  ghost function RunDeep(c: Config, d: Deep, n: nat): Outcome<Deep> {
    if n == 0 then Running(d)
    else match RunDeep(c, d, n - 1)
      case Running(e) => StepDeep(c, e)
      case stop => stop
  }

  /** The engine's memory: every binding stored into its slot, innermost last. */
  function Overlay(w: Width, g: Memory, env: seq<Binding>): Memory {
    if env == [] then g else Store(w, Overlay(w, g, Front(env)), Last(env).slot, Last(env).value)
  }

  ghost predicate Same(m: Memory, m': Memory) {
    forall x :: Get(m, x) == Get(m', x)
  }

  ghost predicate EnvOk(w: Width, env: seq<Binding>) {
    && (forall k :: 0 <= k < |env| ==> env[k].value < Modulus(w))
    && (forall j, k :: 0 <= j < k < |env| ==>
          env[j].slot == env[k].slot || Apart(env[j].slot, CellBytes(w), env[k].slot, CellBytes(w)))
  }

  /** The save stack holds, for each binding, what was visible under it. */
  ghost predicate Saved(w: Width, g: Memory, env: seq<Binding>, ls: seq<nat>) {
    && |ls| == |env|
    && forall k :: 0 <= k < |env| ==> ls[k] == Lookup(w, g, env[..k], env[k].slot)
  }

  /** s is the engine's shallow form of d. */
  ghost predicate Shallow(c: Config, s: Abs, d: Deep) {
    && s.ip == d.ip && s.ds == d.ds && s.rs == d.rs
    && Same(s.mem, Overlay(c.w, d.globals, d.env)) && EnvOk(c.w, d.env) && Saved(c.w, d.globals, d.env, s.ls)
  }

  ghost predicate ShallowOutcome(c: Config, o: Outcome<Abs>, od: Outcome<Deep>) {
    match od
    case Running(d) => o.Running? && Shallow(c, o.s, d)
    case Trap(code) => o == Trap(code)
    case Halted(status) => o == Halted(status)
    case HostCall(h) => o == HostCall(h)
    case NoMeaning => true
  }

  // ---- overlaid memory -----------------------------------------------------

  lemma StoreSame(w: Width, m: Memory, m': Memory, a: int, v: nat)
    requires Same(m, m')
    ensures Same(Store(w, m, a, v), Store(w, m', a, v))
  {
    hide Store;
    StoreAgree(w, m, m', 0, 0, a, v);
  }

  lemma LoadOfSame(w: Width, m: Memory, m': Memory, a: int)
    requires Same(m, m')
    ensures Load(w, m, a) == Load(w, m', a)
  {
    LoadSame(m, m', a, CellBytes(w));
  }

  /** The later store to a cell wins. */
  lemma StoreTwice(w: Width, m: Memory, a: int, u: nat, v: nat)
    ensures Same(Store(w, Store(w, m, a, u), a, v), Store(w, m, a, v))
  {
    forall x
      ensures Get(Store(w, Store(w, m, a, u), a, v), x) == Get(Store(w, m, a, v), x)
    {
      var m1 := Store(w, m, a, u);
      if a <= x < a + CellBytes(w) {
        StoreInside(m1, m, a, v, CellBytes(w), x);
      } else {
        StoreOutside(m1, a, v, CellBytes(w), x);
        StoreOutside(m, a, v, CellBytes(w), x);
        StoreOutside(m, a, u, CellBytes(w), x);
      }
    }
  }

  /** Stores to different cells commute. */
  lemma StoreCommutes(w: Width, m: Memory, a: int, u: nat, b: int, v: nat)
    requires Apart(a, CellBytes(w), b, CellBytes(w))
    ensures Same(Store(w, Store(w, m, a, u), b, v), Store(w, Store(w, m, b, v), a, u))
  {
    var n := CellBytes(w);
    var ma, mb := Store(w, m, a, u), Store(w, m, b, v);
    forall x
      ensures Get(Store(w, ma, b, v), x) == Get(Store(w, mb, a, u), x)
    {
      if a <= x < a + n {
        StoreInside(m, mb, a, u, n, x);
        StoreOutside(ma, b, v, n, x);
      } else if b <= x < b + n {
        StoreInside(m, ma, b, v, n, x);
        StoreOutside(mb, a, u, n, x);
      } else {
        StoreOutside(ma, b, v, n, x);
        StoreOutside(m, a, u, n, x);
        StoreOutside(mb, a, u, n, x);
        StoreOutside(m, b, v, n, x);
      }
    }
  }

  lemma StoreWrapped(w: Width, m: Memory, a: int, v: nat)
    ensures Store(w, m, a, Wrap(w, v)) == Store(w, m, a, v)
  {
    Pow256Modulus(w);
    StoreTruncates(m, a, v, CellBytes(w));
  }

  lemma {:induction false} StoreTruncates(m: Memory, a: int, v: nat, n: nat)
    ensures StoreN(m, a, v % Pow256(n), n) == StoreN(m, a, v, n)
    decreases n
  {
    if n > 0 {
      var p := Pow256(n - 1);
      StoreTruncates(m, a + 1, v / 256, n - 1);
      TruncatedDigits(v, p);
    }
  }

  lemma TruncatedDigits(v: nat, p: nat)
    requires p >= 1
    ensures (v % (256 * p)) / 256 == (v / 256) % p && (v % (256 * p)) % 256 == v % 256
  {
    var m := 256 * p;
    var q, r := v / m, v % m;
    assert q * m == 256 * (q * p);
    assert v == 256 * (q * p + r / 256) + r % 256;
    DivMod(256, q * p + r / 256, r % 256);
    DivMod(p, q, r / 256);
  }

  lemma {:induction false} LookupBound(w: Width, g: Memory, env: seq<Binding>, a: nat)
    requires EnvOk(w, env)
    ensures Lookup(w, g, env, a) < Modulus(w)
  {
    hide Load;
    if env == [] {
      LoadBound(w, g, a);
    } else {
      LookupBound(w, g, Front(env), a);
    }
  }

  /** A load from the engine's memory is a lookup. */
  lemma {:induction false} OverlayLoad(w: Width, g: Memory, env: seq<Binding>, a: nat)
    requires EnvOk(w, env) && Whole(w, env, a, CellBytes(w))
    ensures Load(w, Overlay(w, g, env), a) == Lookup(w, g, env, a)
  {
    hide Load; hide Store;
    if env != [] {
      var m, b := Overlay(w, g, Front(env)), Last(env);
      OverlayLoad(w, g, Front(env), a);
      if b.slot == a {
        LoadStore(w, m, a, b.value);
      } else {
        LoadApart(w, m, b.slot, b.value, a);
      }
    }
  }

  lemma {:induction false} OverlayOutside(w: Width, g: Memory, env: seq<Binding>, x: int)
    requires forall k :: 0 <= k < |env| ==> Apart(x, 1, env[k].slot, CellBytes(w))
    ensures Get(Overlay(w, g, env), x) == Get(g, x)
  {
    if env != [] {
      OverlayOutside(w, g, Front(env), x);
      assert Apart(x, 1, Last(env).slot, CellBytes(w));
      StoreOutside(Overlay(w, g, Front(env)), Last(env).slot, Last(env).value, CellBytes(w), x);
    }
  }

  /** A store to the engine's memory is an assignment. */
  lemma {:induction false} OverlayAssign(w: Width, g: Memory, env: seq<Binding>, a: nat, v: nat)
    requires Whole(w, env, a, CellBytes(w))
    ensures
      var (g', env') := Assign(w, g, env, a, v);
      Same(Store(w, Overlay(w, g, env), a, v), Overlay(w, g', env'))
  {
    hide Store; hide Get;
    if env != [] {
      var m, b := Overlay(w, g, Front(env)), Last(env);
      var (g', env') := Assign(w, g, env, a, v);
      if b.slot == a {
        StoreTwice(w, m, a, b.value, v);
        StoreWrapped(w, m, a, v);
        assert Front(env') == Front(env);
      } else {
        var (g1, env1) := Assign(w, g, Front(env), a, v);
        OverlayAssign(w, g, Front(env), a, v);
        StoreCommutes(w, m, b.slot, b.value, a, v);
        StoreSame(w, Store(w, m, a, v), Overlay(w, g1, env1), b.slot, b.value);
        assert Front(env') == env1;
      }
    }
  }

  lemma {:induction false} OverlayByte(w: Width, g: Memory, env: seq<Binding>, a: int, v: Byte)
    requires Whole(w, env, a, 1)
    ensures Same(Overlay(w, g, env)[a := v], Overlay(w, g[a := v], env))
  {
    if env != [] {
      var m, b := Overlay(w, g, Front(env)), Last(env);
      OverlayByte(w, g, Front(env), a, v);
      StoreSame(w, m[a := v], Overlay(w, g[a := v], Front(env)), b.slot, b.value);
      var p, q, n := Store(w, m, b.slot, b.value)[a := v], Store(w, m[a := v], b.slot, b.value), CellBytes(w);
      forall x
        ensures Get(p, x) == Get(q, x)
      {
        if b.slot <= x < b.slot + n {
          StoreInside(m, m[a := v], b.slot, b.value, n, x);
        } else {
          StoreOutside(m, b.slot, b.value, n, x);
          StoreOutside(m[a := v], b.slot, b.value, n, x);
        }
      }
    }
  }

  /** An assignment leaves every other cell's visible value alone. */
  lemma {:induction false} AssignOther(w: Width, g: Memory, env: seq<Binding>, a: nat, v: nat, b: nat)
    requires Apart(a, CellBytes(w), b, CellBytes(w))
    ensures
      var (g', env') := Assign(w, g, env, a, v);
      Lookup(w, g', env', b) == Lookup(w, g, env, b)
  {
    hide Load; hide Store;
    if env == [] {
      LoadApart(w, g, a, v, b);
    } else {
      AssignOther(w, g, Front(env), a, v, b);
      var (g', env') := Assign(w, g, env, a, v);
      if Last(env).slot == a {
        assert Front(env') == Front(env);
      } else {
        assert Front(env') == Assign(w, g, Front(env), a, v).1;
      }
    }
  }

  /** An assignment never reaches what is saved under the binding it goes to. */
  lemma {:induction false} AssignUnder(w: Width, g: Memory, env: seq<Binding>, a: nat, v: nat, k: nat)
    requires Whole(w, env, a, CellBytes(w)) && k < |env|
    ensures
      var (g', env') := Assign(w, g, env, a, v);
      Lookup(w, g', env'[..k], env[k].slot) == Lookup(w, g, env[..k], env[k].slot)
    decreases |env|
  {
    hide Load; hide Store;
    var (g', env') := Assign(w, g, env, a, v);
    if Last(env).slot == a {
      assert env'[..k] == env[..k];
    } else {
      var (g1, env1) := Assign(w, g, Front(env), a, v);
      if k < |env| - 1 {
        AssignUnder(w, g, Front(env), a, v, k);
        assert env'[..k] == env1[..k] && env[..k] == Front(env)[..k];
      } else {
        AssignOther(w, g, Front(env), a, v, env[k].slot);
        assert env'[..k] == env1 && env[..k] == Front(env);
      }
    }
  }

  lemma {:induction false} LookupByte(w: Width, g: Memory, env: seq<Binding>, a: int, v: Byte, b: nat)
    requires Apart(a, 1, b, CellBytes(w))
    ensures Lookup(w, g[a := v], env, b) == Lookup(w, g, env, b)
  {
    if env == [] {
      LoadSame(g[a := v], g, b, CellBytes(w));
    } else {
      LookupByte(w, g, Front(env), a, v, b);
    }
  }

  lemma EnvOkAssign(w: Width, g: Memory, env: seq<Binding>, a: nat, v: nat)
    requires EnvOk(w, env)
    ensures EnvOk(w, Assign(w, g, env, a, v).1)
  {
    AssignValues(w, g, env, a, v);
  }

  lemma {:induction false} AssignValues(w: Width, g: Memory, env: seq<Binding>, a: nat, v: nat)
    requires forall k :: 0 <= k < |env| ==> env[k].value < Modulus(w)
    ensures forall k :: 0 <= k < |env| ==> Assign(w, g, env, a, v).1[k].value < Modulus(w)
  {
    hide Store;
    if env != [] && Last(env).slot != a {
      AssignValues(w, g, Front(env), a, v);
    }
  }

  /** What the save stack stands for does not change with a write. */
  lemma WriteSaved(c: Config, g: Memory, env: seq<Binding>, ls: seq<nat>, x: Write)
    requires EnvOk(c.w, env) && Saved(c.w, g, env, ls) && WriteWhole(c.w, env, x)
    ensures
      var (g', env') := WriteDeep(c.w, g, env, x);
      && EnvOk(c.w, env') && Saved(c.w, g', env', ls)
      && Same(DoWrite(c.w, Overlay(c.w, g, env), x), Overlay(c.w, g', env'))
  {
    hide Load; hide Store; hide Lookup; hide Overlay; hide Assign; hide Get;
    var w := c.w;
    match x
    case NoWrite =>
    case WriteCell(a, v) =>
      OverlayAssign(w, g, env, a, v);
      EnvOkAssign(w, g, env, a, v);
      forall k | 0 <= k < |env|
        ensures ls[k] == Lookup(w, Assign(w, g, env, a, v).0, Assign(w, g, env, a, v).1[..k], env[k].slot)
      {
        AssignUnder(w, g, env, a, v, k);
      }
    case WriteByte(a, v) =>
      OverlayByte(w, g, env, a, v % 256);
      forall k | 0 <= k < |env|
        ensures ls[k] == Lookup(w, g[a := v % 256], env[..k], env[k].slot)
      {
        LookupByte(w, g, env[..k], a, v % 256, env[k].slot);
      }
  }

  /** LSAVE opens a binding with the value the slot has: the engine's memory does not change. */
  lemma BindSaved(c: Config, g: Memory, env: seq<Binding>, ls: seq<nat>, a: nat)
    requires EnvOk(c.w, env) && Saved(c.w, g, env, ls) && Whole(c.w, env, a, c.C())
    ensures
      var v := Lookup(c.w, g, env, a);
      var env' := env + [Binding(a, v)];
      EnvOk(c.w, env') && Saved(c.w, g, env', ls + [v]) && Same(Overlay(c.w, g, env), Overlay(c.w, g, env'))
  {
    hide Lookup; hide Load; hide Store; hide Get;
    var w, v := c.w, Lookup(c.w, g, env, a);
    var env' := env + [Binding(a, v)];
    LookupBound(w, g, env, a);
    OverlayLoad(w, g, env, a);
    assert Front(env') == env;
    StoreBack(w, Overlay(w, g, env), a);
    forall k | 0 <= k < |env'|
      ensures (ls + [v])[k] == Lookup(w, g, env'[..k], env'[k].slot)
    {
      assert env'[..k] == if k < |env| then env[..k] else env;
    }
  }

  lemma StoreBack(w: Width, m: Memory, a: int)
    ensures Same(m, Store(w, m, a, Load(w, m, a)))
  {
    forall x
      ensures Get(Store(w, m, a, Load(w, m, a)), x) == Get(m, x)
    {
      StoreLoaded(m, a, CellBytes(w), x);
    }
  }

  /** LRESTORE forgets the innermost binding: storing the saved value brings back what was under it. */
  lemma UnbindSaved(c: Config, g: Memory, env: seq<Binding>, ls: seq<nat>)
    requires env != [] && EnvOk(c.w, env) && Saved(c.w, g, env, ls)
    ensures
      && EnvOk(c.w, Front(env)) && Saved(c.w, g, Front(env), Front(ls))
      && Same(Store(c.w, Overlay(c.w, g, env), Last(env).slot, Last(ls)), Overlay(c.w, g, Front(env)))
  {
    hide Lookup; hide Load; hide Store; hide Get;
    var w, under, a := c.w, Overlay(c.w, g, Front(env)), Last(env).slot;
    OverlayLoad(w, g, Front(env), a);
    assert env[..|env| - 1] == Front(env);
    assert Last(ls) == Load(w, under, a);
    StoreTwice(w, under, a, Last(env).value, Last(ls));
    StoreBack(w, under, a);
    forall k | 0 <= k < |env| - 1
      ensures Front(ls)[k] == Lookup(w, g, Front(env)[..k], Front(env)[k].slot)
    {
      assert Front(env)[..k] == env[..k];
    }
  }

  /** The save stack's contents matter to LRESTORE alone. */
  lemma ActSaves(c: Config, i: Instr, next: nat, args: seq<nat>, rargs: seq<nat>, v: nat, ls: seq<nat>, ls': seq<nat>,
                 sp: nat, rp: nat)
    requires |args| == Args(i) && |rargs| == RArgs(i) && |ls| == |ls'|
    ensures
      var e, e' := Act(c, i, next, args, rargs, v, ls, sp, rp), Act(c, i, next, args, rargs, v, ls', sp, rp);
      if i.LSave? && |ls| < LSAVE_MAX then e == Stack(next, 0, [], ls + [v]) && e' == Stack(next, 0, [], ls' + [v])
      else if i.LRestore? && ls != [] then
        && e == Effect(next, 0, [], 0, [], WriteCell(i.a, Last(ls)), Front(ls))
        && e' == Effect(next, 0, [], 0, [], WriteCell(i.a, Last(ls')), Front(ls'))
      else if e.Effect? then e' == e.(ls := ls') && e.ls == ls
      else e' == e
  {
    hide Wrap; hide UnVal; hide BinVal; hide Double; hide High; hide Low; hide Quotient; hide Remainder;
    match i
    case LSave(_) =>
    case LRestore(_) =>
    case UmStar | UmDiv | DPlus | Binary(_) | Unary(_) =>
    case _ =>
  }

  /** What an instruction loads is the same on both sides. */
  lemma ReadShallow(c: Config, s: Abs, d: Deep, r: Read)
    requires Shallow(c, s, d) && ReadWhole(c.w, d.env, r)
    ensures DoRead(c.w, s.mem, r) == ReadDeep(c.w, d.globals, d.env, r)
  {
    hide Load; hide Store; hide Lookup; hide Overlay; hide Get;
    match r
    case NoRead =>
    case ReadCell(a) =>
      OverlayLoad(c.w, d.globals, d.env, a);
      LoadOfSame(c.w, s.mem, Overlay(c.w, d.globals, d.env), a);
    case ReadByte(a) =>
      OverlayOutside(c.w, d.globals, d.env, a);
  }

  /** The same effect, saves apart, on both sides. */
  lemma ApplyShallow(c: Config, s: Abs, d: Deep, i: Instr, e: Effect, e': Effect)
    requires Shallow(c, s, d)
    requires e.Effect? ==> e.drop <= |s.ds| && e.rdrop <= |s.rs|
    requires
      if e.Effect? then
        e'.Effect? && e == e'.(ls := e.ls, write := e.write) && WriteOutside(c, e.write) == WriteOutside(c, e'.write)
      else e' == e
    ensures
      var o, o' := ApplyAbs(c, s, i, e), ApplyAbs(c, Bare(d), i, e');
      if o'.Running? then
        && o.Running? && o.s.ip == o'.s.ip && o.s.ds == o'.s.ds && o.s.rs == o'.s.rs
        && o.s.ls == e.ls && o.s.mem == DoWrite(c.w, s.mem, e.write)
      else o == o'
  {
    hide LowestTouch; hide DoWrite; hide WriteOutside; hide WriteTrap; hide Config.DLimit; hide Config.RFloor;
    hide Overlay; hide Lookup;
  }

  /** The environment and the engine's memory and save stack after the same effect. */
  lemma EffectShallow(c: Config, s: Abs, d: Deep, i: Instr, e: Effect, e': Effect, v: nat, t: Abs, t': Abs)
    requires Shallow(c, s, d) && e.Effect? && e'.Effect?
    requires t.ip == t'.ip && t.ds == t'.ds && t.rs == t'.rs && t.ls == e.ls && t.mem == DoWrite(c.w, s.mem, e.write)
    requires
      if i.LSave? && |s.ls| < LSAVE_MAX then
        e.write == NoWrite && e.ls == s.ls + [v]
        && (Whole(c.w, d.env, i.a, c.C()) ==> v == Lookup(c.w, d.globals, d.env, i.a))
      else if i.LRestore? && s.ls != [] then
        e.write == WriteCell(i.a, Last(s.ls)) && e.ls == Front(s.ls)
      else e.write == e'.write && e.ls == s.ls
    ensures ShallowOutcome(c, Running(t), After(c, d, i, e', t'))
  {
    hide Overlay; hide Lookup; hide Load; hide Store; hide Get; hide Assign; hide WriteDeep; hide WriteWhole;
    hide Whole;
    hide EnvOk;
    var w, g, env := c.w, d.globals, d.env;
    if i.LSave? && |env| < LSAVE_MAX {
      if Whole(w, env, i.a, c.C()) {
        BindSaved(c, g, env, s.ls, i.a);
      }
    } else if i.LRestore? && env != [] {
      if Last(env).slot == i.a {
        UnbindSaved(c, g, env, s.ls);
        StoreSame(w, s.mem, Overlay(w, g, env), i.a, Last(s.ls));
      }
    } else if WriteWhole(w, env, e.write) {
      WriteSaved(c, g, env, s.ls, e.write);
      WriteOfSame(w, s.mem, Overlay(w, g, env), e.write);
    }
  }

  lemma WriteOfSame(w: Width, m: Memory, m': Memory, x: Write)
    requires Same(m, m')
    ensures Same(DoWrite(w, m, x), DoWrite(w, m', x))
  {
    match x
    case NoWrite =>
    case WriteCell(a, v) => StoreSame(w, m, m', a, v);
    case WriteByte(a, v) => ByteAgree(m, m', 0, 0, a, v % 256);
  }

  lemma ExecShallow(c: Config, s: Abs, d: Deep, i: Instr, next: nat)
    requires Shallow(c, s, d)
    ensures ShallowOutcome(c, ExecAbs(c, s, i, next), ExecDeep(c, d, i, next))
  {
    hide Act; hide ApplyAbs; hide Overlay; hide Lookup; hide Load; hide Get; hide Wrap; hide Args; hide RArgs;
    hide ReadOutside; hide ReadWhole; hide WriteOutside; hide Assign; hide EnvOk; hide Saved; hide Whole; hide Same;
    hide Shallow; hide DoRead; hide DoWrite; hide WriteDeep; hide WriteWhole; hide After; hide ReadDeep; hide Reads;
    hide Spills; hide Config.DLimit;
    if ExecDeep(c, d, i, next).NoMeaning? { return; }
    var w, b := c.w, Bare(d);
    SavesOnly(c, s, d);
    var args, rargs := s.ds[..Args(i)], s.rs[..RArgs(i)];
    var r := Reads(c, i, args, s.ls);
    ReadsByDepth(c, i, args, s.ls, b.ls, d);
    ReadShallow(c, s, d, r);
    if Spills(i) && Sp(c, s) < c.DLimit() { return; }
    var v := DoRead(w, s.mem, r);
    ActSaves(c, i, next, args, rargs, v, s.ls, b.ls, Wrap(w, Sp(c, s)), Wrap(w, Rp(c, s)));
    var e := Act(c, i, next, args, rargs, v, s.ls, Wrap(w, Sp(c, s)), Wrap(w, Rp(c, s)));
    var e' := Act(c, i, next, args, rargs, v, b.ls, Wrap(w, Sp(c, s)), Wrap(w, Rp(c, s)));
    if e.Effect? {
      SameWhere(c, e, e');
    }
    ApplyShallow(c, s, d, i, e, e');
    if ApplyAbs(c, b, i, e').Running? {
      EffectShallow(c, s, d, i, e, e', v, ApplyAbs(c, s, i, e).s, ApplyAbs(c, b, i, e').s);
    }
  }

  lemma ReadsByDepth(c: Config, i: Instr, args: seq<nat>, ls: seq<nat>, ls': seq<nat>, d: Deep)
    requires |args| == Args(i) && |ls| == |ls'|
    ensures Reads(c, i, args, ls') == Reads(c, i, args, ls)
    ensures i.LSave? && |ls| < LSAVE_MAX ==>
      ReadDeep(c.w, d.globals, d.env, Reads(c, i, args, ls)) == Lookup(c.w, d.globals, d.env, i.a)
  {
    hide Lookup;
  }

  lemma SavesOnly(c: Config, s: Abs, d: Deep)
    requires Shallow(c, s, d)
    ensures |s.ls| == |Bare(d).ls| == |d.env| && s.ds == d.ds && s.rs == d.rs && s.ip == d.ip
  {
  }

  lemma SameWhere(c: Config, e: Effect, e': Effect)
    requires e.Effect? && e'.Effect?
    requires e.write == e'.write || (e.write.WriteCell? && e'.write.WriteCell? && e.write.a == e'.write.a)
    ensures WriteOutside(c, e.write) == WriteOutside(c, e'.write)
  {
  }

  lemma StepShallow(c: Config, s: Abs, d: Deep)
    requires Shallow(c, s, d)
    ensures ShallowOutcome(c, StepAbs(c, s), StepDeep(c, d))
  {
    hide Decode; hide ExecAbs; hide ExecDeep; hide Overlay; hide Get;
    var (i, n) := DecodeAt(c, d.globals, d.ip);
    if Outside(c, d.ip, 10) && Unbound(c.w, d.env, d.ip, Reach(i, n)) {
      forall x | d.ip <= x < d.ip + Reach(i, n)
        ensures Get(s.mem, x) == Get(d.globals, x)
      {
        OverlayOutside(c.w, d.globals, d.env, x);
      }
      DecodeAtReach(c, d.globals, s.mem, d.ip);
      ExecShallow(c, s, d, i, Wrap(c.w, s.ip + n));
    }
  }

  /**
   The program keeps to whole slots where one is bound: no code in them, no byte of them fetched or stored,
   and LRESTORE names the innermost.
   */
  ghost predicate Tidy(c: Config, s: Abs, env: seq<Binding>) {
    var (i, n) := DecodeAt(c, s.mem, s.ip);
    && Unbound(c.w, env, s.ip, Reach(i, n))
    && (i.LRestore? && env != [] ==> Last(env).slot == i.a)
    && (Args(i) <= |s.ds| ==>
          var args := s.ds[..Args(i)];
          && ReadWhole(c.w, env, Reads(c, i, args, s.ls))
          && match i
             case StoreCell | PlusStore => Whole(c.w, env, args[0], c.C())
             case CStore => Whole(c.w, env, args[0], 1)
             case VarStore(a) => Whole(c.w, env, a, c.C())
             case LZero(a) => Whole(c.w, env, a, c.C())
             case LSave(a) => Whole(c.w, env, a, c.C())
             case _ => true)
  }

  /** Where i writes, if it restores no local. */
  lemma ActWrites(c: Config, i: Instr, next: nat, args: seq<nat>, rargs: seq<nat>, v: nat, ls: seq<nat>, sp: nat,
                  rp: nat)
    requires |args| == Args(i) && |rargs| == RArgs(i) && (i.LRestore? ==> ls == [])
    ensures
      var e := Act(c, i, next, args, rargs, v, ls, sp, rp);
      e.Effect? ==>
        match e.write
        case NoWrite => true
        case WriteByte(a, _) => i.CStore? && a == args[0]
        case WriteCell(a, _) =>
          || ((i.StoreCell? || i.PlusStore?) && a == args[0])
          || ((i.VarStore? || i.LZero?) && a == i.a)
  {
    hide Wrap; hide UnVal; hide BinVal; hide Double; hide High; hide Low; hide Quotient; hide Remainder;
    match i
    case LSave(_) =>
    case LRestore(_) =>
    case UmStar | UmDiv | DPlus | Binary(_) | Unary(_) =>
    case _ =>
  }

  /** Then the environment machine has a meaning wherever the engine's has one. */
  lemma DeepFollows(c: Config, s: Abs, d: Deep)
    requires Shallow(c, s, d) && Tidy(c, s, d.env) && !StepAbs(c, s).NoMeaning?
    ensures !StepDeep(c, d).NoMeaning?
  {
    hide Decode; hide ExecAbs; hide ExecDeep; hide Overlay; hide Get; hide Reads; hide Whole; hide ReadWhole;
    var (i, n) := DecodeAt(c, s.mem, s.ip);
    forall x | s.ip <= x < s.ip + Reach(i, n)
      ensures Get(s.mem, x) == Get(d.globals, x)
    {
      OverlayOutside(c.w, d.globals, d.env, x);
    }
    DecodeAtReach(c, s.mem, d.globals, s.ip);
    ExecFollows(c, s, d, i, Wrap(c.w, s.ip + n));
  }

  lemma ExecFollows(c: Config, s: Abs, d: Deep, i: Instr, next: nat)
    requires Shallow(c, s, d) && !ExecAbs(c, s, i, next).NoMeaning?
    requires Tidy(c, s, d.env) && DecodeAt(c, s.mem, s.ip).0 == i
    ensures !ExecDeep(c, d, i, next).NoMeaning?
  {
    hide Act; hide ApplyAbs; hide Overlay; hide Lookup; hide Load; hide Get; hide Wrap; hide Args; hide RArgs;
    hide DecodeAt;
    hide ReadOutside; hide ReadWhole; hide WriteOutside; hide Assign; hide EnvOk; hide Saved; hide Same; hide Unbound;
    hide Shallow; hide DoRead; hide DoWrite; hide WriteDeep; hide After; hide ReadDeep; hide Reads; hide Whole;
    hide Reach;
    var w, b := c.w, Bare(d);
    SavesOnly(c, s, d);
    var args, rargs := s.ds[..Args(i)], s.rs[..RArgs(i)];
    var r := Reads(c, i, args, s.ls);
    ReadsByDepth(c, i, args, s.ls, b.ls, d);
    ReadShallow(c, s, d, r);
    if Spills(i) && Sp(c, s) < c.DLimit() { return; }
    var v := DoRead(w, s.mem, r);
    ActSaves(c, i, next, args, rargs, v, s.ls, b.ls, Wrap(w, Sp(c, s)), Wrap(w, Rp(c, s)));
    var e := Act(c, i, next, args, rargs, v, s.ls, Wrap(w, Sp(c, s)), Wrap(w, Rp(c, s)));
    var e' := Act(c, i, next, args, rargs, v, b.ls, Wrap(w, Sp(c, s)), Wrap(w, Rp(c, s)));
    if e.Effect? { SameWhere(c, e, e'); }
    ApplyShallow(c, s, d, i, e, e');
    if ApplyAbs(c, b, i, e').Running? {
      AfterFollows(c, d, i, e', ApplyAbs(c, b, i, e').s) by {
        if i.LRestore? ==> d.env == [] {
          ActWrites(c, i, next, args, rargs, v, b.ls, Wrap(w, Sp(c, s)), Wrap(w, Rp(c, s)));
        }
      }
    }
  }

  lemma AfterFollows(c: Config, d: Deep, i: Instr, e: Effect, t: Abs)
    requires e.Effect?
    requires i.LSave? && |d.env| < LSAVE_MAX ==> Whole(c.w, d.env, i.a, c.C())
    requires i.LRestore? && d.env != [] ==> Last(d.env).slot == i.a
    requires (i.LRestore? && d.env != []) || (i.LSave? && |d.env| < LSAVE_MAX) || WriteWhole(c.w, d.env, e.write)
    ensures After(c, d, i, e, t).Running?
  {
  }

  /** Shallow binding is deep binding, over every run: at each step every slot reads as its innermost binding. */
  lemma {:induction false} ShallowIsDeep(c: Config, s: Abs, d: Deep, n: nat)
    requires Shallow(c, s, d)
    ensures ShallowOutcome(c, RunAbs(c, s, n), RunDeep(c, d, n))
    ensures RunDeep(c, d, n).Running? ==>
      forall k :: 0 <= k < |RunDeep(c, d, n).s.env| ==>
        var e := RunDeep(c, d, n).s;
        Load(c.w, RunAbs(c, s, n).s.mem, e.env[k].slot) == Lookup(c.w, e.globals, e.env, e.env[k].slot)
  {
    hide StepAbs; hide StepDeep; hide Overlay; hide Lookup; hide Load; hide Get; hide Saved;
    if n > 0 {
      ShallowIsDeep(c, s, d, n - 1);
      if RunDeep(c, d, n - 1).Running? {
        StepShallow(c, RunAbs(c, s, n - 1).s, RunDeep(c, d, n - 1).s);
      }
    }
    if RunDeep(c, d, n).Running? {
      var a, e := RunAbs(c, s, n).s, RunDeep(c, d, n).s;
      forall k | 0 <= k < |e.env|
        ensures Load(c.w, a.mem, e.env[k].slot) == Lookup(c.w, e.globals, e.env, e.env[k].slot)
      {
        WholeSlots(c.w, e.env, k);
        OverlayLoad(c.w, e.globals, e.env, e.env[k].slot);
        LoadOfSame(c.w, a.mem, Overlay(c.w, e.globals, e.env), e.env[k].slot);
      }
    }
  }

  lemma WholeSlots(w: Width, env: seq<Binding>, k: nat)
    requires EnvOk(w, env) && k < |env|
    ensures Whole(w, env, env[k].slot, CellBytes(w))
  {
  }

  // ---- what a caller finds -------------------------------------------------

  /** Assignments under k bindings leave alone the slot bound at k, below that binding. */
  lemma StepKeepsCaller(c: Config, d: Deep, k: nat)
    requires k < |d.env| && EnvOk(c.w, d.env) && StepDeep(c, d).Running? && k < |StepDeep(c, d).s.env|
    ensures
      var a, d' := d.env[k].slot, StepDeep(c, d).s;
      && d'.env[k].slot == a && EnvOk(c.w, d'.env)
      && Lookup(c.w, d'.globals, d'.env[..k], a) == Lookup(c.w, d.globals, d.env[..k], a)
  {
    hide Decode; hide Act; hide ApplyAbs; hide Lookup; hide Load; hide Store; hide Assign; hide EnvOk;
    var (i, n) := DecodeAt(c, d.globals, d.ip);
    var b := Bare(d);
    var args := d.ds[..Args(i)];
    var r := Reads(c, i, args, b.ls);
    var e := Act(c, i, Wrap(c.w, d.ip + n), args, d.rs[..RArgs(i)], ReadDeep(c.w, d.globals, d.env, r), b.ls,
                 Wrap(c.w, Sp(c, b)), Wrap(c.w, Rp(c, b)));
    AfterKeepsCaller(c, d, i, e, ApplyAbs(c, b, i, e).s, k);
  }

  lemma AfterKeepsCaller(c: Config, d: Deep, i: Instr, e: Effect, t: Abs, k: nat)
    requires e.Effect? && k < |d.env| && EnvOk(c.w, d.env)
    requires After(c, d, i, e, t).Running? && k < |After(c, d, i, e, t).s.env|
    ensures
      var a, d' := d.env[k].slot, After(c, d, i, e, t).s;
      && d'.env[k].slot == a && EnvOk(c.w, d'.env)
      && Lookup(c.w, d'.globals, d'.env[..k], a) == Lookup(c.w, d.globals, d.env[..k], a)
  {
    hide Lookup; hide Load; hide Store; hide Assign;
    var w, g, env, d' := c.w, d.globals, d.env, After(c, d, i, e, t).s;
    if i.LSave? && |env| < LSAVE_MAX {
      LookupBound(w, g, env, i.a);
      assert d'.env[..k] == env[..k];
    } else if i.LRestore? && env != [] {
      assert d'.env[..k] == env[..k];
    } else {
      match e.write
      case NoWrite =>
      case WriteCell(a, v) =>
        AssignUnder(w, g, env, a, v, k);
        EnvOkAssign(w, g, env, a, v);
      case WriteByte(a, v) =>
        LookupByte(w, g, env[..k], a, v % 256, env[k].slot);
    }
  }

  /**
   Whatever a word and the words it calls do while its binding of a slot is open, its caller finds
   the slot's value unchanged once it is closed.
   */
  lemma {:induction false} CallerUnchanged(c: Config, d: Deep, k: nat, n: nat)
    requires k < |d.env| && EnvOk(c.w, d.env) && RunDeep(c, d, n).Running?
    requires forall j :: 0 <= j <= n && RunDeep(c, d, j).Running? ==> k < |RunDeep(c, d, j).s.env|
    ensures
      var a, d' := d.env[k].slot, RunDeep(c, d, n).s;
      && d'.env[k].slot == a && EnvOk(c.w, d'.env)
      && Lookup(c.w, d'.globals, d'.env[..k], a) == Lookup(c.w, d.globals, d.env[..k], a)
  {
    hide StepDeep; hide Lookup; hide EnvOk;
    if n > 0 {
      CallerUnchanged(c, d, k, n - 1);
      StepKeepsCaller(c, RunDeep(c, d, n - 1).s, k);
    }
  }

  // ---- the limits ----------------------------------------------------------

  /** A full or empty save stack diverts to LOCALS-FAILED before any slot or saved cell is touched. */
  lemma LocalsDivert(c: Config, s: Abs, i: Instr, next: nat)
    requires c.Valid() && Sp(c, s) >= c.DLimit() && Rp(c, s) >= c.RFloor() + c.C()
    requires (i.LSave? && |s.ls| >= LSAVE_MAX) || (i.LRestore? && s.ls == [])
    ensures
      var word := Load(c.w, s.mem, c.base + 8);
      ExecAbs(c, s, i, next) ==
      if word == 0 then Halted(70)
      else Running(s.(ip := Wrap(c.w, c.base + word), ds := [if i.LSave? then 1 else 2] + s.ds, rs := [next] + s.rs))
  {
    hide Load; hide Wrap;
    assert s.ds[0..] == s.ds && s.rs[0..] == s.rs;
  }

  /** The save stack never holds more than its 4096 cells. */
  lemma {:induction false} DepthBounded(c: Config, s: Abs, n: nat)
    requires |s.ls| <= LSAVE_MAX && RunAbs(c, s, n).Running?
    ensures |RunAbs(c, s, n).s.ls| <= LSAVE_MAX
  {
    hide StepAbs;
    if n > 0 {
      DepthBounded(c, s, n - 1);
      StepDepth(c, RunAbs(c, s, n - 1).s);
    }
  }

  lemma StepDepth(c: Config, s: Abs)
    requires |s.ls| <= LSAVE_MAX && StepAbs(c, s).Running?
    ensures |StepAbs(c, s).s.ls| <= LSAVE_MAX
  {
    hide Decode; hide Wrap; hide UnVal; hide BinVal; hide Double; hide High; hide Low; hide Quotient; hide Remainder;
    hide LowestTouch; hide WriteOutside; hide ReadOutside; hide Load; hide Get; hide DoWrite;
  }
}
