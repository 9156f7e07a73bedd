/**
 What the Forth compiler makes of the sources that tools/dead-words.py shortens: every name a line
 defines, not only the first (tools/dead-words.py:84-105), a colon definition visible from its `;` on
 (forth/kernel.4:1370-1374, 1647-1651). Deleting keeps this reading exactly when no survivor uses a
 deleted definition that the tool does not take it to use.
 */
module ForthReading {
  import opened DeadWords

  /** A definition: the item that makes it, and which of its words is the name. */
  type Place = (nat, nat)

  /** Between words: interpreting, about to read a name, or inside a colon definition not yet visible. */
  datatype Mode = Interpreting | Naming(colon: bool) | Compiling(name: string, at: Place)

  /** env is what each name means by now. */
  datatype Forth = Forth(env: map<string, Place>, mode: Mode)

  const BLANK := Forth(map[], Interpreting)

  /** An item's words, as they stand in the sources. */
  function Words(it: Item): seq<string> {
    match it
    case Colon(name, body) => [":", name] + body
    case Define(name, before, after) => before + [name] + after
    case Assign(xt, defer, rest) => ["'", xt, "IS", defer] + rest
    case Line(words) => words
  }

  /** The place of the name the tool knows the item's definition by. */
  function NameAt(it: Item): nat
    requires Defines(it)
  {
    if it.Colon? then 1 else |it.before|
  }

  /** One word at place; definers are the defining words but `:`. */
  function Take(f: Forth, definers: set<string>, place: Place, w: string): Forth {
    match f.mode
    case Interpreting =>
      if w == ":" then f.(mode := Naming(true)) else if w in definers then f.(mode := Naming(false)) else f
    case Naming(colon) => if colon then f.(mode := Compiling(w, place)) else Forth(f.env[w := place], Interpreting)
    case Compiling(name, at) => if w == ";" then Forth(f.env[name := at], Interpreting) else f
  }

  /** The first p words of item id. */
  function TakeWords(f: Forth, definers: set<string>, id: nat, words: seq<string>, p: nat): Forth
    requires p <= |words|
  {
    if p == 0 then f else Take(TakeWords(f, definers, id, words, p - 1), definers, (id, p - 1), words[p - 1])
  }

  /** A defining word at the end of an item finds no name. */
  function EndItem(f: Forth): Forth {
    if f.mode.Naming? then f.(mode := Interpreting) else f
  }

  /** Items with the numbers they had in the whole sources. */
  type Source = seq<(nat, Item)>

  function Scan(src: Source, definers: set<string>): Forth {
    if src == [] then BLANK
    else
      var (id, it) := src[|src| - 1];
      EndItem(TakeWords(Scan(src[..|src| - 1], definers), definers, id, Words(it), |Words(it)|))
  }

  function Numbered(items: seq<Item>, n: nat): Source
    requires n <= |items|
  {
    if n == 0 then [] else Numbered(items, n - 1) + [(n - 1, items[n - 1])]
  }

  /** The items before the n-th that survive. */
  function Shortened(items: seq<Item>, n: nat, reach: set<nat>): Source
    requires n <= |items|
  {
    if n == 0 then []
    else Shortened(items, n - 1, reach) + if Survives(items, n - 1, reach) then [(n - 1, items[n - 1])] else []
  }

  /** They are what --delete leaves. */
  lemma {:induction false} ShortenedIsKept(items: seq<Item>, n: nat, reach: set<nat>)
    requires n <= |items|
    ensures |Shortened(items, n, reach)| == |Kept(items, n, reach)|
    ensures forall k :: 0 <= k < |Kept(items, n, reach)| ==> Shortened(items, n, reach)[k].1 == Kept(items, n, reach)[k]
  {
    if n > 0 {
      ShortenedIsKept(items, n - 1, reach);
    }
  }

  /** The state before word p of item i, in the whole sources and in the shortened ones. */
  function Whole(items: seq<Item>, definers: set<string>, i: nat, p: nat): Forth
    requires i < |items| && p <= |Words(items[i])|
  {
    TakeWords(Scan(Numbered(items, i), definers), definers, i, Words(items[i]), p)
  }

  function Left(items: seq<Item>, definers: set<string>, reach: set<nat>, i: nat, p: nat): Forth
    requires i < |items| && p <= |Words(items[i])|
  {
    TakeWords(Scan(Shortened(items, i, reach), definers), definers, i, Words(items[i]), p)
  }

  function Look(f: Forth, w: string): Option<Place> {
    if w in f.env then Some(f.env[w]) else None
  }

  /** Word p of item i is used, not defined. */
  predicate Uses(items: seq<Item>, definers: set<string>, i: nat, p: nat) {
    i < |items| && p < |Words(items[i])| && !Whole(items, definers, i, p).mode.Naming?
  }

  /** What Forth takes it for. */
  function Means(items: seq<Item>, definers: set<string>, i: nat, p: nat): Option<Place>
    requires Uses(items, definers, i, p)
  {
    Look(Whole(items, definers, i, p), Words(items[i])[p])
  }

  ghost function Live(items: seq<Item>, reach: set<nat>): set<nat> {
    set i | 0 <= i < |items| && Survives(items, i, reach)
  }

  /** Word p of item i is read as before: a name or a use, and of the same definition. */
  predicate KeptAt(items: seq<Item>, definers: set<string>, reach: set<nat>, i: nat, p: nat)
    requires i < |items| && p < |Words(items[i])|
  {
    var f, g, w := Whole(items, definers, i, p), Left(items, definers, reach, i, p), Words(items[i])[p];
    g.mode == f.mode && (!f.mode.Naming? ==> Look(g, w) == Look(f, w))
  }

  /** Every word of every surviving item is. */
  ghost predicate KeepsForth(items: seq<Item>, definers: set<string>, reach: set<nat>) {
    forall i, p :: i in Live(items, reach) && 0 <= p < |Words(items[i])| ==> KeptAt(items, definers, reach, i, p)
  }

  /** Each deleted item starts and ends outside colon definitions. */
  ghost predicate DeletesWhole(items: seq<Item>, definers: set<string>, reach: set<nat>) {
    forall i :: 0 <= i < |items| && !Survives(items, i, reach) ==>
      Scan(Numbered(items, i), definers).mode.Interpreting? && Scan(Numbered(items, i + 1), definers).mode.Interpreting?
  }

  /** The tool looks up word p of item i. */
  predicate LooksUp(items: seq<Item>, i: nat, p: nat)
    requires i < |items| && p < |Words(items[i])|
  {
    match items[i]
    case Colon(_, _) => p >= 2
    case Define(_, before, _) => p != |before|
    case Assign(xt, defer, _) =>
      (p == 1 || p == 3) && xt in Read(items[..i]).current && defer in Read(items[..i]).current
    case Line(_) => true
  }

  /**
   That is what the tool makes of an item: the definitions its references, its roots or its assignment gain are
   those of the words looked up.
   */
  lemma LooksUpExactly(items: seq<Item>, i: nat, x: nat)
    requires i < |items|
    ensures
      var t, u := Read(items[..i]), Read(items[..i + 1]);
      && t.refs <= u.refs && t.assigns <= u.assigns
      && ((exists p :: 0 <= p < |Words(items[i])| && LooksUp(items, i, p)
                       && Words(items[i])[p] in t.current && t.current[Words(items[i])[p]] == x)
          <==>
          || (|t.refs| < |u.refs| && x in u.refs[|t.refs|])
          || x in AtTop(t, items[i])
          || (|t.assigns| < |u.assigns| && (x == u.assigns[|t.assigns|].0 || x == u.assigns[|t.assigns|].1)))
      && u.roots == t.roots + AtTop(t, items[i])
  {
    assert items[..i + 1][..i] == items[..i];
    var t, ws := Read(items[..i]), Words(items[i]);
    hide Read;
    match items[i]
    case Colon(name, body) =>
      WordsFrom(t.current, ws, 2, x);
      assert ws[2..] == body;
    case Define(name, before, after) =>
      var n := |before|;
      WordsFrom(t.current, ws, n + 1, x);
      WordsFrom(t.current, before, 0, x);
      assert ws[n + 1..] == after && before[0..] == before;
      assert forall p :: 0 <= p < n ==> ws[p] == before[p];
    case Assign(xt, defer, rest) =>
      assert ws[1] == xt && ws[3] == defer;
    case Line(words) =>
      WordsFrom(t.current, ws, 0, x);
      assert ws[0..] == words;
  }

  /** The roots an item adds. */
  function AtTop(t: Table, it: Item): set<nat> {
    match it
    case Line(words) => Resolve(t.current, words)
    case Define(_, _, after) => Resolve(t.current, after)
    case _ => {}
  }

  lemma WordsFrom(current: map<string, nat>, words: seq<string>, k: nat, x: nat)
    requires k <= |words|
    ensures x in Resolve(current, words[k..]) <==>
            exists p :: k <= p < |words| && words[p] in current && current[words[p]] == x
  {
    if x in Resolve(current, words[k..]) {
      var w :| w in words[k..] && w in current && current[w] == x;
      var q :| 0 <= q < |words[k..]| && words[k..][q] == w;
      assert words[k + q] == w;
    }
    if p :| k <= p < |words| && words[p] in current && current[words[p]] == x {
      assert words[k..][p - k] == words[p];
    }
  }

  /** And finds the definition of item j. */
  predicate Resolves(items: seq<Item>, i: nat, p: nat, j: nat)
    requires i < |items| && p < |Words(items[i])|
  {
    var t, w := Read(items[..i]), Words(items[i])[p];
    LooksUp(items, i, p) && j < i && Defines(items[j]) && w in t.current && t.current[w] == |Read(items[..j]).refs|
  }

  /** The tool takes it for the definition Forth takes it for. */
  predicate Agrees(items: seq<Item>, definers: set<string>, i: nat, p: nat)
    requires Uses(items, definers, i, p) && Means(items, definers, i, p).Some?
  {
    var (j, q) := Means(items, definers, i, p).value;
    Resolves(items, i, p, j) && q == NameAt(items[j])
  }

  // ---- what a survivor resolves survives ------------------------------------

  /** What one surviving item has the tool look up is reached. */
  lemma LookedUpReached(t: Table, all: Table, reach: set<nat>, it: Item, w: string)
    requires Sound(all, reach) && w in t.current
    requires
      var u := ReadOne(t, it);
      u.refs <= all.refs && u.roots <= all.roots && u.assigns <= all.assigns
    requires
      match it
      case Colon(_, body) => |t.refs| in reach && w in body
      case Define(_, before, after) => |t.refs| in reach && (w in before || w in after)
      case Assign(xt, defer, _) =>
        && (w == xt || w == defer) && xt in t.current && defer in t.current && t.current[defer] in reach
        && |t.assigns| < |all.assigns| && IsLast(all.assigns, |t.assigns|)
      case Line(words) => w in words
    ensures t.current[w] in reach
  {
    hide IsLast; hide Closed;
    var u := ReadOne(t, it);
    match it
    case Colon(_, body) => NodeReached(t, all, reach, body, w);
    case Define(_, before, after) =>
      if w in before {
        NodeReached(t, all, reach, before, w);
      } else {
        assert t.current[w] in u.roots;
      }
    case Assign(xt, defer, _) =>
      assert all.assigns[|t.assigns|] == u.assigns[|t.assigns|] == (t.current[xt], t.current[defer]);
    case Line(words) =>
      assert t.current[w] in u.roots;
  }

  lemma NodeReached(t: Table, all: Table, reach: set<nat>, words: seq<string>, w: string)
    requires Closed(all.refs, reach) && |t.refs| in reach && w in words && w in t.current
    requires t.refs + [Resolve(t.current, words)] <= all.refs
    ensures t.current[w] in reach
  {
    var refs := t.refs + [Resolve(t.current, words)];
    assert all.refs[|t.refs|] == refs[|t.refs|];
  }

  lemma ResolvedSurvives(items: seq<Item>, reach: set<nat>, i: nat, p: nat, j: nat)
    requires Reachable(Linked(Read(items).refs, Read(items).assigns), Roots(Read(items)), reach)
    requires i < |items| && p < |Words(items[i])| && Survives(items, i, reach) && Resolves(items, i, p, j)
    ensures Survives(items, j, reach)
  {
    hide Reachable; hide Linked; hide Sound; hide Read; hide Roots; hide ReadOne; hide IsLast;
    var t, all := Read(items[..i]), Read(items);
    ReadWellFormed(items);
    ReachIsSound(all, reach);
    ReadGrows(items, i + 1);
    ReadNext(items, i);
    WordAt(items[i], p);
    LookedUpReached(t, all, reach, items[i], Words(items[i])[p]);
  }

  lemma ReadNext(items: seq<Item>, i: nat)
    requires i < |items|
    ensures Read(items[..i + 1]) == ReadOne(Read(items[..i]), items[i])
  {
    assert items[..i + 1][..i] == items[..i];
  }

  /** Which part of an item its p-th word is in. */
  lemma WordAt(it: Item, p: nat)
    requires p < |Words(it)|
    ensures
      var w := Words(it)[p];
      match it
      case Colon(_, body) => p >= 2 ==> w in body
      case Define(name, before, after) => if p == |before| then w == name else w in before || w in after
      case Assign(xt, defer, _) => (p == 1 ==> w == xt) && (p == 3 ==> w == defer)
      case Line(words) => w in words
  {
    match it
    case Colon(_, body) =>
      if p >= 2 { assert Words(it)[p] == body[p - 2]; }
    case Define(_, before, after) =>
      if p < |before| { assert Words(it)[p] == before[p]; }
      if p > |before| { assert Words(it)[p] == after[p - |before| - 1]; }
    case _ =>
  }

  // ---- the two readings side by side ----------------------------------------

  /** g, of the shortened sources, has exactly f's definitions that live, or older ones where f's do not. */
  ghost predicate Trims(f: Forth, g: Forth, live: set<nat>, n: nat) {
    && g.mode == f.mode && (f.mode.Compiling? ==> f.mode.at.0 in live)
    && (forall w :: w in f.env ==> f.env[w].0 < n)
    && (forall w :: w in g.env ==> w in f.env && g.env[w].0 in live)
    && forall w :: w in f.env && f.env[w].0 in live ==> w in g.env && g.env[w] == f.env[w]
  }

  lemma {:induction false} LiveWords(f: Forth, g: Forth, definers: set<string>, id: nat, words: seq<string>, p: nat,
                                     live: set<nat>, n: nat)
    requires Trims(f, g, live, n) && id in live && id < n && p <= |words| && (f.mode.Compiling? ==> f.mode.at.0 < n)
    ensures
      var f', g' := TakeWords(f, definers, id, words, p), TakeWords(g, definers, id, words, p);
      Trims(f', g', live, n) && (f'.mode.Compiling? ==> f'.mode.at.0 < n)
  {
    if p > 0 {
      LiveWords(f, g, definers, id, words, p - 1, live, n);
    }
  }

  /** What an item that starts outside definitions defines is its own. */
  lemma {:induction false} OwnWords(f: Forth, definers: set<string>, id: nat, words: seq<string>, p: nat)
    requires f.mode.Interpreting? && p <= |words|
    ensures
      var f' := TakeWords(f, definers, id, words, p);
      && (f'.mode.Compiling? ==> f'.mode.at.0 == id)
      && (forall w :: w in f.env ==> w in f'.env)
      && forall w :: w in f'.env ==> f'.env[w].0 == id || (w in f.env && f'.env[w] == f.env[w])
  {
    if p > 0 {
      OwnWords(f, definers, id, words, p - 1);
    }
  }

  ghost predicate Bounded(f: Forth, n: nat) {
    f.mode.Compiling? ==> f.mode.at.0 < n
  }

  lemma LiveItem(f: Forth, g: Forth, definers: set<string>, id: nat, words: seq<string>, live: set<nat>)
    requires Trims(f, g, live, id) && Bounded(f, id) && id in live
    ensures
      var f' := EndItem(TakeWords(f, definers, id, words, |words|));
      var g' := EndItem(TakeWords(g, definers, id, words, |words|));
      Trims(f', g', live, id + 1) && Bounded(f', id + 1)
  {
    LiveWords(f, g, definers, id, words, |words|, live, id + 1);
  }

  lemma DeadItem(f: Forth, g: Forth, definers: set<string>, id: nat, words: seq<string>, live: set<nat>)
    requires Trims(f, g, live, id) && id !in live && f.mode.Interpreting?
    requires EndItem(TakeWords(f, definers, id, words, |words|)).mode.Interpreting?
    ensures Trims(EndItem(TakeWords(f, definers, id, words, |words|)), g, live, id + 1)
  {
    OwnWords(f, definers, id, words, |words|);
  }

  lemma ScanNext(items: seq<Item>, definers: set<string>, reach: set<nat>, n: nat)
    requires n < |items|
    ensures
      var words, f := Words(items[n]), Scan(Numbered(items, n), definers);
      Scan(Numbered(items, n + 1), definers) == EndItem(TakeWords(f, definers, n, words, |words|))
    ensures
      var words, g := Words(items[n]), Scan(Shortened(items, n, reach), definers);
      Scan(Shortened(items, n + 1, reach), definers) ==
      if Survives(items, n, reach) then EndItem(TakeWords(g, definers, n, words, |words|)) else g
  {
    hide Survives; hide TakeWords; hide EndItem; hide Words;
    var all, some := Numbered(items, n + 1), Shortened(items, n + 1, reach);
    assert all[..|all| - 1] == Numbered(items, n);
    assert if Survives(items, n, reach) then some[..|some| - 1] == Shortened(items, n, reach)
           else some == Shortened(items, n, reach);
  }

  lemma {:induction false} ScanTrims(items: seq<Item>, definers: set<string>, reach: set<nat>, n: nat)
    requires n <= |items| && DeletesWhole(items, definers, reach)
    ensures
      var f, g := Scan(Numbered(items, n), definers), Scan(Shortened(items, n, reach), definers);
      Trims(f, g, Live(items, reach), n) && Bounded(f, n)
  {
    hide Survives; hide TakeWords; hide Scan; hide Words; hide Trims; hide EndItem; hide Numbered; hide Shortened;
    var live := Live(items, reach);
    if n == 0 {
      ScanNone(items, definers, reach, live);
    } else {
      ScanTrims(items, definers, reach, n - 1);
      ScanNext(items, definers, reach, n - 1);
      var f, g := Scan(Numbered(items, n - 1), definers), Scan(Shortened(items, n - 1, reach), definers);
      if Survives(items, n - 1, reach) {
        LiveItem(f, g, definers, n - 1, Words(items[n - 1]), live);
      } else {
        assert Numbered(items, (n - 1) + 1) == Numbered(items, n);
        DeadItem(f, g, definers, n - 1, Words(items[n - 1]), live);
      }
    }
  }

  lemma ScanNone(items: seq<Item>, definers: set<string>, reach: set<nat>, live: set<nat>)
    ensures
      var f, g := Scan(Numbered(items, 0), definers), Scan(Shortened(items, 0, reach), definers);
      Trims(f, g, live, 0) && Bounded(f, 0)
  {
  }

  /** The same before each word of a surviving item. */
  lemma SurvivorTrims(items: seq<Item>, definers: set<string>, reach: set<nat>, i: nat, p: nat)
    requires i < |items| && p <= |Words(items[i])| && Survives(items, i, reach) && DeletesWhole(items, definers, reach)
    ensures Trims(Whole(items, definers, i, p), Left(items, definers, reach, i, p), Live(items, reach), |items|)
  {
    hide Survives; hide TakeWords; hide DeletesWhole;
    ScanTrims(items, definers, reach, i);
    LiveWords(Scan(Numbered(items, i), definers), Scan(Shortened(items, i, reach), definers), definers, i,
              Words(items[i]), p, Live(items, reach), |items|);
  }

  /** A survivor's word p, whose definition the tool does not take it to use, is not left without it. */
  ghost predicate Spared(items: seq<Item>, definers: set<string>, reach: set<nat>, i: nat, p: nat) {
    Uses(items, definers, i, p) && Means(items, definers, i, p).Some? && !Agrees(items, definers, i, p) ==>
      Means(items, definers, i, p).value.0 in Live(items, reach)
  }

  lemma KeptWhenSpared(items: seq<Item>, definers: set<string>, reach: set<nat>, i: nat, p: nat)
    requires Reachable(Linked(Read(items).refs, Read(items).assigns), Roots(Read(items)), reach)
    requires DeletesWhole(items, definers, reach) && i in Live(items, reach) && p < |Words(items[i])|
    ensures KeptAt(items, definers, reach, i, p) <==> Spared(items, definers, reach, i, p)
  {
    hide Survives; hide TakeWords; hide DeletesWhole; hide Scan; hide Reachable; hide Resolves; hide Words; hide Linked;
    hide Read; hide Roots; hide Whole; hide Left;
    SurvivorTrims(items, definers, reach, i, p);
    if Uses(items, definers, i, p) && Means(items, definers, i, p).Some? && Agrees(items, definers, i, p) {
      ResolvedSurvives(items, reach, i, p, Means(items, definers, i, p).value.0);
    }
  }

  /** Deleting keeps Forth's reading if and only if it spares every definition used beside the tool's reading. */
  lemma KeepsWhenSpared(items: seq<Item>, definers: set<string>, reach: set<nat>)
    requires Reachable(Linked(Read(items).refs, Read(items).assigns), Roots(Read(items)), reach)
    requires DeletesWhole(items, definers, reach)
    ensures KeepsForth(items, definers, reach) <==>
      forall i, p :: i in Live(items, reach) && 0 <= p < |Words(items[i])| ==> Spared(items, definers, reach, i, p)
  {
    hide Survives; hide KeptAt; hide Spared; hide Reachable; hide Words; hide DeletesWhole; hide Read; hide Linked;
    hide Roots;
    forall i, p | i in Live(items, reach) && 0 <= p < |Words(items[i])|
      ensures KeptAt(items, definers, reach, i, p) <==> Spared(items, definers, reach, i, p)
    {
      KeptWhenSpared(items, definers, reach, i, p);
    }
  }

  // ---- sources the tool reads as Forth does, but for second names -----------

  /** Every item starts and ends outside definitions, and its first name is a name to Forth too. */
  ghost predicate Tidy(items: seq<Item>, definers: set<string>) {
    && (forall n :: 0 <= n <= |items| ==> Scan(Numbered(items, n), definers).mode.Interpreting?)
    && forall i :: 0 <= i < |items| && Defines(items[i]) ==>
         Whole(items, definers, i, NameAt(items[i])).mode == Naming(items[i].Colon?)
  }

  /** The number the tool gives item k's definition. */
  function Node(items: seq<Item>, k: nat): nat
    requires k <= |items|
  {
    |Read(items[..k]).refs|
  }

  lemma {:induction false} NodesRise(items: seq<Item>, j: nat, k: nat)
    requires j < k <= |items|
    ensures Node(items, j) + (if Defines(items[j]) then 1 else 0) <= Node(items, k)
    decreases k
  {
    ReadNext(items, k - 1);
    if j < k - 1 {
      NodesRise(items, j, k - 1);
    }
  }

  /** An item's definitions are called what stands at their places. */
  lemma {:induction false} PlaceNames(f: Forth, definers: set<string>, id: nat, words: seq<string>, p: nat)
    requires f.mode.Interpreting? && p <= |words| && forall w :: w in f.env ==> f.env[w].0 < id
    ensures
      var f' := TakeWords(f, definers, id, words, p);
      && (f'.mode.Compiling? ==> f'.mode.at.0 == id && f'.mode.at.1 < p && f'.mode.name == words[f'.mode.at.1])
      && forall w :: w in f'.env && f'.env[w].0 == id ==> f'.env[w].1 < p && w == words[f'.env[w].1]
  {
    if p > 0 {
      PlaceNames(f, definers, id, words, p - 1);
    }
  }

  /** A name read at q is the item's from then on, or as soon as its definition ends. */
  lemma {:induction false} NameVisible(f: Forth, definers: set<string>, id: nat, words: seq<string>, q: nat, p: nat)
    requires f.mode.Interpreting? && q < p <= |words| && TakeWords(f, definers, id, words, q).mode.Naming?
    ensures
      var f', w := TakeWords(f, definers, id, words, p), words[q];
      f'.mode == Compiling(w, (id, q)) || (w in f'.env && f'.env[w].0 == id)
  {
    OwnWords(f, definers, id, words, p - 1);
    if q < p - 1 {
      NameVisible(f, definers, id, words, q, p - 1);
    }
  }

  /** Forth's definition of a name is the tool's, or a later one. */
  ghost predicate NotOlder(items: seq<Item>, t: Table, f: Forth, n: nat)
    requires n <= |items|
  {
    && (forall w :: w in f.env ==> f.env[w].0 < n)
    && forall w :: w in t.current ==>
         && w in f.env
         && exists k :: 0 <= k <= f.env[w].0 && k < n && Defines(items[k]) && t.current[w] == Node(items, k)
  }

  predicate FirstName(it: Item, q: nat) {
    Defines(it) && q == NameAt(it)
  }

  /** Where it is an item's first name, the tool knows that definition, or a later one. */
  ghost predicate FirstKnown(items: seq<Item>, t: Table, f: Forth, n: nat)
    requires n <= |items|
  {
    forall w :: w in f.env && f.env[w].0 < n && FirstName(items[f.env[w].0], f.env[w].1) ==>
      w in t.current && t.current[w] >= Node(items, f.env[w].0)
  }

  /** f' has f's definitions and item n's, under their names, the one the tool knows among them. */
  ghost predicate AddsItem(f: Forth, f': Forth, n: nat, it: Item) {
    && (forall w :: w in f.env ==> w in f'.env)
    && (forall w :: w in f'.env ==> f'.env[w].0 == n || (w in f.env && f'.env[w] == f.env[w]))
    && (forall w :: w in f'.env && f'.env[w].0 == n ==> f'.env[w].1 < |Words(it)| && w == Words(it)[f'.env[w].1])
    && (Defines(it) ==> it.name in f'.env && f'.env[it.name].0 == n)
  }

  lemma ItemAdds(f: Forth, definers: set<string>, n: nat, it: Item)
    requires f.mode.Interpreting? && forall w :: w in f.env ==> f.env[w].0 < n
    requires EndItem(TakeWords(f, definers, n, Words(it), |Words(it)|)).mode.Interpreting?
    requires Defines(it) ==> TakeWords(f, definers, n, Words(it), NameAt(it)).mode.Naming?
    ensures AddsItem(f, EndItem(TakeWords(f, definers, n, Words(it), |Words(it)|)), n, it)
  {
    hide TakeWords;
    var words := Words(it);
    OwnWords(f, definers, n, words, |words|);
    PlaceNames(f, definers, n, words, |words|);
    if Defines(it) {
      NameVisible(f, definers, n, words, NameAt(it), |words|);
      assert words[NameAt(it)] == it.name;
    }
  }

  /** One more item. */
  lemma NotOlderItem(items: seq<Item>, t: Table, f: Forth, f': Forth, n: nat)
    requires n < |items| && NotOlder(items, t, f, n) && |t.refs| == Node(items, n) && AddsItem(f, f', n, items[n])
    ensures NotOlder(items, ReadOne(t, items[n]), f', n + 1)
  {
    hide Read; hide Resolve; hide Words;
    var it, t' := items[n], ReadOne(t, items[n]);
    forall w | w in t'.current
      ensures w in f'.env
      ensures exists k :: 0 <= k <= f'.env[w].0 && k < n + 1 && Defines(items[k]) && t'.current[w] == Node(items, k)
    {
      if Defines(it) && w == it.name {
        assert t'.current[w] == Node(items, n);
      } else {
        var k :| 0 <= k <= f.env[w].0 && k < n && Defines(items[k]) && t.current[w] == Node(items, k);
        assert k <= f'.env[w].0;
      }
    }
  }

  lemma FirstKnownItem(items: seq<Item>, t: Table, f: Forth, f': Forth, n: nat)
    requires n < |items| && FirstKnown(items, t, f, n) && |t.refs| == Node(items, n) && AddsItem(f, f', n, items[n])
    requires forall w :: w in f.env ==> f.env[w].0 < n
    ensures FirstKnown(items, ReadOne(t, items[n]), f', n + 1)
  {
    hide Read; hide Resolve;
    var it, t' := items[n], ReadOne(t, items[n]);
    forall w | w in f'.env && Defines(items[f'.env[w].0]) && f'.env[w].1 == NameAt(items[f'.env[w].0])
      ensures w in t'.current && t'.current[w] >= Node(items, f'.env[w].0)
    {
      var (j, q) := f'.env[w];
      if j < n {
        NodesRise(items, j, n);
      } else {
        assert w == Words(it)[NameAt(it)] == it.name;
      }
    }
  }

  lemma {:induction false} TidyScan(items: seq<Item>, definers: set<string>, n: nat)
    requires n <= |items| && Tidy(items, definers)
    ensures
      var t, f := Read(items[..n]), Scan(Numbered(items, n), definers);
      NotOlder(items, t, f, n) && FirstKnown(items, t, f, n)
  {
    hide TakeWords; hide ReadOne; hide NotOlder; hide FirstKnown; hide AddsItem; hide EndItem; hide Words; hide NameAt;
    if n == 0 {
      assert items[..0] == [];
      TidyNone(items, definers);
    } else {
      TidyScan(items, definers, n - 1);
      ReadNext(items, n - 1);
      ScanNext(items, definers, {}, n - 1);
      assert (n - 1) + 1 == n;
      var t, f := Read(items[..n - 1]), Scan(Numbered(items, n - 1), definers);
      var f' := Scan(Numbered(items, n), definers);
      assert AddsItem(f, f', n - 1, items[n - 1]) by {
        assert forall w :: w in f.env ==> f.env[w].0 < n - 1 by { OlderBound(items, t, f, n - 1); }
        ItemAdds(f, definers, n - 1, items[n - 1]);
      }
      OlderBound(items, t, f, n - 1);
      NotOlderItem(items, t, f, f', n - 1);
      FirstKnownItem(items, t, f, f', n - 1);
    }
  }

  lemma OlderBound(items: seq<Item>, t: Table, f: Forth, n: nat)
    requires n <= |items| && NotOlder(items, t, f, n)
    ensures forall w :: w in f.env ==> f.env[w].0 < n
  {
  }

  lemma TidyNone(items: seq<Item>, definers: set<string>)
    ensures NotOlder(items, Read([]), Scan(Numbered(items, 0), definers), 0)
    ensures FirstKnown(items, Read([]), Scan(Numbered(items, 0), definers), 0)
  {
  }

  /** There a word the tool looks up, that Forth takes for an earlier item's first name, the tool takes for the same. */
  lemma TidyAgrees(items: seq<Item>, definers: set<string>, i: nat, p: nat)
    requires Tidy(items, definers) && Uses(items, definers, i, p) && Means(items, definers, i, p).Some?
    ensures
      var (j, q) := Means(items, definers, i, p).value;
      && j <= i
      && (Agrees(items, definers, i, p) <==>
            j < i && LooksUp(items, i, p) && Defines(items[j]) && q == NameAt(items[j]))
  {
    hide TakeWords; hide Read; hide Words; hide LooksUp; hide Scan; hide NameAt;
    var f, w := Scan(Numbered(items, i), definers), Words(items[i])[p];
    var (j, q) := Means(items, definers, i, p).value;
    TidyScan(items, definers, i);
    OwnWords(f, definers, i, Words(items[i]), p);
    if j < i && Defines(items[j]) && q == NameAt(items[j]) {
      var t := Read(items[..i]);
      var k :| 0 <= k <= f.env[w].0 && k < i && Defines(items[k]) && t.current[w] == Node(items, k);
      if k < j {
        NodesRise(items, k, j);
      }
    }
  }

  /**
   Word p of item i means a deleted definition that the tool did not see it use: a second name of its
   item, or one met in a word the tool does not look up.
   */
  predicate Stranded(items: seq<Item>, definers: set<string>, reach: set<nat>, i: nat, p: nat) {
    && Uses(items, definers, i, p) && Means(items, definers, i, p).Some?
    && var (j, q) := Means(items, definers, i, p).value;
       && j < |items| && !Survives(items, j, reach)
       && !(LooksUp(items, i, p) && Defines(items[j]) && q == NameAt(items[j]))
  }

  /** On tidy sources, deleting keeps Forth's reading exactly when it strands no word of a survivor. */
  lemma DeletingKeepsForth(items: seq<Item>, definers: set<string>, reach: set<nat>)
    requires Reachable(Linked(Read(items).refs, Read(items).assigns), Roots(Read(items)), reach)
    requires Tidy(items, definers)
    ensures KeepsForth(items, definers, reach) <==>
      forall i, p :: i in Live(items, reach) && 0 <= p < |Words(items[i])| ==> !Stranded(items, definers, reach, i, p)
  {
    hide Survives; hide Spared; hide Stranded; hide Reachable; hide Words; hide Read; hide Linked; hide Roots;
    hide KeepsForth;
    hide Tidy;
    assert DeletesWhole(items, definers, reach) by { TidyDeletes(items, definers, reach); }
    hide DeletesWhole;
    KeepsWhenSpared(items, definers, reach);
    forall i, p | i in Live(items, reach) && 0 <= p < |Words(items[i])|
      ensures Spared(items, definers, reach, i, p) <==> !Stranded(items, definers, reach, i, p)
    {
      SparedOrStranded(items, definers, reach, i, p);
    }
  }

  lemma TidyDeletes(items: seq<Item>, definers: set<string>, reach: set<nat>)
    requires Tidy(items, definers)
    ensures DeletesWhole(items, definers, reach)
  {
    hide Scan; hide Survives; hide Whole;
  }

  lemma SparedOrStranded(items: seq<Item>, definers: set<string>, reach: set<nat>, i: nat, p: nat)
    requires Tidy(items, definers) && i in Live(items, reach) && p < |Words(items[i])|
    ensures Spared(items, definers, reach, i, p) <==> !Stranded(items, definers, reach, i, p)
  {
    hide Survives; hide Agrees; hide Words; hide Means; hide LooksUp; hide NameAt; hide Tidy;
    if Uses(items, definers, i, p) && Means(items, definers, i, p).Some? {
      TidyAgrees(items, definers, i, p);
    }
  }

  const TWO_ON_A_LINE := [Define("A", ["VARIABLE"], ["VARIABLE", "B"]), Colon("F", ["B", "@", ";"]), Line(["F"])]

  /**
   shell/tree.4:834 and shell/shell.4:7031 have such lines. `VARIABLE A  VARIABLE B`, `: F B @ ;` and
   `F`: A is reached by nothing, its line is deleted, and with it B, which F uses.
   */
  lemma SecondNameLost()
    ensures
      var items := TWO_ON_A_LINE;
      && Reachable(Linked(Read(items).refs, Read(items).assigns), Roots(Read(items)), {1})
      && Kept(items, 3, {1}) == items[1..] && Tidy(items, {"VARIABLE"})
      && Stranded(items, {"VARIABLE"}, {1}, 1, 2) && !KeptAt(items, {"VARIABLE"}, {1}, 1, 2)
  {
    hide *;
    SecondNameRead();
    SecondNameScan();
    SecondNameTidy();
    SecondNameReached();
    SecondNameKept();
    SecondNameMeans();
  }

  /** The tool's reading: A and F, F reached from the last line. */
  lemma SecondNameRead()
    ensures
      var items := TWO_ON_A_LINE;
      && Read(items[..0]) == Table([], map[], {}, []) && Read(items[..1]) == Table([{}], map["A" := 0], {}, [])
      && Read(items[..2]) == Table([{}, {}], map["A" := 0, "F" := 1], {}, [])
      && Read(items) == Table([{}, {}], map["A" := 0, "F" := 1], {1}, [])
  {
    var items := TWO_ON_A_LINE;
    assert items[..0] == [] && items[..3] == items;
    ReadNext(items, 0);
    ReadNext(items, 1);
    ReadNext(items, 2);
    assert Read([]) == Table([], map[], {}, []);
    hide Read;
    assert "A"[0] != "B"[0] && "A"[0] != "@"[0] && "A"[0] != ";"[0] && "A"[0] != "F"[0];
    assert Resolve(map[], ["VARIABLE"]) == {} && Resolve(map[], ["VARIABLE", "B"]) == {};
    assert Resolve(map["A" := 0], ["B", "@", ";"]) == {};
    assert "F" in ["F"];
    assert Resolve(map["A" := 0, "F" := 1], ["F"]) == {1};
  }

  lemma SecondNameReached()
    requires Read(TWO_ON_A_LINE) == Table([{}, {}], map["A" := 0, "F" := 1], {1}, [])
    ensures
      var t := Read(TWO_ON_A_LINE);
      Reachable(Linked(t.refs, t.assigns), Roots(t), {1})
  {
    hide Read;
    var t := Read(TWO_ON_A_LINE);
    assert MAIN !in t.current by { assert |MAIN| == 4 && |"A"| == 1 && |"F"| == 1; }
    assert Roots(t) == {1};
    var linked := Linked(t.refs, t.assigns);
    assert linked[0] == {} && linked[1] == {};
  }

  lemma SecondNameKept()
    requires
      var items := TWO_ON_A_LINE;
      |Read(items[..0]).refs| == 0 && |Read(items[..1]).refs| == 1
    ensures
      var items := TWO_ON_A_LINE;
      && !Survives(items, 0, {1}) && Survives(items, 1, {1}) && Survives(items, 2, {1})
      && Kept(items, 3, {1}) == items[1..] && Shortened(items, 1, {1}) == []
  {
    hide Read;
    var items := TWO_ON_A_LINE;
    assert Kept(items, 0, {1}) == [] && Shortened(items, 0, {1}) == [];
    assert Kept(items, 1, {1}) == [] && Shortened(items, 1, {1}) == [];
    assert Kept(items, 2, {1}) == [items[1]];
    assert Kept(items, 3, {1}) == [items[1], items[2]];
  }

  /** Forth's: A, B and F. */
  lemma SecondNameScan()
    ensures
      var items, d := TWO_ON_A_LINE, {"VARIABLE"};
      && Scan(Numbered(items, 0), d) == BLANK
      && Scan(Numbered(items, 1), d) == Forth(map["A" := (0, 1), "B" := (0, 3)], Interpreting)
      && (forall n :: 0 <= n <= 3 ==> Scan(Numbered(items, n), d).mode.Interpreting?)
      && Whole(items, d, 0, 1).mode == Naming(false) && Whole(items, d, 1, 1).mode == Naming(true)
  {
    var items, d := TWO_ON_A_LINE, {"VARIABLE"};
    SecondNameWords();
    assert Scan(Numbered(items, 0), d) == BLANK;
    hide Scan; hide TakeWords; hide Numbered; hide Words; hide Shortened;
    TwoVariables(d);
    ScanNext(items, d, {}, 0);
    OneColon(Scan(Numbered(items, 1), d), d);
    ScanNext(items, d, {}, 1);
    OneWord(Scan(Numbered(items, 2), d), d);
    ScanNext(items, d, {}, 2);
  }

  lemma SecondNameWords()
    ensures Words(TWO_ON_A_LINE[0]) == ["VARIABLE", "A", "VARIABLE", "B"]
    ensures Words(TWO_ON_A_LINE[1]) == [":", "F", "B", "@", ";"] && Words(TWO_ON_A_LINE[2]) == ["F"]
  {
  }

  lemma OneWord(f: Forth, d: set<string>)
    requires d == {"VARIABLE"} && f.mode.Interpreting?
    ensures TakeWords(f, d, 2, ["F"], 1).mode.Interpreting?
  {
    assert "F"[0] != "V"[0] && "F"[0] != ":"[0];
    assert TakeWords(f, d, 2, ["F"], 0) == f;
  }

  lemma SecondNameTidy()
    requires
      var items, d := TWO_ON_A_LINE, {"VARIABLE"};
      && (forall n :: 0 <= n <= 3 ==> Scan(Numbered(items, n), d).mode.Interpreting?)
      && Whole(items, d, 0, 1).mode == Naming(false) && Whole(items, d, 1, 1).mode == Naming(true)
    ensures Tidy(TWO_ON_A_LINE, {"VARIABLE"})
  {
    hide Scan; hide TakeWords; hide Numbered; hide Words; hide Whole;
    var items := TWO_ON_A_LINE;
    assert NameAt(items[0]) == 1 && NameAt(items[1]) == 1 && !Defines(items[2]);
  }

  lemma TwoVariables(d: set<string>)
    requires d == {"VARIABLE"}
    ensures
      var words := ["VARIABLE", "A", "VARIABLE", "B"];
      && TakeWords(BLANK, d, 0, words, 1).mode == Naming(false)
      && TakeWords(BLANK, d, 0, words, 4) == Forth(map["A" := (0, 1), "B" := (0, 3)], Interpreting)
  {
    var words := ["VARIABLE", "A", "VARIABLE", "B"];
    assert "VARIABLE"[0] != ":"[0];
    assert TakeWords(BLANK, d, 0, words, 0) == BLANK;
    assert TakeWords(BLANK, d, 0, words, 1) == Forth(map[], Naming(false));
    assert TakeWords(BLANK, d, 0, words, 2) == Forth(map["A" := (0, 1)], Interpreting);
    assert TakeWords(BLANK, d, 0, words, 3) == Forth(map["A" := (0, 1)], Naming(false));
  }

  lemma OneColon(f: Forth, d: set<string>)
    requires f.mode.Interpreting?
    ensures
      var words := [":", "F", "B", "@", ";"];
      && TakeWords(f, d, 1, words, 1).mode == Naming(true)
      && TakeWords(f, d, 1, words, 2) == f.(mode := Compiling("F", (1, 1)))
      && TakeWords(f, d, 1, words, 5).mode.Interpreting?
  {
    var words := [":", "F", "B", "@", ";"];
    assert "B"[0] != ";"[0] && "@"[0] != ";"[0];
    assert TakeWords(f, d, 1, words, 0) == f;
    assert TakeWords(f, d, 1, words, 2) == f.(mode := Compiling("F", (1, 1)));
    assert TakeWords(f, d, 1, words, 3) == f.(mode := Compiling("F", (1, 1)));
    assert TakeWords(f, d, 1, words, 4) == f.(mode := Compiling("F", (1, 1)));
  }

  /** F's B is the first line's in the whole sources, and nothing in the shortened ones. */
  lemma SecondNameMeans()
    requires
      var items, d := TWO_ON_A_LINE, {"VARIABLE"};
      && Scan(Numbered(items, 1), d) == Forth(map["A" := (0, 1), "B" := (0, 3)], Interpreting)
      && Shortened(items, 1, {1}) == [] && !Survives(items, 0, {1})
    ensures Stranded(TWO_ON_A_LINE, {"VARIABLE"}, {1}, 1, 2) && !KeptAt(TWO_ON_A_LINE, {"VARIABLE"}, {1}, 1, 2)
  {
    hide Read; hide Numbered; hide Shortened; hide Survives;
    var items, d := TWO_ON_A_LINE, {"VARIABLE"};
    assert Words(items[1]) == [":", "F", "B", "@", ";"];
    OneColon(Scan(Numbered(items, 1), d), d);
    OneColon(BLANK, d);
    hide TakeWords;
    assert Scan([], d) == BLANK;
    assert Means(items, d, 1, 2) == Some((0, 3));
    assert NameAt(items[0]) == 1;
  }
}
