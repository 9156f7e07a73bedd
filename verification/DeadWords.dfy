/**
 The search for definitions that nothing reaches (tools/dead-words.py:54-164): reading the sources
 into a reference graph, the queue that walks it, the chains --why shows, and what --delete removes.
 */
module DeadWords {

  datatype Option<T> = None | Some(value: T)

  // ---- reading the sources -------------------------------------------------

  /**
   A source line, or a colon definition's lines, already split into words: a colon definition; a
   line with a defining word (before it, up to and with that word, and after the new name);
   ' xt IS defer and whatever follows it; any other line.
   */
  datatype Item =
    | Colon(name: string, body: seq<string>)
    | Define(name: string, before: seq<string>, after: seq<string>)
    | Assign(xt: string, defer: string, rest: seq<string>)
    | Line(words: seq<string>)

  /** refs[n] is what definition n refers to; current is what each name means by now. */
  datatype Table = Table(refs: seq<set<nat>>, current: map<string, nat>, roots: set<nat>, assigns: seq<(nat, nat)>)

  function Resolve(current: map<string, nat>, words: seq<string>): set<nat> {
    set w | w in words && w in current :: current[w]
  }

  predicate Defines(it: Item) {
    it.Colon? || it.Define?
  }

  function ReadOne(t: Table, it: Item): Table {
    match it
    case Colon(name, body) =>
      Table(t.refs + [Resolve(t.current, body)], t.current[name := |t.refs|], t.roots, t.assigns)
    case Define(name, before, after) =>
      Table(t.refs + [Resolve(t.current, before)], t.current[name := |t.refs|],
            t.roots + Resolve(t.current, after), t.assigns)
    case Assign(xt, defer, _) =>
      if xt in t.current && defer in t.current
      then t.(assigns := t.assigns + [(t.current[xt], t.current[defer])])
      else t
    case Line(words) => t.(roots := t.roots + Resolve(t.current, words))
  }

  function Read(items: seq<Item>): Table {
    if items == [] then Table([], map[], {}, [])
    else ReadOne(Read(items[..|items| - 1]), items[|items| - 1])
  }

  const MAIN := "MAIN"

  /** The boot word is a root too. */
  function Roots(t: Table): set<nat> {
    t.roots + Resolve(t.current, [MAIN])
  }

  /** No later line assigns the same deferred word. */
  predicate IsLast(assigns: seq<(nat, nat)>, j: nat)
    requires j < |assigns|
  {
    forall i :: j < i < |assigns| ==> assigns[i].1 != assigns[j].1
  }

  /** A deferred word refers to what it was last made to do. */
  function Linked(refs: seq<set<nat>>, assigns: seq<(nat, nat)>): (r: seq<set<nat>>)
    ensures |r| == |refs|
  {
    seq(|refs|, y requires 0 <= y < |refs| =>
      refs[y] + set j | 0 <= j < |assigns| && assigns[j].1 == y && IsLast(assigns, j) :: assigns[j].0)
  }

  ghost predicate InRange(s: set<nat>, n: nat) {
    forall x :: x in s ==> x < n
  }

  ghost predicate WellFormed(t: Table) {
    && (forall n :: 0 <= n < |t.refs| ==> InRange(t.refs[n], |t.refs|))
    && (forall w :: w in t.current ==> t.current[w] < |t.refs|)
    && InRange(t.roots, |t.refs|)
    && forall j :: 0 <= j < |t.assigns| ==> t.assigns[j].0 < |t.refs| && t.assigns[j].1 < |t.refs|
  }

  lemma {:induction false} ReadWellFormed(items: seq<Item>)
    ensures WellFormed(Read(items))
  {
    if items != [] {
      ReadWellFormed(items[..|items| - 1]);
    }
  }

  // ---- reachability --------------------------------------------------------

  ghost predicate IsGraph(refs: seq<set<nat>>) {
    forall n :: 0 <= n < |refs| ==> InRange(refs[n], |refs|)
  }

  ghost predicate Closed(refs: seq<set<nat>>, s: set<nat>) {
    forall n :: n in s && n < |refs| ==> refs[n] <= s
  }

  /** The definitions at most k references away from a root. */
  ghost function Within(refs: seq<set<nat>>, roots: set<nat>, k: nat): set<nat> {
    if k == 0 then roots
    else
      var s := Within(refs, roots, k - 1);
      s + set n, r | n in s && n < |refs| && r in refs[n] :: r
  }

  lemma {:induction false} WithinClosed(refs: seq<set<nat>>, roots: set<nat>, k: nat, s: set<nat>)
    requires roots <= s && Closed(refs, s)
    ensures Within(refs, roots, k) <= s
  {
    if k > 0 {
      WithinClosed(refs, roots, k - 1, s);
    }
  }

  /** n hangs in the tree: a root at level 0, or one level below its parent, which refers to it. */
  ghost predicate Hangs(refs: seq<set<nat>>, roots: set<nat>, parent: map<nat, Option<nat>>, level: map<nat, nat>,
                        n: nat)
    requires n in parent && level.Keys == parent.Keys
  {
    match parent[n]
    case None => n in roots && level[n] == 0
    case Some(p) => p in parent && p < |refs| && n in refs[p] && level[n] == level[p] + 1
  }

  ghost predicate Tree(refs: seq<set<nat>>, roots: set<nat>, parent: map<nat, Option<nat>>, level: map<nat, nat>) {
    && level.Keys == parent.Keys && roots <= parent.Keys
    && forall n :: n in parent ==> Hangs(refs, roots, parent, level, n)
  }

  /** Every reference out of done is to something seen, at most one level down. */
  ghost predicate Explored(refs: seq<set<nat>>, level: map<nat, nat>, done: set<nat>) {
    forall n, r :: n in done && n in level && n < |refs| && r in refs[n] ==> r in level && level[r] <= level[n] + 1
  }

  lemma {:induction false} LevelsReach(refs: seq<set<nat>>, roots: set<nat>, parent: map<nat, Option<nat>>,
                                       level: map<nat, nat>, n: nat)
    requires Tree(refs, roots, parent, level) && n in parent
    ensures n in Within(refs, roots, level[n])
    decreases level[n]
  {
    if parent[n].Some? {
      LevelsReach(refs, roots, parent, level, parent[n].value);
    }
  }

  ghost predicate RootsAtTop(roots: set<nat>, parent: map<nat, Option<nat>>, level: map<nat, nat>) {
    forall r :: r in roots ==> r in level && level[r] == 0 && r in parent && parent[r].None?
  }

  lemma ReferenceIn(refs: seq<set<nat>>, roots: set<nat>, k: nat, n: nat) returns (m: nat)
    requires k > 0 && n in Within(refs, roots, k) && n !in Within(refs, roots, k - 1)
    ensures m in Within(refs, roots, k - 1) && m < |refs| && n in refs[m]
  {
    m :| m in Within(refs, roots, k - 1) && m < |refs| && n in refs[m];
  }

  lemma {:induction false} LevelsShortest(refs: seq<set<nat>>, roots: set<nat>, parent: map<nat, Option<nat>>,
                                          level: map<nat, nat>, n: nat, k: nat)
    requires RootsAtTop(roots, parent, level) && Explored(refs, level, level.Keys)
    requires n in Within(refs, roots, k)
    ensures n in level && level[n] <= k
    decreases k
  {
    if k > 0 {
      if n in Within(refs, roots, k - 1) {
        LevelsShortest(refs, roots, parent, level, n, k - 1);
      } else {
        var m := ReferenceIn(refs, roots, k, n);
        hide Within;
        LevelsShortest(refs, roots, parent, level, m, k - 1);
      }
    }
  }

  /** What the search is for: the least set with the roots in it and closed under references. */
  ghost predicate Reachable(refs: seq<set<nat>>, roots: set<nat>, reach: set<nat>) {
    && roots <= reach && Closed(refs, reach)
    && forall s :: roots <= s && Closed(refs, s) ==> reach <= s
  }

  /** n's distance from the roots. */
  ghost predicate Distance(refs: seq<set<nat>>, roots: set<nat>, n: nat, k: nat) {
    n in Within(refs, roots, k) && forall j: nat :: n in Within(refs, roots, j) ==> k <= j
  }

  /** The parents lead from n to a root in k references, and no way is shorter. */
  ghost predicate Chained(refs: seq<set<nat>>, roots: set<nat>, parent: map<nat, Option<nat>>, n: nat, k: nat)
    decreases k
  {
    && n in parent && Distance(refs, roots, n, k)
    && match parent[n]
       case None => n in roots && k == 0
       case Some(p) => p < |refs| && n in refs[p] && k > 0 && Chained(refs, roots, parent, p, k - 1)
  }

  ghost predicate HasChain(refs: seq<set<nat>>, roots: set<nat>, parent: map<nat, Option<nat>>, n: nat) {
    exists k :: Chained(refs, roots, parent, n, k)
  }

  /** Each node of the chain is referred to by the next. */
  ghost predicate Path(refs: seq<set<nat>>, chain: seq<nat>) {
    |chain| >= 2 ==>
      var last := chain[|chain| - 1];
      last < |refs| && chain[|chain| - 2] in refs[last] && Path(refs, chain[..|chain| - 1])
  }

  lemma PathGrows(refs: seq<set<nat>>, chain: seq<nat>, n: nat)
    requires Path(refs, chain)
    requires chain != [] ==> n < |refs| && chain[|chain| - 1] in refs[n]
    ensures Path(refs, chain + [n])
  {
    assert (chain + [n])[..|chain|] == chain;
  }

  lemma ChainStep(refs: seq<set<nat>>, roots: set<nat>, parent: map<nat, Option<nat>>, n: nat, k: nat)
    requires Chained(refs, roots, parent, n, k)
    ensures n in parent && Distance(refs, roots, n, k)
    ensures parent[n].None? ==> n in roots && k == 0
    ensures parent[n].Some? ==>
      var p := parent[n].value;
      p < |refs| && n in refs[p] && k > 0 && Chained(refs, roots, parent, p, k - 1)
  {
  }

  lemma {:induction false} ChainedLevels(refs: seq<set<nat>>, roots: set<nat>, parent: map<nat, Option<nat>>,
                                         level: map<nat, nat>, n: nat)
    requires Tree(refs, roots, parent, level) && Explored(refs, level, level.Keys)
    requires RootsAtTop(roots, parent, level)
    requires n in parent
    ensures Chained(refs, roots, parent, n, level[n])
    decreases level[n]
  {
    hide Within; hide Explored;
    LevelsReach(refs, roots, parent, level, n);
    forall j: nat | n in Within(refs, roots, j)
      ensures level[n] <= j
    {
      LevelsShortest(refs, roots, parent, level, n, j);
    }
    if parent[n].Some? {
      ChainedLevels(refs, roots, parent, level, parent[n].value);
    }
  }

  /** The last assignments, looked up by deferred word, make the same references. */
  lemma LastLinks(refs0: seq<set<nat>>, assigns: seq<(nat, nat)>, last: map<nat, nat>, refs: seq<set<nat>>)
    requires |refs| == |refs0|
    requires forall y :: y in last ==> last[y] < |assigns| && assigns[last[y]].1 == y
    requires forall j :: 0 <= j < |assigns| ==> assigns[j].1 in last && j <= last[assigns[j].1]
    requires forall y :: 0 <= y < |refs| ==> refs[y] == if y in last then refs0[y] + {assigns[last[y]].0} else refs0[y]
    ensures refs == Linked(refs0, assigns)
  {
    forall y | 0 <= y < |refs|
      ensures refs[y] == Linked(refs0, assigns)[y]
    {
      if y in last {
        LastIs(assigns, last, y);
        assert (set j | 0 <= j < |assigns| && assigns[j].1 == y
                && IsLast(assigns, j) :: assigns[j].0) == {assigns[last[y]].0};
      }
    }
  }

  lemma LastIs(assigns: seq<(nat, nat)>, last: map<nat, nat>, y: nat)
    requires forall y :: y in last ==> last[y] < |assigns| && assigns[last[y]].1 == y
    requires forall j :: 0 <= j < |assigns| ==> assigns[j].1 in last && j <= last[assigns[j].1]
    requires y in last
    ensures forall j :: 0 <= j < |assigns| && assigns[j].1 == y ==> (IsLast(assigns, j) <==> j == last[y])
  {
  }

  // ---- the script's state --------------------------------------------------

  ghost predicate NoDup(s: seq<nat>) {
    forall i, j :: 0 <= i < j < |s| ==> s[i] != s[j]
  }

  ghost function SetOf(s: seq<nat>): set<nat> {
    set x | x in s
  }

  /** The queue's order: its levels never fall, and the last is at most one below the first. */
  ghost predicate Queued(todo: seq<nat>, level: map<nat, nat>) {
    && (forall i :: 0 <= i < |todo| ==> todo[i] in level)
    && (forall i, j :: 0 <= i <= j < |todo| ==> level[todo[i]] <= level[todo[j]])
    && (todo != [] ==> forall n :: n in level ==> level[n] <= level[todo[0]] + 1)
  }

  /** Between two rounds of the search. */
  ghost predicate Searching(refs: seq<set<nat>>, roots: set<nat>, reach: set<nat>, parent: map<nat, Option<nat>>,
                            todo: seq<nat>, level: map<nat, nat>) {
    && Tree(refs, roots, parent, level)
    && RootsAtTop(roots, parent, level)
    && NoDup(todo) && reach !! SetOf(todo) && parent.Keys == reach + SetOf(todo)
    && Queued(todo, level)
    && Explored(refs, level, reach)
    && InRange(parent.Keys, |refs|)
  }

  /** While n's references are being looked at. */
  ghost predicate Visiting(refs: seq<set<nat>>, roots: set<nat>, reach: set<nat>, parent: map<nat, Option<nat>>,
                           todo: seq<nat>, level: map<nat, nat>, n: nat) {
    && Tree(refs, roots, parent, level)
    && RootsAtTop(roots, parent, level)
    && NoDup(todo) && reach !! SetOf(todo) && parent.Keys == reach + SetOf(todo)
    && n in reach && n in level
    && (forall i :: 0 <= i < |todo| ==> todo[i] in level && level[n] <= level[todo[i]])
    && (forall i, j :: 0 <= i <= j < |todo| ==> level[todo[i]] <= level[todo[j]])
    && (forall m :: m in level ==> level[m] <= level[n] + 1)
    && Explored(refs, level, reach - {n})
    && InRange(parent.Keys, |refs|)
  }

  lemma HeadOfQueue(refs: seq<set<nat>>, roots: set<nat>, reach: set<nat>, parent: map<nat, Option<nat>>, n: nat,
                    rest: seq<nat>, level: map<nat, nat>)
    requires Searching(refs, roots, reach, parent, [n] + rest, level)
    ensures n !in reach && n < |refs| && n in level
    ensures Visiting(refs, roots, reach + {n}, parent, rest, level, n)
  {
    hide Tree; hide Explored; hide RootsAtTop;
    var todo := [n] + rest;
    assert n in SetOf(todo) by { assert todo[0] == n; }
    assert SetOf(todo) == {n} + SetOf(rest);
    assert forall i :: 0 <= i < |rest| ==> rest[i] == todo[i + 1];
    assert reach + {n} - {n} == reach;
  }

  lemma AddChild(refs: seq<set<nat>>, roots: set<nat>, reach: set<nat>, parent: map<nat, Option<nat>>, todo: seq<nat>,
                 level: map<nat, nat>, n: nat, r: nat)
    requires IsGraph(refs) && Visiting(refs, roots, reach, parent, todo, level, n)
    requires n < |refs| && r in refs[n] && r !in parent
    ensures Visiting(refs, roots, reach, parent[r := Some(n)], todo + [r], level[r := level[n] + 1], n)
  {
    hide Tree; hide Explored; hide RootsAtTop;
    assert SetOf(todo + [r]) == SetOf(todo) + {r};
    TreeGrows(refs, roots, parent, level, n, r);
    ExploredGrows(refs, roots, reach, parent, todo, level, n, r);
    assert r !in SetOf(todo);
  }

  lemma TreeGrows(refs: seq<set<nat>>, roots: set<nat>, parent: map<nat, Option<nat>>, level: map<nat, nat>, n: nat,
                  r: nat)
    requires Tree(refs, roots, parent, level) && RootsAtTop(roots, parent, level)
    requires n in parent && n < |refs| && r in refs[n] && r !in parent
    ensures r !in level
    ensures Tree(refs, roots, parent[r := Some(n)], level[r := level[n] + 1])
    ensures RootsAtTop(roots, parent[r := Some(n)], level[r := level[n] + 1])
  {
    var parent', level' := parent[r := Some(n)], level[r := level[n] + 1];
    assert level'.Keys == parent'.Keys;
    forall m | m in parent'
      ensures Hangs(refs, roots, parent', level', m)
    {
      if m != r {
        assert Hangs(refs, roots, parent, level, m);
      }
    }
  }

  lemma ExploredGrows(refs: seq<set<nat>>, roots: set<nat>, reach: set<nat>, parent: map<nat, Option<nat>>,
                      todo: seq<nat>, level: map<nat, nat>, n: nat, r: nat)
    requires Visiting(refs, roots, reach, parent, todo, level, n) && r !in level && r !in parent
    ensures Explored(refs, level[r := level[n] + 1], reach - {n})
  {
    hide Tree; hide RootsAtTop; hide NoDup; hide SetOf;
  }

  ghost predicate Below(level: map<nat, nat>, n: nat, s: set<nat>) {
    n in level && forall r :: r in s ==> r in level && level[r] <= level[n] + 1
  }

  lemma NoneBelow(level: map<nat, nat>, n: nat)
    requires n in level
    ensures Below(level, n, {})
  {
  }

  lemma BelowOneMore(level: map<nat, nat>, n: nat, s: set<nat>, r: nat)
    requires Below(level, n, s) && r !in level
    ensures Below(level[r := level[n] + 1], n, s + {r})
  {
  }

  lemma LookAt(refs: seq<set<nat>>, roots: set<nat>, reach: set<nat>, parent: map<nat, Option<nat>>, todo: seq<nat>,
               level: map<nat, nat>, n: nat, r: nat, seen: set<nat>)
    requires IsGraph(refs) && Visiting(refs, roots, reach, parent, todo, level, n)
    requires n < |refs| && r in refs[n] && Below(level, n, seen)
    ensures n in level
    ensures r !in reach && r !in parent ==>
      && Visiting(refs, roots, reach, parent[r := Some(n)], todo + [r], level[r := level[n] + 1], n)
      && Below(level[r := level[n] + 1], n, seen + {r})
    ensures r in reach || r in parent ==> Below(level, n, seen + {r})
  {
    TreeKeys(refs, roots, parent, level);
    if r !in reach && r !in parent {
      AddChild(refs, roots, reach, parent, todo, level, n, r);
      BelowOneMore(level, n, seen, r);
    } else {
      hide Tree; hide Explored; hide RootsAtTop;
    }
  }

  lemma TreeKeys(refs: seq<set<nat>>, roots: set<nat>, parent: map<nat, Option<nat>>, level: map<nat, nat>)
    requires Tree(refs, roots, parent, level)
    ensures level.Keys == parent.Keys
  {
  }

  lemma RoundDone(refs: seq<set<nat>>, roots: set<nat>, reach: set<nat>, parent: map<nat, Option<nat>>,
                  todo: seq<nat>, level: map<nat, nat>, n: nat)
    requires Visiting(refs, roots, reach, parent, todo, level, n) && n < |refs|
    requires Below(level, n, refs[n])
    ensures Searching(refs, roots, reach, parent, todo, level)
  {
    hide Tree; hide RootsAtTop;
    assert Explored(refs, level, reach) by {
      forall m, r | m in reach && m in level && m < |refs| && r in refs[m]
        ensures r in level && level[r] <= level[m] + 1
      {
        if m != n { assert m in reach - {n}; }
      }
    }
    hide Explored;
  }

  /** The queue while the roots are put into it. */
  ghost predicate Listed(done: set<nat>, todo: seq<nat>, parent: map<nat, Option<nat>>, level: map<nat, nat>) {
    && SetOf(todo) == parent.Keys == level.Keys == done && NoDup(todo)
    && forall n :: n in done ==> parent[n].None? && level[n] == 0
  }

  lemma ListNone()
    ensures Listed({}, [], map[], map[])
  {
  }

  lemma ListOne(done: set<nat>, todo: seq<nat>, parent: map<nat, Option<nat>>, level: map<nat, nat>, r: nat)
    requires Listed(done, todo, parent, level) && r !in done
    ensures Listed(done + {r}, todo + [r], parent[r := None], level[r := 0])
  {
    assert SetOf(todo + [r]) == SetOf(todo) + {r};
    assert r !in SetOf(todo);
  }

  lemma StartSearch(refs: seq<set<nat>>, roots: set<nat>, parent: map<nat, Option<nat>>, todo: seq<nat>,
                    level: map<nat, nat>)
    requires Listed(roots, todo, parent, level) && InRange(roots, |refs|)
    ensures Searching(refs, roots, {}, parent, todo, level)
  {
    assert forall i :: 0 <= i < |todo| ==> todo[i] in SetOf(todo);
  }

  lemma Bounded(refs: seq<set<nat>>, roots: set<nat>, reach: set<nat>, parent: map<nat, Option<nat>>, todo: seq<nat>,
                level: map<nat, nat>)
    requires Searching(refs, roots, reach, parent, todo, level)
    ensures InRange(reach, |refs|) && |reach| <= |refs|
  {
    hide Tree; hide Explored; hide RootsAtTop; hide Queued;
    WithinRange(reach, |refs|);
  }

  lemma Searched(refs: seq<set<nat>>, roots: set<nat>, reach: set<nat>, parent: map<nat, Option<nat>>,
                 level: map<nat, nat>)
    requires Searching(refs, roots, reach, parent, [], level)
    ensures Reachable(refs, roots, reach) && parent.Keys == reach
    ensures forall n :: n in reach ==> HasChain(refs, roots, parent, n)
  {
    hide Within; hide Reachable; hide Queued; hide RootsAtTop; hide Explored;
    assert SetOf([]) == {};
    LeastClosed(refs, roots, reach, parent, level);
    TreeKeys(refs, roots, parent, level);
    hide Tree;
    assert level.Keys == reach;
    forall n | n in reach
      ensures HasChain(refs, roots, parent, n)
    {
      ChainedLevels(refs, roots, parent, level, n);
    }
  }

  lemma WithinRange(s: set<nat>, n: nat)
    requires InRange(s, n)
    ensures |s| <= n
    decreases n
  {
    if n > 0 {
      WithinRange(s - {n - 1}, n - 1);
    } else {
      assert s == {};
    }
  }

  lemma SeenClosed(refs: seq<set<nat>>, reach: set<nat>, level: map<nat, nat>)
    requires level.Keys == reach && Explored(refs, level, reach)
    ensures Closed(refs, reach)
  {
    forall n, r | n in reach && n < |refs| && r in refs[n]
      ensures r in reach
    {
      assert r in level;
    }
  }

  lemma SeenInside(refs: seq<set<nat>>, roots: set<nat>, parent: map<nat, Option<nat>>, level: map<nat, nat>,
                   s: set<nat>)
    requires Tree(refs, roots, parent, level) && roots <= s && Closed(refs, s)
    ensures parent.Keys <= s
  {
    TreeKeys(refs, roots, parent, level);
    hide Within; hide Closed;
    forall n | n in parent.Keys
      ensures n in s
    {
      LevelsReach(refs, roots, parent, level, n);
      hide Tree;
      WithinClosed(refs, roots, level[n], s);
    }
  }

  lemma LeastClosed(refs: seq<set<nat>>, roots: set<nat>, reach: set<nat>, parent: map<nat, Option<nat>>,
                    level: map<nat, nat>)
    requires Tree(refs, roots, parent, level) && Explored(refs, level, reach) && parent.Keys == reach
    ensures Reachable(refs, roots, reach)
  {
    TreeKeys(refs, roots, parent, level);
    SeenClosed(refs, reach, level);
    assert roots <= reach;
    hide Tree; hide Closed; hide Explored;
    forall s | roots <= s && Closed(refs, s)
      ensures reach <= s
    {
      SeenInside(refs, roots, parent, level, s);
    }
  }

  class Finder {
    var refs: seq<set<nat>>
    var current: map<string, nat>
    var roots: set<nat>
    var assigns: seq<(nat, nat)>
    var reach: set<nat>
    var parent: map<nat, Option<nat>>

    ghost function Contents(): Table
      reads this
    {
      Table(refs, current, roots, assigns)
    }

    constructor ()
      ensures Contents() == Read([])
    {
      refs, current, roots, assigns, reach, parent := [], map[], {}, [], {}, map[];
    }

    method NewNode(name: string, body: seq<string>)
      modifies this
      ensures refs == old(refs) + [Resolve(old(current), body)]
      ensures current == old(current)[name := |old(refs)|]
      ensures roots == old(roots) && assigns == old(assigns)
    {
      refs := refs + [Resolve(current, body)];
      current := current[name := |refs| - 1];
    }

    method Load(items: seq<Item>)
      requires Contents() == Read([])
      modifies this
      ensures refs == Read(items).refs && assigns == Read(items).assigns && current == Read(items).current
      ensures roots == Roots(Read(items))
    {
      for i := 0 to |items|
        invariant Contents() == Read(items[..i])
      {
        assert items[..i + 1][..|items[..i + 1]| - 1] == items[..i];
        match items[i]
        case Colon(name, body) => NewNode(name, body);
        case Define(name, before, after) =>
          roots := roots + Resolve(current, after);
          NewNode(name, before);
        case Assign(xt, defer, _) =>
          if xt in current && defer in current {
            assigns := assigns + [(current[xt], current[defer])];
          }
        case Line(words) => roots := roots + Resolve(current, words);
      }
      assert items[..|items|] == items;
      if MAIN in current {
        roots := roots + {current[MAIN]};
      }
    }

    /** last_is, and the references it adds. */
    method LinkDefers()
      requires forall j :: 0 <= j < |assigns| ==> assigns[j].1 < |refs|
      modifies this`refs
      ensures refs == Linked(old(refs), assigns)
    {
      var last: map<nat, nat> := map[];
      for i := 0 to |assigns|
        invariant forall y :: y in last ==> last[y] < i && assigns[last[y]].1 == y
        invariant forall j :: 0 <= j < i ==> assigns[j].1 in last && j <= last[assigns[j].1]
      {
        last := last[assigns[i].1 := i];
      }
      ghost var refs0 := refs;
      var left := last.Keys;
      while left != {}
        invariant left <= last.Keys && |refs| == |refs0|
        invariant forall y :: 0 <= y < |refs| ==>
          refs[y] == if y in last && y !in left then refs0[y] + {assigns[last[y]].0} else refs0[y]
        decreases |left|
      {
        var y :| y in left;
        left := left - {y};
        refs := refs[y := refs[y] + {assigns[last[y]].0}];
      }
      LastLinks(refs0, assigns, last, refs);
    }

    /** todo = list(roots), each without a parent. */
    method ListRoots() returns (todo: seq<nat>, ghost level: map<nat, nat>)
      modifies this`reach, this`parent
      ensures reach == {} && Listed(roots, todo, parent, level)
    {
      hide Listed;
      reach, parent, todo, level := {}, map[], [], map[];
      var left := roots;
      ListNone();
      assert roots - left == {};
      while left != {}
        invariant reach == {} && left <= roots && Listed(roots - left, todo, parent, level)
        decreases |left|
      {
        var r :| r in left;
        ListOne(roots - left, todo, parent, level, r);
        assert roots - (left - {r}) == roots - left + {r};
        left, todo := left - {r}, todo + [r];
        parent, level := parent[r := None], level[r := 0];
      }
      assert roots - {} == roots;
    }

    method Search()
      requires IsGraph(refs) && InRange(roots, |refs|)
      modifies this`reach, this`parent
      ensures Reachable(refs, roots, reach) && parent.Keys == reach && InRange(reach, |refs|)
      ensures forall n :: n in reach ==> HasChain(refs, roots, parent, n)
    {
      hide Reachable; hide HasChain; hide IsGraph; hide Listed; hide Searching;
      var todo, level := ListRoots();
      StartSearch(refs, roots, parent, todo, level);
      hide InRange;
      while todo != []
        invariant Searching(refs, roots, reach, parent, todo, level) && |reach| <= |refs|
        decreases |refs| - |reach|
      {
        assert todo == [todo[0]] + todo[1..];
        todo, level := Visit(todo[0], todo[1..], level);
        Bounded(refs, roots, reach, parent, todo, level);
      }
      Bounded(refs, roots, reach, parent, todo, level);
      Searched(refs, roots, reach, parent, level);
    }

    /** One reference of n's: new, it gets n for its parent and goes into the queue. */
    method Look(n: nat, r: nat, todo0: seq<nat>, ghost level0: map<nat, nat>, ghost seen: set<nat>)
      returns (todo: seq<nat>, ghost level: map<nat, nat>)
      requires IsGraph(refs) && n < |refs| && r in refs[n]
      requires Visiting(refs, roots, reach, parent, todo0, level0, n) && Below(level0, n, seen)
      modifies this`parent
      ensures Visiting(refs, roots, reach, parent, todo, level, n) && Below(level, n, seen + {r})
    {
      LookAt(refs, roots, reach, parent, todo0, level0, n, r, seen);
      hide *;
      todo, level := todo0, level0;
      if r !in reach && r !in parent {
        parent, todo, level := parent[r := Some(n)], todo + [r], level[r := level[n] + 1];
      }
    }

    /**
     One round: n, out of the queue, is reached, and what it refers to that is new goes in. (The
     script checks first that n has not been reached before; no node is queued twice.)
     */
    method Visit(n: nat, rest: seq<nat>, ghost level0: map<nat, nat>)
      returns (todo: seq<nat>, ghost level: map<nat, nat>)
      requires IsGraph(refs) && Searching(refs, roots, reach, parent, [n] + rest, level0)
      modifies this`reach, this`parent
      ensures n !in old(reach) && reach == old(reach) + {n}
      ensures Searching(refs, roots, reach, parent, todo, level)
    {
      HeadOfQueue(refs, roots, reach, parent, n, rest, level0);
      hide *;
      todo, level := rest, level0;
      reach := reach + {n};
      var mine := refs[n];
      var left := mine;
      ghost var seen, done: set<nat> := {}, reach;
      NoneBelow(level, n);
      while left != {}
        invariant reach == done && seen + left == mine
        invariant Visiting(refs, roots, done, parent, todo, level, n) && Below(level, n, seen)
        decreases |left|
      {
        var r :| r in left;
        assert seen + {r} + (left - {r}) == mine;
        left := left - {r};
        todo, level := Look(n, r, todo, level, seen);
        seen := seen + {r};
      }
      assert seen == mine;
      RoundDone(refs, roots, reach, parent, todo, level, n);
    }

    /** The chain --why shows for definition k: its parents in turn, 40 nodes at most. */
    method Why(k: nat) returns (chain: seq<nat>, ghost distance: nat)
      requires forall n :: n in parent ==> HasChain(refs, roots, parent, n)
      ensures chain == [] <==> k !in parent
      ensures k in parent ==>
        && Path(refs, chain) && chain[0] == k && Distance(refs, roots, k, distance)
        && |chain| == (if distance < 40 then distance + 1 else 40)
        && (distance < 40 ==> chain[distance] in roots)
    {
      chain, distance := [], 0;
      assert Path(refs, []);
      if k !in parent { return; }
      assert HasChain(refs, roots, parent, k);
      distance :| Chained(refs, roots, parent, k, distance);
      ChainStep(refs, roots, parent, k, distance);
      hide Distance; hide HasChain; hide Chained; hide Path;
      ghost var e: nat := distance;
      var n: Option<nat> := Some(k);
      while n.Some? && n.value in parent && |chain| < 40
        invariant |chain| <= 40 && Path(refs, chain)
        invariant if chain == [] then n == Some(k) else chain[0] == k
        invariant n.Some? ==> e + |chain| == distance && Chained(refs, roots, parent, n.value, e)
        invariant n.None? ==> |chain| == distance + 1 && chain[distance] in roots
        invariant n.Some? && chain != [] ==> n.value < |refs| && chain[|chain| - 1] in refs[n.value]
        decreases 40 - |chain|
      {
        ChainStep(refs, roots, parent, n.value, e);
        PathGrows(refs, chain, n.value);
        chain := chain + [n.value];
        n := parent[n.value];
        e := if n.Some? then e - 1 else e;
      }
    }
  }

  // ---- deleting ------------------------------------------------------------

  /**
   What --delete does with each item: a definition stays if it is reached, an IS line if it is the
   last for a deferred word that is.
   */
  predicate Survives(items: seq<Item>, i: nat, reach: set<nat>)
    requires i < |items|
  {
    var t := Read(items[..i]);
    var all := Read(items).assigns;
    match items[i]
    case Assign(xt, defer, _) =>
      xt in t.current && defer in t.current ==>
        t.current[defer] in reach && |t.assigns| < |all| && IsLast(all, |t.assigns|)
    case Line(_) => true
    case _ => |t.refs| in reach
  }

  function Kept(items: seq<Item>, n: nat, reach: set<nat>): seq<Item>
    requires n <= |items|
  {
    if n == 0 then []
    else Kept(items, n - 1, reach) + if Survives(items, n - 1, reach) then [items[n - 1]] else []
  }

  /** A surviving definition's number in the shortened sources. */
  function Rank(reach: set<nat>, n: nat): nat {
    if n == 0 then 0 else Rank(reach, n - 1) + if n - 1 in reach then 1 else 0
  }

  function Renamed(reach: set<nat>, s: set<nat>): set<nat> {
    set x | x in s :: Rank(reach, x)
  }

  lemma {:induction false} RankGrows(reach: set<nat>, n: nat, m: nat)
    requires n < m && n in reach
    ensures Rank(reach, n) < Rank(reach, m)
  {
    if n < m - 1 {
      RankGrows(reach, n, m - 1);
    }
  }

  ghost predicate SameNames(c: map<string, nat>, k: map<string, nat>, reach: set<nat>) {
    && (forall w :: w in k ==> w in c)
    && forall w :: w in c && c[w] in reach ==> w in k && k[w] == Rank(reach, c[w])
  }

  /** What survives resolves as it did. */
  lemma ResolveSame(c: map<string, nat>, k: map<string, nat>, reach: set<nat>, words: seq<string>)
    requires SameNames(c, k, reach) && Resolve(c, words) <= reach
    ensures Resolve(k, words) == Renamed(reach, Resolve(c, words))
  {
    forall x | x in Resolve(k, words)
      ensures x in Renamed(reach, Resolve(c, words))
    {
      var w :| w in words && w in k && k[w] == x;
      assert c[w] in Resolve(c, words);
    }
    forall x | x in Renamed(reach, Resolve(c, words))
      ensures x in Resolve(k, words)
    {
      var y :| y in Resolve(c, words) && Rank(reach, y) == x;
      var w :| w in words && w in c && c[w] == y;
    }
  }

  /** The assignments that stay, among the first n. */
  function KeptAssigns(all: seq<(nat, nat)>, n: nat, reach: set<nat>): seq<(nat, nat)>
    requires n <= |all|
  {
    if n == 0 then []
    else
      KeptAssigns(all, n - 1, reach)
      + if all[n - 1].1 in reach && IsLast(all, n - 1) then [(Rank(reach, all[n - 1].0), Rank(reach, all[n - 1].1))]
          else []
  }

  ghost predicate SameRefs(refs: seq<set<nat>>, kept: seq<set<nat>>, reach: set<nat>) {
    && |kept| == Rank(reach, |refs|)
    && forall n: nat :: n < |refs| && n in reach ==>
         Rank(reach, n) < |kept| && kept[Rank(reach, n)] == Renamed(reach, refs[n])
  }

  lemma RefsGrow(refs: seq<set<nat>>, kept: seq<set<nat>>, reach: set<nat>, s: set<nat>)
    requires SameRefs(refs, kept, reach)
    ensures |refs| in reach ==> SameRefs(refs + [s], kept + [Renamed(reach, s)], reach)
    ensures |refs| !in reach ==> SameRefs(refs + [s], kept, reach)
  {
    forall n: nat | n < |refs| && n in reach
      ensures Rank(reach, n) < Rank(reach, |refs|)
    {
      RankGrows(reach, n, |refs|);
    }
  }

  /** Reading on only adds. */
  lemma {:induction false} ReadGrows(items: seq<Item>, i: nat)
    requires i <= |items|
    ensures
      var t, all := Read(items[..i]), Read(items);
      && t.refs <= all.refs && t.assigns <= all.assigns && t.roots <= all.roots
    decreases |items| - i
  {
    if i == |items| {
      assert items[..i] == items;
    } else {
      ReadGrows(items, i + 1);
      assert items[..i + 1][..i] == items[..i];
    }
  }

  ghost predicate Restricted(t: Table, k: Table, reach: set<nat>) {
    && SameNames(t.current, k.current, reach)
    && SameRefs(t.refs, k.refs, reach)
    && k.roots <= Renamed(reach, t.roots)
  }

  /** What Reachable says that deleting rests on: nothing that survives refers to what does not. */
  ghost predicate Sound(t: Table, reach: set<nat>) {
    && t.roots <= reach && Closed(t.refs, reach)
    && forall j :: 0 <= j < |t.assigns| && t.assigns[j].1 in reach && IsLast(t.assigns, j) ==> t.assigns[j].0 in reach
  }

  lemma ReachIsSound(t: Table, reach: set<nat>)
    requires WellFormed(t) && Reachable(Linked(t.refs, t.assigns), Roots(t), reach)
    ensures Sound(t, reach)
  {
    var linked := Linked(t.refs, t.assigns);
    forall n | n in reach && n < |t.refs|
      ensures t.refs[n] <= reach
    {
      assert t.refs[n] <= linked[n] <= reach;
    }
    forall j | 0 <= j < |t.assigns| && t.assigns[j].1 in reach && IsLast(t.assigns, j)
      ensures t.assigns[j].0 in reach
    {
      assert t.assigns[j].0 in linked[t.assigns[j].1];
    }
  }

  /** One more item of the sources, kept or not. */
  lemma KeepOne(t: Table, k: Table, all: Table, reach: set<nat>, it: Item)
    requires Restricted(t, k, reach) && Sound(all, reach) && !it.Assign?
    requires ReadOne(t, it).refs <= all.refs && ReadOne(t, it).roots <= all.roots
    ensures Defines(it) && |t.refs| !in reach ==> Restricted(ReadOne(t, it), k, reach)
    ensures !Defines(it) || |t.refs| in reach ==> Restricted(ReadOne(t, it), ReadOne(k, it), reach)
    ensures ReadOne(k, it).assigns == k.assigns
  {
    hide Rank; hide Renamed;
    var u := ReadOne(t, it);
    match it
    case Colon(name, body) =>
      RefsGrow(t.refs, k.refs, reach, Resolve(t.current, body));
      if |t.refs| in reach {
        assert u.refs[|t.refs|] == all.refs[|t.refs|] == Resolve(t.current, body);
        ResolveSame(t.current, k.current, reach, body);
      }
    case Define(name, before, after) =>
      RefsGrow(t.refs, k.refs, reach, Resolve(t.current, before));
      RenamedUnion(reach, t.roots, Resolve(t.current, after));
      if |t.refs| in reach {
        assert u.refs[|t.refs|] == all.refs[|t.refs|] == Resolve(t.current, before);
        ResolveSame(t.current, k.current, reach, before);
        ResolveSame(t.current, k.current, reach, after);
      }
    case Line(words) =>
      ResolveSame(t.current, k.current, reach, words);
      RenamedUnion(reach, t.roots, Resolve(t.current, words));
  }

  lemma RenamedUnion(reach: set<nat>, a: set<nat>, b: set<nat>)
    ensures Renamed(reach, a + b) == Renamed(reach, a) + Renamed(reach, b)
  {
  }

  lemma {:induction false} KeptReads(items: seq<Item>, n: nat, reach: set<nat>)
    requires n <= |items| && Sound(Read(items), reach)
    ensures
      var t, k, all := Read(items[..n]), Read(Kept(items, n, reach)), Read(items);
      && Restricted(t, k, reach)
      && |t.assigns| <= |all.assigns| && k.assigns == KeptAssigns(all.assigns, |t.assigns|, reach)
  {
    hide Restricted; hide Sound; hide ReadOne;
    var all := Read(items);
    ReadGrows(items, n);
    if n == 0 {
      NothingRead(reach);
    } else {
      KeptReads(items, n - 1, reach);
      var it, t, k := items[n - 1], Read(items[..n - 1]), Read(Kept(items, n - 1, reach));
      assert items[..n][..n - 1] == items[..n - 1];
      assert Read(items[..n]) == ReadOne(t, it);
      var kept := Kept(items, n - 1, reach) + [it];
      assert kept[..|kept| - 1] == Kept(items, n - 1, reach);
      assert Read(kept) == ReadOne(k, it);
      assert Kept(items, n, reach) == if Survives(items, n - 1, reach) then kept else Kept(items, n - 1, reach);
      if it.Assign? {
        KeepAssign(t, k, all, reach, it);
      } else {
        KeepOne(t, k, all, reach, it);
        NoAssign(t, it);
      }
    }
  }

  lemma NothingRead(reach: set<nat>)
    ensures Restricted(Read([]), Read([]), reach)
  {
  }

  lemma NoAssign(t: Table, it: Item)
    requires !it.Assign?
    ensures ReadOne(t, it).assigns == t.assigns
  {
  }

  lemma KeepAssign(t: Table, k: Table, all: Table, reach: set<nat>, it: Item)
    requires Restricted(t, k, reach) && Sound(all, reach) && it.Assign?
    requires ReadOne(t, it).assigns <= all.assigns
    requires k.assigns == KeptAssigns(all.assigns, |t.assigns|, reach)
    ensures
      var u, m := ReadOne(t, it), ReadOne(k, it);
      var recorded := it.xt in t.current && it.defer in t.current;
      var stays := recorded ==> t.current[it.defer] in reach && IsLast(all.assigns, |t.assigns|);
      && |u.assigns| <= |all.assigns| && (recorded ==> |t.assigns| < |all.assigns|)
      && Restricted(u, if stays then m else k, reach)
      && (if stays then m else k).assigns == KeptAssigns(all.assigns, |u.assigns|, reach)
  {
    hide SameRefs; hide Rank; hide Renamed;
    if it.xt in t.current && it.defer in t.current {
      assert all.assigns[|t.assigns|] == (t.current[it.xt], t.current[it.defer]);
    }
  }

  /**
   Deleting what the search did not reach changes nothing for what it did: the shortened sources
   read as the same definitions, in the same order, each with the references it had.
   */
  lemma DeletingKeepsMeaning(items: seq<Item>, reach: set<nat>)
    requires Reachable(Linked(Read(items).refs, Read(items).assigns), Roots(Read(items)), reach)
    ensures
      var t, k := Read(items), Read(Kept(items, |items|, reach));
      && |k.refs| == Rank(reach, |t.refs|)
      && forall n: nat :: n < |t.refs| && n in reach ==>
           && t.refs[n] <= reach && Rank(reach, n) < |k.refs|
           && k.refs[Rank(reach, n)] == Renamed(reach, t.refs[n])
           && Linked(k.refs, k.assigns)[Rank(reach, n)] == Renamed(reach, Linked(t.refs, t.assigns)[n])
  {
    var t, k := Read(items), Read(Kept(items, |items|, reach));
    ReadWellFormed(items);
    ReachIsSound(t, reach);
    KeptReads(items, |items|, reach);
    assert items[..|items|] == items;
    forall n: nat | n < |t.refs| && n in reach
      ensures Linked(k.refs, k.assigns)[Rank(reach, n)] == Renamed(reach, Linked(t.refs, t.assigns)[n])
    {
      LinkedSame(t, k, reach, n);
    }
  }

  /** Every assignment that stays, and no other, is in the shortened list; each is still the last of its word. */
  lemma {:induction false} KeptAssignsAre(all: seq<(nat, nat)>, n: nat, reach: set<nat>, x: (nat, nat))
    requires n <= |all|
    ensures x in KeptAssigns(all, n, reach) <==>
      exists j :: 0 <= j < n && all[j].1 in reach && IsLast(all, j)
          && x == (Rank(reach, all[j].0), Rank(reach, all[j].1))
  {
    hide Rank; hide IsLast;
    if n > 0 {
      KeptAssignsAre(all, n - 1, reach, x);
    }
  }

  lemma RankInjective(reach: set<nat>, n: nat, m: nat)
    requires n in reach && m in reach && Rank(reach, n) == Rank(reach, m)
    ensures n == m
  {
    if n < m { RankGrows(reach, n, m); }
    if m < n { RankGrows(reach, m, n); }
  }

  lemma {:induction false} KeptAssignsDistinct(all: seq<(nat, nat)>, n: nat, reach: set<nat>, i: nat, j: nat)
    requires n <= |all| && i < j < |KeptAssigns(all, n, reach)|
    ensures KeptAssigns(all, n, reach)[i].1 != KeptAssigns(all, n, reach)[j].1
  {
    hide Rank;
    var s := KeptAssigns(all, n - 1, reach);
    if j < |s| {
      KeptAssignsDistinct(all, n - 1, reach, i, j);
    } else {
      KeptAssignsAre(all, n - 1, reach, s[i]);
      var h :| 0 <= h < n - 1 && all[h].1 in reach && IsLast(all, h)
          && s[i] == (Rank(reach, all[h].0), Rank(reach, all[h].1));
      if s[i].1 == Rank(reach, all[n - 1].1) {
        RankInjective(reach, all[h].1, all[n - 1].1);
      }
    }
  }

  lemma LinkedSame(t: Table, k: Table, reach: set<nat>, n: nat)
    requires SameRefs(t.refs, k.refs, reach) && n < |t.refs| && n in reach
    requires k.assigns == KeptAssigns(t.assigns, |t.assigns|, reach)
    ensures Rank(reach, n) < |k.refs|
    ensures Linked(k.refs, k.assigns)[Rank(reach, n)] == Renamed(reach, Linked(t.refs, t.assigns)[n])
  {
    hide Rank;
    var y := Rank(reach, n);
    var a := set j | 0 <= j < |t.assigns| && t.assigns[j].1 == n && IsLast(t.assigns, j) :: t.assigns[j].0;
    var b := set j | 0 <= j < |k.assigns| && k.assigns[j].1 == y && IsLast(k.assigns, j) :: k.assigns[j].0;
    forall x | x in b
      ensures x in Renamed(reach, a)
    {
      var j :| 0 <= j < |k.assigns| && k.assigns[j].1 == y && k.assigns[j].0 == x;
      KeptAssignsAre(t.assigns, |t.assigns|, reach, k.assigns[j]);
      var h :| 0 <= h < |t.assigns| && t.assigns[h].1 in reach && IsLast(t.assigns, h)
          && k.assigns[j] == (Rank(reach, t.assigns[h].0), Rank(reach, t.assigns[h].1));
      RankInjective(reach, t.assigns[h].1, n);
      assert t.assigns[h].0 in a;
    }
    forall x | x in Renamed(reach, a)
      ensures x in b
    {
      var z :| z in a && Rank(reach, z) == x;
      var h :| 0 <= h < |t.assigns| && t.assigns[h].1 == n && IsLast(t.assigns, h) && t.assigns[h].0 == z;
      KeptAssignsAre(t.assigns, |t.assigns|, reach, (x, y));
      var j :| 0 <= j < |k.assigns| && k.assigns[j] == (x, y);
      assert IsLast(k.assigns, j) by {
        forall i | j < i < |k.assigns|
          ensures k.assigns[i].1 != y
        {
          KeptAssignsDistinct(t.assigns, |t.assigns|, reach, j, i);
        }
      }
    }
    RenamedUnion(reach, t.refs[n], a);
  }

  /** A name in the shortened sources means what it did, or an older definition that survives. */
  ghost predicate OlderNames(c: map<string, nat>, k: map<string, nat>, reach: set<nat>) {
    forall w :: w in k ==>
      && w in c
      && exists m :: m in reach && m <= c[w] && k[w] == Rank(reach, m)
  }

  lemma NameAdded(t: Table, k: Table, reach: set<nat>, name: string)
    requires OlderNames(t.current, k.current, reach) && |k.refs| == Rank(reach, |t.refs|)
    requires forall w :: w in t.current ==> t.current[w] < |t.refs|
    ensures |t.refs| in reach ==> OlderNames(t.current[name := |t.refs|], k.current[name := |k.refs|], reach)
    ensures OlderNames(t.current[name := |t.refs|], k.current, reach)
  {
    hide Rank;
  }

  /** One more item read, in the shortened sources too if it survives. */
  lemma ItemOlder(t: Table, k: Table, reach: set<nat>, it: Item, stays: bool)
    requires OlderNames(t.current, k.current, reach) && |k.refs| == Rank(reach, |t.refs|) && WellFormed(t)
    requires Defines(it) ==> (stays <==> |t.refs| in reach)
    ensures OlderNames(ReadOne(t, it).current, (if stays then ReadOne(k, it) else k).current, reach)
  {
    hide Rank; hide OlderNames; hide Resolve;
    if Defines(it) {
      NameAdded(t, k, reach, it.name);
    }
  }

  lemma {:induction false} NamesOlder(items: seq<Item>, n: nat, reach: set<nat>)
    requires n <= |items| && Sound(Read(items), reach)
    ensures OlderNames(Read(items[..n]).current, Read(Kept(items, n, reach)).current, reach)
  {
    hide Sound; hide OlderNames; hide ReadOne; hide WellFormed; hide SameNames; hide Rank;
    hide Survives;
    if n == 0 {
      assert items[..0] == [] && Kept(items, 0, reach) == [];
      NoNames(reach);
    } else {
      NamesOlder(items, n - 1, reach);
      KeptReads(items, n - 1, reach);
      DefinitionSurvives(items, n, reach);
      ReadWellFormed(items[..n - 1]);
      NextKept(items, n, reach);
      ItemOlder(Read(items[..n - 1]), Read(Kept(items, n - 1, reach)), reach, items[n - 1],
                Survives(items, n - 1, reach));
    }
  }

  lemma NextKept(items: seq<Item>, n: nat, reach: set<nat>)
    requires 0 < n <= |items|
    ensures
      var it, k := items[n - 1], Read(Kept(items, n - 1, reach));
      && Read(items[..n]) == ReadOne(Read(items[..n - 1]), it)
      && Read(Kept(items, n, reach)) == if Survives(items, n - 1, reach) then ReadOne(k, it) else k
  {
    hide ReadOne; hide Survives;
    assert items[..n][..n - 1] == items[..n - 1];
    var kept := Kept(items, n - 1, reach) + [items[n - 1]];
    assert kept[..|kept| - 1] == Kept(items, n - 1, reach);
    assert Kept(items, n, reach) == if Survives(items, n - 1, reach) then kept else Kept(items, n - 1, reach);
  }

  lemma DefinitionSurvives(items: seq<Item>, n: nat, reach: set<nat>)
    requires n <= |items|
    ensures n > 0 && Defines(items[n - 1]) ==>
      (Survives(items, n - 1, reach) <==> |Read(items[..n - 1]).refs| in reach)
  {
    hide Read;
  }

  lemma NoNames(reach: set<nat>)
    ensures OlderNames(Read([]).current, Read([]).current, reach)
  {
  }

  /**
   What is deleted under a surviving IS line whose word is known: only a definition whose deferred word
   was not known there; and the line names in the shortened sources the definition it named exactly
   when that is reached.
   */
  lemma DanglesExactly(items: seq<Item>, reach: set<nat>, i: nat)
    requires Reachable(Linked(Read(items).refs, Read(items).assigns), Roots(Read(items)), reach)
    requires i < |items| && items[i].Assign? && Survives(items, i, reach) && items[i].xt in Read(items[..i]).current
    ensures
      var t, xt, defer := Read(items[..i]), items[i].xt, items[i].defer;
      var k := Read(Kept(items, i, reach));
      && (t.current[xt] !in reach ==> defer !in t.current)
      && (defer in t.current ==> t.current[xt] in reach && t.current[defer] in reach)
      && (t.current[xt] in reach <==> xt in k.current && k.current[xt] == Rank(reach, t.current[xt]))
  {
    hide Reachable; hide Linked; hide Read; hide Roots; hide Survives; hide Sound; hide Kept;
    var t, all := Read(items[..i]), Read(items);
    ReadWellFormed(items);
    ReachIsSound(all, reach);
    AssignedReached(items, reach, i);
    KeptReads(items, i, reach);
    NamesOlder(items, i, reach);
    NameOrOlder(t, Read(Kept(items, i, reach)), reach, items[i].xt);
  }

  /** Where both words of a surviving IS line are known, both are reached. */
  lemma AssignedReached(items: seq<Item>, reach: set<nat>, i: nat)
    requires Sound(Read(items), reach) && i < |items| && items[i].Assign? && Survives(items, i, reach)
    ensures
      var t, it := Read(items[..i]), items[i];
      it.xt in t.current && it.defer in t.current ==> t.current[it.xt] in reach && t.current[it.defer] in reach
  {
    hide Closed;
    var t, all, it := Read(items[..i]), Read(items), items[i];
    ReadGrows(items, i + 1);
    assert items[..i + 1][..i] == items[..i];
    if it.xt in t.current && it.defer in t.current {
      assert all.assigns[|t.assigns|] == (t.current[it.xt], t.current[it.defer]);
    }
  }

  lemma NameOrOlder(t: Table, k: Table, reach: set<nat>, w: string)
    requires Restricted(t, k, reach) && OlderNames(t.current, k.current, reach) && w in t.current
    ensures t.current[w] in reach <==> w in k.current && k.current[w] == Rank(reach, t.current[w])
  {
    hide Rank; hide SameRefs; hide Renamed;
    if w in k.current {
      var m :| m in reach && m <= t.current[w] && k.current[w] == Rank(reach, m);
      if m < t.current[w] { RankGrows(reach, m, t.current[w]); }
    }
  }

  /** Such a line: its deferred word is defined in no file read, and what it assigns is deleted. */
  lemma UnknownDeferDangles(reach: set<nat>)
    ensures
      var items := [Colon("A", []), Assign("A", "HOOK", [])];
      && (Reachable(Linked(Read(items).refs, Read(items).assigns), Roots(Read(items)), reach) ==>
            reach == {} && Kept(items, 2, reach) == [Assign("A", "HOOK", [])]
            && "A" !in Read(Kept(items, 2, reach)).current)
      && Reachable(Linked(Read(items).refs, Read(items).assigns), Roots(Read(items)), {})
  {
    var a, b := Colon("A", []), Assign("A", "HOOK", []);
    var items := [a, b];
    assert items[..1] == [a] && [a][..0] == [] && items[..0] == [];
    assert Read([a]) == ReadOne(Read([]), a);
    var t := Read(items);
    assert t == ReadOne(Read([a]), b);
    assert Roots(t) == {};
    assert Closed(Linked(t.refs, t.assigns), {});
    if reach == {} {
      assert Kept(items, 1, reach) == [] by { assert Kept(items, 0, reach) == []; }
      assert Kept(items, 2, reach) == [b];
      assert [b][..0] == [];
      assert Read([b]) == ReadOne(Read([]), b);
    }
  }
}
