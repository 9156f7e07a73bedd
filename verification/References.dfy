/**
 What DeadWords reads out of the sources (tools/dead-words.py:61-106, 135, 145-146), said of the items and
 their words alone: which definition a name means where it is used, what each definition refers to, which
 are roots and what is deleted.
 */
module References {
  import opened DeadWords

  /** The number of the definition at i: how many come before it. */
  ghost function Number(items: seq<Item>, i: nat): nat
    requires i <= |items|
  {
    if i == 0 then 0 else Number(items, i - 1) + if items[i - 1].Colon? || items[i - 1].Define? then 1 else 0
  }

  /** Behind the first n items, w means the definition at i: the last of that name. */
  ghost predicate Means(items: seq<Item>, n: nat, w: string, i: nat)
    requires n <= |items|
  {
    && i < n && (items[i].Colon? || items[i].Define?) && items[i].name == w
    && forall j :: i < j < n && (items[j].Colon? || items[j].Define?) ==> items[j].name != w
  }

  /** w is a word of the body of a colon definition, or before a defining word's new name. */
  ghost predicate Uses(it: Item, w: string) {
    (it.Colon? && w in it.body) || (it.Define? && w in it.before)
  }

  /** w stands outside every definition. */
  ghost predicate UsesAtTop(it: Item, w: string) {
    (it.Line? && w in it.words) || (it.Define? && w in it.after)
  }

  /** Item n, an IS line, makes the deferred word at i do the word at j. */
  ghost predicate Sets(items: seq<Item>, n: nat, i: nat, j: nat) {
    n < |items| && items[n].Assign? && Means(items, n, items[n].xt, j) && Means(items, n, items[n].defer, i)
  }

  ghost predicate SetsLast(items: seq<Item>, n: nat, i: nat, j: nat) {
    Sets(items, n, i, j) && forall n', j' :: n < n' ==> !Sets(items, n', i, j')
  }

  // ---- names ---------------------------------------------------------------

  lemma NextItem(items: seq<Item>, n: nat)
    requires n < |items|
    ensures Read(items[..n + 1]) == ReadOne(Read(items[..n]), items[n])
  {
    assert items[..n + 1][..n] == items[..n];
  }

  lemma NumberGrows(items: seq<Item>, i: nat, j: nat)
    requires i < j <= |items| && (items[i].Colon? || items[i].Define?)
    ensures Number(items, i) < Number(items, j)
    decreases j
  {
    if i < j - 1 { NumberGrows(items, i, j - 1); }
  }

  lemma SameNumber(items: seq<Item>, i: nat, j: nat)
    requires i < |items| && j < |items| && Number(items, i) == Number(items, j)
    requires items[i].Colon? || items[i].Define?
    requires items[j].Colon? || items[j].Define?
    ensures i == j
  {
    if i < j { NumberGrows(items, i, j); }
    if j < i { NumberGrows(items, j, i); }
  }

  lemma MeansOne(items: seq<Item>, n: nat, w: string, i: nat, j: nat)
    requires n <= |items| && Means(items, n, w, i) && Means(items, n, w, j)
    ensures i == j
  {
  }

  /** The table's names are the last definitions of each. */
  lemma {:induction false} NamesExactly(items: seq<Item>, n: nat, w: string)
    requires n <= |items|
    ensures |Read(items[..n]).refs| == Number(items, n)
    ensures w in Read(items[..n]).current ==>
      exists i :: Means(items, n, w, i) && Read(items[..n]).current[w] == Number(items, i)
    ensures forall i :: Means(items, n, w, i) ==>
      w in Read(items[..n]).current && Read(items[..n]).current[w] == Number(items, i)
  {
    if n == 0 {
      assert items[..0] == [];
    } else {
      NextItem(items, n - 1);
      NamesExactly(items, n - 1, w);
      hide Read;
      NextMeans(items, n, w);
    }
  }

  /** What the n-th item does to the meaning of a name. */
  lemma NextMeans(items: seq<Item>, n: nat, w: string)
    requires 0 < n <= |items|
    ensures
      var it := items[n - 1];
      forall i :: Means(items, n, w, i) <==>
        if (it.Colon? || it.Define?) && it.name == w then i == n - 1 else Means(items, n - 1, w, i)
  {
  }

  /** What the words of a line mean where it stands. */
  lemma ResolvesTo(items: seq<Item>, n: nat, words: seq<string>, x: nat)
    requires n <= |items|
    ensures x in Resolve(Read(items[..n]).current, words) <==>
            exists w, i :: w in words && 0 <= i < |items| && Means(items, n, w, i) && x == Number(items, i)
  {
    hide Read;
    var c := Read(items[..n]).current;
    if x in Resolve(c, words) {
      var w :| w in words && w in c && c[w] == x;
      NamesExactly(items, n, w);
    }
    if w, i :| w in words && 0 <= i < |items| && Means(items, n, w, i) && x == Number(items, i) {
      NamesExactly(items, n, w);
    }
  }

  // ---- roots ---------------------------------------------------------------

  /** The definition at i is used outside every definition, in one of the first n items. */
  ghost predicate UsedAtTop(items: seq<Item>, n: nat, i: nat)
    requires n <= |items|
  {
    exists k, w :: 0 <= k < n && UsesAtTop(items[k], w) && Means(items, k, w, i)
  }

  lemma UsedNext(items: seq<Item>, n: nat, i: nat)
    requires n < |items|
    ensures UsedAtTop(items, n + 1, i) <==>
            UsedAtTop(items, n, i) || exists w :: UsesAtTop(items[n], w) && Means(items, n, w, i)
  {
    hide UsesAtTop; hide Means;
    if UsedAtTop(items, n, i) {
      var k, w :| 0 <= k < n && UsesAtTop(items[k], w) && Means(items, k, w, i);
    }
    if w :| UsesAtTop(items[n], w) && Means(items, n, w, i) { assert 0 <= n < n + 1; }
  }

  lemma TopWords(items: seq<Item>, n: nat, x: nat)
    requires n < |items|
    ensures x in Read(items[..n + 1]).roots <==>
      || x in Read(items[..n]).roots
      || exists w, i :: UsesAtTop(items[n], w) && 0 <= i < |items| && Means(items, n, w, i) && x == Number(items, i)
  {
    NextItem(items, n);
    hide Read; hide Means;
    match items[n]
    case Line(words) => ResolvesTo(items, n, words, x);
    case Define(_, _, after) => ResolvesTo(items, n, after, x);
    case _ =>
  }

  lemma {:induction false} UsedExactly(items: seq<Item>, n: nat, x: nat)
    requires n <= |items|
    ensures x in Read(items[..n]).roots <==>
            exists i :: 0 <= i < |items| && UsedAtTop(items, n, i) && x == Number(items, i)
  {
    if n == 0 {
      assert items[..0] == [];
    } else {
      UsedExactly(items, n - 1, x);
      TopWords(items, n - 1, x);
      hide Read; hide Means; hide UsesAtTop; hide UsedAtTop; hide Number;
      var m := n - 1;
      forall i: nat | i < |items|
        ensures UsedAtTop(items, n, i) <==>
                UsedAtTop(items, m, i) || exists w :: UsesAtTop(items[m], w) && Means(items, m, w, i)
      {
        UsedNext(items, m, i);
      }
    }
  }

  /** The roots: the last definition of MAIN, and what stands outside every definition means where it stands. */
  lemma RootsExactly(items: seq<Item>, x: nat)
    ensures x in Roots(Read(items)) <==>
      exists i ::
        0 <= i < |items| && x == Number(items, i) && (Means(items, |items|, "MAIN", i) || UsedAtTop(items, |items|, i))
  {
    assert items[..|items|] == items;
    UsedExactly(items, |items|, x);
    ResolvesTo(items, |items|, ["MAIN"], x);
    hide Read; hide Means; hide UsedAtTop; hide Number;
  }

  /** MAIN, where there is one, is always reached, and the item that defines it stays. */
  lemma MainKept(items: seq<Item>, reach: set<nat>, i: nat)
    requires Reachable(Linked(Read(items).refs, Read(items).assigns), Roots(Read(items)), reach)
    requires i < |items| && Means(items, |items|, "MAIN", i)
    ensures Number(items, i) in reach && Survives(items, i, reach) && items[i] in Kept(items, |items|, reach)
  {
    RootsExactly(items, Number(items, i));
    NamesExactly(items, i, "MAIN");
    hide Read; hide Linked; hide Number;
    KeptIfSurvives(items, |items|, reach, i);
  }

  lemma {:induction false} KeptIfSurvives(items: seq<Item>, n: nat, reach: set<nat>, i: nat)
    requires i < n <= |items| && Survives(items, i, reach)
    ensures items[i] in Kept(items, n, reach)
    decreases n
  {
    hide Survives;
    if i < n - 1 { KeptIfSurvives(items, n - 1, reach, i); }
  }

  // ---- references ----------------------------------------------------------

  lemma WordsUsed(items: seq<Item>, i: nat, x: nat)
    requires i < |items| && (items[i].Colon? || items[i].Define?)
    ensures Number(items, i) < |Read(items).refs|
    ensures x in Read(items).refs[Number(items, i)] <==>
      exists w, j :: Uses(items[i], w) && 0 <= j < |items| && Means(items, i, w, j) && x == Number(items, j)
  {
    NextItem(items, i);
    NamesExactly(items, i, "");
    ReadGrows(items, i + 1);
    ResolvesTo(items, i, match items[i] case Colon(_, body) => body case Define(_, before, _) => before, x);
    hide Means; hide Number; hide Read;
  }

  /** Of the first n items the last that makes the deferred word at i do anything makes it do the word at j. */
  ghost predicate LastSetting(items: seq<Item>, n: nat, i: nat, j: nat) {
    exists m: nat :: m < n && Sets(items, m, i, j) && forall m', j' :: m < m' < n ==> !Sets(items, m', i, j')
  }

  ghost predicate LastRecorded(assigns: seq<(nat, nat)>, x: nat, y: nat) {
    exists k :: 0 <= k < |assigns| && assigns[k] == (x, y) && IsLast(assigns, k)
  }

  lemma RecordedNext(assigns: seq<(nat, nat)>, e: (nat, nat), x: nat, y: nat)
    ensures LastRecorded(assigns + [e], x, y) <==> if y == e.1 then x == e.0 else LastRecorded(assigns, x, y)
  {
    var more := assigns + [e];
    assert more[|assigns|] == e && IsLast(more, |assigns|);
    if y != e.1 && LastRecorded(assigns, x, y) {
      var k :| 0 <= k < |assigns| && assigns[k] == (x, y) && IsLast(assigns, k);
      assert more[k] == (x, y) && IsLast(more, k);
    }
    if y != e.1 && LastRecorded(more, x, y) {
      var k :| 0 <= k < |more| && more[k] == (x, y) && IsLast(more, k);
      assert forall l :: k < l < |assigns| ==> more[l] == assigns[l];
      assert IsLast(assigns, k);
    }
  }

  lemma SettingNext(items: seq<Item>, n: nat, i: nat, j: nat, i0: nat, j0: nat)
    requires Sets(items, n, i0, j0)
    ensures LastSetting(items, n + 1, i, j) <==> if i == i0 then j == j0 else LastSetting(items, n, i, j)
  {
    hide Means;
    OneSetting(items, n, i, j, i0, j0);
    if i == i0 && j == j0 { assert Sets(items, n, i, j); }
    if i != i0 && LastSetting(items, n, i, j) {
      var m: nat :| m < n && Sets(items, m, i, j) && forall m', j' :: m < m' < n ==> !Sets(items, m', i, j');
      forall m', j' | m < m' < n + 1
        ensures !Sets(items, m', i, j')
      {
        if m' == n && Sets(items, n, i, j') { OneSetting(items, n, i, j', i0, j0); }
      }
    }
  }

  lemma OneSetting(items: seq<Item>, n: nat, i: nat, j: nat, i0: nat, j0: nat)
    requires Sets(items, n, i0, j0)
    ensures Sets(items, n, i, j) <==> i == i0 && j == j0
  {
    if Sets(items, n, i, j) {
      MeansOne(items, n, items[n].xt, j, j0);
      MeansOne(items, n, items[n].defer, i, i0);
    }
  }

  lemma NoSetting(items: seq<Item>, n: nat, i: nat, j: nat)
    requires forall i', j' :: !Sets(items, n, i', j')
    ensures LastSetting(items, n + 1, i, j) <==> LastSetting(items, n, i, j)
  {
    hide Sets;
  }

  /** An IS line is recorded where both its words are known. */
  lemma RecordedThere(items: seq<Item>, n: nat)
    requires n < |items|
    ensures
      var t, u := Read(items[..n]), Read(items[..n + 1]);
      && ((forall i, j :: !Sets(items, n, i, j)) ==> u.assigns == t.assigns)
      && forall i, j :: Sets(items, n, i, j) ==> u.assigns == t.assigns + [(Number(items, j), Number(items, i))]
  {
    NextItem(items, n);
    hide Means; hide Read; hide Number;
    if items[n].Assign? {
      KnownSets(items, n);
      NamesExactly(items, n, items[n].xt);
      NamesExactly(items, n, items[n].defer);
    }
  }

  ghost predicate Definition(items: seq<Item>, i: nat) {
    i < |items| && (items[i].Colon? || items[i].Define?)
  }

  /** For each deferred word the last assignment recorded is that of the last such line. */
  lemma {:induction false} SettingsExactly(items: seq<Item>, n: nat, i: nat, x: nat)
    requires n <= |items| && Definition(items, i)
    ensures LastRecorded(Read(items[..n]).assigns, x, Number(items, i)) <==>
            exists j :: 0 <= j < |items| && LastSetting(items, n, i, j) && x == Number(items, j)
  {
    if n == 0 {
      assert items[..0] == [];
    } else {
      var m := n - 1;
      SettingsExactly(items, m, i, x);
      RecordedThere(items, m);
      hide Read; hide Means; hide Number; hide LastSetting; hide LastRecorded;
      if i0, j0 :| Sets(items, m, i0, j0) {
        SetsDefinitions(items, m, i0, j0);
        RecordedNext(Read(items[..m]).assigns, (Number(items, j0), Number(items, i0)), x, Number(items, i));
        if Number(items, i) == Number(items, i0) { SameNumber(items, i, i0); }
        forall j: nat | j < |items|
          ensures LastSetting(items, n, i, j) <==> if i == i0 then j == j0 else LastSetting(items, m, i, j)
        {
          SettingNext(items, m, i, j, i0, j0);
        }
        assert i == i0 ==> LastSetting(items, n, i, j0);
        assert i != i0 ==>
          forall j: nat :: j < |items| ==> (LastSetting(items, n, i, j) <==> LastSetting(items, m, i, j));
      } else {
        forall j: nat | j < |items|
          ensures LastSetting(items, n, i, j) <==> LastSetting(items, m, i, j)
        {
          NoSetting(items, m, i, j);
        }
      }
    }
  }

  lemma SetsDefinitions(items: seq<Item>, n: nat, i: nat, j: nat)
    requires Sets(items, n, i, j)
    ensures Definition(items, i) && Definition(items, j)
  {
  }

  /**
   What each definition refers to: what the words of its body, or before its name, mean where they stand,
   and, if it is a deferred word, what the last IS line for it makes it do.
   */
  lemma ReferencesExactly(items: seq<Item>, i: nat, x: nat)
    requires Definition(items, i)
    ensures Number(items, i) < |Linked(Read(items).refs, Read(items).assigns)|
    ensures x in Linked(Read(items).refs, Read(items).assigns)[Number(items, i)] <==>
      || (exists w, j :: Uses(items[i], w) && 0 <= j < |items| && Means(items, i, w, j) && x == Number(items, j))
      || exists j :: 0 <= j < |items| && LastSetting(items, |items|, i, j) && x == Number(items, j)
  {
    WordsUsed(items, i, x);
    assert items[..|items|] == items;
    SettingsExactly(items, |items|, i, x);
    hide Read; hide Means; hide Number; hide LastSetting; hide Uses;
    var assigns := Read(items).assigns;
    assert LastRecorded(assigns, x, Number(items, i)) <==>
      x in set k | 0 <= k < |assigns| && assigns[k].1 == Number(items, i) && IsLast(assigns, k) :: assigns[k].0;
  }

  // ---- what is deleted -----------------------------------------------------

  /** Whether the deferred word at i is made to do something by the recorded lines from the n-th on. */
  lemma {:induction false} RecordedLater(items: seq<Item>, a: nat, n: nat, i: nat)
    requires a <= n <= |items| && Definition(items, i)
    ensures
      var s, t := Read(items[..a]).assigns, Read(items[..n]).assigns;
      && s <= t
      && ((exists k :: |s| <= k < |t| && t[k].1 == Number(items, i))
          <==> exists m: nat, j: nat :: a <= m < n && Sets(items, m, i, j))
    decreases n
  {
    if a < n {
      var m := n - 1;
      RecordedLater(items, a, m, i);
      RecordedThere(items, m);
      hide Read; hide Means; hide Number;
      var s, t, u := Read(items[..a]).assigns, Read(items[..m]).assigns, Read(items[..n]).assigns;
      if i0, j0 :| Sets(items, m, i0, j0) {
        SetsDefinitions(items, m, i0, j0);
        assert u == t + [(Number(items, j0), Number(items, i0))];
        if Number(items, i) == Number(items, i0) {
          SameNumber(items, i, i0);
          assert u[|t|].1 == Number(items, i);
        }
        forall j: nat
          ensures Sets(items, m, i, j) ==> i == i0
        {
          OneSetting(items, m, i, j, i0, j0);
        }
        assert forall k :: |s| <= k < |t| ==> u[k] == t[k];
      }
    }
  }

  /**
   What --delete keeps: the reached definitions; of the IS lines those that have a word the reading does not
   know, and the last for each deferred word that is reached; and every other line.
   */
  lemma KeptExactly(items: seq<Item>, reach: set<nat>, n: nat)
    requires n < |items|
    ensures Survives(items, n, reach) <==>
      match items[n]
      case Colon(_, _) => Number(items, n) in reach
      case Define(_, _, _) => Number(items, n) in reach
      case Line(_) => true
      case Assign(_, _, _) =>
        forall i: nat, j: nat :: Sets(items, n, i, j) ==>
          Number(items, i) in reach && forall m: nat, j': nat :: n < m < |items| ==> !Sets(items, m, i, j')
  {
    if items[n].Assign? {
      KeptLine(items, reach, n);
    } else {
      NamesExactly(items, n, "");
      hide Read; hide Means;
    }
  }

  lemma KeptLine(items: seq<Item>, reach: set<nat>, n: nat)
    requires n < |items| && items[n].Assign?
    ensures Survives(items, n, reach) <==>
      forall i: nat, j: nat :: Sets(items, n, i, j) ==>
        Number(items, i) in reach && forall m: nat, j': nat :: n < m < |items| ==> !Sets(items, m, i, j')
  {
    var t, all := Read(items[..n]), Read(items).assigns;
    NamesExactly(items, n, items[n].xt);
    NamesExactly(items, n, items[n].defer);
    hide Read; hide Means; hide Number;
    if i, j :| Sets(items, n, i, j) {
      SetsDefinitions(items, n, i, j);
      OnlyThis(items, n, i, j);
      LastLine(items, n, i, j);
      assert items[n].xt in t.current && items[n].defer in t.current && t.current[items[n].defer] == Number(items, i);
      assert Survives(items, n, reach) <==> Number(items, i) in reach && IsLast(all, |t.assigns|);
    } else {
      KnownSets(items, n);
    }
  }

  lemma KnownSets(items: seq<Item>, n: nat)
    requires n < |items| && items[n].Assign?
    ensures
      var t := Read(items[..n]);
      items[n].xt in t.current && items[n].defer in t.current ==> exists i, j :: Sets(items, n, i, j)
  {
    NamesExactly(items, n, items[n].xt);
    NamesExactly(items, n, items[n].defer);
    hide Read; hide Means; hide Number;
    var t := Read(items[..n]);
    if items[n].xt in t.current && items[n].defer in t.current {
      var j :| Means(items, n, items[n].xt, j) && t.current[items[n].xt] == Number(items, j);
      var i :| Means(items, n, items[n].defer, i) && t.current[items[n].defer] == Number(items, i);
      assert Sets(items, n, i, j);
    }
  }

  lemma LastLine(items: seq<Item>, n: nat, i: nat, j: nat)
    requires Sets(items, n, i, j)
    ensures
      var k, all := |Read(items[..n]).assigns|, Read(items).assigns;
      && k < |all|
      && (IsLast(all, k) <==> forall m: nat, j': nat :: n < m < |items| ==> !Sets(items, m, i, j'))
  {
    assert items[..|items|] == items;
    SetsDefinitions(items, n, i, j);
    RecordedThere(items, n);
    RecordedLater(items, n + 1, |items|, i);
    hide Read; hide Means; hide Number;
    var t, all := Read(items[..n]).assigns, Read(items).assigns;
    var u := Read(items[..n + 1]).assigns;
    assert u == t + [(Number(items, j), Number(items, i))];
    assert u <= all && all[|t|] == u[|t|];
    assert IsLast(all, |t|) <==> !exists k :: |u| <= k < |all| && all[k].1 == Number(items, i);
  }

  lemma OnlyThis(items: seq<Item>, n: nat, i: nat, j: nat)
    requires Sets(items, n, i, j)
    ensures forall i', j' :: Sets(items, n, i', j') ==> i' == i && j' == j
  {
    forall i', j' | Sets(items, n, i', j')
      ensures i' == i && j' == j
    {
      OneSetting(items, n, i', j', i, j);
    }
  }
}
