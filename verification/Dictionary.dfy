/**
 The dictionary in an image: words laid one after another, each with a link of one to three bytes, read
 backward, to the previous word of its thread (forth/kernel.4:1145-1164, 1339-1379; docs/CV8.md:274-303),
 and the walk that finds them again (tools/image-audit.py:20-42).
 */
module Dictionary {

  import opened Arithmetic

  // ---- laying a word -------------------------------------------------------

  /** flags is the count byte's upper three bits, the top one set. */
  datatype Word = Word(thread: nat, flags: nat, name: seq<Byte>, body: seq<Byte>)

  predicate Proper(w: Word, threads: nat) {
    w.thread < threads && |w.name| <= 31 && w.flags in {128, 160, 192, 224}
  }

  /** The image so far, and each thread's newest word (0: none). */
  datatype Dict = Dict(img: seq<Byte>, heads: seq<nat>)

  /** The bytes a link of distance d needs. */
  function LinkLen(d: nat): (n: nat)
    ensures 1 <= n <= 3
  {
    if d < 128 then 1 else if d < 16384 then 2 else 3
  }

  /** A link of n bytes, tag byte last. */
  function LinkBytes(d: nat, n: nat): (r: seq<Byte>)
    requires 1 <= n <= 3
    ensures |r| == n
  {
    if n == 1 then [LowByte(d)]
    else if n == 2 then [LowByte(d), LowByte(d / 256 % 64 + 128)]
    else [LowByte(d), LowByte(d / 256), LowByte(d / 0x10000 % 64 + 192)]
  }

  /** HEADER sizes the link for a name three bytes on, and so for a distance no smaller than the real one. */
  function HeaderLen(here: nat, head: nat): (n: nat)
    ensures 1 <= n <= 3
  {
    if head == 0 || head > here then 1 else LinkLen(here + 3 - head)
  }

  function LinkFor(here: nat, head: nat): (r: seq<Byte>)
    ensures |r| == HeaderLen(here, head)
  {
    var n := HeaderLen(here, head);
    LinkBytes(if head == 0 || head > here then 0 else here + n - head, n)
  }

  function CountByte(w: Word): Byte {
    LowByte(w.flags + |w.name|)
  }

  /** The bytes of w's header and body, laid at here. */
  function WordBytes(here: nat, head: nat, w: Word): seq<Byte> {
    LinkFor(here, head) + [CountByte(w)] + w.name + w.body
  }

  function Add(d: Dict, w: Word): Dict
    requires w.thread < |d.heads|
  {
    var here, head := |d.img|, d.heads[w.thread];
    Dict(d.img + WordBytes(here, head, w), d.heads[w.thread := here + HeaderLen(here, head)])
  }

  predicate AllProper(ws: seq<Word>, threads: nat) {
    forall i :: 0 <= i < |ws| ==> Proper(ws[i], threads)
  }

  function Lay(pre: seq<Byte>, threads: nat, ws: seq<Word>): (d: Dict)
    requires AllProper(ws, threads)
    ensures |d.heads| == threads
  {
    if ws == [] then Dict(pre, seq(threads, _ => 0))
    else Add(Lay(pre, threads, ws[..|ws| - 1]), ws[|ws| - 1])
  }

  /** The dictionary as it was before word i was laid. */
  function Before(pre: seq<Byte>, threads: nat, ws: seq<Word>, i: nat): (d: Dict)
    requires i <= |ws| && AllProper(ws, threads)
    ensures |d.heads| == threads
  {
    Lay(pre, threads, ws[..i])
  }

  /** Where word i begins, and where its name is. */
  function HereOf(pre: seq<Byte>, threads: nat, ws: seq<Word>, i: nat): nat
    requires i <= |ws| && AllProper(ws, threads)
  {
    |Before(pre, threads, ws, i).img|
  }

  function NfaOf(pre: seq<Byte>, threads: nat, ws: seq<Word>, i: nat): nat
    requires i < |ws| && AllProper(ws, threads)
  {
    var d := Before(pre, threads, ws, i);
    |d.img| + HeaderLen(|d.img|, d.heads[ws[i].thread])
  }

  // ---- reading a link ------------------------------------------------------

  /** A byte of the image; an image laid as above is never read outside. */
  function At(img: seq<Byte>, i: int): Byte {
    if 0 <= i < |img| then img[i] else 0
  }

  /** The previous name in the thread (0: none), and this link's length. */
  function Prev(img: seq<Byte>, nfa: nat): (r: (int, nat)) {
    var tag := At(img, nfa - 1);
    if tag < 128 then (if tag == 0 then 0 else nfa - tag, 1)
    else if tag < 192 then (nfa - Distance(0, tag % 64, At(img, nfa - 2)), 2)
    else (nfa - Distance(tag % 64, At(img, nfa - 2), At(img, nfa - 3)), 3)
  }

  function Distance(high: int, middle: int, low: int): int {
    high * 0x10000 + middle * 256 + low
  }

  lemma Split(d: nat)
    ensures d == Distance(d / 0x10000, LowByte(d / 256), LowByte(d))
  {
    var q := d / 256;
    assert d == q * 256 + d % 256;
    assert q == q / 256 * 256 + q % 256;
    assert q / 256 == d / 0x10000;
  }

  /** What the engine's limits give: the dictionary lies in 4 MB. */
  const REACH := 0x400000

  /** A link of n bytes for a distance that fits them, ending just before nfa, is read back. */
  lemma LinkBytesRead(img: seq<Byte>, nfa: nat, d: nat, n: nat)
    requires 1 <= n <= 3 && n <= nfa <= |img| && d < (if n == 1 then 128 else if n == 2 then 0x4000 else REACH)
    requires img[nfa - n..nfa] == LinkBytes(d, n) && (n > 1 ==> d > 0)
    ensures Prev(img, nfa) == (if d == 0 then 0 else nfa - d, n)
  {
    LinkAt(img, nfa, n, LinkBytes(d, n));
    LinkParts(d);
    hide LinkBytes; hide At; hide Distance; hide LowByte; hide Prev;
    if n == 1 {
      PrevOne(img, nfa);
    } else if n == 2 {
      TwoBytes(d);
      PrevTwo(img, nfa, d);
    } else {
      ThreeBytes(d);
      PrevThree(img, nfa, d);
    }
  }

  lemma PrevOne(img: seq<Byte>, nfa: nat)
    requires At(img, nfa - 1) < 128
    ensures Prev(img, nfa) == (if At(img, nfa - 1) == 0 then 0 else nfa - At(img, nfa - 1), 1)
  {
    hide At;
  }

  lemma PrevTwo(img: seq<Byte>, nfa: nat, d: nat)
    requires 128 <= At(img, nfa - 1) < 192 && Distance(0, At(img, nfa - 1) % 64, At(img, nfa - 2)) == d
    ensures Prev(img, nfa) == (nfa - d, 2)
  {
    hide At; hide Distance;
  }

  lemma PrevThree(img: seq<Byte>, nfa: nat, d: nat)
    requires At(img, nfa - 1) >= 192 && Distance(At(img, nfa - 1) % 64, At(img, nfa - 2), At(img, nfa - 3)) == d
    ensures Prev(img, nfa) == (nfa - d, 3)
  {
    hide At; hide Distance;
  }

  lemma LinkParts(d: nat)
    ensures d < 128 ==> LinkBytes(d, 1)[0] == d
    ensures LinkBytes(d, 2)[0] == LowByte(d) && LinkBytes(d, 2)[1] == LowByte(d / 256 % 64 + 128)
    ensures LinkBytes(d, 3)[0] == LowByte(d) && LinkBytes(d, 3)[1] == LowByte(d / 256)
    ensures LinkBytes(d, 3)[2] == LowByte(d / 0x10000 % 64 + 192)
  {
  }

  lemma LinkAt(img: seq<Byte>, nfa: nat, n: nat, link: seq<Byte>)
    requires 1 <= n <= 3 && n <= nfa <= |img| && img[nfa - n..nfa] == link
    ensures At(img, nfa - 1) == link[n - 1]
    ensures n > 1 ==> At(img, nfa - 2) == link[n - 2]
    ensures n > 2 ==> At(img, nfa - 3) == link[n - 3]
  {
    var part := img[nfa - n..nfa];
    assert part[n - 1] == img[nfa - 1];
    if n > 1 { assert part[n - 2] == img[nfa - 2]; }
    if n > 2 { assert part[n - 3] == img[nfa - 3]; }
  }

  lemma TwoBytes(d: nat)
    requires d < 0x4000
    ensures
      var tag := LowByte(d / 256 % 64 + 128);
      128 <= tag < 192 && Distance(0, tag % 64, LowByte(d)) == d
  {
    Form(d / 256, 128);
    assert d == d / 256 * 256 + d % 256;
  }

  lemma ThreeBytes(d: nat)
    requires d < REACH
    ensures
      var tag := LowByte(d / 0x10000 % 64 + 192);
      tag >= 192 && Distance(tag % 64, LowByte(d / 256), LowByte(d)) == d
  {
    Form(d / 0x10000, 192);
    Split(d);
    hide LowByte; hide Distance;
  }

  /** The link HEADER lays at here is read back, whichever length it chose. */
  lemma LinkReads(img: seq<Byte>, here: nat, head: nat)
    requires here + 3 < REACH && head <= here
    requires
      var n := HeaderLen(here, head);
      here + n <= |img| && img[here..here + n] == LinkFor(here, head)
    ensures Prev(img, here + HeaderLen(here, head)) == (head, HeaderLen(here, head))
  {
    hide Prev; hide LinkBytes;
    var n := HeaderLen(here, head);
    LinkBytesRead(img, here + n, if head == 0 then 0 else here + n - head, n);
  }

  lemma Form(v: nat, bits: nat)
    requires v < 64 && (bits == 128 || bits == 192)
    ensures LowByte(v % 64 + bits) == v + bits && (v + bits) % 64 == v
  {
  }

  // ---- the walk ------------------------------------------------------------

  /** Every name from n on, along the links. */
  function Walked(img: seq<Byte>, n: nat): seq<nat> {
    if n == 0 then []
    else
      var p := Prev(img, n).0;
      [n] + if 0 <= p < n then Walked(img, p) else []
  }

  lemma {:induction false} WalkedLater(img: seq<Byte>, more: seq<Byte>, n: nat)
    requires n <= |img|
    ensures Walked(img + more, n) == Walked(img, n)
    decreases n
  {
    if n > 0 {
      assert Prev(img + more, n) == Prev(img, n);
      var p := Prev(img, n).0;
      if 0 <= p < n { WalkedLater(img, more, p); }
    }
  }

  /** The words of thread t, newest first. */
  function InThread(pre: seq<Byte>, threads: nat, ws: seq<Word>, t: nat): seq<nat>
    requires AllProper(ws, threads)
  {
    if ws == [] then []
    else
      var before := InThread(pre, threads, ws[..|ws| - 1], t);
      if ws[|ws| - 1].thread == t then [NfaOf(pre, threads, ws, |ws| - 1)] + before else before
  }

  lemma {:induction false} HeadsWithin(pre: seq<Byte>, threads: nat, ws: seq<Word>)
    requires AllProper(ws, threads)
    ensures
      var d := Lay(pre, threads, ws);
      forall t :: 0 <= t < threads ==> d.heads[t] <= |d.img|
  {
    if ws != [] {
      var init := ws[..|ws| - 1];
      HeadsWithin(pre, threads, init);
      LaidLast(pre, threads, ws);
      hide Lay; hide Add;
      AddWithin(Lay(pre, threads, init), ws[|ws| - 1]);
    }
  }

  lemma AddWithin(d: Dict, w: Word)
    requires w.thread < |d.heads| && forall t :: 0 <= t < |d.heads| ==> d.heads[t] <= |d.img|
    ensures
      var e := Add(d, w);
      |e.heads| == |d.heads| && forall t :: 0 <= t < |d.heads| ==> e.heads[t] <= |e.img|
  {
    hide HeaderLen; hide LinkFor;
  }

  /** From each head the walk comes by the words of that thread, and no others. */
  lemma {:induction false} WalkFindsThread(pre: seq<Byte>, threads: nat, ws: seq<Word>, t: nat)
    requires AllProper(ws, threads) && t < threads && |Lay(pre, threads, ws).img| + 3 < REACH
    ensures Walked(Lay(pre, threads, ws).img, Lay(pre, threads, ws).heads[t]) == InThread(pre, threads, ws, t)
  {
    hide Add; hide HeaderLen; hide Proper; hide Walked; hide Lay; hide NfaOf;
    if ws == [] {
      NothingLaid(pre, threads, t);
    } else {
      var init, w := ws[..|ws| - 1], ws[|ws| - 1];
      LaidLast(pre, threads, ws);
      WalkFindsThread(pre, threads, init, t);
      HeadsWithin(pre, threads, init);
      WalkOneMore(Lay(pre, threads, init), w, t);
    }
  }

  lemma NothingLaid(pre: seq<Byte>, threads: nat, t: nat)
    requires t < threads
    ensures Walked(Lay(pre, threads, []).img, Lay(pre, threads, []).heads[t]) == []
  {
  }

  lemma LaidLast(pre: seq<Byte>, threads: nat, ws: seq<Word>)
    requires AllProper(ws, threads) && ws != []
    ensures
      var w, d := ws[|ws| - 1], Lay(pre, threads, ws[..|ws| - 1]);
      && w.thread < threads && Lay(pre, threads, ws) == Add(d, w) && |d.img| <= |Add(d, w).img|
      && NfaOf(pre, threads, ws, |ws| - 1) == |d.img| + HeaderLen(|d.img|, d.heads[w.thread])
  {
    hide HeaderLen;
  }

  /** Laying a word puts it in front of its own thread's, and leaves the other threads alone. */
  lemma WalkOneMore(d: Dict, w: Word, t: nat)
    requires w.thread < |d.heads| && t < |d.heads| && |d.img| + 3 < REACH
    requires d.heads[t] <= |d.img| && d.heads[w.thread] <= |d.img|
    ensures
      var e := Add(d, w);
      Walked(e.img, e.heads[t]) ==
        (if w.thread == t then [|d.img| + HeaderLen(|d.img|, d.heads[t])] else []) + Walked(d.img, d.heads[t])
  {
    hide *;
    var here, head, e := |d.img|, d.heads[w.thread], Add(d, w);
    Added(d, w);
    WalkedLater(d.img, WordBytes(here, head, w), d.heads[t]);
    if w.thread == t {
      WalkStep(e.img, here + HeaderLen(here, head), head);
    }
  }

  /** The word's link leads to the head it replaces. */
  lemma Added(d: Dict, w: Word)
    requires w.thread < |d.heads| && |d.img| + 3 < REACH && d.heads[w.thread] <= |d.img|
    ensures
      var here, head, e := |d.img|, d.heads[w.thread], Add(d, w);
      var n := HeaderLen(here, head);
      && e.img == d.img + WordBytes(here, head, w) && e.heads == d.heads[w.thread := here + n]
      && Prev(e.img, here + n) == (head, n)
  {
    hide HeaderLen; hide LinkFor; hide Prev;
    var here, head, e := |d.img|, d.heads[w.thread], Add(d, w);
    var n := HeaderLen(here, head);
    assert e.img[here..here + n] == LinkFor(here, head);
    LinkReads(e.img, here, head);
  }

  lemma WalkStep(img: seq<Byte>, n: nat, p: nat)
    requires p < n && Prev(img, n).0 == p
    ensures Walked(img, n) == [n] + Walked(img, p)
  {
    hide Prev;
  }

  // ---- the tool's two loops ------------------------------------------------

  datatype Entry = Entry(name: seq<Byte>, count: Byte, linkLen: nat)

  /** Python's img[a:b]. */
  function Slice(img: seq<Byte>, a: nat, b: nat): seq<Byte>
    requires a <= b
  {
    img[if a < |img| then a else |img|..if b < |img| then b else |img|]
  }

  function EntryAt(img: seq<Byte>, n: nat): Entry {
    var count := At(img, n);
    Entry(Slice(img, n + 1, n + 1 + count % 32), count, Prev(img, n).1)
  }

  /** Every name the threads lead to. */
  function WalkedAll(img: seq<Byte>, heads: seq<nat>): seq<nat> {
    if heads == [] then [] else WalkedAll(img, heads[..|heads| - 1]) + Walked(img, heads[|heads| - 1])
  }

  /** Links lead back: what makes the walk end. */
  ghost predicate LeadsBack(img: seq<Byte>, heads: seq<nat>) {
    forall n :: n in WalkedAll(img, heads) ==> 0 <= Prev(img, n).0 < n
  }

  /** words has an entry for each name visited, and no others. */
  ghost predicate Records(img: seq<Byte>, words: map<nat, Entry>, visited: seq<nat>) {
    && (forall n :: n in words <==> n in visited)
    && forall n :: n in words ==> words[n] == EntryAt(img, n)
  }

  lemma RecordOne(img: seq<Byte>, words: map<nat, Entry>, visited: seq<nat>, n: nat)
    requires Records(img, words, visited)
    ensures Records(img, words[n := EntryAt(img, n)], visited + [n])
  {
    hide EntryAt;
  }

  method Walk(img: seq<Byte>, heads: seq<nat>) returns (words: map<nat, Entry>, ghost visited: seq<nat>)
    requires LeadsBack(img, heads)
    ensures Records(img, words, WalkedAll(img, heads)) && visited == WalkedAll(img, heads)
  {
    words, visited := map[], [];
    for i := 0 to |heads|
      invariant visited == WalkedAll(img, heads[..i]) && Records(img, words, visited)
    {
      var n: nat := heads[i];
      ghost var before := visited;
      assert heads[..i + 1][..i] == heads[..i];
      hide Prev; hide At; hide Slice; hide Records; hide LeadsBack;
      while n != 0
        invariant visited + Walked(img, n) == before + Walked(img, heads[i])
        invariant Records(img, words, visited)
        decreases n
      {
        AmongWalked(img, heads, i, visited, before, n);
        RecordOne(img, words, visited, n);
        var count := At(img, n);
        var (p, ll) := Prev(img, n);
        words := words[n := Entry(Slice(img, n + 1, n + 1 + count % 32), count, ll)];
        visited := visited + [n];
        n := p;
      }
    }
    assert heads[..|heads|] == heads;
  }

  lemma AmongWalked(img: seq<Byte>, heads: seq<nat>, i: nat, visited: seq<nat>, before: seq<nat>, n: nat)
    requires LeadsBack(img, heads) && i < |heads| && n != 0
    requires before == WalkedAll(img, heads[..i]) && visited + Walked(img, n) == before + Walked(img, heads[i])
    ensures 0 <= Prev(img, n).0 < n
    ensures visited + [n] + Walked(img, Prev(img, n).0) == visited + Walked(img, n)
  {
    assert (visited + Walked(img, n))[|visited|] == n;
    WalkedUpTo(img, heads, i + 1);
    assert heads[..i + 1][..i] == heads[..i];
    assert n in WalkedAll(img, heads);
  }

  lemma {:induction false} WalkedUpTo(img: seq<Byte>, heads: seq<nat>, i: nat)
    requires i <= |heads|
    ensures forall n :: n in WalkedAll(img, heads[..i]) ==> n in WalkedAll(img, heads)
    decreases |heads| - i
  {
    if i < |heads| {
      WalkedUpTo(img, heads, i + 1);
      assert heads[..i + 1][..i] == heads[..i];
    } else {
      assert heads[..i] == heads;
    }
  }

  // ---- the round trip ------------------------------------------------------

  lemma {:induction false} Grows(pre: seq<Byte>, threads: nat, ws: seq<Word>, i: nat)
    requires AllProper(ws, threads) && i <= |ws|
    ensures Before(pre, threads, ws, i).img <= Lay(pre, threads, ws).img
    decreases |ws| - i
  {
    if i == |ws| {
      assert ws[..i] == ws;
    } else {
      Grows(pre, threads, ws, i + 1);
      assert ws[..i + 1][..i] == ws[..i];
    }
  }

  lemma Start(pre: seq<Byte>, threads: nat)
    ensures Lay(pre, threads, []).img == pre
  {
  }

  /** Word i lies from where the words before it end to where the next begins. */
  lemma WordLies(pre: seq<Byte>, threads: nat, ws: seq<Word>, i: nat)
    requires AllProper(ws, threads) && i < |ws|
    ensures
      var d, img := Before(pre, threads, ws, i), Lay(pre, threads, ws).img;
      var bytes := WordBytes(|d.img|, d.heads[ws[i].thread], ws[i]);
      && HereOf(pre, threads, ws, i + 1) == HereOf(pre, threads, ws, i) + |bytes| <= |img|
      && img[HereOf(pre, threads, ws, i)..HereOf(pre, threads, ws, i + 1)] == bytes
  {
    Grows(pre, threads, ws, i + 1);
    OneLaid(pre, threads, ws, i);
    hide Lay; hide WordBytes; hide Before;
    var d, e, img := Before(pre, threads, ws, i), Before(pre, threads, ws, i + 1), Lay(pre, threads, ws).img;
    assert e.img == d.img + WordBytes(|d.img|, d.heads[ws[i].thread], ws[i]);
    assert img[|d.img|..|e.img|] == e.img[|d.img|..];
  }

  lemma OneLaid(pre: seq<Byte>, threads: nat, ws: seq<Word>, i: nat)
    requires AllProper(ws, threads) && i < |ws|
    ensures ws[i].thread < threads && Before(pre, threads, ws, i + 1) == Add(Before(pre, threads, ws, i), ws[i])
    ensures HereOf(pre, threads, ws, i) == |Before(pre, threads, ws, i).img|
    ensures HereOf(pre, threads, ws, i + 1) == |Before(pre, threads, ws, i + 1).img|
  {
    assert ws[..i + 1][..i] == ws[..i];
    hide Add;
  }

  /** What there is to see at the name n of word w, laid from here to next, with head before it in its thread. */
  ghost predicate Shows(img: seq<Byte>, n: nat, here: nat, next: nat, head: nat, w: Word) {
    && here < n && EntryAt(img, n) == Entry(w.name, CountByte(w), n - here)
    && Prev(img, n).0 == head && head < n
    && n + 1 + |w.name| + |w.body| == next <= |img|
    && img[n + 1 + |w.name|..next] == w.body
  }

  /** What the walk notes at a word's name is the word's own name and count byte, and its link's length. */
  lemma EntryIsWord(pre: seq<Byte>, threads: nat, ws: seq<Word>, i: nat)
    requires AllProper(ws, threads) && i < |ws| && |Lay(pre, threads, ws).img| + 3 < REACH
    ensures ws[i].thread < threads
    ensures Shows(Lay(pre, threads, ws).img, NfaOf(pre, threads, ws, i), HereOf(pre, threads, ws, i),
                  HereOf(pre, threads, ws, i + 1),
                  Before(pre, threads, ws, i).heads[ws[i].thread], ws[i])
  {
    hide *;
    PlacesAre(pre, threads, ws, i);
    WordShows(pre, threads, ws, i);
  }

  lemma WordShows(pre: seq<Byte>, threads: nat, ws: seq<Word>, i: nat)
    requires AllProper(ws, threads) && i < |ws| && |Lay(pre, threads, ws).img| + 3 < REACH
    ensures
      var d, img, w := Before(pre, threads, ws, i), Lay(pre, threads, ws).img, ws[i];
      var here, head := |d.img|, d.heads[w.thread];
      w.thread < threads && Shows(img, here + HeaderLen(here, head), here, here + |WordBytes(here, head, w)|, head, w)
  {
    hide *;
    PlacesAre(pre, threads, ws, i);
    WordLies(pre, threads, ws, i);
    var d := Before(pre, threads, ws, i);
    WordReads(Lay(pre, threads, ws).img, |d.img|, d.heads[ws[i].thread], ws[i], threads);
  }

  lemma PlacesAre(pre: seq<Byte>, threads: nat, ws: seq<Word>, i: nat)
    requires AllProper(ws, threads) && i < |ws|
    ensures
      var d, img, w := Before(pre, threads, ws, i), Lay(pre, threads, ws).img, ws[i];
      var here, head := |d.img|, d.heads[w.thread];
      var bytes := WordBytes(here, head, w);
      && Proper(w, threads) && w.thread < threads && head <= here
      && NfaOf(pre, threads, ws, i) == here + HeaderLen(here, head) && HereOf(pre, threads, ws, i) == here
      && HereOf(pre, threads, ws, i + 1) == here + |bytes| <= |img|
  {
    WordLies(pre, threads, ws, i);
    assert Proper(ws[i], threads);
    HeadBefore(pre, threads, ws, i, ws[i].thread);
    hide WordBytes; hide Lay; hide HeaderLen; hide AllProper; hide Before;
  }

  lemma HeadBefore(pre: seq<Byte>, threads: nat, ws: seq<Word>, i: nat, t: nat)
    requires AllProper(ws, threads) && i < |ws| && t < threads
    ensures
      var d := Before(pre, threads, ws, i);
      d.heads[t] <= |d.img|
  {
    hide Lay;
    HeadsWithin(pre, threads, ws[..i]);
    assert Lay(pre, threads, ws[..i]).heads[t] <= |Lay(pre, threads, ws[..i]).img|;
  }

  lemma WordReads(img: seq<Byte>, here: nat, head: nat, w: Word, threads: nat)
    requires Proper(w, threads) && here + 3 < REACH && head <= here
    requires
      var bytes := WordBytes(here, head, w);
      here + |bytes| <= |img| && img[here..here + |bytes|] == bytes
    ensures Shows(img, here + HeaderLen(here, head), here, here + |WordBytes(here, head, w)|, head, w)
  {
    Fields(img, here, head, w);
    LinkReads(img, here, head);
    CountIs(w, threads);
    hide Prev; hide WordBytes; hide HeaderLen; hide CountByte; hide LinkFor; hide Proper;
    assert At(img, here + HeaderLen(here, head)) == CountByte(w);
  }

  lemma CountIs(w: Word, threads: nat)
    requires Proper(w, threads)
    ensures CountByte(w) % 32 == |w.name|
  {
  }

  lemma Fields(img: seq<Byte>, here: nat, head: nat, w: Word)
    requires
      var bytes := WordBytes(here, head, w);
      here + |bytes| <= |img| && img[here..here + |bytes|] == bytes
    ensures
      var n, nfa := HeaderLen(here, head), here + HeaderLen(here, head);
      && |WordBytes(here, head, w)| == n + 1 + |w.name| + |w.body|
      && img[here..nfa] == LinkFor(here, head) && img[nfa] == CountByte(w)
      && img[nfa + 1..nfa + 1 + |w.name|] == w.name
      && img[nfa + 1 + |w.name|..nfa + 1 + |w.name| + |w.body|] == w.body
  {
    var link, bytes := LinkFor(here, head), WordBytes(here, head, w);
    hide LinkFor; hide HeaderLen; hide CountByte;
    var n := |link|;
    var nfa := here + n;
    assert bytes[..n] == link && bytes[n] == CountByte(w);
    assert bytes[n + 1..n + 1 + |w.name|] == w.name && bytes[n + 1 + |w.name|..] == w.body;
    SubSlice(img, here, bytes, 0, n);
    assert img[here + n] == bytes[n];
    SubSlice(img, here, bytes, n + 1, n + 1 + |w.name|);
    SubSlice(img, here, bytes, n + 1 + |w.name|, |bytes|);
  }

  lemma SubSlice(img: seq<Byte>, here: nat, bytes: seq<Byte>, a: nat, b: nat)
    requires here + |bytes| <= |img| && img[here..here + |bytes|] == bytes && a <= b <= |bytes|
    ensures img[here + a..here + b] == bytes[a..b]
  {
    forall k | 0 <= k < b - a
      ensures img[here + a..here + b][k] == bytes[a..b][k]
    {
      assert img[here..here + |bytes|][a + k] == bytes[a + k];
    }
  }

  function Nfas(pre: seq<Byte>, threads: nat, ws: seq<Word>): seq<nat>
    requires AllProper(ws, threads)
  {
    seq(|ws|, i requires 0 <= i < |ws| => NfaOf(pre, threads, ws, i))
  }

  /** The first k threads' words. */
  function Threads(pre: seq<Byte>, threads: nat, ws: seq<Word>, k: nat): seq<nat>
    requires AllProper(ws, threads)
  {
    if k == 0 then [] else Threads(pre, threads, ws, k - 1) + InThread(pre, threads, ws, k - 1)
  }

  lemma {:induction false} OneThreadGrows(pre: seq<Byte>, threads: nat, ws: seq<Word>, k: nat)
    requires AllProper(ws, threads) && ws != []
    ensures
      var init, w := ws[..|ws| - 1], ws[|ws| - 1];
      multiset(Threads(pre, threads, ws, k)) == multiset(Threads(pre, threads, init, k))
        + if w.thread < k then multiset{NfaOf(pre, threads, ws, |ws| - 1)} else multiset{}
    decreases k
  {
    hide NfaOf; hide Lay;
    if k > 0 {
      OneThreadGrows(pre, threads, ws, k - 1);
    }
  }

  lemma {:induction false} EveryWordOnce(pre: seq<Byte>, threads: nat, ws: seq<Word>)
    requires AllProper(ws, threads)
    ensures multiset(Threads(pre, threads, ws, threads)) == multiset(Nfas(pre, threads, ws))
  {
    if ws == [] {
      NoThreads(pre, threads, threads);
    } else {
      var init := ws[..|ws| - 1];
      EveryWordOnce(pre, threads, init);
      OneThreadGrows(pre, threads, ws, threads);
      OneNfaMore(pre, threads, ws);
      assert ws[|ws| - 1].thread < threads;
      hide Threads; hide Nfas; hide NfaOf;
    }
  }

  lemma OneNfaMore(pre: seq<Byte>, threads: nat, ws: seq<Word>)
    requires AllProper(ws, threads) && ws != []
    ensures Nfas(pre, threads, ws) == Nfas(pre, threads, ws[..|ws| - 1]) + [NfaOf(pre, threads, ws, |ws| - 1)]
  {
    hide Lay;
    var init := ws[..|ws| - 1];
    forall i | 0 <= i < |init|
      ensures NfaOf(pre, threads, init, i) == NfaOf(pre, threads, ws, i)
    {
      assert init[..i] == ws[..i];
    }
  }

  lemma {:induction false} NoThreads(pre: seq<Byte>, threads: nat, k: nat)
    ensures Threads(pre, threads, [], k) == []
    decreases k
  {
    if k > 0 { NoThreads(pre, threads, k - 1); }
  }

  lemma {:induction false} WalkedIsThreads(pre: seq<Byte>, threads: nat, ws: seq<Word>, k: nat)
    requires AllProper(ws, threads) && |Lay(pre, threads, ws).img| + 3 < REACH && k <= threads
    ensures
      var d := Lay(pre, threads, ws);
      WalkedAll(d.img, d.heads[..k]) == Threads(pre, threads, ws, k)
    decreases k
  {
    if k > 0 {
      var d := Lay(pre, threads, ws);
      WalkedIsThreads(pre, threads, ws, k - 1);
      WalkFindsThread(pre, threads, ws, k - 1);
      hide Lay; hide Walked; hide InThread;
      assert d.heads[..k][..k - 1] == d.heads[..k - 1];
    }
  }

  ghost predicate Rising(s: seq<nat>) {
    forall i, j :: 0 <= i < j < |s| ==> s[i] < s[j]
  }

  lemma {:induction false} LaidLater(pre: seq<Byte>, threads: nat, ws: seq<Word>, i: nat, j: nat)
    requires AllProper(ws, threads) && i <= j <= |ws|
    ensures HereOf(pre, threads, ws, i) <= HereOf(pre, threads, ws, j)
    decreases j - i
  {
    if i < j {
      WordLies(pre, threads, ws, i);
      LaidLater(pre, threads, ws, i + 1, j);
    }
  }

  lemma NfasRise(pre: seq<Byte>, threads: nat, ws: seq<Word>)
    requires AllProper(ws, threads)
    ensures Rising(Nfas(pre, threads, ws))
  {
    forall i, j | 0 <= i < j < |ws|
      ensures NfaOf(pre, threads, ws, i) < NfaOf(pre, threads, ws, j)
    {
      WordLies(pre, threads, ws, i);
      LaidLater(pre, threads, ws, i + 1, j);
    }
  }

  lemma LinkBack(img: seq<Byte>, n: nat, here: nat, next: nat, head: nat, w: Word)
    requires Shows(img, n, here, next, head, w)
    ensures 0 <= Prev(img, n).0 < n
  {
    hide Prev; hide EntryAt;
  }

  /** Walking the threads of any laid dictionary ends, and comes by every word exactly once. */
  lemma WalkFindsAll(pre: seq<Byte>, threads: nat, ws: seq<Word>)
    requires AllProper(ws, threads) && |Lay(pre, threads, ws).img| + 3 < REACH
    ensures
      var d := Lay(pre, threads, ws);
      LeadsBack(d.img, d.heads) && multiset(WalkedAll(d.img, d.heads)) == multiset(Nfas(pre, threads, ws))
  {
    var d := Lay(pre, threads, ws);
    WalkedIsThreads(pre, threads, ws, threads);
    assert d.heads[..threads] == d.heads;
    EveryWordOnce(pre, threads, ws);
    var found, laid := WalkedAll(d.img, d.heads), Nfas(pre, threads, ws);
    forall n | n in found
      ensures 0 <= Prev(d.img, n).0 < n
    {
      assert n in multiset(laid);
      var i :| 0 <= i < |laid| && laid[i] == n;
      EntryIsWord(pre, threads, ws, i);
      LinkBack(d.img, n, HereOf(pre, threads, ws, i), HereOf(pre, threads, ws, i + 1),
               Before(pre, threads, ws, i).heads[ws[i].thread], ws[i]);
    }
  }

  // ---- spans ---------------------------------------------------------------

  /** Where the body of the i-th name, in address order, begins and ends. */
  function Span(img: seq<Byte>, words: map<nat, Entry>, nfas: seq<nat>, i: nat): (int, int)
    requires i < |nfas| && forall n :: n in nfas ==> n in words
  {
    (nfas[i] + 1 + words[nfas[i]].count % 32,
     if i + 1 < |nfas| then nfas[i + 1] - words[nfas[i + 1]].linkLen else |img|)
  }

  method Spans(img: seq<Byte>, words: map<nat, Entry>, nfas: seq<nat>) returns (bodies: seq<(int, int)>)
    requires forall n :: n in nfas ==> n in words
    ensures |bodies| == |nfas|
    ensures forall i :: 0 <= i < |nfas| ==> bodies[i] == Span(img, words, nfas, i)
  {
    bodies := [];
    for i := 0 to |nfas|
      invariant |bodies| == i
      invariant forall k :: 0 <= k < i ==> bodies[k] == Span(img, words, nfas, k)
    {
      var n := nfas[i];
      var xt := n + 1 + words[n].count % 32;
      var end := if i + 1 < |nfas| then nfas[i + 1] - words[nfas[i + 1]].linkLen else |img|;
      bodies := bodies + [(xt, end)];
    }
  }

  /** sorted(words) can only be the names in the order they were laid. */
  lemma {:induction false} SortedIsLaid(s: seq<nat>, t: seq<nat>)
    requires Rising(s) && Rising(t) && forall n :: n in s <==> n in t
    ensures s == t
    decreases |s|
  {
    if s == [] {
      if t != [] { HasFirst(t); }
    } else {
      assert s[|s| - 1] in t;
      LastSame(s, t);
      var a, b := s[..|s| - 1], t[..|t| - 1];
      forall n
        ensures n in a <==> n in b
      {
        Dropped(s, n);
        Dropped(t, n);
      }
      SortedIsLaid(a, b);
    }
  }

  lemma HasFirst(t: seq<nat>)
    requires t != []
    ensures exists n :: n in t
  {
    assert t[0] in t;
  }

  lemma LastSame(s: seq<nat>, t: seq<nat>)
    requires Rising(s) && Rising(t) && s != [] && t != [] && forall n :: n in s <==> n in t
    ensures s[|s| - 1] == t[|t| - 1]
  {
    assert s[|s| - 1] in t && t[|t| - 1] in s;
  }

  lemma Dropped(s: seq<nat>, n: nat)
    requires Rising(s) && s != []
    ensures n in s[..|s| - 1] <==> n in s && n != s[|s| - 1]
  {
  }

  /** What Walk leaves in words, and sorted(words). */
  ghost predicate Noted(d: Dict, words: map<nat, Entry>, nfas: seq<nat>) {
    && Records(d.img, words, WalkedAll(d.img, d.heads))
    && Rising(nfas) && (forall n :: n in nfas <==> n in words)
  }

  lemma NotedIsLaid(pre: seq<Byte>, threads: nat, ws: seq<Word>, words: map<nat, Entry>, nfas: seq<nat>)
    requires AllProper(ws, threads) && |Lay(pre, threads, ws).img| + 3 < REACH
    requires Noted(Lay(pre, threads, ws), words, nfas)
    ensures nfas == Nfas(pre, threads, ws)
  {
    var d := Lay(pre, threads, ws);
    var found, laid := WalkedAll(d.img, d.heads), Nfas(pre, threads, ws);
    WalkFindsAll(pre, threads, ws);
    NfasRise(pre, threads, ws);
    hide Lay; hide NfaOf; hide Nfas; hide WalkedAll; hide EntryAt;
    assert forall n :: n in found <==> n in multiset(found);
    assert forall n :: n in laid <==> n in multiset(laid);
    SortedIsLaid(nfas, laid);
  }

  /** Entry and span of the i-th name are word w's, laid from here to next. */
  ghost predicate Recovered(img: seq<Byte>, words: map<nat, Entry>, nfas: seq<nat>, i: nat, w: Word, here: nat,
                            next: nat) {
    && i < |nfas| && (forall n :: n in nfas ==> n in words)
    && nfas[i] in words && here < nfas[i] && words[nfas[i]] == Entry(w.name, CountByte(w), nfas[i] - here)
    && var (xt, end) := Span(img, words, nfas, i);
       && xt == nfas[i] + 1 + |w.name| && end == next && xt <= end <= |img|
       && img[xt..end] == w.body
  }

  /**
   The whole round trip. What the walk found, put in order, is the words as they were laid; each entry
   has its word's name; and the spans computed from the entries cut the image into exactly the
   headers and bodies, one behind the other, from the first word to the end.
   */
  lemma DictionaryRoundTrip(pre: seq<Byte>, threads: nat, ws: seq<Word>, words: map<nat, Entry>, nfas: seq<nat>)
    requires AllProper(ws, threads) && |Lay(pre, threads, ws).img| + 3 < REACH
    requires Noted(Lay(pre, threads, ws), words, nfas)
    ensures |nfas| == |ws|
    ensures forall i: nat :: i < |ws| ==>
      Recovered(Lay(pre, threads, ws).img, words, nfas, i, ws[i], HereOf(pre, threads, ws, i),
                HereOf(pre, threads, ws, i + 1))
    ensures HereOf(pre, threads, ws, 0) == |pre| && HereOf(pre, threads, ws, |ws|) == |Lay(pre, threads, ws).img|
  {
    hide Recovered;
    NotedIsLaid(pre, threads, ws, words, nfas);
    assert ws[..|ws|] == ws && ws[..0] == [];
    Start(pre, threads);
    hide Noted; hide EntryAt; hide Lay;
    forall i: nat | i < |ws|
      ensures Recovered(Lay(pre, threads, ws).img, words, nfas, i, ws[i], HereOf(pre, threads, ws, i),
                        HereOf(pre, threads, ws, i + 1))
    {
      OneRecovered(pre, threads, ws, words, nfas, i);
    }
  }

  lemma Recover(img: seq<Byte>, words: map<nat, Entry>, nfas: seq<nat>, i: nat, w: Word, here: nat, next: nat,
                head: nat)
    requires i < |nfas| && (forall n :: n in nfas ==> n in words) && nfas[i] in words
    requires words[nfas[i]] == EntryAt(img, nfas[i]) && Shows(img, nfas[i], here, next, head, w)
        && CountByte(w) % 32 == |w.name|
    requires i + 1 < |nfas| ==> nfas[i + 1] in words && next == nfas[i + 1] - words[nfas[i + 1]].linkLen
    requires i + 1 == |nfas| ==> next == |img|
    ensures Recovered(img, words, nfas, i, w, here, next)
  {
    hide EntryAt; hide Prev; hide CountByte;
  }

  lemma LinkLength(img: seq<Byte>, words: map<nat, Entry>, nfas: seq<nat>, i: nat, here: nat, next: nat, head: nat,
                   w: Word)
    requires i < |nfas| && nfas[i] in words && words[nfas[i]] == EntryAt(img, nfas[i])
        && Shows(img, nfas[i], here, next, head, w)
    ensures here == nfas[i] - words[nfas[i]].linkLen
  {
    hide EntryAt; hide Prev;
  }

  lemma NameEntry(pre: seq<Byte>, threads: nat, ws: seq<Word>, words: map<nat, Entry>, nfas: seq<nat>, i: nat)
    requires AllProper(ws, threads) && |Lay(pre, threads, ws).img| + 3 < REACH && i < |ws|
    requires Noted(Lay(pre, threads, ws), words, nfas) && nfas == Nfas(pre, threads, ws)
    ensures i < |nfas| && nfas[i] == NfaOf(pre, threads, ws, i) && nfas[i] in words
    ensures words[nfas[i]] == EntryAt(Lay(pre, threads, ws).img, nfas[i])
  {
    assert nfas[i] in nfas;
    hide Lay; hide Rising; hide NfaOf; hide AllProper; hide EntryAt; hide WalkedAll;
  }

  lemma OneRecovered(pre: seq<Byte>, threads: nat, ws: seq<Word>, words: map<nat, Entry>, nfas: seq<nat>, i: nat)
    requires AllProper(ws, threads) && |Lay(pre, threads, ws).img| + 3 < REACH && i < |ws|
    requires Noted(Lay(pre, threads, ws), words, nfas) && nfas == Nfas(pre, threads, ws)
    ensures Recovered(Lay(pre, threads, ws).img, words, nfas, i, ws[i], HereOf(pre, threads, ws, i),
                      HereOf(pre, threads, ws, i + 1))
  {
    NotedIn(Lay(pre, threads, ws), words, nfas);
    NameAfter(pre, threads, ws, i);
    WholeIs(pre, threads, ws);
    hide *;
    NameEntry(pre, threads, ws, words, nfas, i);
    EntryIsWord(pre, threads, ws, i);
    CountIs(ws[i], threads);
    var img, head := Lay(pre, threads, ws).img, Before(pre, threads, ws, i).heads[ws[i].thread];
    if i + 1 < |ws| {
      NameEntry(pre, threads, ws, words, nfas, i + 1);
      EntryIsWord(pre, threads, ws, i + 1);
      LinkLength(img, words, nfas, i + 1, HereOf(pre, threads, ws, i + 1), HereOf(pre, threads, ws, i + 2),
                 Before(pre, threads, ws, i + 1).heads[ws[i + 1].thread], ws[i + 1]);
    }
    Recover(img, words, nfas, i, ws[i], HereOf(pre, threads, ws, i), HereOf(pre, threads, ws, i + 1), head);
  }

  lemma NameAfter(pre: seq<Byte>, threads: nat, ws: seq<Word>, i: nat)
    requires AllProper(ws, threads) && i < |ws|
    ensures HereOf(pre, threads, ws, i) < NfaOf(pre, threads, ws, i) && Proper(ws[i], threads)
    ensures |Nfas(pre, threads, ws)| == |ws|
  {
  }

  lemma WholeIs(pre: seq<Byte>, threads: nat, ws: seq<Word>)
    requires AllProper(ws, threads)
    ensures HereOf(pre, threads, ws, |ws|) == |Lay(pre, threads, ws).img|
  {
    assert ws[..|ws|] == ws;
  }

  lemma NotedIn(d: Dict, words: map<nat, Entry>, nfas: seq<nat>)
    requires Noted(d, words, nfas)
    ensures forall n :: n in nfas ==> n in words
  {
    hide EntryAt; hide WalkedAll; hide Rising;
  }
}
