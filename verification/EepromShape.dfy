/** The shapes the flash can have in any reachable state, and what start-up makes of each. */
module EepromShape {
  import opened Wrappers
  import opened Flash
  import opened EepromLog
  import opened EepromSpec

  /** Entries fill a page from its first entry word on; the rest of the page is erased. */
  predicate LogShape(pg: Page)
    requires 2 <= |pg|
  {
    var next := NextFree(pg, 2);
    && (forall i :: 2 <= i < next ==> ValidEntry(pg[i]))
    && (forall i :: next <= i < |pg| ==> pg[i] == ERASED)
  }

  function Stored(pg: Page): Store
    requires 2 <= |pg|
  {
    View(pg[2..NextFree(pg, 2)])
  }

  /** A page that is out of service: not active and, if used, with a counter below `c`. */
  predicate Retired(pg: Page, c: int)
    requires 2 <= |pg|
  {
    !IsActive(pg) && (IsUsed(pg) ==> pg[0] < c)
  }

  /** A used page before page `a` carries the counter before that of `a`. */
  predicate PredInStep(img: Image, a: nat)
    requires Geometry(img) && a < |img|
  {
    IsUsed(img[Pred(img, a)]) ==> img[Pred(img, a)][0] == PrevCount(img[a][0])
  }

  /** No page carries a counter: a blank region, whatever the entry words hold. */
  predicate Fresh(img: Image) {
    Geometry(img) && forall q :: 0 <= q < |img| ==> img[q][0] == ERASED
  }

  /** Page `a` is the only active page. */
  predicate Normal(img: Image, a: nat) {
    && Geometry(img) && a < |img|
    && IsActive(img[a]) && LogShape(img[a])
    && (forall q :: 0 <= q < |img| && q != a ==> Retired(img[q], img[a][0]))
    && PredInStep(img, a)
  }

  /** A swap was cut short after its third step: page `a` is full and still active, its successor
      is active with the next counter and holds the same store. */
  predicate TwoActive(img: Image, a: nat) {
    && Geometry(img) && a < |img|
    && var b := Succ(img, a);
    && IsActive(img[a]) && LogShape(img[a]) && img[a][Words(img) - 1] != ERASED
    && IsActive(img[b]) && LogShape(img[b]) && img[b][Words(img) - 1] == ERASED
    && img[b][0] == img[a][0] + 1
    && Stored(img[b]) == Stored(img[a])
    && (forall q :: 0 <= q < |img| && q != a && q != b ==> Retired(img[q], img[a][0]))
    && PredInStep(img, a)
  }

  /** A clear was cut short: no page is active, and the used page `a` has the highest counter,
      which is at least 1 and not the last one. */
  predicate Cleared(img: Image, a: nat) {
    && Geometry(img) && a < |img|
    && IsUsed(img[a]) && 1 <= img[a][0] < LAST_COUNT
    && (forall q :: 0 <= q < |img| && q != a ==> Retired(img[q], img[a][0]))
  }

  // A page with this counter cannot have a successor: the next counter reads as erased.
  const LAST_COUNT := 0xFFFF_FFFE

  ghost predicate Good(img: Image) {
    Fresh(img) || exists a: nat :: Normal(img, a) || TwoActive(img, a) || Cleared(img, a)
  }

  // ---- counting and searching ----

  lemma {:induction false} CountOne(img: Image, a: nat, k: nat)
    requires Geometry(img) && k <= |img|
    requires forall j :: 0 <= j < k ==> (IsActive(img[j]) <==> j == a)
    ensures ActiveCount(img, k) == if a < k then 1 else 0
  {
    if k == 0 {
    } else {
      CountOne(img, a, k - 1);
    }
  }

  lemma {:induction false} CountTwo(img: Image, a: nat, b: nat, k: nat)
    requires Geometry(img) && k <= |img| && a != b
    requires forall j :: 0 <= j < k ==> (IsActive(img[j]) <==> j == a || j == b)
    ensures ActiveCount(img, k) == (if a < k then 1 else 0) + (if b < k then 1 else 0)
  {
    if k == 0 {
    } else {
      CountTwo(img, a, b, k - 1);
    }
  }

  lemma {:induction false} UsedPositive(img: Image, a: nat, k: nat)
    requires Geometry(img) && a < k <= |img| && IsUsed(img[a])
    ensures UsedCount(img, k) >= 1
  {
    if a >= k - 1 {
    } else {
      UsedPositive(img, a, k - 1);
    }
  }

  lemma {:induction false} NoneUsed(img: Image, k: nat)
    requires Geometry(img) && k <= |img|
    requires forall j :: 0 <= j < k ==> !IsUsed(img[j])
    ensures UsedCount(img, k) == 0
  {
    if k == 0 {
    } else {
      NoneUsed(img, k - 1);
    }
  }

  /** The search finds the used page with the highest counter if that counter is at least 1... */
  lemma {:induction false} MruIs(img: Image, a: nat, k: nat)
    requires Geometry(img) && a < |img| && k <= |img|
    requires IsUsed(img[a]) && 1 <= img[a][0]
    requires forall q :: 0 <= q < |img| && q != a ==> Retired(img[q], img[a][0])
    ensures var r := MostRecentlyUsed(img, k);
      if a < k then r == Some(a) else r.None? || img[r.value][0] < img[a][0]
  {
    if k == 0 {
    } else {
      MruIs(img, a, k - 1);
    }
  }

  /** ...and finds nothing if every used page has counter 0. */
  lemma {:induction false} MruMissesZero(img: Image, k: nat)
    requires Geometry(img) && k <= |img|
    requires forall q :: 0 <= q < |img| && IsUsed(img[q]) ==> img[q][0] == 0
    ensures MostRecentlyUsed(img, k) == None
  {
    if k == 0 {
    } else {
      MruMissesZero(img, k - 1);
    }
  }

  // ---- running the erase, copy and open steps ----

  /** A page whose words from index `i` on are erased. */
  function Erased(pg: Page, i: nat): Page
    requires i <= |pg|
  {
    pg[..i] + Blank(|pg| - i)
  }

  lemma WipeThenErased(pg: Page, b: nat)
    requires (b + 1) * BLOCK_WORDS <= |pg|
    ensures |Wipe(pg, b)| == |pg|
    ensures Erased(Wipe(pg, b), (b + 1) * BLOCK_WORDS) == Erased(pg, b * BLOCK_WORDS)
  {
    var i, j := b * BLOCK_WORDS, (b + 1) * BLOCK_WORDS;
    assert Wipe(pg, b)[..j] == pg[..i] + Blank(BLOCK_WORDS);
  }

  lemma {:induction false} EraseRun(img: Image, q: nat, b: nat, n: nat)
    requires q < |img| && b <= n && |img[q]| == n * BLOCK_WORDS
    ensures LegalRun(img, EraseOps(q, b, n))
    ensures Run(img, EraseOps(q, b, n)) == img[q := Erased(img[q], b * BLOCK_WORDS)]
    decreases n - b
  {
    if b == n {
      assert Erased(img[q], b * BLOCK_WORDS) == img[q];
    } else {
      var op := EraseBlock(q, b);
      var img' := Apply(img, op);
      EraseRun(img', q, b + 1, n);
      var ops := EraseOps(q, b, n);
      assert ops[0] == op && ops[1..] == EraseOps(q, b + 1, n);
      WipeThenErased(img[q], b);
    }
  }

  /** A page with words written from index `i` on. */
  function Written(pg: Page, i: nat, ws: seq<Word>): Page
    requires i + |ws| <= |pg|
  {
    pg[..i] + ws + pg[i + |ws|..]
  }

  lemma PutThenWritten(pg: Page, i: nat, ws: seq<Word>)
    requires ws != [] && i + |ws| <= |pg|
    ensures Written(Put(pg, i, ws[0]), i + 1, ws[1..]) == Written(pg, i, ws)
  {
    assert Put(pg, i, ws[0])[..i + 1] == pg[..i] + [ws[0]];
    assert ws == [ws[0]] + ws[1..];
  }

  lemma {:induction false} CopyRun(img: Image, q: nat, i: nat, ws: seq<Word>)
    requires q < |img| && i + |ws| <= |img[q]|
    requires forall j :: i <= j < i + |ws| ==> img[q][j] == ERASED
    ensures LegalRun(img, CopyOps(q, i, ws))
    ensures Run(img, CopyOps(q, i, ws)) == img[q := Written(img[q], i, ws)]
    decreases |ws|
  {
    if ws == [] {
      assert Written(img[q], i, ws) == img[q];
    } else {
      var op := Op.Program(q, i, ws[0]);
      var img' := Apply(img, op);
      CopyRun(img', q, i + 1, ws[1..]);
      var ops := CopyOps(q, i, ws);
      assert ops[0] == op && ops[1..] == CopyOps(q, i + 1, ws[1..]);
      PutThenWritten(img[q], i, ws);
    }
  }

  /** Erasing page `q` leaves it blank. */
  lemma ErasePage(img: Image, q: nat)
    requires Geometry(img) && q < |img|
    ensures LegalRun(img, EraseOps(q, 0, Blocks(img)))
    ensures Run(img, EraseOps(q, 0, Blocks(img))) == img[q := Blank(Words(img))]
  {
    EraseRun(img, q, 0, Blocks(img));
    assert Erased(img[q], 0) == Blank(Words(img));
  }

  function Opened(img: Image, q: nat, count: Word): Image
    requires Geometry(img) && q < |img|
  {
    img[q := Put(Blank(Words(img)), 0, count)]
  }

  lemma OpenPage(img: Image, q: nat, count: Word)
    requires Geometry(img) && q < |img|
    ensures LegalRun(img, OpenPageOps(img, q, count))
    ensures Run(img, OpenPageOps(img, q, count)) == Opened(img, q, count)
  {
    ErasePage(img, q);
    RunSnoc(img, EraseOps(q, 0, Blocks(img)), Op.Program(q, 0, count));
  }

  // ---- what start-up makes of each shape ----

  lemma InitNormal(img: Image, a: nat)
    requires Normal(img, a)
    ensures Good(img) && Geometry(img) && a < |img|
    ensures Init(img) == Booted([], Ram(a, NextFree(img[a], 2)))
    ensures Meaning(img) == Some(Stored(img[a]))
  {
    CountOne(img, a, |img|);
    assert Run(img, []) == img;
  }

  lemma InitTwoActive(img: Image, a: nat)
    requires TwoActive(img, a)
    ensures Good(img) && Geometry(img) && a < |img|
    ensures Init(img) == Booted([], Ram(a, Words(img)))
    ensures NextFree(img[a], 2) == Words(img)
    ensures Meaning(img) == Some(Stored(img[a]))
  {
    CountTwo(img, a, Succ(img, a), |img|);
    assert Run(img, []) == img;
  }

  lemma InitCleared(img: Image, a: nat)
    requires Cleared(img, a)
    ensures Good(img) && Geometry(img) && a < |img|
    ensures Init(img) ==
      Booted(OpenPageOps(img, Succ(img, a), img[a][0] + 1), Ram(Succ(img, a), 2))
    ensures Meaning(img) == Some(map[])
  {
    NoneActive(img, |img|);
    UsedPositive(img, a, |img|);
    MruIs(img, a, |img|);
    OpenPage(img, Succ(img, a), img[a][0] + 1);
    EmptyView();
  }

  lemma InitFresh(img: Image)
    requires Fresh(img)
    ensures Good(img) && Geometry(img)
    ensures Init(img) == Booted(OpenPageOps(img, 0, 0), Ram(0, 2))
    ensures Meaning(img) == Some(map[])
  {
    NoneActive(img, |img|);
    NoneUsed(img, |img|);
    OpenPage(img, 0, 0);
    EmptyView();
  }

  // ---- what start-up makes of other images ----

  /** A single active page that is not in step with the used page before it is taken for the remains of
      a clear: it is erased, and opened again with the next counter. */
  lemma InitOutOfStep(img: Image, a: nat)
    requires Geometry(img) && a < |img| && forall q :: 0 <= q < |img| ==> (IsActive(img[q]) <==> q == a)
    requires !PredInStep(img, a)
    ensures var count, ops := NextCount(img[Pred(img, a)][0]), OpenPageOps(img, a, NextCount(img[Pred(img, a)][0]));
      && Init(img) == Booted(ops, Ram(a, 2)) && Meaning(img) == Some(map[])
      && LegalRun(img, ops) && Run(img, ops) == Opened(img, a, count)
  {
    hide Init, OpenPageOps, Opened, Run, LegalRun, Seen, Succ, Pred, PredInStep;
    var count := NextCount(img[Pred(img, a)][0]);
    OutOfStepPlan(img, a);
    OpenPage(img, a, count);
    SeesNothing(img, a, count);
  }

  lemma OutOfStepPlan(img: Image, a: nat)
    requires Geometry(img) && a < |img| && forall q :: 0 <= q < |img| ==> (IsActive(img[q]) <==> q == a)
    requires !PredInStep(img, a)
    ensures Init(img) == Booted(OpenPageOps(img, a, NextCount(img[Pred(img, a)][0])), Ram(a, 2))
  {
    hide OpenPageOps;
    CountOne(img, a, |img|);
  }

  /** A page that has just been opened shows the empty store. */
  lemma SeesNothing(img: Image, q: nat, count: Word)
    requires Geometry(img) && q < |img|
    ensures RamFits(Opened(img, q, count), Ram(q, 2)) && Seen(Opened(img, q, count), Ram(q, 2)) == map[]
  {
    var img' := Opened(img, q, count);
    assert img'[q][2..2] == [];
    EmptyView();
  }

  lemma {:induction false} ActiveCounts(img: Image, a: nat, k: nat)
    requires Geometry(img) && a < k <= |img| && IsActive(img[a])
    ensures ActiveCount(img, k) >= ActiveCount(img, a) + 1
    decreases k
  {
    if k == a + 1 {
    } else {
      ActiveCounts(img, a, k - 1);
    }
  }

  /** Three active pages, or two of which none is full, are reported as errors. */
  lemma InitErrors(img: Image, a: nat, b: nat, c: nat)
    requires Geometry(img) && a < b < |img| && IsActive(img[a]) && IsActive(img[b])
    ensures b < c < |img| && IsActive(img[c]) ==> Init(img) == Failed(ERR_ACTIVE_PG_CNT)
    ensures (forall q :: 0 <= q < |img| ==> (IsActive(img[q]) <==> q == a || q == b) && !IsActiveAndFull(img[q])) ==>
      Init(img) == Failed(ERR_TWO_ACTIVE_NO_FULL)
  {
    if b < c < |img| && IsActive(img[c]) {
      ActiveCounts(img, a, b);
      ActiveCounts(img, b, c);
      ActiveCounts(img, c, |img|);
    } else if forall q :: 0 <= q < |img| ==> (IsActive(img[q]) <==> q == a || q == b) && !IsActiveAndFull(img[q]) {
      CountTwo(img, a, b, |img|);
    }
  }

  lemma {:induction false} MruNone(img: Image, k: nat)
    requires Geometry(img) && k <= |img| && MostRecentlyUsed(img, k) == None
    ensures forall q :: 0 <= q < k && IsUsed(img[q]) ==> img[q][0] == 0
  {
    if k == 0 {
    } else {
      MruNone(img, k - 1);
    }
  }

  /** Start-up reads through the wild pointer if and only if no page is active, some are used, and all
      of these have counter 0. */
  lemma InitWildIff(img: Image)
    requires Geometry(img)
    ensures Init(img) == WildRead <==>
      && (forall q :: 0 <= q < |img| ==> !IsActive(img[q]))
      && (exists q :: 0 <= q < |img| && IsUsed(img[q]))
      && (forall q :: 0 <= q < |img| && IsUsed(img[q]) ==> img[q][0] == 0)
  {
    if a :| 0 <= a < |img| && IsActive(img[a]) {
      ActiveCounts(img, a, |img|);
    } else {
      NoneActive(img, |img|);
      if u :| 0 <= u < |img| && IsUsed(img[u]) {
        UsedPositive(img, u, |img|);
        if MostRecentlyUsed(img, |img|) == None {
          MruNone(img, |img|);
        } else if forall q :: 0 <= q < |img| && IsUsed(img[q]) ==> img[q][0] == 0 {
          MruMissesZero(img, |img|);
        }
      } else {
        NoneUsed(img, |img|);
      }
    }
  }

  lemma EmptyView()
    ensures View([]) == map[]
  {
  }

  /** A freshly opened page is an empty log. */
  lemma OpenedIsEmpty(n: nat, count: Word)
    requires n > NUM_IDS + 2 && count != ERASED
    ensures var pg := Put(Blank(n), 0, count);
      IsActive(pg) && NextFree(pg, 2) == 2 && LogShape(pg) && Stored(pg) == map[]
  {
    var pg := Put(Blank(n), 0, count);
    assert pg[2] == ERASED;
    assert NextFree(pg, 2) == 2;
    assert pg[2..2] == [];
    EmptyView();
  }
}
