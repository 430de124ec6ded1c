/** Power may fail between any two flash steps: what survives. */
module EepromSafety {
  import opened Wrappers
  import opened Flash
  import opened EepromLog
  import opened EepromSpec
  import opened EepromShape

  /** Every step is legal, and before, between and after the steps the image has a good shape from
      which start-up recovers one of two stores. */
  ghost predicate Covers(img: Image, ops: seq<Op>, m0: Store, m1: Store)
    decreases |ops|
  {
    && Good(img) && (Meaning(img) == Some(m0) || Meaning(img) == Some(m1))
    && (ops != [] ==> Legal(img, ops[0]) && Covers(Apply(img, ops[0]), ops[1..], m0, m1))
  }

  lemma {:induction false} CoversConcat(img: Image, a: seq<Op>, b: seq<Op>, m0: Store, m1: Store)
    requires Covers(img, a, m0, m1) && LegalRun(img, a) && Covers(Run(img, a), b, m0, m1)
    ensures Covers(img, a + b, m0, m1)
    decreases |a|
  {
    hide Good, Meaning;
    if a == [] {
      assert a + b == b;
    } else {
      assert (a + b)[1..] == a[1..] + b && (a + b)[0] == a[0];
      CoversConcat(Apply(img, a[0]), a[1..], b, m0, m1);
    }
  }

  lemma {:induction false} CoversWiden(img: Image, ops: seq<Op>, m: Store, m0: Store, m1: Store)
    requires Covers(img, ops, m, m) && (m == m0 || m == m1)
    ensures Covers(img, ops, m0, m1)
    decreases |ops|
  {
    hide Good, Meaning;
    if ops == [] {
    } else {
      CoversWiden(Apply(img, ops[0]), ops[1..], m, m0, m1);
    }
  }

  /** `Covers` speaks of every point at which power can fail. */
  lemma {:induction false} CoversEveryCut(img: Image, ops: seq<Op>, m0: Store, m1: Store, k: nat)
    requires Covers(img, ops, m0, m1) && k <= |ops|
    ensures LegalRun(img, ops[..k])
    ensures Good(Run(img, ops[..k]))
    ensures Meaning(Run(img, ops[..k])) == Some(m0) || Meaning(Run(img, ops[..k])) == Some(m1)
    decreases |ops|
  {
    hide Good, Meaning;
    if k == 0 {
      assert ops[..0] == [] && Run(img, []) == img;
    } else {
      assert ops[..k][1..] == ops[1..][..k - 1] && ops[..k][0] == ops[0];
      CoversEveryCut(Apply(img, ops[0]), ops[1..], m0, m1, k - 1);
    }
  }

  // ---- work on a page whose counter word is erased does not matter ----

  /** Page `q` carries no counter and the store `m` does not depend on it. */
  ghost predicate Sheltered(img: Image, a: nat, q: nat, m: Store) {
    && Geometry(img) && q < |img| && img[q][0] == ERASED
    && (|| (a != q && Normal(img, a) && m == Stored(img[a]))
        || (a != q && Cleared(img, a) && m == map[])
        || (Fresh(img) && m == map[]))
  }

  lemma ShelteredIsGood(img: Image, a: nat, q: nat, m: Store)
    requires Sheltered(img, a, q, m)
    ensures Good(img) && Meaning(img) == Some(m)
  {
    if Fresh(img) && m == map[] { InitFresh(img); }
    else if Cleared(img, a) && m == map[] { InitCleared(img, a); }
    else { InitNormal(img, a); }
  }

  /** A step on a page other than `a` that leaves it without a counter keeps `a` what it is. */
  lemma OtherPageStep(img: Image, a: nat, op: Op)
    requires Geometry(img) && Legal(img, op) && Apply(img, op)[op.page][0] == ERASED
    ensures Normal(img, a) && op.page != a ==> Normal(Apply(img, op), a)
    ensures Cleared(img, a) && op.page != a ==> Cleared(Apply(img, op), a)
    ensures Fresh(img) ==> Fresh(Apply(img, op))
    ensures TwoActive(img, a) && op.page == Succ(img, a) ==> Normal(Apply(img, op), a)
  {
    var img' := Apply(img, op);
    assert Geometry(img');
    assert forall q :: 0 <= q < |img| && q != op.page ==> img'[q] == img[q];
  }

  predicate AllOnPage(ops: seq<Op>, q: nat) {
    forall i :: 0 <= i < |ops| ==>
      ops[i].page == q && (ops[i].Program? ==> ops[i].index != 0)
  }

  lemma {:induction false} ShelteredCovers(img: Image, a: nat, q: nat, m: Store, ops: seq<Op>)
    requires Sheltered(img, a, q, m) && AllOnPage(ops, q) && LegalRun(img, ops)
    ensures Covers(img, ops, m, m)
    ensures Sheltered(Run(img, ops), a, q, m)
    decreases |ops|
  {
    hide Meaning, Good, Normal, Cleared, Fresh, TwoActive;
    ShelteredIsGood(img, a, q, m);
    if ops == [] {
    } else {
      var op := ops[0];
      assert Apply(img, op)[q][0] == ERASED;
      OtherPageStep(img, a, op);
      ShelteredCovers(Apply(img, op), a, q, m, ops[1..]);
    }
  }

  lemma {:induction false} EraseOpsOnPage(q: nat, b: nat, n: nat)
    ensures AllOnPage(EraseOps(q, b, n), q)
    ensures forall op :: op in EraseOps(q, b, n) ==> op.EraseBlock?
    decreases n - b
  {
    if b >= n {
    } else {
      EraseOpsOnPage(q, b + 1, n);
    }
  }

  lemma {:induction false} CopyOpsOnPage(q: nat, i: nat, ws: seq<Word>)
    requires i > 0
    ensures AllOnPage(CopyOps(q, i, ws), q)
    decreases |ws|
  {
    if ws == [] {
    } else {
      CopyOpsOnPage(q, i + 1, ws[1..]);
    }
  }

  /** Erasing page `q`: once its first block is gone, page `q` is sheltered. */
  lemma EraseCovers(img: Image, a: nat, q: nat, m: Store, start: Store)
    requires Geometry(img) && q < |img|
    requires Good(img) && Meaning(img) == Some(start)
    requires Sheltered(Apply(img, EraseBlock(q, 0)), a, q, m)
    ensures Covers(img, EraseOps(q, 0, Blocks(img)), start, m)
    ensures LegalRun(img, EraseOps(q, 0, Blocks(img)))
    ensures Run(img, EraseOps(q, 0, Blocks(img))) == img[q := Blank(Words(img))]
    ensures Sheltered(Run(img, EraseOps(q, 0, Blocks(img))), a, q, m)
  {
    hide Meaning, Good;
    ErasePage(img, q);
    var n := Blocks(img);
    var ops := EraseOps(q, 0, n);
    assert ops[0] == EraseBlock(q, 0) && ops[1..] == EraseOps(q, 1, n);
    var img' := Apply(img, ops[0]);
    EraseOpsOnPage(q, 1, n);
    ShelteredCovers(img', a, q, m, ops[1..]);
    CoversWiden(img', ops[1..], m, start, m);
  }

  // ---- the running driver ----

  /** The driver has started up: its RAM agrees with the flash. */
  predicate Ready(img: Image, ram: Ram) {
    || (Normal(img, ram.active) && ram.next == NextFree(img[ram.active], 2))
    || (TwoActive(img, ram.active) && ram.next == Words(img))
  }

  lemma ReadyMeaning(img: Image, ram: Ram)
    requires Ready(img, ram)
    ensures RamFits(img, ram) && Good(img) && Meaning(img) == Some(Seen(img, ram))
  {
    if Normal(img, ram.active) {
      InitNormal(img, ram.active);
    } else {
      InitTwoActive(img, ram.active);
    }
  }

  lemma NextFreeIs(pg: Page, k: nat)
    requires 2 <= k <= |pg|
    requires forall i :: 2 <= i < k ==> ValidEntry(pg[i])
    requires k < |pg| ==> pg[k] == ERASED
    ensures NextFree(pg, 2) == k
  {
    var n := NextFree(pg, 2);
    assert n < k ==> ValidEntry(pg[n]);
  }

  /** Appending an entry to the only active page. */
  lemma AppendEntry(img: Image, a: nat, id: nat, data: nat)
    requires Normal(img, a) && NextFree(img[a], 2) < Words(img)
    requires id < NUM_IDS && data < 0x1_0000
    ensures var op := Op.Program(a, NextFree(img[a], 2), Entry(id, data));
      && Legal(img, op)
      && Normal(Apply(img, op), a)
      && NextFree(Apply(img, op)[a], 2) == NextFree(img[a], 2) + 1
      && Stored(Apply(img, op)[a]) == Stored(img[a])[id := data]
  {
    var k := NextFree(img[a], 2);
    var op := Op.Program(a, k, Entry(id, data));
    var img' := Apply(img, op);
    assert img'[a][..k] == img[a][..k];
    NextFreeIs(img'[a], k + 1);
    assert img'[a][2..k + 1] == img[a][2..k] + [Entry(id, data)];
    ViewAppend(img[a][2..k], id, data);
    forall q | 0 <= q < |img| && q != a ensures Retired(img'[q], img'[a][0]) {
      assert img'[q] == img[q];
    }
  }

  // ---- the page swap ----

  /** The page the swap builds, before it is opened. */
  function Copied(n: nat, ws: seq<Word>): Page
    requires 2 + |ws| <= n
  {
    Blank(2) + ws + Blank(n - 2 - |ws|)
  }

  lemma CopiedPage(full: Page, count: Word)
    requires |full| > NUM_IDS + 2 && count != ERASED
    ensures |Survivors(full)| <= NUM_IDS
    ensures var pg := Put(Copied(|full|, Survivors(full)), 0, count);
      && |pg| == |full| && IsActive(pg) && LogShape(pg)
      && NextFree(pg, 2) == 2 + |Survivors(full)|
      && pg[|pg| - 1] == ERASED
      && Stored(pg) == View(full[2..])
  {
    CompactSize(full[2..], {});
    var ws := Survivors(full);
    var pg := Put(Copied(|full|, ws), 0, count);
    forall i | 2 <= i < 2 + |ws| ensures ValidEntry(pg[i]) {
      assert pg[i] == ws[i - 2];
    }
    NextFreeIs(pg, 2 + |ws|);
    assert pg[2..2 + |ws|] == ws;
    CompactPreservesView(full[2..]);
  }

  lemma ReadyFull(img: Image, ram: Ram)
    requires Ready(img, ram) && ram.next == Words(img)
    ensures NextFree(img[ram.active], 2) == Words(img) && Stored(img[ram.active]) == Seen(img, ram)
    ensures var b := Succ(img, ram.active);
      Normal(Apply(img, EraseBlock(b, 0)), ram.active) &&
      Sheltered(Apply(img, EraseBlock(b, 0)), ram.active, b, Seen(img, ram))
  {
    if TwoActive(img, ram.active) { InitTwoActive(img, ram.active); }
    OtherPageStep(img, ram.active, EraseBlock(Succ(img, ram.active), 0));
  }

  lemma WrittenIsCopied(n: nat, ws: seq<Word>)
    requires 2 + |ws| <= n
    ensures Written(Blank(n), 2, ws) == Copied(n, ws)
  {
  }

  lemma BlankIsErased(n: nat)
    ensures |Blank(n)| == n && forall j :: 0 <= j < n ==> Blank(n)[j] == ERASED
  {
  }

  /** What erasing a page and copying words into it leaves there. */
  lemma EraseAndCopyRun(img: Image, q: nat, ws: seq<Word>)
    requires Geometry(img) && q < |img| && 2 + |ws| <= Words(img)
    ensures var erase, copy, blank := EraseOps(q, 0, Blocks(img)), CopyOps(q, 2, ws), img[q := Blank(Words(img))];
      && LegalRun(img, erase) && Run(img, erase) == blank
      && LegalRun(blank, copy) && Run(blank, copy) == img[q := Copied(Words(img), ws)]
      && LegalRun(img, erase + copy) && Run(img, erase + copy) == img[q := Copied(Words(img), ws)]
  {
    hide EraseOps, CopyOps, LegalRun, Run, Written, Copied, Blank;
    var n := Words(img);
    ErasePage(img, q);
    var erase, copy := EraseOps(q, 0, Blocks(img)), CopyOps(q, 2, ws);
    var blank := img[q := Blank(n)];
    BlankIsErased(n);
    CopyRun(blank, q, 2, ws);
    WrittenIsCopied(n, ws);
    assert blank[q := Copied(n, ws)] == img[q := Copied(n, ws)];
    RunConcat(img, erase, copy);
  }

  /** Erasing a page and copying words into it, while page `a` holds the store. */
  lemma EraseAndCopy(img: Image, a: nat, q: nat, m: Store, ws: seq<Word>)
    requires Geometry(img) && q < |img| && 2 + |ws| <= Words(img)
    requires Good(img) && Meaning(img) == Some(m)
    requires Sheltered(Apply(img, EraseBlock(q, 0)), a, q, m)
    ensures var ops := EraseOps(q, 0, Blocks(img)) + CopyOps(q, 2, ws);
      && LegalRun(img, ops)
      && Run(img, ops) == img[q := Copied(Words(img), ws)]
      && Covers(img, ops, m, m)
      && Sheltered(Run(img, ops), a, q, m)
  {
    hide Good, Meaning, Sheltered, Covers, EraseOps, CopyOps, LegalRun, Run, AllOnPage, Copied, Apply;
    EraseCovers(img, a, q, m, m);
    EraseAndCopyRun(img, q, ws);
    var erase, copy := EraseOps(q, 0, Blocks(img)), CopyOps(q, 2, ws);
    CopyOpsOnPage(q, 2, ws);
    ShelteredCovers(Run(img, erase), a, q, m, copy);
    CoversConcat(img, erase, copy, m, m);
  }

  /** Erase and copy: the first two stages of a swap. */
  lemma SwapCopies(img: Image, ram: Ram)
    requires Ready(img, ram) && ram.next == Words(img)
    ensures |Survivors(img[ram.active])| <= NUM_IDS
    ensures var b := Succ(img, ram.active);
      var ws := Survivors(img[ram.active]);
      var ops := EraseOps(b, 0, Blocks(img)) + CopyOps(b, 2, ws);
      && LegalRun(img, ops)
      && Run(img, ops) == img[b := Copied(Words(img), ws)]
      && Covers(img, ops, Seen(img, ram), Seen(img, ram))
      && Normal(Run(img, ops), ram.active)
  {
    hide Meaning, Good, Covers;
    var a := ram.active;
    var b := Succ(img, a);
    var ws := Survivors(img[a]);
    CompactSize(img[a][2..], {});
    ReadyMeaning(img, ram);
    ReadyFull(img, ram);
    EraseAndCopy(img, a, b, Seen(img, ram), ws);
    hide Normal, Sheltered, EraseOps, CopyOps, Run, LegalRun, Copied, Survivors, Stored;
    OtherPageFree(img, a, b, Copied(Words(img), ws));
  }

  /** What stands in a page without a counter does not matter. */
  lemma OtherPageFree(img: Image, a: nat, b: nat, pg: Page)
    requires Geometry(img) && a < |img| && b < |img| && a != b && Normal(Apply(img, EraseBlock(b, 0)), a)
    requires |pg| == Words(img) && pg[0] == ERASED
    ensures Normal(img[b := pg], a)
  {
    hide LogShape;
    assert forall q :: 0 <= q < |img| && q != b ==> img[b := pg][q] == Apply(img, EraseBlock(b, 0))[q];
  }

  /** Opening the copy and retiring the full page: the last two stages of a swap. */
  lemma SwapSwitches(img: Image, a: nat)
    requires Normal(img, a) && NextFree(img[a], 2) == Words(img) && img[a][0] < LAST_COUNT
    requires |Survivors(img[a])| <= NUM_IDS
    requires img[Succ(img, a)] == Copied(Words(img), Survivors(img[a]))
    ensures var b := Succ(img, a);
      var ops := [Op.Program(b, 0, NextCount(img[a][0])), Op.Program(a, 1, USED_MARK)];
      && LegalRun(img, ops)
      && Covers(img, ops, Stored(img[a]), Stored(img[a]))
      && Normal(Run(img, ops), b)
      && Stored(Run(img, ops)[b]) == Stored(img[a])
      && NextFree(Run(img, ops)[b], 2) == 2 + |Survivors(img[a])|
  {
    hide Meaning, Normal, TwoActive, Good, Geometry, Copied, Survivors, Stored;
    InitNormal(img, a);
    var b := Succ(img, a);
    var op0, op1 := Op.Program(b, 0, NextCount(img[a][0])), Op.Program(a, 1, USED_MARK);
    var m := Stored(img[a]);
    OpenTheCopy(img, a);
    var two := Apply(img, op0);
    InitTwoActive(two, a);
    MarkFirst(two, a);
    var done := Apply(two, op1);
    InitNormal(done, b);
    TwoSteps(img, op0, op1, m);
  }

  lemma TwoSteps(img: Image, op0: Op, op1: Op, m: Store)
    requires Good(img) && Meaning(img) == Some(m) && Legal(img, op0)
    requires Good(Apply(img, op0)) && Meaning(Apply(img, op0)) == Some(m)
    requires Legal(Apply(img, op0), op1)
    requires Good(Apply(Apply(img, op0), op1)) && Meaning(Apply(Apply(img, op0), op1)) == Some(m)
    ensures LegalRun(img, [op0, op1]) && Covers(img, [op0, op1], m, m)
    ensures Run(img, [op0, op1]) == Apply(Apply(img, op0), op1)
  {
    hide Good, Meaning, Apply;
    RunTwo(img, op0, op1);
    assert [op0, op1][1..] == [op1] && [op1][1..] == [];
    var two := Apply(img, op0);
    assert Covers(Apply(two, op1), [], m, m);
    assert Covers(two, [op1], m, m);
  }

  /** Programming the counter of the copy makes two pages active. */
  lemma OpenTheCopy(img: Image, a: nat)
    requires Normal(img, a) && NextFree(img[a], 2) == Words(img) && img[a][0] < LAST_COUNT
    requires |Survivors(img[a])| <= NUM_IDS
    requires img[Succ(img, a)] == Copied(Words(img), Survivors(img[a]))
    ensures var b := Succ(img, a);
      var op := Op.Program(b, 0, NextCount(img[a][0]));
      && Legal(img, op)
      && TwoActive(Apply(img, op), a)
      && Apply(img, op)[a] == img[a] && Stored(Apply(img, op)[b]) == Stored(img[a])
      && NextFree(Apply(img, op)[b], 2) == 2 + |Survivors(img[a])|
  {
    hide LogShape;
    var b := Succ(img, a);
    var two := Apply(img, Op.Program(b, 0, NextCount(img[a][0])));
    CopiedPage(img[a], NextCount(img[a][0]));
    assert forall q :: 0 <= q < |img| && q != b ==> two[q] == img[q];
    assert img[a][2..Words(img)] == img[a][2..];
    FullPage(img[a]);
  }

  lemma FullPage(pg: Page)
    requires 2 < |pg| && LogShape(pg) && NextFree(pg, 2) == |pg|
    ensures pg[|pg| - 1] != ERASED
  {
  }

  /** Retiring the first of two active pages puts its successor in service. */
  lemma MarkFirst(img: Image, a: nat)
    requires TwoActive(img, a)
    ensures Legal(img, Op.Program(a, 1, USED_MARK))
    ensures var img' := Apply(img, Op.Program(a, 1, USED_MARK));
      Normal(img', Succ(img, a)) && img'[Succ(img, a)] == img[Succ(img, a)]
  {
    var b := Succ(img, a);
    var img' := Apply(img, Op.Program(a, 1, USED_MARK));
    assert Pred(img', b) == a;
    forall q | 0 <= q < |img| && q != b ensures Retired(img'[q], img'[b][0]) {
      if q != a { assert img'[q] == img[q]; }
    }
  }

  lemma SwapCovers(img: Image, ram: Ram)
    requires Ready(img, ram) && ram.next == Words(img) && img[ram.active][0] < LAST_COUNT
    ensures var ops := SwapOps(img, ram.active);
      var b := Succ(img, ram.active);
      && Covers(img, ops, Seen(img, ram), Seen(img, ram))
      && LegalRun(img, ops)
      && Normal(Run(img, ops), b)
      && Stored(Run(img, ops)[b]) == Seen(img, ram)
      && NextFree(Run(img, ops)[b], 2) == 2 + |Survivors(img[ram.active])| < Words(img)
  {
    hide Good, Meaning, Covers;
    var a := ram.active;
    var b := Succ(img, a);
    var m := Seen(img, ram);
    SwapCopies(img, ram);
    var first := EraseOps(b, 0, Blocks(img)) + CopyOps(b, 2, Survivors(img[a]));
    var mid := Run(img, first);
    assert mid[a] == img[a];
    assert NextFree(img[a], 2) == Words(img) by { if TwoActive(img, a) { InitTwoActive(img, a); } }
    SwapSwitches(mid, a);
    var last := [Op.Program(b, 0, NextCount(img[a][0])), Op.Program(a, 1, USED_MARK)];
    RunConcat(img, first, last);
    CoversConcat(img, first, last, m, m);
    assert SwapOps(img, a) == first + last;
  }

  // ---- write ----

  /** The write does not have to swap away from a page with the last counter. */
  predicate CanWrite(img: Image, ram: Ram)
    requires RamFits(img, ram)
  {
    ram.next < Words(img) || img[ram.active][0] < LAST_COUNT
  }

  /** A write is crash-atomic: between any two of its flash steps, and before and after them,
      start-up recovers the store before the write or the store after it; and when all steps are
      taken the running driver sees the store after it. */
  lemma WriteIsCrashAtomic(img: Image, ram: Ram, id: nat, data: nat)
    requires Ready(img, ram) && id < NUM_IDS && data < 0x1_0000
    requires RamFits(img, ram) && CanWrite(img, ram)
    ensures Covers(img, WriteOps(img, ram, id, data), Seen(img, ram), Seen(img, ram)[id := data])
    ensures LegalRun(img, WriteOps(img, ram, id, data))
    ensures var img' := Run(img, WriteOps(img, ram, id, data));
      Ready(img', WriteRam(img, ram)) && Seen(img', WriteRam(img, ram)) == Seen(img, ram)[id := data]
  {
    hide Good, Meaning, Normal, TwoActive;
    ReadyMeaning(img, ram);
    var m, m' := Seen(img, ram), Seen(img, ram)[id := data];
    if ram.next < Words(img) {
      AppendCovers(img, ram.active, id, data);
    } else {
      SwapCovers(img, ram);
      var b := Succ(img, ram.active);
      var swap := SwapOps(img, ram.active);
      var mid := Run(img, swap);
      AppendCovers(mid, b, id, data);
      CoversWiden(img, swap, m, m, m');
      var op := Op.Program(b, NextFree(mid[b], 2), Entry(id, data));
      RunConcat(img, swap, [op]);
      CoversConcat(img, swap, [op], m, m');
    }
  }

  lemma AppendCovers(img: Image, a: nat, id: nat, data: nat)
    requires Normal(img, a) && NextFree(img[a], 2) < Words(img)
    requires id < NUM_IDS && data < 0x1_0000
    ensures var op := Op.Program(a, NextFree(img[a], 2), Entry(id, data));
      && Covers(img, [op], Stored(img[a]), Stored(img[a])[id := data])
      && LegalRun(img, [op]) && Normal(Run(img, [op]), a)
      && NextFree(Run(img, [op])[a], 2) == NextFree(img[a], 2) + 1
      && Stored(Run(img, [op])[a]) == Stored(img[a])[id := data]
  {
    var op := Op.Program(a, NextFree(img[a], 2), Entry(id, data));
    AppendEntry(img, a, id, data);
    var img' := Apply(img, op);
    InitNormal(img, a);
    InitNormal(img', a);
    assert [op][1..] == [] && Run(img', []) == img';
    assert Covers(img', [], Stored(img[a]), Stored(img[a])[id := data]);
  }

  // ---- clear ----

  /** From a sheltered page: erase it and open it as an empty page. */
  lemma OpenCovers(img: Image, a: nat, q: nat, start: Store, count: Word)
    requires Geometry(img) && q < |img| && Good(img) && Meaning(img) == Some(start)
    requires Sheltered(Apply(img, EraseBlock(q, 0)), a, q, map[])
    requires count != ERASED
    requires Normal(Opened(img, q, count), q)
    ensures Covers(img, OpenPageOps(img, q, count), start, map[])
    ensures LegalRun(img, OpenPageOps(img, q, count))
    ensures Run(img, OpenPageOps(img, q, count)) == Opened(img, q, count)
    ensures NextFree(Opened(img, q, count)[q], 2) == 2 && Stored(Opened(img, q, count)[q]) == map[]
  {
    hide LogShape, Init;
    OpenPage(img, q, count);
    EraseCovers(img, a, q, map[], start);
    var erase := EraseOps(q, 0, Blocks(img));
    var blank := Run(img, erase);
    var op := Op.Program(q, 0, count);
    var img' := Apply(blank, op);
    assert img' == Opened(img, q, count);
    OpenedIsEmpty(Words(img), count);
    InitNormal(img', q);
    ShelteredIsGood(blank, a, q, map[]);
    assert [op][1..] == [];
    assert Covers(img', [], start, map[]);
    assert Covers(blank, [op], start, map[]);
    CoversConcat(img, erase, [op], start, map[]);
  }

  lemma OpenedAfter(img: Image, a: nat, q: nat)
    requires Geometry(img) && a < |img| && q == Succ(img, a)
    requires IsUsed(img[a]) && img[a][0] < LAST_COUNT
    requires forall p :: 0 <= p < |img| && p != a && p != q ==> Retired(img[p], img[a][0])
    ensures Normal(Opened(img, q, img[a][0] + 1), q)
  {
    var img' := Opened(img, q, img[a][0] + 1);
    OpenedIsEmpty(Words(img), img[a][0] + 1);
    assert img'[a] == img[a] && Pred(img', q) == a;
    forall p | 0 <= p < |img| && p != q ensures Retired(img'[p], img'[q][0]) {
      assert img'[p] == img[p];
    }
  }

  /** The first step of a clear: the store is gone, unless a second active page still holds it. */
  lemma MarkedMeaning(img: Image, ram: Ram)
    requires Ready(img, ram) && 1 <= img[ram.active][0] < LAST_COUNT
    ensures Legal(img, Op.Program(ram.active, 1, USED_MARK))
    ensures var marked := Apply(img, Op.Program(ram.active, 1, USED_MARK));
      Good(marked) &&
      Meaning(marked) == Some(if Normal(img, ram.active) then map[] else Seen(img, ram))
  {
    var a := ram.active;
    MarkShape(img, ram);
    var marked := Apply(img, Op.Program(a, 1, USED_MARK));
    if Normal(img, a) {
      assert Cleared(marked, a);
      InitCleared(marked, a);
    } else {
      MarkFirst(img, a);
      InitNormal(marked, Succ(img, a));
      InitTwoActive(img, a);
    }
  }

  /** Wiping the successor of a used page with the highest counter. */
  lemma WipedIsCleared(img: Image, a: nat)
    requires Geometry(img) && a < |img| && IsUsed(img[a]) && 1 <= img[a][0] < LAST_COUNT
    requires forall p :: 0 <= p < |img| && p != a && p != Succ(img, a) ==> Retired(img[p], img[a][0])
    ensures Sheltered(Apply(img, EraseBlock(Succ(img, a), 0)), a, Succ(img, a), map[])
  {
    var b := Succ(img, a);
    var wiped := Apply(img, EraseBlock(b, 0));
    assert wiped[b][0] == ERASED;
    forall q | 0 <= q < |img| && q != a ensures Retired(wiped[q], wiped[a][0]) {
      if q != b { assert wiped[q] == img[q]; }
    }
    assert Cleared(wiped, a);
  }

  /** A clear is crash-atomic if the active page's counter is at least 1. */
  lemma ClearIsCrashAtomic(img: Image, ram: Ram)
    requires Ready(img, ram) && 1 <= img[ram.active][0] < LAST_COUNT
    ensures Covers(img, ClearOps(img, ram), Seen(img, ram), map[])
  {
    hide Good, Meaning, Sheltered, Seen, Normal, TwoActive;
    ReadyMeaning(img, ram);
    MarkShape(img, ram);
    var a := ram.active;
    var b := Succ(img, a);
    var m := Seen(img, ram);
    var mark := Op.Program(a, 1, USED_MARK);
    var marked := Apply(img, mark);
    var start := if Normal(img, a) then map[] else m;
    MarkedMeaning(img, ram);
    WipedIsCleared(marked, a);
    OpenedAfter(marked, a, b);
    var open := OpenPageOps(marked, b, img[a][0] + 1);
    OpenCovers(marked, a, b, start, img[a][0] + 1);
    WidenStart(marked, open, start, m);
    assert ClearOps(img, ram) == [mark] + open;
    assert ClearOps(img, ram)[1..] == open;
  }

  lemma {:induction false} WidenStart(img: Image, ops: seq<Op>, start: Store, m: Store)
    requires Covers(img, ops, start, map[]) && (start == m || start == map[])
    ensures Covers(img, ops, m, map[])
    decreases |ops|
  {
    hide Good, Meaning;
    if ops == [] {
    } else {
      WidenStart(Apply(img, ops[0]), ops[1..], start, m);
    }
  }

  /** The image after the first step of a clear, whatever the counter is. */
  lemma MarkShape(img: Image, ram: Ram)
    requires Ready(img, ram)
    ensures RamFits(img, ram) && Legal(img, Op.Program(ram.active, 1, USED_MARK))
    ensures var marked := Apply(img, Op.Program(ram.active, 1, USED_MARK));
      var b := Succ(img, ram.active);
      && Geometry(marked) && Words(marked) == Words(img)
      && IsUsed(marked[ram.active]) && marked[ram.active][0] == img[ram.active][0]
      && (forall q :: 0 <= q < |img| && q != ram.active && q != b ==>
           Retired(marked[q], marked[ram.active][0]))
      && (Normal(img, ram.active) ==> Retired(marked[b], marked[ram.active][0]))
  {
    var marked := Apply(img, Op.Program(ram.active, 1, USED_MARK));
    assert forall q :: 0 <= q < |img| && q != ram.active ==> marked[q] == img[q];
  }

  /** What all the steps of a clear leave. */
  lemma ClearRun(img: Image, ram: Ram)
    requires Ready(img, ram)
    ensures RamFits(img, ram) && LegalRun(img, ClearOps(img, ram))
    ensures var a, b := ram.active, Succ(img, ram.active);
      var marked := Apply(img, Op.Program(a, 1, USED_MARK));
      && marked[a][0] == img[a][0]
      && Geometry(marked) && Words(marked) == Words(img)
      && Run(img, ClearOps(img, ram)) == Opened(marked, b, NextCount(img[a][0]))
      && (img[a][0] < LAST_COUNT ==> Normal(Opened(marked, b, img[a][0] + 1), b))
  {
    hide LogShape, Stored, PredInStep, Opened, Ready, Retired, EraseOps;
    MarkShape(img, ram);
    var a, b := ram.active, Succ(img, ram.active);
    var c := img[a][0];
    var mark := Op.Program(a, 1, USED_MARK);
    var marked := Apply(img, mark);
    OpenPage(marked, b, NextCount(c));
    if c < LAST_COUNT { OpenedAfter(marked, a, b); }
    var ops := ClearOps(img, ram);
    assert ops[0] == mark && ops[1..] == OpenPageOps(marked, b, NextCount(c));
  }

  lemma OpenedPage(img: Image, q: nat, count: Word)
    requires Geometry(img) && q < |img|
    ensures var img' := Opened(img, q, count);
      && RamFits(img', Ram(q, 2)) && Seen(img', Ram(q, 2)) == map[] && img'[q][0] == count
      && (count != ERASED ==> NextFree(img'[q], 2) == 2)
  {
    if count != ERASED { OpenedIsEmpty(Words(img), count); }
    SeesNothing(img, q, count);
  }

  /** A clear that runs to its end leaves an empty store, and the driver ready for the next call if
      and only if the counter has a successor: the counter after the last one reads as erased. */
  lemma ClearCompletes(img: Image, ram: Ram)
    requires Ready(img, ram)
    ensures RamFits(img, ram) && LegalRun(img, ClearOps(img, ram))
    ensures var img', ram' := Run(img, ClearOps(img, ram)), ClearRam(img, ram);
      && (Ready(img', ram') <==> img[ram.active][0] < LAST_COUNT)
      && RamFits(img', ram') && Seen(img', ram') == map[]
  {
    hide LogShape, Stored, PredInStep, Opened, ClearOps, Run, LegalRun, Seen, Retired;
    ClearRun(img, ram);
    var a, b := ram.active, Succ(img, ram.active);
    OpenedPage(Apply(img, Op.Program(a, 1, USED_MARK)), b, NextCount(img[a][0]));
  }

  /** Start-up after a cut finds the old store or the empty one, wherever the clear was cut. */
  ghost predicate ClearSurvivesEveryCut(img: Image, ram: Ram)
    requires RamFits(img, ram) && LegalRun(img, ClearOps(img, ram))
  {
    forall k: nat :: k <= |ClearOps(img, ram)| ==>
      (RunPrefix(img, ClearOps(img, ram), k);
       var m := Meaning(Run(img, ClearOps(img, ram)[..k]));
       m == Some(Seen(img, ram)) || m == Some(map[]))
  }

  /** With counter 0 a clear cut after its first block erase leaves an image from which start-up
      does not come up: the only used page has counter 0, so no most recently used page is found. */
  lemma ClearAtZeroIsLost(img: Image, ram: Ram)
    requires Ready(img, ram) && img[ram.active][0] == 0
    ensures LegalRun(img, ClearOps(img, ram)[..2])
    ensures Init(Run(img, ClearOps(img, ram)[..2])) == WildRead
  {
    hide Meaning, Normal, TwoActive, Init;
    ReadyMeaning(img, ram);
    var a := ram.active;
    var b := Succ(img, a);
    MarkShape(img, ram);
    ClearCompletes(img, ram);
    var ops := ClearOps(img, ram);
    var mark, wipe := Op.Program(a, 1, USED_MARK), EraseBlock(b, 0);
    var marked := Apply(img, mark);
    assert EraseOps(b, 0, Blocks(img))[0] == wipe;
    assert ops[..2] == [mark, wipe];
    RunTwo(img, mark, wipe);
    WildReadAfterWipe(marked, a);
  }

  lemma WildReadAfterWipe(img: Image, a: nat)
    requires Geometry(img) && a < |img| && IsUsed(img[a]) && img[a][0] == 0
    requires forall p :: 0 <= p < |img| && p != a && p != Succ(img, a) ==> Retired(img[p], 0)
    ensures Init(Apply(img, EraseBlock(Succ(img, a), 0))) == WildRead
  {
    var b := Succ(img, a);
    var lost := Apply(img, EraseBlock(b, 0));
    assert lost[b][0] == ERASED;
    forall q | 0 <= q < |lost| && q != a ensures !IsActive(lost[q]) && !IsUsed(lost[q]) {
      if q != b { assert lost[q] == img[q] && Retired(img[q], 0); }
    }
    NoneActive(lost, |lost|);
    UsedPositive(lost, a, |lost|);
    MruMissesZero(lost, |lost|);
  }

  /** A clear from the last counter: page `a` is used and newest, page `b` carries no counter. */
  ghost predicate SpentBefore(img: Image, a: nat, b: nat) {
    && Geometry(img) && a < |img| && b < |img| && a != b
    && IsUsed(img[a]) && img[a][0] == LAST_COUNT
    && forall q :: 0 <= q < |img| && q != a ==> Retired(img[q], LAST_COUNT)
  }

  /** Start-up finds the empty store, however far page `b` has been erased. */
  lemma {:induction false} SpentStays(img: Image, a: nat, b: nat, ops: seq<Op>, k: nat)
    requires SpentBefore(img, a, b) && LegalRun(img, ops) && k <= |ops|
    requires forall i :: 0 <= i < |ops| ==> ops[i].page == b && (ops[i].Program? ==> ops[i].value == ERASED)
    requires img[b][0] == ERASED || (ops != [] && ops[0] == EraseBlock(b, 0))
    ensures LegalRun(img, ops[..k]) && Meaning(Run(img, ops[..k])) == Some(map[])
    decreases k
  {
    hide Meaning;
    if k == 0 {
      assert ops[..0] == [] && Run(img, []) == img;
      InitAfterLastCount(img, a);
    } else {
      var img' := Apply(img, ops[0]);
      assert img'[b][0] == ERASED;
      assert forall q :: 0 <= q < |img| && q != b ==> img'[q] == img[q];
      assert ops[..k][0] == ops[0] && ops[..k][1..] == ops[1..][..k - 1];
      SpentStays(img', a, b, ops[1..], k - 1);
    }
  }

  /** At the last counter, too, every cut leaves the old store or the empty one. */
  lemma ClearAtLastCount(img: Image, ram: Ram, k: nat)
    requires Ready(img, ram) && img[ram.active][0] == LAST_COUNT
    requires RamFits(img, ram) && LegalRun(img, ClearOps(img, ram)) && k <= |ClearOps(img, ram)|
    ensures LegalRun(img, ClearOps(img, ram)[..k])
    ensures var m := Meaning(Run(img, ClearOps(img, ram)[..k])); m == Some(Seen(img, ram)) || m == Some(map[])
  {
    hide Meaning, SpentBefore, EraseOps, Ready, Seen;
    var ops := ClearOps(img, ram);
    if k == 0 {
      ReadyMeaning(img, ram);
      assert ops[..0] == [] && Run(img, []) == img;
    } else {
      var a, b := ram.active, Succ(img, ram.active);
      MarkSpends(img, ram);
      EraseOpsOnPage(b, 0, Blocks(img));
      var erase, open := EraseOps(b, 0, Blocks(img)), [Op.Program(b, 0, ERASED)];
      assert forall i :: 0 <= i < |erase| ==> erase[i] in erase;
      assert ops[0] == Op.Program(a, 1, USED_MARK) && ops[1..] == erase + open;
      assert ops[..k][0] == ops[0] && ops[..k][1..] == ops[1..][..k - 1];
      SpentStays(Apply(img, ops[0]), a, b, ops[1..], k - 1);
    }
  }

  lemma MarkSpends(img: Image, ram: Ram)
    requires Ready(img, ram) && img[ram.active][0] == LAST_COUNT
    ensures RamFits(img, ram)
    ensures var a, b := ram.active, Succ(img, ram.active);
      && SpentBefore(Apply(img, Op.Program(a, 1, USED_MARK)), a, b)
      && EraseOps(b, 0, Blocks(img))[0] == EraseBlock(b, 0)
  {
    MarkShape(img, ram);
  }

  /** A clear survives a power failure at every point if and only if the counter of the active page
      is at least 1. */
  lemma ClearCrashAtomicIff(img: Image, ram: Ram)
    requires Ready(img, ram)
    ensures RamFits(img, ram) && LegalRun(img, ClearOps(img, ram))
    ensures ClearSurvivesEveryCut(img, ram) <==> 1 <= img[ram.active][0]
  {
    ReadyMeaning(img, ram);
    ClearCompletes(img, ram);
    var ops := ClearOps(img, ram);
    if img[ram.active][0] == LAST_COUNT {
      forall k: nat | k <= |ops|
        ensures (RunPrefix(img, ops, k);
          Meaning(Run(img, ops[..k])) == Some(Seen(img, ram)) || Meaning(Run(img, ops[..k])) == Some(map[]))
      {
        ClearAtLastCount(img, ram, k);
      }
    } else if 1 <= img[ram.active][0] {
      ClearIsCrashAtomic(img, ram);
      forall k: nat | k <= |ops|
        ensures (RunPrefix(img, ops, k);
          Meaning(Run(img, ops[..k])) == Some(Seen(img, ram)) || Meaning(Run(img, ops[..k])) == Some(map[]))
      {
        CoversEveryCut(img, ops, Seen(img, ram), map[], k);
      }
    } else {
      ClearAtZeroIsLost(img, ram);
      assert 2 <= |ops|;
    }
  }

  // ---- start-up ----

  lemma InitFreshCovers(img: Image)
    requires Fresh(img)
    ensures var ops := OpenPageOps(img, 0, 0);
      && LegalRun(img, ops) && Ready(Run(img, ops), Ram(0, 2))
      && Seen(Run(img, ops), Ram(0, 2)) == map[]
      && Covers(img, ops, map[], map[])
  {
    hide Covers, LogShape;
    InitFresh(img);
    OtherPageStep(img, 1, EraseBlock(0, 0));
    OpenedIsEmpty(Words(img), 0);
    var img' := Opened(img, 0, 0);
    assert Normal(img', 0) by {
      assert forall q :: 0 <= q < |img| && q != 0 ==> img'[q] == img[q];
    }
    OpenCovers(img, 1, 0, map[], 0);
  }

  lemma InitClearedCovers(img: Image, a: nat)
    requires Cleared(img, a)
    ensures var ops := OpenPageOps(img, Succ(img, a), img[a][0] + 1);
      && LegalRun(img, ops) && Ready(Run(img, ops), Ram(Succ(img, a), 2))
      && Seen(Run(img, ops), Ram(Succ(img, a), 2)) == map[]
      && Covers(img, ops, map[], map[])
  {
    hide Covers, LogShape;
    InitCleared(img, a);
    OtherPageStep(img, a, EraseBlock(Succ(img, a), 0));
    OpenedAfter(img, a, Succ(img, a));
    OpenCovers(img, a, Succ(img, a), map[], img[a][0] + 1);
  }

  /** Start-up from any good image ends without an error and makes the driver ready; it keeps the
      store, also when it is itself cut short at any point. */
  lemma InitIsCrashAtomic(img: Image)
    requires Good(img)
    ensures Geometry(img) && Init(img).Booted?
    ensures LegalRun(img, Init(img).ops) && Ready(Run(img, Init(img).ops), Init(img).ram)
    ensures Meaning(img) == Some(Seen(Run(img, Init(img).ops), Init(img).ram))
    ensures Covers(img, Init(img).ops, Meaning(img).value, Meaning(img).value)
  {
    hide Meaning, Fresh, Cleared, Init;
    if Fresh(img) {
      InitFresh(img);
      InitFreshCovers(img);
    } else {
      var a: nat :| Normal(img, a) || TwoActive(img, a) || Cleared(img, a);
      if Cleared(img, a) {
        InitCleared(img, a);
        InitClearedCovers(img, a);
      } else {
        assert Run(img, []) == img;
        if Normal(img, a) { InitNormal(img, a); } else { InitTwoActive(img, a); }
      }
    }
  }

  /** At most two pages are active; of two, one is full and its successor carries the next counter;
      a used page before the page in service is in step with it, so start-up never has to repair a
      counter. */
  ghost predicate InShape(img: Image)
    requires Geometry(img)
  {
    && ActiveCount(img, |img|) <= 2
    && (ActiveCount(img, |img|) == 2 ==>
      var a := FirstActiveAndFull(img, 0);
      && a < |img| && NextFree(img[a], 2) == Words(img)
      && IsActive(img[Succ(img, a)]) && img[Succ(img, a)][0] == NextCount(img[a][0])
      && PredInStep(img, a))
    && (ActiveCount(img, |img|) == 1 ==>
      FirstActive(img, 0) < |img| && PredInStep(img, FirstActive(img, 0)))
  }

  /** The flash-shape invariant in the driver's own terms. */
  lemma ShapeOfGood(img: Image)
    requires Good(img)
    ensures Geometry(img) && InShape(img)
  {
    hide LogShape, Stored, InShape, Retired;
    if Fresh(img) {
      ShapeOfNone(img);
    } else {
      var a: nat :| Normal(img, a) || TwoActive(img, a) || Cleared(img, a);
      if Cleared(img, a) {
        ClearedIsInactive(img, a);
        ShapeOfNone(img);
      } else if Normal(img, a) {
        ShapeOfNormal(img, a);
      } else {
        ShapeOfTwo(img, a);
      }
    }
  }

  lemma ClearedIsInactive(img: Image, a: nat)
    requires Cleared(img, a)
    ensures forall q :: 0 <= q < |img| ==> !IsActive(img[q])
  {
  }

  lemma ShapeOfNone(img: Image)
    requires Geometry(img) && forall q :: 0 <= q < |img| ==> !IsActive(img[q])
    ensures InShape(img)
  {
    NoneActive(img, |img|);
  }

  lemma ShapeOfNormal(img: Image, a: nat)
    requires Normal(img, a)
    ensures InShape(img)
  {
    hide LogShape;
    CountOne(img, a, |img|);
  }

  lemma ShapeOfTwo(img: Image, a: nat)
    requires TwoActive(img, a)
    ensures InShape(img)
  {
    hide LogShape, Stored;
    CountTwo(img, a, Succ(img, a), |img|);
    InitTwoActive(img, a);
  }

  // ---- the last counter ----

  /** Start-up after a cut finds the store before the write or after it, wherever it was cut. */
  ghost predicate WriteSurvivesEveryCut(img: Image, ram: Ram, id: nat, data: nat)
    requires RamFits(img, ram) && id < NUM_IDS && data < 0x1_0000
    requires LegalRun(img, WriteOps(img, ram, id, data))
  {
    forall k: nat :: k <= |WriteOps(img, ram, id, data)| ==>
      (RunPrefix(img, WriteOps(img, ram, id, data), k);
       var m := Meaning(Run(img, WriteOps(img, ram, id, data)[..k]));
       m == Some(Seen(img, ram)) || m == Some(Seen(img, ram)[id := data]))
  }

  /** With no active page and page `a` the newest used one, start-up opens its successor. */
  lemma InitAfterLastCount(img: Image, a: nat)
    requires Geometry(img) && a < |img| && IsUsed(img[a]) && img[a][0] == LAST_COUNT
    requires forall q :: 0 <= q < |img| && q != a ==> Retired(img[q], img[a][0])
    ensures Meaning(img) == Some(map[])
  {
    NoneActive(img, |img|);
    UsedPositive(img, a, |img|);
    MruIs(img, a, |img|);
    OpenPage(img, Succ(img, a), NextCount(img[a][0]));
    EmptyView();
  }

  /** A swap away from the last counter loses the whole store: the new page's counter would read
      as erased. */
  lemma SwapAtLastCountIsLost(img: Image, ram: Ram, id: nat, data: nat)
    requires Ready(img, ram) && ram.next == Words(img) && img[ram.active][0] == LAST_COUNT
    requires id < NUM_IDS && data < 0x1_0000
    ensures LegalRun(img, WriteOps(img, ram, id, data))
    ensures Meaning(Run(img, WriteOps(img, ram, id, data))) == Some(map[])
  {
    hide Meaning, Good, Covers, Normal, TwoActive, Copied, Survivors, Seen;
    ReadyMeaning(img, ram);
    var a := ram.active;
    var b := Succ(img, a);
    var ws := Survivors(img[a]);
    SwapCopies(img, ram);
    var first := EraseOps(b, 0, Blocks(img)) + CopyOps(b, 2, ws);
    var mid := Run(img, first);
    assert mid[a] == img[a];
    SwitchAtLastCount(mid, a, ws, Entry(id, data));
    var tail := [Op.Program(b, 0, ERASED), Op.Program(a, 1, USED_MARK)];
    var op2 := Op.Program(b, 2 + |ws|, Entry(id, data));
    RunConcat(img, first, tail + [op2]);
    assert WriteOps(img, ram, id, data) == first + (tail + [op2]);
  }

  lemma SwitchAtLastCount(img: Image, a: nat, ws: seq<Word>, w: Word)
    requires Normal(img, a) && img[a][0] == LAST_COUNT && |ws| <= NUM_IDS
    requires img[Succ(img, a)] == Copied(Words(img), ws)
    ensures var b := Succ(img, a);
      var ops := [Op.Program(b, 0, ERASED), Op.Program(a, 1, USED_MARK)]
                 + [Op.Program(b, 2 + |ws|, w)];
      LegalRun(img, ops) && Meaning(Run(img, ops)) == Some(map[])
  {
    hide Meaning;
    var b := Succ(img, a);
    var op0, op1 := Op.Program(b, 0, ERASED), Op.Program(a, 1, USED_MARK);
    RunTwo(img, op0, op1);
    var late := Apply(Apply(img, op0), op1);
    assert late[b] == Copied(Words(img), ws);
    var op2 := Op.Program(b, 2 + |ws|, w);
    RunSnoc(img, [op0, op1], op2);
    var lost := Apply(late, op2);
    LostShape(img, late, lost, a, b);
    InitAfterLastCount(lost, a);
  }

  lemma LostShape(mid: Image, late: Image, lost: Image, a: nat, b: nat)
    requires Normal(mid, a) && b == Succ(mid, a)
    requires |late| == |mid| == |lost|
    requires forall q :: 0 <= q < |mid| && q != a && q != b ==> late[q] == mid[q] && lost[q] == mid[q]
    requires lost[a] == Put(mid[a], 1, USED_MARK)
    requires |lost[b]| == |mid[b]| && lost[b][0] == ERASED
    ensures Geometry(lost) && IsUsed(lost[a]) && lost[a][0] == mid[a][0]
    ensures forall q :: 0 <= q < |lost| && q != a ==> Retired(lost[q], lost[a][0])
  {
    forall q | 0 <= q < |lost| && q != a ensures Retired(lost[q], lost[a][0]) {
      if q != b { assert lost[q] == mid[q]; }
    }
  }

  /** A write survives a power failure at every point if and only if it does not have to swap away
      from a page with the last counter. */
  lemma WriteCrashAtomicIff(img: Image, ram: Ram, id: nat, data: nat)
    requires Ready(img, ram) && id < NUM_IDS && data < 0x1_0000
    requires img[ram.active][0] <= LAST_COUNT
    ensures RamFits(img, ram) && LegalRun(img, WriteOps(img, ram, id, data))
    ensures WriteSurvivesEveryCut(img, ram, id, data) <==> CanWrite(img, ram)
  {
    hide Meaning, Ready, WriteOps, Covers, Good;
    ReadyMeaning(img, ram);
    var ops := WriteOps(img, ram, id, data);
    var m, m' := Seen(img, ram), Seen(img, ram)[id := data];
    if CanWrite(img, ram) {
      WriteIsCrashAtomic(img, ram, id, data);
      forall k: nat | k <= |ops|
        ensures (RunPrefix(img, ops, k);
          Meaning(Run(img, ops[..k])) == Some(m) || Meaning(Run(img, ops[..k])) == Some(m'))
      {
        CoversEveryCut(img, ops, m, m', k);
      }
    } else {
      SwapAtLastCountIsLost(img, ram, id, data);
      assert ops[..|ops|] == ops;
      FullIsNotEmpty(img, ram);
      assert id in m';
    }
  }

  lemma FullIsNotEmpty(img: Image, ram: Ram)
    requires Ready(img, ram) && ram.next == Words(img)
    ensures Seen(img, ram) != map[]
  {
    ReadyFull(img, ram);
    var es := img[ram.active][2..Words(img)];
    var e := es[|es| - 1];
    assert ValidEntry(e);
    assert LastWith(es, Id(e)).Some?;
    assert Id(e) in View(es);
  }
}
