/** The driver as it runs: globals in RAM, loops over flash words, and a batching page swap. */
module EepromDriver {
  import opened Wrappers
  import opened Flash
  import opened EepromLog
  import opened EepromSpec
  import opened EepromShape
  import opened EepromSafety

  // ---- the bit vector of identifiers already copied ----

  const NUM_VECTOR_BYTES := 32

  function Mask(k: int): (m: bv8)
    requires 0 <= k < 8
  {
    if k == 0 then 1 else if k == 1 then 2 else if k == 2 then 4 else if k == 3 then 8
    else if k == 4 then 16 else if k == 5 then 32 else if k == 6 then 64 else 128
  }

  predicate BitSet(v: seq<bv8>, id: int)
    requires |v| == NUM_VECTOR_BYTES && 0 <= id < 256
  {
    v[id / 8] & Mask(id % 8) != 0
  }

  lemma OrMask(b: bv8, j: int, k: int)
    requires 0 <= j < 8 && 0 <= k < 8
    ensures (b | Mask(k)) & Mask(j) != 0 <==> (j == k || b & Mask(j) != 0)
  {
  }

  /** Setting one bit adds one identifier. */
  lemma SetBit(v: seq<bv8>, id: int)
    requires |v| == NUM_VECTOR_BYTES && 0 <= id < 256
    ensures var v' := v[id / 8 := v[id / 8] | Mask(id % 8)];
      forall x :: 0 <= x < 256 ==> (BitSet(v', x) <==> x == id || BitSet(v, x))
  {
    var v' := v[id / 8 := v[id / 8] | Mask(id % 8)];
    forall x | 0 <= x < 256 ensures BitSet(v', x) <==> x == id || BitSet(v, x) {
      if x / 8 == id / 8 {
        OrMask(v[id / 8], x % 8, id % 8);
      }
    }
  }

  predicate Marks(v: seq<bv8>, seen: set<int>) {
    && |v| == NUM_VECTOR_BYTES
    && (forall id :: id in seen ==> 0 <= id < 256)
    && forall id :: 0 <= id < 256 ==> (BitSet(v, id) <==> id in seen)
  }

  lemma MarksTest(v: seq<bv8>, seen: set<int>, id: int)
    requires Marks(v, seen) && 0 <= id < 256
    ensures |v| == NUM_VECTOR_BYTES && (v[id / 8] & Mask(id % 8) == 0 <==> id !in seen)
  {
    assert BitSet(v, id) <==> id in seen;
  }

  lemma MarksSet(v: seq<bv8>, seen: set<int>, id: int)
    requires Marks(v, seen) && 0 <= id < 256
    ensures |v| == NUM_VECTOR_BYTES && Marks(v[id / 8 := v[id / 8] | Mask(id % 8)], seen + {id})
  {
    SetBit(v, id);
  }

  /** Has the identifier been copied? */
  method IsMarked(v: array<bv8>, id: nat, ghost seen: set<int>) returns (b: bool)
    requires v.Length == NUM_VECTOR_BYTES && Marks(v[..], seen) && id < 256
    ensures b <==> id in seen
  {
    MarksTest(v[..], seen, id);
    b := v[id / 8] & Mask(id % 8) != 0;
  }

  method Mark(v: array<bv8>, id: nat, ghost seen: set<int>)
    requires v.Length == NUM_VECTOR_BYTES && Marks(v[..], seen) && id < 256
    modifies v
    ensures Marks(v[..], seen + {id})
  {
    ghost var was := v[..];
    MarksSet(was, seen, id);
    v[id / 8] := v[id / 8] | Mask(id % 8);
    assert v[..] == was[id / 8 := was[id / 8] | Mask(id % 8)];
  }

  /** What the copy loop has gathered, `got`, and what it will still gather make up the survivors. */
  ghost predicate Gathered(es: seq<Word>, left: nat, seen: set<int>, got: seq<Word>) {
    && left <= |es| && (forall id :: id in seen ==> 0 <= id < NUM_IDS)
    && got + Compact(es[..left], seen) == Compact(es, {})
  }

  lemma GatherStart(es: seq<Word>)
    ensures Gathered(es, |es|, {}, [])
  {
    assert es[..|es|] == es;
  }

  lemma GatherStep(es: seq<Word>, left: nat, seen: set<int>, got: seq<Word>)
    requires Gathered(es, left, seen, got) && left > 0
    ensures var e := es[left - 1];
      if Id(e) in seen || Id(e) == 0xFF then Gathered(es, left - 1, seen, got)
      else Gathered(es, left - 1, seen + {Id(e)}, got + [e]) && |got| < NUM_IDS
  {
    var e := es[left - 1];
    var rest := es[..left];
    assert rest[|rest| - 1] == e && rest[..|rest| - 1] == es[..left - 1];
    if !(Id(e) in seen || Id(e) == 0xFF) {
      CompactSize(es, {});
      assert got + ([e] + Compact(es[..left - 1], seen + {Id(e)}))
          == got + [e] + Compact(es[..left - 1], seen + {Id(e)});
    }
  }

  lemma GatherEnd(pg: Page, seen: set<int>, got: seq<Word>)
    requires 2 <= |pg| && Gathered(pg[2..], 0, seen, got)
    ensures got == Survivors(pg)
  {
    assert pg[2..][..0] == [];
  }

  lemma NothingMarked(v: seq<bv8>)
    requires |v| == NUM_VECTOR_BYTES && forall i :: 0 <= i < NUM_VECTOR_BYTES ==> v[i] == 0
    ensures Marks(v, {})
  {
  }

  /** The first `|ws|` entry words of the blank page `b` have been programmed, and nothing else. */
  ghost predicate CopiedSoFar(start: Image, b: nat, ws: seq<Word>, img: Image, log: seq<Op>, now: seq<Op>) {
    && b < |start| && 2 + |ws| <= |start[b]| && start[b] == Blank(|start[b]|)
    && img == start[b := Written(start[b], 2, ws)]
    && now == log + CopyOps(b, 2, ws)
  }

  lemma CopiedNone(start: Image, b: nat, log: seq<Op>)
    requires b < |start| && 2 <= |start[b]| && start[b] == Blank(|start[b]|)
    ensures CopiedSoFar(start, b, [], start, log, log)
  {
    assert Written(start[b], 2, []) == start[b];
    assert log + [] == log;
  }

  lemma WrittenNothing(pg: Page, i: nat)
    requires i <= |pg|
    ensures Written(pg, i, []) == pg
  {
  }

  lemma WrittenAt(pg: Page, i: nat, ws: seq<Word>, k: nat)
    requires i + |ws| <= |pg| && k < |ws|
    ensures |Written(pg, i, ws)| == |pg| && Written(pg, i, ws)[i + k] == ws[k]
  {
  }

  lemma WrittenSnoc(pg: Page, i: nat, ws: seq<Word>, w: Word)
    requires i + |ws| < |pg|
    ensures |Written(pg, i, ws)| == |pg| && Written(pg, i, ws)[i + |ws|] == pg[i + |ws|]
    ensures Put(Written(pg, i, ws), i + |ws|, w) == Written(pg, i, ws + [w])
  {
  }

  lemma StillBlank(pg: Page, ws: seq<Word>, more: seq<Word>)
    requires pg == Blank(|pg|) && 2 + |ws| + |more| <= |pg|
    ensures |Written(pg, 2, ws)| == |pg|
    ensures forall j :: 2 + |ws| <= j < 2 + |ws| + |more| ==> Written(pg, 2, ws)[j] == ERASED
    ensures Written(Written(pg, 2, ws), 2 + |ws|, more) == Written(pg, 2, ws + more)
  {
  }

  lemma CopiedMore(start: Image, b: nat, ws: seq<Word>, img: Image, log: seq<Op>, now: seq<Op>,
      more: seq<Word>)
    requires CopiedSoFar(start, b, ws, img, log, now) && 2 + |ws| + |more| <= |start[b]|
    ensures |img| == |start| && |img[b]| == |start[b]|
    ensures forall j :: 2 + |ws| <= j < 2 + |ws| + |more| ==> img[b][j] == ERASED
    ensures CopiedSoFar(start, b, ws + more, img[b := Written(img[b], 2 + |ws|, more)], log,
              now + CopyOps(b, 2 + |ws|, more))
  {
    hide Written, Blank, CopyOps;
    StillBlank(start[b], ws, more);
    CopyOpsConcat(b, 2, ws, more);
    assert log + CopyOps(b, 2, ws) + CopyOps(b, 2 + |ws|, more)
        == log + (CopyOps(b, 2, ws) + CopyOps(b, 2 + |ws|, more));
  }

  lemma {:induction false} CopyOpsConcat(p: nat, i: nat, a: seq<Word>, b: seq<Word>)
    ensures CopyOps(p, i, a + b) == CopyOps(p, i, a) + CopyOps(p, i + |a|, b)
    decreases |a|
  {
    if a == [] {
      assert a + b == b;
    } else {
      assert (a + b)[1..] == a[1..] + b;
      CopyOpsConcat(p, i + 1, a[1..], b);
    }
  }

  lemma {:induction false} EraseOpsSnoc(p: nat, b: nat, k: nat, n: nat)
    requires b <= k < n
    ensures EraseOps(p, b, k + 1) == EraseOps(p, b, k) + [EraseBlock(p, k)]
    decreases k - b
  {
    if b >= k {
    } else {
      EraseOpsSnoc(p, b + 1, k, n);
    }
  }

  lemma SurvivorsFit(full: Page)
    requires |full| > NUM_IDS + 2
    ensures 2 + |Survivors(full)| < |full|
  {
    CompactSize(full[2..], {});
  }

  lemma NoEntries(es: seq<Word>, id: int)
    ensures LastWith(es[..0], id) == None
  {
  }

  lemma LastWithStep(es: seq<Word>, k: nat, id: int)
    requires k < |es|
    ensures LastWith(es[..k + 1], id) == if Id(es[k]) == id then Some(es[k]) else LastWith(es[..k], id)
  {
    assert es[..k + 1][..k] == es[..k];
  }

  lemma EmptyRun(img: Image)
    ensures LegalRun(img, []) && Run(img, []) == img
  {
  }

  lemma ReadyPage(img: Image, ram: Ram)
    requires Ready(img, ram)
    ensures RamFits(img, ram) && IsActive(img[ram.active])
    ensures ram.next < Words(img) ==> img[ram.active][ram.next] == ERASED
  {
  }

  /** The page a swap builds. */
  function SwappedPage(img: Image, a: nat): Page
    requires Geometry(img) && a < |img|
  {
    SurvivorsFit(img[a]);
    Put(Copied(Words(img), Survivors(img[a])), 0, NextCount(img[a][0]))
  }

  /** The first slot behind the copied entries is erased. */
  lemma SlotIsErased(img: Image, a: nat)
    requires Geometry(img) && a < |img|
    ensures 2 + |Survivors(img[a])| < Words(img) == |SwappedPage(img, a)|
    ensures SwappedPage(img, a)[2 + |Survivors(img[a])|] == ERASED
  {
    SurvivorsFit(img[a]);
  }

  /** The steps of a swap: erase and copy, then the two status words. */
  lemma SwapSteps(img: Image, a: nat)
    requires Geometry(img) && a < |img| && IsActive(img[a])
    ensures 2 + |Survivors(img[a])| < Words(img)
    ensures var b := Succ(img, a);
      && var copied := img[b := Copied(Words(img), Survivors(img[a]))];
      && var op3, op4 := Op.Program(b, 0, NextCount(img[a][0])), Op.Program(a, 1, USED_MARK);
      && Legal(copied, op3) && Legal(Apply(copied, op3), op4)
      && SwapOps(img, a) == EraseOps(b, 0, Blocks(img)) + CopyOps(b, 2, Survivors(img[a])) + [op3, op4]
      && LegalRun(img, SwapOps(img, a))
      && Run(img, SwapOps(img, a)) == Apply(Apply(copied, op3), op4)
      && Apply(Apply(copied, op3), op4)[b] == SwappedPage(img, a)
  {
    hide Survivors;
    SurvivorsFit(img[a]);
    var b := Succ(img, a);
    var n, ws := Words(img), Survivors(img[a]);
    var ops1, ops2 := EraseOps(b, 0, Blocks(img)), CopyOps(b, 2, ws);
    ErasePage(img, b);
    var blank := img[b := Blank(n)];
    CopyRun(blank, b, 2, ws);
    WrittenIsCopied(n, ws);
    var copied := img[b := Copied(n, ws)];
    assert Run(blank, ops2) == copied;
    var op3, op4 := Op.Program(b, 0, NextCount(img[a][0])), Op.Program(a, 1, USED_MARK);
    RunTwo(copied, op3, op4);
    RunConcat(img, ops1, ops2);
    RunConcat(img, ops1 + ops2, [op3, op4]);
  }

  lemma LogOfSwap(log: seq<Op>, a: seq<Op>, b: seq<Op>, c: Op, d: Op)
    ensures log + a + b + [c] + [d] == log + (a + b + [c, d])
  {
  }

  lemma LogOfClear(log: seq<Op>, a: Op, b: seq<Op>, c: Op)
    ensures log + [a] + b + [c] == log + ([a] + (b + [c]))
  {
  }

  lemma CopiedIs(img0: Image, img1: Image, b: nat, ws: seq<Word>, img: Image, log: seq<Op>, now: seq<Op>)
    requires b < |img0| && img1 == img0[b := Blank(|img0[b]|)]
    requires CopiedSoFar(img1, b, ws, img, log, now)
    ensures 2 + |ws| <= |img0[b]| && img == img0[b := Copied(|img0[b]|, ws)]
    ensures now == log + CopyOps(b, 2, ws)
  {
    WrittenIsCopied(|img0[b]|, ws);
  }

  /** The steps of a clear, one by one. */
  lemma ClearSteps(img: Image, ram: Ram)
    requires Ready(img, ram)
    ensures RamFits(img, ram)
    ensures var b := Succ(img, ram.active);
      var op1, ops2 := Op.Program(ram.active, 1, USED_MARK), EraseOps(b, 0, Blocks(img));
      var op3 := Op.Program(b, 0, NextCount(img[ram.active][0]));
      && Legal(img, op1)
      && var marked := Apply(img, op1);
      && LegalRun(marked, ops2) && Legal(Run(marked, ops2), op3)
      && Run(marked, ops2)[ram.active][0] == img[ram.active][0]
      && ClearOps(img, ram) == [op1] + (ops2 + [op3])
      && LegalRun(img, ClearOps(img, ram))
      && Run(img, ClearOps(img, ram)) == Apply(Run(marked, ops2), op3)
    ensures
      && (Ready(Run(img, ClearOps(img, ram)), ClearRam(img, ram)) <==> img[ram.active][0] < LAST_COUNT)
      && Geometry(Run(img, ClearOps(img, ram)))
      && RamFits(Run(img, ClearOps(img, ram)), ClearRam(img, ram))
      && Seen(Run(img, ClearOps(img, ram)), ClearRam(img, ram)) == map[]
  {
    hide Ready, Seen, EraseOps;
    ReadyMeaning(img, ram);
    MarkShape(img, ram);
    var b := Succ(img, ram.active);
    var op1, ops2 := Op.Program(ram.active, 1, USED_MARK), EraseOps(b, 0, Blocks(img));
    var op3 := Op.Program(b, 0, NextCount(img[ram.active][0]));
    var marked := Apply(img, op1);
    ErasePage(marked, b);
    RunSnoc(marked, ops2, op3);
    EmptyRun(img);
    assert ([op1] + (ops2 + [op3]))[0] == op1 && ([op1] + (ops2 + [op3]))[1..] == ops2 + [op3];
    ClearCompletes(img, ram);
  }

  /** The steps of a write: a swap if the page is full, then one entry. */
  lemma WriteSteps(img: Image, ram: Ram, id: nat, data: nat)
    requires Ready(img, ram) && id < NUM_IDS && data < 0x1_0000
    ensures RamFits(img, ram) && IsActive(img[ram.active])
    ensures ram.next < Words(img) ==>
      && var op := Op.Program(ram.active, ram.next, Entry(id, data));
      && Legal(img, op) && WriteOps(img, ram, id, data) == [op]
      && LegalRun(img, [op]) && Run(img, [op]) == Apply(img, op)
    ensures ram.next == Words(img) && LegalRun(img, SwapOps(img, ram.active)) ==>
      && var swapped := Run(img, SwapOps(img, ram.active));
      && var b := Succ(img, ram.active);
      && var k := 2 + |Survivors(img[ram.active])|;
      && var op := Op.Program(b, k, Entry(id, data));
      && (swapped[b] == SwappedPage(img, ram.active) ==>
         && k < Words(img) && Legal(swapped, op)
         && WriteOps(img, ram, id, data) == SwapOps(img, ram.active) + [op]
         && LegalRun(img, WriteOps(img, ram, id, data))
         && Run(img, WriteOps(img, ram, id, data)) == Apply(swapped, op))
    ensures LegalRun(img, WriteOps(img, ram, id, data)) && CanWrite(img, ram) ==>
      && var img' := Run(img, WriteOps(img, ram, id, data));
      && Geometry(img') && Ready(img', WriteRam(img, ram)) && RamFits(img', WriteRam(img, ram))
      && Seen(img', WriteRam(img, ram)) == Seen(img, ram)[id := data]
  {
    ReadyMeaning(img, ram);
    ReadyPage(img, ram);
    WriteStepsAppend(img, ram, id, data);
    if ram.next == Words(img) && LegalRun(img, SwapOps(img, ram.active)) {
      WriteStepsSwap(img, ram, id, data);
    }
    hide Ready, Seen, Normal, TwoActive, WriteOps, Survivors, Copied, SwapOps;
    if CanWrite(img, ram) {
      WriteIsCrashAtomic(img, ram, id, data);
      ReadyMeaning(Run(img, WriteOps(img, ram, id, data)), WriteRam(img, ram));
    }
  }

  lemma WriteStepsAppend(img: Image, ram: Ram, id: nat, data: nat)
    requires RamFits(img, ram) && id < NUM_IDS && data < 0x1_0000
    requires ram.next < Words(img) ==> img[ram.active][ram.next] == ERASED
    ensures ram.next < Words(img) ==>
      && var op := Op.Program(ram.active, ram.next, Entry(id, data));
      && Legal(img, op) && WriteOps(img, ram, id, data) == [op]
      && LegalRun(img, [op]) && Run(img, [op]) == Apply(img, op)
  {
    EmptyRun(img);
    if ram.next < Words(img) {
      var op := Op.Program(ram.active, ram.next, Entry(id, data));
      RunSnoc(img, [], op);
      assert [] + [op] == [op];
    }
  }

  lemma WriteStepsSwap(img: Image, ram: Ram, id: nat, data: nat)
    requires RamFits(img, ram) && id < NUM_IDS && data < 0x1_0000 && ram.next == Words(img)
    requires LegalRun(img, SwapOps(img, ram.active))
    ensures
      && var swapped := Run(img, SwapOps(img, ram.active));
      && var b := Succ(img, ram.active);
      && var k := 2 + |Survivors(img[ram.active])|;
      && var op := Op.Program(b, k, Entry(id, data));
      && (swapped[b] == SwappedPage(img, ram.active) ==>
         && k < Words(img) && Legal(swapped, op)
         && WriteOps(img, ram, id, data) == SwapOps(img, ram.active) + [op]
         && LegalRun(img, WriteOps(img, ram, id, data))
         && Run(img, WriteOps(img, ram, id, data)) == Apply(swapped, op))
  {
    hide SwapOps, Survivors, SwappedPage;
    SlotIsErased(img, ram.active);
    var swap := SwapOps(img, ram.active);
    var swapped := Run(img, swap);
    var op := Op.Program(Succ(img, ram.active), 2 + |Survivors(img[ram.active])|, Entry(id, data));
    if swapped[op.page] == SwappedPage(img, ram.active) {
      RunSnoc(img, swap, op);
    }
  }

  lemma InitFromGood(img: Image)
    requires Geometry(img)
    ensures Good(img) ==>
      && Init(img).Booted? && LegalRun(img, Init(img).ops)
      && var img' := Run(img, Init(img).ops);
      && Geometry(img') && Ready(img', Init(img).ram) && RamFits(img', Init(img).ram)
      && Meaning(img) == Some(Seen(img', Init(img).ram))
  {
    hide Good, Meaning, Init, Ready, Seen;
    if Good(img) {
      InitIsCrashAtomic(img);
      ReadyMeaning(Run(img, Init(img).ops), Init(img).ram);
    }
  }

  class SoftEeprom {
    const flash: Device
    var initialized: bool
    var activePage: nat
    var nextAvail: nat

    ghost function TheRam(): Ram
      reads this
    {
      Ram(activePage, nextAvail)
    }

    /** The driver is usable: before start-up any region of the right geometry, afterwards RAM and
        flash agree. */
    ghost predicate Valid()
      reads this, flash
    {
      Geometry(flash.image) && (initialized ==> Ready(flash.image, TheRam()))
    }

    constructor (flash: Device)
      ensures this.flash == flash && !initialized
    {
      this.flash := flash;
      initialized := false;
      activePage, nextAvail := 0, 0;
    }

    method PageErase(p: nat) returns (r: int)
      requires Geometry(flash.image) && p < |flash.image|
      modifies flash
      ensures r == 0
      ensures var ops := EraseOps(p, 0, Blocks(old(flash.image)));
        && LegalRun(old(flash.image), ops) && flash.image == Run(old(flash.image), ops)
        && flash.log == old(flash.log) + ops
      ensures flash.image == old(flash.image)[p := Blank(Words(old(flash.image)))]
    {
      var blocks := |flash.image[p]| / BLOCK_WORDS;
      var b := 0;
      ghost var start := flash.image;
      assert Run(start, []) == start;
      while b < blocks
        invariant 0 <= b <= blocks == Blocks(start) && |flash.image| == |start|
        invariant p < |flash.image| && |flash.image[p]| == blocks * BLOCK_WORDS
        invariant LegalRun(start, EraseOps(p, 0, b)) && flash.image == Run(start, EraseOps(p, 0, b))
        invariant flash.log == old(flash.log) + EraseOps(p, 0, b)
      {
        flash.Erase(p, b);
        EraseOpsSnoc(p, 0, b, blocks);
        RunSnoc(start, EraseOps(p, 0, b), EraseBlock(p, b));
        b := b + 1;
      }
      ErasePage(start, p);
      if flash.image[p][0] != ERASED || flash.image[p][1] != ERASED {
        return -1;
      }
      return 0;
    }

    /** Programs the first `count` words of a buffer and reads them back. */
    method PageDataWrite(data: array<Word>, p: nat, i: nat, count: nat) returns (r: int)
      requires p < |flash.image| && i + count <= |flash.image[p]| && count <= data.Length
      requires forall j :: i <= j < i + count ==> flash.image[p][j] == ERASED
      modifies flash
      ensures r == 0
      ensures var ops := CopyOps(p, i, data[..count]);
        && LegalRun(old(flash.image), ops) && flash.image == Run(old(flash.image), ops)
        && flash.log == old(flash.log) + ops
      ensures flash.image == old(flash.image)[p := Written(old(flash.image)[p], i, data[..count])]
    {
      hide Run, LegalRun, Written;
      ghost var start := flash.image;
      WrittenNothing(start[p], i);
      assert data[..0] == [];
      var k := 0;
      while k < count
        invariant 0 <= k <= count
        invariant flash.image == start[p := Written(start[p], i, data[..k])]
        invariant flash.log == old(flash.log) + CopyOps(p, i, data[..k])
      {
        WrittenSnoc(start[p], i, data[..k], data[k]);
        flash.Program(p, i + k, data[k]);
        assert data[..k + 1] == data[..k] + [data[k]];
        CopyOpsConcat(p, i, data[..k], [data[k]]);
        assert [data[k]][1..] == [];
        assert CopyOps(p, i + k, [data[k]]) == [Op.Program(p, i + k, data[k])];
        k := k + 1;
      }
      CopyRun(start, p, i, data[..count]);
      assert flash.image == start[p := Written(start[p], i, data[..count])];
      k := 0;
      while k < count
        invariant 0 <= k <= count
        invariant flash.image == start[p := Written(start[p], i, data[..count])]
        invariant flash.log == old(flash.log) + CopyOps(p, i, data[..count])
      {
        WrittenAt(start[p], i, data[..count], k);
        if flash.image[p][i + k] != data[k] {
          return -1;
        }
        k := k + 1;
      }
      return 0;
    }

    /** Copies the newest entry of every identifier from page `a` to the blank page `b`, gathering
        words in a buffer that is written out when the flash write buffer would be full. */
    method CopySurvivors(a: nat, b: nat) returns (r: int, newEntry: nat)
      requires Geometry(flash.image) && a < |flash.image| && b < |flash.image| && a != b
      requires flash.image[b] == Blank(Words(flash.image))
      modifies flash
      ensures r == 0 && newEntry == 2 + |Survivors(old(flash.image)[a])|
      ensures CopiedSoFar(old(flash.image), b, Survivors(old(flash.image)[a]),
                flash.image, old(flash.log), flash.log)
    {
      hide CopiedSoFar, Gathered, Marks, Survivors, Mask, Blank;
      ghost var start := flash.image;
      ghost var es := start[a][2..];
      var idSwapped := new bv8[NUM_VECTOR_BYTES](_ => 0);
      var dataBuffer := new Word[32];
      var size := |flash.image[a]| - 2;
      // The first write takes 32 - (8 & 0x7F) bytes, later ones 32 words.
      var byteCount := 32 - 8;
      var inBuffer := 0;
      newEntry := 2;
      ghost var seen: set<int>, written: seq<Word> := {}, [];
      var cnt := 0;
      NothingMarked(idSwapped[..]);
      GatherStart(es);
      CopiedNone(start, b, flash.log);
      assert written + dataBuffer[..0] == [];
      while cnt < size
        invariant 0 <= cnt <= size == |es|
        invariant Marks(idSwapped[..], seen)
        invariant 0 <= inBuffer && 0 < byteCount && byteCount % 4 == 0
        invariant byteCount + 4 * inBuffer <= 128
        invariant |written| + inBuffer <= NUM_IDS
        invariant Gathered(es, size - cnt, seen, written + dataBuffer[..inBuffer])
        invariant newEntry == 2 + |written|
        invariant CopiedSoFar(start, b, written, flash.image, old(flash.log), flash.log)
        invariant |flash.image| == |start| && flash.image[a] == start[a]
      {
        var entry := flash.image[a][size + 1 - cnt];
        GatherStep(es, size - cnt, seen, written + dataBuffer[..inBuffer]);
        assert entry == es[size - cnt - 1];
        var id := entry / 0x100_0000;
        assert id == Id(entry);
        cnt := cnt + 1;
        var copied := IsMarked(idSwapped, id, seen);
        if !copied && id != 0xFF {
          dataBuffer[inBuffer] := entry;
          assert written + dataBuffer[..inBuffer + 1] == written + dataBuffer[..inBuffer] + [entry];
          inBuffer := inBuffer + 1;
          Mark(idSwapped, id, seen);
          seen := seen + {id};
          byteCount := byteCount - 4;
          if byteCount == 0 {
            r, newEntry := FlushBuffer(dataBuffer, b, newEntry, inBuffer, start, written, old(flash.log));
            written := written + dataBuffer[..inBuffer];
            byteCount := 32 * 4;
            inBuffer := 0;
            assert written + dataBuffer[..0] == written;
          }
        }
      }
      if inBuffer != 0 {
        r, newEntry := FlushBuffer(dataBuffer, b, newEntry, inBuffer, start, written, old(flash.log));
      } else {
        assert written + dataBuffer[..0] == written;
      }
      r := 0;
      GatherEnd(start[a], seen, written + dataBuffer[..inBuffer]);
    }

    /** Writes the gathered words out behind the words already written. */
    method FlushBuffer(dataBuffer: array<Word>, b: nat, newEntry: nat, inBuffer: nat,
        ghost start: Image, ghost written: seq<Word>, ghost log: seq<Op>)
      returns (r: int, newEntry': nat)
      requires CopiedSoFar(start, b, written, flash.image, log, flash.log)
      requires inBuffer <= dataBuffer.Length && newEntry == 2 + |written|
      requires newEntry + inBuffer <= |start[b]| && start[b] == Blank(|start[b]|)
      modifies flash
      ensures r == 0 && newEntry' == newEntry + inBuffer
      ensures |flash.image| == old(|flash.image|)
      ensures forall q :: 0 <= q < |flash.image| && q != b ==> flash.image[q] == old(flash.image)[q]
      ensures CopiedSoFar(start, b, written + dataBuffer[..inBuffer], flash.image, log, flash.log)
    {
      CopiedMore(start, b, written, flash.image, log, flash.log, dataBuffer[..inBuffer]);
      r := PageDataWrite(dataBuffer, b, newEntry, inBuffer);
      newEntry' := newEntry + inBuffer;
    }

    /** Programs one word. */
    method WriteWord(p: nat, i: nat, w: Word) returns (r: int)
      requires Legal(flash.image, Op.Program(p, i, w))
      modifies flash
      ensures r == 0
      ensures flash.image == Apply(old(flash.image), Op.Program(p, i, w))
      ensures flash.log == old(flash.log) + [Op.Program(p, i, w)]
    {
      var data := new Word[1][w];
      r := PageDataWrite(data, p, i, 1);
      assert data[..1] == [w];
      assert [w][1..] == [];
      assert CopyOps(p, i, [w]) == [Op.Program(p, i, w)];
      assert Written(old(flash.image)[p], i, [w]) == Put(old(flash.image)[p], i, w);
    }

    method PageSwap(a: nat) returns (r: int)
      requires Geometry(flash.image) && a < |flash.image| && IsActive(flash.image[a])
      modifies flash, this`activePage, this`nextAvail
      ensures r == 0
      ensures var ops := SwapOps(old(flash.image), a);
        && LegalRun(old(flash.image), ops) && flash.image == Run(old(flash.image), ops)
        && flash.log == old(flash.log) + ops
      ensures activePage == Succ(old(flash.image), a)
      ensures nextAvail == 2 + |Survivors(old(flash.image)[a])| < Words(old(flash.image))
      ensures flash.image[Succ(old(flash.image), a)] == SwappedPage(old(flash.image), a)
    {
      hide Run, LegalRun, CopyOps, EraseOps, SwapOps, Survivors, Copied, Blank, CopiedSoFar, SwappedPage, Put, Wipe;
      ghost var img0, log0 := flash.image, flash.log;
      ghost var ws := Survivors(img0[a]);
      SwapSteps(img0, a);
      var b := if a + 1 < |flash.image| then a + 1 else 0;
      r := PageErase(b);
      ghost var img1, ops1 := flash.image, EraseOps(b, 0, Blocks(img0));
      var newEntry;
      r, newEntry := CopySurvivors(a, b);
      CopiedIs(img0, img1, b, ws, flash.image, log0 + ops1, flash.log);
      var count := flash.image[a][0];
      var next: Word := if count == 0xFFFF_FFFF then 0 else count + 1;
      r := WriteWord(b, 0, next);
      r := WriteWord(a, 1, USED_MARK);
      ghost var op3, op4 := Op.Program(b, 0, next), Op.Program(a, 1, USED_MARK);
      ghost var ops2 := CopyOps(b, 2, ws);
      LogOfSwap(log0, ops1, ops2, op3, op4);
      activePage := b;
      nextAvail := newEntry;
      if !(nextAvail < |flash.image[b]|) {
        return 0x8000 + ERR_AVAIL_ENTRY;
      }
      return 0;
    }

    method SoftEEPROMWrite(id: nat, data: nat) returns (r: int)
      requires Valid() && data < 0x1_0000
      modifies flash, this`activePage, this`nextAvail
      ensures !initialized ==> r == ERR_NOT_INIT
      ensures initialized && id >= NUM_IDS ==> r == ERR_ILLEGAL_ID
      ensures !initialized || id >= NUM_IDS ==>
        flash.image == old(flash.image) && flash.log == old(flash.log) && TheRam() == old(TheRam())
      ensures initialized && id < NUM_IDS ==>
        && r == 0
        && RamFits(old(flash.image), old(TheRam()))
        && var ops := WriteOps(old(flash.image), old(TheRam()), id, data);
        && LegalRun(old(flash.image), ops) && flash.image == Run(old(flash.image), ops)
        && flash.log == old(flash.log) + ops
        && TheRam() == WriteRam(old(flash.image), old(TheRam()))
      ensures initialized && id < NUM_IDS && CanWrite(old(flash.image), old(TheRam())) ==>
        Valid() && Seen(flash.image, TheRam()) == Seen(old(flash.image), old(TheRam()))[id := data]
    {
      hide Run, LegalRun, Survivors, Copied, EraseOps, Ready, SwapOps, Seen, Put;
      if !initialized {
        return ERR_NOT_INIT;
      }
      if id >= NUM_IDS {
        return ERR_ILLEGAL_ID;
      }
      ghost var img0, ram0 := flash.image, TheRam();
      WriteSteps(img0, ram0, id, data);
      if nextAvail >= |flash.image[activePage]| {
        var code := PageSwap(activePage);
        if code != 0 {
          return code;
        }
      }
      var entry := id * 0x100_0000 + data;
      r := WriteWord(activePage, nextAvail, entry);
      nextAvail := nextAvail + 1;
      assert flash.log == old(flash.log) + WriteOps(img0, ram0, id, data);
    }

    method SoftEEPROMClear() returns (r: int)
      requires Valid()
      modifies flash, this`activePage, this`nextAvail
      ensures !initialized ==>
        && r == ERR_NOT_INIT && flash.image == old(flash.image)
        && flash.log == old(flash.log) && TheRam() == old(TheRam())
      ensures initialized ==>
        && r == 0
        && RamFits(old(flash.image), old(TheRam()))
        && var ops := ClearOps(old(flash.image), old(TheRam()));
        && LegalRun(old(flash.image), ops) && flash.image == Run(old(flash.image), ops)
        && flash.log == old(flash.log) + ops
        && TheRam() == ClearRam(old(flash.image), old(TheRam()))
      ensures initialized ==>
        && (Valid() <==> old(flash.image)[old(activePage)][0] < LAST_COUNT)
        && RamFits(flash.image, TheRam()) && Seen(flash.image, TheRam()) == map[]
    {
      hide Run, LegalRun, EraseOps, ClearOps, Ready, Seen, Wipe, Put, Blank;
      if !initialized {
        return ERR_NOT_INIT;
      }
      ghost var img0, ram0 := flash.image, TheRam();
      ClearSteps(img0, ram0);
      r := WriteWord(activePage, 1, USED_MARK);
      var b := if activePage + 1 < |flash.image| then activePage + 1 else 0;
      assert Blocks(flash.image) == Blocks(img0);
      r := PageErase(b);
      var count := flash.image[activePage][0];
      var next: Word := if count == 0xFFFF_FFFF then 0 else count + 1;
      r := WriteWord(b, 0, next);
      activePage := b;
      nextAvail := 2;
      ghost var op1, op3 := Op.Program(ram0.active, 1, USED_MARK), Op.Program(b, 0, next);
      ghost var ops2 := EraseOps(b, 0, Blocks(img0));
      LogOfClear(old(flash.log), op1, ops2, op3);
    }

    method SoftEEPROMRead(id: nat) returns (r: int, data: nat, found: bool)
      requires Valid()
      ensures !initialized ==> r == ERR_NOT_INIT
      ensures initialized && id >= NUM_IDS ==> r == ERR_ILLEGAL_ID
      ensures initialized && id < NUM_IDS ==>
        && r == 0 && RamFits(flash.image, TheRam())
        && (found <==> id in Seen(flash.image, TheRam()))
        && data == (if found then Seen(flash.image, TheRam())[id] else 0xFFFF)
    {
      hide Ready, Meaning, Good, LastWith;
      data, found := 0, false;
      if !initialized {
        return ERR_NOT_INIT, data, found;
      }
      if id > NUM_IDS - 1 {
        return ERR_ILLEGAL_ID, data, found;
      }
      ReadyMeaning(flash.image, TheRam());
      found := false;
      data := 0xFFFF;
      ghost var es := flash.image[activePage][2..nextAvail];
      var k := nextAvail - 1;
      assert es[..|es|] == es;
      NoEntries(es, id);
      while k >= 2
        invariant 1 <= k < nextAvail
        invariant !found && data == 0xFFFF
        invariant LastWith(es[..k - 1], id) == LastWith(es, id)
      {
        var w := flash.image[activePage][k];
        assert w == es[k - 2];
        LastWithStep(es, k - 2, id);
        if w / 0x100_0000 == id {
          data := w % 0x1_0000;
          found := true;
          break;
        }
        k := k - 1;
      }
      return 0, data, found;
    }

    // ---- start-up ----

    method GetActivePageCount() returns (n: nat)
      requires Geometry(flash.image)
      ensures n == ActiveCount(flash.image, |flash.image|)
    {
      n := 0;
      for p := 0 to |flash.image|
        invariant n == ActiveCount(flash.image, p)
      {
        if flash.image[p][0] != ERASED && flash.image[p][1] == ERASED {
          n := (n + 1) % 0x100;
        }
      }
    }

    method GetUsedPageCount() returns (n: nat)
      requires Geometry(flash.image)
      ensures n == UsedCount(flash.image, |flash.image|)
    {
      n := 0;
      for p := 0 to |flash.image|
        invariant n == UsedCount(flash.image, p)
      {
        if flash.image[p][0] != ERASED && flash.image[p][1] != ERASED {
          n := (n + 1) % 0x100;
        }
      }
    }

    method GetNextAvailEntry(p: nat) returns (k: nat)
      requires Geometry(flash.image) && p < |flash.image|
      ensures k == NextFree(flash.image[p], 2)
    {
      k := 2;
      while k < |flash.image[p]|
        invariant 2 <= k <= |flash.image[p]|
        invariant NextFree(flash.image[p], k) == NextFree(flash.image[p], 2)
      {
        if flash.image[p][k] == ERASED {
          break;
        }
        k := k + 1;
      }
    }

    /** The result is None where the source leaves the pointer at 0xFFFFFFFF. */
    method GetMostRecentlyUsedPage() returns (r: Option<nat>)
      requires Geometry(flash.image)
      ensures r == MostRecentlyUsed(flash.image, |flash.image|)
    {
      var best: Word := 0;
      r := None;
      for p := 0 to |flash.image|
        invariant r == MostRecentlyUsed(flash.image, p)
        invariant best == if r.Some? then flash.image[r.value][0] else 0
      {
        if flash.image[p][0] != ERASED && flash.image[p][1] != ERASED {
          if flash.image[p][0] > best {
            best := flash.image[p][0];
            r := Some(p);
          }
        }
      }
    }

    /** Erases a page, gives it a counter and makes it the active page. */
    method OpenActive(p: nat, count: Word)
      requires Geometry(flash.image) && p < |flash.image|
      modifies flash, this`activePage, this`nextAvail
      ensures var ops := OpenPageOps(old(flash.image), p, count);
        && LegalRun(old(flash.image), ops) && flash.image == Run(old(flash.image), ops)
        && flash.log == old(flash.log) + ops
      ensures TheRam() == Ram(p, 2)
    {
      hide Run, LegalRun, EraseOps;
      ghost var img0 := flash.image;
      var r := PageErase(p);
      ghost var ops := EraseOps(p, 0, Blocks(img0));
      RunSnoc(img0, ops, Op.Program(p, 0, count));
      r := WriteWord(p, 0, count);
      assert old(flash.log) + ops + [Op.Program(p, 0, count)]
          == old(flash.log) + (ops + [Op.Program(p, 0, count)]);
      activePage := p;
      nextAvail := 2;
    }

    method FindActive() returns (a: nat)
      requires Geometry(flash.image)
      ensures a == FirstActive(flash.image, 0)
    {
      a := 0;
      while a < |flash.image|
        invariant 0 <= a <= |flash.image| && FirstActive(flash.image, a) == FirstActive(flash.image, 0)
      {
        if flash.image[a][0] != ERASED && flash.image[a][1] == ERASED {
          break;
        }
        a := a + 1;
      }
    }

    method FindActiveAndFull() returns (fullFound: bool, a: nat)
      requires Geometry(flash.image)
      ensures a == FirstActiveAndFull(flash.image, 0) && (fullFound <==> a < |flash.image|)
    {
      a := 0;
      fullFound := false;
      while a < |flash.image|
        invariant 0 <= a <= |flash.image| && !fullFound
        invariant FirstActiveAndFull(flash.image, a) == FirstActiveAndFull(flash.image, 0)
      {
        if flash.image[a][0] != ERASED && flash.image[a][1] == ERASED {
          if flash.image[a][|flash.image[a]| - 1] != ERASED {
            fullFound := true;
            break;
          }
        }
        a := a + 1;
      }
    }

    /** Start-up with no active page: a fresh start, or a clear that was cut short. */
    method StartWithNone()
      requires Geometry(flash.image) && ActiveCount(flash.image, |flash.image|) == 0 && Init(flash.image).Booted?
      modifies flash, this`activePage, this`nextAvail
      ensures var plan := Init(old(flash.image));
        && plan.Booted? && TheRam() == plan.ram
        && LegalRun(old(flash.image), plan.ops) && flash.image == Run(old(flash.image), plan.ops)
        && flash.log == old(flash.log) + plan.ops
    {
      hide Run, LegalRun, OpenPageOps, ActiveCount, UsedCount, MostRecentlyUsed, FirstActive;
      var used := GetUsedPageCount();
      if used == 0 {
        OpenActive(0, 0);
      } else {
        var mru := GetMostRecentlyUsedPage();
        var u := mru.value;
        var c := flash.image[u][0];
        var b := if u + 1 < |flash.image| then u + 1 else 0;
        OpenActive(b, if c == 0xFFFF_FFFF then 0 else c + 1);
      }
    }

    /** Start-up with one active page, whose counter must be in step with a used page before it. */
    method StartWithOne()
      requires Geometry(flash.image) && ActiveCount(flash.image, |flash.image|) == 1
      modifies flash, this`activePage, this`nextAvail
      ensures var plan := Init(old(flash.image));
        && plan.Booted? && TheRam() == plan.ram
        && LegalRun(old(flash.image), plan.ops) && flash.image == Run(old(flash.image), plan.ops)
        && flash.log == old(flash.log) + plan.ops
    {
      hide Run, LegalRun, OpenPageOps, ActiveCount, UsedCount, MostRecentlyUsed, FirstActive, NextFree;
      EmptyRun(flash.image);
      var a := FindActive();
      ActiveExists(flash.image);
      var u := if a == 0 then |flash.image| - 1 else a - 1;
      var before: Word := if flash.image[a][0] == 0 then 0xFFFF_FFFF else flash.image[a][0] - 1;
      if flash.image[u][0] != ERASED && flash.image[u][1] != ERASED && flash.image[u][0] != before {
        var c := flash.image[u][0];
        OpenActive(a, if c == 0xFFFF_FFFF then 0 else c + 1);
      } else {
        activePage := a;
        nextAvail := GetNextAvailEntry(a);
        assert flash.log + [] == flash.log;
      }
    }

    /** Start-up.  The caller must not start from an image on which the search for the most recently
        used page fails; no good image is one (InitIsCrashAtomic). */
    method SoftEEPROMInit() returns (r: int)
      requires Geometry(flash.image) && !Init(flash.image).WildRead?
      modifies flash, this
      ensures match Init(old(flash.image))
        case Booted(ops, ram) =>
          && r == 0 && initialized && TheRam() == ram
          && LegalRun(old(flash.image), ops) && flash.image == Run(old(flash.image), ops)
          && flash.log == old(flash.log) + ops
        case Failed(code) =>
          r == code && flash.image == old(flash.image) && flash.log == old(flash.log)
        case WildRead => true
      ensures Good(old(flash.image)) ==>
        && r == 0 && initialized && Valid() && RamFits(flash.image, TheRam())
        && Meaning(old(flash.image)) == Some(Seen(flash.image, TheRam()))
    {
      hide Good, Meaning, Run, LegalRun, OpenPageOps, Ready, Seen,
        ActiveCount, UsedCount, MostRecentlyUsed, FirstActive, FirstActiveAndFull, NextFree;
      ghost var img0 := flash.image;
      InitFromGood(img0);
      EmptyRun(img0);
      var count := GetActivePageCount();
      if count == 0 {
        StartWithNone();
      } else if count == 1 {
        StartWithOne();
      } else if count == 2 {
        var fullFound, a := FindActiveAndFull();
        if fullFound {
          activePage := a;
          nextAvail := |flash.image[a]|;
          assert flash.log + [] == flash.log;
        } else {
          return ERR_TWO_ACTIVE_NO_FULL;
        }
      } else {
        return ERR_ACTIVE_PG_CNT;
      }
      initialized := true;
      return 0;
    }
  }
}
