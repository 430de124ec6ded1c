/** The on-chip flash that holds the emulated EEPROM: pages of 32-bit words and two primitive
    steps.  A word can be programmed once after it has been erased, and erasing clears a block of
    1 KB.  Every step is atomic; power may fail between any two of them. */
module Flash {

  type Word = w: int | 0 <= w < 0x1_0000_0000 witness 0

  // The value an erased word reads as.
  const ERASED: Word := 0xFFFF_FFFF

  // FLASH_ERASE_SIZE is 1 KB: 256 words.
  const BLOCK_WORDS := 256

  type Page = seq<Word>
  type Image = seq<Page>

  datatype Op =
    | Program(page: nat, index: nat, value: Word)
    | EraseBlock(page: nat, block: nat)

  /** What the hardware demands of a step: the address exists and a programmed word is erased. */
  predicate Legal(img: Image, op: Op) {
    match op
    case Program(p, i, _) => p < |img| && i < |img[p]| && img[p][i] == ERASED
    case EraseBlock(p, b) => p < |img| && (b + 1) * BLOCK_WORDS <= |img[p]|
  }

  function Blank(n: nat): (p: Page)
    ensures |p| == n && forall i :: 0 <= i < n ==> p[i] == ERASED
  {
    seq(n, _ => ERASED)
  }

  function Put(pg: Page, i: nat, v: Word): Page
    requires i < |pg|
  {
    pg[i := v]
  }

  function Wipe(pg: Page, b: nat): Page
    requires (b + 1) * BLOCK_WORDS <= |pg|
  {
    pg[..b * BLOCK_WORDS] + Blank(BLOCK_WORDS) + pg[(b + 1) * BLOCK_WORDS..]
  }

  function Apply(img: Image, op: Op): (r: Image)
    requires Legal(img, op)
    ensures |r| == |img| && forall q :: 0 <= q < |img| ==> |r[q]| == |img[q]|
    ensures forall q :: 0 <= q < |img| && q != op.page ==> r[q] == img[q]
  {
    match op
    case Program(p, i, v) => img[p := Put(img[p], i, v)]
    case EraseBlock(p, b) => img[p := Wipe(img[p], b)]
  }

  /** All steps are legal when they are carried out one after the other. */
  predicate LegalRun(img: Image, ops: seq<Op>)
    decreases |ops|
  {
    ops == [] || (Legal(img, ops[0]) && LegalRun(Apply(img, ops[0]), ops[1..]))
  }

  function Run(img: Image, ops: seq<Op>): (r: Image)
    requires LegalRun(img, ops)
    ensures |r| == |img| && forall q :: 0 <= q < |img| ==> |r[q]| == |img[q]|
    decreases |ops|
  {
    if ops == [] then img else Run(Apply(img, ops[0]), ops[1..])
  }

  lemma {:induction false} RunConcat(img: Image, a: seq<Op>, b: seq<Op>)
    requires LegalRun(img, a) && LegalRun(Run(img, a), b)
    ensures LegalRun(img, a + b) && Run(img, a + b) == Run(Run(img, a), b)
    decreases |a|
  {
    if a == [] {
      assert a + b == b;
    } else {
      assert (a + b)[1..] == a[1..] + b && (a + b)[0] == a[0];
      RunConcat(Apply(img, a[0]), a[1..], b);
    }
  }

  lemma {:induction false} RunPrefix(img: Image, ops: seq<Op>, k: nat)
    requires LegalRun(img, ops) && k <= |ops|
    ensures LegalRun(img, ops[..k]) && LegalRun(Run(img, ops[..k]), ops[k..])
    ensures Run(Run(img, ops[..k]), ops[k..]) == Run(img, ops)
    decreases |ops|
  {
    if k == 0 {
      assert ops[..0] == [] && ops[0..] == ops;
    } else {
      assert ops[..k][1..] == ops[1..][..k - 1] && ops[..k][0] == ops[0];
      assert ops[k..] == ops[1..][k - 1..];
      RunPrefix(Apply(img, ops[0]), ops[1..], k - 1);
    }
  }

  lemma {:induction false} RunSnoc(img: Image, ops: seq<Op>, op: Op)
    requires LegalRun(img, ops) && Legal(Run(img, ops), op)
    ensures LegalRun(img, ops + [op]) && Run(img, ops + [op]) == Apply(Run(img, ops), op)
  {
    var next := Apply(Run(img, ops), op);
    assert [op][1..] == [] && Run(next, []) == next;
    RunConcat(img, ops, [op]);
  }

  lemma RunTwo(img: Image, op0: Op, op1: Op)
    requires Legal(img, op0) && Legal(Apply(img, op0), op1)
    ensures LegalRun(img, [op0, op1]) && Run(img, [op0, op1]) == Apply(Apply(img, op0), op1)
  {
    var two := Apply(img, op0);
    var done := Apply(two, op1);
    assert [op0, op1][1..] == [op1] && [op1][1..] == [];
    assert LegalRun(done, []) && Run(done, []) == done;
    assert LegalRun(two, [op1]) && Run(two, [op1]) == done;
  }

  /** The device.  `log` records every step taken, so a contract can say which images existed
      between two steps. */
  class Device {
    var image: Image
    ghost var log: seq<Op>

    constructor (start: Image)
      ensures image == start && log == []
    {
      image := start;
      log := [];
    }

    method Program(p: nat, i: nat, v: Word)
      requires Legal(image, Op.Program(p, i, v))
      modifies this
      ensures image == Apply(old(image), Op.Program(p, i, v))
      ensures log == old(log) + [Op.Program(p, i, v)]
    {
      image := image[p := Put(image[p], i, v)];
      log := log + [Op.Program(p, i, v)];
    }

    method Erase(p: nat, b: nat)
      requires Legal(image, EraseBlock(p, b))
      modifies this
      ensures image == Apply(old(image), EraseBlock(p, b))
      ensures log == old(log) + [EraseBlock(p, b)]
    {
      image := image[p := Wipe(image[p], b)];
      log := log + [EraseBlock(p, b)];
    }
  }
}
