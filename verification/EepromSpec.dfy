/** The emulated EEPROM as functions of the flash image: what the start-up scan finds, and which
    flash steps each operation takes.  The driver in EepromDriver is proved to take exactly these
    steps; EepromSafety proves what they mean. */
module EepromSpec {
  import opened Wrappers
  import opened Flash
  import opened EepromLog

  /** At least two pages of equal size, a multiple of 1 KB, holding more than 255 entries beside
      the two status words (a 1 KB page holds 254).  The code counts pages in an unsigned char: a
      region of 255 such pages would be larger than the flash. */
  predicate Geometry(img: Image) {
    && 2 <= |img| < 0x100
    && |img[0]| % BLOCK_WORDS == 0 && NUM_IDS + 2 < |img[0]|
    && forall q :: 0 <= q < |img| ==> |img[q]| == |img[0]|
  }

  function Words(img: Image): nat
    requires Geometry(img)
  {
    |img[0]|
  }

  function Succ(img: Image, p: nat): (q: nat)
    requires Geometry(img) && p < |img|
    ensures q < |img| && q != p
  {
    if p + 1 < |img| then p + 1 else 0
  }

  function Pred(img: Image, p: nat): (q: nat)
    requires Geometry(img) && p < |img|
    ensures q < |img| && q != p && Succ(img, q) == p
  {
    if p == 0 then |img| - 1 else p - 1
  }

  predicate IsActive(pg: Page)
    requires 2 <= |pg|
  {
    pg[0] != ERASED && pg[1] == ERASED
  }

  predicate IsUsed(pg: Page)
    requires 2 <= |pg|
  {
    pg[0] != ERASED && pg[1] != ERASED
  }

  /** Number of active pages among the first `k`. */
  function ActiveCount(img: Image, k: nat): (n: nat)
    requires Geometry(img) && k <= |img|
    ensures n <= k
  {
    if k == 0 then 0 else ActiveCount(img, k - 1) + if IsActive(img[k - 1]) then 1 else 0
  }

  function UsedCount(img: Image, k: nat): (n: nat)
    requires Geometry(img) && k <= |img|
    ensures n <= k
  {
    if k == 0 then 0 else UsedCount(img, k - 1) + if IsUsed(img[k - 1]) then 1 else 0
  }

  lemma NoneActive(img: Image, k: nat)
    requires Geometry(img) && k <= |img|
    requires forall j :: 0 <= j < k ==> !IsActive(img[j])
    ensures ActiveCount(img, k) == 0
  {
  }

  /** First entry from `i` on that is still erased, or the end of the page. */
  function NextFree(pg: Page, i: nat): (k: nat)
    requires i <= |pg|
    ensures i <= k <= |pg| && (k < |pg| ==> pg[k] == ERASED)
    ensures forall j :: i <= j < k ==> pg[j] != ERASED
    decreases |pg| - i
  {
    if i == |pg| || pg[i] == ERASED then i else NextFree(pg, i + 1)
  }

  /** The used page with the highest counter among the first `k`; the search starts at counter 0
      and needs a strictly higher one, so a page with counter 0 is never found. */
  function MostRecentlyUsed(img: Image, k: nat): (r: Option<nat>)
    requires Geometry(img) && k <= |img|
    ensures r.Some? ==> r.value < k && IsUsed(img[r.value])
  {
    if k == 0 then None
    else
      var r := MostRecentlyUsed(img, k - 1);
      var best := if r.Some? then img[r.value][0] else 0;
      if IsUsed(img[k - 1]) && img[k - 1][0] > best then Some(k - 1) else r
  }

  function FirstActive(img: Image, p: nat): (q: nat)
    requires Geometry(img) && p <= |img|
    ensures p <= q <= |img| && (q < |img| ==> IsActive(img[q]))
    ensures forall j :: p <= j < q ==> !IsActive(img[j])
    decreases |img| - p
  {
    if p == |img| || IsActive(img[p]) then p else FirstActive(img, p + 1)
  }

  lemma ActiveExists(img: Image)
    requires Geometry(img) && ActiveCount(img, |img|) > 0
    ensures FirstActive(img, 0) < |img|
  {
    if FirstActive(img, 0) == |img| { NoneActive(img, |img|); }
  }

  predicate IsActiveAndFull(pg: Page)
    requires 2 <= |pg|
  {
    IsActive(pg) && pg[|pg| - 1] != ERASED
  }

  function FirstActiveAndFull(img: Image, p: nat): (q: nat)
    requires Geometry(img) && p <= |img|
    ensures p <= q <= |img| && (q < |img| ==> IsActiveAndFull(img[q]))
    ensures forall j :: p <= j < q ==> !IsActiveAndFull(img[j])
    decreases |img| - p
  {
    if p == |img| || IsActiveAndFull(img[p]) then p else FirstActiveAndFull(img, p + 1)
  }

  // ---- flash steps of the operations ----

  /** Erase the blocks of page `p` from block `b` on. */
  function EraseOps(p: nat, b: nat, blocks: nat): (ops: seq<Op>)
    ensures |ops| == if b < blocks then blocks - b else 0
    decreases blocks - b
  {
    if b >= blocks then [] else [EraseBlock(p, b)] + EraseOps(p, b + 1, blocks)
  }

  /** Program consecutive words from index `i` on. */
  function CopyOps(p: nat, i: nat, ws: seq<Word>): (ops: seq<Op>)
    ensures |ops| == |ws|
    decreases |ws|
  {
    if ws == [] then [] else [Op.Program(p, i, ws[0])] + CopyOps(p, i + 1, ws[1..])
  }

  /** The counter of the next page: a 32-bit addition. */
  function NextCount(c: Word): Word {
    if c == 0xFFFF_FFFF then 0 else c + 1
  }

  function PrevCount(c: Word): Word {
    if c == 0 then 0xFFFF_FFFF else c - 1
  }

  // The value that marks a page as used: ~ERASED_WORD.
  const USED_MARK: Word := 0

  function Blocks(img: Image): nat
    requires Geometry(img)
  {
    Words(img) / BLOCK_WORDS
  }

  /** Erase page `q` and give it a counter. */
  function OpenPageOps(img: Image, q: nat, count: Word): seq<Op>
    requires Geometry(img)
  {
    EraseOps(q, 0, Blocks(img)) + [Op.Program(q, 0, count)]
  }

  function Survivors(pg: Page): seq<Word>
    requires 2 <= |pg|
  {
    Compact(pg[2..], {})
  }

  /** A page swap: erase the next page, copy the newest entries, open it, mark the full page. */
  function SwapOps(img: Image, a: nat): seq<Op>
    requires Geometry(img) && a < |img|
  {
    var b := Succ(img, a);
    EraseOps(b, 0, Blocks(img)) + CopyOps(b, 2, Survivors(img[a])) +
    [Op.Program(b, 0, NextCount(img[a][0])), Op.Program(a, 1, USED_MARK)]
  }

  /** What the driver keeps in RAM: the active page and the index of its next free word. */
  datatype Ram = Ram(active: nat, next: nat)

  predicate RamFits(img: Image, ram: Ram) {
    Geometry(img) && ram.active < |img| && 2 <= ram.next <= Words(img)
  }

  function WriteOps(img: Image, ram: Ram, id: nat, data: nat): seq<Op>
    requires RamFits(img, ram) && id < NUM_IDS && data < 0x1_0000
  {
    if ram.next < Words(img) then [Op.Program(ram.active, ram.next, Entry(id, data))]
    else
      SwapOps(img, ram.active) +
      [Op.Program(Succ(img, ram.active), 2 + |Survivors(img[ram.active])|, Entry(id, data))]
  }

  function WriteRam(img: Image, ram: Ram): Ram
    requires RamFits(img, ram)
  {
    if ram.next < Words(img) then Ram(ram.active, ram.next + 1)
    else Ram(Succ(img, ram.active), 2 + |Survivors(img[ram.active])| + 1)
  }

  function ClearOps(img: Image, ram: Ram): seq<Op>
    requires RamFits(img, ram)
  {
    [Op.Program(ram.active, 1, USED_MARK)] +
    OpenPageOps(img, Succ(img, ram.active), NextCount(img[ram.active][0]))
  }

  function ClearRam(img: Image, ram: Ram): Ram
    requires RamFits(img, ram)
  {
    Ram(Succ(img, ram.active), 2)
  }

  // ---- start-up ----

  // Return codes, as softeeprom.h defines them.
  const ERR_NOT_INIT := 0x0001
  const ERR_ILLEGAL_ID := 0x0002
  const ERR_PG_ERASE := 0x0003
  const ERR_PG_WRITE := 0x0004
  const ERR_ACTIVE_PG_CNT := 0x0005
  const ERR_AVAIL_ENTRY := 0x0007
  const ERR_TWO_ACTIVE_NO_FULL := 0x0008

  /** How start-up ends.  `WildRead` is the case in which no most recently used page is found and
      the code reads a counter through the address 0xFFFFFFFF. */
  datatype InitPlan =
    | Booted(ops: seq<Op>, ram: Ram)
    | Failed(code: int)
    | WildRead

  function Init(img: Image): InitPlan
    requires Geometry(img)
  {
    var n := ActiveCount(img, |img|);
    if n == 0 then
      if UsedCount(img, |img|) == 0 then
        Booted(OpenPageOps(img, 0, 0), Ram(0, 2))
      else
        match MostRecentlyUsed(img, |img|)
        case None => WildRead
        case Some(u) =>
          Booted(OpenPageOps(img, Succ(img, u), NextCount(img[u][0])), Ram(Succ(img, u), 2))
    else if n == 1 then
      var a := FirstActive(img, 0);
      ActiveExists(img);
      var u := Pred(img, a);
      if IsUsed(img[u]) && img[u][0] != PrevCount(img[a][0]) then
        Booted(OpenPageOps(img, a, NextCount(img[u][0])), Ram(a, 2))
      else
        Booted([], Ram(a, NextFree(img[a], 2)))
    else if n == 2 then
      var a := FirstActiveAndFull(img, 0);
      if a == |img| then Failed(ERR_TWO_ACTIVE_NO_FULL)
      else Booted([], Ram(a, Words(img)))
    else
      Failed(ERR_ACTIVE_PG_CNT)
  }

  /** What a read of the running driver sees. */
  function Seen(img: Image, ram: Ram): Store
    requires RamFits(img, ram)
  {
    View(img[ram.active][2..ram.next])
  }

  /** What the driver sees once it has started up on this image: None if start-up fails. */
  ghost function Meaning(img: Image): Option<Store> {
    if !Geometry(img) then None
    else
      match Init(img)
      case Booted(ops, ram) =>
        if LegalRun(img, ops) && RamFits(Run(img, ops), ram)
        then Some(Seen(Run(img, ops), ram)) else None
      case _ => None
  }
}
