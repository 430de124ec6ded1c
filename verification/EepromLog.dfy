/** What the entry words of a page mean: the newest entry of an identifier wins. */
module EepromLog {
  import opened Wrappers
  import opened Flash

  // Identifiers are 0 to 254; 0xFF marks an empty entry.
  const NUM_IDS := 255

  type Store = map<int, int>

  function Id(w: Word): (id: int)
    ensures 0 <= id < 256
  {
    w / 0x100_0000
  }

  function Data(w: Word): (d: int)
    ensures 0 <= d < 0x1_0000
  {
    w % 0x1_0000
  }

  function Entry(id: nat, data: nat): (w: Word)
    requires id < NUM_IDS && data < 0x1_0000
    ensures Id(w) == id && Data(w) == data && w != ERASED
  {
    id * 0x100_0000 + data
  }

  /** The last entry written for an identifier, if there is one. */
  function LastWith(es: seq<Word>, id: int): Option<Word> {
    if es == [] then None
    else if Id(es[|es| - 1]) == id then Some(es[|es| - 1])
    else LastWith(es[..|es| - 1], id)
  }

  /** The store a sequence of entries stands for. */
  function View(es: seq<Word>): (m: Store)
    ensures forall id :: id in m <==> 0 <= id < NUM_IDS && LastWith(es, id).Some?
    ensures forall id :: id in m ==> m[id] == Data(LastWith(es, id).value)
  {
    map id | 0 <= id < NUM_IDS && LastWith(es, id).Some? :: Data(LastWith(es, id).value)
  }

  lemma ViewAppend(es: seq<Word>, id: nat, data: nat)
    requires id < NUM_IDS && data < 0x1_0000
    ensures View(es + [Entry(id, data)]) == View(es)[id := data]
  {
    var es' := es + [Entry(id, data)];
    assert es'[..|es'| - 1] == es;
  }

  /** The entries that survive a page swap, in the order in which they are copied: scanning from
      the newest entry, the first one met for each identifier that has not been `seen`. */
  function Compact(es: seq<Word>, seen: set<int>): seq<Word> {
    if es == [] then []
    else
      var e := es[|es| - 1];
      var rest := es[..|es| - 1];
      if Id(e) in seen || Id(e) == 0xFF then Compact(rest, seen)
      else [e] + Compact(rest, seen + {Id(e)})
  }

  lemma {:induction false} LastWithCons(e: Word, es: seq<Word>, id: int)
    ensures LastWith([e] + es, id) ==
            if LastWith(es, id).Some? then LastWith(es, id)
            else if Id(e) == id then Some(e) else None
  {
    if es == [] {
      assert [e] + es == [e];
      assert [e][..0] == [];
    } else {
      var k := |es| - 1;
      assert ([e] + es)[..k + 1] == [e] + es[..k];
      LastWithCons(e, es[..k], id);
    }
  }

  /** Compaction keeps exactly the newest entry of every identifier not yet seen. */
  lemma {:induction false} CompactKeepsNewest(es: seq<Word>, seen: set<int>, id: int)
    ensures LastWith(Compact(es, seen), id) ==
            if id in seen || id == 0xFF then None else LastWith(es, id)
  {
    if es == [] {
    } else {
      var e := es[|es| - 1];
      var rest := es[..|es| - 1];
      if Id(e) in seen || Id(e) == 0xFF {
        CompactKeepsNewest(rest, seen, id);
      } else {
        CompactKeepsNewest(rest, seen + {Id(e)}, id);
        LastWithCons(e, Compact(rest, seen + {Id(e)}), id);
      }
    }
  }

  lemma CompactPreservesView(es: seq<Word>)
    ensures View(Compact(es, {})) == View(es)
  {
    forall id ensures LastWith(Compact(es, {}), id) == if id == 0xFF then None else LastWith(es, id) {
      CompactKeepsNewest(es, {}, id);
    }
  }

  /** A set of identifiers has at most 255 members. */
  lemma {:induction false} IdSetSize(s: set<int>, bound: nat)
    requires forall id :: id in s ==> 0 <= id < bound
    ensures |s| <= bound
  {
    if bound > 0 {
      var t := s - {bound - 1};
      IdSetSize(t, bound - 1);
      assert s <= t + {bound - 1};
      if bound - 1 in s {
        assert s == t + {bound - 1};
      } else {
        assert s == t;
      }
    } else {
      assert forall id :: id !in s;
    }
  }

  predicate ValidEntry(w: Word) {
    w != ERASED && Id(w) != 0xFF
  }

  /** Each identifier is copied at most once, so a compacted page holds at most 255 entries; and
      every copied word is an entry of the page. */
  lemma {:induction false} CompactSize(es: seq<Word>, seen: set<int>)
    requires forall id :: id in seen ==> 0 <= id < NUM_IDS
    ensures |Compact(es, seen)| + |seen| <= NUM_IDS
    ensures forall i :: 0 <= i < |Compact(es, seen)| ==>
      Compact(es, seen)[i] in es && ValidEntry(Compact(es, seen)[i]) && Id(Compact(es, seen)[i]) !in seen
    ensures forall i, j :: 0 <= i < j < |Compact(es, seen)| ==>
      Id(Compact(es, seen)[i]) != Id(Compact(es, seen)[j])
  {
    if es == [] {
      IdSetSize(seen, NUM_IDS);
    } else {
      var e := es[|es| - 1];
      var rest := es[..|es| - 1];
      assert forall w :: w in rest ==> w in es;
      if Id(e) in seen || Id(e) == 0xFF {
        CompactSize(rest, seen);
      } else {
        CompactSize(rest, seen + {Id(e)});
        assert e != ERASED;
      }
    }
  }
}
