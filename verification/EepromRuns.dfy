/** Whole lives of the device: any sequence of start-ups, writes, clears and power failures. */
module EepromRuns {
  import opened Wrappers
  import opened Flash
  import opened EepromLog
  import opened EepromSpec
  import opened EepromShape
  import opened EepromSafety

  /** `Off` is the device after a power failure, before start-up has run. */
  datatype Dev = Off(img: Image) | On(img: Image, ram: Ram)

  /** A call with `cut == Some(k)` loses power after `k` flash steps. */
  datatype Event =
    | PowerFails
    | StartUp(cut: Option<nat>)
    | Write(id: nat, data: nat, cut: Option<nat>)
    | Clear(cut: Option<nat>)

  ghost predicate Sound(dev: Dev) {
    match dev
    case Off(img) => Good(img)
    case On(img, ram) => Ready(img, ram)
  }

  ghost function Contents(dev: Dev): Store
    requires Sound(dev)
  {
    match dev
    case Off(img) => if Meaning(img).Some? then Meaning(img).value else map[]
    case On(img, ram) => ReadyMeaning(img, ram); Seen(img, ram)
  }

  predicate CutFits(cut: Option<nat>, ops: seq<Op>) {
    cut.Some? ==> cut.value <= |ops|
  }

  /** What a run may do: data is 16 bits wide, no operation needs a successor of the last counter,
      and a clear that loses power starts from a counter of at least 1 (see ClearCrashAtomicIff). */
  ghost predicate Allowed(dev: Dev, ev: Event)
    requires Sound(dev)
  {
    match ev
    case PowerFails => true
    case StartUp(cut) =>
      InitIsCrashAtomic(Image(dev));
      CutFits(cut, Init(dev.img).ops)
    case Write(id, data, cut) =>
      && data < 0x1_0000
      && (dev.On? && id < NUM_IDS ==>
           (ReadyMeaning(dev.img, dev.ram);
            && CanWrite(dev.img, dev.ram)
            && CutFits(cut, WriteOps(dev.img, dev.ram, id, data))))
    case Clear(cut) =>
      dev.On? ==>
        (ReadyMeaning(dev.img, dev.ram);
         && dev.img[dev.ram.active][0] < LAST_COUNT
         && (cut.Some? ==> 1 <= dev.img[dev.ram.active][0])
         && CutFits(cut, ClearOps(dev.img, dev.ram)))
  }

  /** Every sound device has a good image. */
  lemma SoundImage(dev: Dev)
    requires Sound(dev)
    ensures Good(dev.img) && Meaning(dev.img) == Some(Contents(dev))
  {
    if dev.On? { ReadyMeaning(dev.img, dev.ram); } else { InitIsCrashAtomic(dev.img); }
  }

  ghost function Image(dev: Dev): (img: Image)
    requires Sound(dev)
    ensures img == dev.img && Good(img)
  {
    SoundImage(dev);
    dev.img
  }

  /** Carry out the steps up to the cut; without a cut, all of them. */
  ghost function Played(img: Image, ops: seq<Op>, cut: Option<nat>, ram: Ram): Dev
    requires LegalRun(img, ops) && CutFits(cut, ops)
  {
    match cut
    case None => On(Run(img, ops), ram)
    case Some(k) => RunPrefix(img, ops, k); Off(Run(img, ops[..k]))
  }

  ghost function After(dev: Dev, ev: Event): Dev
    requires Sound(dev) && Allowed(dev, ev)
  {
    match ev
    case PowerFails => Off(dev.img)
    case StartUp(cut) =>
      InitIsCrashAtomic(Image(dev));
      Played(dev.img, Init(dev.img).ops, cut, Init(dev.img).ram)
    case Write(id, data, cut) =>
      if dev.Off? || id >= NUM_IDS then dev
      else
        ReadyMeaning(dev.img, dev.ram);
        WriteIsCrashAtomic(dev.img, dev.ram, id, data);
        Played(dev.img, WriteOps(dev.img, dev.ram, id, data), cut, WriteRam(dev.img, dev.ram))
    case Clear(cut) =>
      if dev.Off? then dev
      else
        ReadyMeaning(dev.img, dev.ram);
        ClearCompletes(dev.img, dev.ram);
        Played(dev.img, ClearOps(dev.img, dev.ram), cut, ClearRam(dev.img, dev.ram))
  }

  /** What an event is meant to do to the store. */
  function Effect(m: Store, ev: Event): Store {
    match ev
    case Write(id, data, _) => m[id := data]
    case Clear(_) => map[]
    case _ => m
  }

  /** The driver accepts the call: it has started up and the identifier is legal. */
  predicate Accepted(dev: Dev, ev: Event) {
    match ev
    case Write(id, _, _) => dev.On? && id < NUM_IDS
    case Clear(_) => dev.On?
    case _ => true
  }

  predicate Completes(ev: Event) {
    match ev
    case PowerFails => true
    case StartUp(cut) => cut.None?
    case Write(_, _, cut) => cut.None?
    case Clear(cut) => cut.None?
  }

  lemma PlayedIsSound(img: Image, ops: seq<Op>, cut: Option<nat>, ram: Ram, m0: Store, m1: Store)
    requires Covers(img, ops, m0, m1) && LegalRun(img, ops) && CutFits(cut, ops)
    requires Ready(Run(img, ops), ram) && RamFits(Run(img, ops), ram)
    requires Seen(Run(img, ops), ram) == m1
    ensures Sound(Played(img, ops, cut, ram))
    ensures var m := Contents(Played(img, ops, cut, ram));
      (m == m0 || m == m1) && (cut.None? ==> m == m1)
  {
    if cut.Some? {
      CoversEveryCut(img, ops, m0, m1, cut.value);
    }
  }

  /** One event: the device stays sound, and afterwards the store is the one before the event or
      the one the event was to bring about; a call that is accepted and completes has its effect,
      one that is refused has none. */
  lemma EventIsAtomic(dev: Dev, ev: Event)
    requires Sound(dev) && Allowed(dev, ev)
    ensures Sound(After(dev, ev))
    ensures var m, m' := Contents(dev), Contents(After(dev, ev));
      && (m' == m || m' == Effect(m, ev))
      && (Accepted(dev, ev) && Completes(ev) ==> m' == Effect(m, ev))
      && (!Accepted(dev, ev) ==> m' == m)
  {
    hide Good, Meaning, Covers, Ready, Init, Seen, WriteOps, ClearOps;
    SoundImage(dev);
    match ev
    case PowerFails =>
    case StartUp(cut) =>
      InitIsCrashAtomic(dev.img);
      var m := Contents(dev);
      ReadyMeaning(Run(dev.img, Init(dev.img).ops), Init(dev.img).ram);
      PlayedIsSound(dev.img, Init(dev.img).ops, cut, Init(dev.img).ram, m, m);
    case Write(id, data, cut) =>
      if dev.On? && id < NUM_IDS {
        ReadyMeaning(dev.img, dev.ram);
        WriteIsCrashAtomic(dev.img, dev.ram, id, data);
        var ops := WriteOps(dev.img, dev.ram, id, data);
        ReadyMeaning(Run(dev.img, ops), WriteRam(dev.img, dev.ram));
        PlayedIsSound(dev.img, ops, cut, WriteRam(dev.img, dev.ram),
          Seen(dev.img, dev.ram), Seen(dev.img, dev.ram)[id := data]);
      }
    case Clear(cut) =>
      if dev.On? {
        ReadyMeaning(dev.img, dev.ram);
        ClearCompletes(dev.img, dev.ram);
        var ops := ClearOps(dev.img, dev.ram);
        ReadyMeaning(Run(dev.img, ops), ClearRam(dev.img, dev.ram));
        if cut.Some? {
          ClearIsCrashAtomic(dev.img, dev.ram);
          PlayedIsSound(dev.img, ops, cut, ClearRam(dev.img, dev.ram), Seen(dev.img, dev.ram), map[]);
        }
      }
  }

  // ---- runs ----

  ghost predicate AllowedRun(dev: Dev, evs: seq<Event>)
    requires Sound(dev)
    decreases |evs|
  {
    evs == [] ||
    (Allowed(dev, evs[0]) && (EventIsAtomic(dev, evs[0]); AllowedRun(After(dev, evs[0]), evs[1..])))
  }

  ghost function AfterRun(dev: Dev, evs: seq<Event>): (dev': Dev)
    requires Sound(dev) && AllowedRun(dev, evs)
    ensures Sound(dev')
    decreases |evs|
  {
    if evs == [] then dev
    else EventIsAtomic(dev, evs[0]); AfterRun(After(dev, evs[0]), evs[1..])
  }

  /** The store if exactly the events marked `true` take effect, in order. */
  function Replay(m: Store, evs: seq<Event>, took: seq<bool>): Store
    requires |took| == |evs|
    decreases |evs|
  {
    if evs == [] then m
    else Replay(if took[0] then Effect(m, evs[0]) else m, evs[1..], took[1..])
  }

  /** Accepted calls that complete take effect, refused calls do not; a call that is cut short may
      do either. */
  ghost predicate Explains(dev: Dev, evs: seq<Event>, took: seq<bool>)
    requires Sound(dev) && AllowedRun(dev, evs)
    decreases |evs|
  {
    && |took| == |evs|
    && (evs != [] ==>
         && (Accepted(dev, evs[0]) && Completes(evs[0]) ==> took[0])
         && (!Accepted(dev, evs[0]) ==> !took[0])
         && (EventIsAtomic(dev, evs[0]); Explains(After(dev, evs[0]), evs[1..], took[1..])))
  }

  /** Over whole lives the device is a map in which the last write wins: its contents are those of
      the calls that took effect, replayed in order. */
  lemma {:induction false} RunIsAMap(dev: Dev, evs: seq<Event>) returns (took: seq<bool>)
    requires Sound(dev) && AllowedRun(dev, evs)
    ensures Explains(dev, evs, took)
    ensures Contents(AfterRun(dev, evs)) == Replay(Contents(dev), evs, took)
    decreases |evs|
  {
    hide Sound, Contents, Allowed, After, Effect;
    if evs == [] {
      took := [];
    } else {
      var ev := evs[0];
      EventIsAtomic(dev, ev);
      var rest := RunIsAMap(After(dev, ev), evs[1..]);
      var t := if Accepted(dev, ev) then
          Completes(ev) || Contents(After(dev, ev)) == Effect(Contents(dev), ev)
        else false;
      took := [t] + rest;
      assert took[1..] == rest;
    }
  }

  /** A blank region is a sound start with an empty store. */
  lemma BlankStart(img: Image)
    requires Fresh(img)
    ensures Sound(Off(img)) && Contents(Off(img)) == map[]
  {
    InitFresh(img);
  }
}
