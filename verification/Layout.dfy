/** The binary layout of the span file: a header and an array of marked spans; and the stores
    into it, seen both as bytes at addresses and as changes of slots. */
module Layout {
  import opened Bytes
  import opened Codec

  datatype MmapSize = Small | Medium | Large

  datatype Config = Config(maxSpans: nat, maxAttributes: nat) {
    predicate Valid() {
      0 < maxSpans < U64_MAX && 0 < maxAttributes < U64_MAX
    }
  }

  function ConfigOf(size: MmapSize): (cfg: Config)
    ensures cfg.Valid()
  {
    match size
    case Large => Config(2048, 128)
    case Medium => Config(1024, 64)
    case Small => Config(128, 16)
  }

  // ---- Header ----

  const HEADER_SIZE: nat := 32
  const SIGNATURE_AT: nat := 0
  const VERSION_AT: nat := 8
  const SIZE_AT: nat := 16
  const COUNT_AT: nat := 24

  // ---- Slots ----

  function SlotSize(cfg: Config): nat { WORD + RawSize(cfg.maxAttributes) }

  /** The address of slot `i`. */
  function SlotAt(cfg: Config, i: nat): nat { HEADER_SIZE + i * SlotSize(cfg) }

  function LayoutSize(cfg: Config): nat { SlotAt(cfg, cfg.maxSpans) }

  lemma MulStep(i: nat, j: nat, s: nat)
    requires i < j
    ensures 0 <= i * s && i * s + s <= j * s
  {
    var d := j - i - 1;
    assert j * s == (i + 1 + d) * s == i * s + s + d * s;
  }

  /** The header and the slots are pairwise disjoint, in order, and inside the layout. */
  lemma SlotsDisjoint(cfg: Config, i: nat, j: nat)
    requires i < j
    ensures HEADER_SIZE <= SlotAt(cfg, i)
    ensures SlotAt(cfg, i) + SlotSize(cfg) <= SlotAt(cfg, j)
  {
    hide SlotSize;
    MulStep(i, j, SlotSize(cfg));
  }

  /** The sizes of the three layouts. */
  lemma LayoutSizes()
    ensures LayoutSize(ConfigOf(Small)) == 409632
    ensures LayoutSize(ConfigOf(Medium)) == 12714016
    ensures LayoutSize(ConfigOf(Large)) == 50593824
  {
  }

  /** Every word and slot of the layout is word-aligned. */
  lemma SlotsAligned(cfg: Config, i: nat)
    ensures SlotAt(cfg, i) % 8 == 0 && SlotSize(cfg) % 8 == 0
  {
    var words := 16 + 24 * cfg.maxAttributes;
    assert SlotSize(cfg) == 8 * words;
    assert i * (8 * words) == 8 * (i * words);
  }

  datatype Slot = Slot(mark: u64, raw: seq<byte>)

  datatype Image = Image(count: u64, slots: seq<Slot>)

  predicate ImageOk(img: Image, cfg: Config) {
    && |img.slots| == cfg.maxSpans
    && forall i :: 0 <= i < |img.slots| ==> |img.slots[i].raw| == RawSize(cfg.maxAttributes)
  }

  function SlotOf(f: seq<byte>, cfg: Config, i: nat): (s: Slot)
    requires SlotAt(cfg, i) + SlotSize(cfg) <= |f|
    ensures |s.raw| == RawSize(cfg.maxAttributes)
  {
    var at := SlotAt(cfg, i);
    Slot(Word(f, at), f[at + WORD..at + SlotSize(cfg)])
  }

  function SlotsUpTo(f: seq<byte>, cfg: Config, n: nat): (slots: seq<Slot>)
    requires SlotAt(cfg, n) <= |f|
    ensures |slots| == n
    ensures forall i :: 0 <= i < n ==> SlotAt(cfg, i) + SlotSize(cfg) <= |f| && slots[i] == SlotOf(f, cfg, i)
  {
    if n == 0 then []
    else
      SlotsDisjoint(cfg, n - 1, n);
      SlotsUpTo(f, cfg, n - 1) + [SlotOf(f, cfg, n - 1)]
  }

  /** The file as a count and slots. */
  function View(f: seq<byte>, cfg: Config): (img: Image)
    requires LayoutSize(cfg) <= |f|
    ensures ImageOk(img, cfg)
  {
    SlotsDisjoint(cfg, 0, cfg.maxSpans + 1);
    Image(Word(f, COUNT_AT), SlotsUpTo(f, cfg, cfg.maxSpans))
  }

  // ---- Stores ----

  /** A store the span store makes: a mark, a whole span, the count, or part of a span. */
  datatype Store =
    | SetMark(slot: nat, mark: u64)
    | SetSpan(slot: nat, raw: seq<byte>)
    | SetCount(count: u64)
    | SetField(slot: nat, at: nat, bytes: seq<byte>)

  predicate StoreOk(s: Store, cfg: Config) {
    match s
    case SetMark(i, _) => i < cfg.maxSpans
    case SetSpan(i, raw) => i < cfg.maxSpans && |raw| == RawSize(cfg.maxAttributes)
    case SetCount(_) => true
    case SetField(i, at, b) => i < cfg.maxSpans && at + |b| <= RawSize(cfg.maxAttributes)
  }

  predicate StoresOk(ss: seq<Store>, cfg: Config) {
    forall k :: 0 <= k < |ss| ==> StoreOk(ss[k], cfg)
  }

  function Apply(img: Image, s: Store, cfg: Config): (r: Image)
    requires ImageOk(img, cfg) && StoreOk(s, cfg)
    ensures ImageOk(r, cfg)
  {
    match s
    case SetMark(i, m) => img.(slots := img.slots[i := img.slots[i].(mark := m)])
    case SetSpan(i, raw) => img.(slots := img.slots[i := img.slots[i].(raw := raw)])
    case SetCount(c) => img.(count := c)
    case SetField(i, at, b) => img.(slots := img.slots[i := img.slots[i].(raw := Splice(img.slots[i].raw, at, b))])
  }

  /** Where the store goes in the file. The assignment of a whole span can tear. */
  function PutOf(s: Store, cfg: Config): Put {
    match s
    case SetMark(i, m) => Put(SlotAt(cfg, i), EncodeWord(m), false)
    case SetSpan(i, raw) => Put(SlotAt(cfg, i) + WORD, raw, true)
    case SetCount(c) => Put(COUNT_AT, EncodeWord(c), false)
    case SetField(i, at, b) => Put(SlotAt(cfg, i) + WORD + at, b, false)
  }

  lemma PutOfFits(s: Store, cfg: Config)
    requires StoreOk(s, cfg)
    ensures Fits(PutOf(s, cfg), LayoutSize(cfg))
    ensures COUNT_AT <= PutOf(s, cfg).at
  {
    if s.SetCount? {
      SlotsDisjoint(cfg, 0, cfg.maxSpans + 1);
      LayoutHoldsHeader(cfg);
    } else {
      SlotsDisjoint(cfg, s.slot, cfg.maxSpans);
    }
  }

  lemma LayoutHoldsHeader(cfg: Config)
    ensures HEADER_SIZE <= LayoutSize(cfg)
  {
    SlotsDisjoint(cfg, cfg.maxSpans, cfg.maxSpans + 1);
  }

  lemma SlotFrame(f: seq<byte>, g: seq<byte>, cfg: Config, i: nat)
    requires SlotAt(cfg, i) + SlotSize(cfg) <= |f| && |g| == |f|
    requires forall k :: SlotAt(cfg, i) <= k < SlotAt(cfg, i) + SlotSize(cfg) ==> f[k] == g[k]
    ensures SlotOf(f, cfg, i) == SlotOf(g, cfg, i)
  {
    hide SlotAt, Word;
    var at := SlotAt(cfg, i);
    WordFrame(f, g, at);
    assert f[at + WORD..at + SlotSize(cfg)] == g[at + WORD..at + SlotSize(cfg)];
  }

  /** A store to one slot changes that slot and no other, nor the count. */
  lemma SlotStore(f: seq<byte>, cfg: Config, i: nat, at: nat, b: seq<byte>)
    requires i < cfg.maxSpans && LayoutSize(cfg) <= |f|
    requires SlotAt(cfg, i) <= at && at + |b| <= SlotAt(cfg, i) + SlotSize(cfg) && at + |b| <= |f|
    ensures SlotAt(cfg, i) + SlotSize(cfg) <= |f|
    ensures View(Splice(f, at, b), cfg) == View(f, cfg).(slots := View(f, cfg).slots[i := SlotOf(Splice(f, at, b), cfg, i)])
  {
    hide SlotAt, SlotOf, Word;
    var g := Splice(f, at, b);
    SlotsDisjoint(cfg, i, cfg.maxSpans);
    WordFrame(f, g, COUNT_AT);
    forall j | 0 <= j < cfg.maxSpans && j != i
      ensures SlotAt(cfg, j) + SlotSize(cfg) <= |f| && SlotOf(g, cfg, j) == SlotOf(f, cfg, j)
    {
      SlotsDisjoint(cfg, j, cfg.maxSpans);
      if j < i { SlotsDisjoint(cfg, j, i); } else { SlotsDisjoint(cfg, i, j); }
      SlotFrame(f, g, cfg, j);
    }
    assert View(g, cfg).slots == View(f, cfg).slots[i := SlotOf(g, cfg, i)];
  }

  lemma CountStore(f: seq<byte>, cfg: Config, c: u64)
    requires LayoutSize(cfg) <= |f| && COUNT_AT + WORD <= |f|
    ensures View(Splice(f, COUNT_AT, EncodeWord(c)), cfg) == View(f, cfg).(count := c)
  {
    hide SlotAt, SlotOf, Word, EncodeWord;
    var g := Splice(f, COUNT_AT, EncodeWord(c));
    WordOfSplice(f, COUNT_AT, c);
    forall j | 0 <= j < cfg.maxSpans
      ensures SlotAt(cfg, j) + SlotSize(cfg) <= |f| && SlotOf(g, cfg, j) == SlotOf(f, cfg, j)
    {
      SlotsDisjoint(cfg, j, cfg.maxSpans);
      SlotFrame(f, g, cfg, j);
    }
    assert View(g, cfg).slots == View(f, cfg).slots;
  }

  lemma MarkOfStored(f: seq<byte>, cfg: Config, i: nat, m: u64)
    requires SlotAt(cfg, i) + SlotSize(cfg) <= |f|
    ensures SlotOf(Splice(f, SlotAt(cfg, i), EncodeWord(m)), cfg, i) == SlotOf(f, cfg, i).(mark := m)
  {
    hide SlotAt, Word, EncodeWord;
    var at := SlotAt(cfg, i);
    WordOfSplice(f, at, m);
    SliceOfSplice(f, at, EncodeWord(m), at + WORD, at + SlotSize(cfg));
  }

  lemma RawOfStored(f: seq<byte>, cfg: Config, i: nat, at: nat, b: seq<byte>)
    requires SlotAt(cfg, i) + SlotSize(cfg) <= |f| && at + |b| <= RawSize(cfg.maxAttributes)
    ensures var s := SlotOf(f, cfg, i);
      SlotOf(Splice(f, SlotAt(cfg, i) + WORD + at, b), cfg, i) == s.(raw := Splice(s.raw, at, b))
  {
    hide SlotAt, Word;
    var g := Splice(f, SlotAt(cfg, i) + WORD + at, b);
    WordFrame(f, g, SlotAt(cfg, i));
    assert SlotOf(g, cfg, i).raw == Splice(SlotOf(f, cfg, i).raw, at, b);
  }

  lemma WholeSplice(was: seq<byte>, b: seq<byte>)
    requires |was| == |b|
    ensures Splice(was, 0, b) == b
  {
  }

  /** The byte store and the slot store are the same thing. */
  lemma PutIsApply(f: seq<byte>, s: Store, cfg: Config)
    requires LayoutSize(cfg) <= |f| && StoreOk(s, cfg)
    ensures Fits(PutOf(s, cfg), |f|)
    ensures View(Splice(f, PutOf(s, cfg).at, PutOf(s, cfg).bytes), cfg) == Apply(View(f, cfg), s, cfg)
  {
    hide SlotAt, Word, EncodeWord, Splice, SlotOf, SlotsUpTo;
    PutOfFits(s, cfg);
    if !s.SetCount? {
      SlotsDisjoint(cfg, s.slot, cfg.maxSpans);
      SlotStore(f, cfg, s.slot, PutOf(s, cfg).at, PutOf(s, cfg).bytes);
    }
    match s
    case SetMark(i, m) => MarkOfStored(f, cfg, i, m);
    case SetSpan(i, raw) => RawOfStored(f, cfg, i, 0, raw); WholeSplice(View(f, cfg).slots[i].raw, raw);
    case SetCount(c) => CountStore(f, cfg, c);
    case SetField(i, at, b) => RawOfStored(f, cfg, i, at, b);
  }

  // ---- Runs of stores ----

  function PutsOf(ss: seq<Store>, cfg: Config): (ps: seq<Put>)
    ensures |ps| == |ss| && forall k :: 0 <= k < |ss| ==> ps[k] == PutOf(ss[k], cfg)
  {
    if ss == [] then [] else PutsOf(ss[..|ss| - 1], cfg) + [PutOf(ss[|ss| - 1], cfg)]
  }

  function RunStores(img: Image, ss: seq<Store>, cfg: Config): (r: Image)
    requires ImageOk(img, cfg) && StoresOk(ss, cfg)
    ensures ImageOk(r, cfg)
  {
    if ss == [] then img else Apply(RunStores(img, ss[..|ss| - 1], cfg), ss[|ss| - 1], cfg)
  }

  /** What a crash leaves of a run of stores. */
  function CrashStores(img: Image, ss: seq<Store>, done: nat, junk: seq<byte>, cfg: Config): (r: Image)
    requires ImageOk(img, cfg) && StoresOk(ss, cfg) && done <= |ss|
    ensures ImageOk(r, cfg)
  {
    var r := RunStores(img, ss[..done], cfg);
    if done < |ss| && ss[done].SetSpan? && |junk| == |ss[done].raw|
    then Apply(r, SetSpan(ss[done].slot, junk), cfg)
    else r
  }

  lemma PutsOfFit(ss: seq<Store>, cfg: Config, size: nat)
    requires StoresOk(ss, cfg) && LayoutSize(cfg) <= size
    ensures AllFit(PutsOf(ss, cfg), size)
  {
    forall k | 0 <= k < |ss| ensures Fits(PutsOf(ss, cfg)[k], size) {
      PutOfFits(ss[k], cfg);
    }
  }

  lemma {:induction false} RunPutsIsRunStores(f: seq<byte>, ss: seq<Store>, cfg: Config)
    requires LayoutSize(cfg) <= |f| && StoresOk(ss, cfg)
    ensures AllFit(PutsOf(ss, cfg), |f|)
    ensures View(RunPuts(f, PutsOf(ss, cfg)), cfg) == RunStores(View(f, cfg), ss, cfg)
  {
    hide View, PutOf, Apply, Splice;
    PutsOfFit(ss, cfg, |f|);
    if ss != [] {
      var front := ss[..|ss| - 1];
      RunPutsIsRunStores(f, front, cfg);
      assert PutsOf(ss, cfg)[..|ss| - 1] == PutsOf(front, cfg);
      PutIsApply(RunPuts(f, PutsOf(front, cfg)), ss[|ss| - 1], cfg);
    }
  }

  /** Only the store of a span tears, and torn it is the store of other bytes there. */
  lemma SpanTears(s: Store, junk: seq<byte>, cfg: Config)
    ensures PutOf(s, cfg).tears <==> s.SetSpan?
    ensures s.SetSpan? ==> |PutOf(s, cfg).bytes| == |s.raw|
    ensures s.SetSpan? ==> PutOf(SetSpan(s.slot, junk), cfg) == Put(PutOf(s, cfg).at, junk, true)
  {
  }

  /** A crash of the byte stores, torn or not, is seen as the same crash of the slot stores. */
  lemma CrashPutsIsCrashStores(f: seq<byte>, ss: seq<Store>, cfg: Config, done: nat, junk: seq<byte>)
    requires LayoutSize(cfg) <= |f| && StoresOk(ss, cfg) && done <= |ss|
    ensures AllFit(PutsOf(ss, cfg), |f|)
    ensures View(CrashPuts(f, PutsOf(ss, cfg), done, junk), cfg) == CrashStores(View(f, cfg), ss, done, junk, cfg)
  {
    hide View, Apply, Splice, RunPuts, RunStores, PutsOf, PutOf, AllFit, LayoutSize;
    PutsOfFit(ss, cfg, |f|);
    assert PutsOf(ss, cfg)[..done] == PutsOf(ss[..done], cfg);
    RunPutsIsRunStores(f, ss[..done], cfg);
    if done < |ss| {
      SpanTears(ss[done], junk, cfg);
      if ss[done].SetSpan? && |junk| == |ss[done].raw| {
        PutIsApply(RunPuts(f, PutsOf(ss[..done], cfg)), SetSpan(ss[done].slot, junk), cfg);
      }
    }
  }

  /** The stores of the span store never touch the first three header words. */
  lemma HeaderUntouched(f: seq<byte>, ss: seq<Store>, cfg: Config, done: nat, junk: seq<byte>, k: nat)
    requires LayoutSize(cfg) <= |f| && StoresOk(ss, cfg) && done <= |ss| && k < COUNT_AT
    ensures AllFit(PutsOf(ss, cfg), |f|) && k < |f|
    ensures CrashPuts(f, PutsOf(ss, cfg), done, junk)[k] == f[k]
  {
    hide SlotAt, RunPuts;
    PutsOfFit(ss, cfg, |f|);
    LayoutHoldsHeader(cfg);
    forall j | 0 <= j < |ss| ensures COUNT_AT <= PutsOf(ss, cfg)[j].at {
      PutOfFits(ss[j], cfg);
    }
    RunPutsFrame(f, PutsOf(ss, cfg)[..done], k);
  }
}
