/** The span store over the mapped file. */
module RawSpanStore {
  import opened Bytes
  import opened MemoryModel
  import opened CopyString
  import opened Codec
  import opened Attributes
  import opened Layout
  import opened SpanStore
  import opened Crash

  /** Clears the count, then zeroes every slot. */
  function RemoveAllPuts(cfg: Config): seq<Put> {
    LayoutHoldsHeader(cfg);
    [WordPut(COUNT_AT, 0)] + ZeroPuts(HEADER_SIZE, LayoutSize(cfg) - HEADER_SIZE)
  }

  class RawSpanData {
    const mem: Memory
    const cfg: Config
    var markCounter: u64

    ghost predicate Valid()
      reads mem, mem.data
    {
      mem.Valid() && cfg.Valid() && LayoutSize(cfg) <= mem.data.Length
    }

    constructor (mem: Memory, cfg: Config)
      requires mem.Valid() && cfg.Valid() && LayoutSize(cfg) <= mem.data.Length
      ensures Valid() && this.mem == mem && this.cfg == cfg && markCounter == 0
    {
      this.mem := mem;
      this.cfg := cfg;
      markCounter := 0;
    }

    /** The mapped file as a count and slots. */
    ghost function Img(): (img: Image)
      requires Valid()
      reads mem, mem.data
      ensures ImageOk(img, cfg)
    {
      View(mem.data[..], cfg)
    }

    lemma SlotRead(i: nat)
      requires Valid() && i < cfg.maxSpans
      ensures HEADER_SIZE <= SlotAt(cfg, i) && SlotAt(cfg, i) + SlotSize(cfg) <= LayoutSize(cfg)
      ensures Img().slots[i] == SlotOf(mem.data[..], cfg, i)
    {
      hide SlotAt, SlotOf;
      SlotsDisjoint(cfg, i, cfg.maxSpans);
    }

    method Count() returns (n: u64)
      requires Valid()
      ensures n == Img().count
    {
      LayoutHoldsHeader(cfg);
      n := mem.Load(COUNT_AT);
    }

    method GetMark(i: nat) returns (m: u64)
      requires Valid() && i < cfg.maxSpans
      ensures m == Img().slots[i].mark
    {
      SlotRead(i);
      m := mem.Load(SlotAt(cfg, i));
    }

    method GetRawSpan(i: nat) returns (raw: seq<byte>)
      requires Valid() && i < cfg.maxSpans
      ensures raw == Img().slots[i].raw
    {
      SlotRead(i);
      raw := mem.data[SlotAt(cfg, i) + WORD..SlotAt(cfg, i) + SlotSize(cfg)];
    }

    /** The log says which stores were made; this is what they did to the slots. */
    twostate lemma Done(ss: seq<Store>)
      requires old(Valid()) && Valid() && mem.base == old(mem.base) && StoresOk(ss, cfg)
      requires mem.log == old(mem.log) + PutsOf(ss, cfg)
      ensures Img() == RunStores(old(Img()), ss, cfg)
    {
      hide RunPuts, RunStores, View, AllFit;
      mem.Effect(PutsOf(ss, cfg));
      RunPutsIsRunStores(old(mem.data[..]), ss, cfg);
    }

    method StoreMark(i: nat, m: u64)
      requires Valid() && i < cfg.maxSpans
      modifies mem`log, mem.data
      ensures Valid() && Img() == Apply(old(Img()), SetMark(i, m), cfg)
      ensures mem.log == old(mem.log) + [PutOf(SetMark(i, m), cfg)]
    {
      hide SlotAt, EncodeWord, View, Apply, RunPuts, AllFit, Splice;
      SlotRead(i);
      PutIsApply(mem.data[..], SetMark(i, m), cfg);
      mem.StoreWord(SlotAt(cfg, i), m);
    }

    method StoreSpan(i: nat, raw: seq<byte>)
      requires Valid() && i < cfg.maxSpans && |raw| == RawSize(cfg.maxAttributes)
      modifies mem`log, mem.data
      ensures Valid() && Img() == Apply(old(Img()), SetSpan(i, raw), cfg)
      ensures mem.log == old(mem.log) + [PutOf(SetSpan(i, raw), cfg)]
    {
      hide SlotAt, View, Apply, RunPuts, AllFit, Splice;
      SlotRead(i);
      PutIsApply(mem.data[..], SetSpan(i, raw), cfg);
      mem.Store(Put(SlotAt(cfg, i) + WORD, raw, true));
    }

    method StoreCount(n: u64)
      requires Valid()
      modifies mem`log, mem.data
      ensures Valid() && mem.log == old(mem.log) + [PutOf(SetCount(n), cfg)]
    {
      LayoutHoldsHeader(cfg);
      mem.StoreWord(COUNT_AT, n);
    }

    method Add(span: Span) returns (rawIndex: nat)
      requires Valid()
      requires Img().count < cfg.maxSpans && Img().slots[Img().count].mark == 0
      requires markCounter + 1 < U64_MAX
      modifies this`markCounter, mem`log, mem.data
      ensures Valid() && rawIndex == old(Img().count) && markCounter == old(markCounter) + 1
      ensures mem.log == old(mem.log) + PutsOf(AddStores(old(Img()), markCounter, ToRaw(span, cfg.maxAttributes)), cfg)
      ensures Img() == AddImage(old(Img()), markCounter, ToRaw(span, cfg.maxAttributes))
    {
      hide View, ToRaw, SlotAt, EncodeWord, Word, RunPuts, AllFit, RunStores, Splice, AddImage, PutOf;
      rawIndex := Count();
      var mark := GetMark(rawIndex);
      assert rawIndex < cfg.maxSpans && mark == 0;
      markCounter := markCounter + 1;
      StoreMark(rawIndex, 0);
      var raw := ToRawSpan(span, cfg.maxAttributes);
      StoreSpan(rawIndex, raw);
      StoreMark(rawIndex, markCounter);
      var n := Count();
      StoreCount(n + 1);
      ghost var ss := AddStores(old(Img()), markCounter, raw);
      AddStoresRun(old(Img()), markCounter, raw, cfg);
      StoresLogged(old(mem.log), mem.log, ss, cfg);
      Done(ss);
    }

    /** Returns the id of the span that was moved into the slot, or 0. */
    method Remove(rawIndex: nat) returns (moved: u64)
      requires Valid() && rawIndex < Img().count <= cfg.maxSpans
      requires Img().slots[rawIndex].mark > 0 && Img().slots[Img().count - 1].mark > 0
      modifies mem`log, mem.data
      ensures Valid() && moved == MovedId(old(Img()), rawIndex)
      ensures mem.log == old(mem.log) + PutsOf(RemoveStores(old(Img()), rawIndex), cfg)
      ensures Img() == RemoveImage(old(Img()), rawIndex)
    {
      hide View, SlotAt, EncodeWord, Word, RunPuts, AllFit, RunStores, Splice, RemoveImage, PutOf;
      var count := Count();
      var lastIndex := count - 1;
      if rawIndex == lastIndex {
        RemoveLast(rawIndex);
        return 0;
      }
      moved := RemoveSwap(rawIndex);
    }

    /** Moves the last span into the slot of the one that goes. */
    method RemoveSwap(rawIndex: nat) returns (moved: u64)
      requires Valid() && rawIndex + 1 < Img().count <= cfg.maxSpans
      modifies mem`log, mem.data
      ensures Valid() && moved == MovedId(old(Img()), rawIndex)
      ensures mem.log == old(mem.log) + PutsOf(RemoveStores(old(Img()), rawIndex), cfg)
      ensures Img() == RemoveImage(old(Img()), rawIndex)
    {
      hide View, SlotAt, EncodeWord, Word, RunPuts, AllFit, RunStores, Splice, RemoveImage, PutOf;
      var count := Count();
      var lastIndex := count - 1;
      var last := GetRawSpan(lastIndex);
      var lastSpanId := RawId(last);
      var lastMark := GetMark(lastIndex);
      StoreMark(rawIndex, 0);
      last := GetRawSpan(lastIndex);
      StoreSpan(rawIndex, last);
      StoreMark(rawIndex, lastMark);
      StoreMark(lastIndex, 0);
      var n := Count();
      StoreCount(n - 1);
      ghost var ss := RemoveStores(old(Img()), rawIndex);
      RemoveRun(old(Img()), rawIndex, cfg);
      StoresLogged(old(mem.log), mem.log, ss, cfg);
      Done(ss);
      moved := lastSpanId;
    }

    method RemoveLast(rawIndex: nat)
      requires Valid() && rawIndex + 1 == Img().count <= cfg.maxSpans
      modifies mem`log, mem.data
      ensures Valid()
      ensures mem.log == old(mem.log) + PutsOf(RemoveStores(old(Img()), rawIndex), cfg)
      ensures Img() == RemoveImage(old(Img()), rawIndex)
    {
      hide View, SlotAt, EncodeWord, Word, RunPuts, AllFit, RunStores, Splice, RemoveImage, PutOf;
      StoreMark(rawIndex, 0);
      var n := Count();
      StoreCount(n - 1);
      ghost var ss := RemoveStores(old(Img()), rawIndex);
      RemoveRun(old(Img()), rawIndex, cfg);
      StoresLogged(old(mem.log), mem.log, ss, cfg);
      Done(ss);
    }

    method SetEndTime(rawIndex: nat, endTime: u64)
      requires Valid() && rawIndex < Img().count <= cfg.maxSpans && Img().slots[rawIndex].mark > 0
      modifies mem`log, mem.data
      ensures Valid() && mem.log == old(mem.log) + PutsOf(FieldStores(rawIndex, [WordPut(END, endTime)]), cfg)
      ensures Img() == EditImage(old(Img()), rawIndex, WithWord(old(Img()).slots[rawIndex].raw, END, endTime))
    {
      hide View, SlotAt, EncodeWord, Word, RunStores;
      SlotRead(rawIndex);
      mem.StoreWord(SlotAt(cfg, rawIndex) + WORD + END, endTime);
      ghost var ps := [WordPut(END, endTime)];
      FieldPuts(rawIndex, ps, cfg);
      assert PutsOf(FieldStores(rawIndex, ps), cfg) == [WordPut(SlotAt(cfg, rawIndex) + WORD + END, endTime)];
      FieldRun(old(Img()), rawIndex, ps, cfg);
      assert ps[..0] == [];
      Done(FieldStores(rawIndex, ps));
    }

    method OverwriteValue(rawIndex: nat, j: nat, value: seq<byte>)
      requires Valid() && rawIndex < cfg.maxSpans && j < cfg.maxAttributes
      modifies mem`log, mem.data
      ensures Valid()
      ensures mem.log == old(mem.log) + PutsOf(FieldStores(rawIndex, CopyPuts(value, ValueAt(j), VALUE_SIZE)), cfg)
    {
      hide View, SlotAt, Truncate, FillPuts, Fill, Splice, RunPuts, AllFit, PutsOf, FieldStores;
      SlotRead(rawIndex);
      CopyStringTo(value, mem, SlotAt(cfg, rawIndex) + WORD + ValueAt(j), VALUE_SIZE);
      FieldFill(rawIndex, Truncate(value, VALUE_SIZE), ValueAt(j), VALUE_SIZE, cfg);
    }

    method AppendAttribute(rawIndex: nat, j: nat, key: seq<byte>, value: seq<byte>)
      requires Valid() && rawIndex < cfg.maxSpans && j < cfg.maxAttributes
      modifies mem`log, mem.data
      ensures Valid()
      ensures mem.log == old(mem.log)
        + PutsOf(FieldStores(rawIndex, AppendPuts(key, value, j) + [WordPut(ATTR_COUNT, j + 1)]), cfg)
    {
      hide View, SlotAt, Copy2Puts, Fill, Splice, AppendPuts, EncodeWord, RunPuts, AllFit, PutsOf, FieldStores;
      SlotRead(rawIndex);
      var at := SlotAt(cfg, rawIndex) + WORD;
      CopyStringTo2(key, at + KeyAt(j), KEY_SIZE, value, at + ValueAt(j), VALUE_SIZE, mem);
      mem.StoreWord(at + ATTR_COUNT, j + 1);
      FieldAppend(rawIndex, key, value, j, cfg);
    }

    /** Returns the attribute slot that was written: that of the key, else the first free one,
        which is `maxAttributes` if there was none and nothing was written. */
    method SetAttributeOnSpan(rawIndex: nat, key: seq<byte>, value: seq<byte>) returns (r: nat)
      requires Valid() && rawIndex < cfg.maxSpans && RawOk(Img().slots[rawIndex].raw, cfg.maxAttributes)
      modifies mem`log, mem.data
      ensures Valid()
      ensures mem.log == old(mem.log)
        + PutsOf(FieldStores(rawIndex, SetAttrPuts(old(Img()).slots[rawIndex].raw, key, value, cfg.maxAttributes)), cfg)
      ensures Img() == EditImage(old(Img()), rawIndex, SetAttr(old(Img()).slots[rawIndex].raw, key, value, cfg.maxAttributes))
      ensures r == SlotOfKey(old(Img()).slots[rawIndex].raw, key, cfg.maxAttributes)
    {
      hide View, Word, RunStores, SetAttr, KeyEquals, RunPuts, FieldStores, EditImage, AppendPuts, CopyPuts;
      var raw := GetRawSpan(rawIndex);
      ghost var ps := SetAttrPuts(raw, key, value, cfg.maxAttributes);
      SetAttrEffect(raw, key, value, cfg.maxAttributes);
      FieldRun(Img(), rawIndex, ps, cfg);
      var i := 0;
      while i < AttrCount(raw)
        invariant i <= AttrCount(raw)
        invariant FindFrom(raw, key, i) == SlotOfKey(raw, key, cfg.maxAttributes)
      {
        if KeyEquals(key, RawKey(raw, i)) {
          OverwriteValue(rawIndex, i, value);
          Done(FieldStores(rawIndex, ps));
          return i;
        }
        i := i + 1;
      }
      if AttrCount(raw) < cfg.maxAttributes {
        AppendAttribute(rawIndex, AttrCount(raw), key, value);
        Done(FieldStores(rawIndex, ps));
        return AttrCount(raw);
      }
      FieldPuts(rawIndex, [], cfg);
      Done(FieldStores(rawIndex, ps));
      return cfg.maxAttributes;
    }

    method RemoveAll()
      requires Valid()
      modifies mem`log, mem.data
      ensures Valid() && mem.log == old(mem.log) + RemoveAllPuts(cfg)
    {
      hide LayoutSize, EncodeWord, RunPuts, AllFit, ZeroPuts, Splice;
      LayoutHoldsHeader(cfg);
      mem.StoreWord(COUNT_AT, 0);
      mem.Clear(HEADER_SIZE, LayoutSize(cfg) - HEADER_SIZE);
    }
  }

  // ---- Addresses of field stores ----

  /** `ps` moved by `d`. */
  ghost predicate Shifted(ps: seq<Put>, d: nat, qs: seq<Put>) {
    |qs| == |ps| && forall k :: 0 <= k < |ps| ==> qs[k] == Put(d + ps[k].at, ps[k].bytes, false)
  }

  lemma FieldPuts(i: nat, ps: seq<Put>, cfg: Config)
    ensures Shifted(ps, SlotAt(cfg, i) + WORD, PutsOf(FieldStores(i, ps), cfg))
  {
    hide SlotAt;
  }

  lemma FieldFill(i: nat, t: seq<byte>, at: nat, n: nat, cfg: Config)
    ensures PutsOf(FieldStores(i, FillPuts(t, at, n)), cfg) == FillPuts(t, SlotAt(cfg, i) + WORD + at, n)
  {
    hide SlotAt, FieldStores, PutsOf, ZeroPuts, BytePuts;
    FieldPuts(i, FillPuts(t, at, n), cfg);
  }

  lemma FieldAppend(i: nat, key: seq<byte>, value: seq<byte>, j: nat, cfg: Config)
    requires j < U64_MAX
    ensures var at := SlotAt(cfg, i) + WORD;
      PutsOf(FieldStores(i, AppendPuts(key, value, j) + [WordPut(ATTR_COUNT, j + 1)]), cfg)
      == Copy2Puts(key, at + KeyAt(j), KEY_SIZE, value, at + ValueAt(j), VALUE_SIZE) + [WordPut(at + ATTR_COUNT, j + 1)]
  {
    hide SlotAt, Truncate, EncodeWord, FieldStores, PutsOf, ZeroPuts, BytePuts;
    FieldPuts(i, AppendPuts(key, value, j) + [WordPut(ATTR_COUNT, j + 1)], cfg);
  }

  /** A log that ends in the stores `ss`, one by one. */
  lemma StoresLogged(was: seq<Put>, log: seq<Put>, ss: seq<Store>, cfg: Config)
    requires |log| == |was| + |ss| && log[..|was|] == was
    requires forall k :: 0 <= k < |ss| ==> log[|was| + k] == PutOf(ss[k], cfg)
    ensures log == was + PutsOf(ss, cfg)
  {
    hide PutOf, PutsOf;
  }
}
