/** `initialize_span_data` and the context it returns. */
module Initialize {
  import opened Bytes
  import opened MemoryModel
  import opened Codec
  import opened Layout
  import opened SlotQueue
  import opened SpanStore
  import opened RawSpanStore
  import opened MutableSpanStore
  import opened Startup

  /** The recovery scan, in slot order. */
  method RecoverSpans(impl: RawSpanData) returns (spans: seq<Span>)
    requires impl.Valid() && Readable(impl.Img(), impl.cfg)
    ensures spans == Recovered(impl.Img(), impl.cfg)
  {
    hide View, RawOk, FromRaw, DecodeAll, Scan, AllOk;
    var count := impl.Count();
    ghost var slots := impl.Img().slots;
    NothingScanned(slots, impl.cfg.maxAttributes);
    spans := [];
    var i := 0;
    while i < count
      invariant i <= count && AllOk(Scan(slots, i), impl.cfg.maxAttributes)
      invariant spans == DecodeAll(Scan(slots, i), impl.cfg.maxAttributes)
    {
      ScanNext(slots, i, count, impl.cfg.maxAttributes);
      var mark := impl.GetMark(i);
      if mark != 0 {
        var raw := impl.GetRawSpan(i);
        var span := SpanFromRaw(raw, impl.cfg.maxAttributes);
        spans := spans + [span];
      }
      i := i + 1;
    }
  }

  lemma NothingScanned(slots: seq<Slot>, maxAttributes: nat)
    ensures AllOk(Scan(slots, 0), maxAttributes) && DecodeAll(Scan(slots, 0), maxAttributes) == []
  {
  }

  /** One more slot adds its span to the scan, if it is marked. */
  lemma ScanNext(slots: seq<Slot>, i: nat, n: nat, maxAttributes: nat)
    requires i < n <= |slots| && AllOk(Scan(slots, n), maxAttributes)
    ensures AllOk(Scan(slots, i), maxAttributes) && AllOk(Scan(slots, i + 1), maxAttributes)
    ensures slots[i].mark == 0 ==> Scan(slots, i + 1) == Scan(slots, i)
    ensures slots[i].mark != 0 ==> RawOk(slots[i].raw, maxAttributes)
    ensures slots[i].mark != 0 ==>
      DecodeAll(Scan(slots, i + 1), maxAttributes) == DecodeAll(Scan(slots, i), maxAttributes) + [FromRaw(slots[i].raw, maxAttributes)]
  {
    hide RawOk, FromRaw, DecodeAll, Scan;
    ScanStep(slots, i);
    ScanIsPrefix(slots, i, n);
    ScanIsPrefix(slots, i + 1, n);
    if slots[i].mark != 0 {
      assert Scan(slots, i + 1)[|Scan(slots, i)|] == slots[i].raw;
      DecodeOneMore(Scan(slots, i), slots[i].raw, maxAttributes);
    }
  }

  lemma ScanStep(slots: seq<Slot>, n: nat)
    requires n <= |slots|
    ensures Scan(slots, 0) == []
    ensures n < |slots| ==> Scan(slots, n + 1) == Scan(slots, n) + if slots[n].mark != 0 then [slots[n].raw] else []
  {
  }

  lemma {:induction false} ScanIsPrefix(slots: seq<Slot>, i: nat, n: nat)
    requires i <= n <= |slots|
    ensures Scan(slots, i) <= Scan(slots, n)
    decreases n
  {
    if i < n { ScanIsPrefix(slots, i, n - 1); }
  }

  lemma DecodeOneMore(rs: seq<Raw>, r: Raw, maxAttributes: nat)
    requires AllOk(rs, maxAttributes) && RawOk(r, maxAttributes)
    ensures AllOk(rs + [r], maxAttributes)
    ensures DecodeAll(rs + [r], maxAttributes) == DecodeAll(rs, maxAttributes) + [FromRaw(r, maxAttributes)]
  {
    hide RawOk, FromRaw;
    assert (rs + [r])[..|rs|] == rs;
  }

  method ResetHeader(disk: Memory, target: MmapSize)
    requires disk.Valid() && disk.data.Length >= HEADER_SIZE
    modifies disk`log, disk.data
    ensures disk.Valid() && disk.log == old(disk.log) + ResetHeaderPuts(target)
  {
    hide EncodeWord, RunPuts;
    disk.StoreWord(COUNT_AT, 0);
    disk.StoreWord(SIZE_AT, Code(target));
    disk.StoreWord(VERSION_AT, HEADER_VERSION);
    disk.StoreWord(SIGNATURE_AT, HEADER_SIGNATURE);
  }

  class Context {
    const impl: RawSpanData
    const mutableSpanData: MutableSpanData
    var recoveredSpans: seq<Span>
    var isRecovered: bool

    constructor (impl: RawSpanData, recoveredSpans: seq<Span>)
      requires impl.Valid() && impl.markCounter == 0
      modifies impl.mem`log, impl.mem.data
      ensures this.impl == impl && mutableSpanData.impl == impl && fresh(mutableSpanData)
      ensures this.recoveredSpans == recoveredSpans && !isRecovered
      ensures impl.Valid() && impl.mem.log == old(impl.mem.log) + RemoveAllPuts(impl.cfg)
      ensures mutableSpanData.index == map[]
    {
      this.impl := impl;
      this.recoveredSpans := recoveredSpans;
      isRecovered := false;
      mutableSpanData := new MutableSpanData(impl);
      new;
      impl.RemoveAll();
    }

    method TakeRecoveredSpans() returns (spans: seq<Span>)
      modifies this
      ensures spans == old(recoveredSpans) && isRecovered && recoveredSpans == []
    {
      isRecovered := true;
      spans := recoveredSpans;
      recoveredSpans := [];
    }
  }

  /** The first call takes the recovered spans; every later call gets none. */
  method GetRecoveredSpans(context: Context?) returns (spans: seq<Span>)
    modifies if context == null then {} else {context}
    ensures context == null ==> spans == []
    ensures context != null ==>
      && spans == (if old(context.isRecovered) then [] else old(context.recoveredSpans))
      && context.isRecovered
  {
    if context == null || context.isRecovered {
      return [];
    }
    spans := context.TakeRecoveredSpans();
  }

  /** The mutable store is out of reach until the recovered spans were taken. */
  method GetMutableSpanData(context: Context?) returns (m: MutableSpanData?)
    ensures m == null <==> context == null || !context.isRecovered
    ensures m != null ==> m == context.mutableSpanData
  {
    if context == null || !context.isRecovered {
      return null;
    }
    m := context.mutableSpanData;
  }

  lemma StartLog(f: seq<byte>, target: MmapSize, page: nat)
    requires page >= HEADER_SIZE
    ensures StartPuts(f, target, page)
      == (if Reuses(f, target, page) then RemoveAllPuts(ConfigOf(target))
          else [] + ResetHeaderPuts(target) + RemoveAllPuts(ConfigOf(target)))
  {
    hide ConfigOf, ResetHeaderPuts, RemoveAllPuts, Reuses;
  }

  /** Opens the span file that `disk` holds. */
  method InitializeSpanData(disk: Memory, target: MmapSize, page: nat) returns (context: Context)
    requires disk.Valid() && page >= HEADER_SIZE && Scannable(disk.data[..])
    modifies disk, disk.data
    ensures fresh(context) && fresh(context.impl) && fresh(context.mutableSpanData)
    ensures disk.data == old(disk.data) || fresh(disk.data)
    ensures context.impl.mem == disk && context.impl.cfg == ConfigOf(target)
    ensures context.recoveredSpans == Recover(old(disk.data[..]), page) && !context.isRecovered
    ensures disk.data[..] == StartFile(old(disk.data[..]), target, page)
    ensures disk.log == (if Reuses(old(disk.data[..]), target, page) then old(disk.log) else [])
      + StartPuts(old(disk.data[..]), target, page)
    ensures disk.base == if Reuses(old(disk.data[..]), target, page) then old(disk.base) else StartBase(old(disk.data[..]), target, page)
    ensures context.mutableSpanData.impl == context.impl && context.mutableSpanData.Valid()
    ensures IsEmpty(context.impl.Img()) && context.impl.markCounter == 0 && context.mutableSpanData.index == map[]
  {
    hide ConfigOf, LayoutSize, RequiredSize, View, Word, RunPuts, RemoveAllPuts, ResetHeaderPuts, StartPuts, Recovered, Scan, Readable, AlignedSize, IsEmpty, Inv;
    var originalSize := disk.data.Length;
    var requiredSize := RequiredSize(target, page);
    ghost var f := disk.data[..];
    RequiredSizeHolds(target, page);
    StartPutsFit(f, target, page);
    var recovered: seq<Span> := [];
    var impl: RawSpanData? := null;
    if originalSize >= page && ShouldDoRecovery(disk.data[..]) {
      var temp := new RawSpanData(disk, FileConfig(disk.data[..]));
      recovered := RecoverSpans(temp);
      if SizeOfCode(Word(disk.data[..], SIZE_AT)) == target && originalSize == requiredSize {
        impl := temp;
      }
    }
    if |f| >= HEADER_SIZE { SizeOfCodeInvertsCode(target, Word(f, SIZE_AT)); }
    assert Reuses(f, target, page) <==> impl != null;
    if impl == null {
      disk.Resize(requiredSize);
      ResetHeader(disk, target);
      impl := new RawSpanData(disk, ConfigOf(target));
    }
    context := new Context(impl, recovered);
    ghost var ps := StartPuts(f, target, page);
    StartLog(f, target, page);
    if Reuses(f, target, page) {
      disk.Effect(ps);
    } else {
      assert disk.log == ps;
    }
    assert disk.data[..] == StartFile(f, target, page);
    StartUpIsFresh(f, target, page);
    EmptyStateIsOk(impl.Img(), impl.cfg);
  }
}
