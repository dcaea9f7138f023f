/** The file format in plain numbers, and what the numbers mean to a caller: which files recovery
    accepts, how much a store and its strings hold, when a file is used again as it is. */
module Format {
  import opened Bytes
  import opened MemoryModel
  import opened CopyString
  import opened Codec
  import opened Layout
  import opened SpanStore
  import opened RawSpanStore
  import opened SlotOrder
  import opened Startup
  import opened Sessions

  // ---- A raw span ----

  /** Where each field of a stored span lies; the fields leave no gap. */
  lemma RawSpanInFile(s: Span, m: nat)
    requires m < U64_MAX
    ensures var raw, n := ToRaw(s, m), Min(|s.attributes|, m);
      && |raw| == 120 + 192 * m
      && Word(raw, 0) == s.traceHigh && Word(raw, 8) == s.traceLow && Word(raw, 16) == s.id
      && Word(raw, 24) == s.parent && Word(raw, 32) == s.start && Word(raw, 40) == s.end
      && raw[48..112] == Fill(s.name, 64) && Word(raw, 112) == n
      && forall j :: 0 <= j < n ==>
          && raw[120 + 192 * j..184 + 192 * j] == Fill(s.attributes[j].key, 64)
          && raw[184 + 192 * j..312 + 192 * j] == Fill(s.attributes[j].value, 128)
  {
    hide Word, RawUpTo, Truncate;
    var raw, n := ToRaw(s, m), Min(|s.attributes|, m);
    RawUpToHolds(s, m, n);
    forall j | 0 <= j < n
      ensures raw[120 + 192 * j..184 + 192 * j] == Fill(s.attributes[j].key, 64)
      ensures raw[184 + 192 * j..312 + 192 * j] == Fill(s.attributes[j].value, 128)
    {
      assert raw[120 + 192 * j..184 + 192 * j] == RawKey(raw, j);
      assert raw[184 + 192 * j..312 + 192 * j] == RawValue(raw, j);
    }
  }

  /** A name without NULs comes back whole exactly if it has at most 63 bytes. */
  lemma NameComesBackIff(s: Span, m: nat)
    requires m < U64_MAX && NulFree(s.name)
    ensures RawOk(ToRaw(s, m), m)
    ensures FromRaw(ToRaw(s, m), m).name == s.name <==> |s.name| <= 63
  {
    hide RawOk, ToRaw, FromRaw, Clean, CleanAttrs, Visible;
    RoundTrip(s, m);
    CleanIffFits(s.name, 64);
  }

  /** So does an attribute with a value, with at most 63 bytes in its key and 127 in its value. */
  lemma AttributeComesBackIff(s: Span, a: Attribute, m: nat)
    requires 0 < m < U64_MAX && s.attributes == [a] && NulFree(a.key) && NulFree(a.value) && a.value != []
    ensures RawOk(ToRaw(s, m), m)
    ensures FromRaw(ToRaw(s, m), m).attributes == [a] <==> |a.key| <= 63 && |a.value| <= 127
  {
    hide RawOk, ToRaw, FromRaw, Clean, Visible, CleanAttrs;
    RoundTrip(s, m);
    CleanIffFits(a.key, 64);
    CleanIffFits(a.value, 128);
    assert s.attributes[..1] == [a];
    assert CleanAttrs([a]) == [] + [CleanAttr(a)];
    NothingVisible([]);
    VisibleConcat([], CleanAttr(a));
  }

  // ---- Capacities ----

  function MaxSpans(size: MmapSize): nat {
    match size
    case Small => 128
    case Medium => 1024
    case Large => 2048
  }

  function MaxAttributes(size: MmapSize): nat {
    match size
    case Small => 16
    case Medium => 64
    case Large => 128
  }

  /** After adds of spans with distinct ids an empty store holds the last 128, 1024 or 2048. */
  lemma HoldsUpTo(st: State, spans: seq<Span>, size: MmapSize)
    requires Inv(st, ConfigOf(size)) && st.img.count == 0 && st.marks + |spans| < U64_MAX
    requires forall i :: 0 <= i < |spans| ==> spans[i].id != 0
    requires forall i, j :: 0 <= i < j < |spans| ==> spans[i].id != spans[j].id
    ensures IdsNonZero(Adds(spans)) && AddCount(Adds(spans)) == |spans|
    ensures var r := Run(st, Adds(spans), ConfigOf(size));
      r.img.count <= |r.img.slots| && |QueueOf(r)| == Min(|spans|, MaxSpans(size))
  {
    hide Inv, QueueOf, Run, Adds, RawsOf, IdsNonZero, AddCount;
    AddsKeepTheLast(st, spans, ConfigOf(size));
  }

  /** A span is stored with its first 16, 64 or 128 attributes. */
  lemma KeepsAttributesUpTo(s: Span, size: MmapSize)
    ensures var m := ConfigOf(size).maxAttributes;
      && RawOk(ToRaw(s, m), m)
      && Attrs(ToRaw(s, m), m) == CleanAttrs(s.attributes[..Min(|s.attributes|, MaxAttributes(size))])
  {
    hide RawOk, ToRaw, Attrs, CleanAttrs;
    StoredAttrs(s, ConfigOf(size).maxAttributes);
  }

  // ---- The file ----

  function Stride(size: MmapSize): nat {
    match size
    case Small => 3200
    case Medium => 12416
    case Large => 24704
  }

  /** Where the count and each slot lie: a slot is its mark and then its span. */
  lemma SlotInFile(f: seq<byte>, size: MmapSize, i: nat)
    requires LayoutSize(ConfigOf(size)) <= |f| && i < MaxSpans(size)
    ensures var at, end := 32 + i * Stride(size), 32 + (i + 1) * Stride(size);
      && at + 8 <= end <= |f| && |View(f, ConfigOf(size)).slots| == MaxSpans(size)
      && View(f, ConfigOf(size)).count == Word(f, 24)
      && View(f, ConfigOf(size)).slots[i].mark == Word(f, at)
      && View(f, ConfigOf(size)).slots[i].raw == f[at + 8..end]
  {
    hide Word;
    SlotsDisjoint(ConfigOf(size), i, MaxSpans(size));
  }

  // ---- Which files recovery accepts ----

  /** The size code in the header of a file of that layout. */
  function SizeCode(size: MmapSize): nat {
    match size
    case Small => 0
    case Medium => 1
    case Large => 2
  }

  function LayoutBytes(size: MmapSize): nat {
    match size
    case Small => 409632
    case Medium => 12714016
    case Large => 50593824
  }

  lemma HeaderInFile(f: seq<byte>, target: MmapSize)
    requires |f| >= 32
    ensures HeaderNames(f, target) <==> Word(f, 0) == 0x48535243 && Word(f, 8) == 2 && Word(f, 16) == SizeCode(target)
  {
    hide Word;
  }

  /** The header has the signature and the version 2, names one of the three layouts, and counts
      live spans in a file that holds that layout. */
  predicate IsAccepted(f: seq<byte>)
    requires |f| >= 32
  {
    && Word(f, 0) == 0x48535243 && Word(f, 8) == 2 && Word(f, 24) > 0
    && (|| (Word(f, 16) == 0 && |f| >= 409632)
        || (Word(f, 16) == 1 && |f| >= 12714016)
        || (Word(f, 16) == 2 && |f| >= 50593824))
  }

  /** Recovery looks into exactly these files. */
  lemma RecoveryAccepts(f: seq<byte>)
    requires |f| >= 32
    ensures ShouldDoRecovery(f) <==> IsAccepted(f)
  {
    hide Word;
    LayoutSizes();
  }

  /** All others it refuses: a start-up recovers nothing from them and sets the header anew. */
  lemma RefusedIsReset(f: seq<byte>, target: MmapSize, page: nat)
    requires page >= HEADER_SIZE && (|f| < page || !IsAccepted(f))
    ensures Scannable(f) ==> Recover(f, page) == []
    ensures StartPuts(f, target, page) == ResetHeaderPuts(target) + RemoveAllPuts(ConfigOf(target))
    ensures StartBase(f, target, page) == Resized(f, RequiredSize(target, page))
  {
    hide ConfigOf, RequiredSize, RemoveAllPuts, ResetHeaderPuts, IsAccepted, ShouldDoRecovery;
    if |f| >= page { RecoveryAccepts(f); }
  }

  // ---- Sizes and reuse ----

  /** A start-up leaves the least number of whole pages that holds the layout. */
  lemma StartFileSize(f: seq<byte>, target: MmapSize, page: nat)
    requires page >= HEADER_SIZE
    ensures LayoutBytes(target) <= |StartFile(f, target, page)| < LayoutBytes(target) + page
    ensures exists q: nat :: |StartFile(f, target, page)| == q * page
  {
    hide LayoutSize, RemoveAllPuts, StartPuts, RunPuts, StartBase, StartFile;
    LayoutSizes();
    StartUpIsFresh(f, target, page);
    AlignedSizeIsLeast(LayoutSize(ConfigOf(target)), page);
  }

  /** The next start-up uses the file of a session as it is, and makes no store to its header but
      to clear the count, exactly if the session left spans and it asks for the same layout in a
      file of the same size. */
  lemma ReusedIff(f: seq<byte>, target: MmapSize, page: nat, ops: seq<Op>, nextTarget: MmapSize, nextPage: nat)
    requires FairSession(page, ops) && nextPage >= HEADER_SIZE
    ensures var g := FileAfter(f, target, page, ops);
      var o := OrderAfter(ops, ConfigOf(target));
      Reuses(g, nextTarget, nextPage)
      <==> (o.bySlot != [] && nextTarget == target && RequiredSize(nextTarget, nextPage) == RequiredSize(target, page))
  {
    hide ConfigOf, LayoutSize, RequiredSize, View, Word, StateAfter, FileAfter, OrderRun, FileSpans, QueueRun, DecodeAll, AllOk, Recovered, Readable;
    var g, st := FileAfter(f, target, page, ops), StateAfter(f, target, page, ops);
    RequiredSizeIsPages(nextTarget, nextPage);
    SizeOfCodeInvertsCode(target, 0);
    CountAfter(f, target, page, ops);
  }

  /** The count in the file of a session is the number of spans its calls leave. */
  lemma CountAfter(f: seq<byte>, target: MmapSize, page: nat, ops: seq<Op>)
    requires FairSession(page, ops)
    ensures |FileAfter(f, target, page, ops)| >= HEADER_SIZE
    ensures Word(FileAfter(f, target, page, ops), COUNT_AT) == |OrderAfter(ops, ConfigOf(target)).bySlot|
  {
    hide ConfigOf, LayoutSize, RequiredSize, Word, FileAfter, OrderRun, Run, QueueOf, Inv, SlotsUpTo;
    var st, cfg := StateAfter(f, target, page, ops), ConfigOf(target);
    CountBound(FirstState(f, target, page), cfg);
    CountBound(st, cfg);
    FirstOrder(f, target, page);
    RunRefinesOrder(FirstState(f, target, page), ops, cfg);
  }
}
