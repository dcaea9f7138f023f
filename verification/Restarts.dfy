/** Several start-ups in a row that all crash. */
module Restarts {
  import opened Bytes
  import opened MemoryModel
  import opened CopyString
  import opened Codec
  import opened Layout
  import opened SlotQueue
  import opened SpanStore
  import opened Startup
  import opened Sessions
  import opened SlotOrder

  datatype Start = Start(target: MmapSize, page: nat)

  /** The file after each of a row of start-ups that crash, one after the other. */
  ghost predicate CrashedStarts(starts: seq<Start>, files: seq<seq<byte>>) {
    && |files| == |starts| + 1
    && forall i :: 0 <= i < |starts| ==>
        starts[i].page >= HEADER_SIZE && StartCrash(files[i], starts[i].target, starts[i].page, files[i + 1])
  }

  /** Where the live slots of a file end. */
  function LiveEnd(f: seq<byte>): nat {
    if |f| >= HEADER_SIZE && ShouldDoRecovery(f) then SlotAt(FileConfig(f), Word(f, COUNT_AT)) else 0
  }

  /** `c` is `f` up to `low`, and zero from there on. */
  ghost predicate CutAt(f: seq<byte>, c: seq<byte>, low: nat) {
    HEADER_SIZE <= |c| && low <= |c| && (low <= |f| || f == []) && (f == [] || HEADER_SIZE <= low)
    && forall k :: 0 <= k < |c| ==> c[k] == if k < low && k < |f| then f[k] else 0
  }

  predicate CountIsZero(c: seq<byte>) {
    |c| >= HEADER_SIZE && Word(c, COUNT_AT) == 0
  }

  /** A cut that spares the live slots spares what recovery finds, unless it finds nothing. */
  lemma CutSparesLive(f: seq<byte>, c: seq<byte>, low: nat)
    requires Whole(f) && Scannable(f) && CutAt(f, c, low) && LiveEnd(f) <= low
    ensures Scannable(c) && (FileSpans(c) == FileSpans(f) || FileSpans(c) == [])
  {
    hide ConfigOf, Word, DecodeAll, RawOk, SlotAt, Scan;
    if f == [] {
      WordOfZeros(c, SIGNATURE_AT);
    } else {
      SameHeaderWords(f, c);
      WordFrame(f, c, COUNT_AT);
      if ShouldDoRecovery(f) && ShouldDoRecovery(c) {
        var cfg, n := FileConfig(f), Word(f, COUNT_AT);
        SlotsFrame(f, c, cfg, n);
        SlotsPrefix(f, cfg, n, cfg.maxSpans);
        SlotsPrefix(c, cfg, n, cfg.maxSpans);
        assert n <= cfg.maxSpans;
        ScanFrame(View(f, cfg).slots, View(c, cfg).slots, n);
      }
    }
  }

  lemma SlotsPrefix(f: seq<byte>, cfg: Config, n: nat, m: nat)
    requires n <= m && SlotAt(cfg, m) <= |f|
    ensures SlotAt(cfg, n) <= |f| && SlotsUpTo(f, cfg, m)[..n] == SlotsUpTo(f, cfg, n)
  {
    hide SlotAt, SlotOf, SlotSize;
    if n < m { SlotsDisjoint(cfg, n, m); }
  }

  /** A cut that leaves too few bytes for the layout leaves nothing to recover. */
  lemma CutTooShort(f: seq<byte>, c: seq<byte>, low: nat)
    requires CutAt(f, c, low) && |f| >= HEADER_SIZE && |c| < LayoutSize(FileConfig(f))
    ensures Scannable(c) && FileSpans(c) == []
  {
    hide ConfigOf, Word, LayoutSize;
    SameHeaderWords(f, c);
  }

  function SizeOf(s: Start): nat
    requires s.page > 0
  {
    RequiredSize(s.target, s.page)
  }

  /** `c` is `f` cut at `low`, by the `i`-th start-up of the row unless all of `f` is there, and
      has the size that the `j`-th one asked for. */
  ghost predicate RowCut(f: seq<byte>, c: seq<byte>, starts: seq<Start>, low: nat, i: nat, j: nat)
    requires PagesHoldHeader(starts)
  {
    && i <= j < |starts| && |c| == SizeOf(starts[j]) && CutAt(f, c, low)
    && (f == [] || low == |f| || low == SizeOf(starts[i]))
  }

  predicate PagesHoldHeader(starts: seq<Start>) {
    forall i :: 0 <= i < |starts| ==> starts[i].page >= HEADER_SIZE
  }

  lemma StartCrashOfCut(f: seq<byte>, c: seq<byte>, low: nat, s: Start, d: seq<byte>)
    requires s.page >= HEADER_SIZE && StartCrash(c, s.target, s.page, d)
    requires CutAt(f, c, low)
    ensures d == c || CountIsZero(d) || (|d| == SizeOf(s) && (CutAt(f, d, low) || CutAt(f, d, SizeOf(s))))
  {
    hide Word, ConfigOf, StartPuts, RunPuts, RequiredSize, ShouldDoRecovery;
    if d != c {
      var k: nat :| k <= |StartPuts(c, s.target, s.page)| && d == StartStep(c, s.target, s.page, k);
      RequiredSizeHolds(s.target, s.page);
      if k == 0 {
        StepZero(c, s.target, s.page);
      } else {
        CountGoesFirst(c, s.target, s.page, k);
      }
    }
  }

  lemma FirstCut(f: seq<byte>, s: Start, d: seq<byte>) returns (low: nat)
    requires s.page >= HEADER_SIZE && StartCrash(f, s.target, s.page, d) && (f == [] || HEADER_SIZE <= |f|)
    ensures d == f || CountIsZero(d)
      || (|d| == SizeOf(s) && CutAt(f, d, low) && (f == [] || low == |f| || low == SizeOf(s)))
  {
    hide Word, ConfigOf, StartPuts, RunPuts, RequiredSize, ShouldDoRecovery;
    RequiredSizeHolds(s.target, s.page);
    low := Min(|f|, SizeOf(s));
    if d != f {
      var k: nat :| k <= |StartPuts(f, s.target, s.page)| && d == StartStep(f, s.target, s.page, k);
      if k == 0 {
        StepZero(f, s.target, s.page);
      } else {
        CountGoesFirst(f, s.target, s.page, k);
      }
    }
  }

  /** What a row of crashed start-ups makes of a file: it is as it was, or its count is zero, or
      it is cut at one of the sizes and as long as that or a later one says. */
  lemma {:induction false} ManyCuts(starts: seq<Start>, files: seq<seq<byte>>)
    requires CrashedStarts(starts, files) && (files[0] == [] || HEADER_SIZE <= |files[0]|)
    ensures PagesHoldHeader(starts)
    ensures var f, c := files[0], files[|starts|];
      c == f || CountIsZero(c) || exists low: nat, i: nat, j: nat :: RowCut(f, c, starts, low, i, j)
  {
    hide StartCrash, CountIsZero, RequiredSize, CutAt;
    if starts != [] {
      var n := |starts| - 1;
      var f, s, c, d := files[0], starts[n], files[n], files[n + 1];
      ManyCuts(starts[..n], files[..n + 1]);
      if c == f {
        var low := FirstCut(f, s, d);
        assert d == f || CountIsZero(d) || RowCut(f, d, starts, low, n, n);
      } else if CountIsZero(c) {
        OnlyCount(f, c, s, d);
      } else {
        var low: nat, i: nat, j: nat :| RowCut(f, c, starts[..n], low, i, j);
        StartCrashOfCut(f, c, low, s, d);
        assert d == c ==> RowCut(f, d, starts, low, i, j);
        assert CountIsZero(d) || d == c || RowCut(f, d, starts, low, i, n) || RowCut(f, d, starts, SizeOf(s), n, n);
      }
    }
  }

  lemma OnlyCount(f: seq<byte>, c: seq<byte>, s: Start, d: seq<byte>)
    requires s.page >= HEADER_SIZE && StartCrash(c, s.target, s.page, d) && CountIsZero(c)
    ensures CountIsZero(d)
  {
    hide Word, ConfigOf, StartPuts, RunPuts, RequiredSize, ShouldDoRecovery;
    RequiredSizeHolds(s.target, s.page);
    if d != c {
      var k: nat :| k <= |StartPuts(c, s.target, s.page)| && d == StartStep(c, s.target, s.page, k);
      if k == 0 {
        StepZero(c, s.target, s.page);
        WordFrame(c, d, COUNT_AT);
      } else {
        CountGoesFirst(c, s.target, s.page, k);
      }
    }
  }

  // ---- Nothing is lost in part ----

  /** No start-up of the row asks for less than `end` bytes with a later one that asks for
      `layout` bytes or more. */
  predicate NeverCutThenGrown(starts: seq<Start>, end: nat, layout: nat)
    requires PagesHoldHeader(starts)
  {
    forall i, j :: 0 <= i < j < |starts| && SizeOf(starts[i]) < end ==> SizeOf(starts[j]) < layout
  }

  /** The size of the layout that the header of a file names. */
  function NamedLayout(f: seq<byte>): nat {
    if |f| >= HEADER_SIZE then LayoutSize(FileConfig(f)) else 0
  }

  /** Any number of crashed start-ups leave all the spans or none, as long as none cuts into the
      live slots before another makes room for the layout again. */
  lemma ManyCrashesSafe(starts: seq<Start>, files: seq<seq<byte>>)
    requires CrashedStarts(starts, files) && Whole(files[0]) && Scannable(files[0])
    requires NeverCutThenGrown(starts, LiveEnd(files[0]), NamedLayout(files[0]))
    ensures KeepsAllOrNothing(files[0], files[|starts|])
  {
    hide CountIsZero, Scannable, FileSpans, RequiredSize, CutAt, ShouldDoRecovery, LiveEnd, StartCrash, NamedLayout;
    var f, c := files[0], files[|starts|];
    LiveEndInside(f);
    ManyCuts(starts, files);
    if c == f {
    } else if CountIsZero(c) {
      ZeroCount(c);
    } else {
      var low: nat, i: nat, j: nat :| RowCut(f, c, starts, low, i, j);
      if LiveEnd(f) <= low {
        CutSparesLive(f, c, low);
      } else {
        ShortOfLayout(f, low);
        CutTooShort(f, c, low);
      }
    }
  }

  lemma ShortOfLayout(f: seq<byte>, low: nat)
    requires Whole(f) && Scannable(f) && low < LiveEnd(f)
    ensures |f| >= HEADER_SIZE && NamedLayout(f) == LayoutSize(FileConfig(f)) && low < NamedLayout(f)
  {
    hide Word, ConfigOf, SlotAt, RawOk, Scan;
    var cfg, n := FileConfig(f), Word(f, COUNT_AT);
    if n < cfg.maxSpans { SlotsDisjoint(cfg, n, cfg.maxSpans); }
  }

  // ---- What is left can be read ----

  /** Zeroing the end of a raw span, words whole, keeps it fit to read. */
  lemma ZeroedOk(raw: Raw, r: Raw, d: nat, maxAttributes: nat)
    requires RawOk(raw, maxAttributes) && |r| == |raw| && d % 8 == 0
    requires forall k :: 0 <= k < |raw| ==> r[k] == if k < d then raw[k] else 0
    ensures RawOk(r, maxAttributes)
  {
    hide Word;
    if d <= ATTR_COUNT {
      WordOfZeros(r, ATTR_COUNT);
    } else {
      WordFrame(raw, r, ATTR_COUNT);
    }
    assert r[NAME + NAME_SIZE - 1] == RawName(r)[NAME_SIZE - 1] && raw[NAME + NAME_SIZE - 1] == RawName(raw)[NAME_SIZE - 1];
    forall j | 0 <= j < AttrCount(r) ensures Sealed(RawKey(r, j)) && Sealed(RawValue(r, j)) {
      assert r[KeyAt(j) + KEY_SIZE - 1] == RawKey(r, j)[KEY_SIZE - 1] && raw[KeyAt(j) + KEY_SIZE - 1] == RawKey(raw, j)[KEY_SIZE - 1];
      assert r[ValueAt(j) + VALUE_SIZE - 1] == RawValue(r, j)[VALUE_SIZE - 1] && raw[ValueAt(j) + VALUE_SIZE - 1] == RawValue(raw, j)[VALUE_SIZE - 1];
    }
  }

  lemma {:induction false} ScanHas(slots: seq<Slot>, n: nat, i: nat)
    requires i < n <= |slots| && slots[i].mark != 0
    ensures slots[i].raw in Scan(slots, n)
  {
    if i < n - 1 { ScanHas(slots, n - 1, i); }
  }

  lemma SlotByte(f: seq<byte>, cfg: Config, i: nat, k: nat)
    requires SlotAt(cfg, i) + SlotSize(cfg) <= |f| && k < SlotSize(cfg) - WORD
    ensures |SlotOf(f, cfg, i).raw| == SlotSize(cfg) - WORD && SlotOf(f, cfg, i).raw[k] == f[SlotAt(cfg, i) + WORD + k]
  {
    hide Word, SlotAt;
  }

  /** A slot that still bears its mark after a cut at a word can still be read. */
  lemma CutSlotReads(f: seq<byte>, c: seq<byte>, cfg: Config, i: nat, low: nat)
    requires SlotAt(cfg, i) + SlotSize(cfg) <= |f| && SlotAt(cfg, i) + SlotSize(cfg) <= |c| && CutAt(f, c, low)
    requires f != [] && (low % 8 == 0 || low == |f|) && SlotAt(cfg, i) % 8 == 0
    requires SlotOf(c, cfg, i).mark != 0
    ensures SlotOf(f, cfg, i).mark != 0
    ensures RawOk(SlotOf(f, cfg, i).raw, cfg.maxAttributes) ==> RawOk(SlotOf(c, cfg, i).raw, cfg.maxAttributes)
  {
    hide Word, SlotAt, RawOk, SlotOf;
    var at := SlotAt(cfg, i);
    var before, after := SlotOf(f, cfg, i), SlotOf(c, cfg, i);
    CutMark(f, c, cfg, i, low);
    forall k | 0 <= k < |before.raw| ensures after.raw[k] == if at + WORD + k < low then before.raw[k] else 0 {
      SlotByte(f, cfg, i, k);
      SlotByte(c, cfg, i, k);
    }
    if RawOk(before.raw, cfg.maxAttributes) {
      if at + SlotSize(cfg) <= low {
        assert after.raw == before.raw;
      } else {
        ZeroedOk(before.raw, after.raw, low - at - WORD, cfg.maxAttributes);
      }
    }
  }

  lemma CutMark(f: seq<byte>, c: seq<byte>, cfg: Config, i: nat, low: nat)
    requires SlotAt(cfg, i) + SlotSize(cfg) <= |f| && SlotAt(cfg, i) + SlotSize(cfg) <= |c| && CutAt(f, c, low)
    requires f != [] && (low % 8 == 0 || low == |f|) && SlotAt(cfg, i) % 8 == 0
    requires SlotOf(c, cfg, i).mark != 0
    ensures SlotAt(cfg, i) + WORD <= low && SlotOf(f, cfg, i).mark == SlotOf(c, cfg, i).mark
  {
    hide Word, SlotAt;
    var at := SlotAt(cfg, i);
    if low <= at { WordOfZeros(c, at); }
    WordFrame(f, c, at);
  }

  lemma CutViewReads(f: seq<byte>, c: seq<byte>, cfg: Config, n: nat, low: nat)
    requires LayoutSize(cfg) <= |f| && LayoutSize(cfg) <= |c| && n <= cfg.maxSpans && CutAt(f, c, low)
    requires f != [] && (low % 8 == 0 || low == |f|)
    requires AllOk(Scan(View(f, cfg).slots, n), cfg.maxAttributes)
    ensures AllOk(Scan(View(c, cfg).slots, n), cfg.maxAttributes)
  {
    hide Word, SlotAt, SlotSize, RawOk, Scan, SlotOf;
    var was, now := View(f, cfg).slots, View(c, cfg).slots;
    forall k | 0 <= k < |Scan(now, n)| ensures RawOk(Scan(now, n)[k], cfg.maxAttributes) {
      var r := Scan(now, n)[k];
      ScanMembers(now, n, r);
      var i :| 0 <= i < n && now[i].mark != 0 && now[i].raw == r;
      SlotsDisjoint(cfg, i, cfg.maxSpans);
      SlotsAligned(cfg, i);
      CutSlotReads(f, c, cfg, i, low);
      ScanHas(was, n, i);
    }
  }

  lemma CutStaysScannable(f: seq<byte>, c: seq<byte>, low: nat)
    requires Whole(f) && Scannable(f) && CutAt(f, c, low) && (f == [] || low % 8 == 0 || low == |f|)
    ensures Scannable(c)
  {
    hide Word, ConfigOf, LayoutSize, RawOk, Scan, SlotsUpTo;
    if f == [] {
      WordOfZeros(c, SIGNATURE_AT);
    } else if ShouldDoRecovery(c) {
      SameHeaderWords(f, c);
      WordFrame(f, c, COUNT_AT);
      CutViewReads(f, c, FileConfig(f), Word(f, COUNT_AT), low);
    }
  }

  /** Whatever sizes they ask for, with word-aligned pages any row of crashed start-ups leaves a
      file that recovery can read: counts stay in range and buffers end in a NUL. */
  lemma ManyCrashesReadable(starts: seq<Start>, files: seq<seq<byte>>)
    requires CrashedStarts(starts, files) && Whole(files[0]) && Scannable(files[0])
    requires forall i :: 0 <= i < |starts| ==> starts[i].page % 8 == 0
    ensures Scannable(files[|starts|])
  {
    hide CountIsZero, Scannable, RequiredSize, CutAt, ShouldDoRecovery, StartCrash;
    var f, c := files[0], files[|starts|];
    ManyCuts(starts, files);
    if c == f {
    } else if CountIsZero(c) {
      ZeroCount(c);
    } else {
      var low: nat, i: nat, j: nat :| RowCut(f, c, starts, low, i, j);
      RequiredSizeAligned(starts[i]);
      CutStaysScannable(f, c, low);
    }
  }

  lemma ZeroCount(c: seq<byte>)
    requires CountIsZero(c)
    ensures Scannable(c) && FileSpans(c) == []
  {
    hide Word, FileSpans, Scannable;
    CountZeroIsNothing(c);
  }

  lemma LiveEndInside(f: seq<byte>)
    requires Whole(f) && Scannable(f)
    ensures f == [] ==> LiveEnd(f) == 0
    ensures f != [] ==> HEADER_SIZE <= |f| && LiveEnd(f) <= |f|
  {
    hide Word, ConfigOf, SlotAt, RawOk, Scan;
    if f != [] && ShouldDoRecovery(f) {
      SlotsPrefix(f, FileConfig(f), Word(f, COUNT_AT), FileConfig(f).maxSpans);
    }
  }

  // ---- The condition is exact ----

  /** A file as the store leaves it, with `n` live spans. */
  predicate StoreFile(f: seq<byte>, size: MmapSize, n: nat) {
    var cfg := ConfigOf(size);
    && HEADER_SIZE <= |f| && LayoutSize(cfg) <= |f| && HeaderNames(f, size)
    && n <= cfg.maxSpans && View(f, cfg).count == n
    && Readable(View(f, cfg), cfg)
    && forall i :: 0 <= i < n ==> View(f, cfg).slots[i].mark != 0
  }

  /** The file that is left when one start-up crashes after shrinking it and the next one crashes
      after growing it. */
  function ShrunkThenGrown(f: seq<byte>, small: Start, large: Start): seq<byte>
    requires small.page > 0 && large.page > 0
  {
    Resized(Resized(f, RequiredSize(small.target, small.page)), RequiredSize(large.target, large.page))
  }

  predicate KeepsAllOrNothing(f: seq<byte>, c: seq<byte>) {
    Scannable(f) && Scannable(c) && (FileSpans(c) == FileSpans(f) || FileSpans(c) == [])
  }

  /** A span that fills every attribute value to the brim. */
  function FullSpan(id: u64, maxAttributes: nat): Span {
    Span(0, 0, id, 0, 0, 0, [], seq(maxAttributes, _ => Attribute([65], seq(VALUE_SIZE - 1, _ => 65))))
  }

  function FullSpans(n: nat, maxAttributes: nat): (s: seq<Span>)
    requires n < U64_MAX
    ensures |s| == n && forall k :: 0 <= k < n ==> s[k] == FullSpan(k + 1, maxAttributes)
  {
    if n == 0 then [] else FullSpans(n - 1, maxAttributes) + [FullSpan(n, maxAttributes)]
  }

  /** In a full raw span the last attribute is used, and 127 bytes long. */
  predicate IsFull(raw: Raw, maxAttributes: nat) {
    && maxAttributes > 0 && RawOk(raw, maxAttributes) && AttrCount(raw) == maxAttributes
    && forall j :: 0 <= j < maxAttributes ==> |AttrAt(raw, j).value| == VALUE_SIZE - 1
  }

  lemma FullSpanIsFull(id: u64, maxAttributes: nat)
    requires 0 < maxAttributes < U64_MAX
    ensures IsFull(ToRaw(FullSpan(id, maxAttributes), maxAttributes), maxAttributes)
  {
    hide Word, CString, Truncate, ToRaw, AttrsUpTo;
    var s := FullSpan(id, maxAttributes);
    StoredAttrs(s, maxAttributes);
    var attrs := Attrs(ToRaw(s, maxAttributes), maxAttributes);
    var value: seq<byte> := seq(VALUE_SIZE - 1, _ => 65);
    CleanIffFits(value, VALUE_SIZE);
    forall j | 0 <= j < maxAttributes ensures |attrs[j].value| == VALUE_SIZE - 1 {
      assert s.attributes[j].value == value;
      assert attrs[j] == CleanAttr(s.attributes[j]);
    }
  }

  /** The live slots hold `spans`, in the order they were added. */
  predicate InOrder(img: Image, spans: seq<Span>, cfg: Config)
    requires cfg.Valid()
  {
    && img.count == |spans| <= |img.slots|
    && forall i :: 0 <= i < |spans| ==> img.slots[i] == Slot(i + 1, ToRaw(spans[i], cfg.maxAttributes))
  }

  lemma AddOneInOrder(st: State, spans: seq<Span>, span: Span, cfg: Config)
    requires Inv(st, cfg) && st.marks == |spans| < cfg.maxSpans && InOrder(st.img, spans, cfg)
    requires forall i :: 0 <= i < |spans| ==> spans[i].id != span.id
    ensures var r := Next(st, Add(span), cfg); r.marks == |spans| + 1 && InOrder(r.img, spans + [span], cfg)
  {
    hide RawOk, SpanId, ToRaw, MarksOk, SpansOk, IndexOk, OldestScan, MakeRoom;
    NotYetIndexed(st, spans, span.id, cfg);
    RoomIsThere(st, cfg);
  }

  /** After adding `spans` to an empty store they lie in the first slots, in order. */
  lemma {:induction false} AddedInOrder(st: State, spans: seq<Span>, cfg: Config)
    requires Inv(st, cfg) && st.marks == 0 && st.img.count == 0 && |spans| <= cfg.maxSpans
    requires forall i, j :: 0 <= i < j < |spans| ==> spans[i].id != spans[j].id
    requires forall i :: 0 <= i < |spans| ==> spans[i].id != 0
    ensures FairOps(Adds(spans))
    ensures Run(st, Adds(spans), cfg).marks == |spans| && InOrder(Run(st, Adds(spans), cfg).img, spans, cfg)
  {
    hide Inv, InOrder, Next, Run, Adds, IdsNonZero, AddCount;
    ValidConfig(st, cfg);
    AddsAreAllowed(spans);
    if spans == [] {
      NothingInOrder(st, cfg);
      RunNothing(st, cfg);
    } else {
      var n := |spans| - 1;
      var front := spans[..n];
      AddedInOrder(st, front, cfg);
      AddsAreAllowed(front);
      assert front + [spans[n]] == spans;
      RunOneMore(st, front, spans[n], cfg);
      AddOneInOrder(Run(st, Adds(front), cfg), front, spans[n], cfg);
    }
  }

  lemma RunNothing(st: State, cfg: Config)
    requires Inv(st, cfg)
    ensures Adds([]) == [] && IdsNonZero([]) && AddCount([]) == 0 && Run(st, [], cfg) == st
  {
    hide Inv;
  }

  lemma RunOneMore(st: State, front: seq<Span>, span: Span, cfg: Config)
    requires Inv(st, cfg) && IdsNonZero(Adds(front)) && st.marks + AddCount(Adds(front)) < U64_MAX
    requires IdsNonZero(Adds(front + [span])) && st.marks + AddCount(Adds(front + [span])) < U64_MAX
    ensures Run(st, Adds(front + [span]), cfg) == Next(Run(st, Adds(front), cfg), Add(span), cfg)
  {
    hide Inv, Next, IdsNonZero, AddCount;
    var ops := Adds(front + [span]);
    assert ops[..|ops| - 1] == Adds(front);
  }

  lemma ValidConfig(st: State, cfg: Config)
    requires Inv(st, cfg)
    ensures cfg.Valid()
  {
  }

  lemma NothingInOrder(st: State, cfg: Config)
    requires Inv(st, cfg) && st.img.count == 0
    ensures InOrder(st.img, [], cfg)
  {
  }

  lemma RoomIsThere(st: State, cfg: Config)
    requires Inv(st, cfg) && st.img.count < cfg.maxSpans
    ensures MakeRoom(st, cfg) == st
  {
  }

  lemma NotYetIndexed(st: State, spans: seq<Span>, id: u64, cfg: Config)
    requires Inv(st, cfg) && st.img.count == |spans|
    requires forall i :: 0 <= i < |spans| ==> st.img.slots[i].raw == ToRaw(spans[i], cfg.maxAttributes) && spans[i].id != id
    ensures id !in st.index
  {
    hide RawOk, SpanId, ToRaw;
    if id in st.index {
      var i := st.index[id];
      IndexInRange(st, cfg, id);
      ToRawHasId(spans[i], cfg.maxAttributes);
    }
  }

  /** For every size and number of spans the store can leave a file whose last span is full. */
  lemma FullFileExists(size: MmapSize, n: nat) returns (f: seq<byte>)
    requires 0 < n <= ConfigOf(size).maxSpans
    ensures StoreFile(f, size, n) && IsFull(View(f, ConfigOf(size)).slots[n - 1].raw, ConfigOf(size).maxAttributes)
  {
    hide ConfigOf, LayoutSize, IsFull, ToRaw, View, HeaderNames, Readable;
    var cfg := ConfigOf(size);
    var spans := FullSpans(n, cfg.maxAttributes);
    FullIds(spans, cfg.maxAttributes);
    f := FileOfAdds(size, spans);
    FullSpanIsFull(n, cfg.maxAttributes);
    assert spans[n - 1] == FullSpan(n, cfg.maxAttributes);
  }

  lemma FileOfAdds(size: MmapSize, spans: seq<Span>) returns (f: seq<byte>)
    requires |spans| <= ConfigOf(size).maxSpans
    requires forall i, j :: 0 <= i < j < |spans| ==> spans[i].id != spans[j].id
    requires forall i :: 0 <= i < |spans| ==> spans[i].id != 0
    ensures StoreFile(f, size, |spans|) && InOrder(View(f, ConfigOf(size)), spans, ConfigOf(size))
  {
    hide ConfigOf, LayoutSize, RequiredSize, ToRaw, View, Inv, Run, Readable, Recover, Scannable, Whole, QueueRun, OrderRun, FileAfter, FileSpans, Recovered, HeaderNames, AllOk, DecodeAll, Adds, FairOps;
    FirstIsEmpty([], size, 4096);
    AddedInOrder(FirstState([], size, 4096), spans, ConfigOf(size));
    f := FileAfter([], size, 4096, Adds(spans));
    SessionIsRecovered([], size, 4096, Adds(spans), 4096);
  }

  lemma FirstIsEmpty(f: seq<byte>, target: MmapSize, page: nat)
    requires page >= HEADER_SIZE
    ensures FirstState(f, target, page).img.count == 0
  {
    hide ConfigOf, LayoutSize, View, StartFile;
    StartUpIsFresh(f, target, page);
  }

  lemma FullIds(spans: seq<Span>, maxAttributes: nat)
    requires |spans| < U64_MAX && forall k :: 0 <= k < |spans| ==> spans[k] == FullSpan(k + 1, maxAttributes)
    ensures forall i, j :: 0 <= i < j < |spans| ==> spans[i].id != spans[j].id
    ensures forall i :: 0 <= i < |spans| ==> spans[i].id != 0
  {
  }

  lemma {:induction false} VisibleShort(attrs: seq<Attribute>)
    ensures |Visible(attrs)| == |attrs| ==> Visible(attrs) == attrs
  {
    hide Visible;
    if attrs == [] {
      NothingVisible([]);
    } else {
      var front, last := attrs[..|attrs| - 1], attrs[|attrs| - 1];
      assert attrs == front + [last];
      VisibleShort(front);
      VisibleConcat(front, last);
    }
  }

  lemma CStringStops(b: seq<byte>, i: nat)
    requires i < |b| && b[i] == 0
    ensures |CString(b)| <= i
  {
    var c := CString(b);
    assert forall k :: 0 <= k < |c| ==> c[k] == b[k] && c[k] in c;
  }

  /** `r` is `raw` with everything from `d` on zeroed, a word at least. */
  predicate ZeroedFrom(raw: Raw, r: Raw, d: nat) {
    && |r| == |raw| && d % 8 == 0 && d + 8 <= |raw|
    && forall k :: 0 <= k < |raw| ==> r[k] == if k < d then raw[k] else 0
  }

  /** Zeroing the last word of a full span changes what is read of it. */
  lemma CutFullSpanDiffers(raw: Raw, r: Raw, d: nat, maxAttributes: nat)
    requires IsFull(raw, maxAttributes) && RawOk(r, maxAttributes) && ZeroedFrom(raw, r, d)
    ensures FromRaw(r, maxAttributes) != FromRaw(raw, maxAttributes)
  {
    hide Word, CString, AttrsUpTo, Visible;
    if d <= ATTR_COUNT {
      WordOfZeros(r, ATTR_COUNT);
    } else {
      WordFrame(raw, r, ATTR_COUNT);
      CStringStops(RawValue(r, maxAttributes - 1), VALUE_SIZE - 8);
    }
    var before, after := Attrs(raw, maxAttributes), Attrs(r, maxAttributes);
    forall a | a in before ensures a.value != [] {
      var j :| 0 <= j < |before| && before[j] == a;
      assert before[j] == AttrAt(raw, j);
    }
    VisibleAll(before);
    VisibleShort(after);
    var last := maxAttributes - 1;
    assert before[last] == AttrAt(raw, last);
    if |after| > 0 {
      assert after[last] == AttrAt(r, last);
    }
  }

  lemma StoreFileReads(f: seq<byte>, size: MmapSize, n: nat)
    requires StoreFile(f, size, n)
    ensures Whole(f) && Scannable(f) && FileSpans(f) == Recovered(View(f, ConfigOf(size)), ConfigOf(size))
    ensures |FileSpans(f)| == n
    ensures n > 0 ==> LiveEnd(f) == SlotAt(ConfigOf(size), n) <= |f|
  {
    hide ConfigOf, Word, RawOk, SlotsUpTo, Scan, SlotAt;
    var cfg := ConfigOf(size);
    ReadBack(f, size);
    ScanAllMarked(View(f, cfg).slots, n);
    SizeOfCodeInvertsCode(size, 0);
    SlotsPrefix(f, cfg, n, cfg.maxSpans);
  }

  lemma ScanNonEmpty(slots: seq<Slot>, n: nat)
    requires 0 < n <= |slots| && slots[0].mark != 0
    ensures Scan(slots, n) != []
  {
    if n > 1 { ScanNonEmpty(slots, n - 1); }
  }

  /** The mark of a slot, or the end of its span, is gone. */
  ghost predicate IsCut(before: Slot, after: Slot) {
    after.mark == 0 || exists d: nat :: ZeroedFrom(before.raw, after.raw, d)
  }

  lemma WordsFit(low: nat, at: nat, size: nat)
    requires low % 8 == 0 && at % 8 == 0 && size % 8 == 0 && at + WORD <= low < at + size
    ensures (low - at - WORD) % 8 == 0 && low + WORD <= at + size
  {
  }

  lemma CutInsideSlot(f: seq<byte>, c: seq<byte>, cfg: Config, i: nat, low: nat)
    requires SlotAt(cfg, i) + SlotSize(cfg) <= |f| && SlotAt(cfg, i) + SlotSize(cfg) <= |c| && CutAt(f, c, low)
    requires low % 8 == 0 && SlotAt(cfg, i) % 8 == 0 && SlotSize(cfg) % 8 == 0
    requires SlotAt(cfg, i) + WORD <= low < SlotAt(cfg, i) + SlotSize(cfg)
    ensures IsCut(SlotOf(f, cfg, i), SlotOf(c, cfg, i))
  {
    hide Word, SlotAt, SlotSize, SlotOf, ZeroedFrom;
    var at := SlotAt(cfg, i);
    var before, after, d := SlotOf(f, cfg, i), SlotOf(c, cfg, i), low - at - WORD;
    WordsFit(low, at, SlotSize(cfg));
    SlotByte(f, cfg, i, 0);
    SlotByte(c, cfg, i, 0);
    forall k | 0 <= k < |before.raw| ensures after.raw[k] == if k < d then before.raw[k] else 0 {
      SlotByte(f, cfg, i, k);
      SlotByte(c, cfg, i, k);
    }
    IsZeroedFrom(before.raw, after.raw, d);
  }

  lemma IsZeroedFrom(raw: Raw, r: Raw, d: nat)
    requires |r| == |raw| && d % 8 == 0 && d + 8 <= |raw|
    requires forall k :: 0 <= k < |raw| ==> r[k] == if k < d then raw[k] else 0
    ensures ZeroedFrom(raw, r, d)
  {
  }

  /** With the last live slot cut, its mark or the end of its span is gone. */
  lemma CutSlot(f: seq<byte>, c: seq<byte>, cfg: Config, n: nat, low: nat)
    requires 0 < n <= cfg.maxSpans && LayoutSize(cfg) <= |f| && LayoutSize(cfg) <= |c| && CutAt(f, c, low)
    requires low % 8 == 0 && low < SlotAt(cfg, n)
    ensures IsCut(View(f, cfg).slots[n - 1], View(c, cfg).slots[n - 1])
  {
    hide Word, SlotAt, SlotSize, IsCut, ZeroedFrom;
    var at := SlotAt(cfg, n - 1);
    SlotsAligned(cfg, n - 1);
    SlotEnd(cfg, n);
    SlotsDisjoint(cfg, n - 1, cfg.maxSpans);
    if low <= at {
      MarkIsCut(f, c, cfg, n - 1, low);
    } else {
      CutInsideSlot(f, c, cfg, n - 1, low);
    }
  }

  lemma MarkIsCut(f: seq<byte>, c: seq<byte>, cfg: Config, i: nat, low: nat)
    requires SlotAt(cfg, i) + SlotSize(cfg) <= |f| && SlotAt(cfg, i) + SlotSize(cfg) <= |c| && CutAt(f, c, low)
    requires low <= SlotAt(cfg, i)
    ensures IsCut(SlotOf(f, cfg, i), SlotOf(c, cfg, i))
  {
    hide Word, SlotAt;
    WordOfZeros(c, SlotAt(cfg, i));
  }

  lemma SlotEnd(cfg: Config, n: nat)
    requires n > 0
    ensures SlotAt(cfg, n) == SlotAt(cfg, n - 1) + SlotSize(cfg)
  {
    hide SlotSize;
    assert n * SlotSize(cfg) == (n - 1) * SlotSize(cfg) + SlotSize(cfg);
  }

  /** A cut into the live slots of a file whose last span is full is seen by recovery. */
  lemma CutIsSeen(f: seq<byte>, c: seq<byte>, size: MmapSize, n: nat, low: nat)
    requires n > 0 && StoreFile(f, size, n) && LayoutSize(ConfigOf(size)) <= |c|
    requires IsFull(View(f, ConfigOf(size)).slots[n - 1].raw, ConfigOf(size).maxAttributes)
    requires CutAt(f, c, low) && low % 8 == 0 && HEADER_SIZE + WORD <= low < SlotAt(ConfigOf(size), n)
    ensures !KeepsAllOrNothing(f, c)
  {
    hide ConfigOf, Word, RawOk, SlotsUpTo, SlotOf, SlotAt, FromRaw, Scan, DecodeAll, CutAt, IsFull, FileSpans, LayoutSize, IsCut, StoreFile;
    if KeepsAllOrNothing(f, c) {
      var cfg := ConfigOf(size);
      StoreFileReads(f, size, n);
      StoreFileSlots(f, size, n);
      CutHeader(f, c, size, n, low);
      CutFirstMark(f, c, size, n, low);
      var before, after := View(f, cfg).slots, View(c, cfg).slots;
      ScanNonEmpty(after, n);
      CutSlot(f, c, cfg, n, low);
      CutScan(before, after, n, cfg.maxAttributes, FileSpans(f), FileSpans(c));
    }
  }

  lemma StoreFileSlots(f: seq<byte>, size: MmapSize, n: nat)
    requires StoreFile(f, size, n)
    ensures LayoutSize(ConfigOf(size)) <= |f| && n <= |View(f, ConfigOf(size)).slots| == ConfigOf(size).maxSpans
    ensures View(f, ConfigOf(size)).count == n && Readable(View(f, ConfigOf(size)), ConfigOf(size))
    ensures forall i :: 0 <= i < n ==> View(f, ConfigOf(size)).slots[i].mark != 0
  {
  }

  /** The scan of the cut slots does not decode to the same spans. */
  lemma {:induction false} CutScan(before: seq<Slot>, after: seq<Slot>, n: nat, maxAttributes: nat, was: seq<Span>, now: seq<Span>)
    requires 0 < n <= |before| && n <= |after| && forall i :: 0 <= i < n ==> before[i].mark != 0
    requires AllOk(Scan(before, n), maxAttributes) && was == DecodeAll(Scan(before, n), maxAttributes)
    requires AllOk(Scan(after, n), maxAttributes) && now == DecodeAll(Scan(after, n), maxAttributes)
    requires IsFull(before[n - 1].raw, maxAttributes)
    requires IsCut(before[n - 1], after[n - 1])
    ensures was != now
  {
    hide RawOk, FromRaw, DecodeAll, IsFull;
    ScanAllMarked(before, n);
    if after[n - 1].mark == 0 {
      assert |Scan(after, n)| < n;
    } else {
      var m := |Scan(after, n)| - 1;
      assert Scan(after, n)[m] == after[n - 1].raw;
      DecodedAt(Scan(after, n), maxAttributes, m);
      DecodedAt(Scan(before, n), maxAttributes, n - 1);
      var d: nat :| ZeroedFrom(before[n - 1].raw, after[n - 1].raw, d);
      CutFullSpanDiffers(before[n - 1].raw, after[n - 1].raw, d, maxAttributes);
    }
  }

  /** The header is before the cut, so recovery does look at the slots. */
  lemma CutHeader(f: seq<byte>, c: seq<byte>, size: MmapSize, n: nat, low: nat)
    requires n > 0 && StoreFile(f, size, n) && LayoutSize(ConfigOf(size)) <= |c| && Scannable(c)
    requires CutAt(f, c, low) && HEADER_SIZE <= low
    ensures View(c, ConfigOf(size)).count == n
    ensures Readable(View(c, ConfigOf(size)), ConfigOf(size))
    ensures FileSpans(c) == Recovered(View(c, ConfigOf(size)), ConfigOf(size))
  {
    hide ConfigOf, Word, AllOk, Scan, DecodeAll, SlotAt, LayoutSize, SlotsUpTo;
    SameHeaderWords(f, c);
    WordFrame(f, c, COUNT_AT);
    SizeOfCodeInvertsCode(size, 0);
  }

  lemma CutFirstMark(f: seq<byte>, c: seq<byte>, size: MmapSize, n: nat, low: nat)
    requires n > 0 && StoreFile(f, size, n) && LayoutSize(ConfigOf(size)) <= |c|
    requires CutAt(f, c, low) && HEADER_SIZE + WORD <= low
    ensures |View(c, ConfigOf(size)).slots| >= n && View(c, ConfigOf(size)).slots[0].mark != 0
  {
    hide ConfigOf, Word, RawOk, Scan, SlotAt;
    var cfg := ConfigOf(size);
    FirstSlot(cfg);
    SlotsDisjoint(cfg, 0, cfg.maxSpans);
    WordFrame(f, c, SlotAt(cfg, 0));
    StoreFileSlots(f, size, n);
  }

  lemma FirstSlot(cfg: Config)
    ensures SlotAt(cfg, 0) == HEADER_SIZE
  {
  }

  /** The file is one that two crashed start-ups can leave. */
  lemma ShrunkThenGrownIsReached(f: seq<byte>, size: MmapSize, n: nat, small: Start, large: Start)
    requires n > 0 && StoreFile(f, size, n) && small.page >= HEADER_SIZE && large.page >= HEADER_SIZE
    requires RequiredSize(small.target, small.page) < LayoutSize(ConfigOf(size))
    ensures CrashedStarts([small, large], [f, Resized(f, RequiredSize(small.target, small.page)), ShrunkThenGrown(f, small, large)])
    ensures CutAt(f, ShrunkThenGrown(f, small, large), Min(RequiredSize(small.target, small.page), RequiredSize(large.target, large.page)))
  {
    hide ConfigOf, Word, RequiredSize, LayoutSize, StoreFile, Reuses, StartCrash;
    RequiredSizeHolds(small.target, small.page);
    RequiredSizeHolds(large.target, large.page);
    NeverReused(f, size, n, small, large);
    FirstStep(f, small);
    FirstStep(Resized(f, RequiredSize(small.target, small.page)), large);
    StoreFileSlots(f, size, n);
  }

  lemma NeverReused(f: seq<byte>, size: MmapSize, n: nat, small: Start, large: Start)
    requires n > 0 && StoreFile(f, size, n) && small.page >= HEADER_SIZE && large.page >= HEADER_SIZE
    requires RequiredSize(small.target, small.page) < LayoutSize(ConfigOf(size))
    ensures !Reuses(f, small.target, small.page)
    ensures !Reuses(Resized(f, RequiredSize(small.target, small.page)), large.target, large.page)
  {
    hide ConfigOf, Word, RequiredSize, LayoutSize, View, Readable;
    RequiredSizeHolds(small.target, small.page);
    var c1 := Resized(f, RequiredSize(small.target, small.page));
    SameHeaderWords(f, c1);
    SizeOfCodeInvertsCode(size, 0);
  }

  lemma FirstStep(f: seq<byte>, s: Start)
    requires s.page >= HEADER_SIZE
    ensures StartCrash(f, s.target, s.page, StartBase(f, s.target, s.page))
  {
    hide StartPuts, StartBase, Reuses;
    StepZero(f, s.target, s.page);
    assert StartBase(f, s.target, s.page) == StartStep(f, s.target, s.page, 0);
  }

  /** A row in which one start-up cuts into the live slots of a full file and a later one grows
      it again can lose spans in part. */
  lemma CutThenGrownLoses(size: MmapSize, n: nat, starts: seq<Start>, i: nat, j: nat) returns (files: seq<seq<byte>>)
    requires n <= ConfigOf(size).maxSpans && AlignedPages(starts) && i < j < |starts|
    requires SizeOf(starts[i]) < SlotAt(ConfigOf(size), n) && LayoutSize(ConfigOf(size)) <= SizeOf(starts[j])
    ensures CrashedStarts(starts, files) && StoreFile(files[0], size, n) && !KeepsAllOrNothing(files[0], files[|starts|])
  {
    hide ConfigOf, RequiredSize, LayoutSize, SlotAt, StoreFile, KeepsAllOrNothing, ShrunkThenGrown, IsFull, View, StartCrash, CutAt;
    var cfg, small, large := ConfigOf(size), starts[i], starts[j];
    RequiredSizeHoldsMark(small);
    SomeAreLive(cfg, n, SizeOf(small));
    var f := FullFileExists(size, n);
    files := RowOf(f, starts, i, j);
    LiveInsideLayout(cfg, n);
    ShrunkThenGrownIsReached(f, size, n, small, large);
    RowIsReached(f, starts, i, j);
    RequiredSizeAligned(small);
    GrownSize(f, small, large);
    CutIsSeen(f, ShrunkThenGrown(f, small, large), size, n, SizeOf(small));
  }

  lemma SomeAreLive(cfg: Config, n: nat, low: nat)
    requires HEADER_SIZE <= low < SlotAt(cfg, n)
    ensures n > 0
  {
  }

  lemma LiveInsideLayout(cfg: Config, n: nat)
    requires n <= cfg.maxSpans
    ensures SlotAt(cfg, n) <= LayoutSize(cfg)
  {
    hide SlotSize;
    if n < cfg.maxSpans { SlotsDisjoint(cfg, n, cfg.maxSpans); }
  }

  /** Every start-up crashes before it does anything, but the `i`-th and the `j`-th, which crash
      once the file has its size. */
  function RowOf(f: seq<byte>, starts: seq<Start>, i: nat, j: nat): (files: seq<seq<byte>>)
    requires PagesHoldHeader(starts) && i < j < |starts|
    ensures |files| == |starts| + 1
  {
    seq(|starts| + 1, k =>
      if k <= i then f
      else if k <= j then Resized(f, SizeOf(starts[i]))
      else ShrunkThenGrown(f, starts[i], starts[j]))
  }

  lemma RowIsReached(f: seq<byte>, starts: seq<Start>, i: nat, j: nat)
    requires PagesHoldHeader(starts) && i < j < |starts|
    requires CrashedStarts([starts[i], starts[j]],
      [f, Resized(f, SizeOf(starts[i])), ShrunkThenGrown(f, starts[i], starts[j])])
    ensures CrashedStarts(starts, RowOf(f, starts, i, j))
  {
    hide RequiredSize, ShrunkThenGrown, StartCrash;
    var two := [f, Resized(f, SizeOf(starts[i])), ShrunkThenGrown(f, starts[i], starts[j])];
    assert StartCrash(two[0], starts[i].target, starts[i].page, two[1]);
    assert StartCrash(two[1], starts[j].target, starts[j].page, two[2]);
    var files := RowOf(f, starts, i, j);
    forall k | 0 <= k < |starts| ensures StartCrash(files[k], starts[k].target, starts[k].page, files[k + 1]) {
      if k != i && k != j { NothingDone(files[k], starts[k]); }
    }
  }

  lemma NothingDone(f: seq<byte>, s: Start)
    requires s.page >= HEADER_SIZE
    ensures StartCrash(f, s.target, s.page, f)
  {
  }

  predicate AlignedPages(starts: seq<Start>) {
    PagesHoldHeader(starts) && forall i :: 0 <= i < |starts| ==> starts[i].page % 8 == 0
  }

  /** The spans of all files with `n` live spans, and of all ways to crash. */
  ghost predicate AlwaysAllOrNothing(size: MmapSize, n: nat, starts: seq<Start>) {
    forall files :: CrashedStarts(starts, files) && StoreFile(files[0], size, n) ==> KeepsAllOrNothing(files[0], files[|starts|])
  }

  /** When does a row of start-ups that all crash stay harmless? For any row with word-aligned
      pages, exactly when none asks for a size that cuts into the `n` live slots while a later
      one asks for a size that holds the layout. */
  lemma ManyCrashesExact(size: MmapSize, n: nat, starts: seq<Start>)
    requires n <= ConfigOf(size).maxSpans && AlignedPages(starts)
    ensures AlwaysAllOrNothing(size, n, starts)
      <==> NeverCutThenGrown(starts, SlotAt(ConfigOf(size), n), LayoutSize(ConfigOf(size)))
  {
    hide ConfigOf, RequiredSize, LayoutSize, SlotAt, StoreFile, KeepsAllOrNothing, StartCrash;
    var cfg := ConfigOf(size);
    if NeverCutThenGrown(starts, SlotAt(cfg, n), LayoutSize(cfg)) {
      forall files | CrashedStarts(starts, files) && StoreFile(files[0], size, n)
        ensures KeepsAllOrNothing(files[0], files[|starts|])
      {
        StoreFileEnd(files[0], size, n);
        ManyCrashesSafe(starts, files);
      }
    } else {
      var i, j :| 0 <= i < j < |starts| && SizeOf(starts[i]) < SlotAt(cfg, n) && LayoutSize(cfg) <= SizeOf(starts[j]);
      var files := CutThenGrownLoses(size, n, starts, i, j);
    }
  }

  lemma StoreFileEnd(f: seq<byte>, size: MmapSize, n: nat)
    requires StoreFile(f, size, n)
    ensures Whole(f) && Scannable(f)
    ensures NamedLayout(f) == LayoutSize(ConfigOf(size)) && LiveEnd(f) <= SlotAt(ConfigOf(size), n)
  {
    hide ConfigOf, Word, LayoutSize, SlotAt, FileSpans, Recovered, Readable, SlotsUpTo;
    StoreFileReads(f, size, n);
    SizeOfCodeInvertsCode(size, 0);
  }

  /** For instance: 17 spans in a large file, a start-up for the small layout that crashes, and
      one for the large layout that crashes, with pages of 4096 bytes. */
  lemma SmallThenLargeLoses() returns (files: seq<seq<byte>>)
    ensures CrashedStarts([Start(Small, 4096), Start(Large, 4096)], files)
    ensures StoreFile(files[0], Large, 17) && !KeepsAllOrNothing(files[0], files[2])
  {
    hide StoreFile, KeepsAllOrNothing, CrashedStarts;
    var starts := [Start(Small, 4096), Start(Large, 4096)];
    assert SizeOf(starts[0]) == 413696 && SlotAt(ConfigOf(Large), 17) == 420000;
    RequiredSizeHolds(Large, 4096);
    files := CutThenGrownLoses(Large, 17, starts, 0, 1);
  }

  lemma GrownSize(f: seq<byte>, small: Start, large: Start)
    requires small.page > 0 && large.page > 0
    ensures |ShrunkThenGrown(f, small, large)| == RequiredSize(large.target, large.page)
  {
  }

  lemma RequiredSizeAligned(s: Start)
    requires s.page > 0 && s.page % 8 == 0
    ensures RequiredSize(s.target, s.page) % 8 == 0
  {
    hide ConfigOf, LayoutSize;
    AlignedSizeIsLeast(LayoutSize(ConfigOf(s.target)), s.page);
    var q: nat :| AlignedSize(LayoutSize(ConfigOf(s.target)), s.page) == q * s.page;
    var p := s.page / 8;
    assert q * (8 * p) == 8 * (q * p);
  }

  lemma RequiredSizeHoldsMark(s: Start)
    requires s.page > 0
    ensures HEADER_SIZE + WORD <= RequiredSize(s.target, s.page)
  {
    hide ConfigOf, SlotAt, RequiredSize;
    var cfg := ConfigOf(s.target);
    RequiredSizeHolds(s.target, s.page);
    FirstSlot(cfg);
    SlotsDisjoint(cfg, 0, cfg.maxSpans);
  }
}
