/** Whole sessions on one file: start-up, a run of calls, the end or a crash, and what the next
    start-up recovers. */
module Sessions {
  import opened Bytes
  import opened CopyString
  import opened Codec
  import opened Layout
  import opened SlotQueue
  import opened SpanStore
  import opened Crash
  import opened Startup
  import opened SpanQueue
  import opened SlotOrder
  import opened SpanCrash

  /** What the store asks of a session: ids are not zero and the mark counter does not wrap. */
  predicate FairOps(ops: seq<Op>) {
    IdsNonZero(ops) && AddCount(ops) < U64_MAX
  }

  /** A call that may follow the calls `ops`. */
  predicate FairCall(ops: seq<Op>, op: Op) {
    op.Add? ==> op.span.id != 0 && AddCount(ops) + 1 < U64_MAX
  }

  predicate FairSession(page: nat, ops: seq<Op>) {
    page >= HEADER_SIZE && FairOps(ops)
  }

  /** The state a session begins in, whatever file it found. */
  ghost function FirstState(f: seq<byte>, target: MmapSize, page: nat): (st: State)
    requires page >= HEADER_SIZE
    ensures Inv(st, ConfigOf(target)) && st.marks == 0 && QueueOf(st) == []
  {
    StartUpIsFresh(f, target, page);
    EmptyStateIsOk(View(StartFile(f, target, page), ConfigOf(target)), ConfigOf(target));
    StartState(StartFile(f, target, page), ConfigOf(target))
  }

  ghost function StateAfter(f: seq<byte>, target: MmapSize, page: nat, ops: seq<Op>): (st: State)
    requires FairSession(page, ops)
    ensures Inv(st, ConfigOf(target)) && st.marks <= AddCount(ops)
  {
    Run(FirstState(f, target, page), ops, ConfigOf(target))
  }

  /** The file after the calls `ops`: every store of every call, at its address. */
  ghost function FileAfter(f: seq<byte>, target: MmapSize, page: nat, ops: seq<Op>): (g: seq<byte>)
    requires FairSession(page, ops)
    ensures |g| == RequiredSize(target, page)
    ensures LayoutSize(ConfigOf(target)) <= |g| && View(g, ConfigOf(target)) == StateAfter(f, target, page, ops).img
    ensures HEADER_SIZE <= |g| && HeaderNames(g, target)
  {
    hide ConfigOf, LayoutSize, RequiredSize, View, Word, Inv, Next, OpStores, RunPuts, HeaderNames, StartFile;
    StartUpIsFresh(f, target, page);
    if ops == [] then StartFile(f, target, page)
    else
      var front, op := ops[..|ops| - 1], ops[|ops| - 1];
      FairFront(ops);
      StoresOnFile(FileAfter(f, target, page, front), StateAfter(f, target, page, front), op, target);
      RunPuts(FileAfter(f, target, page, front), CallPuts(StateAfter(f, target, page, front), op, target))
  }

  lemma FairFront(ops: seq<Op>)
    requires FairOps(ops) && ops != []
    ensures FairOps(ops[..|ops| - 1]) && FairCall(ops[..|ops| - 1], ops[|ops| - 1])
  {
  }

  ghost function CallPuts(st: State, op: Op, target: MmapSize): seq<Put>
    requires Inv(st, ConfigOf(target)) && CanStep(st, op)
  {
    PutsOf(OpStores(st, op, ConfigOf(target)), ConfigOf(target))
  }

  /** The stores of a call on the file, in full or cut by a crash. */
  lemma StoresOnFile(g: seq<byte>, st: State, op: Op, target: MmapSize)
    requires LayoutSize(ConfigOf(target)) <= |g| && Inv(st, ConfigOf(target)) && CanStep(st, op)
    requires View(g, ConfigOf(target)) == st.img
    ensures AllFit(CallPuts(st, op, target), |g|)
    ensures View(RunPuts(g, CallPuts(st, op, target)), ConfigOf(target)) == Next(st, op, ConfigOf(target)).img
    ensures HEADER_SIZE <= |g|
    ensures HeaderNames(g, target) ==> HeaderNames(RunPuts(g, CallPuts(st, op, target)), target)
  {
    hide ConfigOf, LayoutSize, View, Word, Inv, Next, OpStores, RunPuts, PutsOf;
    var cfg := ConfigOf(target);
    OpStoresRun(st, op, cfg);
    var ss := OpStores(st, op, cfg);
    RunPutsIsRunStores(g, ss, cfg);
    LayoutHoldsHeader(cfg);
    PutsOfLength(ss, cfg);
    forall k | 0 <= k < COUNT_AT ensures RunPuts(g, PutsOf(ss, cfg))[k] == g[k] {
      HeaderUntouched(g, ss, cfg, |ss|, [], k);
      assert PutsOf(ss, cfg)[..|ss|] == PutsOf(ss, cfg);
    }
    SameHeaderWords(g, RunPuts(g, PutsOf(ss, cfg)));
  }

  lemma PutsOfLength(ss: seq<Store>, cfg: Config)
    ensures |PutsOf(ss, cfg)| == |ss|
  {
  }

  // ---- Reading a file back ----

  lemma ReadBack(g: seq<byte>, target: MmapSize)
    requires HEADER_SIZE <= |g| && LayoutSize(ConfigOf(target)) <= |g| && HeaderNames(g, target)
    requires Readable(View(g, ConfigOf(target)), ConfigOf(target))
    ensures Whole(g) && Scannable(g) && FileSpans(g) == Recovered(View(g, ConfigOf(target)), ConfigOf(target))
  {
    hide ConfigOf, LayoutSize, Word, SlotsUpTo, RawOk;
    SizeOfCodeInvertsCode(target, 0);
  }

  lemma {:induction false} DecodeSplit(a: seq<Raw>, b: seq<Raw>, maxAttributes: nat)
    requires AllOk(a, maxAttributes) && AllOk(b, maxAttributes)
    ensures AllOk(a + b, maxAttributes)
    ensures DecodeAll(a + b, maxAttributes) == DecodeAll(a, maxAttributes) + DecodeAll(b, maxAttributes)
  {
    hide RawOk, FromRaw;
    if b == [] {
      assert a + b == a;
    } else {
      DecodeSplit(a, b[..|b| - 1], maxAttributes);
      assert (a + b)[..|a + b| - 1] == a + b[..|b| - 1];
    }
  }

  lemma MoveToFront(b: seq<Raw>, k: nat, maxAttributes: nat)
    requires AllOk(b, maxAttributes) && k < |b|
    ensures AllOk(b[..k] + b[k + 1..], maxAttributes) && RawOk(b[k], maxAttributes)
    ensures multiset(b) == multiset(b[..k] + b[k + 1..]) + multiset{b[k]}
    ensures multiset(DecodeAll(b, maxAttributes))
         == multiset(DecodeAll(b[..k] + b[k + 1..], maxAttributes)) + multiset{FromRaw(b[k], maxAttributes)}
  {
    hide RawOk, FromRaw;
    var lo, mid, hi := b[..k], [b[k]], b[k + 1..];
    assert b == lo + mid + hi;
    DecodeSplit(lo, mid, maxAttributes);
    DecodeSplit(lo + mid, hi, maxAttributes);
    DecodeSplit(lo, hi, maxAttributes);
    assert mid[..0] == [];
  }

  /** The same spans in another order decode to the same spans in another order. */
  lemma {:induction false} DecodeMultiset(a: seq<Raw>, b: seq<Raw>, maxAttributes: nat)
    requires AllOk(a, maxAttributes) && AllOk(b, maxAttributes) && multiset(a) == multiset(b)
    ensures multiset(DecodeAll(a, maxAttributes)) == multiset(DecodeAll(b, maxAttributes))
  {
    hide RawOk, FromRaw, DecodeAll;
    if a == [] {
      assert |multiset(b)| == |b|;
      assert b == [];
    } else {
      var front, last := a[..|a| - 1], a[|a| - 1];
      assert last in multiset(b);
      var k :| 0 <= k < |b| && b[k] == last;
      MoveToFront(a, |a| - 1, maxAttributes);
      MoveToFront(b, k, maxAttributes);
      assert a[..|a| - 1] + a[|a|..] == front;
      Cancel(multiset(front), multiset(b[..k] + b[k + 1..]), last);
      DecodeMultiset(front, b[..k] + b[k + 1..], maxAttributes);
    }
  }

  lemma SameMembersOk(a: seq<Raw>, b: seq<Raw>, maxAttributes: nat)
    requires AllOk(b, maxAttributes) && multiset(a) == multiset(b)
    ensures AllOk(a, maxAttributes)
  {
    hide RawOk;
    forall k | 0 <= k < |a| ensures RawOk(a[k], maxAttributes) {
      assert a[k] in multiset(b);
    }
  }

  lemma QueueAllOk(st: State, cfg: Config)
    requires Inv(st, cfg)
    ensures AllOk(QueueOf(st), cfg.maxAttributes)
  {
    hide RawOk, Queue;
    forall k | 0 <= k < |QueueOf(st)| ensures RawOk(QueueOf(st)[k], cfg.maxAttributes) {
      QueueMembers(st.img.slots, st.img.count, st.marks, QueueOf(st)[k]);
    }
  }

  lemma StepAllOk(q: seq<Raw>, op: Op, cfg: Config)
    requires cfg.Valid() && AllOk(q, cfg.maxAttributes)
    ensures AllOk(QueueStep(q, op, cfg), cfg.maxAttributes)
  {
    hide RawOk, ToRaw, EditRaw, HasId, SpanId;
    match op
    case Add(span) => ToRawHasId(span, cfg.maxAttributes);
    case Remove(id) =>
      forall k | 0 <= k < |RemoveId(q, id)| ensures RawOk(RemoveId(q, id)[k], cfg.maxAttributes) {
        assert RemoveId(q, id)[k] in q;
      }
    case Change(id, e) =>
      forall k | 0 <= k < |q| ensures RawOk(UpdateId(q, id, e, cfg.maxAttributes)[k], cfg.maxAttributes) {
        EditKeepsOk(q[k], e, cfg.maxAttributes);
      }
  }

  /** Every span of a queue that a crash can leave is fit to recover. */
  lemma CrashQueueOk(q: seq<Raw>, moved: u64, op: Op, x: seq<Raw>, cfg: Config)
    requires cfg.Valid() && AllOk(q, cfg.maxAttributes) && CrashQueue(q, moved, op, x, cfg)
    ensures AllOk(x, cfg.maxAttributes)
  {
    hide RawOk, QueueStep, HasId, RemoveId, EditRaw, CutShort, FromRaw;
    StepAllOk(q, op, cfg);
    if x != q && x != QueueStep(q, op, cfg) && op.Remove? {
      RemovedOk(q, op.id, cfg);
    }
  }

  lemma RemovedOk(q: seq<Raw>, id: u64, cfg: Config)
    requires cfg.Valid() && AllOk(q, cfg.maxAttributes)
    ensures AllOk(RemoveId(q, id), cfg.maxAttributes)
  {
    hide RawOk, RemoveId;
    StepAllOk(q, Remove(id), cfg);
  }

  // ---- Sessions that end ----

  /** The file of a session has a page for a start-up with pages of the same size. */
  lemma RequiredSizeIsPages(target: MmapSize, page: nat)
    requires page > 0
    ensures page <= RequiredSize(target, page)
  {
    hide ConfigOf, LayoutSize, AlignedSize;
    RequiredSizeHolds(target, page);
    AlignedSizeIsLeast(LayoutSize(ConfigOf(target)), page);
    var q: nat :| AlignedSize(LayoutSize(ConfigOf(target)), page) == q * page;
    if q > 0 { MulStep(0, q, page); }
  }

  lemma FirstOrder(f: seq<byte>, target: MmapSize, page: nat)
    requires page >= HEADER_SIZE
    ensures FirstState(f, target, page).img.count == 0 <= |FirstState(f, target, page).img.slots|
    ensures OrderOf(FirstState(f, target, page)) == Order([], [])
  {
    hide ConfigOf, LayoutSize, View, StartFile, QueueOf, Inv;
    StartUpIsFresh(f, target, page);
  }

  /** The recovered spans lie in the order of their slots. */
  lemma RecoveredOrder(f: seq<byte>, target: MmapSize, page: nat, ops: seq<Op>)
    requires FairSession(page, ops)
    ensures var st, cfg, o := StateAfter(f, target, page, ops), ConfigOf(target), OrderAfter(ops, ConfigOf(target));
      && st.img.count <= |st.img.slots| && LastSlotId(st.img) == o.Last()
      && (Readable(st.img, cfg) ==>
        && |Recovered(st.img, cfg)| == |o.bySlot|
        && forall k :: 0 <= k < |o.bySlot| ==> Recovered(st.img, cfg)[k].id == o.bySlot[k])
  {
    hide ConfigOf, Run, OrderRun, Scan, DecodeAll, RawOk, FirstState, QueueOf;
    var st, cfg := StateAfter(f, target, page, ops), ConfigOf(target);
    CountBound(FirstState(f, target, page), cfg);
    CountBound(st, cfg);
    AllMarked(st, cfg);
    FirstOrder(f, target, page);
    RunRefinesOrder(FirstState(f, target, page), ops, cfg);
    ScanAllMarked(st.img.slots, st.img.count);
    if Readable(st.img, cfg) {
      forall k | 0 <= k < st.img.count ensures Recovered(st.img, cfg)[k].id == SpanId(st.img.slots[k].raw) {
        DecodedAt(Scan(st.img.slots, st.img.count), cfg.maxAttributes, k);
        OkSize(st.img.slots[k].raw, cfg.maxAttributes);
      }
    }
  }

  /** Conservation: whatever file a session found, the next start-up, unless its pages are larger
      than the file, recovers its live spans, in slot order, and they are the spans of the queue
      its calls make. */
  lemma SessionIsRecovered(f: seq<byte>, target: MmapSize, page: nat, ops: seq<Op>, nextPage: nat)
    requires FairSession(page, ops)
    ensures var g, st, cfg := FileAfter(f, target, page, ops), StateAfter(f, target, page, ops), ConfigOf(target);
      && Whole(g) && Scannable(g) && Readable(st.img, cfg) && page <= |g|
      && FileSpans(g) == Recovered(st.img, cfg)
      && Recover(g, nextPage) == (if nextPage <= RequiredSize(target, page) then FileSpans(g) else [])
      && AllOk(QueueRun([], ops, cfg), cfg.maxAttributes)
      && multiset(FileSpans(g)) == multiset(DecodeAll(QueueRun([], ops, cfg), cfg.maxAttributes))
      && |FileSpans(g)| == |OrderAfter(ops, cfg).bySlot|
      && forall k :: 0 <= k < |FileSpans(g)| ==> FileSpans(g)[k].id == OrderAfter(ops, cfg).bySlot[k]
  {
    RecoveredOrder(f, target, page, ops);
    hide ConfigOf, LayoutSize, RequiredSize, View, Word, Run, QueueRun, Scan, DecodeAll, Whole, Scannable, FileSpans, AllOk, MarksOk, IndexOk, SpansOk, Queue;
    var g, st, cfg := FileAfter(f, target, page, ops), StateAfter(f, target, page, ops), ConfigOf(target);
    RunRefinesQueue(FirstState(f, target, page), ops, cfg);
    QueueOfState(st, cfg, 0);
    QueueAllOk(st, cfg);
    SameMembersOk(Scan(st.img.slots, st.img.count), QueueOf(st), cfg.maxAttributes);
    ReadBack(g, target);
    RequiredSizeIsPages(target, page);
    DecodeMultiset(Scan(st.img.slots, st.img.count), QueueOf(st), cfg.maxAttributes);
  }

  /** `shown` is what recovery shows of the span of the queue with that id. */
  predicate ShowsSpan(q: seq<Span>, id: u64, shown: Span) {
    exists i :: 0 <= i < |q| && q[i].id == id && Shown(q[i]) == shown
  }

  /** `spans` is what the queue `q` shows, each span once, in the order of `ids`. */
  ghost predicate ShowsInOrder(q: seq<Span>, ids: seq<u64>, spans: seq<Span>) {
    && multiset(spans) == multiset(ShownAll(q))
    && |spans| == |ids| && forall k :: 0 <= k < |spans| ==> ShowsSpan(q, ids[k], spans[k])
  }

  lemma ShownInOrder(q: seq<Span>, ids: seq<u64>, spans: seq<Span>)
    requires multiset(spans) == multiset(ShownAll(q))
    requires |spans| == |ids| && forall k :: 0 <= k < |spans| ==> spans[k].id == ids[k]
    ensures ShowsInOrder(q, ids, spans)
  {
    hide ShownAll;
    forall k | 0 <= k < |spans| ensures ShowsSpan(q, ids[k], spans[k]) {
      assert spans[k] in multiset(ShownAll(q));
      var i :| 0 <= i < |q| && ShownAll(q)[i] == spans[k];
    }
  }

  /** With NUL-free keys: what is recovered is what the byte-free queue shows, in the order in
      which the calls leave the spans in their slots. */
  lemma SessionIsSpecified(f: seq<byte>, target: MmapSize, page: nat, ops: seq<Op>, nextPage: nat)
    requires FairSession(page, ops) && AllNulFreeKeys(ops)
    ensures var g, cfg := FileAfter(f, target, page, ops), ConfigOf(target);
      && Scannable(g) && ShowsInOrder(SpecRun(ops, cfg), OrderAfter(ops, cfg).bySlot, FileSpans(g))
      && Recover(g, nextPage) == (if nextPage <= RequiredSize(target, page) then FileSpans(g) else [])
  {
    hide ConfigOf, LayoutSize, RequiredSize, View, Word, Whole, Scannable, Recover, FileSpans, RawOk, DecodeAll, QueueRun, SpecRun, FileAfter, StateAfter, Recovered, Meaning, OrderRun, ShowsInOrder, ShownAll, AllOk;
    var cfg := ConfigOf(target);
    SessionIsRecovered(f, target, page, ops, nextPage);
    RunMeans(ops, cfg);
    DecodedMeans(QueueRun([], ops, cfg), SpecRun(ops, cfg), cfg.maxAttributes);
    ShownInOrder(SpecRun(ops, cfg), OrderAfter(ops, cfg).bySlot, FileSpans(FileAfter(f, target, page, ops)));
  }

  datatype Session = Session(target: MmapSize, page: nat, ops: seq<Op>)

  ghost predicate FairChain(ss: seq<Session>) {
    forall k :: 0 <= k < |ss| ==> FairSession(ss[k].page, ss[k].ops)
  }

  /** The file after a chain of sessions. */
  ghost function FileAfterAll(f: seq<byte>, ss: seq<Session>): seq<byte>
    requires FairChain(ss)
  {
    if ss == [] then f
    else
      var last := ss[|ss| - 1];
      FileAfter(FileAfterAll(f, ss[..|ss| - 1]), last.target, last.page, last.ops)
  }

  /** Over any chain of sessions of any sizes, a start-up recovers exactly the spans of the
      session before it, in the order of their slots: nothing older, nothing lost, not even when
      that session's layout was larger than the one it starts. */
  lemma ChainRecoversLastSession(f: seq<byte>, ss: seq<Session>, nextPage: nat)
    requires FairChain(ss) && ss != [] && AllNulFreeKeys(ss[|ss| - 1].ops)
    ensures var g, last := FileAfterAll(f, ss), ss[|ss| - 1];
      var cfg := ConfigOf(last.target);
      && Scannable(g) && last.page <= |g| == RequiredSize(last.target, last.page)
      && (nextPage <= RequiredSize(last.target, last.page) ==>
        ShowsInOrder(SpecRun(last.ops, cfg), OrderAfter(last.ops, cfg).bySlot, Recover(g, nextPage)))
  {
    hide ConfigOf, FileAfter, SpecRun, ShowsInOrder, OrderRun, Recover, Scannable, FileSpans, RequiredSize;
    var last := ss[|ss| - 1];
    RequiredSizeIsPages(last.target, last.page);
    SessionIsSpecified(FileAfterAll(f, ss[..|ss| - 1]), last.target, last.page, last.ops, nextPage);
  }

  // ---- Sessions that crash ----

  /** The file when a session crashes in the call `op` after the calls `ops`: `done` of its stores
      were made, or all if it has no more, and the next one, if a whole span, became `junk`. */
  ghost function CrashedFile(f: seq<byte>, target: MmapSize, page: nat, ops: seq<Op>, op: Op, done: nat, junk: seq<byte>): seq<byte>
    requires FairSession(page, ops) && FairCall(ops, op)
  {
    hide ConfigOf, LayoutSize, RequiredSize, View, Word, Inv, FileAfter, StateAfter, HeaderNames;
    StoresOnFile(FileAfter(f, target, page, ops), StateAfter(f, target, page, ops), op, target);
    var puts := CallPuts(StateAfter(f, target, page, ops), op, target);
    CrashPuts(FileAfter(f, target, page, ops), puts, Min(done, |puts|), junk)
  }

  /** The crash seen in the slots, with the header still in place. */
  lemma CrashedImage(f: seq<byte>, target: MmapSize, page: nat, ops: seq<Op>, op: Op, done: nat, junk: seq<byte>)
    requires FairSession(page, ops) && FairCall(ops, op)
    ensures var c, st, cfg := CrashedFile(f, target, page, ops, op, done, junk), StateAfter(f, target, page, ops), ConfigOf(target);
      && |c| == RequiredSize(target, page) && LayoutSize(cfg) <= |c| && HEADER_SIZE <= |c| && HeaderNames(c, target)
      && Leaves(st, op, View(c, cfg), cfg) && NoTornSlot(st, op, View(c, cfg), cfg)
  {
    hide ConfigOf, LayoutSize, RequiredSize, View, Word, Inv, OpStores, CrashPuts, CrashStores, FileAfter, StateAfter, Leaves, NoTornSlot;
    var g, st, cfg := FileAfter(f, target, page, ops), StateAfter(f, target, page, ops), ConfigOf(target);
    var ss := OpStores(st, op, cfg);
    StoresOnFile(g, st, op, target);
    PutsOfLength(ss, cfg);
    var n := Min(done, |ss|);
    CrashInCall(st, op, n, junk, cfg);
    CrashPutsIsCrashStores(g, ss, cfg, n, junk);
    var c := CrashPuts(g, PutsOf(ss, cfg), n, junk);
    forall k | 0 <= k < COUNT_AT ensures c[k] == g[k] {
      HeaderUntouched(g, ss, cfg, n, junk, k);
    }
    SameHeaderWords(g, c);
  }

  /** The spans are those of a queue that a crash in `op` on the queue `q` can leave. */
  ghost predicate MayRecover(q: seq<Raw>, moved: u64, op: Op, spans: seq<Span>, cfg: Config)
    requires cfg.Valid()
  {
    exists x ::
      && CrashQueue(q, moved, op, x, cfg) && AllOk(x, cfg.maxAttributes)
      && multiset(spans) == multiset(DecodeAll(x, cfg.maxAttributes))
  }

  /** A crash at any store of any call in any run of a session that found any file: the next
      start-up can read what is there, and recovers the spans of the queue as it was before the
      call, as it is after, or with one of the deviations `CrashQueue` names. */
  lemma CrashAnywhere(f: seq<byte>, target: MmapSize, page: nat, ops: seq<Op>, op: Op, done: nat, junk: seq<byte>, nextPage: nat)
    requires FairSession(page, ops) && FairCall(ops, op)
    ensures var c, cfg := CrashedFile(f, target, page, ops, op, done, junk), ConfigOf(target);
      && Whole(c) && Scannable(c)
      && MayRecover(QueueRun([], ops, cfg), OrderAfter(ops, cfg).Last(), op, FileSpans(c), cfg)
      && Recover(c, nextPage) == (if nextPage <= RequiredSize(target, page) then FileSpans(c) else [])
  {
    hide ConfigOf, LayoutSize, View, Word, Inv, Run, QueueRun, Whole, Scannable, FileSpans, CrashedFile, CallPuts, MayRecover, Leaves, HeaderNames;
    var st, cfg := StateAfter(f, target, page, ops), ConfigOf(target);
    CountBound(st, cfg);
    CrashedImage(f, target, page, ops, op, done, junk);
    RunRefinesQueue(FirstState(f, target, page), ops, cfg);
    RecoveredOrder(f, target, page, ops);
    LeftoversRecover(CrashedFile(f, target, page, ops, op, done, junk), target, st, op);
  }

  /** The spans are what a queue shows that a crash in `op` on the queue `s` can leave. */
  ghost predicate MayShow(s: seq<Span>, moved: u64, op: Op, spans: seq<Span>, cfg: Config)
    requires cfg.Valid()
  {
    exists t :: CrashSpans(s, moved, op, t, cfg) && multiset(spans) == multiset(ShownAll(t))
  }

  /** With NUL-free keys all of that can be said without the bytes: what is recovered after a
      crash anywhere is what the queue of spans shows before the call, after it, or with one of
      the deviations `CrashSpans` names. */
  lemma CrashIsSpecified(f: seq<byte>, target: MmapSize, page: nat, ops: seq<Op>, op: Op, done: nat, junk: seq<byte>, nextPage: nat)
    requires FairSession(page, ops) && FairCall(ops, op) && AllNulFreeKeys(ops) && NulFreeKeys(op)
    ensures var c, cfg := CrashedFile(f, target, page, ops, op, done, junk), ConfigOf(target);
      && Scannable(c)
      && MayShow(SpecRun(ops, cfg), OrderAfter(ops, cfg).Last(), op, FileSpans(c), cfg)
      && Recover(c, nextPage) == (if nextPage <= RequiredSize(target, page) then FileSpans(c) else [])
  {
    hide ConfigOf, RequiredSize, StateAfter, Run, QueueRun, SpecRun, Scannable, FileSpans, CrashedFile, CrashQueue, CrashSpans, NulFreeKeys, DecodeAll, AllOk, OrderRun, DistinctIds, Means, Recover;
    var cfg := ConfigOf(target);
    var q, s, moved := QueueRun([], ops, cfg), SpecRun(ops, cfg), OrderAfter(ops, cfg).Last();
    CrashAnywhere(f, target, page, ops, op, done, junk, nextPage);
    RunMeans(ops, cfg);
    QueueDistinct(f, target, page, ops);
    var x :| CrashQueue(q, moved, op, x, cfg) && AllOk(x, cfg.maxAttributes)
      && multiset(FileSpans(CrashedFile(f, target, page, ops, op, done, junk))) == multiset(DecodeAll(x, cfg.maxAttributes));
    var t := CrashMeans(q, s, moved, op, x, cfg);
  }

  lemma QueueDistinct(f: seq<byte>, target: MmapSize, page: nat, ops: seq<Op>)
    requires FairSession(page, ops)
    ensures DistinctIds(QueueRun([], ops, ConfigOf(target)))
  {
    hide ConfigOf, Run, QueueRun, QueueOf, Inv, DistinctIds;
    var st, cfg := StateAfter(f, target, page, ops), ConfigOf(target);
    RunRefinesQueue(FirstState(f, target, page), ops, cfg);
    CountBound(st, cfg);
    QueueOfState(st, cfg, 0);
  }

  lemma LeftoversRecover(c: seq<byte>, target: MmapSize, st: State, op: Op)
    requires HEADER_SIZE <= |c| && LayoutSize(ConfigOf(target)) <= |c| && HeaderNames(c, target)
    requires Inv(st, ConfigOf(target)) && Leaves(st, op, View(c, ConfigOf(target)), ConfigOf(target))
    ensures Whole(c) && Scannable(c) && st.img.count <= |st.img.slots|
    ensures MayRecover(QueueOf(st), LastSlotId(st.img), op, FileSpans(c), ConfigOf(target))
  {
    hide ConfigOf, LayoutSize, View, Word, Inv, Scan, DecodeAll, Whole, Scannable, FileSpans, AllOk, CrashQueue, Queue, HeaderNames;
    var cfg := ConfigOf(target);
    CountBound(st, cfg);
    QueueAllOk(st, cfg);
    var img := View(c, cfg);
    var x :| CrashQueue(QueueOf(st), LastSlotId(st.img), op, x, cfg) && multiset(Scan(img.slots, img.count)) == multiset(x);
    CrashQueueOk(QueueOf(st), LastSlotId(st.img), op, x, cfg);
    SameMembersOk(Scan(img.slots, img.count), x, cfg.maxAttributes);
    ReadBack(c, target);
    DecodeMultiset(Scan(img.slots, img.count), x, cfg.maxAttributes);
  }

  /** A crash in a session and then one in the start-up that follows: the start-up after that
      still recovers all that the first crash had left, or nothing. */
  lemma CrashThenCrashedStartUp(f: seq<byte>, target: MmapSize, page: nat, ops: seq<Op>, op: Op, done: nat, junk: seq<byte>,
                                target2: MmapSize, page2: nat, c2: seq<byte>, page3: nat)
    requires FairSession(page, ops) && FairCall(ops, op)
    requires page2 >= HEADER_SIZE && StartCrash(CrashedFile(f, target, page, ops, op, done, junk), target2, page2, c2)
    ensures var c := CrashedFile(f, target, page, ops, op, done, junk);
      Scannable(c) && Scannable(c2) && (Recover(c2, page3) == FileSpans(c) || Recover(c2, page3) == [])
  {
    hide ConfigOf, Scannable, Whole, StartCrash, FileSpans, CrashQueue, RequiredSize, CrashedFile;
    CrashAnywhere(f, target, page, ops, op, done, junk, page2);
    StartUpCrashSafe(CrashedFile(f, target, page, ops, op, done, junk), target2, page2, c2, page3);
  }
}
