/** Everything that can happen to a span file: sessions that end, sessions that are cut at any
    store, and start-ups that are cut at any step, in any order and of any sizes. */
module History {
  import opened Bytes
  import opened Layout
  import opened SpanStore
  import opened Startup
  import opened Sessions
  import opened Restarts

  datatype Event =
    | Ended(target: MmapSize, page: nat, ops: seq<Op>)
    | CutInCall(target: MmapSize, page: nat, ops: seq<Op>, op: Op, done: nat, junk: seq<byte>)
    | CutInStartUp(target: MmapSize, page: nat)

  predicate FairEvent(e: Event) {
    && e.page >= HEADER_SIZE && e.page % 8 == 0
    && (e.CutInStartUp? || FairOps(e.ops))
    && (e.CutInCall? ==> FairCall(e.ops, e.op))
  }

  ghost predicate Leads(f: seq<byte>, e: Event, g: seq<byte>)
    requires FairEvent(e)
  {
    match e
    case Ended(target, page, ops) => g == FileAfter(f, target, page, ops)
    case CutInCall(target, page, ops, op, done, junk) => g == CrashedFile(f, target, page, ops, op, done, junk)
    case CutInStartUp(target, page) => StartCrash(f, target, page, g)
  }

  /** The files after each of a row of events, from a new and empty one on. */
  ghost predicate IsHistory(events: seq<Event>, files: seq<seq<byte>>) {
    && |files| == |events| + 1 && files[0] == []
    && forall i :: 0 <= i < |events| ==> FairEvent(events[i]) && Leads(files[i], events[i], files[i + 1])
  }

  /** The file is what a row of crashed start-ups makes of one that a session left, or of a new
      one. */
  ghost predicate IsRooted(c: seq<byte>) {
    exists starts, files ::
      && CrashedStarts(starts, files) && AlignedPages(starts)
      && Whole(files[0]) && Scannable(files[0]) && files[|starts|] == c
  }

  lemma WholeIsRooted(c: seq<byte>)
    requires Whole(c) && Scannable(c)
    ensures IsRooted(c)
  {
    hide Whole, Scannable;
    assert CrashedStarts([], [c]);
  }

  lemma StillRooted(c: seq<byte>, s: Start, d: seq<byte>)
    requires IsRooted(c) && s.page >= HEADER_SIZE && s.page % 8 == 0 && StartCrash(c, s.target, s.page, d)
    ensures IsRooted(d)
  {
    hide Whole, Scannable, StartCrash;
    var starts, files :| CrashedStarts(starts, files) && AlignedPages(starts)
      && Whole(files[0]) && Scannable(files[0]) && files[|starts|] == c;
    assert CrashedStarts(starts + [s], files + [d]);
  }

  lemma RootedIsReadable(c: seq<byte>)
    requires IsRooted(c)
    ensures Scannable(c)
  {
    hide Whole, Scannable, StartCrash;
    var starts, files :| CrashedStarts(starts, files) && AlignedPages(starts)
      && Whole(files[0]) && Scannable(files[0]) && files[|starts|] == c;
    ManyCrashesReadable(starts, files);
  }

  lemma LeadsToRooted(f: seq<byte>, e: Event, g: seq<byte>)
    requires IsRooted(f) && FairEvent(e) && Leads(f, e, g)
    ensures IsRooted(g)
  {
    hide ConfigOf, Whole, Scannable, StartCrash, IsRooted, FileAfter, CrashedFile, FileSpans, MayRecover, FairOps, FairCall;
    match e
    case Ended(target, page, ops) =>
      SessionIsRecovered(f, target, page, ops, page);
      WholeIsRooted(g);
    case CutInCall(target, page, ops, op, done, junk) =>
      CrashAnywhere(f, target, page, ops, op, done, junk, page);
      WholeIsRooted(g);
    case CutInStartUp(target, page) => StillRooted(f, Start(target, page), g);
  }

  lemma {:induction false} HistoryIsRooted(events: seq<Event>, files: seq<seq<byte>>)
    requires IsHistory(events, files)
    ensures IsRooted(files[|events|])
  {
    hide IsRooted, Leads, FairEvent;
    if events == [] {
      EmptyIsRooted();
    } else {
      var n := |events| - 1;
      HistoryIsRooted(events[..n], files[..n + 1]);
      LeadsToRooted(files[n], events[n], files[n + 1]);
    }
  }

  lemma EmptyIsRooted()
    ensures IsRooted([])
  {
    WholeIsRooted([]);
  }

  /** Whatever happened to a file since it was new, the next start-up can scan it: counts are in
      range and the buffers it reads end in a NUL. */
  lemma HistoryIsReadable(events: seq<Event>, files: seq<seq<byte>>)
    requires IsHistory(events, files)
    ensures Scannable(files[|events|])
  {
    hide IsRooted, Scannable, Leads, FairEvent;
    HistoryIsRooted(events, files);
    RootedIsReadable(files[|events|]);
  }
}
