/** What a process does with the library, from start-up on: take the recovered spans, then call
    the mutable store. It ties the classes to the sessions the theorems speak of. */
module Client {
  import opened Bytes
  import opened MemoryModel
  import opened Codec
  import opened Layout
  import opened SpanStore
  import opened SlotOrder
  import opened Crash
  import opened MutableSpanStore
  import opened Startup
  import opened Initialize
  import opened Sessions

  // ---- The stores of a session ----

  /** Every store of a session, in order: those of the start-up, then those of each call. */
  ghost function SessionPuts(f: seq<byte>, target: MmapSize, page: nat, ops: seq<Op>): (ps: seq<Put>)
    requires FairSession(page, ops)
    ensures |StartPuts(f, target, page)| <= |ps|
  {
    hide StartPuts, CallPuts, StateAfter;
    if ops == [] then StartPuts(f, target, page)
    else
      FairFront(ops);
      var front := ops[..|ops| - 1];
      SessionPuts(f, target, page, front) + CallPuts(StateAfter(f, target, page, front), ops[|ops| - 1], target)
  }

  /** Made in full they lead to the file that `FileAfter` says. */
  lemma {:induction false} SessionPutsRun(f: seq<byte>, target: MmapSize, page: nat, ops: seq<Op>)
    requires FairSession(page, ops)
    ensures |StartBase(f, target, page)| == RequiredSize(target, page)
    ensures AllFit(SessionPuts(f, target, page, ops), RequiredSize(target, page))
    ensures RunPuts(StartBase(f, target, page), SessionPuts(f, target, page, ops)) == FileAfter(f, target, page, ops)
  {
    hide ConfigOf, LayoutSize, RequiredSize, View, Inv, Next, RunPuts, Run, CallPuts, StartPuts, StartBase;
    StartPutsFit(f, target, page);
    if ops != [] {
      FairFront(ops);
      var front, op := ops[..|ops| - 1], ops[|ops| - 1];
      SessionPutsRun(f, target, page, front);
      StoresOnFile(FileAfter(f, target, page, front), StateAfter(f, target, page, front), op, target);
      RunPutsConcat(StartBase(f, target, page), SessionPuts(f, target, page, front), CallPuts(StateAfter(f, target, page, front), op, target));
    }
  }

  /** After `done` stores the `k`-th call is in flight; the last one, once all are made. */
  ghost predicate InFlight(f: seq<byte>, target: MmapSize, page: nat, ops: seq<Op>, k: nat, done: nat)
    requires page >= HEADER_SIZE
  {
    && k < |ops| && FairOps(ops[..k]) && FairCall(ops[..k], ops[k])
    && |SessionPuts(f, target, page, ops[..k])| <= done
    && (k + 1 < |ops| ==> FairOps(ops[..k + 1]) && done < |SessionPuts(f, target, page, ops[..k + 1])|)
  }

  /** The file when a crash cuts the stores of a session after `done` of them, with the `k`-th
      call in flight. */
  ghost function CutInCall(f: seq<byte>, target: MmapSize, page: nat, ops: seq<Op>, k: nat, done: nat, junk: seq<byte>): seq<byte>
    requires page >= HEADER_SIZE && InFlight(f, target, page, ops, k, done)
  {
    CrashedFile(f, target, page, ops[..k], ops[k], done - |SessionPuts(f, target, page, ops[..k])|, junk)
  }

  lemma StartPutsDoNotTear(f: seq<byte>, target: MmapSize, page: nat)
    requires page >= HEADER_SIZE
    ensures forall k :: 0 <= k < |StartPuts(f, target, page)| ==> !StartPuts(f, target, page)[k].tears
  {
    hide ConfigOf, LayoutSize, EncodeWord, ShouldDoRecovery;
  }

  lemma StartUpCut(f: seq<byte>, target: MmapSize, page: nat, done: nat, junk: seq<byte>)
    requires page >= HEADER_SIZE && done <= |StartPuts(f, target, page)|
    ensures AllFit(StartPuts(f, target, page), |StartBase(f, target, page)|)
    ensures CrashPuts(StartBase(f, target, page), StartPuts(f, target, page), done, junk) == StartStep(f, target, page, done)
  {
    hide ConfigOf, RequiredSize, StartPuts, StartBase, RunPuts, AllFit, Splice;
    StartPutsFit(f, target, page);
    StartPutsDoNotTear(f, target, page);
  }

  lemma TakeOfFront(ops: seq<Op>, k: nat)
    requires k < |ops| - 1
    ensures ops[..|ops| - 1][..k] == ops[..k] && ops[..|ops| - 1][k] == ops[k]
  {
  }

  lemma InFlightInFront(f: seq<byte>, target: MmapSize, page: nat, ops: seq<Op>, k: nat, done: nat, junk: seq<byte>)
    requires FairSession(page, ops) && ops != [] && FairOps(ops[..|ops| - 1])
    requires InFlight(f, target, page, ops[..|ops| - 1], k, done) && done < |SessionPuts(f, target, page, ops[..|ops| - 1])|
    ensures InFlight(f, target, page, ops, k, done)
    ensures CutInCall(f, target, page, ops, k, done, junk) == CutInCall(f, target, page, ops[..|ops| - 1], k, done, junk)
  {
    hide CrashedFile, FairOps, FairCall, SessionPuts;
    TakeOfFront(ops, k);
    if k + 1 < |ops| - 1 {
      TakeOfFront(ops, k + 1);
    }
  }

  /** The stores of one more call, cut. */
  lemma LastCallCut(f: seq<byte>, target: MmapSize, page: nat, ops: seq<Op>, done: nat, junk: seq<byte>)
    requires FairSession(page, ops) && ops != [] && done <= |SessionPuts(f, target, page, ops)|
    ensures FairOps(ops[..|ops| - 1]) && FairCall(ops[..|ops| - 1], ops[|ops| - 1])
    ensures AllFit(SessionPuts(f, target, page, ops), |StartBase(f, target, page)|)
    ensures AllFit(SessionPuts(f, target, page, ops[..|ops| - 1]), |StartBase(f, target, page)|)
    ensures var front, ps := ops[..|ops| - 1], SessionPuts(f, target, page, ops[..|ops| - 1]);
      CrashPuts(StartBase(f, target, page), SessionPuts(f, target, page, ops), done, junk)
      == if done < |ps| then CrashPuts(StartBase(f, target, page), ps, done, junk)
         else CrashedFile(f, target, page, front, ops[|ops| - 1], done - |ps|, junk)
  {
    hide ConfigOf, LayoutSize, RequiredSize, View, Inv, Next, RunPuts, Run, CallPuts, StartPuts, StartBase, FileAfter, StateAfter, CrashPuts;
    FairFront(ops);
    var front, op := ops[..|ops| - 1], ops[|ops| - 1];
    SessionPutsRun(f, target, page, ops);
    SessionPutsRun(f, target, page, front);
    var st := StateAfter(f, target, page, front);
    StoresOnFile(FileAfter(f, target, page, front), st, op, target);
    CrashPutsConcat(StartBase(f, target, page), SessionPuts(f, target, page, front), CallPuts(st, op, target), done, junk);
  }

  /** Cut after `done` of them, with the store in flight torn or not, they leave the file of that
      step of the start-up; or, once the start-up is through, what a crash in the call in flight
      leaves, after those of its stores that were made. */
  lemma {:induction false} SessionCrash(f: seq<byte>, target: MmapSize, page: nat, ops: seq<Op>, done: nat, junk: seq<byte>)
      returns (k: nat)
    requires FairSession(page, ops) && done <= |SessionPuts(f, target, page, ops)|
    ensures AllFit(SessionPuts(f, target, page, ops), |StartBase(f, target, page)|)
    ensures var c := CrashPuts(StartBase(f, target, page), SessionPuts(f, target, page, ops), done, junk);
      if ops == [] || done < |StartPuts(f, target, page)|
      then done <= |StartPuts(f, target, page)| && c == StartStep(f, target, page, done)
      else InFlight(f, target, page, ops, k, done) && c == CutInCall(f, target, page, ops, k, done, junk)
  {
    hide ConfigOf, RequiredSize, CallPuts, StartPuts, StartBase, StateAfter, CrashedFile, CrashPuts, AllFit, StartStep, FairOps, FairCall;
    k := 0;
    if ops == [] {
      StartUpCut(f, target, page, done, junk);
    } else {
      var front := ops[..|ops| - 1];
      LastCallCut(f, target, page, ops, done, junk);
      if done < |SessionPuts(f, target, page, front)| {
        k := SessionCrash(f, target, page, front, done, junk);
        if done >= |StartPuts(f, target, page)| {
          InFlightInFront(f, target, page, ops, k, done, junk);
        }
      } else {
        k := |front|;
      }
    }
  }

  /** The spans are what a crash in the `k`-th call can leave. */
  ghost predicate RecoversInCall(ops: seq<Op>, k: nat, spans: seq<Span>, cfg: Config)
    requires cfg.Valid() && k < |ops|
  {
    MayRecover(QueueRun([], ops[..k], cfg), OrderAfter(ops[..k], cfg).Last(), ops[k], spans, cfg)
  }

  /** What a process that crashes after `done` stores leaves: before the first, all the spans it
      found or none; until its start-up is through, none; from then on what a crash in the call
      in flight can leave. */
  lemma ProcessCrash(f: seq<byte>, target: MmapSize, page: nat, ops: seq<Op>, done: nat, junk: seq<byte>) returns (k: nat)
    requires FairSession(page, ops) && Whole(f) && Scannable(f) && done <= |SessionPuts(f, target, page, ops)|
    ensures AllFit(SessionPuts(f, target, page, ops), |StartBase(f, target, page)|)
    ensures var c := CrashPuts(StartBase(f, target, page), SessionPuts(f, target, page, ops), done, junk);
      && Scannable(c)
      && if ops == [] || done < |StartPuts(f, target, page)|
         then FileSpans(c) == [] || (done == 0 && FileSpans(c) == FileSpans(f))
         else InFlight(f, target, page, ops, k, done) && RecoversInCall(ops, k, FileSpans(c), ConfigOf(target))
  {
    hide ConfigOf, Whole, Scannable, FileSpans, SessionPuts, StartBase, StartPuts, StartStep, CrashPuts, RecoversInCall, CutInCall, AllFit;
    k := SessionCrash(f, target, page, ops, done, junk);
    if ops == [] || done < |StartPuts(f, target, page)| {
      StartUpLeaves(f, target, page, done);
    } else {
      CallLeaves(f, target, page, ops, k, done, junk);
    }
  }

  lemma CallLeaves(f: seq<byte>, target: MmapSize, page: nat, ops: seq<Op>, k: nat, done: nat, junk: seq<byte>)
    requires page >= HEADER_SIZE && InFlight(f, target, page, ops, k, done)
    ensures var c := CutInCall(f, target, page, ops, k, done, junk);
      Scannable(c) && RecoversInCall(ops, k, FileSpans(c), ConfigOf(target))
  {
    hide ConfigOf, Whole, Scannable, FileSpans, SessionPuts, MayRecover, CrashedFile, QueueRun, OrderRun, FairOps, FairCall;
    CrashAnywhere(f, target, page, ops[..k], ops[k], done - |SessionPuts(f, target, page, ops[..k])|, junk, page);
  }

  lemma StartUpLeaves(f: seq<byte>, target: MmapSize, page: nat, done: nat)
    requires page >= HEADER_SIZE && Whole(f) && Scannable(f) && done <= |StartPuts(f, target, page)|
    ensures var c := StartStep(f, target, page, done);
      Scannable(c) && (FileSpans(c) == [] || (done == 0 && FileSpans(c) == FileSpans(f)))
  {
    hide ConfigOf, Whole, Scannable, FileSpans, StartPuts, StartStep;
    StartUpCrashSafe(f, target, page, StartStep(f, target, page, done), 0);
    if done > 0 {
      CountGoesFirst(f, target, page, done);
      CountZeroIsNothing(StartStep(f, target, page, done));
    }
  }

  // ---- The process ----

  method Call(store: MutableSpanData, op: Op)
    requires store.Valid() && CanStep(store.St(), op)
    modifies store`index, store.impl`markCounter, store.impl.mem`log, store.impl.mem.data
    ensures store.Valid() && store.St() == Next(old(store.St()), op, store.impl.cfg)
    ensures store.impl.mem.log == old(store.impl.mem.log) + PutsOf(OpStores(old(store.St()), op, store.impl.cfg), store.impl.cfg)
  {
    match op
    case Add(span) => store.Add(span);
    case Remove(id) => store.Remove(id);
    case Change(id, EndAt(time)) => store.End(id, time, time);
    case Change(id, PutAttr(key, value)) => store.SetAttributeOnSpan(id, key, value);
  }

  /** The calls `ops` are through: state, file and log are what the theorems say. */
  ghost predicate InSession(store: MutableSpanData, log: seq<Put>, f: seq<byte>, target: MmapSize, page: nat, ops: seq<Op>)
    requires FairSession(page, ops)
    reads store, store.impl, store.impl.mem, store.impl.mem.data
  {
    && store.Valid() && store.impl.cfg == ConfigOf(target)
    && store.St() == StateAfter(f, target, page, ops)
    && store.impl.mem.data[..] == FileAfter(f, target, page, ops)
    && store.impl.mem.log == log + SessionPuts(f, target, page, ops)
  }

  method CallNext(store: MutableSpanData, ghost log: seq<Put>, ghost f: seq<byte>, target: MmapSize, ghost page: nat, ops: seq<Op>, k: nat)
    requires k < |ops| && FairSession(page, ops) && FairOps(ops[..k])
    requires InSession(store, log, f, target, page, ops[..k])
    modifies store`index, store.impl`markCounter, store.impl.mem`log, store.impl.mem.data
    ensures FairOps(ops[..k + 1]) && InSession(store, log, f, target, page, ops[..k + 1])
  {
    hide ConfigOf, LayoutSize, RequiredSize, View, RunPuts, Inv, Next, StartFile, Run, AllFit, FileAfter, StateAfter, SessionPuts;
    FairPrefix(ops, k);
    OneMoreOp(f, target, page, ops, k);
    OneMoreLog(f, target, page, ops, k, log);
    Call(store, ops[k]);
    store.impl.mem.Effect(CallPuts(StateAfter(f, target, page, ops[..k]), ops[k], target));
  }

  /** A file that is mapped anew starts a new log, from its resized bytes; one that is reused
      goes on with the log it has. */
  ghost function BaseOf(base: seq<byte>, f: seq<byte>, target: MmapSize, page: nat): seq<byte>
    requires page >= HEADER_SIZE
  {
    if Reuses(f, target, page) then base else StartBase(f, target, page)
  }

  ghost function LogOf(log: seq<Put>, f: seq<byte>, target: MmapSize, page: nat): seq<Put>
    requires page >= HEADER_SIZE
  {
    if Reuses(f, target, page) then log else []
  }

  /** Start-up, and the one call that takes the recovered spans and gives access to the store. */
  method BeginSession(disk: Memory, target: MmapSize, page: nat) returns (recovered: seq<Span>, store: MutableSpanData)
    requires disk.Valid() && page >= HEADER_SIZE && Scannable(disk.data[..])
    modifies disk, disk.data
    ensures recovered == Recover(old(disk.data[..]), page)
    ensures fresh(store) && fresh(store.impl) && (disk.data == old(disk.data) || fresh(disk.data))
    ensures store.Valid() && store.impl.mem == disk && store.impl.cfg == ConfigOf(target)
    ensures store.St() == FirstState(old(disk.data[..]), target, page)
    ensures disk.data[..] == StartFile(old(disk.data[..]), target, page)
    ensures disk.base == BaseOf(old(disk.base), old(disk.data[..]), target, page)
    ensures disk.log == LogOf(old(disk.log), old(disk.data[..]), target, page) + StartPuts(old(disk.data[..]), target, page)
  {
    hide ConfigOf, LayoutSize, RequiredSize, View, RunPuts, AllFit, Inv, StartFile, IsEmpty, Recover, StartPuts, StartBase, Reuses, Scannable;
    var context := InitializeSpanData(disk, target, page);
    recovered := GetRecoveredSpans(context);
    var s := GetMutableSpanData(context);
    store := s;
  }

  /** A session leaves, byte for byte, the file that `FileAfter` says, and on the way it makes the
      stores of `SessionPuts`, in that order, from `StartBase` on. */
  method RunSession(disk: Memory, target: MmapSize, page: nat, ops: seq<Op>) returns (recovered: seq<Span>)
    requires disk.Valid() && Scannable(disk.data[..]) && FairSession(page, ops)
    modifies disk, disk.data
    ensures recovered == Recover(old(disk.data[..]), page)
    ensures disk.data[..] == FileAfter(old(disk.data[..]), target, page, ops)
    ensures disk.base == BaseOf(old(disk.base), old(disk.data[..]), target, page)
    ensures disk.log == LogOf(old(disk.log), old(disk.data[..]), target, page) + SessionPuts(old(disk.data[..]), target, page, ops)
  {
    hide ConfigOf, RequiredSize, View, RunPuts, Inv, StartFile, FileAfter, StateAfter, Recover, Scannable, FirstState, FairOps, AllFit, SessionPuts, StartPuts, InSession, BaseOf, LogOf;
    ghost var f := disk.data[..];
    ghost var log := LogOf(disk.log, f, target, page);
    var store;
    recovered, store := BeginSession(disk, target, page);
    FairPrefix(ops, 0);
    assert ops[..0] == [];
    Begun(store, log, f, target, page);
    var k := 0;
    while k < |ops|
      invariant k <= |ops| && FairOps(ops[..k])
      invariant store.impl.mem == disk && (disk.data == old(disk.data) || fresh(disk.data))
      invariant InSession(store, log, f, target, page, ops[..k])
      invariant disk.base == BaseOf(old(disk.base), f, target, page)
    {
      CallNext(store, log, f, target, page, ops, k);
      k := k + 1;
    }
    assert ops[..k] == ops;
    Ended(store, log, f, target, page, ops);
  }

  lemma Begun(store: MutableSpanData, log: seq<Put>, f: seq<byte>, target: MmapSize, page: nat)
    requires page >= HEADER_SIZE && store.Valid() && store.impl.cfg == ConfigOf(target)
    requires store.St() == FirstState(f, target, page)
    requires store.impl.mem.data[..] == StartFile(f, target, page)
    requires store.impl.mem.log == log + StartPuts(f, target, page)
    ensures FairOps([]) && InSession(store, log, f, target, page, [])
  {
    hide ConfigOf, View, Inv, FileAfter, StateAfter, SessionPuts, StartPuts, StartFile, FirstState;
    NoOps(f, target, page);
  }

  lemma Ended(store: MutableSpanData, log: seq<Put>, f: seq<byte>, target: MmapSize, page: nat, ops: seq<Op>)
    requires FairSession(page, ops) && InSession(store, log, f, target, page, ops)
    ensures store.impl.mem.data[..] == FileAfter(f, target, page, ops)
    ensures store.impl.mem.log == log + SessionPuts(f, target, page, ops)
  {
    hide ConfigOf, View, Inv, FileAfter, StateAfter, SessionPuts;
  }

  lemma {:induction false} FairPrefix(ops: seq<Op>, k: nat)
    requires FairOps(ops) && k <= |ops|
    ensures FairOps(ops[..k])
    ensures k < |ops| ==> FairOps(ops[..k + 1]) && ops[..k + 1][..k] == ops[..k]
    decreases |ops|
  {
    if k < |ops| {
      FairFront(ops);
      if k < |ops| - 1 {
        FairPrefix(ops[..|ops| - 1], k);
        assert ops[..|ops| - 1][..k] == ops[..k];
        assert ops[..|ops| - 1][..k + 1] == ops[..k + 1];
      } else {
        assert ops[..k + 1] == ops;
      }
    } else {
      assert ops[..k] == ops;
    }
  }

  lemma NoOps(f: seq<byte>, target: MmapSize, page: nat)
    requires page >= HEADER_SIZE
    ensures FairOps([])
    ensures StateAfter(f, target, page, []) == FirstState(f, target, page)
    ensures FileAfter(f, target, page, []) == StartFile(f, target, page)
    ensures SessionPuts(f, target, page, []) == StartPuts(f, target, page)
  {
  }

  lemma OneMoreLog(f: seq<byte>, target: MmapSize, page: nat, ops: seq<Op>, k: nat, log: seq<Put>)
    requires FairSession(page, ops) && k < |ops| && FairOps(ops[..k])
    ensures FairOps(ops[..k + 1]) && CanStep(StateAfter(f, target, page, ops[..k]), ops[k])
    ensures log + SessionPuts(f, target, page, ops[..k + 1])
      == log + SessionPuts(f, target, page, ops[..k]) + CallPuts(StateAfter(f, target, page, ops[..k]), ops[k], target)
  {
    hide ConfigOf, StateAfter, CallPuts, FairOps, StartPuts;
    FairPrefix(ops, k);
    FairFront(ops[..k + 1]);
    assert ops[..k + 1][..k] == ops[..k];
  }

  lemma OneMoreOp(f: seq<byte>, target: MmapSize, page: nat, ops: seq<Op>, k: nat)
    requires page >= HEADER_SIZE && k < |ops| && FairOps(ops[..k]) && FairOps(ops[..k + 1])
    requires ops[..k + 1][..k] == ops[..k]
    ensures var st := StateAfter(f, target, page, ops[..k]);
      && CanStep(st, ops[k])
      && StateAfter(f, target, page, ops[..k + 1]) == Next(st, ops[k], ConfigOf(target))
      && AllFit(CallPuts(st, ops[k], target), |FileAfter(f, target, page, ops[..k])|)
      && FileAfter(f, target, page, ops[..k + 1])
         == RunPuts(FileAfter(f, target, page, ops[..k]), CallPuts(st, ops[k], target))
  {
    hide ConfigOf, LayoutSize, RequiredSize, View, Next, RunPuts, OpStores, Inv, PutsOf;
    FairFront(ops[..k + 1]);
    StoresOnFile(FileAfter(f, target, page, ops[..k]), StateAfter(f, target, page, ops[..k]), ops[k], target);
  }
}
