/** The mutable span data: the index over the span store, and eviction. */
module MutableSpanStore {
  import opened Bytes
  import opened Codec
  import opened Attributes
  import opened Layout
  import opened SlotQueue
  import opened SpanStore
  import opened Crash
  import opened RawSpanStore

  class MutableSpanData {
    const impl: RawSpanData
    var index: map<u64, nat>

    ghost predicate Valid()
      reads this, impl, impl.mem, impl.mem.data
    {
      impl.Valid() && Inv(St(), impl.cfg)
    }

    ghost function St(): State
      requires impl.Valid()
      reads this, impl, impl.mem, impl.mem.data
    {
      State(impl.Img(), impl.markCounter, index)
    }

    constructor (impl: RawSpanData)
      requires impl.Valid()
      ensures this.impl == impl && index == map[]
    {
      this.impl := impl;
      index := map[];
    }

    method Count() returns (n: u64)
      requires Valid()
      ensures n == |QueueOf(St())|
    {
      QueueOfState(St(), impl.cfg, 0);
      n := impl.Count();
    }

    /** The scan over the marks for the oldest span. */
    method OldestSpanId() returns (oldest: u64)
      requires Valid()
      ensures oldest == OldestScan(impl.Img().slots, impl.Img().count).1
      ensures impl.Img().count > 0 ==> IsHead(QueueOf(St()), oldest) && oldest in index
    {
      hide OldestScan, RawOk, MarksOk, IndexOk, SpansOk, SpanId, View, Queue;
      CountBound(St(), impl.cfg);
      oldest := 0;
      var oldestMark: u64 := U64_MAX;
      var count := impl.Count();
      ghost var slots := impl.Img().slots;
      OldestScanStep(slots, 0);
      var i := 0;
      while i < count
        invariant i <= count
        invariant (oldestMark, oldest) == OldestScan(slots, i)
      {
        OldestScanStep(slots, i);
        var mark := impl.GetMark(i);
        if mark < oldestMark {
          oldestMark := mark;
          var raw := impl.GetRawSpan(i);
          oldest := RawId(raw);
          assert oldest == SpanId(raw) by { WholeRaw(raw, impl.cfg.maxAttributes); }
        }
        i := i + 1;
      }
      if count > 0 { EvictsHead(St(), impl.cfg); }
    }

    /** When full, drops the oldest span. */
    method DropOldestIfFull()
      requires Valid()
      modifies this`index, impl.mem`log, impl.mem.data
      ensures Valid() && St() == MakeRoom(old(St()), impl.cfg)
      ensures impl.mem.log == old(impl.mem.log) + PutsOf(MakeRoomStores(old(St()), impl.cfg), impl.cfg)
    {
      hide RawOk, SpanId, Inv, View, RemoveStores, RemoveImage, OldestScan, Queue;
      ghost var st, cfg := St(), impl.cfg;
      CountBound(st, cfg);
      var count := impl.Count();
      if count == impl.cfg.maxSpans {
        EvictsHead(st, cfg);
        var oldest := OldestSpanId();
        if oldest != 0 {
          Remove(oldest);
        }
      }
    }

    method Add(span: Span)
      requires Valid() && CanStep(St(), Op.Add(span))
      modifies this`index, impl`markCounter, impl.mem`log, impl.mem.data
      ensures Valid() && St() == Next(old(St()), Op.Add(span), impl.cfg)
      ensures impl.mem.log == old(impl.mem.log) + PutsOf(OpStores(old(St()), Op.Add(span), impl.cfg), impl.cfg)
      ensures QueueOf(St()) == QueueStep(QueueOf(old(St())), Op.Add(span), impl.cfg)
    {
      hide RawOk, SpanId, Inv, View, AddStores, AddImage, MakeRoom, MakeRoomStores, ToRaw, QueueOf, QueueStep, PutsOf, OpStores, Next;
      ghost var st, cfg := St(), impl.cfg;
      StepRefinesQueue(st, Op.Add(span), cfg);
      if span.id in index {
        AddOfLive(st, span, cfg);
        PutsOfNone(cfg);
      } else {
        RoomIsMade(st, cfg);
        AddInFull(st, span, cfg);
        DropOldestIfFull();
        ghost var room := St();
        FreeSlot(room, cfg);
        ToRawHasId(span, cfg.maxAttributes);
        var rawIndex := impl.Add(span);
        index := index[span.id := rawIndex];
        PutsOfConcat(MakeRoomStores(st, cfg), AddStores(room.img, room.marks + 1, ToRaw(span, cfg.maxAttributes)), cfg);
      }
    }

    method Remove(id: u64)
      requires Valid()
      modifies this`index, impl.mem`log, impl.mem.data
      ensures Valid() && St() == Next(old(St()), Op.Remove(id), impl.cfg)
      ensures impl.mem.log == old(impl.mem.log) + PutsOf(OpStores(old(St()), Op.Remove(id), impl.cfg), impl.cfg)
      ensures QueueOf(St()) == QueueStep(QueueOf(old(St())), Op.Remove(id), impl.cfg)
    {
      hide RawOk, SpanId, Inv, View, RunStores, RemoveStores, RemoveImage, Queue, RemoveId, MovedId;
      ghost var st, cfg := St(), impl.cfg;
      StepRefinesQueue(st, Op.Remove(id), cfg);
      if id in index {
        var rawIndex := index[id];
        IndexInRange(st, cfg, id);
        CountBound(st, cfg);
        AllMarked(st, cfg);
        var moved := impl.Remove(rawIndex);
        if moved > 0 {
          index := index[moved := rawIndex];
        }
        index := index - {id};
      }
    }

    method SetAttributeOnSpan(id: u64, key: seq<byte>, value: seq<byte>)
      requires Valid()
      modifies impl.mem`log, impl.mem.data
      ensures Valid() && St() == Next(old(St()), Change(id, PutAttr(key, value)), impl.cfg)
      ensures impl.mem.log == old(impl.mem.log)
        + PutsOf(OpStores(old(St()), Change(id, PutAttr(key, value)), impl.cfg), impl.cfg)
      ensures QueueOf(St()) == QueueStep(QueueOf(old(St())), Change(id, PutAttr(key, value)), impl.cfg)
    {
      hide RawOk, SpanId, Inv, View, RunStores, Queue, SetAttr, SetAttrPuts, UpdateId, EditImage, PutsOf, FieldStores, QueueStep;
      ghost var st, cfg := St(), impl.cfg;
      StepRefinesQueue(st, Change(id, PutAttr(key, value)), cfg);
      if id in index {
        var rawIndex := index[id];
        IndexInRange(st, cfg, id);
        CountBound(st, cfg);
        LiveOk(st, cfg, rawIndex);
        var r := impl.SetAttributeOnSpan(rawIndex, key, value);
      }
    }

    /** `now` is what the system clock would say; it is used when no end time is given. */
    method End(id: u64, endTime: u64, now: u64)
      requires Valid()
      modifies impl.mem`log, impl.mem.data
      ensures var e := EndAt(if endTime == 0 then now else endTime);
        && Valid() && St() == Next(old(St()), Change(id, e), impl.cfg)
        && impl.mem.log == old(impl.mem.log) + PutsOf(OpStores(old(St()), Change(id, e), impl.cfg), impl.cfg)
        && QueueOf(St()) == QueueStep(QueueOf(old(St())), Change(id, e), impl.cfg)
    {
      hide RawOk, SpanId, Inv, View, RunStores, Queue, UpdateId, EditImage, EncodeWord, PutsOf, FieldStores, QueueStep, Word, Splice;
      ghost var st, cfg := St(), impl.cfg;
      var time := endTime;
      if endTime == 0 {
        time := now;
      }
      StepRefinesQueue(st, Change(id, EndAt(time)), cfg);
      if id in index {
        var rawIndex := index[id];
        IndexInRange(st, cfg, id);
        CountBound(st, cfg);
        LiveOk(st, cfg, rawIndex);
        AllMarked(st, cfg);
        impl.SetEndTime(rawIndex, time);
      }
    }
  }

  predicate IsHead(q: seq<Raw>, id: u64) {
    |q| > 0 && SpanId(q[0]) == id
  }

  lemma OldestScanStep(slots: seq<Slot>, n: nat)
    requires n <= |slots|
    ensures OldestScan(slots, 0) == (U64_MAX, 0)
    ensures n < |slots| && slots[n].mark < OldestScan(slots, n).0 ==>
      OldestScan(slots, n + 1) == (slots[n].mark, SpanId(slots[n].raw))
    ensures n < |slots| && slots[n].mark >= OldestScan(slots, n).0 ==>
      OldestScan(slots, n + 1) == OldestScan(slots, n)
  {
  }

  lemma WholeRaw(raw: seq<byte>, maxAttributes: nat)
    requires |raw| == RawSize(maxAttributes)
    ensures |raw| >= ATTRS && SpanId(raw) == RawId(raw)
  {
  }

  /** The slot after the last live one is free. */
  lemma FreeSlot(st: State, cfg: Config)
    requires Inv(st, cfg) && st.img.count < cfg.maxSpans
    ensures |st.img.slots| == cfg.maxSpans && st.img.slots[st.img.count].mark == 0
  {
  }

  lemma PutsOfNone(cfg: Config)
    ensures PutsOf([], cfg) == []
  {
  }

  lemma PutsOfConcat(a: seq<Store>, b: seq<Store>, cfg: Config)
    ensures PutsOf(a + b, cfg) == PutsOf(a, cfg) + PutsOf(b, cfg)
  {
    hide PutOf;
    assert forall k :: 0 <= k < |a + b| ==> PutsOf(a + b, cfg)[k] == (PutsOf(a, cfg) + PutsOf(b, cfg))[k];
  }
}
