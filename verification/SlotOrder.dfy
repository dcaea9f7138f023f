/** Which span is in which slot, told from the calls alone: a removal moves the last span into
    the place of the one that goes. */
module SlotOrder {
  import opened Bytes
  import opened Codec
  import opened Layout
  import opened SlotQueue
  import opened SpanStore

  /** The ids of the live spans, from oldest to newest and from the first slot to the last. */
  datatype Order = Order(byAge: seq<u64>, bySlot: seq<u64>) {
    /** The id in the last live slot, or 0. */
    function Last(): u64 {
      if bySlot == [] then 0 else bySlot[|bySlot| - 1]
    }
  }

  function Place(ids: seq<u64>, id: u64): (i: nat)
    ensures i <= |ids|
    ensures i < |ids| ==> ids[i] == id
    ensures forall j :: 0 <= j < i ==> ids[j] != id
  {
    if ids == [] then 0
    else
      var i := Place(ids[..|ids| - 1], id);
      if i < |ids| - 1 then i else if ids[|ids| - 1] == id then i else |ids|
  }

  function SwapRemove(ids: seq<u64>, id: u64): seq<u64> {
    var i := Place(ids, id);
    if i == |ids| then ids else ids[i := ids[|ids| - 1]][..|ids| - 1]
  }

  function Without(ids: seq<u64>, id: u64): seq<u64> {
    if ids == [] then []
    else Without(ids[..|ids| - 1], id) + if ids[|ids| - 1] == id then [] else [ids[|ids| - 1]]
  }

  function OrderStep(o: Order, op: Op, cfg: Config): Order
    requires cfg.Valid()
  {
    match op
    case Add(span) =>
      if span.id in o.byAge then o
      else
        var room := if |o.byAge| >= cfg.maxSpans then Order(o.byAge[1..], SwapRemove(o.bySlot, o.byAge[0])) else o;
        Order(room.byAge + [span.id], room.bySlot + [span.id])
    case Remove(id) => Order(Without(o.byAge, id), SwapRemove(o.bySlot, id))
    case Change(_, _) => o
  }

  function OrderRun(o: Order, ops: seq<Op>, cfg: Config): Order
    requires cfg.Valid()
  {
    if ops == [] then o else OrderStep(OrderRun(o, ops[..|ops| - 1], cfg), ops[|ops| - 1], cfg)
  }

  /** The order after the calls `ops` on an empty store. */
  function OrderAfter(ops: seq<Op>, cfg: Config): Order
    requires cfg.Valid()
  {
    OrderRun(Order([], []), ops, cfg)
  }

  // ---- The order of a state ----

  function Ids(q: seq<Raw>): (ids: seq<u64>)
    ensures |ids| == |q| && forall k :: 0 <= k < |q| ==> ids[k] == SpanId(q[k])
  {
    seq(|q|, k requires 0 <= k < |q| => SpanId(q[k]))
  }

  function SlotIds(slots: seq<Slot>, n: nat): (ids: seq<u64>)
    requires n <= |slots|
    ensures |ids| == n && forall i :: 0 <= i < n ==> ids[i] == SpanId(slots[i].raw)
  {
    seq(n, i requires 0 <= i < n => SpanId(slots[i].raw))
  }

  function OrderOf(st: State): Order
    requires st.img.count <= |st.img.slots|
  {
    Order(Ids(QueueOf(st)), SlotIds(st.img.slots, st.img.count))
  }

  // ---- By age ----

  lemma IdInIds(q: seq<Raw>, id: u64)
    ensures id in Ids(q) <==> HasId(q, id)
  {
    hide SpanId;
    if HasId(q, id) {
      var k :| 0 <= k < |q| && SpanId(q[k]) == id;
      assert Ids(q)[k] == id;
    }
  }

  lemma WithoutNone(id: u64)
    ensures Without([], id) == []
  {
  }

  lemma WithoutLast(ids: seq<u64>, last: u64, id: u64)
    ensures Without(ids + [last], id) == Without(ids, id) + if last == id then [] else [last]
  {
    assert (ids + [last])[..|ids|] == ids;
  }

  lemma {:induction false} IdsWithout(q: seq<Raw>, id: u64)
    ensures Ids(RemoveId(q, id)) == Without(Ids(q), id)
  {
    hide SpanId, RemoveId, Without;
    if q == [] {
      RemoveIdOfOne([], id);
      WithoutNone(id);
    } else {
      var front, last := q[..|q| - 1], q[|q| - 1];
      assert q == front + [last] && Ids(q) == Ids(front) + [SpanId(last)];
      IdsWithout(front, id);
      RemoveIdConcat(front, [last], id);
      RemoveIdOfOne(last, id);
      WithoutLast(Ids(front), SpanId(last), id);
    }
  }

  lemma EditKeepsId(raw: Raw, e: Edit, maxAttributes: nat)
    requires maxAttributes < U64_MAX
    ensures SpanId(EditRaw(raw, e, maxAttributes)) == SpanId(raw)
  {
    hide RawOk, SpanId;
    if RawOk(raw, maxAttributes) { EditKeepsOk(raw, e, maxAttributes); }
  }

  lemma IdsEdited(q: seq<Raw>, id: u64, e: Edit, maxAttributes: nat)
    requires maxAttributes < U64_MAX
    ensures Ids(UpdateId(q, id, e, maxAttributes)) == Ids(q)
  {
    hide SpanId, EditRaw, UpdateId;
    forall k | 0 <= k < |q| ensures SpanId(UpdateId(q, id, e, maxAttributes)[k]) == SpanId(q[k]) {
      EditKeepsId(q[k], e, maxAttributes);
    }
  }

  lemma AgeStep(q: seq<Raw>, slots: seq<u64>, op: Op, cfg: Config)
    requires cfg.Valid()
    ensures Ids(QueueStep(q, op, cfg)) == OrderStep(Order(Ids(q), slots), op, cfg).byAge
  {
    hide SpanId, ToRaw, EditRaw, HasId, RemoveId, UpdateId, Without, SwapRemove;
    match op
    case Add(span) =>
      IdInIds(q, span.id);
      ToRawHasId(span, cfg.maxAttributes);
    case Remove(id) => IdsWithout(q, id);
    case Change(id, e) => IdsEdited(q, id, e, cfg.maxAttributes);
  }

  // ---- By slot ----

  lemma SlotOfId(st: State, id: u64, cfg: Config)
    requires Inv(st, cfg) && st.img.count <= |st.img.slots|
    ensures Place(SlotIds(st.img.slots, st.img.count), id) == if id in st.index then st.index[id] else st.img.count
  {
    hide RawOk, SpanId, MarksOk, SpansOk, Place;
    if id in st.index { IndexInRange(st, cfg, id); }
  }

  lemma SlotsAfterRemove(st: State, id: u64, cfg: Config)
    requires Inv(st, cfg) && st.img.count <= |st.img.slots|
    ensures id in st.index ==> st.index[id] < st.img.count
    ensures SwapRemove(SlotIds(st.img.slots, st.img.count), id)
      == if id in st.index then SlotIds(RemoveImage(st.img, st.index[id]).slots, st.img.count - 1)
         else SlotIds(st.img.slots, st.img.count)
  {
    hide RawOk, SpanId, MarksOk, SpansOk, IndexOk, Place;
    SlotOfId(st, id, cfg);
    if id in st.index { IndexInRange(st, cfg, id); }
  }

  lemma RoomOrder(st: State, cfg: Config)
    requires Inv(st, cfg)
    ensures st.img.count <= |st.img.slots| && |QueueOf(st)| == st.img.count
    ensures var room, o := MakeRoom(st, cfg), OrderOf(st);
      && room.img.count <= |room.img.slots|
      && SlotIds(room.img.slots, room.img.count)
         == if |o.byAge| >= cfg.maxSpans then SwapRemove(o.bySlot, o.byAge[0]) else o.bySlot
  {
    hide RawOk, SpanId, MarksOk, SpansOk, IndexOk, OldestScan, Queue, SwapRemove, RemoveImage;
    CountBound(st, cfg);
    QueueOfState(st, cfg, 0);
    if st.img.count == cfg.maxSpans {
      EvictsHead(st, cfg);
      SlotsAfterRemove(st, SpanId(QueueOf(st)[0]), cfg);
    }
  }

  lemma AddOrder(st: State, span: Span, cfg: Config)
    requires Inv(st, cfg) && CanStep(st, Add(span))
    ensures st.img.count <= |st.img.slots|
    ensures var next := Next(st, Add(span), cfg).img;
      next.count <= |next.slots| && SlotIds(next.slots, next.count) == OrderStep(OrderOf(st), Add(span), cfg).bySlot
  {
    hide RawOk, SpanId, Inv, Queue, MakeRoom, SwapRemove, ToRaw, HasId;
    CountBound(st, cfg);
    QueueOfState(st, cfg, span.id);
    IdInIds(QueueOf(st), span.id);
    RoomOrder(st, cfg);
    RoomIsMade(st, cfg);
    ToRawHasId(span, cfg.maxAttributes);
    if span.id !in st.index {
      var room, raw := MakeRoom(st, cfg), ToRaw(span, cfg.maxAttributes);
      CountBound(room, cfg);
      AddedLast(room.img, room.marks + 1, raw);
    }
  }

  lemma AddedLast(img: Image, mark: u64, raw: Raw)
    requires img.count < |img.slots| && img.count < U64_MAX
    ensures SlotIds(AddImage(img, mark, raw).slots, img.count + 1) == SlotIds(img.slots, img.count) + [SpanId(raw)]
  {
    hide SpanId;
  }

  lemma ChangeOrder(st: State, id: u64, e: Edit, cfg: Config)
    requires Inv(st, cfg)
    ensures var next := Next(st, Change(id, e), cfg).img;
      && st.img.count <= |st.img.slots| && next.count == st.img.count && |next.slots| == |st.img.slots|
      && SlotIds(next.slots, next.count) == SlotIds(st.img.slots, st.img.count)
  {
    hide RawOk, SpanId, Inv, EditRaw;
    CountBound(st, cfg);
    if id in st.index {
      IndexInRange(st, cfg, id);
      EditKeepsId(st.img.slots[st.index[id]].raw, e, cfg.maxAttributes);
    }
  }

  /** Every call keeps the two orders as `OrderStep` says. */
  lemma StepRefinesOrder(st: State, op: Op, cfg: Config)
    requires Inv(st, cfg) && CanStep(st, op)
    ensures st.img.count <= |st.img.slots| && Next(st, op, cfg).img.count <= |Next(st, op, cfg).img.slots|
    ensures OrderOf(Next(st, op, cfg)) == OrderStep(OrderOf(st), op, cfg)
  {
    hide RawOk, SpanId, Inv, QueueOf, MakeRoom, SwapRemove, Without, QueueStep, RemoveImage;
    CountBound(st, cfg);
    StepRefinesQueue(st, op, cfg);
    CountBound(Next(st, op, cfg), cfg);
    AgeStep(QueueOf(st), OrderOf(st).bySlot, op, cfg);
    match op
    case Add(span) => AddOrder(st, span, cfg);
    case Remove(id) => SlotsAfterRemove(st, id, cfg);
    case Change(id, e) => ChangeOrder(st, id, e, cfg);
  }

  /** So where each span lies after a run of calls is a function of the calls. */
  lemma {:induction false} RunRefinesOrder(st: State, ops: seq<Op>, cfg: Config)
    requires Inv(st, cfg) && st.marks + AddCount(ops) < U64_MAX && IdsNonZero(ops)
    ensures st.img.count <= |st.img.slots| && Run(st, ops, cfg).img.count <= |Run(st, ops, cfg).img.slots|
    ensures OrderOf(Run(st, ops, cfg)) == OrderRun(OrderOf(st), ops, cfg)
    ensures LastSlotId(Run(st, ops, cfg).img) == OrderRun(OrderOf(st), ops, cfg).Last()
  {
    hide Inv, Next, OrderStep, QueueOf, SpanId;
    CountBound(st, cfg);
    CountBound(Run(st, ops, cfg), cfg);
    if ops != [] {
      var front := ops[..|ops| - 1];
      RunRefinesOrder(st, front, cfg);
      StepRefinesOrder(Run(st, front, cfg), ops[|ops| - 1], cfg);
    }
  }
}
