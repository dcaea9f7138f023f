/** The span store: what each operation stores, the state it leads to, and the bounded queue in
    insertion order that the whole of it is. */
module SpanStore {
  import opened Bytes
  import opened CopyString
  import opened Codec
  import opened Attributes
  import opened Layout
  import opened SlotQueue

  // ---- Operations and their stores ----

  datatype Edit = EndAt(time: u64) | PutAttr(key: seq<byte>, value: seq<byte>)

  datatype Op = Add(span: Span) | Remove(id: u64) | Change(id: u64, edit: Edit)

  function EditPuts(raw: Raw, e: Edit, maxAttributes: nat): seq<Put>
    requires RawOk(raw, maxAttributes) && maxAttributes < U64_MAX
  {
    match e
    case EndAt(t) => [WordPut(END, t)]
    case PutAttr(key, value) => SetAttrPuts(raw, key, value, maxAttributes)
  }

  /** The raw span after an edit. */
  function EditRaw(raw: Raw, e: Edit, maxAttributes: nat): (r: Raw)
    requires maxAttributes < U64_MAX
    ensures |r| == |raw|
  {
    if !RawOk(raw, maxAttributes) then raw
    else
      match e
      case EndAt(t) => WithWord(raw, END, t)
      case PutAttr(key, value) => SetAttr(raw, key, value, maxAttributes)
  }

  function FieldStores(i: nat, ps: seq<Put>): (ss: seq<Store>)
    ensures |ss| == |ps| && forall k :: 0 <= k < |ps| ==> ss[k] == SetField(i, ps[k].at, ps[k].bytes)
  {
    if ps == [] then []
    else FieldStores(i, ps[..|ps| - 1]) + [SetField(i, ps[|ps| - 1].at, ps[|ps| - 1].bytes)]
  }

  /** `RawSpanData::add`: clear the mark, write the span, set the mark, bump the count. */
  function AddStores(img: Image, mark: u64, raw: Raw): seq<Store>
    requires img.count < U64_MAX
  {
    var n := img.count;
    [SetMark(n, 0), SetSpan(n, raw), SetMark(n, mark), SetCount(n + 1)]
  }

  /** `RawSpanData::remove`: clear the mark; unless it is the last, move the last span in,
      mark it there, and only then clear its old mark; drop the count. */
  function RemoveStores(img: Image, i: nat): seq<Store>
    requires i < img.count <= |img.slots|
  {
    var last := img.count - 1;
    if i == last then [SetMark(i, 0), SetCount(last)]
    else [SetMark(i, 0), SetSpan(i, img.slots[last].raw), SetMark(i, img.slots[last].mark), SetMark(last, 0), SetCount(last)]
  }

  function AddImage(img: Image, mark: u64, raw: Raw): Image
    requires img.count < |img.slots| && img.count < U64_MAX
  {
    Image(img.count + 1, img.slots[img.count := Slot(mark, raw)])
  }

  function RemoveImage(img: Image, i: nat): (r: Image)
    requires i < img.count <= |img.slots|
    ensures |r.slots| == |img.slots| && r.count == img.count - 1
  {
    var last := img.count - 1;
    var moved := img.slots[i := img.slots[last]];
    Image(last, moved[last := moved[last].(mark := 0)])
  }

  function EditImage(img: Image, i: nat, raw: Raw): Image
    requires i < |img.slots|
  {
    img.(slots := img.slots[i := img.slots[i].(raw := raw)])
  }

  // ---- State ----

  /** The file, and what the process keeps beside it: the mark counter and the index. */
  datatype State = State(img: Image, marks: u64, index: map<u64, nat>)

  ghost predicate MarksOk(slots: seq<Slot>, n: nat, marks: u64)
    requires n <= |slots|
  {
    && DistinctMarks(slots, n)
    && (forall i :: 0 <= i < n ==> 1 <= slots[i].mark <= marks)
    && (forall i :: n <= i < |slots| ==> slots[i].mark == 0)
  }

  predicate SpansOk(slots: seq<Slot>, n: nat, maxAttributes: nat)
    requires n <= |slots|
  {
    forall i :: 0 <= i < n ==> RawOk(slots[i].raw, maxAttributes) && SpanId(slots[i].raw) != 0
  }

  /** The index is a bijection between the ids of the live spans and their slots. */
  ghost predicate IndexOk(slots: seq<Slot>, n: nat, index: map<u64, nat>)
    requires n <= |slots|
  {
    && (forall i :: 0 <= i < n ==> SpanId(slots[i].raw) in index && index[SpanId(slots[i].raw)] == i)
    && (forall id :: id in index ==> index[id] < n && SpanId(slots[index[id]].raw) == id)
  }

  ghost predicate Inv(st: State, cfg: Config) {
    && cfg.Valid() && ImageOk(st.img, cfg) && st.img.count <= cfg.maxSpans && st.marks < U64_MAX
    && MarksOk(st.img.slots, st.img.count, st.marks)
    && SpansOk(st.img.slots, st.img.count, cfg.maxAttributes)
    && IndexOk(st.img.slots, st.img.count, st.index)
  }

  /** The live spans, oldest first. */
  function QueueOf(st: State): seq<Raw>
    requires st.img.count <= |st.img.slots|
  {
    Queue(st.img.slots, st.img.count, st.marks)
  }

  // ---- Steps ----

  function AddSpan(st: State, raw: Raw): State
    requires st.img.count < |st.img.slots| && st.img.count < U64_MAX && st.marks < U64_MAX
  {
    State(AddImage(st.img, st.marks + 1, raw), st.marks + 1, st.index[SpanId(raw) := st.img.count])
  }

  /** The id of the span that `RawSpanData::remove` moved, or 0. */
  function MovedId(img: Image, i: nat): u64
    requires i < img.count <= |img.slots|
  {
    if i == img.count - 1 then 0 else SpanId(img.slots[img.count - 1].raw)
  }

  /** The id of the span in the last live slot, which a removal moves, or 0. */
  function LastSlotId(img: Image): u64
    requires img.count <= |img.slots|
  {
    if img.count == 0 then 0 else SpanId(img.slots[img.count - 1].raw)
  }

  function RemoveSpan(st: State, id: u64): State
    requires id in st.index && st.index[id] < st.img.count <= |st.img.slots|
  {
    var i := st.index[id];
    var moved := MovedId(st.img, i);
    State(RemoveImage(st.img, i), st.marks, (if moved > 0 then st.index[moved := i] else st.index) - {id})
  }

  function ChangeSpan(st: State, id: u64, e: Edit, maxAttributes: nat): State
    requires id in st.index && st.index[id] < |st.img.slots| && maxAttributes < U64_MAX
  {
    var i := st.index[id];
    st.(img := EditImage(st.img, i, EditRaw(st.img.slots[i].raw, e, maxAttributes)))
  }

  /** The scan for the oldest span: the least mark seen and the id in its slot. */
  function OldestScan(slots: seq<Slot>, n: nat): (r: (u64, u64))
    requires n <= |slots|
  {
    if n == 0 then (U64_MAX, 0)
    else
      var r := OldestScan(slots, n - 1);
      if slots[n - 1].mark < r.0 then (slots[n - 1].mark, SpanId(slots[n - 1].raw)) else r
  }

  /** The state once a full store has dropped its oldest span. */
  ghost function MakeRoom(st: State, cfg: Config): State
    requires Inv(st, cfg)
  {
    var oldest := OldestScan(st.img.slots, st.img.count).1;
    if st.img.count == cfg.maxSpans && oldest != 0 && oldest in st.index then RemoveSpan(st, oldest) else st
  }

  ghost function Next(st: State, op: Op, cfg: Config): State
    requires Inv(st, cfg)
  {
    match op
    case Add(span) =>
      var room := MakeRoom(st, cfg);
      if span.id in st.index || room.img.count >= cfg.maxSpans then st
      else AddSpan(room, ToRaw(span, cfg.maxAttributes))
    case Remove(id) => if id in st.index then RemoveSpan(st, id) else st
    case Change(id, e) => if id in st.index then ChangeSpan(st, id, e, cfg.maxAttributes) else st
  }

  // ---- The steps keep the invariant ----

  lemma AddKeepsMarks(img: Image, mark: u64, raw: Raw, marks: u64)
    requires img.count < |img.slots| && img.count < U64_MAX && MarksOk(img.slots, img.count, marks) && mark == marks + 1
    ensures MarksOk(AddImage(img, mark, raw).slots, img.count + 1, mark)
  {
  }

  lemma AddKeepsIndex(img: Image, mark: u64, raw: Raw, index: map<u64, nat>)
    requires img.count < |img.slots| && img.count < U64_MAX && IndexOk(img.slots, img.count, index)
    requires SpanId(raw) !in index
    ensures IndexOk(AddImage(img, mark, raw).slots, img.count + 1, index[SpanId(raw) := img.count])
  {
    hide SpanId;
  }

  lemma AddKeepsSpans(img: Image, mark: u64, raw: Raw, maxAttributes: nat)
    requires img.count < |img.slots| && img.count < U64_MAX && SpansOk(img.slots, img.count, maxAttributes)
    requires RawOk(raw, maxAttributes) && SpanId(raw) != 0
    ensures SpansOk(AddImage(img, mark, raw).slots, img.count + 1, maxAttributes) && |raw| == RawSize(maxAttributes)
  {
    assert |raw| == RawSize(maxAttributes);
    hide RawOk, SpanId;
  }

  lemma AddKeepsInv(st: State, raw: Raw, cfg: Config)
    requires Inv(st, cfg) && st.img.count < cfg.maxSpans && st.marks + 1 < U64_MAX
    requires RawOk(raw, cfg.maxAttributes) && SpanId(raw) != 0 && SpanId(raw) !in st.index
    ensures Inv(AddSpan(st, raw), cfg)
  {
    hide SpanId, MarksOk, IndexOk, SpansOk;
    AddKeepsSpans(st.img, st.marks + 1, raw, cfg.maxAttributes);
    AddKeepsMarks(st.img, st.marks + 1, raw, st.marks);
    AddKeepsIndex(st.img, st.marks + 1, raw, st.index);
  }

  lemma RemoveKeepsMarks(img: Image, i: nat, marks: u64)
    requires i < img.count <= |img.slots| && MarksOk(img.slots, img.count, marks)
    ensures MarksOk(RemoveImage(img, i).slots, img.count - 1, marks)
  {
  }

  lemma RemoveKeepsIndex(st: State, id: u64)
    requires st.img.count <= |st.img.slots| && IndexOk(st.img.slots, st.img.count, st.index)
    requires id in st.index && 0 !in st.index
    ensures IndexOk(RemoveSpan(st, id).img.slots, RemoveSpan(st, id).img.count, RemoveSpan(st, id).index)
  {
    hide SpanId;
    var i := st.index[id];
    var last := st.img.count - 1;
    assert SpanId(st.img.slots[last].raw) in st.index;
  }

  lemma NoZeroId(st: State, cfg: Config)
    requires Inv(st, cfg)
    ensures 0 !in st.index
  {
  }

  lemma RemoveKeepsInv(st: State, id: u64, cfg: Config)
    requires Inv(st, cfg) && id in st.index
    ensures Inv(RemoveSpan(st, id), cfg)
  {
    hide RawOk, SpanId, MarksOk, IndexOk, DistinctMarks;
    NoZeroId(st, cfg);
    assert st.index[id] < st.img.count by { IndexInRange(st, cfg, id); }
    RemoveKeepsMarks(st.img, st.index[id], st.marks);
    RemoveKeepsIndex(st, id);
  }

  lemma IndexInRange(st: State, cfg: Config, id: u64)
    requires Inv(st, cfg) && id in st.index
    ensures st.index[id] < st.img.count && SpanId(st.img.slots[st.index[id]].raw) == id
  {
  }

  /** An edit keeps a raw span fit to recover and keeps its id. */
  lemma EditKeepsOk(raw: Raw, e: Edit, maxAttributes: nat)
    requires RawOk(raw, maxAttributes) && maxAttributes < U64_MAX
    ensures RawOk(EditRaw(raw, e, maxAttributes), maxAttributes)
    ensures SpanId(EditRaw(raw, e, maxAttributes)) == SpanId(raw)
  {
    match e
    case EndAt(t) => EndKeepsOk(raw, t, maxAttributes);
    case PutAttr(key, value) => SetAttrKeepsOk(raw, key, value, maxAttributes);
  }

  lemma EndKeepsOk(raw: Raw, t: u64, maxAttributes: nat)
    requires RawOk(raw, maxAttributes)
    ensures var r := WithWord(raw, END, t);
      && RawOk(r, maxAttributes) && RawId(r) == RawId(raw)
      && FromRaw(r, maxAttributes) == FromRaw(raw, maxAttributes).(end := t)
      && Attrs(r, maxAttributes) == Attrs(raw, maxAttributes) && AttrCount(r) == AttrCount(raw)
      && forall j :: 0 <= j < AttrCount(raw) ==> RawKey(r, j) == RawKey(raw, j)
  {
    hide Word, EncodeWord, CString, AttrsUpTo, Visible;
    var b := EncodeWord(t);
    var r := WithWord(raw, END, t);
    WordOfSplice(raw, END, t);
    OtherWord(raw, END, b, TRACE_HIGH);
    OtherWord(raw, END, b, TRACE_LOW);
    OtherWord(raw, END, b, ID);
    OtherWord(raw, END, b, PARENT);
    OtherWord(raw, END, b, START);
    OtherWord(raw, END, b, ATTR_COUNT);
    SliceOfSplice(raw, END, b, NAME, NAME + NAME_SIZE);
    forall j | 0 <= j < AttrCount(raw) ensures RawKey(r, j) == RawKey(raw, j) && RawValue(r, j) == RawValue(raw, j) {
      SliceOfSplice(raw, END, b, KeyAt(j), KeyAt(j) + KEY_SIZE);
      SliceOfSplice(raw, END, b, ValueAt(j), ValueAt(j) + VALUE_SIZE);
    }
    assert Attrs(r, maxAttributes) == Attrs(raw, maxAttributes);
  }

  lemma ChangeKeepsInv(st: State, id: u64, e: Edit, cfg: Config)
    requires Inv(st, cfg) && id in st.index
    ensures Inv(ChangeSpan(st, id, e, cfg.maxAttributes), cfg)
  {
    hide RawOk, SpanId, EditRaw;
    EditKeepsOk(st.img.slots[st.index[id]].raw, e, cfg.maxAttributes);
  }

  // ---- The queue each step leads to ----

  lemma NewestLast(slots: seq<Slot>, n: nat, t: seq<Slot>, marks: u64)
    requires n <= |slots| && n < |t| && marks < U64_MAX && forall i :: 0 <= i < n ==> t[i] == slots[i]
    requires DistinctMarks(t, n + 1) && t[n].mark == marks + 1
    ensures Queue(t, n + 1, marks + 1) == Queue(slots, n, marks) + [t[n].raw]
  {
    hide Entry, DistinctMarks;
    forall q: u64 | 1 <= q <= marks ensures Entry(slots, n, q) == Entry(t, n + 1, q) {
      EntryFrame(slots, n, t, q);
    }
    QueueFrame(slots, n, t, n + 1, marks);
    MarkFound(t, n + 1, n);
  }

  lemma AddAppends(st: State, raw: Raw, cfg: Config)
    requires Inv(st, cfg) && st.img.count < cfg.maxSpans && st.marks + 1 < U64_MAX
    ensures QueueOf(AddSpan(st, raw)) == QueueOf(st) + [raw]
  {
    hide RawOk, SpanId, SpansOk, IndexOk, Queue, DistinctMarks;
    AddKeepsMarks(st.img, st.marks + 1, raw, st.marks);
    NewestLast(st.img.slots, st.img.count, AddImage(st.img, st.marks + 1, raw).slots, st.marks);
  }

  lemma EntryFrame(slots: seq<Slot>, n: nat, t: seq<Slot>, q: u64)
    requires n <= |slots| && n < |t| && t[n].mark != q && forall i :: 0 <= i < n ==> t[i] == slots[i]
    ensures Entry(t, n + 1, q) == Entry(slots, n, q)
  {
    hide FindMark;
    var r, k := FindMark(slots, n, q), FindMark(t, n + 1, q);
    if r < n { assert t[r].mark == q; }
  }

  /** What an image shows for a mark: the span in the one slot that bears it. */
  lemma EntryAt(slots: seq<Slot>, n: nat, marks: u64, i: nat, q: u64)
    requires n <= |slots| && MarksOk(slots, n, marks) && i < n && slots[i].mark == q
    ensures Entry(slots, n, q) == [slots[i].raw]
  {
    MarkFound(slots, n, i);
  }

  lemma RemoveIdOfOne(r: Raw, id: u64)
    ensures RemoveId([r], id) == if SpanId(r) == id then [] else [r]
    ensures RemoveId([], id) == []
  {
    assert [r][..0] == [];
  }

  lemma EntryRemoved(st: State, id: u64, cfg: Config, q: u64)
    requires Inv(st, cfg) && id in st.index
    requires st.index[id] < st.img.count
    ensures var r := RemoveImage(st.img, st.index[id]);
      Entry(r.slots, r.count, q) == RemoveId(Entry(st.img.slots, st.img.count, q), id)
  {
    hide RawOk, SpanId, SpansOk, Entry, RemoveId, DistinctMarks, IndexOk;
    var i, n, slots := st.index[id], st.img.count, st.img.slots;
    RemoveKeepsMarks(st.img, i, st.marks);
    RemoveIdOfOne(slots[i].raw, id);
    if j :| 0 <= j < n && slots[j].mark == q {
      EntryAt(slots, n, st.marks, j, q);
      RemoveIdOfOne(slots[j].raw, id);
      IdOfSlot(st, cfg, id, j);
      EntryInRemoved(st.img, i, st.marks, j);
    } else {
      MarkMissing(slots, n, q);
      MarkMissing(RemoveImage(st.img, i).slots, n - 1, q);
    }
  }

  lemma IdOfSlot(st: State, cfg: Config, id: u64, j: nat)
    requires Inv(st, cfg) && id in st.index && j < st.img.count
    ensures SpanId(st.img.slots[j].raw) == id <==> j == st.index[id]
  {
    hide RawOk, SpanId;
  }

  lemma EntryInRemoved(img: Image, i: nat, marks: u64, j: nat)
    requires i < img.count <= |img.slots| && j < img.count && MarksOk(img.slots, img.count, marks)
    ensures var r := RemoveImage(img, i);
      Entry(r.slots, r.count, img.slots[j].mark) == if j == i then [] else [img.slots[j].raw]
  {
    hide Entry, DistinctMarks;
    var r, n := RemoveImage(img, i), img.count;
    RemoveKeepsMarks(img, i, marks);
    if j == i {
      NoneWithMark(img, i, marks);
      MarkMissing(r.slots, n - 1, img.slots[j].mark);
    } else {
      EntryAt(r.slots, n - 1, marks, if j == n - 1 then i else j, img.slots[j].mark);
    }
  }

  lemma NoneWithMark(img: Image, i: nat, marks: u64)
    requires i < img.count <= |img.slots| && MarksOk(img.slots, img.count, marks)
    ensures forall k :: 0 <= k < img.count - 1 ==> RemoveImage(img, i).slots[k].mark != img.slots[i].mark
  {
  }

  /** Removing swaps slots but, in mark order, only takes the span out. */
  lemma RemoveDeletes(st: State, id: u64, cfg: Config)
    requires Inv(st, cfg) && id in st.index
    ensures st.index[id] < st.img.count
    ensures QueueOf(RemoveSpan(st, id)) == RemoveId(QueueOf(st), id)
  {
    hide RawOk, SpanId, SpansOk, Entry, RemoveId, DistinctMarks, Queue, MarksOk;
    IndexInRange(st, cfg, id);
    var r := RemoveImage(st.img, st.index[id]);
    forall q: u64 | 1 <= q <= st.marks
      ensures Entry(r.slots, r.count, q) == RemoveId(Entry(st.img.slots, st.img.count, q), id)
    {
      EntryRemoved(st, id, cfg, q);
    }
    QueueRemove(st.img.slots, st.img.count, r.slots, r.count, st.marks, id);
  }

  /** A queue with the span of one id edited. */
  function UpdateId(q: seq<Raw>, id: u64, e: Edit, maxAttributes: nat): (r: seq<Raw>)
    requires maxAttributes < U64_MAX
    ensures |r| == |q|
    ensures forall k :: 0 <= k < |q| ==> r[k] == if SpanId(q[k]) == id then EditRaw(q[k], e, maxAttributes) else q[k]
  {
    hide EditRaw, SpanId;
    if q == [] then []
    else
      var last := q[|q| - 1];
      UpdateId(q[..|q| - 1], id, e, maxAttributes) + [if SpanId(last) == id then EditRaw(last, e, maxAttributes) else last]
  }

  lemma EntryChanged(st: State, id: u64, e: Edit, cfg: Config, q: u64)
    requires Inv(st, cfg) && id in st.index && st.index[id] < st.img.count
    ensures Entry(ChangeSpan(st, id, e, cfg.maxAttributes).img.slots, st.img.count, q)
         == UpdateId(Entry(st.img.slots, st.img.count, q), id, e, cfg.maxAttributes)
  {
    hide RawOk, SpanId, SpansOk, Entry, UpdateId, EditRaw;
    var i, n, slots := st.index[id], st.img.count, st.img.slots;
    var t := ChangeSpan(st, id, e, cfg.maxAttributes).img.slots;
    if j :| 0 <= j < n && slots[j].mark == q {
      EntryAt(slots, n, st.marks, j, q);
      EntryAt(t, n, st.marks, j, q);
    } else {
      MarkMissing(slots, n, q);
      MarkMissing(t, n, q);
    }
  }

  lemma {:induction false} QueueChange(st: State, id: u64, e: Edit, cfg: Config, m: u64)
    requires Inv(st, cfg) && id in st.index && st.index[id] < st.img.count
    ensures Queue(ChangeSpan(st, id, e, cfg.maxAttributes).img.slots, st.img.count, m)
         == UpdateId(Queue(st.img.slots, st.img.count, m), id, e, cfg.maxAttributes)
  {
    hide RawOk, SpanId, UpdateId, EditRaw, Entry, Inv, ChangeSpan;
    if m > 0 {
      QueueChange(st, id, e, cfg, m - 1);
      EntryChanged(st, id, e, cfg, m);
    }
  }

  // ---- Eviction ----

  /** The scan finds the least mark and the id of the span that bears it. */
  lemma {:induction false} OldestScanFindsLeast(slots: seq<Slot>, n: nat) returns (v: nat)
    requires 0 < n <= |slots| && forall i :: 0 <= i < n ==> slots[i].mark < U64_MAX
    ensures v < n && OldestScan(slots, n) == (slots[v].mark, SpanId(slots[v].raw))
    ensures forall i :: 0 <= i < n ==> slots[v].mark <= slots[i].mark
  {
    hide SpanId;
    if n == 1 {
      v := 0;
      assert OldestScan(slots, 0) == (U64_MAX, 0);
    } else {
      v := OldestScanFindsLeast(slots, n - 1);
      if slots[n - 1].mark < slots[v].mark { v := n - 1; }
    }
  }

  /** The span that a full store drops is the head of the queue. */
  lemma EvictsHead(st: State, cfg: Config)
    requires Inv(st, cfg) && st.img.count > 0
    ensures var q, oldest := QueueOf(st), OldestScan(st.img.slots, st.img.count).1;
      && |q| > 0 && oldest != 0 && oldest in st.index && oldest == SpanId(q[0])
      && RemoveId(q, oldest) == q[1..]
  {
    hide RawOk, SpanId, OldestScan, Queue, RemoveId;
    var slots, n := st.img.slots, st.img.count;
    var v := OldestScanFindsLeast(slots, n);
    OldestIsHead(slots, n, v, st.marks);
    QueueDistinctIds(slots, n, st.marks);
    RemoveHead(QueueOf(st));
  }

  // ---- The bounded queue ----

  /** The whole store, as a queue in insertion order that holds at most `maxSpans` spans. */
  function QueueStep(q: seq<Raw>, op: Op, cfg: Config): seq<Raw>
    requires cfg.Valid()
  {
    match op
    case Add(span) =>
      if HasId(q, span.id) then q
      else (if |q| >= cfg.maxSpans then q[1..] else q) + [ToRaw(span, cfg.maxAttributes)]
    case Remove(id) => RemoveId(q, id)
    case Change(id, e) => UpdateId(q, id, e, cfg.maxAttributes)
  }

  /** The index knows exactly the ids in the queue, and the queue is as long as the count. */
  lemma QueueOfState(st: State, cfg: Config, id: u64)
    requires Inv(st, cfg)
    ensures |QueueOf(st)| == st.img.count
    ensures HasId(QueueOf(st), id) <==> id in st.index
    ensures DistinctIds(QueueOf(st))
    ensures multiset(QueueOf(st)) == multiset(Scan(st.img.slots, st.img.count))
  {
    hide RawOk, SpanId, Queue, Scan;
    var slots, n, q := st.img.slots, st.img.count, QueueOf(st);
    QueueIsScan(slots, n, st.marks);
    ScanAllMarked(slots, n);
    assert |multiset(q)| == |q|;
    assert |multiset(Scan(slots, n))| == n;
    QueueDistinctIds(slots, n, st.marks);
    if id in st.index {
      var i := st.index[id];
      assert Scan(slots, n)[i] in multiset(q);
      var k :| 0 <= k < |q| && q[k] == slots[i].raw;
    }
    if k :| 0 <= k < |q| && SpanId(q[k]) == id {
      QueueMembers(slots, n, st.marks, q[k]);
    }
  }

  lemma {:induction false} UpdateAbsent(q: seq<Raw>, id: u64, e: Edit, maxAttributes: nat)
    requires !HasId(q, id) && maxAttributes < U64_MAX
    ensures UpdateId(q, id, e, maxAttributes) == q
  {
  }

  lemma {:induction false} RemoveAbsent(q: seq<Raw>, id: u64)
    requires !HasId(q, id)
    ensures RemoveId(q, id) == q
  {
    hide SpanId, RemoveId;
    if q == [] {
      RemoveIdOfOne([], id);
    } else {
      var front, last := q[..|q| - 1], q[|q| - 1];
      assert q == front + [last];
      assert !HasId(front, id) by { assert forall k :: 0 <= k < |front| ==> front[k] == q[k]; }
      RemoveAbsent(front, id);
      RemoveIdConcat(front, [last], id);
      RemoveIdOfOne(last, id);
    }
  }

  /** What the store demands of its callers: ids are not zero, and the mark counter has room. */
  predicate CanStep(st: State, op: Op) {
    op.Add? ==> op.span.id != 0 && st.marks + 1 < U64_MAX
  }

  lemma RoomIsMade(st: State, cfg: Config)
    requires Inv(st, cfg)
    ensures var room := MakeRoom(st, cfg);
      && Inv(room, cfg) && room.img.count < cfg.maxSpans && room.marks == st.marks
      && QueueOf(room) == (if |QueueOf(st)| >= cfg.maxSpans then QueueOf(st)[1..] else QueueOf(st))
      && (forall id :: id in room.index ==> id in st.index)
  {
    hide RawOk, SpanId, Queue, RemoveId, OldestScan, MarksOk, SpansOk, RemoveImage;
    QueueOfState(st, cfg, 0);
    if st.img.count == cfg.maxSpans {
      var oldest := OldestScan(st.img.slots, st.img.count).1;
      EvictsHead(st, cfg);
      RemoveKeepsInv(st, oldest, cfg);
      RemoveDeletes(st, oldest, cfg);
    }
  }

  /** Every step keeps the invariant and is the step of the bounded queue. */
  lemma StepRefinesQueue(st: State, op: Op, cfg: Config)
    requires Inv(st, cfg) && CanStep(st, op)
    ensures Inv(Next(st, op, cfg), cfg)
    ensures QueueOf(Next(st, op, cfg)) == QueueStep(QueueOf(st), op, cfg)
    ensures Next(st, op, cfg).marks <= st.marks + if op.Add? then 1 else 0
  {
    hide RawOk, SpanId, Queue, RemoveId, OldestScan, Inv, MakeRoom, ToRaw, UpdateId, HasId, AddImage, RemoveImage;
    CountBound(st, cfg);
    match op
    case Add(span) =>
      QueueOfState(st, cfg, span.id);
      RoomIsMade(st, cfg);
      ToRawHasId(span, cfg.maxAttributes);
      if span.id !in st.index {
        var room := MakeRoom(st, cfg);
        CountBound(room, cfg);
        AddKeepsInv(room, ToRaw(span, cfg.maxAttributes), cfg);
        AddAppends(room, ToRaw(span, cfg.maxAttributes), cfg);
      }
    case Remove(id) =>
      QueueOfState(st, cfg, id);
      if id in st.index {
        RemoveKeepsInv(st, id, cfg);
        RemoveDeletes(st, id, cfg);
      } else {
        RemoveAbsent(QueueOf(st), id);
      }
    case Change(id, e) =>
      QueueOfState(st, cfg, id);
      if id in st.index {
        IndexInRange(st, cfg, id);
        ChangeKeepsInv(st, id, e, cfg);
        QueueChange(st, id, e, cfg, st.marks);
      } else {
        UpdateAbsent(QueueOf(st), id, e, cfg.maxAttributes);
      }
  }

  lemma CountBound(st: State, cfg: Config)
    requires Inv(st, cfg)
    ensures st.img.count <= |st.img.slots| == cfg.maxSpans && cfg.Valid()
  {
  }

  lemma ToRawHasId(span: Span, maxAttributes: nat)
    requires maxAttributes < U64_MAX
    ensures RawOk(ToRaw(span, maxAttributes), maxAttributes) && SpanId(ToRaw(span, maxAttributes)) == span.id
  {
    hide Word, ToRaw;
    ToRawIsOk(span, maxAttributes);
  }

  // ---- Runs ----

  predicate IdsNonZero(ops: seq<Op>) {
    forall op :: op in ops && op.Add? ==> op.span.id != 0
  }

  function AddCount(ops: seq<Op>): (n: nat)
    ensures n <= |ops|
  {
    if ops == [] then 0 else AddCount(ops[..|ops| - 1]) + if ops[|ops| - 1].Add? then 1 else 0
  }

  ghost function Run(st: State, ops: seq<Op>, cfg: Config): (r: State)
    requires Inv(st, cfg) && st.marks + AddCount(ops) < U64_MAX && IdsNonZero(ops)
    ensures Inv(r, cfg) && r.marks <= st.marks + AddCount(ops)
  {
    if ops == [] then st
    else
      var was := Run(st, ops[..|ops| - 1], cfg);
      StepRefinesQueue(was, ops[|ops| - 1], cfg);
      Next(was, ops[|ops| - 1], cfg)
  }

  function QueueRun(q: seq<Raw>, ops: seq<Op>, cfg: Config): seq<Raw>
    requires cfg.Valid()
  {
    if ops == [] then q else QueueStep(QueueRun(q, ops[..|ops| - 1], cfg), ops[|ops| - 1], cfg)
  }

  /** Any run of calls is the same run of the bounded queue. */
  lemma {:induction false} RunRefinesQueue(st: State, ops: seq<Op>, cfg: Config)
    requires Inv(st, cfg) && st.marks + AddCount(ops) < U64_MAX && IdsNonZero(ops)
    ensures QueueOf(Run(st, ops, cfg)) == QueueRun(QueueOf(st), ops, cfg)
  {
    hide Inv, QueueOf, Next, QueueStep;
    if ops != [] {
      RunRefinesQueue(st, ops[..|ops| - 1], cfg);
      StepRefinesQueue(Run(st, ops[..|ops| - 1], cfg), ops[|ops| - 1], cfg);
    }
  }

  // ---- A run of adds ----

  function RawsOf(spans: seq<Span>, maxAttributes: nat): (rs: seq<Raw>)
    requires maxAttributes < U64_MAX
    ensures |rs| == |spans| && forall k :: 0 <= k < |spans| ==> rs[k] == ToRaw(spans[k], maxAttributes)
  {
    hide ToRaw;
    if spans == [] then []
    else RawsOf(spans[..|spans| - 1], maxAttributes) + [ToRaw(spans[|spans| - 1], maxAttributes)]
  }

  function Adds(spans: seq<Span>): (ops: seq<Op>)
    ensures |ops| == |spans| && forall k :: 0 <= k < |spans| ==> ops[k] == Add(spans[k])
  {
    if spans == [] then [] else Adds(spans[..|spans| - 1]) + [Add(spans[|spans| - 1])]
  }

  function LastOf(rs: seq<Raw>, max: nat): seq<Raw> {
    if |rs| <= max then rs else rs[|rs| - max..]
  }

  lemma NotAmongTheLast(spans: seq<Span>, id: u64, cfg: Config)
    requires cfg.Valid() && forall k :: 0 <= k < |spans| ==> spans[k].id != id
    ensures !HasId(LastOf(RawsOf(spans, cfg.maxAttributes), cfg.maxSpans), id)
  {
    hide SpanId, ToRaw, RawsOf;
    var rs := RawsOf(spans, cfg.maxAttributes);
    var q := LastOf(rs, cfg.maxSpans);
    forall k | 0 <= k < |q| ensures SpanId(q[k]) != id {
      var i := if |rs| <= cfg.maxSpans then k else |rs| - cfg.maxSpans + k;
      assert q[k] == rs[i];
      ToRawHasId(spans[i], cfg.maxAttributes);
    }
  }

  lemma LastOfOneMore(rs: seq<Raw>, r: Raw, max: nat)
    requires max > 0
    ensures LastOf(rs + [r], max) == (if |LastOf(rs, max)| >= max then LastOf(rs, max)[1..] else LastOf(rs, max)) + [r]
  {
  }

  lemma {:induction false} QueueKeepsTheLast(spans: seq<Span>, cfg: Config)
    requires cfg.Valid() && forall i, j :: 0 <= i < j < |spans| ==> spans[i].id != spans[j].id
    ensures QueueRun([], Adds(spans), cfg) == LastOf(RawsOf(spans, cfg.maxAttributes), cfg.maxSpans)
  {
    hide SpanId, ToRaw, LastOf, HasId;
    if spans == [] {
      assert LastOf([], cfg.maxSpans) == [] by { LastOfNone(cfg.maxSpans); }
    } else {
      var front, last := spans[..|spans| - 1], spans[|spans| - 1];
      QueueKeepsTheLast(front, cfg);
      NotAmongTheLast(front, last.id, cfg);
      LastOfOneMore(RawsOf(front, cfg.maxAttributes), ToRaw(last, cfg.maxAttributes), cfg.maxSpans);
      assert Adds(spans)[..|spans| - 1] == Adds(front);
    }
  }

  lemma LastOfNone(max: nat)
    ensures LastOf([], max) == []
  {
  }

  lemma {:induction false} AddsAreAllowed(spans: seq<Span>)
    requires forall i :: 0 <= i < |spans| ==> spans[i].id != 0
    ensures IdsNonZero(Adds(spans)) && AddCount(Adds(spans)) == |spans|
  {
    if spans != [] {
      AddsAreAllowed(spans[..|spans| - 1]);
      assert Adds(spans)[..|spans| - 1] == Adds(spans[..|spans| - 1]);
    }
  }

  /** After any run of adds of spans with distinct ids an empty store holds the last of them. */
  lemma AddsKeepTheLast(st: State, spans: seq<Span>, cfg: Config)
    requires Inv(st, cfg) && st.img.count == 0 && st.marks + |spans| < U64_MAX
    requires forall i :: 0 <= i < |spans| ==> spans[i].id != 0
    requires forall i, j :: 0 <= i < j < |spans| ==> spans[i].id != spans[j].id
    ensures cfg.Valid() && IdsNonZero(Adds(spans)) && AddCount(Adds(spans)) == |spans|
    ensures var r := Run(st, Adds(spans), cfg);
      r.img.count <= |r.img.slots| && QueueOf(r) == LastOf(RawsOf(spans, cfg.maxAttributes), cfg.maxSpans)
  {
    hide RawOk, SpanId, Queue, QueueRun, LastOf, Adds, RawsOf, Run, IdsNonZero, AddCount;
    CountBound(st, cfg);
    QueueOfState(st, cfg, 0);
    AddsAreAllowed(spans);
    RunRefinesQueue(st, Adds(spans), cfg);
    QueueKeepsTheLast(spans, cfg);
  }
}
