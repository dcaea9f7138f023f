/** The store without its bytes: a bounded queue of spans, for spans and attributes whose keys
    are free of NULs. */
module SpanQueue {
  import opened Bytes
  import opened CopyString
  import opened Codec
  import opened Attributes
  import opened AttributeMap
  import opened Layout
  import opened SlotQueue
  import opened SpanStore

  // ---- The specification ----

  predicate HasSpan(q: seq<Span>, id: u64) {
    exists k :: 0 <= k < |q| && q[k].id == id
  }

  function WithoutSpan(q: seq<Span>, id: u64): seq<Span> {
    if q == [] then []
    else WithoutSpan(q[..|q| - 1], id) + if q[|q| - 1].id == id then [] else [q[|q| - 1]]
  }

  function EditSpan(s: Span, e: Edit, maxAttributes: nat): Span {
    match e
    case EndAt(t) => s.(end := t)
    case PutAttr(key, value) =>
      s.(attributes := ListSet(s.attributes, Truncate(key, KEY_SIZE), Clean(value, VALUE_SIZE), maxAttributes))
  }

  function WithEdit(q: seq<Span>, id: u64, e: Edit, maxAttributes: nat): (r: seq<Span>)
    ensures |r| == |q|
    ensures forall k :: 0 <= k < |q| ==> r[k] == if q[k].id == id then EditSpan(q[k], e, maxAttributes) else q[k]
  {
    if q == [] then []
    else
      var last := q[|q| - 1];
      WithEdit(q[..|q| - 1], id, e, maxAttributes) + [if last.id == id then EditSpan(last, e, maxAttributes) else last]
  }

  /** One call on the queue: append a new span, dropping the oldest when full; delete by id;
      edit by id. */
  function SpecStep(q: seq<Span>, op: Op, cfg: Config): seq<Span>
    requires cfg.Valid()
  {
    match op
    case Add(span) =>
      if HasSpan(q, span.id) then q
      else (if |q| >= cfg.maxSpans then q[1..] else q) + [Bounded(span, cfg.maxAttributes)]
    case Remove(id) => WithoutSpan(q, id)
    case Change(id, e) => WithEdit(q, id, e, cfg.maxAttributes)
  }

  function SpecRun(ops: seq<Op>, cfg: Config): seq<Span>
    requires cfg.Valid()
  {
    if ops == [] then [] else SpecStep(SpecRun(ops[..|ops| - 1], cfg), ops[|ops| - 1], cfg)
  }

  /** What recovery shows of a span in the queue. */
  function Shown(s: Span): Span {
    s.(attributes := Visible(s.attributes))
  }

  function ShownAll(q: seq<Span>): (r: seq<Span>)
    ensures |r| == |q| && forall k :: 0 <= k < |q| ==> r[k] == Shown(q[k])
  {
    if q == [] then [] else ShownAll(q[..|q| - 1]) + [Shown(q[|q| - 1])]
  }

  predicate NulFreeKeys(op: Op) {
    match op
    case Add(span) => forall a :: a in span.attributes ==> NulFree(Truncate(a.key, KEY_SIZE))
    case Remove(_) => true
    case Change(_, e) => e.PutAttr? ==> NulFree(Truncate(e.key, KEY_SIZE))
  }

  predicate AllNulFreeKeys(ops: seq<Op>) {
    forall op :: op in ops ==> NulFreeKeys(op)
  }

  // ---- What the bytes mean ----

  /** The span a raw span stands for, hidden attributes included. */
  function Meaning(raw: Raw, maxAttributes: nat): Span
    requires RawOk(raw, maxAttributes)
  {
    FromRaw(raw, maxAttributes).(attributes := Attrs(raw, maxAttributes))
  }

  predicate Plain(raw: Raw, maxAttributes: nat) {
    RawOk(raw, maxAttributes) && KeysPadded(raw, maxAttributes)
  }

  lemma MeaningShown(raw: Raw, maxAttributes: nat)
    requires RawOk(raw, maxAttributes)
    ensures Shown(Meaning(raw, maxAttributes)) == FromRaw(raw, maxAttributes)
    ensures Meaning(raw, maxAttributes).id == SpanId(raw)
  {
  }

  lemma MeaningOfStored(s: Span, maxAttributes: nat)
    requires maxAttributes < U64_MAX && NulFreeKeys(Add(s))
    ensures Plain(ToRaw(s, maxAttributes), maxAttributes)
    ensures Meaning(ToRaw(s, maxAttributes), maxAttributes) == Bounded(s, maxAttributes)
  {
    hide RawOk, KeysPadded, Word, CString, Visible, ToRaw;
    StoredKeysPadded(s, maxAttributes);
    RoundTrip(s, maxAttributes);
    StoredAttrs(s, maxAttributes);
  }

  lemma MeaningOfEdit(raw: Raw, e: Edit, maxAttributes: nat)
    requires Plain(raw, maxAttributes) && maxAttributes < U64_MAX && NulFreeKeys(Change(0, e))
    ensures Plain(EditRaw(raw, e, maxAttributes), maxAttributes)
    ensures Meaning(EditRaw(raw, e, maxAttributes), maxAttributes) == EditSpan(Meaning(raw, maxAttributes), e, maxAttributes)
  {
    hide RawOk, Word, EncodeWord, CString, Visible, AttrsUpTo, Padded, SetAttr, RawKey, Splice;
    match e
    case EndAt(t) => EndKeepsOk(raw, t, maxAttributes);
    case PutAttr(key, value) =>
      SetAttrIsListSet(raw, key, value, maxAttributes);
      SetAttrKeepsOk(raw, key, value, maxAttributes);
      OkSize(raw, maxAttributes);
      SameHeadFields(raw, SetAttr(raw, key, value, maxAttributes));
  }

  // ---- The refinement ----

  ghost predicate Means(q: seq<Raw>, s: seq<Span>, maxAttributes: nat) {
    |s| == |q| && forall k :: 0 <= k < |q| ==> Plain(q[k], maxAttributes) && s[k] == Meaning(q[k], maxAttributes)
  }

  lemma WithoutNone(id: u64)
    ensures WithoutSpan([], id) == []
  {
  }

  lemma WithoutLastSpan(s: seq<Span>, last: Span, id: u64)
    ensures WithoutSpan(s + [last], id) == WithoutSpan(s, id) + if last.id == id then [] else [last]
  {
    assert (s + [last])[..|s|] == s;
  }

  lemma {:induction false} RemoveMeans(q: seq<Raw>, s: seq<Span>, id: u64, maxAttributes: nat)
    requires Means(q, s, maxAttributes)
    ensures Means(RemoveId(q, id), WithoutSpan(s, id), maxAttributes)
  {
    hide Plain, Meaning, SpanId, RemoveId, WithoutSpan;
    if q == [] {
      RemoveIdOfOne([], id);
      WithoutNone(id);
    } else {
      var n := |q| - 1;
      assert q == q[..n] + [q[n]] && s == s[..n] + [s[n]];
      RemoveMeans(q[..n], s[..n], id, maxAttributes);
      RemoveIdConcat(q[..n], [q[n]], id);
      RemoveIdOfOne(q[n], id);
      WithoutLastSpan(s[..n], s[n], id);
      SameIds(q, s, maxAttributes);
      assert Means([q[n]], [s[n]], maxAttributes);
    }
  }

  lemma PlainOk(raw: Raw, maxAttributes: nat)
    requires Plain(raw, maxAttributes)
    ensures RawOk(raw, maxAttributes)
  {
  }

  lemma SameIds(q: seq<Raw>, s: seq<Span>, maxAttributes: nat)
    requires Means(q, s, maxAttributes)
    ensures forall k :: 0 <= k < |q| ==> s[k].id == SpanId(q[k])
    ensures forall id :: HasId(q, id) <==> HasSpan(s, id)
  {
    hide Plain, Meaning, SpanId;
    forall k | 0 <= k < |q| ensures s[k].id == SpanId(q[k]) {
      PlainOk(q[k], maxAttributes);
      MeaningShown(q[k], maxAttributes);
    }
  }

  lemma UpdateMeans(q: seq<Raw>, s: seq<Span>, id: u64, e: Edit, maxAttributes: nat)
    requires Means(q, s, maxAttributes) && maxAttributes < U64_MAX && NulFreeKeys(Change(id, e))
    ensures Means(UpdateId(q, id, e, maxAttributes), WithEdit(s, id, e, maxAttributes), maxAttributes)
  {
    hide Plain, Meaning, SpanId, EditRaw, EditSpan, UpdateId, WithEdit;
    SameIds(q, s, maxAttributes);
    forall k | 0 <= k < |q|
      ensures var r := UpdateId(q, id, e, maxAttributes)[k];
        RawOk(r, maxAttributes) && Plain(r, maxAttributes) && WithEdit(s, id, e, maxAttributes)[k] == Meaning(r, maxAttributes)
    {
      MeaningOfEdit(q[k], e, maxAttributes);
      PlainOk(q[k], maxAttributes);
      PlainOk(EditRaw(q[k], e, maxAttributes), maxAttributes);
    }
  }

  lemma StepMeans(q: seq<Raw>, s: seq<Span>, op: Op, cfg: Config)
    requires cfg.Valid() && Means(q, s, cfg.maxAttributes) && NulFreeKeys(op)
    ensures Means(QueueStep(q, op, cfg), SpecStep(s, op, cfg), cfg.maxAttributes)
  {
    hide Plain, Meaning, SpanId, ToRaw, Bounded, HasId, HasSpan, RemoveId, WithoutSpan, UpdateId, WithEdit;
    match op
    case Add(span) =>
      SameIds(q, s, cfg.maxAttributes);
      MeaningOfStored(span, cfg.maxAttributes);
    case Remove(id) => RemoveMeans(q, s, id, cfg.maxAttributes);
    case Change(id, e) => UpdateMeans(q, s, id, e, cfg.maxAttributes);
  }

  /** Any run of calls with NUL-free keys is a run of the queue of spans. */
  lemma {:induction false} RunMeans(ops: seq<Op>, cfg: Config)
    requires cfg.Valid() && AllNulFreeKeys(ops)
    ensures Means(QueueRun([], ops, cfg), SpecRun(ops, cfg), cfg.maxAttributes)
  {
    hide Means, QueueStep, SpecStep, NulFreeKeys;
    if ops == [] {
      NothingMeans(cfg.maxAttributes);
    } else {
      var front, last := ops[..|ops| - 1], ops[|ops| - 1];
      assert last in ops;
      RunMeans(front, cfg);
      StepMeans(QueueRun([], front, cfg), SpecRun(front, cfg), last, cfg);
    }
  }

  lemma NothingMeans(maxAttributes: nat)
    ensures Means([], [], maxAttributes)
  {
  }
}
