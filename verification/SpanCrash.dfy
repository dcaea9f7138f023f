/** What a crash leaves, said of the queue of spans that knows no bytes. */
module SpanCrash {
  import opened Bytes
  import opened CopyString
  import opened Codec
  import opened Attributes
  import opened AttributeMap
  import opened Layout
  import opened SlotQueue
  import opened SpanStore
  import opened Crash
  import opened Startup
  import opened SpanQueue

  // ---- The specification ----

  /** The queue `s`, and perhaps the span with the id `moved` once more. */
  predicate WithSpanTwice(s: seq<Span>, moved: u64, t: seq<Span>) {
    t == s || exists k :: 0 <= k < |s| && s[k].id == moved && t == s + [s[k]]
  }

  /** The span with the value of `key`, which it has, cut short after `m` bytes of the new one. */
  function CutValue(s: Span, key: seq<byte>, value: seq<byte>, m: nat): Span
    requires m <= |Truncate(value, VALUE_SIZE)|
  {
    var j := IndexFrom(s.attributes, Truncate(key, KEY_SIZE), 0);
    if j == |s.attributes| then s
    else
      var a := s.attributes[j];
      s.(attributes := s.attributes[j := a.(value := CString(Truncate(value, VALUE_SIZE)[..m]))])
  }

  ghost predicate WithValueCut(s: seq<Span>, id: u64, key: seq<byte>, value: seq<byte>, t: seq<Span>) {
    exists k: nat, m: nat ::
      && k < |s| && s[k].id == id && m <= |Truncate(value, VALUE_SIZE)|
      && t == s[k := CutValue(s[k], key, value, m)]
  }

  /** The queues a crash in the call `op` on the queue `s` can leave; `moved` is the id of the
      span in the last live slot. */
  ghost predicate CrashSpans(s: seq<Span>, moved: u64, op: Op, t: seq<Span>, cfg: Config)
    requires cfg.Valid()
  {
    || t == s
    || t == SpecStep(s, op, cfg)
    || (match op
        case Add(span) => !HasSpan(s, span.id) && |s| == cfg.maxSpans && WithSpanTwice(s[1..], moved, t)
        case Remove(id) => HasSpan(s, id) && WithSpanTwice(WithoutSpan(s, id), moved, t)
        case Change(id, e) => e.PutAttr? && WithValueCut(s, id, e.key, e.value, t))
  }

  // ---- What the bytes show ----

  lemma DecodedMeans(q: seq<Raw>, s: seq<Span>, maxAttributes: nat)
    requires Means(q, s, maxAttributes)
    ensures AllOk(q, maxAttributes) && DecodeAll(q, maxAttributes) == ShownAll(s)
  {
    hide Plain, Meaning, Shown, DecodeAll, FromRaw;
    forall k | 0 <= k < |q| ensures RawOk(q[k], maxAttributes) && FromRaw(q[k], maxAttributes) == Shown(s[k]) {
      PlainOk(q[k], maxAttributes);
      MeaningShown(q[k], maxAttributes);
    }
    hide RawOk;
    forall k | 0 <= k < |q| ensures DecodeAll(q, maxAttributes)[k] == ShownAll(s)[k] {
      DecodedAt(q, maxAttributes, k);
    }
  }

  lemma DuplicateMeans(q: seq<Raw>, s: seq<Span>, moved: u64, x: seq<Raw>, maxAttributes: nat) returns (t: seq<Span>)
    requires Means(q, s, maxAttributes) && WithDuplicate(q, moved, x)
    ensures Means(x, t, maxAttributes) && WithSpanTwice(s, moved, t)
  {
    hide Plain, Meaning, SpanId;
    SameIds(q, s, maxAttributes);
    if x == q {
      t := s;
    } else {
      var k :| 0 <= k < |q| && SpanId(q[k]) == moved && x == q + [q[k]];
      t := s + [s[k]];
    }
  }

  /** A value that is cut short in the bytes is cut short in the span they stand for. */
  lemma CutMeans(raw: Raw, key: seq<byte>, value: seq<byte>, r: Raw, maxAttributes: nat) returns (m: nat)
    requires Plain(raw, maxAttributes) && maxAttributes < U64_MAX && NulFree(Truncate(key, KEY_SIZE))
    requires CutShort(raw, key, value, r, maxAttributes)
    ensures RawOk(r, maxAttributes) && m <= |Truncate(value, VALUE_SIZE)|
    ensures FromRaw(r, maxAttributes) == Shown(CutValue(Meaning(raw, maxAttributes), key, value, m))
  {
    hide RawOk, Word, CString, Visible, AttrsUpTo, FindFrom, IndexFrom, KeysPadded, Truncate, RawName;
    SlotOfKeyIsIndex(raw, key, maxAttributes);
    OkSize(raw, maxAttributes);
    var j := SlotOfKey(raw, key, maxAttributes);
    m :| 0 <= m <= |Truncate(value, VALUE_SIZE)| && DiffersInValue(raw, r, j, CString(Truncate(value, VALUE_SIZE)[..m]), maxAttributes);
    OkSize(r, maxAttributes);
    SameHeadFields(raw, r);
  }

  lemma UpdateOne(q: seq<Raw>, k: nat, e: Edit, maxAttributes: nat)
    requires DistinctIds(q) && k < |q| && maxAttributes < U64_MAX
    ensures q[k := EditRaw(q[k], e, maxAttributes)] == UpdateId(q, SpanId(q[k]), e, maxAttributes)
  {
    hide SpanId, EditRaw, UpdateId;
  }

  lemma DecodeUpdated(q: seq<Raw>, k: nat, r: Raw, maxAttributes: nat)
    requires AllOk(q, maxAttributes) && k < |q| && RawOk(r, maxAttributes)
    ensures AllOk(q[k := r], maxAttributes)
    ensures DecodeAll(q[k := r], maxAttributes) == DecodeAll(q, maxAttributes)[k := FromRaw(r, maxAttributes)]
  {
    hide RawOk, FromRaw, DecodeAll;
    var was, now := DecodeAll(q, maxAttributes), DecodeAll(q[k := r], maxAttributes);
    forall i | 0 <= i < |q| ensures now[i] == was[k := FromRaw(r, maxAttributes)][i] {
      DecodedAt(q, maxAttributes, i);
      DecodedAt(q[k := r], maxAttributes, i);
    }
    assert now == was[k := FromRaw(r, maxAttributes)];
  }

  lemma BetweenMeans(q: seq<Raw>, s: seq<Span>, op: Op, x: seq<Raw>, cfg: Config) returns (t: seq<Span>)
    requires cfg.Valid() && Means(q, s, cfg.maxAttributes) && DistinctIds(q) && NulFreeKeys(op)
    requires op.Change? && WithOneBetween(q, op.id, op.edit, x, cfg)
    ensures AllOk(x, cfg.maxAttributes) && DecodeAll(x, cfg.maxAttributes) == ShownAll(t)
    ensures t == s || t == SpecStep(s, op, cfg) || (op.edit.PutAttr? && WithValueCut(s, op.id, op.edit.key, op.edit.value, t))
  {
    hide Plain, Meaning, SpanId, EditRaw, CutShort, FromRaw, RawOk, DecodeAll, Shown, SpecStep, CutValue, Truncate;
    var max, id, e := cfg.maxAttributes, op.id, op.edit;
    var k: nat, r :| k < |q| && SpanId(q[k]) == id && x == q[k := r] && RawOk(q[k], max) && Between(q[k], e, r, max);
    DecodedMeans(q, s, max);
    SameIds(q, s, max);
    DecodeUpdated(q, k, r, max);
    DecodedAt(q, max, k);
    if FromRaw(r, max) == FromRaw(q[k], max) {
      t := s;
    } else if r == EditRaw(q[k], e, max) {
      t := SpecStep(s, op, cfg);
      UpdateOne(q, k, e, max);
      StepMeans(q, s, op, cfg);
      DecodedMeans(x, t, max);
    } else {
      var m := CutMeans(q[k], e.key, e.value, r, max);
      t := s[k := CutValue(s[k], e.key, e.value, m)];
      assert DecodeAll(x, max) == ShownAll(t);
    }
  }

  /** A queue that a crash can leave in the bytes shows what `CrashSpans` says. */
  lemma CrashMeans(q: seq<Raw>, s: seq<Span>, moved: u64, op: Op, x: seq<Raw>, cfg: Config) returns (t: seq<Span>)
    requires cfg.Valid() && Means(q, s, cfg.maxAttributes) && DistinctIds(q) && NulFreeKeys(op)
    requires CrashQueue(q, moved, op, x, cfg)
    ensures AllOk(x, cfg.maxAttributes) && DecodeAll(x, cfg.maxAttributes) == ShownAll(t)
    ensures CrashSpans(s, moved, op, t, cfg)
  {
    hide Plain, Meaning, SpanId, QueueStep, SpecStep, HasId, HasSpan, RemoveId, WithoutSpan, WithDuplicate, WithSpanTwice, WithOneBetween, WithValueCut, DecodeAll, ShownAll, AllOk, NulFreeKeys;
    var max := cfg.maxAttributes;
    if x == q {
      t := s;
      DecodedMeans(x, t, max);
    } else if x == QueueStep(q, op, cfg) {
      t := SpecStep(s, op, cfg);
      StepMeans(q, s, op, cfg);
      DecodedMeans(x, t, max);
    } else {
      SameIds(q, s, max);
      match op
      case Add(span) =>
        t := DuplicateMeans(q[1..], s[1..], moved, x, max);
        DecodedMeans(x, t, max);
      case Remove(id) =>
        RemoveMeans(q, s, id, max);
        t := DuplicateMeans(RemoveId(q, id), WithoutSpan(s, id), moved, x, max);
        DecodedMeans(x, t, max);
      case Change(_, _) => t := BetweenMeans(q, s, op, x, cfg);
    }
  }
}
