/** Setting an attribute on a stored span: its stores, what each prefix of them leaves behind,
    and the bounded last-write-wins map the whole amounts to. */
module Attributes {
  import opened Bytes
  import opened CopyString
  import opened Codec

  // ---- The stores ----

  /** The first slot from `i` on whose key equals `key`, or the attribute count. */
  function FindFrom(raw: seq<byte>, key: seq<byte>, i: nat): (r: nat)
    requires |raw| >= ATTRS && |raw| >= RawSize(AttrCount(raw)) && i <= AttrCount(raw)
    ensures i <= r <= AttrCount(raw)
    ensures r < AttrCount(raw) ==> KeyEquals(key, RawKey(raw, r))
    ensures forall k :: i <= k < r ==> !KeyEquals(key, RawKey(raw, k))
    decreases AttrCount(raw) - i
  {
    if i == AttrCount(raw) then i
    else if KeyEquals(key, RawKey(raw, i)) then i
    else FindFrom(raw, key, i + 1)
  }

  function SlotOfKey(raw: seq<byte>, key: seq<byte>, maxAttributes: nat): (r: nat)
    requires RawOk(raw, maxAttributes)
    ensures r <= AttrCount(raw)
  {
    FindFrom(raw, key, 0)
  }

  function AppendPuts(key: seq<byte>, value: seq<byte>, j: nat): seq<Put> {
    Copy2Puts(key, KeyAt(j), KEY_SIZE, value, ValueAt(j), VALUE_SIZE)
  }

  /** The stores of `set_attribute_on_span`, at addresses relative to the raw span. */
  function SetAttrPuts(raw: seq<byte>, key: seq<byte>, value: seq<byte>, maxAttributes: nat): seq<Put>
    requires RawOk(raw, maxAttributes) && maxAttributes < U64_MAX
  {
    var j, count := SlotOfKey(raw, key, maxAttributes), AttrCount(raw);
    if j < count then CopyPuts(value, ValueAt(j), VALUE_SIZE)
    else if count < maxAttributes then AppendPuts(key, value, count) + [WordPut(ATTR_COUNT, count + 1)]
    else []
  }

  /** The raw span after all of them. */
  function SetAttr(raw: seq<byte>, key: seq<byte>, value: seq<byte>, maxAttributes: nat): (r: seq<byte>)
    requires RawOk(raw, maxAttributes) && maxAttributes < U64_MAX
    ensures |r| == |raw|
  {
    var j, count := SlotOfKey(raw, key, maxAttributes), AttrCount(raw);
    if j < count then Splice(raw, ValueAt(j), Fill(value, VALUE_SIZE))
    else if count < maxAttributes then Appended(raw, Attribute(key, value))
    else raw
  }

  lemma AppendEffect(raw: seq<byte>, key: seq<byte>, value: seq<byte>, j: nat)
    requires |raw| >= RawSize(j + 1) && j < U64_MAX
    ensures var ps := AppendPuts(key, value, j) + [WordPut(ATTR_COUNT, j + 1)];
      AllFit(ps, |raw|) && RunPuts(raw, ps) == WithWord(WithAttr(raw, j, Attribute(key, value)), ATTR_COUNT, j + 1)
  {
    hide Word, EncodeWord, Truncate;
    var ps := AppendPuts(key, value, j);
    Copy2Effect(raw, key, KeyAt(j), KEY_SIZE, value, ValueAt(j), VALUE_SIZE);
    assert (ps + [WordPut(ATTR_COUNT, j + 1)])[..|ps|] == ps;
  }

  lemma SetAttrEffect(raw: seq<byte>, key: seq<byte>, value: seq<byte>, maxAttributes: nat)
    requires RawOk(raw, maxAttributes) && maxAttributes < U64_MAX
    ensures AllFit(SetAttrPuts(raw, key, value, maxAttributes), |raw|)
    ensures RunPuts(raw, SetAttrPuts(raw, key, value, maxAttributes)) == SetAttr(raw, key, value, maxAttributes)
  {
    hide Word, EncodeWord, Truncate, FindFrom, RunPuts, AllFit, Splice, CopyPuts, AppendPuts, Fill, WithAttr, WithWord, RawOk;
    OkSize(raw, maxAttributes);
    var j, count := SlotOfKey(raw, key, maxAttributes), AttrCount(raw);
    if j < count {
      CopyEffect(raw, value, ValueAt(j), VALUE_SIZE);
    } else if count < maxAttributes {
      AppendEffect(raw, key, value, count);
    } else {
      RunNoPuts(raw);
    }
  }

  // ---- What a crash leaves ----

  predicate SameHead(raw: seq<byte>, r: seq<byte>)
    requires |raw| >= ATTRS && |r| >= ATTRS
  {
    r[..ATTR_COUNT] == raw[..ATTR_COUNT]
  }

  lemma SameHeadFields(raw: seq<byte>, r: seq<byte>)
    requires |raw| >= ATTRS && |r| >= ATTRS && SameHead(raw, r)
    ensures RawName(r) == RawName(raw)
    ensures forall w :: 0 <= w <= NAME - WORD ==> Word(r, w) == Word(raw, w)
  {
    assert forall k :: 0 <= k < ATTR_COUNT ==> r[k] == r[..ATTR_COUNT][k] == raw[k];
    forall w | 0 <= w <= NAME - WORD ensures Word(r, w) == Word(raw, w) {
      WordFrame(raw, r, w);
    }
  }

  /** `r` is `raw` but for the value of attribute `j`, which reads back as `v`. */
  ghost predicate DiffersInValue(raw: seq<byte>, r: seq<byte>, j: nat, v: seq<byte>, maxAttributes: nat)
    requires RawOk(raw, maxAttributes) && j < AttrCount(raw)
  {
    && RawOk(r, maxAttributes)
    && SameHead(raw, r)
    && Attrs(r, maxAttributes) == Attrs(raw, maxAttributes)[j := Attribute(AttrAt(raw, j).key, v)]
  }

  lemma SpliceValueSlot(raw: seq<byte>, j: nat, b: seq<byte>, i: nat)
    requires |raw| >= RawSize(j + 1) && |raw| >= RawSize(i + 1) && |b| == VALUE_SIZE
    ensures var r := Splice(raw, ValueAt(j), b);
      RawKey(r, i) == RawKey(raw, i) && RawValue(r, i) == if i == j then b else RawValue(raw, i)
  {
    SliceOfSplice(raw, ValueAt(j), b, KeyAt(i), KeyAt(i) + KEY_SIZE);
    SliceOfSplice(raw, ValueAt(j), b, ValueAt(i), ValueAt(i) + VALUE_SIZE);
  }

  lemma SpliceValueHead(raw: seq<byte>, j: nat, b: seq<byte>)
    requires |raw| >= RawSize(j + 1) && |b| == VALUE_SIZE
    ensures var r := Splice(raw, ValueAt(j), b);
      SameHead(raw, r) && RawName(r) == RawName(raw) && AttrCount(r) == AttrCount(raw)
  {
    hide Word;
    OtherWord(raw, ValueAt(j), b, ATTR_COUNT);
    SliceOfSplice(raw, ValueAt(j), b, 0, ATTR_COUNT);
    SliceOfSplice(raw, ValueAt(j), b, NAME, NAME + NAME_SIZE);
  }

  lemma SpliceValue(raw: seq<byte>, j: nat, b: seq<byte>, maxAttributes: nat)
    requires RawOk(raw, maxAttributes) && j < AttrCount(raw)
    requires |b| == VALUE_SIZE && Sealed(b)
    ensures DiffersInValue(raw, Splice(raw, ValueAt(j), b), j, CString(b), maxAttributes)
    ensures forall i :: 0 <= i < AttrCount(raw) ==> RawKey(Splice(raw, ValueAt(j), b), i) == RawKey(raw, i)
  {
    hide Word, EncodeWord, CString, AttrsUpTo, RawKey, RawValue, RawName, Splice, SameHead;
    var r := Splice(raw, ValueAt(j), b);
    SpliceValueHead(raw, j, b);
    forall i | 0 <= i < AttrCount(raw)
      ensures RawKey(r, i) == RawKey(raw, i) && RawValue(r, i) == if i == j then b else RawValue(raw, i)
    {
      SpliceValueSlot(raw, j, b, i);
    }
    assert Attrs(r, maxAttributes) == Attrs(raw, maxAttributes)[j := Attribute(AttrAt(raw, j).key, CString(b))];
  }

  /** What reads back of the value after `k` byte stores of its overwriting with `t`. */
  function ValueAfter(raw: seq<byte>, j: nat, t: seq<byte>, k: nat): seq<byte>
    requires |raw| >= RawSize(j + 1) && k <= VALUE_SIZE + |t|
  {
    if k == 0 then CString(RawValue(raw, j))
    else if k <= VALUE_SIZE then []
    else CString(t[..k - VALUE_SIZE])
  }

  lemma OverwriteStep(raw: seq<byte>, j: nat, t: seq<byte>, maxAttributes: nat, k: nat)
    requires RawOk(raw, maxAttributes) && j < AttrCount(raw)
    requires |t| < VALUE_SIZE && k <= VALUE_SIZE + |t|
    ensures var ps := FillPuts(t, ValueAt(j), VALUE_SIZE);
      && |ps| == VALUE_SIZE + |t| && AllFit(ps[..k], |raw|)
      && DiffersInValue(raw, RunPuts(raw, ps[..k]), j, ValueAfter(raw, j, t, k), maxAttributes)
  {
    hide Word, EncodeWord, CString, AttrsUpTo, RunPuts, DiffersInValue, HalfFilled, FillPuts, Splice, AllFit;
    var b := HalfFilled(RawValue(raw, j), t, k);
    FillPrefix(raw, t, ValueAt(j), VALUE_SIZE, k);
    HalfFilledReadsBack(RawValue(raw, j), t, k);
    SpliceValue(raw, j, b, maxAttributes);
    assert CString(b) == ValueAfter(raw, j, t, k);
  }

  /** At every byte of an overwrite the span is fit to recover, every other field and attribute
      is as it was, and the value reads back as it was, empty, or as a prefix of the new one. */
  lemma OverwriteCrash(raw: seq<byte>, key: seq<byte>, value: seq<byte>, maxAttributes: nat, k: nat)
    requires RawOk(raw, maxAttributes) && maxAttributes < U64_MAX
    requires SlotOfKey(raw, key, maxAttributes) < AttrCount(raw)
    requires k <= |SetAttrPuts(raw, key, value, maxAttributes)|
    ensures var j, ps := SlotOfKey(raw, key, maxAttributes), SetAttrPuts(raw, key, value, maxAttributes)[..k];
      && AllFit(ps, |raw|) && k <= VALUE_SIZE + |Truncate(value, VALUE_SIZE)|
      && DiffersInValue(raw, RunPuts(raw, ps), j, ValueAfter(raw, j, Truncate(value, VALUE_SIZE), k), maxAttributes)
  {
    hide Word, EncodeWord, RunPuts, DiffersInValue, FillPuts, ValueAfter, FindFrom;
    var j, t := SlotOfKey(raw, key, maxAttributes), Truncate(value, VALUE_SIZE);
    OverwriteStep(raw, j, t, maxAttributes, 0);
    OverwriteStep(raw, j, t, maxAttributes, k);
  }

  /** `r` agrees with `raw` up to the first free attribute slot. */
  predicate SameUsed(raw: seq<byte>, r: seq<byte>, maxAttributes: nat)
    requires RawOk(raw, maxAttributes)
  {
    |r| == |raw| && r[..KeyAt(AttrCount(raw))] == raw[..KeyAt(AttrCount(raw))]
  }

  lemma SameUsedReadsSame(raw: seq<byte>, r: seq<byte>, maxAttributes: nat)
    requires RawOk(raw, maxAttributes) && SameUsed(raw, r, maxAttributes)
    ensures RawOk(r, maxAttributes) && FromRaw(r, maxAttributes) == FromRaw(raw, maxAttributes)
    ensures RawId(r) == RawId(raw) && SameHead(raw, r) && AttrCount(r) == AttrCount(raw)
  {
    hide Word, CString, AttrsUpTo, Visible;
    var n := AttrCount(raw);
    var used := raw[..KeyAt(n)];
    assert forall k :: 0 <= k < KeyAt(n) ==> r[k] == r[..KeyAt(n)][k] == used[k] == raw[k];
    WordFrame(raw, r, ATTR_COUNT);
    assert SameHead(raw, r);
    SameHeadFields(raw, r);
    forall j | 0 <= j < n ensures RawKey(r, j) == RawKey(raw, j) && RawValue(r, j) == RawValue(raw, j) {
      SameSlice(raw, r, KeyAt(j), KeyAt(j) + KEY_SIZE);
      SameSlice(raw, r, ValueAt(j), ValueAt(j) + VALUE_SIZE);
    }
    assert Attrs(r, maxAttributes) == Attrs(raw, maxAttributes);
  }

  lemma SameSlice(raw: seq<byte>, r: seq<byte>, lo: nat, hi: nat)
    requires lo <= hi <= |raw| && hi <= |r| && forall k :: lo <= k < hi ==> r[k] == raw[k]
    ensures r[lo..hi] == raw[lo..hi]
  {
  }

  lemma AppendPutsRange(key: seq<byte>, value: seq<byte>, j: nat)
    ensures forall i :: 0 <= i < |AppendPuts(key, value, j)| ==>
      var p := AppendPuts(key, value, j)[i]; KeyAt(j) <= p.at && p.at + |p.bytes| <= KeyAt(j + 1)
  {
  }

  /** Until the count is stored, a new attribute is invisible, whatever part of it is there. */
  lemma AppendCrash(raw: seq<byte>, key: seq<byte>, value: seq<byte>, maxAttributes: nat, k: nat)
    requires RawOk(raw, maxAttributes) && AttrCount(raw) < maxAttributes < U64_MAX
    requires k <= |AppendPuts(key, value, AttrCount(raw))|
    ensures var ps := AppendPuts(key, value, AttrCount(raw))[..k];
      AllFit(ps, |raw|) && SameUsed(raw, RunPuts(raw, ps), maxAttributes)
  {
    var j := AttrCount(raw);
    var ps := AppendPuts(key, value, j)[..k];
    AppendPutsRange(key, value, j);
    assert AllFit(ps, |raw|) by {
      forall i | 0 <= i < |ps| ensures Fits(ps[i], |raw|) {
        assert ps[i] == AppendPuts(key, value, j)[i];
      }
    }
    var r := RunPuts(raw, ps);
    forall i | 0 <= i < KeyAt(j) ensures r[i] == raw[i] {
      forall m | 0 <= m < |ps| ensures !(ps[m].at <= i < ps[m].at + |ps[m].bytes|) {
        assert ps[m] == AppendPuts(key, value, j)[m];
      }
      RunPutsFrame(raw, ps, i);
    }
  }

  /** The whole of `set_attribute_on_span` keeps a raw span fit to recover. */
  lemma SetAttrKeepsOk(raw: seq<byte>, key: seq<byte>, value: seq<byte>, maxAttributes: nat)
    requires RawOk(raw, maxAttributes) && maxAttributes < U64_MAX
    ensures RawOk(SetAttr(raw, key, value, maxAttributes), maxAttributes)
    ensures RawId(SetAttr(raw, key, value, maxAttributes)) == RawId(raw)
    ensures SameHead(raw, SetAttr(raw, key, value, maxAttributes))
  {
    var j, count := SlotOfKey(raw, key, maxAttributes), AttrCount(raw);
    var r := SetAttr(raw, key, value, maxAttributes);
    if j < count {
      SpliceValue(raw, j, Fill(value, VALUE_SIZE), maxAttributes);
    } else if count < maxAttributes {
      AppendKeeps(raw, Attribute(key, value), maxAttributes);
    }
    SameHeadFields(raw, r);
  }

  /** `raw` with one more attribute. */
  function Appended(raw: seq<byte>, a: Attribute): (r: seq<byte>)
    requires |raw| >= ATTRS && |raw| >= RawSize(AttrCount(raw) + 1) && AttrCount(raw) < U64_MAX
    ensures |r| == |raw|
  {
    WithWord(WithAttr(raw, AttrCount(raw), a), ATTR_COUNT, AttrCount(raw) + 1)
  }

  lemma AppendedFields(raw: seq<byte>, a: Attribute)
    requires |raw| >= ATTRS && |raw| >= RawSize(AttrCount(raw) + 1) && AttrCount(raw) < U64_MAX
    ensures var n, r := AttrCount(raw), Appended(raw, a);
      && AttrCount(r) == n + 1 && SameHead(raw, r) && RawName(r) == RawName(raw)
      && RawKey(r, n) == Fill(a.key, KEY_SIZE) && RawValue(r, n) == Fill(a.value, VALUE_SIZE)
      && forall i :: 0 <= i < n ==> RawKey(r, i) == RawKey(raw, i) && RawValue(r, i) == RawValue(raw, i)
  {
    hide Word, EncodeWord, Truncate;
    var n := AttrCount(raw);
    WithAttrFields(raw, n, a, n + 1);
    forall i | 0 <= i < n
      ensures RawKey(Appended(raw, a), i) == RawKey(raw, i) && RawValue(Appended(raw, a), i) == RawValue(raw, i)
    {
      WithAttrOthers(raw, n, a, n + 1, i);
    }
  }

  lemma AppendKeeps(raw: seq<byte>, a: Attribute, maxAttributes: nat)
    requires RawOk(raw, maxAttributes) && AttrCount(raw) < maxAttributes < U64_MAX
    ensures var r := Appended(raw, a);
      && RawOk(r, maxAttributes) && SameHead(raw, r)
      && Attrs(r, maxAttributes) == Attrs(raw, maxAttributes) + [CleanAttr(a)]
  {
    hide Word, EncodeWord, CString, AttrsUpTo, Truncate, Appended, RawKey, RawValue, SameHead;
    AppendedFields(raw, a);
    CStringOfFill(a.key, KEY_SIZE);
    CStringOfFill(a.value, VALUE_SIZE);
  }
}
