/** Any run of `set_attribute_on_span` on one span is a run of a bounded last-write-wins map. */
module AttributeMap {
  import opened Bytes
  import opened CopyString
  import opened Codec
  import opened Attributes

  // ---- The list of attributes, by truncated key ----

  function IndexFrom(attrs: seq<Attribute>, k: seq<byte>, i: nat): (r: nat)
    requires i <= |attrs|
    ensures i <= r <= |attrs|
    ensures r < |attrs| ==> attrs[r].key == k
    ensures forall j :: i <= j < r ==> attrs[j].key != k
    decreases |attrs| - i
  {
    if i == |attrs| || attrs[i].key == k then i else IndexFrom(attrs, k, i + 1)
  }

  function ListSet(attrs: seq<Attribute>, k: seq<byte>, v: seq<byte>, max: nat): (r: seq<Attribute>)
    ensures |attrs| <= |r| && (|attrs| <= max ==> |r| <= max)
    ensures forall j :: 0 <= j < |attrs| ==> r[j].key == attrs[j].key
  {
    var i := IndexFrom(attrs, k, 0);
    if i < |attrs| then attrs[i := Attribute(k, v)]
    else if |attrs| < max then attrs + [Attribute(k, v)]
    else attrs
  }

  /** A key buffer that holds a NUL-free key and zeros after it. */
  predicate Padded(b: seq<byte>) {
    b == CString(b) + Zeros(|b| - |CString(b)|)
  }

  predicate KeysPadded(raw: seq<byte>, maxAttributes: nat)
    requires RawOk(raw, maxAttributes)
  {
    forall j :: 0 <= j < AttrCount(raw) ==> Padded(RawKey(raw, j))
  }

  lemma SealedIsShort(b: seq<byte>)
    requires |b| > 0 && Sealed(b)
    ensures |CString(b)| < |b|
  {
    var c := CString(b);
    assert forall k :: 0 <= k < |c| ==> c[k] in c && c[k] == b[k];
  }

  lemma KeyEqualsPadded(key: seq<byte>, b: seq<byte>)
    requires |b| > 0 && Sealed(b) && Padded(b) && NulFree(Truncate(key, |b|))
    ensures KeyEquals(key, b) <==> Truncate(key, |b|) == CString(b)
  {
    hide CString, KeyEquals;
    var stored := CString(b);
    SealedIsShort(b);
    TruncateFits(stored, |b|);
    assert Fill(stored, |b|) == b;
    KeyEqualsIffSameTruncation(stored, key, |b|);
  }

  lemma FilledKeyIsPadded(key: seq<byte>, n: nat)
    requires n > 0 && NulFree(Truncate(key, n))
    ensures Padded(Fill(key, n)) && Clean(key, n) == Truncate(key, n)
  {
    CStringOfFill(key, n);
    CStringOfNulFree(Truncate(key, n));
  }

  lemma SlotOfKeyIsIndex(raw: seq<byte>, key: seq<byte>, maxAttributes: nat)
    requires RawOk(raw, maxAttributes) && KeysPadded(raw, maxAttributes) && NulFree(Truncate(key, KEY_SIZE))
    ensures SlotOfKey(raw, key, maxAttributes) == IndexFrom(Attrs(raw, maxAttributes), Truncate(key, KEY_SIZE), 0)
  {
    hide Word, CString, KeyEquals, Truncate, AttrsUpTo, FindFrom, IndexFrom;
    var attrs := Attrs(raw, maxAttributes);
    forall j | 0 <= j < AttrCount(raw)
      ensures KeyEquals(key, RawKey(raw, j)) <==> attrs[j].key == Truncate(key, KEY_SIZE)
    {
      KeyEqualsPadded(key, RawKey(raw, j));
    }
  }

  /** On the list of attributes a call is: replace the value of the key, or append, or, when
      full, nothing. */
  lemma SetAttrIsListSet(raw: seq<byte>, key: seq<byte>, value: seq<byte>, maxAttributes: nat)
    requires RawOk(raw, maxAttributes) && maxAttributes < U64_MAX
    requires KeysPadded(raw, maxAttributes) && NulFree(Truncate(key, KEY_SIZE))
    ensures var r := SetAttr(raw, key, value, maxAttributes);
      && RawOk(r, maxAttributes) && KeysPadded(r, maxAttributes)
      && Attrs(r, maxAttributes)
         == ListSet(Attrs(raw, maxAttributes), Truncate(key, KEY_SIZE), Clean(value, VALUE_SIZE), maxAttributes)
  {
    hide Word, EncodeWord, CString, AttrsUpTo, Truncate, Padded, RawKey, RawValue, SameHead, FindFrom, IndexFrom, Splice, Appended;
    SlotOfKeyIsIndex(raw, key, maxAttributes);
    FilledKeyIsPadded(key, KEY_SIZE);
    var j, count := SlotOfKey(raw, key, maxAttributes), AttrCount(raw);
    if j < count {
      CStringOfFill(value, VALUE_SIZE);
      SpliceValue(raw, j, Fill(value, VALUE_SIZE), maxAttributes);
    } else if count < maxAttributes {
      AppendKeeps(raw, Attribute(key, value), maxAttributes);
      AppendedFields(raw, Attribute(key, value));
    }
  }

  // ---- The map ----

  /** The list `attrs` holds the map `m`: each key once, in some slot. */
  ghost predicate Represents(m: map<seq<byte>, seq<byte>>, attrs: seq<Attribute>) {
    && |m| == |attrs|
    && (forall i, j :: 0 <= i < j < |attrs| ==> attrs[i].key != attrs[j].key)
    && (forall j :: 0 <= j < |attrs| ==> attrs[j].key in m && m[attrs[j].key] == attrs[j].value)
    && (forall k :: k in m ==> HasKey(attrs, k))
  }

  predicate HasKey(attrs: seq<Attribute>, k: seq<byte>) {
    exists j :: 0 <= j < |attrs| && attrs[j].key == k
  }

  lemma HasKeyUpdated(attrs: seq<Attribute>, i: nat, a: Attribute, k: seq<byte>)
    requires i < |attrs| && a.key == attrs[i].key && HasKey(attrs, k)
    ensures HasKey(attrs[i := a], k)
  {
    var j :| 0 <= j < |attrs| && attrs[j].key == k;
    assert attrs[i := a][j].key == k;
  }

  lemma HasKeyAppended(attrs: seq<Attribute>, a: Attribute, k: seq<byte>)
    requires HasKey(attrs, k) || k == a.key
    ensures HasKey(attrs + [a], k)
  {
    if k == a.key {
      assert (attrs + [a])[|attrs|].key == k;
    } else {
      var j :| 0 <= j < |attrs| && attrs[j].key == k;
      assert (attrs + [a])[j].key == k;
    }
  }

  function MapSet(m: map<seq<byte>, seq<byte>>, k: seq<byte>, v: seq<byte>, max: nat): map<seq<byte>, seq<byte>> {
    if k in m || |m| < max then m[k := v] else m
  }

  lemma ReplaceInMap(m: map<seq<byte>, seq<byte>>, attrs: seq<Attribute>, i: nat, v: seq<byte>)
    requires Represents(m, attrs) && i < |attrs|
    ensures attrs[i].key in m
    ensures Represents(m[attrs[i].key := v], attrs[i := Attribute(attrs[i].key, v)])
  {
    hide HasKey;
    var k := attrs[i].key;
    var r, n := attrs[i := Attribute(k, v)], m[k := v];
    assert n.Keys == m.Keys;
    assert forall j :: 0 <= j < |attrs| ==> r[j].key == attrs[j].key;
    forall q | q in n ensures HasKey(r, q) {
      HasKeyUpdated(attrs, i, Attribute(k, v), q);
    }
  }

  lemma OneMoreKey(m: map<seq<byte>, seq<byte>>, k: seq<byte>, v: seq<byte>)
    requires k !in m
    ensures |m[k := v]| == |m| + 1
  {
    assert m[k := v].Keys == m.Keys + {k};
  }

  lemma AppendToMap(m: map<seq<byte>, seq<byte>>, attrs: seq<Attribute>, k: seq<byte>, v: seq<byte>)
    requires Represents(m, attrs) && k !in m
    ensures Represents(m[k := v], attrs + [Attribute(k, v)])
  {
    hide HasKey;
    var r, n := attrs + [Attribute(k, v)], m[k := v];
    OneMoreKey(m, k, v);
    assert forall j :: 0 <= j < |attrs| ==> r[j] == attrs[j];
    forall q | q in n ensures HasKey(r, q) {
      HasKeyAppended(attrs, Attribute(k, v), q);
    }
  }

  lemma ListSetIsMapSet(m: map<seq<byte>, seq<byte>>, attrs: seq<Attribute>, k: seq<byte>, v: seq<byte>, max: nat)
    requires Represents(m, attrs)
    ensures Represents(MapSet(m, k, v, max), ListSet(attrs, k, v, max))
  {
    hide IndexFrom, Represents;
    var i := IndexFrom(attrs, k, 0);
    if i < |attrs| {
      ReplaceInMap(m, attrs, i, v);
    } else {
      AbsentKey(m, attrs, k);
      AppendToMap(m, attrs, k, v);
    }
  }

  lemma AbsentKey(m: map<seq<byte>, seq<byte>>, attrs: seq<Attribute>, k: seq<byte>)
    requires Represents(m, attrs) && forall j :: 0 <= j < |attrs| ==> attrs[j].key != k
    ensures |m| == |attrs| && k !in m
  {
    assert !HasKey(attrs, k);
  }

  function RunSets(raw: seq<byte>, sets: seq<Attribute>, maxAttributes: nat): (r: seq<byte>)
    requires RawOk(raw, maxAttributes) && maxAttributes < U64_MAX
    ensures RawOk(r, maxAttributes)
  {
    if sets == [] then raw
    else
      var was := RunSets(raw, sets[..|sets| - 1], maxAttributes);
      var last := sets[|sets| - 1];
      SetAttrKeepsOk(was, last.key, last.value, maxAttributes);
      SetAttr(was, last.key, last.value, maxAttributes)
  }

  function RunMap(m: map<seq<byte>, seq<byte>>, sets: seq<Attribute>, max: nat): map<seq<byte>, seq<byte>> {
    if sets == [] then m
    else
      var last := sets[|sets| - 1];
      MapSet(RunMap(m, sets[..|sets| - 1], max), Truncate(last.key, KEY_SIZE), Clean(last.value, VALUE_SIZE), max)
  }

  /** Any run of calls with NUL-free keys is the run of the bounded map; keys stay distinct, the
      count stays within the array, and a key keeps its slot for life. */
  lemma {:induction false} SetsRefineMap(raw: seq<byte>, m: map<seq<byte>, seq<byte>>, sets: seq<Attribute>, maxAttributes: nat)
    requires RawOk(raw, maxAttributes) && maxAttributes < U64_MAX && KeysPadded(raw, maxAttributes)
    requires Represents(m, Attrs(raw, maxAttributes))
    requires forall s :: s in sets ==> NulFree(Truncate(s.key, KEY_SIZE))
    ensures var r := RunSets(raw, sets, maxAttributes);
      && KeysPadded(r, maxAttributes)
      && Represents(RunMap(m, sets, maxAttributes), Attrs(r, maxAttributes))
      && AttrCount(raw) <= AttrCount(r) <= maxAttributes
      && forall j :: 0 <= j < AttrCount(raw) ==> Attrs(r, maxAttributes)[j].key == Attrs(raw, maxAttributes)[j].key
  {
    hide Word, EncodeWord, CString, AttrsUpTo, Truncate, Represents, ListSet, MapSet, SetAttr, KeysPadded;
    if sets != [] {
      var front, last := sets[..|sets| - 1], sets[|sets| - 1];
      assert last in sets;
      SetsRefineMap(raw, m, front, maxAttributes);
      var was := RunSets(raw, front, maxAttributes);
      SetAttrIsListSet(was, last.key, last.value, maxAttributes);
      ListSetIsMapSet(RunMap(m, front, maxAttributes), Attrs(was, maxAttributes),
        Truncate(last.key, KEY_SIZE), Clean(last.value, VALUE_SIZE), maxAttributes);
    }
  }

  /** Recovery shows exactly the entries with a non-empty value. */
  lemma RecoveredEntries(raw: seq<byte>, m: map<seq<byte>, seq<byte>>, maxAttributes: nat, a: Attribute)
    requires RawOk(raw, maxAttributes) && Represents(m, Attrs(raw, maxAttributes))
    ensures a in FromRaw(raw, maxAttributes).attributes <==> a.key in m && m[a.key] == a.value && a.value != []
  {
    hide Word, CString, AttrsUpTo, Visible, Represents, RawOk;
    OkSize(raw, maxAttributes);
    EntriesOfList(m, Attrs(raw, maxAttributes), a);
  }

  lemma EntriesOfList(m: map<seq<byte>, seq<byte>>, attrs: seq<Attribute>, a: Attribute)
    requires Represents(m, attrs)
    ensures a in attrs <==> a.key in m && m[a.key] == a.value
  {
    if a.key in m && m[a.key] == a.value {
      assert HasKey(attrs, a.key);
      var j :| 0 <= j < |attrs| && attrs[j].key == a.key;
      assert attrs[j] == a;
    }
  }

  /** A span as it is first stored has padded keys when its keys are NUL-free. */
  lemma StoredKeysPadded(s: Span, maxAttributes: nat)
    requires maxAttributes < U64_MAX
    requires forall a :: a in s.attributes ==> NulFree(Truncate(a.key, KEY_SIZE))
    ensures RawOk(ToRaw(s, maxAttributes), maxAttributes) && KeysPadded(ToRaw(s, maxAttributes), maxAttributes)
  {
    hide Word, CString, Truncate, RawUpTo, Padded, RawKey, RawValue;
    RawUpToHolds(s, maxAttributes, Min(|s.attributes|, maxAttributes));
    ToRawIsOk(s, maxAttributes);
    forall j | 0 <= j < AttrCount(ToRaw(s, maxAttributes)) ensures Padded(RawKey(ToRaw(s, maxAttributes), j)) {
      assert s.attributes[j] in s.attributes;
      FilledKeyIsPadded(s.attributes[j].key, KEY_SIZE);
    }
  }
}
