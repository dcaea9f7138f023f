/** The span codec: a `Span` and its fixed-size image in the file. */
module Codec {
  import opened Bytes
  import opened MemoryModel
  import opened CopyString

  datatype Attribute = Attribute(key: seq<byte>, value: seq<byte>)

  datatype Span = Span(
    traceHigh: u64, traceLow: u64, id: u64, parent: u64, start: u64, end: u64,
    name: seq<byte>, attributes: seq<Attribute>)

  // ---- The raw span: a packed struct, word-aligned ----

  const TRACE_HIGH: nat := 0
  const TRACE_LOW: nat := 8
  const ID: nat := 16
  const PARENT: nat := 24
  const START: nat := 32
  const END: nat := 40
  const NAME: nat := 48
  const NAME_SIZE: nat := 64
  const ATTR_COUNT: nat := 112
  const ATTRS: nat := 120
  const KEY_SIZE: nat := 64
  const VALUE_SIZE: nat := 128

  function KeyAt(j: nat): nat { ATTRS + (KEY_SIZE + VALUE_SIZE) * j }

  function ValueAt(j: nat): nat { KeyAt(j) + KEY_SIZE }

  function RawSize(maxAttributes: nat): nat { KeyAt(maxAttributes) }

  function AttrCount(raw: seq<byte>): u64
    requires |raw| >= ATTRS
  {
    Word(raw, ATTR_COUNT)
  }

  function RawId(raw: seq<byte>): u64
    requires |raw| >= ATTRS
  {
    Word(raw, ID)
  }

  function RawName(raw: seq<byte>): (b: seq<byte>)
    requires |raw| >= ATTRS
    ensures |b| == NAME_SIZE
  {
    raw[NAME..NAME + NAME_SIZE]
  }

  function RawKey(raw: seq<byte>, j: nat): (b: seq<byte>)
    requires |raw| >= RawSize(j + 1)
    ensures |b| == KEY_SIZE
  {
    raw[KeyAt(j)..KeyAt(j) + KEY_SIZE]
  }

  function RawValue(raw: seq<byte>, j: nat): (b: seq<byte>)
    requires |raw| >= RawSize(j + 1)
    ensures |b| == VALUE_SIZE
  {
    raw[ValueAt(j)..ValueAt(j) + VALUE_SIZE]
  }

  predicate Sealed(buffer: seq<byte>)
    requires |buffer| > 0
  {
    buffer[|buffer| - 1] == 0
  }

  /** A raw span that is safe to read back: its attribute count is within the array and every
      buffer that is read as a C string ends in a NUL. */
  predicate RawOk(raw: seq<byte>, maxAttributes: nat) {
    && |raw| == RawSize(maxAttributes)
    && AttrCount(raw) <= maxAttributes
    && Sealed(RawName(raw))
    && forall j :: 0 <= j < AttrCount(raw) ==> Sealed(RawKey(raw, j)) && Sealed(RawValue(raw, j))
  }

  lemma OkSize(raw: seq<byte>, maxAttributes: nat)
    requires RawOk(raw, maxAttributes)
    ensures |raw| == RawSize(maxAttributes) && |raw| >= ATTRS && AttrCount(raw) <= maxAttributes
  {
  }

  function AttrAt(raw: seq<byte>, j: nat): Attribute
    requires |raw| >= RawSize(j + 1)
  {
    Attribute(CString(RawKey(raw, j)), CString(RawValue(raw, j)))
  }

  /** The first `n` attribute slots, hidden ones included. */
  function AttrsUpTo(raw: seq<byte>, n: nat): (attrs: seq<Attribute>)
    requires |raw| >= RawSize(n)
    ensures |attrs| == n && forall j :: 0 <= j < n ==> attrs[j] == AttrAt(raw, j)
  {
    if n == 0 then [] else AttrsUpTo(raw, n - 1) + [AttrAt(raw, n - 1)]
  }

  function Attrs(raw: seq<byte>, maxAttributes: nat): (attrs: seq<Attribute>)
    requires RawOk(raw, maxAttributes)
    ensures |attrs| == AttrCount(raw)
  {
    AttrsUpTo(raw, AttrCount(raw))
  }

  /** An attribute with an empty value is hidden. */
  function Visible(attrs: seq<Attribute>): (v: seq<Attribute>)
    ensures |v| <= |attrs|
    ensures forall a :: a in v <==> a in attrs && a.value != []
  {
    if attrs == [] then []
    else
      var last := attrs[|attrs| - 1];
      assert attrs == attrs[..|attrs| - 1] + [last];
      Visible(attrs[..|attrs| - 1]) + if last.value != [] then [last] else []
  }

  /** What recovery reads from a raw span. */
  function FromRaw(raw: seq<byte>, maxAttributes: nat): Span
    requires RawOk(raw, maxAttributes)
  {
    Span(
      Word(raw, TRACE_HIGH), Word(raw, TRACE_LOW), RawId(raw), Word(raw, PARENT), Word(raw, START), Word(raw, END),
      CString(RawName(raw)), Visible(Attrs(raw, maxAttributes)))
  }

  lemma NothingVisible(raw: seq<byte>)
    ensures Visible([]) == []
    ensures |raw| >= ATTRS ==> AttrsUpTo(raw, 0) == []
  {
  }

  lemma VisibleConcat(attrs: seq<Attribute>, a: Attribute)
    ensures Visible(attrs + [a]) == Visible(attrs) + if a.value != [] then [a] else []
  {
    assert (attrs + [a])[..|attrs|] == attrs;
  }

  /** One more attribute slot shows its attribute, unless its value is empty. */
  lemma VisibleStep(raw: seq<byte>, i: nat)
    requires |raw| >= RawSize(i + 1)
    ensures Visible(AttrsUpTo(raw, i + 1))
      == Visible(AttrsUpTo(raw, i)) + if AttrAt(raw, i).value != [] then [AttrAt(raw, i)] else []
  {
    hide Visible, AttrAt;
    VisibleConcat(AttrsUpTo(raw, i), AttrAt(raw, i));
  }

  method SpanFromRaw(raw: seq<byte>, maxAttributes: nat) returns (s: Span)
    requires RawOk(raw, maxAttributes)
    ensures s == FromRaw(raw, maxAttributes)
  {
    hide Word, CString, Visible, AttrsUpTo, AttrAt;
    var attributes: seq<Attribute> := [];
    var i := 0;
    NothingVisible(raw);
    while i < AttrCount(raw)
      invariant i <= AttrCount(raw)
      invariant attributes == Visible(AttrsUpTo(raw, i))
    {
      var attr := AttrAt(raw, i);
      VisibleStep(raw, i);
      if attr.value != [] {
        attributes := attributes + [attr];
      }
      i := i + 1;
    }
    s := Span(
      Word(raw, TRACE_HIGH), Word(raw, TRACE_LOW), RawId(raw), Word(raw, PARENT), Word(raw, START), Word(raw, END),
      CString(RawName(raw)), attributes);
  }

  // ---- Encoding ----

  function WithWord(raw: seq<byte>, at: nat, v: u64): seq<byte>
    requires at + WORD <= |raw|
  {
    Splice(raw, at, EncodeWord(v))
  }

  /** The fixed fields, over zeros. */
  function RawHead(s: Span, maxAttributes: nat): (raw: seq<byte>)
    ensures |raw| == RawSize(maxAttributes)
  {
    var r0 := WithWord(Zeros(RawSize(maxAttributes)), TRACE_HIGH, s.traceHigh);
    var r1 := WithWord(r0, TRACE_LOW, s.traceLow);
    var r2 := WithWord(r1, ID, s.id);
    var r3 := WithWord(r2, PARENT, s.parent);
    var r4 := WithWord(r3, START, s.start);
    var r5 := WithWord(r4, END, s.end);
    var r6 := Splice(r5, NAME, Fill(s.name, NAME_SIZE));
    WithWord(r6, ATTR_COUNT, 0)
  }

  /** `raw` with attribute slot `j` filled. */
  function WithAttr(raw: seq<byte>, j: nat, a: Attribute): (r: seq<byte>)
    requires |raw| >= RawSize(j + 1)
    ensures |r| == |raw|
  {
    Splice(Splice(raw, KeyAt(j), Fill(a.key, KEY_SIZE)), ValueAt(j), Fill(a.value, VALUE_SIZE))
  }

  /** The image once the first `n` attributes are in. */
  function RawUpTo(s: Span, maxAttributes: nat, n: nat): (raw: seq<byte>)
    requires n <= |s.attributes| && n <= maxAttributes < U64_MAX
    ensures |raw| == RawSize(maxAttributes)
  {
    if n == 0 then RawHead(s, maxAttributes)
    else WithWord(WithAttr(RawUpTo(s, maxAttributes, n - 1), n - 1, s.attributes[n - 1]), ATTR_COUNT, n)
  }

  function ToRaw(s: Span, maxAttributes: nat): (raw: seq<byte>)
    requires maxAttributes < U64_MAX
    ensures |raw| == RawSize(maxAttributes)
  {
    RawUpTo(s, maxAttributes, Min(|s.attributes|, maxAttributes))
  }

  method ToRawSpan(s: Span, maxAttributes: nat) returns (raw: seq<byte>)
    requires maxAttributes < U64_MAX
    ensures raw == ToRaw(s, maxAttributes)
  {
    hide Word, EncodeWord, Truncate, Splice, Fill;
    var buf := new Memory(RawSize(maxAttributes));
    StoreHead(s, maxAttributes, buf);
    var n := 0;
    while n < |s.attributes| && n < maxAttributes
      invariant n <= |s.attributes| && n <= maxAttributes
      invariant buf.Valid() && fresh(buf) && fresh(buf.data)
      invariant buf.data[..] == RawUpTo(s, maxAttributes, n)
    {
      StoreAttr(s.attributes[n], n, buf);
      n := n + 1;
    }
    raw := buf.data[..];
  }

  method StoreAttr(a: Attribute, j: nat, buf: Memory)
    requires buf.Valid() && buf.data.Length >= RawSize(j + 1) && j + 1 <= U64_MAX
    modifies buf`log, buf.data
    ensures buf.Valid()
    ensures buf.data[..] == WithWord(WithAttr(old(buf.data[..]), j, a), ATTR_COUNT, j + 1)
  {
    CopyStringTo2(a.key, KeyAt(j), KEY_SIZE, a.value, ValueAt(j), VALUE_SIZE, buf);
    buf.StoreWord(ATTR_COUNT, j + 1);
  }

  method StoreHead(s: Span, maxAttributes: nat, buf: Memory)
    requires buf.Valid() && buf.data[..] == Zeros(RawSize(maxAttributes))
    modifies buf`log, buf.data
    ensures buf.Valid() && buf.data[..] == RawHead(s, maxAttributes)
  {
    buf.StoreWord(TRACE_HIGH, s.traceHigh);
    buf.StoreWord(TRACE_LOW, s.traceLow);
    buf.StoreWord(ID, s.id);
    buf.StoreWord(PARENT, s.parent);
    buf.StoreWord(START, s.start);
    buf.StoreWord(END, s.end);
    CopyStringTo(s.name, buf, NAME, NAME_SIZE);
    buf.StoreWord(ATTR_COUNT, 0);
  }

  // ---- What the encoding holds ----

  lemma SliceOfSplice(f: seq<byte>, at: nat, b: seq<byte>, lo: nat, hi: nat)
    requires at + |b| <= |f| && lo <= hi <= |f|
    ensures hi <= at || at + |b| <= lo ==> Splice(f, at, b)[lo..hi] == f[lo..hi]
    ensures lo == at && hi == at + |b| ==> Splice(f, at, b)[lo..hi] == b
  {
  }

  /** A store of one word leaves every word and buffer elsewhere alone. */
  lemma OtherWord(raw: seq<byte>, at: nat, b: seq<byte>, w: nat)
    requires at + |b| <= |raw| && w + WORD <= |raw| && (w + WORD <= at || at + |b| <= w)
    ensures Word(Splice(raw, at, b), w) == Word(raw, w)
  {
    WordFrame(raw, Splice(raw, at, b), w);
  }

  predicate HasWords(raw: seq<byte>, s: Span)
    requires |raw| >= ATTRS
  {
    && Word(raw, TRACE_HIGH) == s.traceHigh && Word(raw, TRACE_LOW) == s.traceLow
    && RawId(raw) == s.id && Word(raw, PARENT) == s.parent
    && Word(raw, START) == s.start && Word(raw, END) == s.end
  }

  lemma RawHeadWords(s: Span, maxAttributes: nat)
    ensures var raw := RawHead(s, maxAttributes);
      HasWords(raw, s) && AttrCount(raw) == 0 && RawName(raw) == Fill(s.name, NAME_SIZE)
  {
    hide Word, EncodeWord, Truncate;
    var r0 := WithWord(Zeros(RawSize(maxAttributes)), TRACE_HIGH, s.traceHigh);
    WordOfSplice(Zeros(RawSize(maxAttributes)), TRACE_HIGH, s.traceHigh);
    var r1 := WithWord(r0, TRACE_LOW, s.traceLow);
    WordOfSplice(r0, TRACE_LOW, s.traceLow);
    var r2 := WithWord(r1, ID, s.id);
    WordOfSplice(r1, ID, s.id);
    var r3 := WithWord(r2, PARENT, s.parent);
    WordOfSplice(r2, PARENT, s.parent);
    var r4 := WithWord(r3, START, s.start);
    WordOfSplice(r3, START, s.start);
    var r5 := WithWord(r4, END, s.end);
    WordOfSplice(r4, END, s.end);
    var r6 := Splice(r5, NAME, Fill(s.name, NAME_SIZE));
    var r := WithWord(r6, ATTR_COUNT, 0);
    WordOfSplice(r6, ATTR_COUNT, 0);
    assert r == RawHead(s, maxAttributes);
    WordFrame(r0, r, TRACE_HIGH);
    WordFrame(r1, r, TRACE_LOW);
    WordFrame(r2, r, ID);
    WordFrame(r3, r, PARENT);
    WordFrame(r4, r, START);
    WordFrame(r5, r, END);
  }

  /** Filling attribute slot `j` and bumping the count leaves all the other fields alone. */
  lemma WithAttrFields(raw: seq<byte>, j: nat, a: Attribute, count: u64)
    requires |raw| >= RawSize(j + 1)
    ensures var r := WithWord(WithAttr(raw, j, a), ATTR_COUNT, count);
      && AttrCount(r) == count && RawName(r) == RawName(raw)
      && RawKey(r, j) == Fill(a.key, KEY_SIZE) && RawValue(r, j) == Fill(a.value, VALUE_SIZE)
      && (forall w :: 0 <= w <= NAME - WORD ==> Word(r, w) == Word(raw, w))
  {
    var m := WithAttr(raw, j, a);
    var r := WithWord(m, ATTR_COUNT, count);
    WordOfSplice(m, ATTR_COUNT, count);
    assert RawKey(r, j) == Fill(a.key, KEY_SIZE);
    assert RawValue(r, j) == Fill(a.value, VALUE_SIZE);
    assert RawName(r) == RawName(raw);
    forall w | 0 <= w <= NAME - WORD ensures Word(r, w) == Word(raw, w) {
      WordFrame(raw, r, w);
    }
  }

  lemma WithAttrOthers(raw: seq<byte>, j: nat, a: Attribute, count: u64, i: nat)
    requires |raw| >= RawSize(j + 1) && i < j
    ensures var r := WithWord(WithAttr(raw, j, a), ATTR_COUNT, count);
      RawKey(r, i) == RawKey(raw, i) && RawValue(r, i) == RawValue(raw, i)
  {
    var r := WithWord(WithAttr(raw, j, a), ATTR_COUNT, count);
    assert RawKey(r, i) == RawKey(raw, i);
    assert RawValue(r, i) == RawValue(raw, i);
  }

  ghost predicate Holds(raw: seq<byte>, s: Span, n: nat)
    requires n <= |s.attributes| && |raw| >= RawSize(n)
  {
    && HasWords(raw, s) && AttrCount(raw) == n
    && RawName(raw) == Fill(s.name, NAME_SIZE)
    && forall j :: 0 <= j < n ==>
        RawKey(raw, j) == Fill(s.attributes[j].key, KEY_SIZE) && RawValue(raw, j) == Fill(s.attributes[j].value, VALUE_SIZE)
  }

  lemma HoldsOneMore(raw: seq<byte>, s: Span, n: nat)
    requires 0 < n <= |s.attributes| && n <= U64_MAX && |raw| >= RawSize(n) && Holds(raw, s, n - 1)
    ensures Holds(WithWord(WithAttr(raw, n - 1, s.attributes[n - 1]), ATTR_COUNT, n), s, n)
  {
    hide Word, EncodeWord, Truncate;
    var a := s.attributes[n - 1];
    var r := WithWord(WithAttr(raw, n - 1, a), ATTR_COUNT, n);
    WithAttrFields(raw, n - 1, a, n);
    forall j | 0 <= j < n
      ensures RawKey(r, j) == Fill(s.attributes[j].key, KEY_SIZE) && RawValue(r, j) == Fill(s.attributes[j].value, VALUE_SIZE)
    {
      if j < n - 1 {
        WithAttrOthers(raw, n - 1, a, n, j);
      }
    }
  }

  lemma {:induction false} RawUpToHolds(s: Span, maxAttributes: nat, n: nat)
    requires n <= |s.attributes| && n <= maxAttributes < U64_MAX
    ensures Holds(RawUpTo(s, maxAttributes, n), s, n)
  {
    hide Word, EncodeWord, Truncate;
    if n == 0 {
      RawHeadWords(s, maxAttributes);
    } else {
      RawUpToHolds(s, maxAttributes, n - 1);
      HoldsOneMore(RawUpTo(s, maxAttributes, n - 1), s, n);
    }
  }

  lemma ToRawIsOk(s: Span, maxAttributes: nat)
    requires maxAttributes < U64_MAX
    ensures RawOk(ToRaw(s, maxAttributes), maxAttributes) && RawId(ToRaw(s, maxAttributes)) == s.id
  {
    RawUpToHolds(s, maxAttributes, Min(|s.attributes|, maxAttributes));
  }

  // ---- The round trip ----

  function CleanAttr(a: Attribute): Attribute {
    Attribute(Clean(a.key, KEY_SIZE), Clean(a.value, VALUE_SIZE))
  }

  function CleanAttrs(attrs: seq<Attribute>): (c: seq<Attribute>)
    ensures |c| == |attrs| && forall j :: 0 <= j < |c| ==> c[j] == CleanAttr(attrs[j])
  {
    if attrs == [] then [] else CleanAttrs(attrs[..|attrs| - 1]) + [CleanAttr(attrs[|attrs| - 1])]
  }

  /** The span as the store keeps it: strings cut to size, attributes cut to number. */
  function Bounded(s: Span, maxAttributes: nat): Span {
    s.(name := Clean(s.name, NAME_SIZE),
       attributes := CleanAttrs(s.attributes[..Min(|s.attributes|, maxAttributes)]))
  }

  /** The span as recovery returns it: the attributes left with an empty value are dropped,
      after their number was cut. */
  function Normalise(s: Span, maxAttributes: nat): Span {
    var b := Bounded(s, maxAttributes);
    b.(attributes := Visible(b.attributes))
  }

  lemma StoredAttrs(s: Span, maxAttributes: nat)
    requires maxAttributes < U64_MAX
    ensures RawOk(ToRaw(s, maxAttributes), maxAttributes)
    ensures Attrs(ToRaw(s, maxAttributes), maxAttributes) == Bounded(s, maxAttributes).attributes
  {
    hide Word, CString, Truncate, RawUpTo, AttrsUpTo, AttrAt, CleanAttr, CleanAttrs;
    var n := Min(|s.attributes|, maxAttributes);
    var raw := ToRaw(s, maxAttributes);
    RawUpToHolds(s, maxAttributes, n);
    ToRawIsOk(s, maxAttributes);
    forall j | 0 <= j < n ensures AttrAt(raw, j) == CleanAttr(s.attributes[j]) {
      AttrOfFilled(raw, j, s.attributes[j]);
    }
    assert Attrs(raw, maxAttributes) == CleanAttrs(s.attributes[..n]);
  }

  lemma AttrOfFilled(raw: seq<byte>, j: nat, a: Attribute)
    requires |raw| >= RawSize(j + 1)
    requires RawKey(raw, j) == Fill(a.key, KEY_SIZE) && RawValue(raw, j) == Fill(a.value, VALUE_SIZE)
    ensures AttrAt(raw, j) == CleanAttr(a)
  {
    hide RawKey, RawValue, Fill, CString;
    CStringOfFill(a.key, KEY_SIZE);
    CStringOfFill(a.value, VALUE_SIZE);
  }

  lemma RoundTrip(s: Span, maxAttributes: nat)
    requires maxAttributes < U64_MAX
    ensures RawOk(ToRaw(s, maxAttributes), maxAttributes)
    ensures FromRaw(ToRaw(s, maxAttributes), maxAttributes) == Normalise(s, maxAttributes)
  {
    hide Word, CString, Visible, Truncate, RawOk, Attrs;
    StoredAttrs(s, maxAttributes);
    RawUpToHolds(s, maxAttributes, Min(|s.attributes|, maxAttributes));
    CStringOfFill(s.name, NAME_SIZE);
  }

  predicate FitsBuffer(s: seq<byte>, n: nat) {
    |s| < n && NulFree(s)
  }

  predicate WithinLimits(s: Span, maxAttributes: nat) {
    && FitsBuffer(s.name, NAME_SIZE)
    && |s.attributes| <= maxAttributes
    && forall a :: a in s.attributes ==> FitsBuffer(a.key, KEY_SIZE) && FitsBuffer(a.value, VALUE_SIZE) && a.value != []
  }

  lemma CleanIffFits(s: seq<byte>, n: nat)
    requires n > 0
    ensures Clean(s, n) == s <==> FitsBuffer(s, n)
  {
    if FitsBuffer(s, n) {
      TruncateFits(s, n);
      CStringOfNulFree(s);
    }
  }

  lemma {:induction false} VisibleAll(attrs: seq<Attribute>)
    requires forall a :: a in attrs ==> a.value != []
    ensures Visible(attrs) == attrs
  {
    hide Visible;
    if attrs == [] {
      NothingVisible([]);
    } else {
      var front, last := attrs[..|attrs| - 1], attrs[|attrs| - 1];
      assert attrs == front + [last];
      assert last in attrs;
      VisibleAll(front);
      VisibleConcat(front, last);
    }
  }

  lemma NormaliseIsWithinLimits(s: Span, maxAttributes: nat)
    ensures WithinLimits(Normalise(s, maxAttributes), maxAttributes)
  {
    var b := Bounded(s, maxAttributes).attributes;
    forall a | a in Visible(b) ensures FitsBuffer(a.key, KEY_SIZE) && FitsBuffer(a.value, VALUE_SIZE) && a.value != [] {
      var j :| 0 <= j < |b| && b[j] == a;
    }
  }

  lemma CleanAttrsWithinLimits(attrs: seq<Attribute>)
    requires forall a :: a in attrs ==> FitsBuffer(a.key, KEY_SIZE) && FitsBuffer(a.value, VALUE_SIZE)
    ensures CleanAttrs(attrs) == attrs
  {
    forall j | 0 <= j < |attrs| ensures CleanAttr(attrs[j]) == attrs[j] {
      assert attrs[j] in attrs;
      CleanIffFits(attrs[j].key, KEY_SIZE);
      CleanIffFits(attrs[j].value, VALUE_SIZE);
    }
  }

  /** Storing and recovering a span changes nothing exactly when it is within the limits. */
  lemma NormaliseIdentityIffWithinLimits(s: Span, maxAttributes: nat)
    ensures Normalise(s, maxAttributes) == s <==> WithinLimits(s, maxAttributes)
  {
    NormaliseIsWithinLimits(s, maxAttributes);
    if WithinLimits(s, maxAttributes) {
      CleanIffFits(s.name, NAME_SIZE);
      CleanAttrsWithinLimits(s.attributes);
      VisibleAll(s.attributes);
      assert s.attributes[..|s.attributes|] == s.attributes;
    }
  }

  lemma NormaliseIdempotent(s: Span, maxAttributes: nat)
    ensures Normalise(Normalise(s, maxAttributes), maxAttributes) == Normalise(s, maxAttributes)
  {
    NormaliseIsWithinLimits(s, maxAttributes);
    NormaliseIdentityIffWithinLimits(Normalise(s, maxAttributes), maxAttributes);
  }
}
