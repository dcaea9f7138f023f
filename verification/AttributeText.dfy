/** When does setting an attribute keep the recovered values text, wherever it crashes? */
module AttributeText {
  import opened Bytes
  import opened CopyString
  import opened Codec
  import opened Attributes
  import opened Utf8

  predicate ValuesWellFormed(s: Span) {
    forall a :: a in s.attributes ==> WellFormed(a.value)
  }

  /** Hidden values are empty, so they do not matter. */
  lemma ValuesOfRaw(raw: seq<byte>, maxAttributes: nat)
    requires RawOk(raw, maxAttributes)
    ensures ValuesWellFormed(FromRaw(raw, maxAttributes))
      <==> forall j :: 0 <= j < AttrCount(raw) ==> WellFormed(Attrs(raw, maxAttributes)[j].value)
  {
    hide Word, CString, AttrsUpTo, Visible, RawOk;
    var attrs := Attrs(raw, maxAttributes);
    assert WellFormed([]);
    if ValuesWellFormed(FromRaw(raw, maxAttributes)) {
      forall j | 0 <= j < |attrs| ensures WellFormed(attrs[j].value) {
        assert attrs[j] in attrs;
      }
    }
  }

  /** After `k` stores of the call recovery can read the span, and shows text in every value. */
  predicate RecoversText(raw: seq<byte>, key: seq<byte>, value: seq<byte>, maxAttributes: nat, k: nat)
    requires RawOk(raw, maxAttributes) && maxAttributes < U64_MAX
    requires k <= |SetAttrPuts(raw, key, value, maxAttributes)|
  {
    var ps := SetAttrPuts(raw, key, value, maxAttributes)[..k];
    && AllFit(ps, |raw|)
    && RawOk(RunPuts(raw, ps), maxAttributes)
    && ValuesWellFormed(FromRaw(RunPuts(raw, ps), maxAttributes))
  }

  lemma OverwrittenText(raw: seq<byte>, key: seq<byte>, value: seq<byte>, maxAttributes: nat, k: nat)
    requires RawOk(raw, maxAttributes) && maxAttributes < U64_MAX && ValuesWellFormed(FromRaw(raw, maxAttributes))
    requires SlotOfKey(raw, key, maxAttributes) < AttrCount(raw)
    requires k <= |SetAttrPuts(raw, key, value, maxAttributes)|
    ensures k <= VALUE_SIZE + |Truncate(value, VALUE_SIZE)|
    ensures RecoversText(raw, key, value, maxAttributes, k)
      <==> WellFormed(ValueAfter(raw, SlotOfKey(raw, key, maxAttributes), Truncate(value, VALUE_SIZE), k))
  {
    hide Word, CString, AttrsUpTo, Visible, RawOk, FindFrom, SetAttrPuts, RunPuts, ValuesWellFormed, ValueAfter, WellFormed, FromRaw;
    OkSize(raw, maxAttributes);
    var j := SlotOfKey(raw, key, maxAttributes);
    OverwriteCrash(raw, key, value, maxAttributes, k);
    var r := RunPuts(raw, SetAttrPuts(raw, key, value, maxAttributes)[..k]);
    OkSize(r, maxAttributes);
    ValuesOfRaw(raw, maxAttributes);
    ValuesOfRaw(r, maxAttributes);
    var was, now := Attrs(raw, maxAttributes), Attrs(r, maxAttributes);
    assert |now| == |was| && now[j].value == ValueAfter(raw, j, Truncate(value, VALUE_SIZE), k);
    if WellFormed(now[j].value) {
      forall i | 0 <= i < |now| ensures WellFormed(now[i].value) {
        assert i != j ==> now[i] == was[i];
      }
    }
  }

  lemma OverwriteTextSafeIff(raw: seq<byte>, key: seq<byte>, value: seq<byte>, maxAttributes: nat)
    requires RawOk(raw, maxAttributes) && maxAttributes < U64_MAX && ValuesWellFormed(FromRaw(raw, maxAttributes))
    requires WellFormed(value) && SlotOfKey(raw, key, maxAttributes) < AttrCount(raw)
    ensures (forall k :: 0 <= k <= |SetAttrPuts(raw, key, value, maxAttributes)| ==> RecoversText(raw, key, value, maxAttributes, k))
      <==> IsAscii(Clean(value, VALUE_SIZE))
  {
    hide Word, CString, AttrsUpTo, Visible, RawOk, FindFrom, RunPuts, FromRaw, RecoversText, Truncate;
    OkSize(raw, maxAttributes);
    var j, t, ps := SlotOfKey(raw, key, maxAttributes), Truncate(value, VALUE_SIZE), SetAttrPuts(raw, key, value, maxAttributes);
    assert |ps| == VALUE_SIZE + |t|;
    forall k | 0 <= k <= |ps|
      ensures RecoversText(raw, key, value, maxAttributes, k) <==> WellFormed(ValueAfter(raw, j, t, k))
    {
      OverwrittenText(raw, key, value, maxAttributes, k);
    }
    assert WellFormed(ValueAfter(raw, j, t, 0)) by {
      ValuesOfRaw(raw, maxAttributes);
      assert Attrs(raw, maxAttributes)[j] == AttrAt(raw, j);
    }
    CutCopiesWellFormedIffAscii(value, VALUE_SIZE);
    if forall k :: 0 <= k <= |ps| ==> RecoversText(raw, key, value, maxAttributes, k) {
      forall m | 0 <= m <= |t| ensures WellFormed(CString(t[..m])) {
        if m == 0 {
          assert t[..0] == [];
          EmptyIsText();
        } else {
          assert RecoversText(raw, key, value, maxAttributes, VALUE_SIZE + m);
        }
      }
    }
  }

  lemma EmptyIsText()
    ensures CString([]) == [] && WellFormed([])
  {
  }

  lemma OtherwiseTextSafe(raw: seq<byte>, key: seq<byte>, value: seq<byte>, maxAttributes: nat, k: nat)
    requires RawOk(raw, maxAttributes) && maxAttributes < U64_MAX && ValuesWellFormed(FromRaw(raw, maxAttributes))
    requires WellFormed(value) && SlotOfKey(raw, key, maxAttributes) == AttrCount(raw)
    requires k <= |SetAttrPuts(raw, key, value, maxAttributes)|
    ensures RecoversText(raw, key, value, maxAttributes, k)
  {
    hide Word, CString, AttrsUpTo, Visible, RawOk, FindFrom, RunPuts, FromRaw, AppendPuts, Appended, WellFormed, SameHead;
    OkSize(raw, maxAttributes);
    var ps, n := SetAttrPuts(raw, key, value, maxAttributes), AttrCount(raw);
    SetAttrEffect(raw, key, value, maxAttributes);
    if ps == [] {
      assert ps[..k] == ps;
    } else if k == |ps| {
      assert ps[..k] == ps;
      AppendKeeps(raw, Attribute(key, value), maxAttributes);
      CleanWellFormed(value, VALUE_SIZE);
      ValuesOfRaw(raw, maxAttributes);
      ValuesOfRaw(RunPuts(raw, ps), maxAttributes);
    } else {
      assert ps[..k] == AppendPuts(key, value, n)[..k];
      AppendCrash(raw, key, value, maxAttributes, k);
      SameUsedReadsSame(raw, RunPuts(raw, ps[..k]), maxAttributes);
    }
  }

  /** The call keeps every recovered value text, wherever it crashes, if and only if the span has
      no attribute with that key yet or the new value is ASCII up to its first NUL and as far as
      it fits. */
  lemma SetAttrTextSafeIff(raw: seq<byte>, key: seq<byte>, value: seq<byte>, maxAttributes: nat)
    requires RawOk(raw, maxAttributes) && maxAttributes < U64_MAX
    requires ValuesWellFormed(FromRaw(raw, maxAttributes)) && WellFormed(value)
    ensures (forall k :: 0 <= k <= |SetAttrPuts(raw, key, value, maxAttributes)| ==> RecoversText(raw, key, value, maxAttributes, k))
      <==> SlotOfKey(raw, key, maxAttributes) == AttrCount(raw) || IsAscii(Clean(value, VALUE_SIZE))
  {
    hide Word, RawOk, FindFrom, SetAttrPuts, ValuesWellFormed, WellFormed, RecoversText, IsAscii, Clean;
    OkSize(raw, maxAttributes);
    if SlotOfKey(raw, key, maxAttributes) < AttrCount(raw) {
      OverwriteTextSafeIff(raw, key, value, maxAttributes);
    } else {
      forall k | 0 <= k <= |SetAttrPuts(raw, key, value, maxAttributes)| ensures RecoversText(raw, key, value, maxAttributes, k) {
        OtherwiseTextSafe(raw, key, value, maxAttributes, k);
      }
    }
  }

  // ---- Old, empty or new ----

  /** After `k` stores of an overwrite recovery reads the value as it was, as empty, or whole. */
  predicate RecoversWhole(raw: seq<byte>, key: seq<byte>, value: seq<byte>, maxAttributes: nat, k: nat)
    requires RawOk(raw, maxAttributes) && maxAttributes < U64_MAX && SlotOfKey(raw, key, maxAttributes) < AttrCount(raw)
    requires k <= |SetAttrPuts(raw, key, value, maxAttributes)|
  {
    var j, ps := SlotOfKey(raw, key, maxAttributes), SetAttrPuts(raw, key, value, maxAttributes)[..k];
    && AllFit(ps, |raw|)
    && RawOk(RunPuts(raw, ps), maxAttributes)
    && j < AttrCount(RunPuts(raw, ps))
    && var v := Attrs(RunPuts(raw, ps), maxAttributes)[j].value;
       v == Attrs(raw, maxAttributes)[j].value || v == [] || v == Clean(value, VALUE_SIZE)
  }

  lemma OverwrittenWhole(raw: seq<byte>, key: seq<byte>, value: seq<byte>, maxAttributes: nat, k: nat)
    requires RawOk(raw, maxAttributes) && maxAttributes < U64_MAX && SlotOfKey(raw, key, maxAttributes) < AttrCount(raw)
    requires k <= |SetAttrPuts(raw, key, value, maxAttributes)|
    ensures k <= VALUE_SIZE + |Truncate(value, VALUE_SIZE)|
    ensures var j, c := SlotOfKey(raw, key, maxAttributes), Clean(value, VALUE_SIZE);
      var was := CString(RawValue(raw, j));
      RecoversWhole(raw, key, value, maxAttributes, k)
      <==> (k <= VALUE_SIZE || var m := Min(k - VALUE_SIZE, |c|); c[..m] == was || m == 0 || m == |c|)
  {
    hide Word, CString, AttrsUpTo, RawOk, FindFrom, SetAttrPuts, RunPuts, Truncate;
    OkSize(raw, maxAttributes);
    var j, t := SlotOfKey(raw, key, maxAttributes), Truncate(value, VALUE_SIZE);
    OverwriteCrash(raw, key, value, maxAttributes, k);
    OkSize(RunPuts(raw, SetAttrPuts(raw, key, value, maxAttributes)[..k]), maxAttributes);
    assert Attrs(raw, maxAttributes)[j] == AttrAt(raw, j);
    if k > VALUE_SIZE { CStringOfPrefix(t, k - VALUE_SIZE); }
  }

  /** At every store of an overwrite the value is the old one, empty, or the whole new one: if and
      only if the new one is at most one byte long, up to its first NUL, or two bytes of which the
      old value is the first. */
  lemma OverwriteWholeIff(raw: seq<byte>, key: seq<byte>, value: seq<byte>, maxAttributes: nat)
    requires RawOk(raw, maxAttributes) && maxAttributes < U64_MAX && SlotOfKey(raw, key, maxAttributes) < AttrCount(raw)
    ensures var c, was := Clean(value, VALUE_SIZE), CString(RawValue(raw, SlotOfKey(raw, key, maxAttributes)));
      (forall k :: 0 <= k <= |SetAttrPuts(raw, key, value, maxAttributes)| ==> RecoversWhole(raw, key, value, maxAttributes, k))
      <==> |c| <= 1 || (|c| == 2 && was == c[..1])
  {
    hide Word, CString, RawOk, FindFrom, RecoversWhole, FillPuts, Truncate;
    OkSize(raw, maxAttributes);
    var c, t, ps := Clean(value, VALUE_SIZE), Truncate(value, VALUE_SIZE), SetAttrPuts(raw, key, value, maxAttributes);
    var was := CString(RawValue(raw, SlotOfKey(raw, key, maxAttributes)));
    FillPutsPrefix(t, ValueAt(SlotOfKey(raw, key, maxAttributes)), VALUE_SIZE, 0);
    assert |ps| == VALUE_SIZE + |t| && |c| <= |t|;
    forall k | 0 <= k <= |ps|
      ensures RecoversWhole(raw, key, value, maxAttributes, k)
        <==> (k <= VALUE_SIZE || var m := Min(k - VALUE_SIZE, |c|); c[..m] == was || m == 0 || m == |c|)
    {
      OverwrittenWhole(raw, key, value, maxAttributes, k);
    }
    if |c| > 1 {
      assert RecoversWhole(raw, key, value, maxAttributes, VALUE_SIZE + 1) <==> c[..1] == was;
    }
    if |c| > 2 {
      assert RecoversWhole(raw, key, value, maxAttributes, VALUE_SIZE + 2) <==> c[..2] == was;
      assert |c[..1]| != |c[..2]|;
    }
  }

  // ---- An instance ----

  /** A span with one attribute, stored: it reads back, and its key is found in slot 0. */
  lemma StoredWithOne(s: Span, a: Attribute, maxAttributes: nat)
    requires 0 < maxAttributes < U64_MAX && WithinLimits(s, maxAttributes) && s.attributes == [a]
    ensures var raw := ToRaw(s, maxAttributes);
      && RawOk(raw, maxAttributes) && FromRaw(raw, maxAttributes) == s
      && Attrs(raw, maxAttributes) == [a] && SlotOfKey(raw, a.key, maxAttributes) == 0
  {
    hide Word, CString, Visible, Truncate, RawOk, ToRaw, Normalise, KeyEquals, Clean;
    var raw := ToRaw(s, maxAttributes);
    RoundTrip(s, maxAttributes);
    NormaliseIdentityIffWithinLimits(s, maxAttributes);
    StoredAttrs(s, maxAttributes);
    OkSize(raw, maxAttributes);
    CleanIffFits(a.key, KEY_SIZE);
    CleanIffFits(a.value, VALUE_SIZE);
    assert s.attributes[..1] == [a];
    assert a in s.attributes;
    FirstKeyFound(s, a, maxAttributes);
  }

  lemma FirstKeyFound(s: Span, a: Attribute, maxAttributes: nat)
    requires 0 < maxAttributes < U64_MAX && s.attributes == [a] && FitsBuffer(a.key, KEY_SIZE)
    ensures RawOk(ToRaw(s, maxAttributes), maxAttributes) && SlotOfKey(ToRaw(s, maxAttributes), a.key, maxAttributes) == 0
  {
    hide Word, CString, Truncate, RawUpTo, KeyEquals;
    RawUpToHolds(s, maxAttributes, 1);
    ToRawIsOk(s, maxAttributes);
    TruncateFits(a.key, KEY_SIZE);
    KeyEqualsIffSameTruncation(a.key, a.key, KEY_SIZE);
  }

  /** A stored span, one attribute of which is overwritten with a two-byte character: after the
      128 bytes of zeros and the first byte of the value recovery shows half a character. */
  lemma OverwriteSplitsCharacter(maxAttributes: nat)
    requires 0 < maxAttributes < U64_MAX
    ensures var s := Span(0, 0, 1, 0, 0, 0, [], [Attribute([107], [65])]);
      var raw, value := ToRaw(s, maxAttributes), [0xC3, 0xA9];
      && RawOk(raw, maxAttributes) && FromRaw(raw, maxAttributes) == s && WellFormed(value)
      && var ps := SetAttrPuts(raw, [107], value, maxAttributes);
      && |ps| == 130 && AllFit(ps[..129], |raw|) && RawOk(RunPuts(raw, ps[..129]), maxAttributes)
      && FromRaw(RunPuts(raw, ps[..129]), maxAttributes).attributes == [Attribute([107], [0xC3])]
      && !WellFormed([0xC3])
  {
    hide Word, RawOk, ToRaw, FindFrom, RunPuts, Truncate, CString, AttrsUpTo, FillPuts, WellFormed;
    var a, value := Attribute([107], [65]), [0xC3, 0xA9];
    var s := Span(0, 0, 1, 0, 0, 0, [], [a]);
    StoredWithOne(s, a, maxAttributes);
    var raw := ToRaw(s, maxAttributes);
    OkSize(raw, maxAttributes);
    TwoByteCharacter();
    TruncateFits(value, VALUE_SIZE);
    FillPutsPrefix(value, ValueAt(0), VALUE_SIZE, 129);
    OverwriteCrash(raw, a.key, value, maxAttributes, 129);
    var r := RunPuts(raw, SetAttrPuts(raw, a.key, value, maxAttributes)[..129]);
    assert Attrs(r, maxAttributes) == [Attribute([107], [0xC3])];
    VisibleAll(Attrs(r, maxAttributes));
  }

  lemma TwoByteCharacter()
    ensures var e: seq<byte> := [0xC3, 0xA9];
      WellFormed(e) && e[..1] == [0xC3] && CString(e[..1]) == [0xC3] && !WellFormed([0xC3])
  {
    var e: seq<byte> := [0xC3, 0xA9];
    assert e[2..] == [];
    CStringOfNulFree(e[..1]);
  }
}
