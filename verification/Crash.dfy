/** A crash between any two stores of any call, in any run. */
module Crash {
  import opened Bytes
  import opened CopyString
  import opened Codec
  import opened Attributes
  import opened Layout
  import opened SlotQueue
  import opened SpanStore

  // ---- The stores of a call ----

  ghost function MakeRoomStores(st: State, cfg: Config): seq<Store>
    requires Inv(st, cfg)
  {
    var oldest := OldestScan(st.img.slots, st.img.count).1;
    if st.img.count == cfg.maxSpans && oldest != 0 && oldest in st.index then RemoveStores(st.img, st.index[oldest]) else []
  }

  ghost function OpStores(st: State, op: Op, cfg: Config): seq<Store>
    requires Inv(st, cfg) && CanStep(st, op)
  {
    match op
    case Add(span) =>
      RoomIsMade(st, cfg);
      if span.id in st.index then []
      else
        var room := MakeRoom(st, cfg);
        MakeRoomStores(st, cfg) + AddStores(room.img, room.marks + 1, ToRaw(span, cfg.maxAttributes))
    case Remove(id) => if id in st.index then RemoveStores(st.img, st.index[id]) else []
    case Change(id, e) =>
      if id in st.index then
        FieldStores(st.index[id], EditPuts(st.img.slots[st.index[id]].raw, e, cfg.maxAttributes))
      else []
  }

  // ---- Prefixes of stores ----

  lemma RunTake(img: Image, ss: seq<Store>, k: nat, cfg: Config)
    requires ImageOk(img, cfg) && StoresOk(ss, cfg) && k < |ss|
    ensures RunStores(img, ss[..0], cfg) == img
    ensures RunStores(img, ss[..k + 1], cfg) == Apply(RunStores(img, ss[..k], cfg), ss[k], cfg)
  {
    hide Apply;
    assert ss[..k + 1][..k] == ss[..k];
  }

  lemma {:induction false} RunStoresConcat(img: Image, a: seq<Store>, b: seq<Store>, cfg: Config)
    requires ImageOk(img, cfg) && StoresOk(a, cfg) && StoresOk(b, cfg)
    ensures StoresOk(a + b, cfg)
    ensures RunStores(img, a + b, cfg) == RunStores(RunStores(img, a, cfg), b, cfg)
  {
    hide Apply;
    if b == [] {
      assert a + b == a;
    } else {
      assert (a + b)[..|a + b| - 1] == a + b[..|b| - 1];
      RunStoresConcat(img, a, b[..|b| - 1], cfg);
    }
  }

  /** A crash in two runs of stores is a crash in one of them. */
  lemma CrashConcat(img: Image, a: seq<Store>, b: seq<Store>, done: nat, junk: seq<byte>, cfg: Config)
    requires ImageOk(img, cfg) && StoresOk(a, cfg) && StoresOk(b, cfg) && done <= |a| + |b|
    ensures StoresOk(a + b, cfg)
    ensures CrashStores(img, a + b, done, junk, cfg)
         == if done < |a| then CrashStores(img, a, done, junk, cfg)
            else CrashStores(RunStores(img, a, cfg), b, done - |a|, junk, cfg)
  {
    hide Apply, RunStores;
    if done < |a| {
      assert (a + b)[..done] == a[..done];
    } else {
      assert (a + b)[..done] == a + b[..done - |a|];
      RunStoresConcat(img, a, b[..done - |a|], cfg);
    }
  }

  // ---- Adding ----

  /** The slot of a new span after `done` stores: its mark is cleared before any of the span is
      there, torn or not, and set only when all of it is. */
  function AddedSlot(was: Slot, mark: u64, raw: Raw, done: nat, junk: seq<byte>): Slot {
    if done == 0 then was
    else if done == 1 then Slot(0, if |junk| == |raw| then junk else was.raw)
    else if done == 2 then Slot(0, raw)
    else Slot(mark, raw)
  }

  /** All that changes besides is the count, with the last store. */
  lemma AddStates(img: Image, mark: u64, raw: Raw, done: nat, junk: seq<byte>, cfg: Config)
    requires ImageOk(img, cfg) && img.count < cfg.maxSpans < U64_MAX && |raw| == RawSize(cfg.maxAttributes) && done <= 4
    ensures StoresOk(AddStores(img, mark, raw), cfg)
    ensures var n := img.count;
      CrashStores(img, AddStores(img, mark, raw), done, junk, cfg)
      == Image(if done == 4 then n + 1 else n, img.slots[n := AddedSlot(img.slots[n], mark, raw, done, junk)])
  {
    var ss, n := AddStores(img, mark, raw), img.count;
    assert StoresOk(ss, cfg);
    RunTake(img, ss, 0, cfg);
    RunTake(img, ss, 1, cfg);
    RunTake(img, ss, 2, cfg);
    RunTake(img, ss, 3, cfg);
    var slots := img.slots;
    assert slots == slots[n := slots[n]];
    assert RunStores(img, ss[..1], cfg).slots == slots[n := Slot(0, slots[n].raw)];
    assert RunStores(img, ss[..2], cfg).slots == slots[n := Slot(0, raw)];
    assert RunStores(img, ss[..3], cfg).slots == slots[n := Slot(mark, raw)];
    var c := CrashStores(img, ss, done, junk, cfg);
    if done == 1 && |junk| == |raw| {
      assert c.slots == slots[n := Slot(0, junk)];
    }
    assert c.slots == slots[n := AddedSlot(slots[n], mark, raw, done, junk)];
  }

  /** Until the count is stored the scan does not see the new span. */
  lemma AddCrash(img: Image, mark: u64, raw: Raw, done: nat, junk: seq<byte>, cfg: Config)
    requires ImageOk(img, cfg) && img.count < cfg.maxSpans < U64_MAX && |raw| == RawSize(cfg.maxAttributes) && done < 4
    ensures StoresOk(AddStores(img, mark, raw), cfg)
    ensures var c := CrashStores(img, AddStores(img, mark, raw), done, junk, cfg);
      c.count == img.count && Scan(c.slots, c.count) == Scan(img.slots, img.count)
  {
    hide Scan, CrashStores, Apply;
    AddStates(img, mark, raw, done, junk, cfg);
    var c := CrashStores(img, AddStores(img, mark, raw), done, junk, cfg);
    ScanFrame(img.slots, c.slots, img.count);
  }

  // ---- Removing ----

  /** The image once the slot of the target is cleared. */
  ghost predicate Cleared(img: Image, i: nat, c: Image)
    requires i < |img.slots|
  {
    c.count == img.count && exists raw :: c.slots == img.slots[i := Slot(0, raw)]
  }

  lemma RemoveLastStates(img: Image, done: nat, junk: seq<byte>, cfg: Config)
    requires ImageOk(img, cfg) && 0 < img.count <= cfg.maxSpans && done <= 2
    ensures var i := img.count - 1; var ss := RemoveStores(img, i);
      && |ss| == 2 && StoresOk(ss, cfg)
      && var c := CrashStores(img, ss, done, junk, cfg);
         if done == 0 then c == img else if done == 1 then Cleared(img, i, c) else c == RemoveImage(img, i)
  {
    var i := img.count - 1;
    var ss := RemoveStores(img, i);
    assert StoresOk(ss, cfg);
    RunTake(img, ss, 0, cfg);
    RunTake(img, ss, 1, cfg);
    assert RunStores(img, ss[..1], cfg).slots == img.slots[i := Slot(0, img.slots[i].raw)];
    assert img.slots[i := img.slots[i]] == img.slots;
  }

  lemma RemoveSwapStates(img: Image, i: nat, done: nat, junk: seq<byte>, cfg: Config)
    requires ImageOk(img, cfg) && i + 1 < img.count <= cfg.maxSpans && done <= 5
    ensures var ss := RemoveStores(img, i); var last := img.count - 1;
      && |ss| == 5 && StoresOk(ss, cfg)
      && var c := CrashStores(img, ss, done, junk, cfg);
         if done == 0 then c == img
         else if done <= 2 then Cleared(img, i, c)
         else if done == 3 then c == img.(slots := img.slots[i := img.slots[last]])
         else if done == 4 then c == RemoveImage(img, i).(count := img.count)
         else c == RemoveImage(img, i)
  {
    var ss := RemoveStores(img, i);
    assert StoresOk(ss, cfg);
    RunTake(img, ss, 0, cfg);
    RunTake(img, ss, 1, cfg);
    RunTake(img, ss, 2, cfg);
    RunTake(img, ss, 3, cfg);
    RunTake(img, ss, 4, cfg);
    var slots, last := img.slots, img.count - 1;
    assert RunStores(img, ss[..1], cfg).slots == slots[i := Slot(0, slots[i].raw)];
    assert RunStores(img, ss[..2], cfg).slots == slots[i := Slot(0, slots[last].raw)];
    assert RunStores(img, ss[..3], cfg).slots == slots[i := slots[last]];
    if done == 1 && |junk| == |slots[last].raw| {
      assert CrashStores(img, ss, done, junk, cfg).slots == slots[i := Slot(0, junk)];
    }
  }

  lemma ClearedScan(img: Image, i: nat, c: Image)
    requires i < img.count <= |img.slots| && img.slots[i].mark != 0 && Cleared(img, i, c)
    ensures |c.slots| == |img.slots|
    ensures multiset(Scan(c.slots, c.count)) + multiset{img.slots[i].raw} == multiset(Scan(img.slots, img.count))
  {
    hide Scan;
    var raw :| c.slots == img.slots[i := Slot(0, raw)];
    ScanUpdate(img.slots, img.count, i, Slot(0, raw));
  }

  /** With the moved span in both places the scan finds it twice, and nothing else changes. */
  lemma SwapScan(img: Image, i: nat)
    requires i + 1 < img.count <= |img.slots| && img.slots[i].mark != 0 && img.slots[img.count - 1].mark != 0
    ensures var last, n := img.count - 1, img.count; var r := RemoveImage(img, i);
      && multiset(Scan(r.slots, n)) + multiset{img.slots[i].raw} == multiset(Scan(img.slots, n))
      && multiset(Scan(img.slots[i := img.slots[last]], n)) == multiset(Scan(r.slots, n)) + multiset{img.slots[last].raw}
  {
    hide Scan;
    var last, n, slots := img.count - 1, img.count, img.slots;
    var moved := slots[i := slots[last]];
    ScanUpdate(slots, n, i, slots[last]);
    ScanUpdate(moved, n, last, moved[last].(mark := 0));
    var a, b, x, y := multiset(Scan(RemoveImage(img, i).slots, n)), multiset(Scan(slots, n)), slots[i].raw, slots[last].raw;
    assert a + multiset{y} == multiset(Scan(moved, n));
    assert a + multiset{x} + multiset{y} == a + multiset{y} + multiset{x} == b + multiset{y};
    Cancel(a + multiset{x}, b, y);
  }

  /** The count is only ever one more than the marked slots, never less. */
  lemma FinalScan(img: Image, i: nat)
    requires i < img.count <= |img.slots|
    ensures Scan(RemoveImage(img, i).slots, img.count) == Scan(RemoveImage(img, i).slots, img.count - 1)
  {
    assert RemoveImage(img, i).slots[img.count - 1].mark == 0;
  }

  /** The spans the scan finds once the span in slot `i` is gone. */
  function Rest(img: Image, i: nat): multiset<Raw>
    requires i < img.count <= |img.slots|
  {
    multiset(Scan(RemoveImage(img, i).slots, img.count))
  }

  lemma ClearedRest(img: Image, i: nat, c: Image)
    requires i < img.count <= |img.slots| && img.slots[i].mark != 0 && Cleared(img, i, c)
    requires Rest(img, i) + multiset{img.slots[i].raw} == multiset(Scan(img.slots, img.count))
    ensures c.count <= |c.slots| && multiset(Scan(c.slots, c.count)) == Rest(img, i)
  {
    hide Scan, Rest;
    ClearedScan(img, i, c);
    Cancel(multiset(Scan(c.slots, c.count)), Rest(img, i), img.slots[i].raw);
  }

  lemma RemoveLastScan(img: Image, done: nat, junk: seq<byte>, cfg: Config)
    requires ImageOk(img, cfg) && 0 < img.count <= cfg.maxSpans && img.slots[img.count - 1].mark != 0 && done <= 2
    requires StoresOk(RemoveStores(img, img.count - 1), cfg) && |RemoveStores(img, img.count - 1)| == 2
    ensures var c := CrashStores(img, RemoveStores(img, img.count - 1), done, junk, cfg);
      && c.count <= img.count
      && multiset(Scan(c.slots, c.count)) == if done == 0 then multiset(Scan(img.slots, img.count)) else Rest(img, img.count - 1)
  {
    hide Scan, RemoveStores, CrashStores, Cleared, RemoveImage;
    var i := img.count - 1;
    var c := CrashStores(img, RemoveStores(img, i), done, junk, cfg);
    RemoveLastStates(img, done, junk, cfg);
    LastScan(img);
    FinalScan(img, i);
    if done == 1 {
      ClearedRest(img, i, c);
      ClearedCount(img, i, c);
    }
  }

  lemma RemoveSwapScan(img: Image, i: nat, done: nat, junk: seq<byte>, cfg: Config)
    requires ImageOk(img, cfg) && i + 1 < img.count <= cfg.maxSpans && done <= 5
    requires img.slots[i].mark != 0 && img.slots[img.count - 1].mark != 0
    requires StoresOk(RemoveStores(img, i), cfg) && |RemoveStores(img, i)| == 5
    ensures var c := CrashStores(img, RemoveStores(img, i), done, junk, cfg);
      && c.count <= img.count
      && multiset(Scan(c.slots, c.count))
         == if done == 0 then multiset(Scan(img.slots, img.count))
            else if done == 3 then Rest(img, i) + multiset{img.slots[img.count - 1].raw}
            else Rest(img, i)
  {
    hide Scan, RemoveStores, CrashStores, Cleared, RemoveImage;
    var c := CrashStores(img, RemoveStores(img, i), done, junk, cfg);
    RemoveSwapStates(img, i, done, junk, cfg);
    SwapScan(img, i);
    FinalScan(img, i);
    if done == 1 || done == 2 {
      ClearedRest(img, i, c);
      ClearedCount(img, i, c);
    }
  }

  lemma ClearedCount(img: Image, i: nat, c: Image)
    requires i < |img.slots| && Cleared(img, i, c)
    ensures c.count == img.count
  {
  }

  lemma RestIsQueue(st: State, id: u64, cfg: Config)
    requires Inv(st, cfg) && id in st.index && st.index[id] < st.img.count <= |st.img.slots|
    ensures multiset(RemoveId(QueueOf(st), id)) == Rest(st.img, st.index[id])
    ensures multiset(QueueOf(st)) == multiset(Scan(st.img.slots, st.img.count))
  {
    hide Scan, Queue, RemoveId, RawOk, SpanId, RemoveImage, MarksOk, IndexOk, SpansOk;
    QueueOfState(st, cfg, id);
    RemoveKeepsInv(st, id, cfg);
    RemoveDeletes(st, id, cfg);
    QueueOfState(RemoveSpan(st, id), cfg, id);
    FinalScan(st.img, st.index[id]);
  }

  /** What the scan finds at every store of `remove`: all the survivors; beyond them the target
      before the first store, the moved span a second time after the third, or nothing. */
  lemma RemoveCrash(st: State, id: u64, done: nat, junk: seq<byte>, cfg: Config)
    requires Inv(st, cfg) && id in st.index && st.index[id] < st.img.count
    requires done <= |RemoveStores(st.img, st.index[id])|
    ensures StoresOk(RemoveStores(st.img, st.index[id]), cfg)
    ensures var c := CrashStores(st.img, RemoveStores(st.img, st.index[id]), done, junk, cfg);
      var q, after := QueueOf(st), RemoveId(QueueOf(st), id);
      && c.count <= st.img.count
      && multiset(Scan(c.slots, c.count))
         == if done == 0 then multiset(q)
            else if done == 3 then multiset(after + [st.img.slots[st.img.count - 1].raw])
            else multiset(after)
  {
    hide Scan, Queue, RemoveId, RawOk, SpanId, RemoveStores, CrashStores, RemoveImage, Rest, MarksOk, IndexOk, SpansOk;
    var img, i := st.img, st.index[id];
    var last := img.count - 1;
    RemoveStoresOk(st, i, cfg);
    AllMarked(st, cfg);
    RestIsQueue(st, id, cfg);
    MultisetOfConcat(RemoveId(QueueOf(st), id), [img.slots[last].raw]);
    if i == last {
      RemoveLastScan(img, done, junk, cfg);
    } else {
      RemoveSwapScan(img, i, done, junk, cfg);
    }
  }

  lemma RemoveStoresOk(st: State, i: nat, cfg: Config)
    requires Inv(st, cfg) && i < st.img.count
    ensures StoresOk(RemoveStores(st.img, i), cfg)
    ensures |RemoveStores(st.img, i)| == if i == st.img.count - 1 then 2 else 5
  {
    hide RawOk;
  }

  lemma Cancel(a: multiset<Raw>, b: multiset<Raw>, x: Raw)
    requires a + multiset{x} == b + multiset{x}
    ensures a == b
  {
    assert (a + multiset{x}) - multiset{x} == a;
    assert (b + multiset{x}) - multiset{x} == b;
  }

  lemma AllMarked(st: State, cfg: Config)
    requires Inv(st, cfg)
    ensures forall i :: 0 <= i < st.img.count ==> st.img.slots[i].mark != 0
  {
  }

  lemma LastScan(img: Image)
    requires 0 < img.count <= |img.slots| && img.slots[img.count - 1].mark != 0
    ensures var i := img.count - 1; var r := RemoveImage(img, i);
      multiset(Scan(r.slots, img.count)) + multiset{img.slots[i].raw} == multiset(Scan(img.slots, img.count))
  {
    hide Scan;
    var i := img.count - 1;
    assert img.slots[i := img.slots[i]] == img.slots;
    ScanUpdate(img.slots, img.count, i, img.slots[i].(mark := 0));
  }

  lemma MovedSurvives(st: State, id: u64, cfg: Config)
    requires Inv(st, cfg) && id in st.index && st.index[id] + 1 < st.img.count
    ensures var y := st.img.slots[st.img.count - 1].raw; y in RemoveId(QueueOf(st), id) && SpanId(y) == LastSlotId(st.img)
  {
    hide Queue, RemoveId, RawOk, Scan, SpanId, MarksOk, SpansOk, IndexOk, DistinctIds, HasId;
    AllMarked(st, cfg);
    IdOfSlot(st, cfg, id, st.img.count - 1);
    var y, last := st.img.slots[st.img.count - 1].raw, st.img.count - 1;
    QueueOfState(st, cfg, id);
    ScanAllMarked(st.img.slots, st.img.count);
    assert Scan(st.img.slots, st.img.count)[last] == y;
    assert y in multiset(QueueOf(st));
  }

  // ---- Editing ----

  /** What a crash can leave of a span that is being edited: it reads back as before, or it is
      the edited span, or one existing value is cut short. */
  ghost predicate Between(raw: Raw, e: Edit, r: Raw, maxAttributes: nat)
    requires RawOk(raw, maxAttributes) && maxAttributes < U64_MAX
  {
    && RawOk(r, maxAttributes) && SpanId(r) == SpanId(raw)
    && (|| FromRaw(r, maxAttributes) == FromRaw(raw, maxAttributes)
        || r == EditRaw(raw, e, maxAttributes)
        || (e.PutAttr? && CutShort(raw, e.key, e.value, r, maxAttributes)))
  }

  /** `r` is `raw` with the existing value of `key` read back as a prefix of the new one. */
  ghost predicate CutShort(raw: Raw, key: seq<byte>, value: seq<byte>, r: Raw, maxAttributes: nat)
    requires RawOk(raw, maxAttributes)
  {
    var j, t := SlotOfKey(raw, key, maxAttributes), Truncate(value, VALUE_SIZE);
    j < AttrCount(raw) && exists m :: 0 <= m <= |t| && DiffersInValue(raw, r, j, CString(t[..m]), maxAttributes)
  }

  lemma EditEffect(raw: Raw, e: Edit, maxAttributes: nat)
    requires RawOk(raw, maxAttributes) && maxAttributes < U64_MAX
    ensures AllFit(EditPuts(raw, e, maxAttributes), |raw|)
    ensures RunPuts(raw, EditPuts(raw, e, maxAttributes)) == EditRaw(raw, e, maxAttributes)
  {
    hide RawOk, Word, EncodeWord, SetAttr, SetAttrPuts;
    assert |raw| >= ATTRS by { OkSize(raw, maxAttributes); }
    match e
    case EndAt(t) => assert [WordPut(END, t)][..0] == [];
    case PutAttr(key, value) => SetAttrEffect(raw, key, value, maxAttributes);
  }

  lemma TakeFits(ps: seq<Put>, k: nat, size: nat)
    requires k <= |ps| && AllFit(ps, size)
    ensures AllFit(ps[..k], size)
  {
  }

  lemma OverwriteBetween(raw: Raw, key: seq<byte>, value: seq<byte>, k: nat, maxAttributes: nat)
    requires RawOk(raw, maxAttributes) && maxAttributes < U64_MAX
    requires SlotOfKey(raw, key, maxAttributes) < AttrCount(raw)
    requires 0 < k <= |SetAttrPuts(raw, key, value, maxAttributes)|
    ensures AllFit(SetAttrPuts(raw, key, value, maxAttributes)[..k], |raw|)
    ensures Between(raw, PutAttr(key, value), RunPuts(raw, SetAttrPuts(raw, key, value, maxAttributes)[..k]), maxAttributes)
  {
    hide RawOk, Word, RunPuts, SetAttrPuts, EditRaw, CString, AttrsUpTo, FindFrom;
    OkSize(raw, maxAttributes);
    var j, t := SlotOfKey(raw, key, maxAttributes), Truncate(value, VALUE_SIZE);
    OverwriteCrash(raw, key, value, maxAttributes, k);
    var r := RunPuts(raw, SetAttrPuts(raw, key, value, maxAttributes)[..k]);
    OkSize(r, maxAttributes);
    SameHeadFields(raw, r);
    var m := if k <= VALUE_SIZE then 0 else k - VALUE_SIZE;
    assert t[..0] == [];
    EmptyCString();
    assert ValueAfter(raw, j, t, k) == CString(t[..m]);
  }

  lemma EmptyCString()
    ensures CString([]) == []
  {
  }

  lemma AppendBetween(raw: Raw, key: seq<byte>, value: seq<byte>, k: nat, maxAttributes: nat)
    requires RawOk(raw, maxAttributes) && AttrCount(raw) < maxAttributes < U64_MAX
    requires SlotOfKey(raw, key, maxAttributes) == AttrCount(raw)
    requires k < |SetAttrPuts(raw, key, value, maxAttributes)|
    ensures AllFit(SetAttrPuts(raw, key, value, maxAttributes)[..k], |raw|)
    ensures Between(raw, PutAttr(key, value), RunPuts(raw, SetAttrPuts(raw, key, value, maxAttributes)[..k]), maxAttributes)
  {
    hide RawOk, RunPuts, EditRaw, FindFrom, AppendPuts, SameUsed, FromRaw, Word;
    OkSize(raw, maxAttributes);
    var ps := AppendPuts(key, value, AttrCount(raw));
    assert SetAttrPuts(raw, key, value, maxAttributes)[..k] == ps[..k];
    AppendCrash(raw, key, value, maxAttributes, k);
    SameUsedReadsSame(raw, RunPuts(raw, ps[..k]), maxAttributes);
  }

  /** Every prefix of the stores of an edit leaves a span between the old and the new. */
  lemma EditCrash(raw: Raw, e: Edit, k: nat, maxAttributes: nat)
    requires RawOk(raw, maxAttributes) && maxAttributes < U64_MAX && k <= |EditPuts(raw, e, maxAttributes)|
    ensures AllFit(EditPuts(raw, e, maxAttributes)[..k], |raw|)
    ensures Between(raw, e, RunPuts(raw, EditPuts(raw, e, maxAttributes)[..k]), maxAttributes)
  {
    hide RawOk, EditRaw, FromRaw, CutShort, SetAttr, SpanId, SlotOfKey;
    var ps := EditPuts(raw, e, maxAttributes);
    EditEffect(raw, e, maxAttributes);
    EditKeepsOk(raw, e, maxAttributes);
    TakeFits(ps, k, |raw|);
    if k == |ps| {
      assert ps[..k] == ps;
    } else if k == 0 {
      assert ps[..k] == [];
    } else if e.PutAttr? {
      if SlotOfKey(raw, e.key, maxAttributes) < AttrCount(raw) {
        OverwriteBetween(raw, e.key, e.value, k, maxAttributes);
      } else {
        AppendBetween(raw, e.key, e.value, k, maxAttributes);
      }
    }
  }

  lemma {:induction false} FieldRun(img: Image, i: nat, ps: seq<Put>, cfg: Config)
    requires ImageOk(img, cfg) && i < cfg.maxSpans && AllFit(ps, RawSize(cfg.maxAttributes))
    ensures StoresOk(FieldStores(i, ps), cfg)
    ensures RunStores(img, FieldStores(i, ps), cfg) == EditImage(img, i, RunPuts(img.slots[i].raw, ps))
  {
    hide Splice;
    if ps == [] {
      assert img.slots[i := img.slots[i]] == img.slots;
    } else {
      var front, n := ps[..|ps| - 1], |ps| - 1;
      FieldRun(img, i, front, cfg);
      assert FieldStores(i, ps)[..n] == FieldStores(i, front);
      assert EditImage(img, i, RunPuts(img.slots[i].raw, front)).slots[i := img.slots[i].(raw := RunPuts(img.slots[i].raw, ps))]
          == EditImage(img, i, RunPuts(img.slots[i].raw, ps)).slots;
    }
  }

  lemma ChangeStates(img: Image, i: nat, ps: seq<Put>, done: nat, junk: seq<byte>, cfg: Config)
    requires ImageOk(img, cfg) && i < cfg.maxSpans && AllFit(ps, RawSize(cfg.maxAttributes)) && done <= |ps|
    ensures StoresOk(FieldStores(i, ps), cfg) && AllFit(ps[..done], RawSize(cfg.maxAttributes))
    ensures CrashStores(img, FieldStores(i, ps), done, junk, cfg) == EditImage(img, i, RunPuts(img.slots[i].raw, ps[..done]))
  {
    hide RunStores, RunPuts, Apply, EditImage;
    FieldRun(img, i, ps, cfg);
    FieldRun(img, i, ps[..done], cfg);
    assert FieldStores(i, ps)[..done] == FieldStores(i, ps[..done]);
  }

  // ---- All calls ----

  /** The stores of a call are in range, and made in full they are the step of the store. */
  lemma OpStoresRun(st: State, op: Op, cfg: Config)
    requires Inv(st, cfg) && CanStep(st, op)
    ensures StoresOk(OpStores(st, op, cfg), cfg)
    ensures RunStores(st.img, OpStores(st, op, cfg), cfg) == Next(st, op, cfg).img
  {
    hide RawOk, SpanId, Inv, RemoveStores, AddStores, RemoveImage, AddImage, EditImage, OldestScan, EditPuts, EditRaw, ToRaw, MakeRoomStores, MakeRoom, Apply;
    CountBound(st, cfg);
    InvImageOk(st, cfg);
    match op
    case Add(span) =>
      if span.id !in st.index {
        RoomStoresRun(st, cfg);
        RoomIsMade(st, cfg);
        ToRawHasId(span, cfg.maxAttributes);
        var room := MakeRoom(st, cfg);
        InvImageOk(room, cfg);
        var adds := AddStores(room.img, room.marks + 1, ToRaw(span, cfg.maxAttributes));
        AddStoresRun(room.img, room.marks + 1, ToRaw(span, cfg.maxAttributes), cfg);
        RunStoresConcat(st.img, MakeRoomStores(st, cfg), adds, cfg);
      }
    case Remove(id) =>
      if id in st.index {
        IndexInRange(st, cfg, id);
        RemoveStoresRun(st, st.index[id], cfg);
      }
    case Change(id, e) =>
      if id in st.index {
        IndexInRange(st, cfg, id);
        LiveOk(st, cfg, st.index[id]);
        EditEffect(st.img.slots[st.index[id]].raw, e, cfg.maxAttributes);
        FieldRun(st.img, st.index[id], EditPuts(st.img.slots[st.index[id]].raw, e, cfg.maxAttributes), cfg);
      }
  }

  lemma InvImageOk(st: State, cfg: Config)
    requires Inv(st, cfg)
    ensures ImageOk(st.img, cfg)
  {
  }

  lemma LiveOk(st: State, cfg: Config, i: nat)
    requires Inv(st, cfg) && i < st.img.count
    ensures RawOk(st.img.slots[i].raw, cfg.maxAttributes) && |st.img.slots[i].raw| == RawSize(cfg.maxAttributes)
  {
  }

  lemma AddStoresRun(img: Image, mark: u64, raw: Raw, cfg: Config)
    requires ImageOk(img, cfg) && img.count < cfg.maxSpans < U64_MAX && |raw| == RawSize(cfg.maxAttributes)
    ensures StoresOk(AddStores(img, mark, raw), cfg) && |AddStores(img, mark, raw)| == 4
    ensures RunStores(img, AddStores(img, mark, raw), cfg) == AddImage(img, mark, raw)
  {
    hide RunStores;
    var ss := AddStores(img, mark, raw);
    AddStates(img, mark, raw, 4, [], cfg);
    assert ss[..4] == ss;
  }

  lemma RemoveStoresRun(st: State, i: nat, cfg: Config)
    requires Inv(st, cfg) && i < st.img.count
    ensures StoresOk(RemoveStores(st.img, i), cfg)
    ensures RunStores(st.img, RemoveStores(st.img, i), cfg) == RemoveImage(st.img, i)
  {
    hide RunStores, RemoveImage, RemoveStores, RawOk, MarksOk, IndexOk, SpansOk;
    RemoveRun(st.img, i, cfg);
  }

  lemma RemoveRun(img: Image, i: nat, cfg: Config)
    requires ImageOk(img, cfg) && i < img.count <= cfg.maxSpans
    ensures StoresOk(RemoveStores(img, i), cfg)
    ensures RunStores(img, RemoveStores(img, i), cfg) == RemoveImage(img, i)
  {
    hide RunStores, RemoveImage, RemoveStores;
    var ss := RemoveStores(img, i);
    if i == img.count - 1 { RemoveLastStates(img, 2, [], cfg); } else { RemoveSwapStates(img, i, 5, [], cfg); }
    assert ss[..|ss|] == ss;
  }

  lemma RoomStoresRun(st: State, cfg: Config)
    requires Inv(st, cfg)
    ensures StoresOk(MakeRoomStores(st, cfg), cfg) && ImageOk(st.img, cfg)
    ensures RunStores(st.img, MakeRoomStores(st, cfg), cfg) == MakeRoom(st, cfg).img
  {
    hide RawOk, RemoveStores, RemoveImage, OldestScan, MarksOk, SpansOk;
    var oldest := OldestScan(st.img.slots, st.img.count).1;
    if oldest in st.index {
      IndexInRange(st, cfg, oldest);
      RemoveStoresRun(st, st.index[oldest], cfg);
    }
  }

  // ---- The crash theorem ----

  /** The queues a crash in the call `op` on the queue `q` can leave: as before or after the
      call; with the oldest span gone for a full `Add`; with the span that is moved, and no other,
      found twice while one is taken out; with the edited span between old and new. `moved` is
      the id of the span in the last live slot. */
  ghost predicate CrashQueue(q: seq<Raw>, moved: u64, op: Op, x: seq<Raw>, cfg: Config)
    requires cfg.Valid()
  {
    || x == q
    || x == QueueStep(q, op, cfg)
    || (match op
        case Add(span) => !HasId(q, span.id) && |q| == cfg.maxSpans && WithDuplicate(q[1..], moved, x)
        case Remove(id) => HasId(q, id) && WithDuplicate(RemoveId(q, id), moved, x)
        case Change(id, e) => WithOneBetween(q, id, e, x, cfg))
  }

  ghost predicate WithOneBetween(q: seq<Raw>, id: u64, e: Edit, x: seq<Raw>, cfg: Config)
    requires cfg.Valid()
  {
    exists k: nat, r ::
      && k < |q| && SpanId(q[k]) == id && x == q[k := r]
      && RawOk(q[k], cfg.maxAttributes) && Between(q[k], e, r, cfg.maxAttributes)
  }

  /** The queue `q`, and perhaps the span with the id `moved` once more. */
  predicate WithDuplicate(q: seq<Raw>, moved: u64, x: seq<Raw>) {
    x == q || exists k :: 0 <= k < |q| && SpanId(q[k]) == moved && x == q + [q[k]]
  }

  /** The image holds in its marked slots exactly the spans of a queue the crash can leave. */
  ghost predicate Leaves(st: State, op: Op, c: Image, cfg: Config)
    requires Inv(st, cfg)
  {
    && c.count <= |c.slots|
    && exists x :: CrashQueue(QueueOf(st), LastSlotId(st.img), op, x, cfg) && multiset(Scan(c.slots, c.count)) == multiset(x)
  }

  lemma RemoveLeaves(st: State, id: u64, done: nat, junk: seq<byte>, cfg: Config) returns (x: seq<Raw>)
    requires Inv(st, cfg) && id in st.index && st.index[id] < st.img.count
    requires done <= |RemoveStores(st.img, st.index[id])|
    ensures StoresOk(RemoveStores(st.img, st.index[id]), cfg)
    ensures var c := CrashStores(st.img, RemoveStores(st.img, st.index[id]), done, junk, cfg);
      && c.count <= |c.slots| && multiset(Scan(c.slots, c.count)) == multiset(x)
      && (x == QueueOf(st) || WithDuplicate(RemoveId(QueueOf(st), id), LastSlotId(st.img), x))
  {
    hide RawOk, SpanId, Inv, RemoveStores, CrashStores, Scan, Queue, RemoveId, RemoveImage;
    CountBound(st, cfg);
    InvImageOk(st, cfg);
    RemoveCrash(st, id, done, junk, cfg);
    var q, after := QueueOf(st), RemoveId(QueueOf(st), id);
    RemoveStoresOk(st, st.index[id], cfg);
    if done == 0 {
      x := q;
    } else if done == 3 {
      MovedSurvives(st, id, cfg);
      var y := st.img.slots[st.img.count - 1].raw;
      x := after + [y];
      var k :| 0 <= k < |after| && after[k] == y;
    } else {
      x := after;
    }
  }

  lemma ChangeLeaves(st: State, id: u64, e: Edit, done: nat, junk: seq<byte>, cfg: Config)
    requires Inv(st, cfg) && CanStep(st, Change(id, e)) && id in st.index && done <= |OpStores(st, Change(id, e), cfg)|
    requires StoresOk(OpStores(st, Change(id, e), cfg), cfg)
    ensures Leaves(st, Change(id, e), CrashStores(st.img, OpStores(st, Change(id, e), cfg), done, junk, cfg), cfg)
  {
    hide RawOk, Between, CrashStores, Scan, Queue, EditPuts, UpdateId, MarksOk, SpansOk, RunPuts;
    IndexInRange(st, cfg, id);
    var i := st.index[id];
    LiveOk(st, cfg, i);
    var raw := st.img.slots[i].raw;
    var ps := EditPuts(raw, e, cfg.maxAttributes);
    EditEffect(raw, e, cfg.maxAttributes);
    ChangeStates(st.img, i, ps, done, junk, cfg);
    EditCrash(raw, e, done, cfg.maxAttributes);
    var r := RunPuts(raw, ps[..done]);
    var c := EditImage(st.img, i, r);
    var k := EditedScan(st, id, r, cfg);
    assert CrashQueue(QueueOf(st), LastSlotId(st.img), Change(id, e), QueueOf(st)[k := r], cfg);
  }

  lemma EditedScan(st: State, id: u64, r: Raw, cfg: Config) returns (k: nat)
    requires Inv(st, cfg) && id in st.index && st.index[id] < st.img.count
    ensures var i, q := st.index[id], QueueOf(st);
      && k < |q| && q[k] == st.img.slots[i].raw && SpanId(q[k]) == id
      && multiset(Scan(EditImage(st.img, i, r).slots, st.img.count)) == multiset(q[k := r])
  {
    hide RawOk, Scan, Queue;
    var i, q, n := st.index[id], QueueOf(st), st.img.count;
    QueueOfState(st, cfg, id);
    ScanAllMarked(st.img.slots, n);
    assert Scan(st.img.slots, n)[i] in multiset(q);
    k :| 0 <= k < |q| && q[k] == st.img.slots[i].raw;
    ScanUpdate(st.img.slots, n, i, st.img.slots[i].(raw := r));
    var after := multiset(Scan(EditImage(st.img, i, r).slots, n));
    assert after + multiset{q[k]} == multiset(q) + multiset{r} == multiset(q[k := r]) + multiset{q[k]};
    Cancel(after, multiset(q[k := r]), q[k]);
  }

  /** A crash while a full store drops its oldest span to make room. */
  lemma MakingRoomLeaves(st: State, span: Span, done: nat, junk: seq<byte>, cfg: Config)
    requires Inv(st, cfg) && span.id !in st.index && done < |MakeRoomStores(st, cfg)|
    requires StoresOk(MakeRoomStores(st, cfg), cfg) && ImageOk(st.img, cfg)
    ensures Leaves(st, Add(span), CrashStores(st.img, MakeRoomStores(st, cfg), done, junk, cfg), cfg)
  {
    hide RawOk, SpanId, Inv, RemoveStores, OldestScan, Scan, Queue, RemoveId, CrashStores;
    QueueOfState(st, cfg, span.id);
    CountBound(st, cfg);
    var oldest := OldestScan(st.img.slots, st.img.count).1;
    IndexInRange(st, cfg, oldest);
    var x := RemoveLeaves(st, oldest, done, junk, cfg);
    EvictsHead(st, cfg);
    assert CrashQueue(QueueOf(st), LastSlotId(st.img), Add(span), x, cfg);
  }

  /** A crash after room was made, before the count of the new span is stored. */
  lemma AddingLeaves(st: State, room: State, span: Span, mark: u64, raw: Raw, done: nat, junk: seq<byte>, cfg: Config)
    requires Inv(st, cfg) && span.id !in st.index && Inv(room, cfg) && room == MakeRoom(st, cfg)
    requires ImageOk(room.img, cfg) && room.img.count < cfg.maxSpans && |raw| == RawSize(cfg.maxAttributes) && done < 4
    ensures StoresOk(AddStores(room.img, mark, raw), cfg)
    ensures Leaves(st, Add(span), CrashStores(room.img, AddStores(room.img, mark, raw), done, junk, cfg), cfg)
  {
    hide RawOk, SpanId, Inv, AddStores, Scan, Queue, CrashStores, MakeRoom;
    QueueOfState(st, cfg, span.id);
    CountBound(st, cfg);
    RoomIsMade(st, cfg);
    CountBound(room, cfg);
    QueueOfState(room, cfg, span.id);
    AddCrash(room.img, mark, raw, done, junk, cfg);
    assert CrashQueue(QueueOf(st), LastSlotId(st.img), Add(span), QueueOf(room), cfg);
  }

  /** All the stores of an `add` leave what the call leads to. */
  lemma AddedLeaves(st: State, span: Span, cfg: Config)
    requires Inv(st, cfg) && CanStep(st, Add(span))
    ensures Leaves(st, Add(span), Next(st, Add(span), cfg).img, cfg)
  {
    hide RawOk, SpanId, Inv, Scan, Queue, Next, QueueStep;
    StepRefinesQueue(st, Add(span), cfg);
    CountBound(st, cfg);
    var next := Next(st, Add(span), cfg);
    QueueOfState(next, cfg, span.id);
    CountBound(next, cfg);
    assert CrashQueue(QueueOf(st), LastSlotId(st.img), Add(span), QueueOf(next), cfg);
  }

  /** A new span: its stores come after those that make room, and lead to the next image. */
  lemma AddInFull(st: State, span: Span, cfg: Config)
    requires Inv(st, cfg) && CanStep(st, Add(span)) && span.id !in st.index
    ensures var room, raw := MakeRoom(st, cfg), ToRaw(span, cfg.maxAttributes);
      && Inv(room, cfg) && ImageOk(room.img, cfg) && room.img.count < cfg.maxSpans == |room.img.slots| && room.marks + 1 < U64_MAX
      && OpStores(st, Add(span), cfg) == MakeRoomStores(st, cfg) + AddStores(room.img, room.marks + 1, raw)
      && Next(st, Add(span), cfg) == AddSpan(room, raw)
  {
    hide RawOk, SpanId, Inv, AddStores, AddImage, ToRaw, MakeRoomStores, MakeRoom;
    CountBound(st, cfg);
    RoomIsMade(st, cfg);
    InvImageOk(MakeRoom(st, cfg), cfg);
    CountBound(MakeRoom(st, cfg), cfg);
  }

  lemma AddOfLive(st: State, span: Span, cfg: Config)
    requires Inv(st, cfg) && CanStep(st, Add(span)) && span.id in st.index
    ensures OpStores(st, Add(span), cfg) == [] && Next(st, Add(span), cfg) == st
  {
    hide RawOk, SpanId, Inv, AddStores, AddImage, ToRaw, MakeRoomStores, MakeRoom;
  }

  lemma AddLeaves(st: State, span: Span, done: nat, junk: seq<byte>, cfg: Config)
    requires Inv(st, cfg) && CanStep(st, Add(span)) && span.id !in st.index && done <= |OpStores(st, Add(span), cfg)|
    requires StoresOk(OpStores(st, Add(span), cfg), cfg)
    ensures Leaves(st, Add(span), CrashStores(st.img, OpStores(st, Add(span), cfg), done, junk, cfg), cfg)
  {
    hide RawOk, SpanId, Inv, AddStores, ToRaw, CrashStores, RunStores, MakeRoomStores, MakeRoom, Leaves, OpStores, Next, ImageOk, StoresOk;
    CountBound(st, cfg);
    InvImageOk(st, cfg);
    RoomStoresRun(st, cfg);
    AddInFull(st, span, cfg);
    ToRawHasId(span, cfg.maxAttributes);
    var room, raw := MakeRoom(st, cfg), ToRaw(span, cfg.maxAttributes);
    OkSize(raw, cfg.maxAttributes);
    var drops, adds := MakeRoomStores(st, cfg), AddStores(room.img, room.marks + 1, raw);
    AddStoresRun(room.img, room.marks + 1, raw, cfg);
    CrashConcat(st.img, drops, adds, done, junk, cfg);
    if done < |drops| {
      MakingRoomLeaves(st, span, done, junk, cfg);
    } else if done < |drops| + 4 {
      AddingLeaves(st, room, span, room.marks + 1, raw, done - |drops|, junk, cfg);
    } else {
      AddStates(room.img, room.marks + 1, raw, 4, junk, cfg);
      AddedLeaves(st, span, cfg);
    }
  }

  // ---- No torn slot is ever marked ----

  /** Every marked slot is live and holds a whole span, fit to recover. */
  predicate MarkedWhole(c: Image, maxAttributes: nat) {
    forall j :: 0 <= j < |c.slots| && c.slots[j].mark != 0 ==> j < c.count && RawOk(c.slots[j].raw, maxAttributes)
  }

  /** The same but for the slot of a span that is being added, which is marked before it is
      counted. */
  predicate MarkedWholeBut(c: Image, n: nat, s: Slot, maxAttributes: nat) {
    forall j :: 0 <= j < |c.slots| && c.slots[j].mark != 0 ==>
      RawOk(c.slots[j].raw, maxAttributes) && (j < c.count || (j == n == c.count && c.slots[j] == s))
  }

  lemma WholeIsWholeBut(c: Image, n: nat, s: Slot, maxAttributes: nat)
    requires MarkedWhole(c, maxAttributes)
    ensures MarkedWholeBut(c, n, s, maxAttributes)
  {
  }

  lemma InvMarkedWhole(st: State, cfg: Config)
    requires Inv(st, cfg)
    ensures MarkedWhole(st.img, cfg.maxAttributes)
  {
    hide RawOk, SpanId;
  }

  lemma ClearedWhole(img: Image, i: nat, c: Image, maxAttributes: nat)
    requires i < |img.slots| && MarkedWhole(img, maxAttributes) && Cleared(img, i, c)
    ensures MarkedWhole(c, maxAttributes)
  {
    hide RawOk;
  }

  lemma RemoveWhole(img: Image, i: nat, done: nat, junk: seq<byte>, cfg: Config)
    requires ImageOk(img, cfg) && i < img.count <= cfg.maxSpans && MarkedWhole(img, cfg.maxAttributes)
    requires img.slots[img.count - 1].mark != 0 && done <= |RemoveStores(img, i)|
    ensures StoresOk(RemoveStores(img, i), cfg)
    ensures MarkedWhole(CrashStores(img, RemoveStores(img, i), done, junk, cfg), cfg.maxAttributes)
  {
    hide RawOk, CrashStores, Cleared;
    RemoveRun(img, i, cfg);
    var c := CrashStores(img, RemoveStores(img, i), done, junk, cfg);
    if i == img.count - 1 {
      RemoveLastStates(img, done, junk, cfg);
    } else {
      RemoveSwapStates(img, i, done, junk, cfg);
    }
    if Cleared(img, i, c) { ClearedWhole(img, i, c, cfg.maxAttributes); }
  }

  lemma AddWhole(img: Image, mark: u64, raw: Raw, done: nat, junk: seq<byte>, cfg: Config)
    requires ImageOk(img, cfg) && img.count < cfg.maxSpans < U64_MAX && RawOk(raw, cfg.maxAttributes) && done <= 4
    requires MarkedWhole(img, cfg.maxAttributes)
    ensures |raw| == RawSize(cfg.maxAttributes) && StoresOk(AddStores(img, mark, raw), cfg)
    ensures MarkedWholeBut(CrashStores(img, AddStores(img, mark, raw), done, junk, cfg), img.count, Slot(mark, raw), cfg.maxAttributes)
  {
    hide CrashStores, AddStores, RawOk;
    OkSize(raw, cfg.maxAttributes);
    AddStates(img, mark, raw, done, junk, cfg);
  }

  lemma ChangeWhole(img: Image, i: nat, e: Edit, done: nat, junk: seq<byte>, cfg: Config)
    requires ImageOk(img, cfg) && cfg.Valid() && i < img.count <= cfg.maxSpans && MarkedWhole(img, cfg.maxAttributes)
    requires RawOk(img.slots[i].raw, cfg.maxAttributes) && done <= |EditPuts(img.slots[i].raw, e, cfg.maxAttributes)|
    ensures StoresOk(FieldStores(i, EditPuts(img.slots[i].raw, e, cfg.maxAttributes)), cfg)
    ensures MarkedWhole(
      CrashStores(img, FieldStores(i, EditPuts(img.slots[i].raw, e, cfg.maxAttributes)), done, junk, cfg), cfg.maxAttributes)
  {
    hide RawOk, CrashStores, EditPuts, RunPuts, FromRaw, CutShort, EditRaw, SpanId, AllFit;
    var ps := EditPuts(img.slots[i].raw, e, cfg.maxAttributes);
    EditEffect(img.slots[i].raw, e, cfg.maxAttributes);
    ChangeStates(img, i, ps, done, junk, cfg);
    EditCrash(img.slots[i].raw, e, done, cfg.maxAttributes);
  }

  lemma RoomWhole(st: State, done: nat, junk: seq<byte>, cfg: Config)
    requires Inv(st, cfg) && done <= |MakeRoomStores(st, cfg)|
    ensures ImageOk(st.img, cfg) && StoresOk(MakeRoomStores(st, cfg), cfg)
    ensures MarkedWhole(CrashStores(st.img, MakeRoomStores(st, cfg), done, junk, cfg), cfg.maxAttributes)
  {
    hide RawOk, SpanId, CrashStores, RemoveStores, OldestScan, MarkedWhole, MarksOk, SpansOk;
    InvMarkedWhole(st, cfg);
    CountBound(st, cfg);
    RoomStoresRun(st, cfg);
    var oldest := OldestScan(st.img.slots, st.img.count).1;
    if st.img.count == cfg.maxSpans && oldest != 0 && oldest in st.index {
      AllMarked(st, cfg);
      RemoveWhole(st.img, st.index[oldest], done, junk, cfg);
    } else {
      NothingStored(st, done, junk, cfg);
    }
  }

  lemma AddCallWhole(st: State, span: Span, done: nat, junk: seq<byte>, cfg: Config)
    requires Inv(st, cfg) && CanStep(st, Add(span)) && span.id !in st.index && done <= |OpStores(st, Add(span), cfg)|
    requires ImageOk(st.img, cfg) && StoresOk(OpStores(st, Add(span), cfg), cfg)
    ensures var c, room := CrashStores(st.img, OpStores(st, Add(span), cfg), done, junk, cfg), MakeRoom(st, cfg);
      MarkedWholeBut(c, room.img.count, Slot(st.marks + 1, ToRaw(span, cfg.maxAttributes)), cfg.maxAttributes)
  {
    hide RawOk, SpanId, Inv, AddStores, AddImage, ToRaw, CrashStores, RunStores, MakeRoomStores, MakeRoom, OpStores, Next, ImageOk, StoresOk, MarkedWhole, MarkedWholeBut;
    CountBound(st, cfg);
    RoomStoresRun(st, cfg);
    RoomIsMade(st, cfg);
    AddInFull(st, span, cfg);
    ToRawHasId(span, cfg.maxAttributes);
    var room, raw := MakeRoom(st, cfg), ToRaw(span, cfg.maxAttributes);
    InvMarkedWhole(room, cfg);
    CountBound(room, cfg);
    OkSize(raw, cfg.maxAttributes);
    var drops, adds := MakeRoomStores(st, cfg), AddStores(room.img, room.marks + 1, raw);
    AddStoresRun(room.img, room.marks + 1, raw, cfg);
    CrashConcat(st.img, drops, adds, done, junk, cfg);
    if done < |drops| {
      RoomWhole(st, done, junk, cfg);
      WholeIsWholeBut(CrashStores(st.img, drops, done, junk, cfg), room.img.count, Slot(st.marks + 1, raw), cfg.maxAttributes);
    } else {
      AddWhole(room.img, room.marks + 1, raw, done - |drops|, junk, cfg);
    }
  }

  ghost predicate NoTornSlot(st: State, op: Op, c: Image, cfg: Config)
    requires Inv(st, cfg)
  {
    if op.Add?
    then MarkedWholeBut(c, MakeRoom(st, cfg).img.count, Slot(st.marks + 1, ToRaw(op.span, cfg.maxAttributes)), cfg.maxAttributes)
    else MarkedWhole(c, cfg.maxAttributes)
  }

  /** At every store of every call, torn or not: each marked slot is live and holds a whole span,
      but for that of a span that is being added, which is marked, whole, before it is counted. */
  lemma NoTornSlotIsMarked(st: State, op: Op, done: nat, junk: seq<byte>, cfg: Config)
    requires Inv(st, cfg) && CanStep(st, op) && done <= |OpStores(st, op, cfg)|
    ensures ImageOk(st.img, cfg) && StoresOk(OpStores(st, op, cfg), cfg)
    ensures NoTornSlot(st, op, CrashStores(st.img, OpStores(st, op, cfg), done, junk, cfg), cfg)
  {
    hide RawOk, SpanId, Inv, RemoveStores, AddStores, CrashStores, RunStores, MakeRoom, MakeRoomStores, FieldStores, EditPuts, ToRaw, MarkedWhole, MarkedWholeBut;
    CountBound(st, cfg);
    InvImageOk(st, cfg);
    InvMarkedWhole(st, cfg);
    OpStoresRun(st, op, cfg);
    if op.Add? && op.span.id !in st.index {
      AddCallWhole(st, op.span, done, junk, cfg);
    } else if op.Remove? && op.id in st.index {
      IndexInRange(st, cfg, op.id);
      AllMarked(st, cfg);
      RemoveWhole(st.img, st.index[op.id], done, junk, cfg);
    } else if op.Change? && op.id in st.index {
      IndexInRange(st, cfg, op.id);
      LiveOk(st, cfg, st.index[op.id]);
      ChangeWhole(st.img, st.index[op.id], op.edit, done, junk, cfg);
    } else {
      NothingStored(st, done, junk, cfg);
      if op.Add? {
        RoomIsMade(st, cfg);
        WholeIsWholeBut(st.img, MakeRoom(st, cfg).img.count, Slot(st.marks + 1, ToRaw(op.span, cfg.maxAttributes)), cfg.maxAttributes);
      }
    }
  }

  /** A crash anywhere in any call leaves, in the slots recovery scans, the spans from before
      the call, from after it, or one of the few mixtures `CrashQueue` names. */
  lemma CrashInCall(st: State, op: Op, done: nat, junk: seq<byte>, cfg: Config)
    requires Inv(st, cfg) && CanStep(st, op) && done <= |OpStores(st, op, cfg)|
    ensures StoresOk(OpStores(st, op, cfg), cfg)
    ensures Leaves(st, op, CrashStores(st.img, OpStores(st, op, cfg), done, junk, cfg), cfg)
    ensures NoTornSlot(st, op, CrashStores(st.img, OpStores(st, op, cfg), done, junk, cfg), cfg)
  {
    hide RawOk, SpanId, Inv, RemoveStores, AddStores, Scan, Queue, RemoveId, UpdateId, RunStores, MakeRoom, MakeRoomStores, FieldStores, EditPuts, NoTornSlot, CrashStores;
    NoTornSlotIsMarked(st, op, done, junk, cfg);
    CountBound(st, cfg);
    InvImageOk(st, cfg);
    OpStoresRun(st, op, cfg);
    if op.Add? && op.span.id !in st.index {
      AddLeaves(st, op.span, done, junk, cfg);
    } else if op.Remove? && op.id in st.index {
      IndexInRange(st, cfg, op.id);
      var x := RemoveLeaves(st, op.id, done, junk, cfg);
      QueueOfState(st, cfg, op.id);
      assert CrashQueue(QueueOf(st), LastSlotId(st.img), op, x, cfg);
    } else if op.Change? && op.id in st.index {
      ChangeLeaves(st, op.id, op.edit, done, junk, cfg);
    } else {
      NothingStored(st, done, junk, cfg);
      QueueOfState(st, cfg, 0);
      assert CrashQueue(QueueOf(st), LastSlotId(st.img), op, QueueOf(st), cfg);
    }
  }

  lemma NothingStored(st: State, done: nat, junk: seq<byte>, cfg: Config)
    requires ImageOk(st.img, cfg) && done == 0
    ensures CrashStores(st.img, [], done, junk, cfg) == st.img
  {
  }
}
