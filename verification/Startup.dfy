/** Start-up and recovery: what is read from the file that is found, how the file is made ready,
    and what a crash on the way leaves for the next start-up. */
module Startup {
  import opened Bytes
  import opened MemoryModel
  import opened Codec
  import opened Layout
  import opened SlotQueue
  import opened SpanStore
  import opened RawSpanStore

  // ---- Sizes ----

  /** The layout size rounded up to whole pages. */
  function AlignedSize(layout: nat, page: nat): nat
    requires page > 0
  {
    ((layout + page - 1) / page) * page
  }

  lemma CeilDiv(x: nat, p: nat)
    requires p > 0
    ensures x <= ((x + p - 1) / p) * p < x + p
    ensures forall q: nat :: q * p >= x ==> q >= (x + p - 1) / p
  {
    var d := (x + p - 1) / p;
    assert d * p <= x + p - 1 < d * p + p;
    forall q: nat | q * p >= x ensures q >= d {
      if q < d { MulStep(q, d, p); }
    }
  }

  /** It is the least whole number of pages that holds the layout. */
  lemma AlignedSizeIsLeast(layout: nat, page: nat)
    requires page > 0
    ensures layout <= AlignedSize(layout, page) < layout + page
    ensures exists q: nat :: AlignedSize(layout, page) == q * page
    ensures forall q: nat :: layout <= q * page ==> AlignedSize(layout, page) <= q * page
  {
    CeilDiv(layout, page);
    var d := (layout + page - 1) / page;
    assert AlignedSize(layout, page) == d * page;
    forall q: nat | layout <= q * page ensures d * page <= q * page {
      assert (q - d) * page >= 0;
    }
  }

  function RequiredSize(target: MmapSize, page: nat): nat
    requires page > 0
  {
    AlignedSize(LayoutSize(ConfigOf(target)), page)
  }

  lemma RequiredSizeHolds(target: MmapSize, page: nat)
    requires page > 0
    ensures HEADER_SIZE <= LayoutSize(ConfigOf(target)) <= RequiredSize(target, page)
  {
    hide ConfigOf, LayoutSize, AlignedSize;
    AlignedSizeIsLeast(LayoutSize(ConfigOf(target)), page);
    LayoutHoldsHeader(ConfigOf(target));
  }

  // ---- The header ----

  const HEADER_SIGNATURE: u64 := 0x48535243
  const HEADER_VERSION: u64 := 2

  function Code(size: MmapSize): u64 {
    match size
    case Small => 0
    case Medium => 1
    case Large => 2
  }

  predicate IsSupportedSize(code: u64) {
    code == Code(Small) || code == Code(Medium) || code == Code(Large)
  }

  /** The layout a size code selects; the small one for a code that is not supported. */
  function SizeOfCode(code: u64): MmapSize {
    if code == Code(Large) then Large else if code == Code(Medium) then Medium else Small
  }

  lemma SizeOfCodeInvertsCode(size: MmapSize, code: u64)
    ensures SizeOfCode(Code(size)) == size && IsSupportedSize(Code(size))
    ensures IsSupportedSize(code) ==> Code(SizeOfCode(code)) == code
  {
  }

  predicate IsHeaderValid(f: seq<byte>)
    requires |f| >= HEADER_SIZE
  {
    Word(f, SIGNATURE_AT) == HEADER_SIGNATURE && IsSupportedSize(Word(f, SIZE_AT))
  }

  predicate IsHeaderVersionCurrent(f: seq<byte>)
    requires |f| >= HEADER_SIZE
  {
    Word(f, VERSION_AT) == HEADER_VERSION
  }

  /** The configuration the header asks for. */
  function FileConfig(f: seq<byte>): Config
    requires |f| >= HEADER_SIZE
  {
    ConfigOf(SizeOfCode(Word(f, SIZE_AT)))
  }

  predicate ShouldDoRecovery(f: seq<byte>)
    requires |f| >= HEADER_SIZE
  {
    if !IsHeaderValid(f) || !IsHeaderVersionCurrent(f) then false
    else if |f| < LayoutSize(FileConfig(f)) then false
    else Word(f, COUNT_AT) > 0
  }

  function ResetHeaderPuts(target: MmapSize): seq<Put> {
    [WordPut(COUNT_AT, 0), WordPut(SIZE_AT, Code(target)), WordPut(VERSION_AT, HEADER_VERSION), WordPut(SIGNATURE_AT, HEADER_SIGNATURE)]
  }

  // ---- Recovery ----

  predicate AllOk(rs: seq<Raw>, maxAttributes: nat) {
    forall k :: 0 <= k < |rs| ==> RawOk(rs[k], maxAttributes)
  }

  function DecodeAll(rs: seq<Raw>, maxAttributes: nat): (s: seq<Span>)
    requires AllOk(rs, maxAttributes)
    ensures |s| == |rs|
  {
    hide RawOk, FromRaw;
    if rs == [] then []
    else DecodeAll(rs[..|rs| - 1], maxAttributes) + [FromRaw(rs[|rs| - 1], maxAttributes)]
  }

  lemma {:induction false} DecodedAt(rs: seq<Raw>, maxAttributes: nat, k: nat)
    requires AllOk(rs, maxAttributes) && k < |rs|
    ensures RawOk(rs[k], maxAttributes) && DecodeAll(rs, maxAttributes)[k] == FromRaw(rs[k], maxAttributes)
  {
    hide RawOk, FromRaw;
    if k < |rs| - 1 { DecodedAt(rs[..|rs| - 1], maxAttributes, k); }
  }

  /** An image that can be scanned: the count is in range and marked spans are fit to read. */
  predicate Readable(img: Image, cfg: Config) {
    img.count <= |img.slots| && AllOk(Scan(img.slots, img.count), cfg.maxAttributes)
  }

  /** The recovery scan, in slot order. */
  function Recovered(img: Image, cfg: Config): seq<Span>
    requires Readable(img, cfg)
  {
    DecodeAll(Scan(img.slots, img.count), cfg.maxAttributes)
  }

  /** A file that recovery would scan can be scanned. */
  predicate Scannable(f: seq<byte>) {
    |f| >= HEADER_SIZE && ShouldDoRecovery(f) ==> Readable(View(f, FileConfig(f)), FileConfig(f))
  }

  /** The spans in a file. */
  function FileSpans(f: seq<byte>): seq<Span>
    requires Scannable(f)
  {
    if |f| >= HEADER_SIZE && ShouldDoRecovery(f) then Recovered(View(f, FileConfig(f)), FileConfig(f)) else []
  }

  /** The spans a start-up recovers: none from a file shorter than a page. */
  function Recover(f: seq<byte>, page: nat): seq<Span>
    requires Scannable(f)
  {
    if |f| >= page then FileSpans(f) else []
  }

  // ---- Making the file ready ----

  predicate Reuses(f: seq<byte>, target: MmapSize, page: nat)
    requires page >= HEADER_SIZE
  {
    |f| >= page && ShouldDoRecovery(f) && Word(f, SIZE_AT) == Code(target) && |f| == RequiredSize(target, page)
  }

  /** The file once it has its size. */
  function StartBase(f: seq<byte>, target: MmapSize, page: nat): seq<byte>
    requires page >= HEADER_SIZE
  {
    if Reuses(f, target, page) then f else Resized(f, RequiredSize(target, page))
  }

  /** The stores that follow: the header unless the file is reused, then `remove_all`. */
  function StartPuts(f: seq<byte>, target: MmapSize, page: nat): seq<Put>
    requires page >= HEADER_SIZE
  {
    (if Reuses(f, target, page) then [] else ResetHeaderPuts(target)) + RemoveAllPuts(ConfigOf(target))
  }

  lemma ZeroPutsFit(at: nat, n: nat, size: nat)
    requires at + n <= size
    ensures AllFit(ZeroPuts(at, n), size)
  {
  }

  lemma AllFitConcat(a: seq<Put>, b: seq<Put>, size: nat)
    requires AllFit(a, size) && AllFit(b, size)
    ensures AllFit(a + b, size)
  {
  }

  lemma RemoveAllFits(cfg: Config, size: nat)
    requires LayoutSize(cfg) <= size
    ensures AllFit(RemoveAllPuts(cfg), size)
  {
    hide LayoutSize, ZeroPuts;
    LayoutHoldsHeader(cfg);
    ZeroPutsFit(HEADER_SIZE, LayoutSize(cfg) - HEADER_SIZE, size);
    AllFitConcat([WordPut(COUNT_AT, 0)], ZeroPuts(HEADER_SIZE, LayoutSize(cfg) - HEADER_SIZE), size);
  }

  lemma StartPutsFit(f: seq<byte>, target: MmapSize, page: nat)
    requires page >= HEADER_SIZE
    ensures |StartBase(f, target, page)| == RequiredSize(target, page)
    ensures AllFit(StartPuts(f, target, page), RequiredSize(target, page))
  {
    hide ConfigOf, LayoutSize, AlignedSize, RemoveAllPuts, RequiredSize, ShouldDoRecovery;
    RequiredSizeHolds(target, page);
    RemoveAllFits(ConfigOf(target), RequiredSize(target, page));
    AllFitConcat(ResetHeaderPuts(target), RemoveAllPuts(ConfigOf(target)), RequiredSize(target, page));
    assert [] + RemoveAllPuts(ConfigOf(target)) == RemoveAllPuts(ConfigOf(target));
  }

  /** The file after a start-up. */
  function StartFile(f: seq<byte>, target: MmapSize, page: nat): seq<byte>
    requires page >= HEADER_SIZE
  {
    StartPutsFit(f, target, page);
    RunPuts(StartBase(f, target, page), StartPuts(f, target, page))
  }

  /** The files a crash during a start-up can leave: the one it found, or the resized one with
      some of the stores. */
  ghost predicate StartCrash(f: seq<byte>, target: MmapSize, page: nat, c: seq<byte>)
    requires page >= HEADER_SIZE
  {
    c == f || exists k: nat :: k <= |StartPuts(f, target, page)| && c == StartStep(f, target, page, k)
  }

  function StartStep(f: seq<byte>, target: MmapSize, page: nat, k: nat): seq<byte>
    requires page >= HEADER_SIZE && k <= |StartPuts(f, target, page)|
  {
    StartPutsFit(f, target, page);
    RunPuts(StartBase(f, target, page), StartPuts(f, target, page)[..k])
  }

  // ---- Nothing stale survives ----

  /** A header that names `target`. */
  predicate HeaderNames(f: seq<byte>, target: MmapSize)
    requires |f| >= HEADER_SIZE
  {
    IsHeaderValid(f) && IsHeaderVersionCurrent(f) && Word(f, SIZE_AT) == Code(target)
  }

  predicate IsEmpty(img: Image) {
    img.count == 0 && forall i :: 0 <= i < |img.slots| ==> img.slots[i].mark == 0
  }

  lemma RemoveAllEffect(f: seq<byte>, cfg: Config)
    requires LayoutSize(cfg) <= |f|
    ensures AllFit(RemoveAllPuts(cfg), |f|) && HEADER_SIZE <= |f|
    ensures var g := RunPuts(f, RemoveAllPuts(cfg));
      && IsEmpty(View(g, cfg))
      && (forall k :: 0 <= k < COUNT_AT ==> g[k] == f[k])
      && (forall k :: HEADER_SIZE <= k < LayoutSize(cfg) ==> g[k] == 0)
  {
    hide LayoutSize, ZeroPuts, Word, EncodeWord, SlotAt, View, Splice;
    LayoutHoldsHeader(cfg);
    RemoveAllFits(cfg, |f|);
    var n := LayoutSize(cfg) - HEADER_SIZE;
    var one := [WordPut(COUNT_AT, 0)];
    var f1 := Splice(f, COUNT_AT, EncodeWord(0));
    assert RunPuts(f, one) == f1 by { assert one[..0] == []; }
    RunZeroPuts(f1, HEADER_SIZE, n);
    RunPutsConcat(f, one, ZeroPuts(HEADER_SIZE, n));
    var g := Splice(f1, HEADER_SIZE, Zeros(n));
    WordOfSplice(f, COUNT_AT, 0);
    WordFrame(f1, g, COUNT_AT);
    ZeroedIsEmpty(g, cfg);
  }

  lemma ZeroedIsEmpty(g: seq<byte>, cfg: Config)
    requires HEADER_SIZE <= LayoutSize(cfg) <= |g| && Word(g, COUNT_AT) == 0
    requires forall k :: HEADER_SIZE <= k < LayoutSize(cfg) ==> g[k] == 0
    ensures IsEmpty(View(g, cfg))
  {
    hide SlotAt, Word;
    forall i | 0 <= i < cfg.maxSpans ensures View(g, cfg).slots[i].mark == 0 {
      SlotsDisjoint(cfg, i, cfg.maxSpans);
      WordOfZeros(g, SlotAt(cfg, i));
    }
  }

  lemma RunFour(f: seq<byte>, a: Put, b: Put, c: Put, d: Put)
    requires Fits(a, |f|) && Fits(b, |f|) && Fits(c, |f|) && Fits(d, |f|)
    ensures AllFit([a, b, c, d], |f|)
    ensures RunPuts(f, [a, b, c, d])
         == Splice(Splice(Splice(Splice(f, a.at, a.bytes), b.at, b.bytes), c.at, c.bytes), d.at, d.bytes)
  {
    hide Splice;
    var ps := [a, b, c, d];
    assert ps[..3] == [a, b, c] && [a, b, c][..2] == [a, b] && [a, b][..1] == [a] && [a][..0] == [];
    assert RunPuts(f, [a]) == Splice(f, a.at, a.bytes);
    assert RunPuts(f, [a, b]) == Splice(RunPuts(f, [a]), b.at, b.bytes);
    assert RunPuts(f, [a, b, c]) == Splice(RunPuts(f, [a, b]), c.at, c.bytes);
  }

  lemma ResetHeaderEffect(f: seq<byte>, target: MmapSize)
    requires |f| >= HEADER_SIZE
    ensures AllFit(ResetHeaderPuts(target), |f|)
    ensures HeaderNames(RunPuts(f, ResetHeaderPuts(target)), target)
  {
    hide Word, EncodeWord, RunPuts, Splice;
    var ps := ResetHeaderPuts(target);
    RunFour(f, ps[0], ps[1], ps[2], ps[3]);
    var f1 := Splice(f, COUNT_AT, EncodeWord(0));
    var f2 := Splice(f1, SIZE_AT, EncodeWord(Code(target)));
    var f3 := Splice(f2, VERSION_AT, EncodeWord(HEADER_VERSION));
    var f4 := Splice(f3, SIGNATURE_AT, EncodeWord(HEADER_SIGNATURE));
    WordOfSplice(f1, SIZE_AT, Code(target));
    WordOfSplice(f2, VERSION_AT, HEADER_VERSION);
    WordOfSplice(f3, SIGNATURE_AT, HEADER_SIGNATURE);
    OtherWord(f2, VERSION_AT, EncodeWord(HEADER_VERSION), SIZE_AT);
    OtherWord(f3, SIGNATURE_AT, EncodeWord(HEADER_SIGNATURE), SIZE_AT);
    OtherWord(f3, SIGNATURE_AT, EncodeWord(HEADER_SIGNATURE), VERSION_AT);
    SizeOfCodeInvertsCode(target, 0);
  }

  /** The header after `k` of them: the count first, the signature last, and the size before the
      version that vouches for it. */
  lemma {:induction false} ResetHeaderStates(f: seq<byte>, target: MmapSize, k: nat)
    requires |f| >= 32 && k <= 4
    ensures AllFit(ResetHeaderPuts(target)[..k], |f|)
    ensures var g := RunPuts(f, ResetHeaderPuts(target)[..k]);
      && Word(g, 24) == (if k >= 1 then 0 else Word(f, 24))
      && Word(g, 16) == (if k >= 2 then Code(target) else Word(f, 16))
      && Word(g, 8) == (if k >= 3 then 2 else Word(f, 8))
      && Word(g, 0) == (if k >= 4 then 0x48535243 else Word(f, 0))
  {
    hide Word, EncodeWord, Splice;
    var ps := ResetHeaderPuts(target);
    if k == 0 {
      assert ps[..k] == [];
    } else {
      ResetHeaderStates(f, target, k - 1);
      assert ps[..k][..k - 1] == ps[..k - 1];
      HeaderStore(RunPuts(f, ps[..k - 1]), 32 - 8 * k, if k == 1 then 0 else if k == 2 then Code(target) else if k == 3 then 2 else 0x48535243);
    }
  }

  lemma HeaderStore(g: seq<byte>, at: nat, v: u64)
    requires |g| >= 32 && (at == 0 || at == 8 || at == 16 || at == 24)
    ensures var h := Splice(g, at, EncodeWord(v));
      Word(h, at) == v && forall w :: w == 0 || w == 8 || w == 16 || w == 24 ==> w == at || Word(h, w) == Word(g, w)
  {
    hide Word, EncodeWord, Splice;
    WordOfSplice(g, at, v);
    forall w | (w == 0 || w == 8 || w == 16 || w == 24) && w != at ensures Word(Splice(g, at, EncodeWord(v)), w) == Word(g, w) {
      OtherWord(g, at, EncodeWord(v), w);
    }
  }

  /** So the header never vouches for a layout that is neither the one that was found nor the
      target. */
  lemma HeaderIsNeverMixed(f: seq<byte>, target: MmapSize, k: nat)
    requires |f| >= HEADER_SIZE && k <= 4
    ensures AllFit(ResetHeaderPuts(target)[..k], |f|)
    ensures var g := RunPuts(f, ResetHeaderPuts(target)[..k]);
      IsHeaderValid(g) && IsHeaderVersionCurrent(g) ==> HeaderNames(g, target) || (IsHeaderValid(f) && IsHeaderVersionCurrent(f))
  {
    hide Word, RunPuts;
    ResetHeaderStates(f, target, k);
  }

  /** Two files with the same first 24 bytes have the same signature, version and size. */
  lemma SameHeaderWords(f: seq<byte>, g: seq<byte>)
    requires |f| >= HEADER_SIZE && |g| >= HEADER_SIZE && forall k :: 0 <= k < COUNT_AT ==> g[k] == f[k]
    ensures Word(g, SIGNATURE_AT) == Word(f, SIGNATURE_AT) && Word(g, VERSION_AT) == Word(f, VERSION_AT)
    ensures Word(g, SIZE_AT) == Word(f, SIZE_AT)
  {
    WordFrame(f, g, SIGNATURE_AT);
    WordFrame(f, g, VERSION_AT);
    WordFrame(f, g, SIZE_AT);
  }

  /** Whatever file a start-up finds, it ends with a current header for the target, a count of
      zero and no mark set. */
  lemma StartUpIsFresh(f: seq<byte>, target: MmapSize, page: nat)
    requires page >= HEADER_SIZE
    ensures var g := StartFile(f, target, page);
      && |g| == RequiredSize(target, page) && HEADER_SIZE <= LayoutSize(ConfigOf(target)) <= |g|
      && HeaderNames(g, target) && IsEmpty(View(g, ConfigOf(target)))
  {
    hide ConfigOf, LayoutSize, RequiredSize, Word, RunPuts, RemoveAllPuts, ResetHeaderPuts, View, IsEmpty, ShouldDoRecovery;
    var cfg, base := ConfigOf(target), StartBase(f, target, page);
    StartPutsFit(f, target, page);
    RequiredSizeHolds(target, page);
    if Reuses(f, target, page) {
      assert StartPuts(f, target, page) == RemoveAllPuts(cfg);
      RemoveAllEffect(f, cfg);
      SameHeaderWords(f, StartFile(f, target, page));
      ReusedHeader(f);
    } else {
      ResetHeaderEffect(base, target);
      var h := RunPuts(base, ResetHeaderPuts(target));
      RemoveAllEffect(h, cfg);
      RunPutsConcat(base, ResetHeaderPuts(target), RemoveAllPuts(cfg));
      SameHeaderWords(h, StartFile(f, target, page));
    }
  }

  lemma ReusedHeader(f: seq<byte>)
    requires |f| >= HEADER_SIZE && ShouldDoRecovery(f)
    ensures IsHeaderValid(f) && IsHeaderVersionCurrent(f)
  {
  }

  /** The state a session starts from. */
  function StartState(f: seq<byte>, cfg: Config): State
    requires LayoutSize(cfg) <= |f|
  {
    State(View(f, cfg), 0, map[])
  }

  lemma EmptyStateIsOk(img: Image, cfg: Config)
    requires cfg.Valid() && ImageOk(img, cfg) && IsEmpty(img)
    ensures Inv(State(img, 0, map[]), cfg) && QueueOf(State(img, 0, map[])) == []
  {
  }

  // ---- A crash during start-up ----

  /** A file as the store leaves it, or a new or foreign one: not a header with live spans over
      too few bytes. */
  predicate Whole(f: seq<byte>) {
    f == [] || (|f| >= HEADER_SIZE && (IsHeaderValid(f) && IsHeaderVersionCurrent(f) && Word(f, COUNT_AT) > 0
      ==> LayoutSize(FileConfig(f)) <= |f|))
  }

  /** Stores that set the count to zero or leave it alone. */
  predicate KeepsCountZero(p: Put) {
    p == WordPut(COUNT_AT, 0) || p.at + |p.bytes| <= COUNT_AT || HEADER_SIZE <= p.at
  }

  lemma {:induction false} CountStaysZero(f: seq<byte>, ps: seq<Put>)
    requires |f| >= HEADER_SIZE && AllFit(ps, |f|) && forall k :: 0 <= k < |ps| ==> KeepsCountZero(ps[k])
    requires Word(f, COUNT_AT) == 0 || (|ps| > 0 && ps[0] == WordPut(COUNT_AT, 0))
    ensures Word(RunPuts(f, ps), COUNT_AT) == 0
  {
    hide Word, EncodeWord, Splice;
    if ps != [] {
      var front, last := ps[..|ps| - 1], ps[|ps| - 1];
      if last == WordPut(COUNT_AT, 0) {
        WordOfSplice(RunPuts(f, front), COUNT_AT, 0);
      } else {
        CountStaysZero(f, front);
        OtherWord(RunPuts(f, front), last.at, last.bytes, COUNT_AT);
      }
    }
  }

  lemma StartPutsKeepCountZero(f: seq<byte>, target: MmapSize, page: nat)
    requires page >= HEADER_SIZE
    ensures var ps := StartPuts(f, target, page);
      |ps| > 0 && ps[0] == WordPut(COUNT_AT, 0) && forall k :: 0 <= k < |ps| ==> KeepsCountZero(ps[k])
  {
    hide ConfigOf, LayoutSize, EncodeWord, ShouldDoRecovery;
    LayoutHoldsHeader(ConfigOf(target));
  }

  /** Once the first store of a start-up is through, nothing is left to recover. */
  lemma CountGoesFirst(f: seq<byte>, target: MmapSize, page: nat, k: nat)
    requires page >= HEADER_SIZE && 0 < k <= |StartPuts(f, target, page)|
    ensures |StartStep(f, target, page, k)| >= HEADER_SIZE && Word(StartStep(f, target, page, k), COUNT_AT) == 0
  {
    hide ConfigOf, LayoutSize, RequiredSize, Word, RunPuts, StartPuts, StartBase, KeepsCountZero;
    StartPutsFit(f, target, page);
    RequiredSizeHolds(target, page);
    StartPutsKeepCountZero(f, target, page);
    CountStaysZero(StartBase(f, target, page), StartPuts(f, target, page)[..k]);
  }

  lemma CountZeroIsNothing(c: seq<byte>)
    requires |c| >= HEADER_SIZE && Word(c, COUNT_AT) == 0
    ensures Scannable(c) && FileSpans(c) == [] && Whole(c)
  {
    hide Word, ConfigOf, LayoutSize;
  }

  lemma {:induction false} SlotsFrame(f: seq<byte>, g: seq<byte>, cfg: Config, n: nat)
    requires SlotAt(cfg, n) <= |f| && SlotAt(cfg, n) <= |g| && forall k :: 0 <= k < SlotAt(cfg, n) ==> g[k] == f[k]
    ensures SlotsUpTo(f, cfg, n) == SlotsUpTo(g, cfg, n)
  {
    hide SlotAt, Word;
    if n > 0 {
      SlotsDisjoint(cfg, n - 1, n);
      SlotsFrame(f, g, cfg, n - 1);
      var at := SlotAt(cfg, n - 1);
      WordFrame(f, g, at);
      assert f[at + WORD..at + SlotSize(cfg)] == g[at + WORD..at + SlotSize(cfg)];
    }
  }

  /** Cutting or extending a whole file leaves all its spans or none. */
  lemma ResizedSpans(f: seq<byte>, n: nat)
    requires Whole(f) && Scannable(f) && n >= HEADER_SIZE
    ensures Scannable(Resized(f, n))
    ensures FileSpans(Resized(f, n)) == FileSpans(f) || FileSpans(Resized(f, n)) == []
    ensures |f| <= n ==> Whole(Resized(f, n)) && FileSpans(Resized(f, n)) == FileSpans(f)
  {
    hide ConfigOf, Word, Recovered, Readable;
    var g := Resized(f, n);
    if f == [] {
      WordOfZeros(g, SIGNATURE_AT);
    } else {
      SameHeaderWords(f, g);
      WordFrame(f, g, COUNT_AT);
      var cfg := FileConfig(f);
      if ShouldDoRecovery(f) && LayoutSize(cfg) <= n {
        LayoutHoldsHeader(cfg);
        SlotsFrame(f, g, cfg, cfg.maxSpans);
        assert View(g, cfg) == View(f, cfg);
      }
    }
  }

  /** One crash at any step of a start-up leaves a file from which the next start-up, whatever
      its target and page size, recovers all the spans of the file that was found, or none. */
  lemma StartUpCrashSafe(f: seq<byte>, target: MmapSize, page: nat, c: seq<byte>, nextPage: nat)
    requires Whole(f) && Scannable(f) && page >= HEADER_SIZE && StartCrash(f, target, page, c)
    ensures Scannable(c)
    ensures Recover(c, nextPage) == FileSpans(f) || Recover(c, nextPage) == []
  {
    hide Word, ConfigOf, Whole, Scannable, StartPuts, RunPuts, RequiredSize, FileSpans, ShouldDoRecovery;
    if c != f {
      var k: nat :| k <= |StartPuts(f, target, page)| && c == StartStep(f, target, page, k);
      if k == 0 {
        StepZero(f, target, page);
        RequiredSizeHolds(target, page);
        if !Reuses(f, target, page) {
          ResizedSpans(f, RequiredSize(target, page));
        }
      } else {
        CountGoesFirst(f, target, page, k);
        CountZeroIsNothing(c);
      }
    }
  }

  lemma StepZero(f: seq<byte>, target: MmapSize, page: nat)
    requires page >= HEADER_SIZE
    ensures StartStep(f, target, page, 0) == StartBase(f, target, page)
  {
    hide StartPuts, StartBase;
    assert StartPuts(f, target, page)[..0] == [];
  }
}
