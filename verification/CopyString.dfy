/** Bounded strings: truncation, the key comparison against a truncated buffer, and the
    copies that zero a buffer before they fill it. */
module CopyString {
  import opened Bytes
  import opened MemoryModel

  /** A UTF-8 continuation byte: the top two bits are 10. */
  predicate IsContinuation(c: byte) {
    0x80 <= c < 0xC0
  }

  /** The mask test of the source picks out exactly these bytes. */
  lemma ContinuationMask(c: bv8)
    ensures IsContinuation(c as byte) <==> c & 0xC0 == 0x80
  {
  }

  // ---- Truncation ----

  function Min(a: nat, b: nat): nat {
    if a <= b then a else b
  }

  function BackUp(src: seq<byte>, length: nat): (r: nat)
    requires length <= |src|
    ensures r <= length
  {
    if 0 < length < |src| && IsContinuation(src[length]) then BackUp(src, length - 1) else length
  }

  /** How many bytes of `src` a buffer of `n` bytes takes. */
  function Utf8Length(src: seq<byte>, n: nat): (r: nat)
    requires n > 0
    ensures r <= |src| && r <= n - 1
  {
    BackUp(src, Min(|src|, n - 1))
  }

  function Truncate(src: seq<byte>, n: nat): seq<byte>
    requires n > 0
  {
    src[..Utf8Length(src, n)]
  }

  /** `src` can be split at `k` without leaving a continuation byte on the right. */
  predicate IsBoundary(src: seq<byte>, k: nat)
    requires k <= |src|
  {
    k == 0 || k == |src| || !IsContinuation(src[k])
  }

  /** `r` is the last boundary of `src` that is at most `limit`. */
  predicate IsLastBoundary(src: seq<byte>, limit: nat, r: nat) {
    && r <= |src| && r <= limit
    && IsBoundary(src, r)
    && forall k :: r < k <= |src| && k <= limit ==> !IsBoundary(src, k)
  }

  lemma {:induction false} BackUpFindsLastBoundary(src: seq<byte>, length: nat)
    requires length <= |src|
    ensures IsLastBoundary(src, length, BackUp(src, length))
  {
    if 0 < length < |src| && IsContinuation(src[length]) {
      BackUpFindsLastBoundary(src, length - 1);
    }
  }

  lemma Utf8LengthIsLastBoundary(src: seq<byte>, n: nat)
    requires n > 0
    ensures IsLastBoundary(src, n - 1, Utf8Length(src, n))
  {
    BackUpFindsLastBoundary(src, Min(|src|, n - 1));
  }

  method GetUtf8Length(src: seq<byte>, n: nat) returns (length: nat)
    requires n > 0
    ensures length == Utf8Length(src, n)
    ensures IsLastBoundary(src, n - 1, length)
  {
    Utf8LengthIsLastBoundary(src, n);
    length := Min(|src|, n - 1);
    if length < |src| {
      while length > 0 && IsContinuation(src[length])
        invariant length < |src|
        invariant BackUp(src, length) == Utf8Length(src, n)
      {
        length := length - 1;
      }
    }
  }

  /** Truncating twice is truncating once for the smaller buffer. */
  lemma TruncateComposes(s: seq<byte>, m: nat, n: nat)
    requires m > 0 && n > 0
    ensures Truncate(Truncate(s, m), n) == Truncate(s, Min(m, n))
  {
    var t := Truncate(s, m);
    Utf8LengthIsLastBoundary(s, m);
    Utf8LengthIsLastBoundary(t, n);
    Utf8LengthIsLastBoundary(s, Min(m, n));
    var once, twice := Utf8Length(s, Min(m, n)), Utf8Length(t, n);
    assert IsBoundary(s, twice);
    assert once <= |t| && IsBoundary(t, once);
    assert once == twice;
  }

  lemma TruncateFits(s: seq<byte>, n: nat)
    requires |s| < n
    ensures Truncate(s, n) == s
  {
  }

  // ---- C strings ----

  predicate NulFree(s: seq<byte>) {
    0 !in s
  }

  /** The bytes of a buffer before its first NUL, as a C string is read. */
  function CString(buffer: seq<byte>): (s: seq<byte>)
    ensures NulFree(s) && s <= buffer
    ensures |s| < |buffer| ==> buffer[|s|] == 0
  {
    if buffer == [] || buffer[0] == 0 then [] else [buffer[0]] + CString(buffer[1..])
  }

  /** A prefix that is NUL-free and followed by a NUL or by nothing is the C string. */
  lemma CStringUnique(buffer: seq<byte>, s: seq<byte>)
    requires NulFree(s) && s <= buffer
    requires |s| < |buffer| ==> buffer[|s|] == 0
    ensures CString(buffer) == s
  {
    var c := CString(buffer);
    assert |s| <= |c| by { assert forall k :: 0 <= k < |s| ==> s[k] in s && s[k] == buffer[k]; }
    assert |c| <= |s| by { assert forall k :: 0 <= k < |c| ==> c[k] in c && c[k] == buffer[k]; }
  }

  lemma CStringOfPadded(s: seq<byte>, n: nat)
    ensures CString(s + Zeros(n)) == CString(s)
  {
    var c := CString(s);
    var b := s + Zeros(n);
    assert c <= b;
    CStringUnique(b, c);
  }

  lemma CStringOfNulFree(s: seq<byte>)
    requires NulFree(s)
    ensures CString(s) == s
  {
    CStringUnique(s, s);
  }

  lemma CStringOfPrefix(s: seq<byte>, k: nat)
    requires k <= |s|
    ensures CString(s[..k]) == CString(s)[..Min(k, |CString(s)|)]
  {
    var c := CString(s);
    var m := Min(k, |c|);
    assert forall j :: 0 <= j < m ==> c[..m][j] == c[j] && c[j] in c;
    CStringUnique(s[..k], c[..m]);
  }

  /** What is read back of `s` from a buffer of `n` bytes it was copied into. */
  function Clean(s: seq<byte>, n: nat): (c: seq<byte>)
    requires n > 0
    ensures |c| < n && NulFree(c)
  {
    CString(Truncate(s, n))
  }

  // ---- Copies ----

  /** A buffer of `n` bytes after `src` was copied into it. */
  function Fill(src: seq<byte>, n: nat): (b: seq<byte>)
    requires n > 0
    ensures |b| == n && b[n - 1] == 0
  {
    var t := Truncate(src, n);
    t + Zeros(n - |t|)
  }

  lemma CStringOfFill(src: seq<byte>, n: nat)
    requires n > 0
    ensures CString(Fill(src, n)) == Clean(src, n)
  {
    var t := Truncate(src, n);
    CStringOfPadded(t, n - |t|);
  }

  /** Zero `n` bytes, then store the bytes `t`, each in ascending order. */
  function FillPuts(t: seq<byte>, at: nat, n: nat): seq<Put> {
    ZeroPuts(at, n) + BytePuts(at, t)
  }

  function CopyPuts(src: seq<byte>, at: nat, n: nat): seq<Put>
    requires n > 0
  {
    FillPuts(Truncate(src, n), at, n)
  }

  /** Zero both buffers, then fill both. */
  function FillPuts2(t1: seq<byte>, at1: nat, n1: nat, t2: seq<byte>, at2: nat, n2: nat): seq<Put> {
    ZeroPuts(at1, n1) + ZeroPuts(at2, n2) + BytePuts(at1, t1) + BytePuts(at2, t2)
  }

  function Copy2Puts(src1: seq<byte>, at1: nat, n1: nat, src2: seq<byte>, at2: nat, n2: nat): seq<Put>
    requires n1 > 0 && n2 > 0
  {
    FillPuts2(Truncate(src1, n1), at1, n1, Truncate(src2, n2), at2, n2)
  }

  /** A buffer after the first `k` byte stores of a fill with `t`: first a growing run of
      zeros over the old bytes, then a growing prefix of the new bytes over zeros. */
  function HalfFilled(was: seq<byte>, t: seq<byte>, k: nat): (b: seq<byte>)
    requires |t| <= |was| && k <= |was| + |t|
    ensures |b| == |was|
  {
    var n := |was|;
    if k <= n then Zeros(k) + was[k..] else t[..k - n] + Zeros(n - (k - n))
  }

  lemma SpliceOverZeros(f: seq<byte>, t: seq<byte>, at: nat, n: nat)
    requires at + n <= |f| && |t| <= n
    ensures Splice(Splice(f, at, Zeros(n)), at, t) == Splice(f, at, t + Zeros(n - |t|))
  {
  }

  lemma FillPutsFit(t: seq<byte>, at: nat, n: nat, size: nat)
    requires |t| <= n && at + n <= size
    ensures AllFit(FillPuts(t, at, n), size)
  {
  }

  lemma FillEffect(f: seq<byte>, t: seq<byte>, at: nat, n: nat)
    requires |t| <= n && at + n <= |f|
    ensures AllFit(FillPuts(t, at, n), |f|)
    ensures RunPuts(f, FillPuts(t, at, n)) == Splice(f, at, t + Zeros(n - |t|))
  {
    RunZeroPuts(f, at, n);
    RunBytePuts(Splice(f, at, Zeros(n)), at, t);
    RunPutsConcat(f, ZeroPuts(at, n), BytePuts(at, t));
    SpliceOverZeros(f, t, at, n);
  }

  lemma FillPutsPrefix(t: seq<byte>, at: nat, n: nat, k: nat)
    requires k <= n + |t|
    ensures |FillPuts(t, at, n)| == n + |t|
    ensures FillPuts(t, at, n)[..k] == if k <= n then ZeroPuts(at, k) else FillPuts(t[..k - n], at, n)
  {
  }

  lemma SpliceKeepsTail(f: seq<byte>, b: seq<byte>, at: nat, n: nat)
    requires |b| <= n && at + n <= |f|
    ensures Splice(f, at, b + f[at..at + n][|b|..]) == Splice(f, at, b)
  {
  }

  lemma ClearPrefix(f: seq<byte>, at: nat, n: nat, k: nat)
    requires at + n <= |f| && k <= n
    ensures AllFit(ZeroPuts(at, k), |f|)
    ensures RunPuts(f, ZeroPuts(at, k)) == Splice(f, at, Zeros(k) + f[at..at + n][k..])
  {
    RunZeroPuts(f, at, k);
    SpliceKeepsTail(f, Zeros(k), at, n);
  }

  lemma FillPrefixClears(f: seq<byte>, t: seq<byte>, at: nat, n: nat, k: nat)
    requires |t| <= n && at + n <= |f| && k <= n
    ensures |FillPuts(t, at, n)| == n + |t|
    ensures AllFit(FillPuts(t, at, n)[..k], |f|)
    ensures RunPuts(f, FillPuts(t, at, n)[..k]) == Splice(f, at, HalfFilled(f[at..at + n], t, k))
  {
    FillPutsPrefix(t, at, n, k);
    ClearPrefix(f, at, n, k);
  }

  lemma FillPrefixFills(f: seq<byte>, t: seq<byte>, at: nat, n: nat, k: nat)
    requires |t| <= n && at + n <= |f| && n < k <= n + |t|
    requires |FillPuts(t, at, n)| == n + |t| && AllFit(FillPuts(t, at, n)[..k], |f|)
    ensures RunPuts(f, FillPuts(t, at, n)[..k]) == Splice(f, at, HalfFilled(f[at..at + n], t, k))
  {
    FillPutsPrefix(t, at, n, k);
    FillEffect(f, t[..k - n], at, n);
  }

  /** The first `k` byte stores of a fill, seen in the buffer they go to. */
  lemma FillPrefix(f: seq<byte>, t: seq<byte>, at: nat, n: nat, k: nat)
    requires |t| <= n && at + n <= |f| && k <= n + |t|
    ensures |FillPuts(t, at, n)| == n + |t|
    ensures AllFit(FillPuts(t, at, n)[..k], |f|)
    ensures RunPuts(f, FillPuts(t, at, n)[..k]) == Splice(f, at, HalfFilled(f[at..at + n], t, k))
  {
    if k <= n {
      FillPrefixClears(f, t, at, n, k);
    } else {
      FillPutsFit(t, at, n, |f|);
      FillPrefixFills(f, t, at, n, k);
    }
  }

  lemma CopyEffect(f: seq<byte>, src: seq<byte>, at: nat, n: nat)
    requires n > 0 && at + n <= |f|
    ensures AllFit(CopyPuts(src, at, n), |f|)
    ensures RunPuts(f, CopyPuts(src, at, n)) == Splice(f, at, Fill(src, n))
  {
    hide RunPuts, FillPuts, AllFit, Splice, Utf8Length;
    FillEffect(f, Truncate(src, n), at, n);
  }

  lemma RunPutsConcat4(f: seq<byte>, a: seq<Put>, b: seq<Put>, c: seq<Put>, d: seq<Put>)
    requires AllFit(a, |f|) && AllFit(b, |f|) && AllFit(c, |f|) && AllFit(d, |f|)
    ensures AllFit(a + b + c + d, |f|)
    ensures RunPuts(f, a + b + c + d) == RunPuts(RunPuts(RunPuts(RunPuts(f, a), b), c), d)
  {
    RunPutsConcat(f, a, b);
    RunPutsConcat(f, a + b, c);
    RunPutsConcat(f, a + b + c, d);
  }

  lemma SpliceSwap(f: seq<byte>, a: seq<byte>, at1: nat, b: seq<byte>, at2: nat)
    requires (at1 + |a| <= at2 || at2 + |b| <= at1) && at1 + |a| <= |f| && at2 + |b| <= |f|
    ensures Splice(Splice(f, at1, a), at2, b) == Splice(Splice(f, at2, b), at1, a)
  {
  }

  lemma FillEffect2(f: seq<byte>, t1: seq<byte>, at1: nat, n1: nat, t2: seq<byte>, at2: nat, n2: nat)
    requires |t1| <= n1 && |t2| <= n2 && at1 + n1 <= at2 && at2 + n2 <= |f|
    ensures AllFit(FillPuts2(t1, at1, n1, t2, at2, n2), |f|)
    ensures RunPuts(f, FillPuts2(t1, at1, n1, t2, at2, n2))
         == Splice(Splice(f, at1, t1 + Zeros(n1 - |t1|)), at2, t2 + Zeros(n2 - |t2|))
  {
    RunZeroPuts(f, at1, n1);
    var f1 := Splice(f, at1, Zeros(n1));
    RunZeroPuts(f1, at2, n2);
    var f2 := Splice(f1, at2, Zeros(n2));
    RunBytePuts(f2, at1, t1);
    SpliceSwap(f1, Zeros(n2), at2, t1, at1);
    SpliceOverZeros(f, t1, at1, n1);
    var f3 := Splice(f1, at1, t1);
    RunBytePuts(Splice(f3, at2, Zeros(n2)), at2, t2);
    SpliceOverZeros(f3, t2, at2, n2);
    RunPutsConcat4(f, ZeroPuts(at1, n1), ZeroPuts(at2, n2), BytePuts(at1, t1), BytePuts(at2, t2));
  }

  /** Both buffers are cleared before either is filled. */
  lemma BothClearedFirst(t1: seq<byte>, at1: nat, n1: nat, t2: seq<byte>, at2: nat, n2: nat)
    ensures |FillPuts2(t1, at1, n1, t2, at2, n2)| == n1 + n2 + |t1| + |t2|
    ensures forall k :: 0 <= k < n1 + n2 ==> FillPuts2(t1, at1, n1, t2, at2, n2)[k].bytes == [0]
  {
  }

  lemma FillPuts2Prefix(t1: seq<byte>, at1: nat, n1: nat, t2: seq<byte>, at2: nat, n2: nat, a: nat, b: nat)
    requires a <= |t1| && b <= |t2| && (b > 0 ==> a == |t1|)
    ensures n1 + n2 + a + b <= |FillPuts2(t1, at1, n1, t2, at2, n2)|
    ensures FillPuts2(t1, at1, n1, t2, at2, n2)[..n1 + n2 + a + b] == FillPuts2(t1[..a], at1, n1, t2[..b], at2, n2)
  {
    hide ZeroPuts, BytePuts;
  }

  /** From then on the first buffer fills up, and only when it is whole does the second. */
  lemma Fill2Prefix(f: seq<byte>, t1: seq<byte>, at1: nat, n1: nat, t2: seq<byte>, at2: nat, n2: nat, a: nat, b: nat)
    requires |t1| <= n1 && |t2| <= n2 && at1 + n1 <= at2 && at2 + n2 <= |f|
    requires a <= |t1| && b <= |t2| && (b > 0 ==> a == |t1|)
    ensures n1 + n2 + a + b <= |FillPuts2(t1, at1, n1, t2, at2, n2)|
    ensures AllFit(FillPuts2(t1, at1, n1, t2, at2, n2)[..n1 + n2 + a + b], |f|)
    ensures RunPuts(f, FillPuts2(t1, at1, n1, t2, at2, n2)[..n1 + n2 + a + b])
      == Splice(Splice(f, at1, t1[..a] + Zeros(n1 - a)), at2, t2[..b] + Zeros(n2 - b))
  {
    hide RunPuts, FillPuts2, Splice, AllFit;
    FillPuts2Prefix(t1, at1, n1, t2, at2, n2, a, b);
    FillEffect2(f, t1[..a], at1, n1, t2[..b], at2, n2);
  }

  lemma Copy2Effect(f: seq<byte>, src1: seq<byte>, at1: nat, n1: nat, src2: seq<byte>, at2: nat, n2: nat)
    requires n1 > 0 && n2 > 0 && at1 + n1 <= at2 && at2 + n2 <= |f|
    ensures AllFit(Copy2Puts(src1, at1, n1, src2, at2, n2), |f|)
    ensures RunPuts(f, Copy2Puts(src1, at1, n1, src2, at2, n2))
         == Splice(Splice(f, at1, Fill(src1, n1)), at2, Fill(src2, n2))
  {
    FillEffect2(f, Truncate(src1, n1), at1, n1, Truncate(src2, n2), at2, n2);
  }

  lemma StartsWithNul(b: seq<byte>)
    requires |b| > 0 && b[0] == 0
    ensures CString(b) == []
  {
  }

  /** While a buffer is being overwritten it stays NUL-terminated at its last byte, and what
      is read back is the old string, nothing, or a prefix of the new one. */
  lemma HalfFilledReadsBack(was: seq<byte>, t: seq<byte>, k: nat)
    requires |t| < |was| && was[|was| - 1] == 0 && k <= |was| + |t|
    ensures var b := HalfFilled(was, t, k);
      && b[|was| - 1] == 0
      && (k == 0 ==> b == was)
      && (0 < k <= |was| ==> CString(b) == [])
      && (|was| < k ==> CString(b) == CString(t[..k - |was|]))
  {
    hide CString;
    var n := |was|;
    if 0 < k <= n { StartsWithNul(HalfFilled(was, t, k)); }
    if n < k {
      CStringOfPadded(t[..k - n], n - (k - n));
    }
  }

  /** The order of the byte stores does not matter for this: a buffer some of whose bytes are
      still, or already, zero reads back as a prefix of what the full buffer reads as. */
  lemma PartlyZeroedReadsPrefix(full: seq<byte>, b: seq<byte>)
    requires |b| == |full| && forall k :: 0 <= k < |b| ==> b[k] == full[k] || b[k] == 0
    ensures CString(b) <= CString(full)
    ensures |full| > 0 && full[|full| - 1] == 0 ==> b[|b| - 1] == 0
  {
    var c := CString(b);
    assert forall k :: 0 <= k < |c| ==> c[k] in c && c[k] == b[k] && full[k] == c[k];
    assert c <= full;
    assert full[..|c|] == c;
    CStringOfNulFree(c);
    CStringOfPrefix(full, |c|);
  }

  method CopyStringTo(src: seq<byte>, dest: Memory, at: nat, n: nat)
    requires dest.Valid() && n > 0 && at + n <= dest.data.Length
    modifies dest`log, dest.data
    ensures dest.Valid() && dest.log == old(dest.log) + CopyPuts(src, at, n)
    ensures dest.data[..] == Splice(old(dest.data[..]), at, Fill(src, n))
  {
    var length := GetUtf8Length(src, n);
    dest.Clear(at, n);
    dest.Copy(at, src[..length]);
    dest.Effect(CopyPuts(src, at, n));
    CopyEffect(old(dest.data[..]), src, at, n);
  }

  lemma ConcatLog(log: seq<Put>, a: seq<Put>, b: seq<Put>, c: seq<Put>, d: seq<Put>)
    ensures log + a + b + c + d == log + (a + b + c + d)
  {
  }

  method CopyStringTo2(src1: seq<byte>, at1: nat, n1: nat, src2: seq<byte>, at2: nat, n2: nat, dest: Memory)
    requires dest.Valid() && n1 > 0 && n2 > 0 && at1 + n1 <= at2 && at2 + n2 <= dest.data.Length
    modifies dest`log, dest.data
    ensures dest.Valid() && dest.log == old(dest.log) + Copy2Puts(src1, at1, n1, src2, at2, n2)
    ensures dest.data[..] == Splice(Splice(old(dest.data[..]), at1, Fill(src1, n1)), at2, Fill(src2, n2))
  {
    var length1 := GetUtf8Length(src1, n1);
    var length2 := GetUtf8Length(src2, n2);
    ghost var z1, z2 := ZeroPuts(at1, n1), ZeroPuts(at2, n2);
    ghost var b1, b2 := BytePuts(at1, src1[..length1]), BytePuts(at2, src2[..length2]);
    dest.Clear(at1, n1);
    dest.Clear(at2, n2);
    dest.Copy(at1, src1[..length1]);
    dest.Copy(at2, src2[..length2]);
    ConcatLog(old(dest.log), z1, z2, b1, b2);
    ghost var ps := Copy2Puts(src1, at1, n1, src2, at2, n2);
    dest.Effect(ps);
    Copy2Effect(old(dest.data[..]), src1, at1, n1, src2, at2, n2);
  }

  // ---- Key comparison ----

  /** Compares a key, truncated as if it were copied, with a buffer. */
  predicate KeyEquals(untruncated: seq<byte>, buffer: seq<byte>)
    requires |buffer| > 0
  {
    var length := Utf8Length(untruncated, |buffer|);
    buffer[..length] == untruncated[..length] && buffer[length] == 0
  }

  /** `b` is `a` followed by one or more NULs. */
  predicate AddsNuls(a: seq<byte>, b: seq<byte>) {
    |a| < |b| && a <= b && forall k :: |a| <= k < |b| ==> b[k] == 0
  }

  /** What the comparison decides, for all keys: equal truncations, or one of the two ways in
      which a NUL inside a key hides the difference. */
  lemma KeyEqualsExactly(stored: seq<byte>, key: seq<byte>, n: nat)
    requires n > 0
    ensures var s, t := Truncate(stored, n), Truncate(key, n);
      KeyEquals(key, Fill(stored, n)) <==> t == s || AddsNuls(s, t) || t + [0] <= s
  {
    var s, t, b := Truncate(stored, n), Truncate(key, n), Fill(stored, n);
    if KeyEquals(key, b) {
      assert b[..|t|] == t && b[|t|] == 0;
      if |t| < |s| {
        assert s[..|t| + 1] == t + [0];
      } else {
        assert s == b[..|s|] == t[..|s|];
        assert forall k :: |s| <= k < |t| ==> t[k] == b[k];
      }
    }
    if t + [0] <= s {
      assert b[..|t|] == s[..|t|] == (t + [0])[..|t|];
      assert s[|t|] == (t + [0])[|t|];
    }
    if AddsNuls(s, t) {
      assert b[..|t|] == t;
    }
  }

  lemma NulFreePrefix(s: seq<byte>, k: nat)
    requires k <= |s| && NulFree(s)
    ensures NulFree(s[..k])
  {
  }

  lemma NoAddedNuls(s: seq<byte>, t: seq<byte>)
    requires NulFree(t)
    ensures !AddsNuls(s, t)
  {
    assert |s| < |t| ==> t[|s|] in t;
  }

  lemma NoNulAt(s: seq<byte>, t: seq<byte>)
    requires NulFree(s)
    ensures !(t + [0] <= s)
  {
    assert (t + [0])[|t|] == 0;
    assert forall k :: 0 <= k < |s| ==> s[k] in s;
  }

  /** For NUL-free keys the comparison decides equality of truncations. */
  lemma KeyEqualsIffSameTruncation(stored: seq<byte>, key: seq<byte>, n: nat)
    requires n > 0 && NulFree(Truncate(stored, n)) && NulFree(Truncate(key, n))
    ensures KeyEquals(key, Fill(stored, n)) <==> Truncate(key, n) == Truncate(stored, n)
  {
    var s, t := Truncate(stored, n), Truncate(key, n);
    KeyEqualsExactly(stored, key, n);
    NoAddedNuls(s, t);
    NoNulAt(s, t);
  }

  /** A stored key is told apart from every other NUL-free key exactly when its own stored
      part is NUL-free. */
  lemma KeyEqualsSoundIffStoredNulFree(stored: seq<byte>, n: nat)
    requires n > 0
    ensures NulFree(Truncate(stored, n)) <==>
      forall key :: NulFree(key) ==> (KeyEquals(key, Fill(stored, n)) <==> Truncate(key, n) == Truncate(stored, n))
  {
    var s := Truncate(stored, n);
    if NulFree(s) {
      forall key | NulFree(key)
        ensures KeyEquals(key, Fill(stored, n)) <==> Truncate(key, n) == s
      {
        NulFreePrefix(key, Utf8Length(key, n));
        KeyEqualsIffSameTruncation(stored, key, n);
      }
    } else {
      var key := CString(s);
      assert key != s;
      TruncateFits(key, n);
      assert key + [0] <= s;
      KeyEqualsExactly(stored, key, n);
    }
  }

  /** With a NUL in a key the comparison is not even symmetric. */
  lemma KeyEqualsNotSymmetric()
    ensures var a, b := [97, 0, 98], [97];
      KeyEquals(b, Fill(a, 8)) && !KeyEquals(a, Fill(b, 8))
  {
    var a: seq<byte>, b: seq<byte> := [97, 0, 98], [97];
    TruncateFits(a, 8);
    TruncateFits(b, 8);
    KeyEqualsExactly(a, b, 8);
    KeyEqualsExactly(b, a, 8);
    assert b + [0] <= a;
    assert a[2] == 98;
  }

  // ---- Length arithmetic of the Java string conversions ----

  /** `jstring_to_string`: the raw cut to `maxLen` bytes. */
  function JStringToString(utf: seq<byte>, maxLen: nat): (r: seq<byte>)
    ensures r <= utf && |r| == Min(|utf|, maxLen)
  {
    utf[..Min(|utf|, maxLen)]
  }

  /** The raw cut to `n` bytes before a copy into `n` bytes changes nothing: the byte at
      `n - 1`, which decides where the copy stops, survives the cut. */
  lemma RawCutIsHarmless(utf: seq<byte>, n: nat)
    requires n > 0
    ensures Truncate(JStringToString(utf, n), n) == Truncate(utf, n)
  {
    var cut := JStringToString(utf, n);
    Utf8LengthIsLastBoundary(utf, n);
    Utf8LengthIsLastBoundary(cut, n);
    var a, b := Utf8Length(utf, n), Utf8Length(cut, n);
    if n < |utf| {
      assert IsBoundary(cut, a) && IsBoundary(utf, b);
      assert a == b;
    } else {
      assert cut == utf;
    }
  }

  /** One byte less would be too short: a character at the end would be split. */
  lemma ShorterRawCutSplitsCharacter()
    ensures var e: seq<byte> := [0xC3, 0xA9];
      Truncate(e, 2) == [] && Truncate(JStringToString(e, 1), 2) == [0xC3]
  {
    var e: seq<byte> := [0xC3, 0xA9];
    assert BackUp(e, 1) == BackUp(e, 0) == 0;
  }

  /** `create_bounded_jstring`: whatever the length of the string, what is handed to Java is
      what a buffer of `maxLen` bytes would read back. */
  method CreateBoundedJString(str: seq<byte>, maxLen: nat) returns (r: seq<byte>)
    requires maxLen > 0
    ensures r == Clean(str, maxLen)
  {
    if |str| < maxLen {
      TruncateFits(str, maxLen);
      return CString(str);
    }
    var buf := new Memory(maxLen);
    CopyStringTo(str, buf, 0, maxLen);
    CStringOfFill(str, maxLen);
    assert buf.data[..] == Fill(str, maxLen);
    return CString(buf.data[..]);
  }
}
