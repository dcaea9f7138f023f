/** Truncation and UTF-8 (sections 3 and 4 of RFC 3629). */
module Utf8 {
  import opened Bytes
  import opened CopyString

  /** The byte count of the character at the front of `s`, by the syntax of section 4 of
      RFC 3629, or 0 if there is none. */
  function CharLength(s: seq<byte>): (n: nat)
    ensures n <= |s| && n <= 4
    ensures n > 0 ==> !IsContinuation(s[0]) && forall k :: 0 < k < n ==> IsContinuation(s[k])
  {
    if |s| >= 1 && s[0] <= 0x7F then 1
    else if |s| >= 2 && 0xC2 <= s[0] <= 0xDF && IsContinuation(s[1]) then 2
    else if |s| >= 3 && Lead3(s[0], s[1]) && IsContinuation(s[2]) then 3
    else if |s| >= 4 && Lead4(s[0], s[1]) && IsContinuation(s[2]) && IsContinuation(s[3]) then 4
    else 0
  }

  predicate Lead3(a: byte, b: byte) {
    || (a == 0xE0 && 0xA0 <= b <= 0xBF)
    || (0xE1 <= a <= 0xEC && IsContinuation(b))
    || (a == 0xED && 0x80 <= b <= 0x9F)
    || (0xEE <= a <= 0xEF && IsContinuation(b))
  }

  predicate Lead4(a: byte, b: byte) {
    || (a == 0xF0 && 0x90 <= b <= 0xBF)
    || (0xF1 <= a <= 0xF3 && IsContinuation(b))
    || (a == 0xF4 && 0x80 <= b <= 0x8F)
  }

  predicate WellFormed(s: seq<byte>) {
    s == [] || (CharLength(s) > 0 && WellFormed(s[CharLength(s)..]))
  }

  // ---- The characters behind the bytes ----

  /** A Unicode scalar value: no surrogate. */
  predicate IsScalar(c: nat) {
    c <= 0x10FFFF && !(0xD800 <= c <= 0xDFFF)
  }

  /** The encoding of section 3 of RFC 3629. */
  function EncodeScalar(c: nat): (s: seq<byte>)
    requires IsScalar(c)
    ensures 1 <= |s| <= 4
  {
    if c < 0x80 then [c]
    else if c < 0x800 then [0xC0 + c / 0x40, 0x80 + c % 0x40]
    else if c < 0x1_0000 then [0xE0 + c / 0x40 / 0x40, 0x80 + c / 0x40 % 0x40, 0x80 + c % 0x40]
    else [0xF0 + c / 0x40 / 0x40 / 0x40, 0x80 + c / 0x40 / 0x40 % 0x40, 0x80 + c / 0x40 % 0x40, 0x80 + c % 0x40]
  }

  function EncodeAll(cs: seq<nat>): seq<byte>
    requires forall c :: c in cs ==> IsScalar(c)
  {
    if cs == [] then [] else EncodeScalar(cs[0]) + EncodeAll(cs[1..])
  }

  /** The syntax of section 4 finds the encoding of a character at the front of a text. */
  lemma ScalarIsChar(c: nat, rest: seq<byte>)
    requires IsScalar(c)
    ensures CharLength(EncodeScalar(c) + rest) == |EncodeScalar(c)|
  {
    hide CharLength;
    var s := EncodeScalar(c) + rest;
    assert forall k :: 0 <= k < |EncodeScalar(c)| ==> s[k] == EncodeScalar(c)[k];
    CharLengthByLead(s);
  }

  lemma CharLengthByLead(s: seq<byte>)
    ensures |s| >= 1 && s[0] <= 0x7F ==> CharLength(s) == 1
    ensures |s| >= 2 && 0xC2 <= s[0] <= 0xDF && IsContinuation(s[1]) ==> CharLength(s) == 2
    ensures |s| >= 3 && Lead3(s[0], s[1]) && IsContinuation(s[2]) ==> CharLength(s) == 3
    ensures |s| >= 4 && Lead4(s[0], s[1]) && IsContinuation(s[2]) && IsContinuation(s[3]) ==> CharLength(s) == 4
  {
  }

  function LowBits(b: byte): nat
    requires IsContinuation(b)
  {
    b as nat - 0x80
  }

  lemma NextDigit(q: nat, d: nat)
    requires d < 0x40
    ensures (q * 0x40 + d) / 0x40 == q && (q * 0x40 + d) % 0x40 == d
  {
  }

  /** What it finds is the encoding of a character. */
  lemma CharIsScalar(s: seq<byte>) returns (c: nat)
    requires CharLength(s) > 0
    ensures IsScalar(c) && s[..CharLength(s)] == EncodeScalar(c)
  {
    var n := CharLength(s);
    if n == 1 {
      c := s[0];
    } else if n == 2 {
      c := TwoByteScalar(s[0], s[1]);
    } else if n == 3 {
      c := ThreeByteScalar(s[0], s[1], s[2]);
    } else {
      c := FourByteScalar(s[0], s[1], s[2], s[3]);
    }
  }

  lemma TwoByteScalar(a: byte, b: byte) returns (c: nat)
    requires 0xC2 <= a <= 0xDF && IsContinuation(b)
    ensures IsScalar(c) && EncodeScalar(c) == [a, b]
  {
    var q: nat := a as nat - 0xC0;
    NextDigit(q, LowBits(b));
    c := q * 0x40 + LowBits(b);
  }

  lemma ThreeByteScalar(a: byte, b: byte, d: byte) returns (c: nat)
    requires Lead3(a, b) && IsContinuation(d)
    ensures IsScalar(c) && EncodeScalar(c) == [a, b, d]
  {
    var q: nat := a as nat - 0xE0;
    var r := q * 0x40 + LowBits(b);
    NextDigit(q, LowBits(b));
    NextDigit(r, LowBits(d));
    c := r * 0x40 + LowBits(d);
  }

  lemma FourByteScalar(a: byte, b: byte, d: byte, e: byte) returns (c: nat)
    requires Lead4(a, b) && IsContinuation(d) && IsContinuation(e)
    ensures IsScalar(c) && EncodeScalar(c) == [a, b, d, e]
  {
    var q: nat := a as nat - 0xF0;
    var r := q * 0x40 + LowBits(b);
    var t := r * 0x40 + LowBits(d);
    NextDigit(q, LowBits(b));
    NextDigit(r, LowBits(d));
    NextDigit(t, LowBits(e));
    c := t * 0x40 + LowBits(e);
  }

  lemma {:induction false} EncodedIsWellFormed(cs: seq<nat>)
    requires forall c :: c in cs ==> IsScalar(c)
    ensures WellFormed(EncodeAll(cs))
  {
    if cs != [] {
      var s := EncodeAll(cs);
      ScalarIsChar(cs[0], EncodeAll(cs[1..]));
      EncodedIsWellFormed(cs[1..]);
      assert s[|EncodeScalar(cs[0])|..] == EncodeAll(cs[1..]);
    }
  }

  lemma OneMoreScalar(c: nat, rest: seq<nat>)
    requires IsScalar(c) && forall d :: d in rest ==> IsScalar(d)
    ensures EncodeAll([c] + rest) == EncodeScalar(c) + EncodeAll(rest)
  {
    hide IsScalar, EncodeScalar;
    assert ([c] + rest)[1..] == rest;
  }

  lemma {:induction false} WellFormedIsEncoded(s: seq<byte>) returns (cs: seq<nat>)
    requires WellFormed(s)
    ensures (forall c :: c in cs ==> IsScalar(c)) && EncodeAll(cs) == s
  {
    hide CharLength, EncodeScalar, IsScalar;
    if s == [] {
      cs := [];
    } else {
      var n := CharLength(s);
      var c := CharIsScalar(s);
      var rest := WellFormedIsEncoded(s[n..]);
      cs := [c] + rest;
      OneMoreScalar(c, rest);
      assert s == s[..n] + s[n..];
    }
  }

  ghost predicate EncodesCharacters(s: seq<byte>) {
    exists cs: seq<nat> :: (forall c :: c in cs ==> IsScalar(c)) && EncodeAll(cs) == s
  }

  /** Well-formed is what encodes a sequence of characters, and nothing else. */
  lemma WellFormedIffEncodes(s: seq<byte>)
    ensures WellFormed(s) <==> EncodesCharacters(s)
  {
    if WellFormed(s) {
      var cs := WellFormedIsEncoded(s);
    }
    if EncodesCharacters(s) {
      var cs: seq<nat> :| (forall c :: c in cs ==> IsScalar(c)) && EncodeAll(cs) == s;
      EncodedIsWellFormed(cs);
    }
  }

  /** A cut before the end of the first character leaves nothing well-formed. */
  lemma CutInsideFirst(s: seq<byte>, k: nat)
    requires 0 < k < CharLength(s)
    ensures !WellFormed(s[..k])
  {
  }

  lemma CutAfterFirst(s: seq<byte>, k: nat)
    requires 0 < CharLength(s) <= k <= |s|
    ensures CharLength(s[..k]) == CharLength(s)
    ensures s[..k][CharLength(s)..] == s[CharLength(s)..][..k - CharLength(s)]
  {
  }

  /** In well-formed text the split points that keep the front well-formed are exactly those
      whose next byte is not a continuation byte; the rest is then well-formed as well. */
  lemma {:induction false} SplitIsBoundary(s: seq<byte>, k: nat)
    requires WellFormed(s) && k <= |s|
    ensures WellFormed(s[..k]) <==> IsBoundary(s, k)
    ensures IsBoundary(s, k) ==> WellFormed(s[k..])
  {
    hide CharLength;
    var n := CharLength(s);
    if k == 0 {
      assert s[0..] == s;
    } else if k < n {
      CutInsideFirst(s, k);
    } else {
      SplitIsBoundary(s[n..], k - n);
      CutAfterFirst(s, k);
      assert s[n..][k - n..] == s[k..];
    }
  }

  /** A boundary is never more than three bytes back. */
  lemma {:induction false} BoundaryIsNear(s: seq<byte>, k: nat) returns (j: nat)
    requires WellFormed(s) && k <= |s|
    ensures j <= k <= j + 3 && IsBoundary(s, j)
  {
    var n := CharLength(s);
    if k == 0 {
      j := 0;
    } else if k < n {
      j := 0;
    } else {
      j := BoundaryIsNear(s[n..], k - n);
      j := j + n;
    }
  }

  /** Truncation keeps the longest well-formed prefix that fits, and gives up at most three
      bytes of the room there is. */
  lemma TruncateKeepsWellFormed(src: seq<byte>, n: nat)
    requires n > 0 && WellFormed(src)
    ensures WellFormed(Truncate(src, n))
    ensures forall m :: |Truncate(src, n)| < m <= |src| && m < n ==> !WellFormed(src[..m])
    ensures Min(|src|, n - 1) <= |Truncate(src, n)| + 3
  {
    var r := Utf8Length(src, n);
    Utf8LengthIsLastBoundary(src, n);
    SplitIsBoundary(src, r);
    forall m | r < m <= |src| && m < n ensures !WellFormed(src[..m]) {
      SplitIsBoundary(src, m);
    }
    var j := BoundaryIsNear(src, Min(|src|, n - 1));
  }

  // ---- Copies that are cut short ----

  predicate IsAscii(s: seq<byte>) {
    forall k :: 0 <= k < |s| ==> s[k] < 0x80
  }

  lemma {:induction false} NoContinuationIsAscii(s: seq<byte>)
    requires WellFormed(s) && forall k :: 0 <= k < |s| ==> !IsContinuation(s[k])
    ensures IsAscii(s)
  {
    if s != [] {
      assert CharLength(s) == 1;
      NoContinuationIsAscii(s[1..]);
      assert forall k :: 0 < k < |s| ==> s[k] == s[1..][k - 1];
    }
  }

  /** Every cut of a text leaves text, if and only if the text is ASCII. */
  lemma PrefixesWellFormedIffAscii(s: seq<byte>)
    requires WellFormed(s)
    ensures (forall k :: 0 <= k <= |s| ==> WellFormed(s[..k])) <==> IsAscii(s)
  {
    forall k | 0 <= k <= |s| ensures WellFormed(s[..k]) <==> IsBoundary(s, k) {
      SplitIsBoundary(s, k);
    }
    if forall k :: 0 <= k <= |s| ==> WellFormed(s[..k]) {
      forall k | 0 <= k < |s| ensures !IsContinuation(s[k]) {
        assert WellFormed(s[..k]);
        if k == 0 { assert CharLength(s) > 0; }
      }
      NoContinuationIsAscii(s);
    }
  }

  /** What is read back of a text, up to its first NUL, is text. */
  lemma CStringWellFormed(s: seq<byte>)
    requires WellFormed(s)
    ensures WellFormed(CString(s))
  {
    var c := CString(s);
    assert s[..|c|] == c;
    SplitIsBoundary(s, |c|);
  }

  lemma CleanWellFormed(src: seq<byte>, n: nat)
    requires n > 0 && WellFormed(src)
    ensures WellFormed(Truncate(src, n)) && WellFormed(Clean(src, n))
  {
    TruncateKeepsWellFormed(src, n);
    CStringWellFormed(Truncate(src, n));
  }

  /** A copy that stops after `k` bytes reads back as text exactly when what is read back ends
      between characters. */
  lemma CutCopyWellFormedIffBoundary(src: seq<byte>, n: nat, k: nat)
    requires n > 0 && WellFormed(src) && k <= |Truncate(src, n)|
    ensures WellFormed(CString(Truncate(src, n)[..k])) <==> IsBoundary(Clean(src, n), Min(k, |Clean(src, n)|))
  {
    var c := Clean(src, n);
    CleanWellFormed(src, n);
    CStringOfPrefix(Truncate(src, n), k);
    SplitIsBoundary(c, Min(k, |c|));
  }

  /** Wherever a copy stops, text is read back: if and only if the text that is copied is ASCII,
      up to its first NUL and as far as it fits. */
  lemma CutCopiesWellFormedIffAscii(src: seq<byte>, n: nat)
    requires n > 0 && WellFormed(src)
    ensures (forall k :: 0 <= k <= |Truncate(src, n)| ==> WellFormed(CString(Truncate(src, n)[..k])))
      <==> IsAscii(Clean(src, n))
  {
    hide WellFormed, CString;
    var t, c := Truncate(src, n), Clean(src, n);
    CleanWellFormed(src, n);
    PrefixesWellFormedIffAscii(c);
    forall k | 0 <= k <= |t| ensures CString(t[..k]) == c[..Min(k, |c|)] {
      CStringOfPrefix(t, k);
    }
    assert |c| <= |t|;
    if forall k :: 0 <= k <= |t| ==> WellFormed(CString(t[..k])) {
      forall k | 0 <= k <= |c| ensures WellFormed(c[..k]) {
        assert WellFormed(CString(t[..k]));
      }
    }
  }
}
