/** Bytes, 64-bit words in memory, and stores into a byte image.

    A mapped file is a sequence of bytes. Every store the library makes into it is a `Put`
    of some bytes at some address. Stores reach the file in program order; a crash keeps a
    prefix of them, and a store that is wider than a word may be cut short with anything in
    its range. */
module Bytes {

  type byte = x: int | 0 <= x < 256
  type u64 = x: int | 0 <= x < 0x1_0000_0000_0000_0000

  const U64_MAX: u64 := 0xFFFF_FFFF_FFFF_FFFF
  const WORD: nat := 8

  function Zeros(n: nat): (z: seq<byte>)
    ensures |z| == n && forall k :: 0 <= k < n ==> z[k] == 0
  {
    seq(n, _ => 0)
  }

  // ---- Little-endian words ----

  function Limit(n: nat): (p: nat)
    ensures p > 0
  {
    if n == 0 then 1 else 256 * Limit(n - 1)
  }

  function Encode(v: nat, n: nat): (s: seq<byte>)
    requires v < Limit(n)
    ensures |s| == n
  {
    if n == 0 then [] else [v % 256] + Encode(v / 256, n - 1)
  }

  /** The number stored in the `n` bytes from `at` on. */
  function DecodeAt(f: seq<byte>, at: nat, n: nat): (v: nat)
    requires at + n <= |f|
    ensures v < Limit(n)
    decreases n
  {
    if n == 0 then 0 else f[at] + 256 * DecodeAt(f, at + 1, n - 1)
  }

  lemma {:induction false} DecodeEncoded(f: seq<byte>, at: nat, v: nat, n: nat)
    requires at + n <= |f| && v < Limit(n)
    requires f[at..at + n] == Encode(v, n)
    ensures DecodeAt(f, at, n) == v
    decreases n
  {
    if n > 0 {
      assert f[at] == f[at..at + n][0];
      assert f[at + 1..at + n] == f[at..at + n][1..];
      DecodeEncoded(f, at + 1, v / 256, n - 1);
    }
  }

  lemma {:induction false} DecodeFrame(f: seq<byte>, g: seq<byte>, at: nat, n: nat)
    requires at + n <= |f| && at + n <= |g|
    requires forall k :: at <= k < at + n ==> f[k] == g[k]
    ensures DecodeAt(f, at, n) == DecodeAt(g, at, n)
    decreases n
  {
    if n > 0 { DecodeFrame(f, g, at + 1, n - 1); }
  }

  lemma {:induction false} DecodeZeros(f: seq<byte>, at: nat, n: nat)
    requires at + n <= |f| && forall k :: at <= k < at + n ==> f[k] == 0
    ensures DecodeAt(f, at, n) == 0
    decreases n
  {
    if n > 0 { DecodeZeros(f, at + 1, n - 1); }
  }

  lemma LimitOfWord()
    ensures Limit(WORD) == 0x1_0000_0000_0000_0000
  {
    assert Limit(4) == 0x1_0000_0000;
  }

  function EncodeWord(v: u64): (s: seq<byte>)
    ensures |s| == WORD
  {
    LimitOfWord();
    Encode(v, WORD)
  }

  /** The word stored at address `at`. */
  function Word(f: seq<byte>, at: nat): u64
    requires at + WORD <= |f|
  {
    LimitOfWord();
    DecodeAt(f, at, WORD)
  }

  /** A word is stored with its low byte first. */
  lemma WordIsLittleEndian(f: seq<byte>, at: nat)
    requires at + 8 <= |f|
    ensures Word(f, at) as int == f[at] as int + 256 * (f[at + 1] as int + 256 * (f[at + 2] as int + 256 * (f[at + 3] as int
      + 256 * (f[at + 4] as int + 256 * (f[at + 5] as int + 256 * (f[at + 6] as int + 256 * (f[at + 7] as int)))))))
  {
    assert DecodeAt(f, at + 6, 2) == f[at + 6] as int + 256 * (f[at + 7] as int);
    assert DecodeAt(f, at + 4, 4) == f[at + 4] as int + 256 * (f[at + 5] as int + 256 * DecodeAt(f, at + 6, 2));
    assert DecodeAt(f, at + 2, 6) == f[at + 2] as int + 256 * (f[at + 3] as int + 256 * DecodeAt(f, at + 4, 4));
  }

  /** A word depends on its eight bytes only. */
  lemma WordFrame(f: seq<byte>, g: seq<byte>, at: nat)
    requires at + WORD <= |f| && at + WORD <= |g|
    requires forall k :: at <= k < at + WORD ==> f[k] == g[k]
    ensures Word(f, at) == Word(g, at)
  {
    DecodeFrame(f, g, at, WORD);
  }

  lemma WordOfZeros(f: seq<byte>, at: nat)
    requires at + WORD <= |f|
    requires forall k :: at <= k < at + WORD ==> f[k] == 0
    ensures Word(f, at) == 0
  {
    DecodeZeros(f, at, WORD);
  }

  // ---- Stores ----

  /** `f` with the bytes from `at` on replaced by `b`. */
  function Splice(f: seq<byte>, at: nat, b: seq<byte>): (g: seq<byte>)
    requires at + |b| <= |f|
    ensures |g| == |f|
    ensures forall k :: 0 <= k < |f| ==> g[k] == if at <= k < at + |b| then b[k - at] else f[k]
  {
    f[..at] + b + f[at + |b|..]
  }

  lemma WordOfSplice(f: seq<byte>, at: nat, v: u64)
    requires at + WORD <= |f|
    ensures Word(Splice(f, at, EncodeWord(v)), at) == v
  {
    LimitOfWord();
    var g := Splice(f, at, EncodeWord(v));
    assert g[at..at + WORD] == EncodeWord(v);
    DecodeEncoded(g, at, v, WORD);
  }

  /** One store. A word or a byte is written whole or not at all; a store that `tears`
      (the assignment of a whole struct) can leave anything in its range when it is cut. */
  datatype Put = Put(at: nat, bytes: seq<byte>, tears: bool)

  function WordPut(at: nat, v: u64): Put {
    Put(at, EncodeWord(v), false)
  }

  predicate Fits(p: Put, size: nat) {
    p.at + |p.bytes| <= size
  }

  predicate AllFit(ps: seq<Put>, size: nat) {
    forall k :: 0 <= k < |ps| ==> Fits(ps[k], size)
  }

  function RunPuts(f: seq<byte>, ps: seq<Put>): (g: seq<byte>)
    requires AllFit(ps, |f|)
    ensures |g| == |f|
  {
    if ps == [] then f
    else
      var last := ps[|ps| - 1];
      Splice(RunPuts(f, ps[..|ps| - 1]), last.at, last.bytes)
  }

  /** What a crash leaves once `done` stores are through: the next store may be torn, with
      `junk` in its range. */
  function CrashPuts(f: seq<byte>, ps: seq<Put>, done: nat, junk: seq<byte>): (g: seq<byte>)
    requires AllFit(ps, |f|) && done <= |ps|
    ensures |g| == |f|
  {
    var g := RunPuts(f, ps[..done]);
    if done < |ps| && ps[done].tears && |junk| == |ps[done].bytes|
    then Splice(g, ps[done].at, junk)
    else g
  }

  lemma RunNoPuts(f: seq<byte>)
    ensures AllFit([], |f|) && RunPuts(f, []) == f
  {
  }

  lemma {:induction false} RunPutsConcat(f: seq<byte>, ps: seq<Put>, qs: seq<Put>)
    requires AllFit(ps, |f|) && AllFit(qs, |f|)
    ensures AllFit(ps + qs, |f|)
    ensures RunPuts(f, ps + qs) == RunPuts(RunPuts(f, ps), qs)
  {
    if qs == [] {
      assert ps + qs == ps;
    } else {
      var all := ps + qs;
      assert all[..|all| - 1] == ps + qs[..|qs| - 1];
      RunPutsConcat(f, ps, qs[..|qs| - 1]);
    }
  }

  /** A crash in two runs of stores is a crash in one of them. */
  lemma CrashPutsConcat(f: seq<byte>, ps: seq<Put>, qs: seq<Put>, done: nat, junk: seq<byte>)
    requires AllFit(ps, |f|) && AllFit(qs, |f|) && done <= |ps| + |qs|
    ensures AllFit(ps + qs, |f|)
    ensures CrashPuts(f, ps + qs, done, junk)
         == if done < |ps| then CrashPuts(f, ps, done, junk) else CrashPuts(RunPuts(f, ps), qs, done - |ps|, junk)
  {
    hide RunPuts, Splice;
    var all := ps + qs;
    assert AllFit(all, |f|);
    if done < |ps| {
      assert all[..done] == ps[..done] && all[done] == ps[done];
    } else {
      var front := qs[..done - |ps|];
      assert all[..done] == ps + front;
      assert done < |all| ==> all[done] == qs[done - |ps|];
      RunPutsConcat(f, ps, front);
    }
  }

  /** Stores that miss an address leave it alone. */
  lemma {:induction false} RunPutsFrame(f: seq<byte>, ps: seq<Put>, k: nat)
    requires AllFit(ps, |f|) && k < |f|
    requires forall j :: 0 <= j < |ps| ==> !(ps[j].at <= k < ps[j].at + |ps[j].bytes|)
    ensures RunPuts(f, ps)[k] == f[k]
  {
    if ps != [] {
      RunPutsFrame(f, ps[..|ps| - 1], k);
    }
  }
}
