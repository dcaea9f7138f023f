/** Memory that is written in place: the mapping of the span file, or a local buffer.

    Beside the bytes, `log` records every store in the order it is made, so that a method's
    contract fixes the order of its stores and not only their final effect. */
module MemoryModel {
  import opened Bytes

  class Memory {
    var data: array<byte>
    ghost var base: seq<byte>  // the bytes before the first store in the log
    ghost var log: seq<Put>

    ghost predicate Valid()
      reads this, data
    {
      && |base| == data.Length
      && AllFit(log, |base|)
      && data[..] == RunPuts(base, log)
    }

    constructor (size: nat)
      ensures Valid() && fresh(data) && data[..] == Zeros(size) && log == []
    {
      data := new byte[size](_ => 0);
      base := Zeros(size);
      log := [];
      new;
      assert data[..] == Zeros(size);
    }

    /** Resizes the file: the bytes that stay are kept, new ones are zero. */
    method Resize(size: nat)
      requires Valid()
      modifies this
      ensures Valid() && fresh(data) && log == []
      ensures data[..] == base == Resized(old(data[..]), size)
    {
      var was := data;
      var now := new byte[size](k requires 0 <= k reads was => if k < was.Length then was[k] else 0);
      data := now;
      base := data[..];
      log := [];
      assert data[..] == Resized(old(data[..]), size);
    }

    method Store(p: Put)
      requires Valid() && Fits(p, data.Length)
      modifies this`log, data
      ensures Valid() && log == old(log) + [p]
      ensures data[..] == Splice(old(data[..]), p.at, p.bytes)
    {
      forall k | 0 <= k < |p.bytes| {
        data[p.at + k] := p.bytes[k];
      }
      log := log + [p];
      assert log[..|log| - 1] == old(log);
      assert data[..] == Splice(old(data[..]), p.at, p.bytes);
    }

    method StoreWord(at: nat, v: u64)
      requires Valid() && at + WORD <= data.Length
      modifies this`log, data
      ensures Valid() && log == old(log) + [WordPut(at, v)]
      ensures data[..] == Splice(old(data[..]), at, EncodeWord(v))
    {
      Store(WordPut(at, v));
    }

    function Load(at: nat): u64
      requires at + WORD <= data.Length
      reads this, data
    {
      Word(data[..], at)
    }

    /** `memset(dest, 0, n)`, as byte stores in ascending order. */
    method Clear(at: nat, n: nat)
      requires Valid() && at + n <= data.Length
      modifies this`log, data
      ensures Valid() && log == old(log) + ZeroPuts(at, n)
    {
      hide RunPuts, AllFit;
      var k := 0;
      while k < n
        invariant k <= n && Valid() && log == old(log) + ZeroPuts(at, k)
      {
        Store(Put(at + k, [0], false));
        assert log == old(log) + (ZeroPuts(at, k) + [Put(at + k, [0], false)]);
        k := k + 1;
      }
    }

    /** `memcpy(dest, src, n)`, as byte stores in ascending order. */
    method Copy(at: nat, src: seq<byte>)
      requires Valid() && at + |src| <= data.Length
      modifies this`log, data
      ensures Valid() && log == old(log) + BytePuts(at, src)
    {
      hide RunPuts, AllFit;
      var k := 0;
      while k < |src|
        invariant k <= |src| && Valid() && log == old(log) + BytePuts(at, src[..k])
      {
        Store(Put(at + k, [src[k]], false));
        assert src[..k + 1][..k] == src[..k];
        k := k + 1;
      }
      assert src[..k] == src;
    }

    /** The stores logged since the old state are what turned the old bytes into the new. */
    twostate lemma Effect(ps: seq<Put>)
      requires old(Valid()) && Valid() && base == old(base) && log == old(log) + ps
      ensures AllFit(ps, old(data.Length)) && data.Length == old(data.Length)
      ensures data[..] == RunPuts(old(data[..]), ps)
    {
      forall k | 0 <= k < |ps| ensures Fits(ps[k], |base|) {
        assert ps[k] == log[|old(log)| + k];
      }
      RunPutsConcat(base, old(log), ps);
    }
  }

  function Resized(f: seq<byte>, size: nat): (g: seq<byte>)
    ensures |g| == size
    ensures forall k :: 0 <= k < size ==> g[k] == if k < |f| then f[k] else 0
  {
    if size <= |f| then f[..size] else f + Zeros(size - |f|)
  }

  function ZeroPuts(at: nat, n: nat): (ps: seq<Put>)
    ensures |ps| == n && forall k :: 0 <= k < n ==> ps[k] == Put(at + k, [0], false)
  {
    if n == 0 then [] else ZeroPuts(at, n - 1) + [Put(at + n - 1, [0], false)]
  }

  function BytePuts(at: nat, src: seq<byte>): (ps: seq<Put>)
    ensures |ps| == |src| && forall k :: 0 <= k < |src| ==> ps[k] == Put(at + k, [src[k]], false)
  {
    if src == [] then []
    else BytePuts(at, src[..|src| - 1]) + [Put(at + |src| - 1, [src[|src| - 1]], false)]
  }

  lemma {:induction false} RunZeroPuts(f: seq<byte>, at: nat, n: nat)
    requires at + n <= |f|
    ensures AllFit(ZeroPuts(at, n), |f|)
    ensures RunPuts(f, ZeroPuts(at, n)) == Splice(f, at, Zeros(n))
  {
    var ps := ZeroPuts(at, n);
    if n == 0 {
      assert ps == [];
    } else {
      assert ps[..n - 1] == ZeroPuts(at, n - 1);
      RunZeroPuts(f, at, n - 1);
    }
  }

  lemma {:induction false} RunBytePuts(f: seq<byte>, at: nat, src: seq<byte>)
    requires at + |src| <= |f|
    ensures AllFit(BytePuts(at, src), |f|)
    ensures RunPuts(f, BytePuts(at, src)) == Splice(f, at, src)
  {
    var ps := BytePuts(at, src);
    var n := |src|;
    if n == 0 {
      assert ps == [];
    } else {
      assert ps[..n - 1] == BytePuts(at, src[..n - 1]);
      RunBytePuts(f, at, src[..n - 1]);
    }
  }
}
