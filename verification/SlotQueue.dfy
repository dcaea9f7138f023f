/** The live slots, read two ways: in slot order, as recovery scans them, and in mark order, as
    the queue of spans from oldest to newest. */
module SlotQueue {
  import opened Bytes
  import opened Codec
  import opened Layout

  type Raw = seq<byte>

  // ---- Slot order ----

  /** The raw spans of the marked slots among the first `n`. */
  function Scan(slots: seq<Slot>, n: nat): (rs: seq<Raw>)
    requires n <= |slots|
    ensures |rs| <= n
  {
    if n == 0 then [] else Scan(slots, n - 1) + if slots[n - 1].mark != 0 then [slots[n - 1].raw] else []
  }

  /** What one slot adds to the scan. */
  function Found(s: Slot): multiset<Raw> {
    if s.mark != 0 then multiset{s.raw} else multiset{}
  }

  lemma {:induction false} ScanFrame(slots: seq<Slot>, t: seq<Slot>, n: nat)
    requires n <= |slots| && n <= |t| && forall i :: 0 <= i < n ==> slots[i] == t[i]
    ensures Scan(slots, n) == Scan(t, n)
  {
    if n > 0 { ScanFrame(slots, t, n - 1); }
  }

  lemma MultisetOfConcat(a: seq<Raw>, b: seq<Raw>)
    ensures multiset(a + b) == multiset(a) + multiset(b)
  {
  }

  lemma ScanOneMore(slots: seq<Slot>, n: nat)
    requires n < |slots|
    ensures multiset(Scan(slots, n + 1)) == multiset(Scan(slots, n)) + Found(slots[n])
  {
    MultisetOfConcat(Scan(slots, n), if slots[n].mark != 0 then [slots[n].raw] else []);
  }

  /** Changing one slot changes the scan by what that slot adds, before and after. */
  lemma {:induction false} ScanUpdate(slots: seq<Slot>, n: nat, i: nat, x: Slot)
    requires i < n <= |slots|
    ensures multiset(Scan(slots[i := x], n)) + Found(slots[i]) == multiset(Scan(slots, n)) + Found(x)
  {
    hide Scan, Found;
    var t := slots[i := x];
    ScanOneMore(slots, n - 1);
    ScanOneMore(t, n - 1);
    if i == n - 1 {
      ScanFrame(slots, t, n - 1);
    } else {
      assert t[n - 1] == slots[n - 1];
      ScanUpdate(slots, n - 1, i, x);
      calc {
        multiset(Scan(t, n)) + Found(slots[i]);
        multiset(Scan(t, n - 1)) + Found(slots[i]) + Found(slots[n - 1]);
        multiset(Scan(slots, n - 1)) + Found(x) + Found(slots[n - 1]);
        multiset(Scan(slots, n)) + Found(x);
      }
    }
  }

  lemma {:induction false} ScanMembers(slots: seq<Slot>, n: nat, r: Raw)
    requires n <= |slots| && r in Scan(slots, n)
    ensures exists i :: 0 <= i < n && slots[i].mark != 0 && slots[i].raw == r
  {
    if n > 0 && r in Scan(slots, n - 1) { ScanMembers(slots, n - 1, r); }
  }

  lemma {:induction false} ScanAllMarked(slots: seq<Slot>, n: nat)
    requires n <= |slots| && forall i :: 0 <= i < n ==> slots[i].mark != 0
    ensures |Scan(slots, n)| == n && forall i :: 0 <= i < n ==> Scan(slots, n)[i] == slots[i].raw
  {
    if n > 0 { ScanAllMarked(slots, n - 1); }
  }

  // ---- Mark order ----

  /** The first of the `n` slots with mark `m`, or `n`. */
  function FindMark(slots: seq<Slot>, n: nat, m: u64): (r: nat)
    requires n <= |slots|
    ensures r <= n
    ensures r < n ==> slots[r].mark == m
    ensures forall i :: 0 <= i < r ==> slots[i].mark != m
  {
    if n == 0 then 0
    else
      var r := FindMark(slots, n - 1, m);
      if r < n - 1 then r else if slots[n - 1].mark == m then n - 1 else n
  }

  function Entry(slots: seq<Slot>, n: nat, m: u64): seq<Raw>
    requires n <= |slots|
  {
    var r := FindMark(slots, n, m);
    if r < n then [slots[r].raw] else []
  }

  /** The spans with marks 1 to `m`, oldest first. */
  function Queue(slots: seq<Slot>, n: nat, m: u64): seq<Raw>
    requires n <= |slots|
  {
    if m == 0 then [] else Queue(slots, n, m - 1) + Entry(slots, n, m)
  }

  ghost predicate DistinctMarks(slots: seq<Slot>, n: nat)
    requires n <= |slots|
  {
    forall i, j :: 0 <= i < j < n ==> slots[i].mark != slots[j].mark
  }

  lemma MarkFound(slots: seq<Slot>, n: nat, i: nat)
    requires i < n <= |slots| && DistinctMarks(slots, n)
    ensures FindMark(slots, n, slots[i].mark) == i
    ensures Entry(slots, n, slots[i].mark) == [slots[i].raw]
  {
    hide FindMark;
    assert forall j :: 0 <= j < i ==> slots[j].mark != slots[i].mark;
  }

  lemma MarkMissing(slots: seq<Slot>, n: nat, m: u64)
    requires n <= |slots| && forall i :: 0 <= i < n ==> slots[i].mark != m
    ensures Entry(slots, n, m) == []
  {
  }

  /** What one slot adds to the spans with marks 1 to `m`. */
  function InQueue(s: Slot, m: u64): multiset<Raw> {
    if 1 <= s.mark <= m then multiset{s.raw} else multiset{}
  }

  lemma EntryOneMore(slots: seq<Slot>, n: nat, m: u64)
    requires n < |slots| && DistinctMarks(slots, n + 1)
    ensures multiset(Entry(slots, n + 1, m))
         == multiset(Entry(slots, n, m)) + if slots[n].mark == m then multiset{slots[n].raw} else multiset{}
  {
    if slots[n].mark == m {
      MarkMissing(slots, n, m);
      MarkFound(slots, n + 1, n);
    }
  }

  /** Taking one more slot in inserts its span at the place its mark says. */
  lemma {:induction false} QueueOneMore(slots: seq<Slot>, n: nat, m: u64)
    requires n < |slots| && DistinctMarks(slots, n + 1)
    ensures multiset(Queue(slots, n + 1, m)) == multiset(Queue(slots, n, m)) + InQueue(slots[n], m)
  {
    hide DistinctMarks, Entry;
    if m > 0 {
      QueueOneMore(slots, n, m - 1);
      EntryOneMore(slots, n, m);
      MultisetOfConcat(Queue(slots, n, m - 1), Entry(slots, n, m));
      MultisetOfConcat(Queue(slots, n + 1, m - 1), Entry(slots, n + 1, m));
    }
  }

  lemma ScanOfNone(slots: seq<Slot>)
    ensures Scan(slots, 0) == []
  {
  }

  lemma FoundIsInQueue(s: Slot, m: u64)
    requires 1 <= s.mark <= m
    ensures Found(s) == InQueue(s, m)
  {
  }

  /** Both readings hold the same spans. */
  lemma {:induction false} QueueIsScan(slots: seq<Slot>, n: nat, m: u64)
    requires n <= |slots| && DistinctMarks(slots, n)
    requires forall i :: 0 <= i < n ==> 1 <= slots[i].mark <= m
    ensures multiset(Queue(slots, n, m)) == multiset(Scan(slots, n))
  {
    hide Queue, Scan, Found, InQueue;
    if n == 0 {
      EmptyQueue(slots, m);
      ScanOfNone(slots);
    } else {
      QueueIsScan(slots, n - 1, m);
      QueueOneMore(slots, n - 1, m);
      ScanOneMore(slots, n - 1);
      FoundIsInQueue(slots[n - 1], m);
    }
  }

  lemma {:induction false} EmptyQueue(slots: seq<Slot>, m: u64)
    ensures Queue(slots, 0, m) == []
  {
    if m > 0 { EmptyQueue(slots, m - 1); }
  }

  lemma {:induction false} NoneBelow(slots: seq<Slot>, n: nat, m: u64)
    requires n <= |slots| && forall i :: 0 <= i < n ==> slots[i].mark > m
    ensures Queue(slots, n, m) == []
  {
    if m > 0 {
      NoneBelow(slots, n, m - 1);
      MarkMissing(slots, n, m);
    }
  }

  lemma {:induction false} QueueFrame(slots: seq<Slot>, n: nat, t: seq<Slot>, k: nat, m: u64)
    requires n <= |slots| && k <= |t|
    requires forall q: u64 :: 1 <= q <= m ==> Entry(slots, n, q) == Entry(t, k, q)
    ensures Queue(slots, n, m) == Queue(t, k, m)
  {
    hide Entry;
    if m > 0 { QueueFrame(slots, n, t, k, m - 1); }
  }

  /** Every span in the queue is in a slot. */
  lemma {:induction false} QueueMembers(slots: seq<Slot>, n: nat, m: u64, e: Raw)
    requires n <= |slots| && e in Queue(slots, n, m)
    ensures exists i :: 0 <= i < n && 1 <= slots[i].mark <= m && slots[i].raw == e
  {
    if m > 0 {
      if e in Queue(slots, n, m - 1) {
        QueueMembers(slots, n, m - 1, e);
      } else {
        var r := FindMark(slots, n, m);
        assert r < n && slots[r].mark == m && slots[r].raw == e;
      }
    }
  }

  // ---- Operations on queues ----

  function SpanId(r: Raw): u64 {
    if |r| >= ATTRS then RawId(r) else 0
  }

  predicate HasId(q: seq<Raw>, id: u64) {
    exists k :: 0 <= k < |q| && SpanId(q[k]) == id
  }

  predicate DistinctIds(q: seq<Raw>) {
    forall i, j :: 0 <= i < j < |q| ==> SpanId(q[i]) != SpanId(q[j])
  }

  function RemoveId(q: seq<Raw>, id: u64): (r: seq<Raw>)
    ensures forall e :: e in r <==> e in q && SpanId(e) != id
    ensures |r| <= |q|
  {
    if q == [] then []
    else
      var front, last := q[..|q| - 1], q[|q| - 1];
      assert q == front + [last];
      RemoveId(front, id) + if SpanId(last) == id then [] else [last]
  }

  lemma RemoveIdConcat(q: seq<Raw>, e: seq<Raw>, id: u64)
    requires |e| <= 1
    ensures RemoveId(q + e, id) == RemoveId(q, id) + RemoveId(e, id)
  {
    hide SpanId;
    if e == [] {
      assert q + e == q;
    } else {
      assert (q + e)[..|q|] == q && (q + e)[|q|] == e[0];
      assert e[..0] == [];
    }
  }

  lemma EntryShort(slots: seq<Slot>, n: nat, m: u64)
    requires n <= |slots|
    ensures |Entry(slots, n, m)| <= 1
  {
  }

  /** If each mark's entry loses the spans with `id`, so does the queue. */
  lemma {:induction false} QueueRemove(slots: seq<Slot>, n: nat, t: seq<Slot>, k: nat, m: u64, id: u64)
    requires n <= |slots| && k <= |t|
    requires forall q: u64 :: 1 <= q <= m ==> Entry(t, k, q) == RemoveId(Entry(slots, n, q), id)
    ensures Queue(t, k, m) == RemoveId(Queue(slots, n, m), id)
  {
    hide Entry, SpanId;
    if m > 0 {
      QueueRemove(slots, n, t, k, m - 1, id);
      EntryShort(slots, n, m);
      RemoveIdConcat(Queue(slots, n, m - 1), Entry(slots, n, m), id);
    }
  }

  /** Removing the head of a queue with distinct ids by its id drops the head. */
  lemma {:induction false} RemoveHead(q: seq<Raw>)
    requires |q| > 0 && DistinctIds(q)
    ensures RemoveId(q, SpanId(q[0])) == q[1..]
  {
    hide SpanId;
    var front := q[..|q| - 1];
    if |q| > 1 {
      RemoveHead(front);
      assert q[1..] == front[1..] + [q[|q| - 1]];
    } else {
      assert front == [] && RemoveId(front, SpanId(q[0])) == [];
    }
  }

  /** The queue has distinct ids when the slots do. */
  lemma {:induction false} QueueDistinctIds(slots: seq<Slot>, n: nat, m: u64)
    requires n <= |slots|
    requires forall i, j :: 0 <= i < j < n ==> SpanId(slots[i].raw) != SpanId(slots[j].raw)
    ensures DistinctIds(Queue(slots, n, m))
  {
    hide SpanId, FindMark, Entry;
    if m > 0 {
      QueueDistinctIds(slots, n, m - 1);
      EntryShort(slots, n, m);
      if Entry(slots, n, m) != [] {
        EntryIdIsNew(slots, n, m);
        var q := Queue(slots, n, m - 1);
        assert forall k :: 0 <= k < |q| ==> q[k] in q;
      }
    }
  }

  lemma EntrySlot(slots: seq<Slot>, n: nat, m: u64) returns (r: nat)
    requires n <= |slots| && Entry(slots, n, m) != []
    ensures r < n && slots[r].mark == m && Entry(slots, n, m) == [slots[r].raw]
  {
    r := FindMark(slots, n, m);
  }

  lemma EntryIdIsNew(slots: seq<Slot>, n: nat, m: u64)
    requires n <= |slots| && m > 0 && Entry(slots, n, m) != []
    requires forall i, j :: 0 <= i < j < n ==> SpanId(slots[i].raw) != SpanId(slots[j].raw)
    ensures forall e :: e in Queue(slots, n, m - 1) ==> SpanId(e) != SpanId(Entry(slots, n, m)[0])
  {
    hide SpanId, FindMark, Queue, Entry;
    var r := EntrySlot(slots, n, m);
    forall e | e in Queue(slots, n, m - 1) ensures SpanId(e) != SpanId(slots[r].raw) {
      QueueMembers(slots, n, m - 1, e);
      var i :| 0 <= i < n && 1 <= slots[i].mark <= m - 1 && slots[i].raw == e;
      assert i < r || r < i;
    }
  }

  /** The span with the least mark is the head of the queue. */
  lemma {:induction false} OldestIsHead(slots: seq<Slot>, n: nat, v: nat, m: u64)
    requires v < n <= |slots| && DistinctMarks(slots, n)
    requires forall i :: 0 <= i < n ==> 1 <= slots[v].mark <= slots[i].mark
    requires slots[v].mark <= m
    ensures |Queue(slots, n, m)| > 0 && Queue(slots, n, m)[0] == slots[v].raw
  {
    hide Entry, DistinctMarks;
    if m == slots[v].mark {
      NoneBelow(slots, n, m - 1);
      MarkFound(slots, n, v);
    } else {
      OldestIsHead(slots, n, v, m - 1);
    }
  }
}
