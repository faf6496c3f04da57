/** Bounded buffers of the verifier process: the ring of received records and
    the table of verification reports. */
module Buffers {
  import opened Wrappers
  import opened Modular
  import opened Verifier

  /** What a caller asking for n elements gets: 0 means all, a negative number
      skips that many from the old end. */
  function Snapshot<T>(s: seq<T>, n: int): seq<T> {
    if n == 0 then s
    else if n > 0 then LastN(s, n)
    else if -n <= |s| then s[-n..]
    else []
  }

  /** The newest part of the buffer: everything for 0, at most n elements for a
      positive n, all but the -n oldest for a negative one. */
  lemma SnapshotIsNewest<T>(s: seq<T>, n: int)
    ensures var r := Snapshot(s, n);
            && |r| <= |s| && r == s[|s| - |r|..]
            && (n == 0 ==> |r| == |s|)
            && (n > 0 ==> |r| <= n && (|r| < n ==> |r| == |s|))
            && (n < 0 ==> (|r| + -n == |s| || (|r| == 0 && |s| <= -n)))
  {
  }

  class RingBuffer<T> {
    const maxlen: nat
    var buf: seq<T>
    ghost var pushed: seq<T>

    ghost predicate Valid()
      reads this
    {
      buf == LastN(pushed, maxlen)
    }

    constructor (maxlen: nat)
      ensures Valid() && pushed == [] && this.maxlen == maxlen
    {
      this.maxlen := maxlen;
      buf := [];
      pushed := [];
    }

    method Push(item: T)
      requires Valid()
      modifies this
      ensures Valid() && pushed == old(pushed) + [item]
    {
      assert LastN(LastN(pushed, maxlen) + [item], maxlen) == LastN(pushed + [item], maxlen);
      buf := buf + [item];
      if |buf| > maxlen {
        buf := buf[1..];
      }
      pushed := pushed + [item];
    }

    method Read(n: int) returns (r: seq<T>)
      requires Valid()
      ensures r == Snapshot(LastN(pushed, maxlen), n)
    {
      r := Snapshot(buf, n);
    }
  }

  // ---- retained reports ----

  /** One entry of the report table, in insertion order of its key. */
  datatype Entry = Entry(txn: string, report: Report)

  const REPORT_CAP := 5000
  const REPORT_PRUNE := 1000

  function Find(table: seq<Entry>, txn: string): (r: Option<nat>)
    ensures r.Some? ==> r.value < |table| && table[r.value].txn == txn
    ensures r.Some? ==> forall i :: r.value < i < |table| ==> table[i].txn != txn
    ensures r.None? <==> forall i :: 0 <= i < |table| ==> table[i].txn != txn
  {
    if table == [] then None
    else if table[|table| - 1].txn == txn then Some(|table| - 1)
    else Find(table[..|table| - 1], txn)
  }

  // store under the key's position, or at the end
  function Stored(table: seq<Entry>, e: Entry): seq<Entry> {
    var at := Find(table, e.txn);
    if at.Some? then table[at.value := e] else table + [e]
  }

  lemma StoredIsFound(table: seq<Entry>, e: Entry)
    ensures var after := Stored(table, e);
            Find(after, e.txn).Some? && after[Find(after, e.txn).value] == e
  {
    var at, after := Find(table, e.txn), Stored(table, e);
    assert after[if at.Some? then at.value else |table|] == e;
  }

  // above cap, drop the prune oldest keys first
  function Retain(table: seq<Entry>, e: Entry, cap: nat, prune: nat): seq<Entry>
    requires prune <= cap
  {
    Stored(if |table| > cap then table[prune..] else table, e)
  }

  function RetainAll(history: seq<Entry>, cap: nat, prune: nat): seq<Entry>
    requires prune <= cap
  {
    if history == [] then []
    else Retain(RetainAll(history[..|history| - 1], cap, prune), history[|history| - 1], cap, prune)
  }

  /** The table never holds more than cap + 1 reports, and the report just
      stored is the one found under its id. */
  lemma {:induction false} RetainBounds(history: seq<Entry>, cap: nat, prune: nat)
    requires 0 < prune <= cap
    ensures |RetainAll(history, cap, prune)| <= cap + 1
    ensures history != [] ==>
              var table, last := RetainAll(history, cap, prune), history[|history| - 1];
              Find(table, last.txn).Some? && table[Find(table, last.txn).value] == last
  {
    if history != [] {
      RetainBounds(history[..|history| - 1], cap, prune);
      var table, last := RetainAll(history, cap, prune), history[|history| - 1];
      var before := RetainAll(history[..|history| - 1], cap, prune);
      var kept := if |before| > cap then before[prune..] else before;
      StoredIsFound(kept, last);
    }
  }

  ghost predicate DistinctEntries(history: seq<Entry>) {
    forall i, j :: 0 <= i < j < |history| ==> history[i].txn != history[j].txn
  }

  // the last part of a history
  ghost predicate IsTail(table: seq<Entry>, history: seq<Entry>) {
    |table| <= |history| && table == history[|history| - |table|..]
  }

  lemma TailAppend(table: seq<Entry>, history: seq<Entry>, e: Entry)
    requires IsTail(table, history) && DistinctEntries(history + [e])
    ensures Find(table, e.txn).None? && IsTail(table + [e], history + [e])
  {
    var all := history + [e];
    forall i | 0 <= i < |table|
      ensures table[i].txn != e.txn
    {
      assert table[i] == all[|history| - |table| + i] && all[|history|] == e;
    }
  }

  lemma RetainTail(table: seq<Entry>, history: seq<Entry>, cap: nat, prune: nat)
    requires prune <= cap && history != [] && DistinctEntries(history) && IsTail(table, history[..|history| - 1])
    ensures IsTail(Retain(table, history[|history| - 1], cap, prune), history)
    ensures |Retain(table, history[|history| - 1], cap, prune)| == |table| + 1 - if |table| > cap then prune else 0
  {
    var front, e := history[..|history| - 1], history[|history| - 1];
    assert history == front + [e];
    if |table| > cap {
      assert IsTail(table[prune..], front);
      TailAppend(table[prune..], front, e);
    } else {
      TailAppend(table, front, e);
    }
  }

  /** With fresh ids the table is a tail of the history that always covers the
      newest cap - prune + 1 records. */
  lemma {:induction false} ReportsAreTail(history: seq<Entry>, cap: nat, prune: nat)
    requires prune <= cap && DistinctEntries(history)
    ensures IsTail(RetainAll(history, cap, prune), history)
    ensures |RetainAll(history, cap, prune)| >= if |history| <= cap - prune then |history| else cap - prune + 1
  {
    if history != [] {
      assert forall i :: 0 <= i < |history| - 1 ==> history[..|history| - 1][i] == history[i];
      ReportsAreTail(history[..|history| - 1], cap, prune);
      RetainTail(RetainAll(history[..|history| - 1], cap, prune), history, cap, prune);
    }
  }

  /** How many reports are retained for that many fresh ids: all of them up to
      cap + 1, then between cap - prune + 2 and cap + 1, in cycles of prune. */
  function Retained(n: nat, cap: nat, prune: nat): int
    requires 0 < prune <= cap
  {
    if n <= cap + 1 then n else cap - prune + 2 + (n - cap - 2) % prune
  }

  // the size after n fresh ids, one at a time
  function SizeAfter(n: nat, cap: nat, prune: nat): int {
    if n == 0 then 0 else
      var before := SizeAfter(n - 1, cap, prune);
      before + 1 - if before > cap then prune else 0
  }

  lemma {:induction false} RetainedSize(history: seq<Entry>, cap: nat, prune: nat)
    requires prune <= cap && DistinctEntries(history)
    ensures |RetainAll(history, cap, prune)| == SizeAfter(|history|, cap, prune)
  {
    if history != [] {
      FreshStep(history, cap, prune);
      RetainedSize(history[..|history| - 1], cap, prune);
    }
  }

  lemma {:induction false} SizeIsRetained(n: nat, cap: nat, prune: nat)
    requires 0 < prune <= cap
    ensures SizeAfter(n, cap, prune) == Retained(n, cap, prune)
  {
    if n > 0 {
      SizeIsRetained(n - 1, cap, prune);
      RetainedStep(n - 1, cap, prune);
    }
  }

  lemma RetainedExactly(history: seq<Entry>, cap: nat, prune: nat)
    requires 0 < prune <= cap && DistinctEntries(history)
    ensures |RetainAll(history, cap, prune)| == Retained(|history|, cap, prune)
  {
    RetainedSize(history, cap, prune);
    SizeIsRetained(|history|, cap, prune);
  }

  // one more report under a fresh id
  lemma FreshStep(history: seq<Entry>, cap: nat, prune: nat)
    requires prune <= cap && DistinctEntries(history) && history != []
    ensures DistinctEntries(history[..|history| - 1])
    ensures var before := |RetainAll(history[..|history| - 1], cap, prune)|;
            |RetainAll(history, cap, prune)| == before + 1 - if before > cap then prune else 0
  {
    var front := history[..|history| - 1];
    assert forall i :: 0 <= i < |front| ==> front[i] == history[i];
    ReportsAreTail(front, cap, prune);
    RetainTail(RetainAll(front, cap, prune), history, cap, prune);
  }

  /** The deployed table: every report up to 5001, and always the newest 4002. */
  lemma DeployedTable(history: seq<Entry>)
    requires DistinctEntries(history)
    ensures var table := RetainAll(history, REPORT_CAP, REPORT_PRUNE);
            && IsTail(table, history) && (|history| <= 5001 ==> table == history)
            && (|history| > 5001 ==> 4002 <= |table| <= 5001)
            && (|history| == 5002 ==> |table| == 4002)
  {
    ReportsAreTail(history, REPORT_CAP, REPORT_PRUNE);
    RetainedExactly(history, REPORT_CAP, REPORT_PRUNE);
  }

  lemma RetainedStep(n: nat, cap: nat, prune: nat)
    requires 0 < prune <= cap
    ensures Retained(n + 1, cap, prune)
         == Retained(n, cap, prune) + 1 - if Retained(n, cap, prune) > cap then prune else 0
  {
    if n > cap + 1 {
      NextInCycle(n - cap - 2, prune);
    } else if n == cap + 1 {
      ModUnique(0, 0, 0, prune);
    }
  }

  lemma NextInCycle(m: nat, prune: nat)
    requires prune > 0
    ensures (m + 1) % prune == if m % prune == prune - 1 then 0 else m % prune + 1
  {
    var d, r := m / prune, m % prune;
    assert m == d * prune + r;
    if r == prune - 1 {
      assert m + 1 == (d + 1) * prune;
      ModUnique(m + 1, d + 1, 0, prune);
    } else {
      ModUnique(m + 1, d, r + 1, prune);
    }
  }

  lemma LastOfTail(table: seq<Entry>, history: seq<Entry>, n: nat)
    requires IsTail(table, history) && (|table| == |history| || n <= |table|)
    ensures LastN(history, n) == LastN(table, n)
  {
  }

  /** Hence every record of a ring buffer of at most cap - prune + 1 records
      still has its report. */
  lemma ReportsCoverBuffer(history: seq<Entry>, cap: nat, prune: nat, window: nat)
    requires prune <= cap && DistinctEntries(history) && window <= cap - prune + 1
    ensures LastN(history, window) == LastN(RetainAll(history, cap, prune), window)
  {
    ReportsAreTail(history, cap, prune);
    LastOfTail(RetainAll(history, cap, prune), history, window);
  }
}
