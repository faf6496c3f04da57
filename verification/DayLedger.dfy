/** The durable ledger: day partitions clustered newest-first, the point-lookup
    table, the head row, and the partition scan. */
module DayLedger {
  import opened Wrappers
  import opened Sorting

  const DAY_NS := 86_400_000_000_000

  /** One row: its clustering key and the stored record. */
  datatype Row<T> = Row(ts: int, txn: string, rec: T)

  /** The day a timestamp is filed under: any monotone numbering that a shift by
      whole days shifts along. */
  type Calendar = int -> int

  ghost predicate Monotone(day: Calendar) {
    forall a, b :: a <= b ==> day(a) <= day(b)
  }

  ghost predicate ShiftsByDays(day: Calendar, now: int, days: nat) {
    forall d :: 0 <= d < days ==> day(now - d * DAY_NS) == day(now) - d
  }

  /** Counting whole UTC days since the epoch is such a numbering. */
  lemma UtcDaysAreACalendar(now: int, days: nat)
    ensures DAY_NS == 24 * 60 * 60 * 1_000_000_000
    ensures Monotone(ts => ts / DAY_NS) && ShiftsByDays(ts => ts / DAY_NS, now, days)
  {
  }

  // ---- clustering order: timestamp descending, then txn_id ascending ----

  predicate TextLess(a: string, b: string) {
    b != "" && (a == "" || a[0] < b[0] || (a[0] == b[0] && TextLess(a[1..], b[1..])))
  }

  lemma {:induction false} TextLessTrans(a: string, b: string, c: string)
    requires TextLess(a, b) && TextLess(b, c)
    ensures TextLess(a, c)
  {
    if a != "" && a[0] == b[0] == c[0] { TextLessTrans(a[1..], b[1..], c[1..]); }
  }

  lemma {:induction false} TextLessTotal(a: string, b: string)
    ensures a == b || TextLess(a, b) || TextLess(b, a)
    ensures !(TextLess(a, b) && TextLess(b, a)) && !TextLess(a, a)
  {
    if a != "" && b != "" {
      TextLessTotal(a[1..], b[1..]);
      TextLessTotal(a[1..], a[1..]);
      assert a == [a[0]] + a[1..] && b == [b[0]] + b[1..];
    } else if a != "" {
      TextLessTotal(a[1..], a[1..]);
    }
  }

  // up to k the texts agree, and there a ends or has the smaller character
  ghost predicate SmallerAt(a: string, b: string, k: nat) {
    k <= |a| && k < |b| && a[..k] == b[..k] && (k == |a| || a[k] < b[k])
  }

  /** The order of texts is the lexicographic one. */
  lemma {:induction false} TextLessMeans(a: string, b: string)
    ensures TextLess(a, b) <==> exists k: nat :: SmallerAt(a, b, k)
  {
    if b != "" {
      if a == "" || a[0] < b[0] {
        assert SmallerAt(a, b, 0);
      } else if a[0] == b[0] {
        TextLessMeans(a[1..], b[1..]);
        SmallerLater(a, b);
      } else {
        forall k: nat
          ensures !SmallerAt(a, b, k)
        {
          if 0 < k <= |a| && k < |b| { assert a[..k][0] == a[0] && b[..k][0] == b[0]; }
        }
      }
    }
  }

  lemma SmallerLater(a: string, b: string)
    requires a != "" && b != "" && a[0] == b[0]
    ensures (exists k: nat :: SmallerAt(a, b, k)) <==> exists k: nat :: SmallerAt(a[1..], b[1..], k)
  {
    if k: nat :| SmallerAt(a, b, k) {
      assert k > 0 && a[1..][..k - 1] == a[..k][1..] && b[1..][..k - 1] == b[..k][1..];
      assert SmallerAt(a[1..], b[1..], k - 1);
    }
    if k: nat :| SmallerAt(a[1..], b[1..], k) {
      assert a[..k + 1] == [a[0]] + a[1..][..k] && b[..k + 1] == [b[0]] + b[1..][..k];
      assert SmallerAt(a, b, k + 1);
    }
  }

  /** Newest first; rows of one time in the order of their ids. */
  predicate Before<T>(x: Row<T>, y: Row<T>) {
    x.ts > y.ts || (x.ts == y.ts && TextLess(x.txn, y.txn))
  }

  predicate SameKey<T>(x: Row<T>, y: Row<T>) {
    x.ts == y.ts && x.txn == y.txn
  }

  lemma BeforeTrans<T>(x: Row<T>, y: Row<T>, z: Row<T>)
    requires Before(x, y) && Before(y, z)
    ensures Before(x, z)
  {
    if x.ts == y.ts == z.ts { TextLessTrans(x.txn, y.txn, z.txn); }
  }

  lemma BeforeTotal<T>(x: Row<T>, y: Row<T>)
    ensures SameKey(x, y) || Before(x, y) || Before(y, x)
    ensures !(Before(x, y) && Before(y, x)) && (SameKey(x, y) ==> !Before(x, y))
  {
    TextLessTotal(x.txn, y.txn);
  }

  // strictly ordered: one row per key
  ghost predicate Clustered<T>(rows: seq<Row<T>>) {
    forall i, j :: 0 <= i < j < |rows| ==> Before(rows[i], rows[j])
  }

  // ---- writing ----

  /** Insert a row at its place; a row with the same key is overwritten. */
  function Upsert<T>(rows: seq<Row<T>>, r: Row<T>): seq<Row<T>> {
    if rows == [] || Before(r, rows[0]) then [r] + rows
    else if SameKey(r, rows[0]) then [r] + rows[1..]
    else [rows[0]] + Upsert(rows[1..], r)
  }

  lemma ConsClustered<T>(r: Row<T>, rows: seq<Row<T>>)
    requires Clustered(rows) && (rows != [] ==> Before(r, rows[0]))
    ensures Clustered([r] + rows)
  {
    forall j | 0 <= j < |rows|
      ensures Before(r, rows[j])
    {
      if j > 0 { BeforeTrans(r, rows[0], rows[j]); }
    }
  }

  lemma TailClustered<T>(rows: seq<Row<T>>)
    requires rows != [] && Clustered(rows)
    ensures Clustered(rows[1..]) && (|rows| > 1 ==> Before(rows[0], rows[1]))
  {
  }

  lemma {:induction false} UpsertClustered<T>(rows: seq<Row<T>>, r: Row<T>)
    requires Clustered(rows)
    ensures Clustered(Upsert(rows, r))
  {
    if rows == [] || Before(r, rows[0]) {
      ConsClustered(r, rows);
    } else {
      var first, rest := rows[0], rows[1..];
      TailClustered(rows);
      if SameKey(r, first) {
        ConsClustered(r, rest);
      } else {
        UpsertClustered(rest, r);
        BeforeTotal(r, first);
        ConsClustered(first, Upsert(rest, r));
      }
    }
  }

  /** Exactly the new row and the rows with other keys remain. */
  lemma {:induction false} UpsertContents<T>(rows: seq<Row<T>>, r: Row<T>, x: Row<T>)
    requires Clustered(rows)
    ensures x in Upsert(rows, r) <==> x == r || (x in rows && !SameKey(x, r))
  {
    if rows == [] {
    } else {
      var first, rest := rows[0], rows[1..];
      assert rows == [first] + rest;
      TailClustered(rows);
      if Before(r, first) {
        if x in rows { FirstIsLeast(rows, x); BeforeTotal(r, x); if x != first { BeforeTrans(r, first, x); } }
      } else if SameKey(r, first) {
        if x in rest { assert x in rows; RestIsLater(rows, x); BeforeTotal(first, x); }
      } else {
        UpsertContents(rest, r, x);
        BeforeTotal(r, first);
      }
    }
  }

  lemma FirstIsLeast<T>(rows: seq<Row<T>>, x: Row<T>)
    requires Clustered(rows) && x in rows
    ensures x == rows[0] || Before(rows[0], x)
  {
    var i :| 0 <= i < |rows| && rows[i] == x;
  }

  lemma RestIsLater<T>(rows: seq<Row<T>>, x: Row<T>)
    requires Clustered(rows) && rows != [] && x in rows[1..]
    ensures Before(rows[0], x)
  {
    var i :| 0 <= i < |rows[1..]| && rows[1..][i] == x;
    assert rows[i + 1] == x;
  }

  type Table<T> = map<int, seq<Row<T>>>

  function Part<T>(table: Table<T>, bucket: int): seq<Row<T>> {
    if bucket in table then table[bucket] else []
  }

  // every partition is clustered and holds rows of its own day only
  ghost predicate Filed<T>(table: Table<T>, day: Calendar) {
    forall b :: b in table ==> Clustered(table[b]) && forall i :: 0 <= i < |table[b]| ==> day(table[b][i].ts) == b
  }

  function File<T>(table: Table<T>, day: Calendar, r: Row<T>): Table<T> {
    table[day(r.ts) := Upsert(Part(table, day(r.ts)), r)]
  }

  lemma FileKeepsFiled<T>(table: Table<T>, day: Calendar, r: Row<T>)
    requires Filed(table, day)
    ensures Filed(File(table, day, r), day)
  {
    var b := day(r.ts);
    var rows := Part(table, b);
    UpsertClustered(rows, r);
    var up := Upsert(rows, r);
    forall i | 0 <= i < |up|
      ensures day(up[i].ts) == b
    {
      UpsertContents(rows, r, up[i]);
      assert up[i] in up;
    }
  }

  // ---- writing a transaction again ----

  ghost predicate InTable<T>(table: Table<T>, day: Calendar, x: Row<T>) {
    x in Part(table, day(x.ts))
  }

  /** After filing r the table holds r and the rows with other keys. */
  lemma FileContents<T>(table: Table<T>, day: Calendar, r: Row<T>, x: Row<T>)
    requires Filed(table, day)
    ensures InTable(File(table, day, r), day, x) <==> x == r || (InTable(table, day, x) && !SameKey(x, r))
  {
    if day(x.ts) == day(r.ts) { UpsertContents(Part(table, day(r.ts)), r, x); }
  }

  /** Writing a transaction again with another record: the new row is there,
      and the old row is gone exactly when both carry one timestamp. */
  lemma RewriteReplaces<T>(table: Table<T>, day: Calendar, r: Row<T>, r': Row<T>)
    requires Filed(table, day) && r.txn == r'.txn && r != r'
    ensures var after := File(File(table, day, r), day, r');
            InTable(after, day, r') && (InTable(after, day, r) <==> r.ts != r'.ts)
  {
    FileKeepsFiled(table, day, r);
    var once := File(table, day, r);
    FileContents(table, day, r, r);
    FileContents(once, day, r', r);
    FileContents(once, day, r', r');
  }

  lemma {:induction false} UpsertOver<T>(rows: seq<Row<T>>, r: Row<T>, r': Row<T>)
    requires Clustered(rows) && SameKey(r, r')
    ensures Upsert(Upsert(rows, r), r') == Upsert(rows, r')
  {
    BeforeTotal(r, r');
    BeforeTotal(r', r');
    if rows != [] {
      TailClustered(rows);
      if !Before(r, rows[0]) && !SameKey(r, rows[0]) { UpsertOver(rows[1..], r, r'); }
    }
  }

  lemma {:induction false} UpsertPresent<T>(rows: seq<Row<T>>, r: Row<T>)
    requires Clustered(rows) && r in rows
    ensures Upsert(rows, r) == rows
  {
    FirstIsLeast(rows, r);
    BeforeTotal(r, rows[0]);
    if r != rows[0] {
      assert r in rows[1..];
      TailClustered(rows);
      UpsertPresent(rows[1..], r);
    }
  }

  /** So the partition table forgets the first of two writes of a transaction
      exactly when they carry one timestamp, or it held that row before. */
  lemma WriteIdempotentIff<T>(table: Table<T>, day: Calendar, r: Row<T>, r': Row<T>)
    requires Filed(table, day) && r.txn == r'.txn
    ensures SameRows(File(File(table, day, r), day, r'), File(table, day, r'))
            <==> r.ts == r'.ts || InTable(table, day, r)
  {
    var twice, once := File(File(table, day, r), day, r'), File(table, day, r');
    if r.ts == r'.ts {
      UpsertOver(Part(table, day(r.ts)), r, r');
    } else if InTable(table, day, r) {
      UpsertPresent(Part(table, day(r.ts)), r);
    } else {
      RewriteReplaces(table, day, r, r');
      FileContents(table, day, r', r);
      assert Part(twice, day(r.ts)) != Part(once, day(r.ts));
    }
  }

  // equal partitions, an absent one counting as empty
  ghost predicate SameRows<T>(a: Table<T>, b: Table<T>) {
    forall d :: Part(a, d) == Part(b, d)
  }

  // ---- the scan ----

  function First<T>(rows: seq<T>, n: nat): (r: seq<T>)
    ensures |r| == if |rows| <= n then |rows| else n
  {
    if |rows| <= n then rows else rows[..n]
  }

  /** All rows of k day partitions, today's first. */
  function Window<T>(table: Table<T>, today: int, k: nat): seq<Row<T>> {
    if k == 0 then [] else Window(table, today, k - 1) + Part(table, today - (k - 1))
  }

  lemma {:induction false} WindowDays<T>(table: Table<T>, day: Calendar, today: int, k: nat, i: nat)
    requires Filed(table, day) && i < |Window(table, today, k)|
    ensures today - k < day(Window(table, today, k)[i].ts) <= today
  {
    var front := Window(table, today, k - 1);
    if i < |front| { WindowDays(table, day, today, k - 1, i); }
  }

  /** The partitions, read newest day first, are one strictly ordered list. */
  lemma {:induction false} WindowClustered<T>(table: Table<T>, day: Calendar, today: int, k: nat)
    requires Monotone(day) && Filed(table, day)
    ensures Clustered(Window(table, today, k))
  {
    if k > 0 {
      var front, part := Window(table, today, k - 1), Part(table, today - (k - 1));
      WindowClustered(table, day, today, k - 1);
      var all := front + part;
      forall i, j | 0 <= i < j < |all|
        ensures Before(all[i], all[j])
      {
        if i < |front| <= j {
          WindowDays(table, day, today, k - 1, i);
          assert day(part[j - |front|].ts) == today - (k - 1);
          assert day(all[j].ts) < day(all[i].ts);
        } else if i >= |front| {
          assert Before(part[i - |front|], part[j - |front|]);
        }
      }
    }
  }

  // newest-first by timestamp: the library's stable descending sort
  function NewestFirst<T>(rows: seq<Row<T>>): seq<Row<T>> {
    SortBy(rows, (r: Row<T>) => -r.ts)
  }

  lemma ClusteredIsSorted<T>(rows: seq<Row<T>>)
    requires Clustered(rows)
    ensures NewestFirst(rows) == rows
  {
    forall i, j | 0 <= i < j < |rows|
      ensures -rows[i].ts <= -rows[j].ts
    {
      assert Before(rows[i], rows[j]);
    }
    SortIdentity(rows, (r: Row<T>) => -r.ts);
  }

  lemma {:induction false} WindowGrows<T>(table: Table<T>, today: int, k: nat, m: nat)
    requires k <= m
    ensures |Window(table, today, k)| <= |Window(table, today, m)|
    ensures Window(table, today, k) == Window(table, today, m)[..|Window(table, today, k)|]
  {
    if k < m { WindowGrows(table, today, k, m - 1); }
  }

  // rows already beyond the limit decide the answer
  lemma FirstOfLonger<T>(a: seq<T>, b: seq<T>, n: nat)
    requires |a| <= |b| && a == b[..|a|] && |a| >= n
    ensures First(a, n) == First(b, n)
  {
  }

  // a partition cut at the limit is as good as the whole partition
  lemma CutPart<T>(out: seq<T>, part: seq<T>, n: nat)
    ensures First(out + First(part, n), n) == First(out + part, n)
    ensures |out + First(part, n)| < n ==> First(part, n) == part
    ensures |out + First(part, n)| >= n ==> |out + part| >= n
  {
  }

  /** How many partitions are read: all of them, or those before the first
      query that fails. */
  function Reach(days: nat, failing: Option<nat>): nat {
    if failing.Some? && failing.value < days then failing.value else days
  }

  // the queries before the failing one succeed, and a failing one ends the scan
  lemma ReachIsFirstFailure(days: nat, failing: Option<nat>)
    ensures Reach(days, failing) <= days
    ensures forall d: nat :: d < Reach(days, failing) ==> failing != Some(d)
    ensures Reach(days, failing) < days ==> failing == Some(Reach(days, failing))
  {
  }

  /** The durable tier of one process. */
  class Ledger<T> {
    const day: Calendar
    var available: bool
    var byBucket: Table<T>
    var byTxn: map<string, Row<T>>
    var head: Option<(nat, string)>
    var writes: nat
    var writeErrors: nat
    ghost var saves: seq<(nat, string)>     // every head ever saved

    /** Rows lie in the partition of their day, and the head row holds the last
        head that was saved. */
    ghost predicate Valid()
      reads this
    {
      && Monotone(day) && Filed(byBucket, day)
      && head == if saves == [] then None else Some(saves[|saves| - 1])
    }

    constructor (day: Calendar)
      requires Monotone(day)
      ensures Valid() && this.day == day && available && byBucket == map[] && byTxn == map[] && head == None
      ensures writes == writeErrors == 0 && saves == []
    {
      this.day := day;
      available := true;
      byBucket, byTxn, head := map[], map[], None;
      writes, writeErrors := 0, 0;
      saves := [];
    }

    /** Write one record to both tables.  failing is the insert that fails: 0
        for the partition table, 1 for the lookup table. */
    method Write(r: Row<T>, failing: Option<nat>) returns (ok: bool)
      requires Valid()
      modifies this
      ensures Valid() && available == old(available) && head == old(head) && saves == old(saves)
      ensures ok <==> available && failing != Some(0) && failing != Some(1)
      ensures byBucket == if old(available) && failing != Some(0) then File(old(byBucket), day, r) else old(byBucket)
      ensures byTxn == if ok then old(byTxn)[r.txn := r] else old(byTxn)
      ensures writes == old(writes) + (if ok then 1 else 0)
      ensures writeErrors == old(writeErrors) + (if available && !ok then 1 else 0)
    {
      if !available {
        return false;
      }
      if failing == Some(0) {
        writeErrors := writeErrors + 1;
        return false;
      }
      FileKeepsFiled(byBucket, day, r);
      byBucket := File(byBucket, day, r);
      if failing == Some(1) {
        writeErrors := writeErrors + 1;
        return false;
      }
      byTxn := byTxn[r.txn := r];
      writes := writes + 1;
      ok := true;
    }

    method SaveHead(seqNo: nat, chain: string, failing: bool) returns (ok: bool)
      requires Valid()
      modifies this`head, this`saves
      ensures Valid() && (ok <==> available && !failing)
      ensures saves == if ok then old(saves) + [(seqNo, chain)] else old(saves)
    {
      if !available || failing {
        return false;
      }
      head := Some((seqNo, chain));
      saves := saves + [(seqNo, chain)];
      ok := true;
    }

    /** The last head that was saved, whenever one was and it can be read. */
    method LoadHead(failing: bool) returns (r: Option<(nat, string)>)
      requires Valid()
      ensures r.Some? <==> available && !failing && saves != []
      ensures r.Some? ==> r.value == saves[|saves| - 1]
    {
      r := if available && !failing then head else None;
    }

    /** The newest rows of the last `days` partitions.  A limit below one is not
        a valid query, and failing names the first query that fails otherwise. */
    method Recent(limit: int, days: nat, now: int, failing: Option<nat>) returns (r: seq<Row<T>>)
      requires Valid() && ShiftsByDays(day, now, days)
      ensures !available || limit <= 0 ==> r == []
      ensures available && limit > 0 ==>
                && |r| <= limit && r <= Window(byBucket, day(now), Reach(days, failing))
                && (|r| < limit ==> r == Window(byBucket, day(now), Reach(days, failing)))
    {
      if !available || limit <= 0 {
        return [];
      }
      var out := Scan(limit, days, now, failing);
      RecentAnswer(byBucket, day, day(now), Reach(days, failing), out, limit);
      r := First(NewestFirst(out), limit);
    }

    // read partitions, newest day first, until the limit is reached or a query fails
    method Scan(limit: nat, days: nat, now: int, failing: Option<nat>) returns (out: seq<Row<T>>)
      requires ShiftsByDays(day, now, days) && limit > 0
      ensures Collected(byBucket, day(now), Reach(days, failing), out, limit)
    {
      out := [];
      var d := 0;
      while d < days && failing != Some(d)
        invariant 0 <= d <= Reach(days, failing) && |out| < limit && out == Window(byBucket, day(now), d)
      {
        var bucket := day(now - d * DAY_NS);
        var rows := First(Part(byBucket, bucket), limit);
        CutPart(out, Part(byBucket, bucket), limit);
        out := out + rows;
        d := d + 1;
        if |out| >= limit {
          break;
        }
      }
      assert CollectedUpTo(byBucket, day(now), Reach(days, failing), out, limit, d);
    }
  }

  // d partitions were read in full, or the last of them only up to the limit
  ghost predicate CollectedUpTo<T>(table: Table<T>, today: int, reach: nat, out: seq<Row<T>>, limit: nat, d: nat) {
    && d <= reach
    && ((out == Window(table, today, d) && (d == reach || |out| >= limit))
        || (d > 0 && |out| >= limit && out == Window(table, today, d - 1) + First(Part(table, today - (d - 1)), limit)))
  }

  ghost predicate Collected<T>(table: Table<T>, today: int, reach: nat, out: seq<Row<T>>, limit: nat) {
    exists d: nat :: CollectedUpTo(table, today, reach, out, limit, d)
  }

  // the collected rows, sorted and cut, are the head of the whole window
  lemma RecentAnswer<T>(table: Table<T>, day: Calendar, today: int, reach: nat, out: seq<Row<T>>, limit: nat)
    requires Monotone(day) && Filed(table, day) && Collected(table, today, reach, out, limit)
    ensures First(NewestFirst(out), limit) == First(Window(table, today, reach), limit)
  {
    var d: nat :| CollectedUpTo(table, today, reach, out, limit, d);
    WindowGrows(table, today, d, reach);
    WindowClustered(table, day, today, d);
    if out != Window(table, today, d) {
      var front, part := Window(table, today, d - 1), Part(table, today - (d - 1));
      CutPart(front, part, limit);
      assert out == Window(table, today, d)[..|out|];
    }
    ClusteredIsSorted(out);
    if |Window(table, today, d)| >= limit {
      FirstOfLonger(Window(table, today, d), Window(table, today, reach), limit);
    }
  }

  /** The answer is the newest part of the window: every row left out comes
      after every row returned. */
  lemma RecentIsNewest<T>(table: Table<T>, day: Calendar, today: int, k: nat, limit: nat)
    requires Monotone(day) && Filed(table, day)
    ensures var all := Window(table, today, k);
            && |First(all, limit)| == (if |all| <= limit then |all| else limit)
            && (forall i, j :: 0 <= i < |First(all, limit)| <= j < |all| ==> Before(First(all, limit)[i], all[j]))
            && Clustered(First(all, limit))
  {
    WindowClustered(table, day, today, k);
  }

  /** A filed row is in the window exactly when its day is. */
  lemma {:induction false} WindowMembers<T>(table: Table<T>, day: Calendar, today: int, k: nat, r: Row<T>)
    requires Filed(table, day)
    ensures r in Window(table, today, k) <==> today - k < day(r.ts) <= today && r in Part(table, day(r.ts))
  {
    if k > 0 {
      WindowMembers(table, day, today, k - 1, r);
      var part := Part(table, today - (k - 1));
      if r in part {
        var i :| 0 <= i < |part| && part[i] == r;
        assert day(part[i].ts) == today - (k - 1);
      }
    }
  }
}
