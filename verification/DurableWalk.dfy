/** The chain check over the durable tier: rows of one honest run, scanned
    newest-first out of the day partitions and sorted back by number. */
module DurableWalk {
  import opened Records
  import opened ChainWalk
  import opened HonestRuns
  import opened Sorting
  import opened DayLedger

  // the partitions after writing rs one after the other
  function FileAll(day: Calendar, rs: seq<Row<Envelope>>): Table<Envelope> {
    if rs == [] then map[] else File(FileAll(day, rs[..|rs| - 1]), day, rs[|rs| - 1])
  }

  ghost predicate TimesAscend(rs: seq<Row<Envelope>>) {
    forall i, j :: 0 <= i < j < |rs| ==> rs[i].ts < rs[j].ts
  }

  // the rows filed under the k days up to today
  function InDays(day: Calendar, rs: seq<Row<Envelope>>, today: int, k: nat): seq<Row<Envelope>> {
    if rs == [] then [] else
      var front, last := InDays(day, rs[..|rs| - 1], today, k), rs[|rs| - 1];
      if today - k < day(last.ts) <= today then front + [last] else front
  }

  lemma {:induction false} FileAllContents(day: Calendar, rs: seq<Row<Envelope>>, b: int, i: nat)
    requires i < |Part(FileAll(day, rs), b)|
    ensures Filed(FileAll(day, rs), day)
    ensures Part(FileAll(day, rs), b)[i] in rs
  {
    FileAllFiled(day, rs);
    var front, last := rs[..|rs| - 1], rs[|rs| - 1];
    var x := Part(FileAll(day, rs), b)[i];
    FileAllFiled(day, front);
    if b == day(last.ts) {
      UpsertContents(Part(FileAll(day, front), b), last, x);
      assert x in Part(FileAll(day, rs), b);
      if x != last {
        var j :| 0 <= j < |Part(FileAll(day, front), b)| && Part(FileAll(day, front), b)[j] == x;
        FileAllContents(day, front, b, j);
      }
    } else {
      FileAllContents(day, front, b, i);
    }
  }

  lemma {:induction false} FileAllFiled(day: Calendar, rs: seq<Row<Envelope>>)
    ensures Filed(FileAll(day, rs), day)
  {
    if rs != [] {
      FileAllFiled(day, rs[..|rs| - 1]);
      FileKeepsFiled(FileAll(day, rs[..|rs| - 1]), day, rs[|rs| - 1]);
    }
  }

  // r is newer than everything written before
  ghost predicate Newest(rs: seq<Row<Envelope>>, r: Row<Envelope>) {
    forall i :: 0 <= i < |rs| ==> rs[i].ts < r.ts
  }

  // a newest row goes to the front of its partition, and later days are empty
  lemma NewestGoesFirst(day: Calendar, rs: seq<Row<Envelope>>, r: Row<Envelope>, b: int)
    requires Monotone(day) && Newest(rs, r)
    ensures b == day(r.ts) ==> Part(File(FileAll(day, rs), day, r), b) == [r] + Part(FileAll(day, rs), b)
    ensures b > day(r.ts) ==> Part(FileAll(day, rs), b) == []
  {
    var part := Part(FileAll(day, rs), b);
    if part != [] {
      FileAllContents(day, rs, b, 0);
      assert part[0].ts < r.ts;
      assert day(part[0].ts) == b && day(part[0].ts) <= day(r.ts);
    }
  }

  // t' is t with one more row r at the front of partition d
  ghost predicate Prepends(t: Table<Envelope>, t': Table<Envelope>, r: Row<Envelope>, d: int) {
    && Part(t', d) == [r] + Part(t, d)
    && (forall b :: b != d ==> Part(t', b) == Part(t, b))
    && (forall b :: b > d ==> Part(t, b) == [])
  }

  lemma NewestPrepends(day: Calendar, rs: seq<Row<Envelope>>, r: Row<Envelope>)
    requires Monotone(day) && Newest(rs, r)
    ensures Prepends(FileAll(day, rs), File(FileAll(day, rs), day, r), r, day(r.ts))
  {
    forall b
      ensures b == day(r.ts) ==> Part(File(FileAll(day, rs), day, r), b) == [r] + Part(FileAll(day, rs), b)
      ensures b > day(r.ts) ==> Part(FileAll(day, rs), b) == []
    {
      NewestGoesFirst(day, rs, r, b);
    }
  }

  lemma {:induction false} LaterDaysEmpty(t: Table<Envelope>, t': Table<Envelope>, r: Row<Envelope>, d: int,
                                          today: int, k: nat)
    requires Prepends(t, t', r, d) && today - k >= d
    ensures Window(t, today, k) == [] && Window(t', today, k) == []
  {
    if k > 0 {
      LaterDaysEmpty(t, t', r, d, today, k - 1);
      assert Part(t', today - (k - 1)) == Part(t, today - (k - 1)) == [];
    }
  }

  // the window does not reach partition d
  lemma {:induction false} WindowMisses(t: Table<Envelope>, t': Table<Envelope>, r: Row<Envelope>, d: int,
                                        today: int, k: nat)
    requires Prepends(t, t', r, d) && !(today - k < d <= today)
    ensures Window(t', today, k) == Window(t, today, k)
  {
    if k > 0 {
      WindowMisses(t, t', r, d, today, k - 1);
      assert Part(t', today - (k - 1)) == Part(t, today - (k - 1));
    }
  }

  lemma {:induction false} WindowReaches(t: Table<Envelope>, t': Table<Envelope>, r: Row<Envelope>, d: int,
                                         today: int, k: nat)
    requires Prepends(t, t', r, d) && today - k < d <= today
    ensures Window(t', today, k) == [r] + Window(t, today, k)
  {
    var b := today - (k - 1);
    if b == d {
      LaterDaysEmpty(t, t', r, d, today, k - 1);
      OntoEmpty(r, Part(t, b));
    } else {
      WindowReaches(t, t', r, d, today, k - 1);
      OneMoreDay(t, t', r, today, k);
    }
  }

  // an older day behind the new row
  lemma OneMoreDay(t: Table<Envelope>, t': Table<Envelope>, r: Row<Envelope>, today: int, k: nat)
    requires k > 0 && Part(t', today - (k - 1)) == Part(t, today - (k - 1))
    requires Window(t', today, k - 1) == [r] + Window(t, today, k - 1)
    ensures Window(t', today, k) == [r] + Window(t, today, k)
  {
    Regroup(r, Window(t, today, k - 1), Part(t, today - (k - 1)));
  }

  lemma OntoEmpty<T>(x: T, a: seq<T>)
    ensures [] + ([x] + a) == [x] + ([] + a)
  {
  }

  lemma Regroup<T>(x: T, a: seq<T>, b: seq<T>)
    ensures ([x] + a) + b == [x] + (a + b)
  {
  }

  /** Rows written with ascending times come back from the window in reverse. */
  lemma {:induction false} WindowIsReversed(day: Calendar, rs: seq<Row<Envelope>>, today: int, k: nat)
    requires Monotone(day) && TimesAscend(rs)
    ensures Window(FileAll(day, rs), today, k) == Rev(InDays(day, rs, today, k))
  {
    if rs == [] {
      NoRows(day, today, k);
    } else {
      var front, last := rs[..|rs| - 1], rs[|rs| - 1];
      WindowIsReversed(day, front, today, k);
      NewestPrepends(day, front, last);
      if today - k < day(last.ts) <= today {
        WindowReaches(FileAll(day, front), FileAll(day, rs), last, day(last.ts), today, k);
      } else {
        WindowMisses(FileAll(day, front), FileAll(day, rs), last, day(last.ts), today, k);
      }
      RevSnoc(InDays(day, front, today, k), last);
    }
  }

  lemma RevSnoc<T>(s: seq<T>, x: T)
    ensures Rev(s + [x]) == [x] + Rev(s)
  {
  }

  lemma {:induction false} NoRows(day: Calendar, today: int, k: nat)
    ensures Window(FileAll(day, []), today, k) == []
  {
    if k > 0 { NoRows(day, today, k - 1); }
  }

  // the rows filed under days up to d, counted from the oldest
  function CountUpTo(day: Calendar, rs: seq<Row<Envelope>>, d: int): (n: nat)
    ensures n <= |rs|
  {
    if rs == [] then 0 else CountUpTo(day, rs[..|rs| - 1], d) + if day(rs[|rs| - 1].ts) <= d then 1 else 0
  }

  // the day numbers ascend along a run with ascending times
  lemma FrontDays(day: Calendar, rs: seq<Row<Envelope>>)
    requires Monotone(day) && TimesAscend(rs) && rs != []
    ensures TimesAscend(rs[..|rs| - 1])
    ensures var front, last := rs[..|rs| - 1], rs[|rs| - 1];
            forall i :: 0 <= i < |front| ==> day(front[i].ts) <= day(last.ts)
  {
  }

  lemma {:induction false} CountAll(day: Calendar, rs: seq<Row<Envelope>>, d: int)
    requires forall i :: 0 <= i < |rs| ==> day(rs[i].ts) <= d
    ensures CountUpTo(day, rs, d) == |rs|
  {
    if rs != [] { CountAll(day, rs[..|rs| - 1], d); }
  }

  lemma CountSnoc(day: Calendar, rs: seq<Row<Envelope>>, d: int)
    requires Monotone(day) && TimesAscend(rs) && rs != [] && day(rs[|rs| - 1].ts) <= d
    ensures CountUpTo(day, rs, d) == |rs| && CountUpTo(day, rs[..|rs| - 1], d) == |rs| - 1
  {
    FrontDays(day, rs);
    CountAll(day, rs[..|rs| - 1], d);
  }

  // a longer range of days does not hold fewer rows
  lemma {:induction false} CountGrows(day: Calendar, rs: seq<Row<Envelope>>, d: int, d': int)
    requires d <= d'
    ensures CountUpTo(day, rs, d) <= CountUpTo(day, rs, d')
  {
    if rs != [] { CountGrows(day, rs[..|rs| - 1], d, d'); }
  }

  // the rows of a day range are one slice of a run with ascending times
  lemma {:induction false} InDaysIsSlice(day: Calendar, rs: seq<Row<Envelope>>, today: int, k: nat)
    requires Monotone(day) && TimesAscend(rs)
    ensures CountUpTo(day, rs, today - k) <= CountUpTo(day, rs, today)
    ensures InDays(day, rs, today, k) == rs[CountUpTo(day, rs, today - k)..CountUpTo(day, rs, today)]
  {
    CountGrows(day, rs, today - k, today);
    if rs != [] {
      var front, last := rs[..|rs| - 1], rs[|rs| - 1];
      FrontDays(day, rs);
      InDaysIsSlice(day, front, today, k);
      var lo, hi := CountUpTo(day, front, today - k), CountUpTo(day, front, today);
      SliceSnoc(rs, lo, hi);
      if day(last.ts) <= today - k {
        CountSnoc(day, rs, today);
        CountSnoc(day, rs, today - k);
      } else if day(last.ts) <= today {
        CountSnoc(day, rs, today);
      }
    }
  }

  lemma SliceSnoc<T>(s: seq<T>, lo: nat, hi: nat)
    requires s != [] && lo <= hi < |s|
    ensures s[..|s| - 1][lo..hi] == s[lo..hi]
    ensures hi == |s| - 1 ==> s[..|s| - 1][lo..hi] + [s[|s| - 1]] == s[lo..|s|]
    ensures lo == |s| - 1 ==> s[..|s| - 1][lo..hi] == s[|s|..|s|]
  {
  }

  function Recs(rows: seq<Row<Envelope>>): (es: seq<Envelope>)
    ensures |es| == |rows|
  {
    seq(|rows|, i requires 0 <= i < |rows| => rows[i].rec)
  }

  /** If the rows of an honest run were all written, with ascending times, the
      chain check over any durable scan of them is intact: any clock, any number
      of days read, any limit. */
  lemma DurableScanIntact(H: Hash, log: seq<Envelope>, head0: string, day: Calendar, rs: seq<Row<Envelope>>,
                          today: int, k: nat, limit: nat)
    requires HonestRun(H, log, head0) && Recs(rs) == log && Monotone(day) && TimesAscend(rs)
    ensures IntactChain(H, BySeq(Recs(First(Window(FileAll(day, rs), today, k), limit))))
  {
    WindowIsReversed(day, rs, today, k);
    InDaysIsSlice(day, rs, today, k);
    var hi := CountUpTo(day, rs, today);
    var from := CutReversed(rs, CountUpTo(day, rs, today - k), hi, limit);
    RecsReversed(rs, from, hi);
    RevMultiset(log[from..hi]);
    ShuffledSliceIntact(H, log, head0, from, hi, Rev(log[from..hi]));
  }

  // cutting a reversed slice keeps its newest part
  lemma CutReversed(rs: seq<Row<Envelope>>, lo: nat, hi: nat, limit: nat) returns (from: nat)
    requires lo <= hi <= |rs|
    ensures lo <= from <= hi && First(Rev(rs[lo..hi]), limit) == Rev(rs[from..hi])
  {
    from := hi - |First(Rev(rs[lo..hi]), limit)|;
  }

  lemma RecsReversed(rs: seq<Row<Envelope>>, from: nat, hi: nat)
    requires from <= hi <= |rs|
    ensures Recs(Rev(rs[from..hi])) == Rev(Recs(rs)[from..hi])
  {
  }
}
