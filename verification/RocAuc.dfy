/** The rank-based ROC AUC: sorting, tie-averaged ranks and a rank sum, proved
    equal to counting all pairs of a positive and a negative observation. */
module RocAuc {
  import opened Wrappers
  import Sorting

  // how much an observation b counts as lying below a: ties at half weight
  function Weight(a: real, b: real): real {
    if b < a then 1.0 else if b == a then 0.5 else 0.0
  }

  function Below(v: real, ys: seq<real>): real {
    if ys == [] then 0.0 else Below(v, ys[..|ys| - 1]) + Weight(v, ys[|ys| - 1])
  }

  /** The rank of v among ys, averaged over its tie group. */
  function MidRank(v: real, ys: seq<real>): real {
    Below(v, ys) + 0.5
  }

  // sum over vs of the weight below each of them in ys
  function PairScore(vs: seq<real>, ys: seq<real>): real {
    if vs == [] then 0.0 else PairScore(vs[..|vs| - 1], ys) + Below(vs[|vs| - 1], ys)
  }

  // ---- what the score counts ----

  function WinsOf(v: real, ys: seq<real>): nat {
    if ys == [] then 0 else WinsOf(v, ys[..|ys| - 1]) + if ys[|ys| - 1] < v then 1 else 0
  }

  function TiesOf(v: real, ys: seq<real>): nat {
    if ys == [] then 0 else TiesOf(v, ys[..|ys| - 1]) + if ys[|ys| - 1] == v then 1 else 0
  }

  /** Number of pairs with the positive above the negative, and of ties. */
  function Wins(pos: seq<real>, neg: seq<real>): nat {
    if pos == [] then 0 else Wins(pos[..|pos| - 1], neg) + WinsOf(pos[|pos| - 1], neg)
  }

  function Ties(pos: seq<real>, neg: seq<real>): nat {
    if pos == [] then 0 else Ties(pos[..|pos| - 1], neg) + TiesOf(pos[|pos| - 1], neg)
  }

  lemma {:induction false} BelowCounts(v: real, ys: seq<real>)
    ensures Below(v, ys) == WinsOf(v, ys) as real + TiesOf(v, ys) as real / 2.0
  {
    if ys != [] { BelowCounts(v, ys[..|ys| - 1]); }
  }

  lemma {:induction false} ScoreCounts(pos: seq<real>, neg: seq<real>)
    ensures PairScore(pos, neg) == Wins(pos, neg) as real + Ties(pos, neg) as real / 2.0
  {
    if pos != [] {
      ScoreCounts(pos[..|pos| - 1], neg);
      BelowCounts(pos[|pos| - 1], neg);
    }
  }

  // ---- algebra of the score ----

  lemma {:induction false} BelowConcat(v: real, a: seq<real>, b: seq<real>)
    ensures Below(v, a + b) == Below(v, a) + Below(v, b)
  {
    if b == [] {
      assert a + b == a;
    } else {
      BelowConcat(v, a, b[..|b| - 1]);
      assert (a + b)[..|a + b| - 1] == a + b[..|b| - 1];
    }
  }

  lemma {:induction false} ScoreConcatRight(vs: seq<real>, a: seq<real>, b: seq<real>)
    ensures PairScore(vs, a + b) == PairScore(vs, a) + PairScore(vs, b)
  {
    if vs != [] {
      ScoreConcatRight(vs[..|vs| - 1], a, b);
      BelowConcat(vs[|vs| - 1], a, b);
    }
  }

  lemma {:induction false} ScoreConcatLeft(a: seq<real>, b: seq<real>, ys: seq<real>)
    ensures PairScore(a + b, ys) == PairScore(a, ys) + PairScore(b, ys)
  {
    if b == [] {
      assert a + b == a;
    } else {
      ScoreConcatLeft(a, b[..|b| - 1], ys);
      assert (a + b)[..|a + b| - 1] == a + b[..|b| - 1];
    }
  }

  // one column: every pair is counted once from either side
  lemma {:induction false} ColumnComplement(vs: seq<real>, x: real)
    ensures PairScore(vs, [x]) + Below(x, vs) == |vs| as real
  {
    if vs != [] {
      var v := vs[|vs| - 1];
      ColumnComplement(vs[..|vs| - 1], x);
      assert [x][..0] == [];
      assert Below(v, [x]) == Weight(v, x);
      assert Weight(v, x) + Weight(x, v) == 1.0;
    }
  }

  /** Swapping the two sides complements the score. */
  lemma {:induction false} ScoreComplement(a: seq<real>, b: seq<real>)
    ensures PairScore(a, b) + PairScore(b, a) == (|a| * |b|) as real
  {
    if b == [] {
      NothingBelow(a);
      assert |a| * |b| == 0;
    } else {
      var front, x := b[..|b| - 1], b[|b| - 1];
      assert b == front + [x];
      ScoreComplement(a, front);
      ScoreConcatRight(a, front, [x]);
      ColumnComplement(a, x);
      assert |a| * |b| == |a| * |front| + |a|;
    }
  }

  lemma {:induction false} NothingBelow(vs: seq<real>)
    ensures PairScore(vs, []) == 0.0
  {
    if vs != [] { NothingBelow(vs[..|vs| - 1]); }
  }

  lemma SelfScore(s: seq<real>)
    ensures PairScore(s, s) == (|s| * |s|) as real / 2.0
  {
    ScoreComplement(s, s);
  }

  // ---- rank sums ----

  function SumOf(rs: seq<real>): real {
    if rs == [] then 0.0 else SumOf(rs[..|rs| - 1]) + rs[|rs| - 1]
  }

  function Ranks(vs: seq<real>, ys: seq<real>): (r: seq<real>)
    ensures |r| == |vs|
  {
    seq(|vs|, i requires 0 <= i < |vs| => MidRank(vs[i], ys))
  }

  lemma {:induction false} RankSum(vs: seq<real>, ys: seq<real>)
    ensures SumOf(Ranks(vs, ys)) == PairScore(vs, ys) + |vs| as real / 2.0
  {
    if vs != [] {
      RankSum(vs[..|vs| - 1], ys);
      assert Ranks(vs, ys)[..|vs| - 1] == Ranks(vs[..|vs| - 1], ys);
    }
  }

  /** The rank sum of the positives is the pair score plus n_pos(n_pos+1)/2. */
  lemma MannWhitney(neg: seq<real>, pos: seq<real>)
    ensures SumOf(Ranks(pos, neg + pos)) == PairScore(pos, neg) + (|pos| * (|pos| + 1)) as real / 2.0
  {
    RankSum(pos, neg + pos);
    ScoreConcatRight(pos, neg, pos);
    SelfScore(pos);
    assert |pos| * (|pos| + 1) == |pos| * |pos| + |pos|;
  }

  /** Tie averaging keeps the total rank sum n(n+1)/2. */
  lemma TotalRankSum(ys: seq<real>)
    ensures SumOf(Ranks(ys, ys)) == (|ys| * (|ys| + 1)) as real / 2.0
  {
    MannWhitney([], ys);
    NothingBelow(ys);
    assert [] + ys == ys;
  }

  // ---- sorting order ----

  function Iota(n: nat): (r: seq<nat>)
    ensures |r| == n
  {
    seq(n, i requires 0 <= i < n => i)
  }

  function Gather(y: seq<real>, order: seq<nat>): (r: seq<real>)
    requires forall p :: 0 <= p < |order| ==> order[p] < |y|
    ensures |r| == |order|
  {
    seq(|order|, p requires 0 <= p < |order| => y[order[p]])
  }

  ghost predicate Sorted(s: seq<real>) {
    forall p, q :: 0 <= p < q < |s| ==> s[p] <= s[q]
  }

  /** Any permutation of the indices that sorts the observations - the sort need
      not be stable. */
  ghost predicate SortingOrder(order: seq<nat>, y: seq<real>) {
    && |order| == |y| && multiset(order) == multiset(Iota(|y|))
    && (forall p :: 0 <= p < |order| ==> order[p] < |y|) && Sorted(Gather(y, order))
  }

  ghost predicate Injective(order: seq<nat>) {
    forall p, q :: 0 <= p < q < |order| ==> order[p] != order[q]
  }

  lemma {:induction false} DistinctMultiplicity(s: seq<nat>, k: nat)
    requires Injective(s)
    ensures multiset(s)[k] == if k in s then 1 else 0
  {
    if s != [] {
      var front, last := s[..|s| - 1], s[|s| - 1];
      assert s == front + [last];
      DistinctMultiplicity(front, k);
    }
  }

  // a permutation of the indices hits every index
  lemma OrderIsOnto(order: seq<nat>, k: nat)
    requires multiset(order) == multiset(Iota(|order|)) && k < |order|
    ensures k in order
  {
    assert Iota(|order|)[k] == k;
    assert k in multiset(Iota(|order|));
  }

  // and hits it once
  lemma OrderIsInjective(order: seq<nat>)
    requires multiset(order) == multiset(Iota(|order|))
    ensures Injective(order) && forall p :: 0 <= p < |order| ==> order[p] < |order|
  {
    var n := |order|;
    forall p | 0 <= p < n
      ensures order[p] in Iota(n)
    {
      assert order[p] in multiset(Iota(n));
    }
    forall p, q | 0 <= p < q < n
      ensures order[p] != order[q]
    {
      DistinctMultiplicity(Iota(n), order[p]);
      TwoCopies(order, p, q);
    }
  }

  lemma TwoCopies(s: seq<nat>, p: nat, q: nat)
    requires p < q < |s|
    ensures s[p] == s[q] ==> multiset(s)[s[p]] >= 2
  {
    Sorting.WithoutAt(s, q);
    if s[p] == s[q] { assert (s[..q] + s[q + 1..])[p] == s[p] && s[p] in multiset(s[..q] + s[q + 1..]); }
  }

  // taking one copy of a common element out of two permutations
  lemma RemoveCommon<T>(a: seq<T>, b: seq<T>, i: nat)
    requires a != [] && i < |b| && b[i] == a[|a| - 1] && multiset(a) == multiset(b)
    ensures multiset(a[..|a| - 1]) == multiset(b[..i] + b[i + 1..])
  {
    Sorting.WithoutAt(a, |a| - 1);
    Sorting.WithoutAt(b, i);
    assert a[..|a| - 1] + a[|a|..] == a[..|a| - 1];
  }

  // counting below v does not depend on the order of the observations
  lemma {:induction false} BelowPermuted(v: real, a: seq<real>, b: seq<real>)
    requires multiset(a) == multiset(b)
    ensures Below(v, a) == Below(v, b)
  {
    if a == [] {
      assert |multiset(b)| == 0;
    } else {
      var x := a[|a| - 1];
      assert x in multiset(b);
      var i :| 0 <= i < |b| && b[i] == x;
      RemoveCommon(a, b, i);
      assert b == b[..i] + [x] + b[i + 1..];
      BelowPermuted(v, a[..|a| - 1], b[..i] + b[i + 1..]);
      BelowConcat(v, b[..i] + [x], b[i + 1..]);
      BelowConcat(v, b[..i], [x]);
      BelowConcat(v, b[..i], b[i + 1..]);
      assert [x][..0] == [];
      assert Below(v, [x]) == Weight(v, x);
    }
  }

  lemma GatherPermutes(y: seq<real>, order: seq<nat>)
    requires SortingOrder(order, y)
    ensures multiset(Gather(y, order)) == multiset(y)
  {
    GatherMultiset(y, order, Iota(|y|));
    assert Gather(y, Iota(|y|)) == y;
  }

  lemma GatherConcat(y: seq<real>, a: seq<nat>, b: seq<nat>)
    requires (forall p :: 0 <= p < |a| ==> a[p] < |y|) && (forall p :: 0 <= p < |b| ==> b[p] < |y|)
    ensures Gather(y, a + b) == Gather(y, a) + Gather(y, b)
  {
  }

  lemma {:induction false} GatherMultiset(y: seq<real>, a: seq<nat>, b: seq<nat>)
    requires (forall p :: 0 <= p < |a| ==> a[p] < |y|) && (forall p :: 0 <= p < |b| ==> b[p] < |y|)
    requires multiset(a) == multiset(b)
    ensures multiset(Gather(y, a)) == multiset(Gather(y, b))
  {
    if a == [] {
      assert |multiset(b)| == 0;
    } else {
      var k := a[|a| - 1];
      assert k in multiset(b);
      var i :| 0 <= i < |b| && b[i] == k;
      RemoveCommon(a, b, i);
      GatherMultiset(y, a[..|a| - 1], b[..i] + b[i + 1..]);
      GatherAround(y, a, |a| - 1);
      GatherAround(y, b, i);
      assert a[..|a| - 1] + a[|a|..] == a[..|a| - 1];
    }
  }

  // taking out position i takes out its observation
  lemma GatherAround(y: seq<real>, s: seq<nat>, i: nat)
    requires (forall p :: 0 <= p < |s| ==> s[p] < |y|) && i < |s|
    ensures multiset(Gather(y, s)) == multiset(Gather(y, s[..i] + s[i + 1..])) + multiset{y[s[i]]}
  {
    assert s == s[..i] + [s[i]] + s[i + 1..];
    GatherSplit(y, s[..i], s[i], s[i + 1..]);
  }

  lemma GatherSplit(y: seq<real>, l: seq<nat>, k: nat, h: seq<nat>)
    requires (forall p :: 0 <= p < |l| ==> l[p] < |y|) && (forall p :: 0 <= p < |h| ==> h[p] < |y|) && k < |y|
    ensures multiset(Gather(y, l + [k] + h)) == multiset(Gather(y, l + h)) + multiset{y[k]}
  {
    GatherConcat(y, l + [k], h);
    GatherConcat(y, l, [k]);
    GatherConcat(y, l, h);
    assert Gather(y, [k]) == [y[k]];
  }

  // ---- one tie group of the sorted observations ----

  lemma {:induction false} AllLower(v: real, ys: seq<real>)
    requires forall i :: 0 <= i < |ys| ==> ys[i] < v
    ensures Below(v, ys) == |ys| as real
  {
    if ys != [] { AllLower(v, ys[..|ys| - 1]); }
  }

  lemma {:induction false} AllTied(v: real, ys: seq<real>)
    requires forall i :: 0 <= i < |ys| ==> ys[i] == v
    ensures Below(v, ys) == |ys| as real / 2.0
  {
    if ys != [] { AllTied(v, ys[..|ys| - 1]); }
  }

  lemma {:induction false} AllHigher(v: real, ys: seq<real>)
    requires forall i :: 0 <= i < |ys| ==> ys[i] > v
    ensures Below(v, ys) == 0.0
  {
    if ys != [] { AllHigher(v, ys[..|ys| - 1]); }
  }

  ghost predicate TieGroup(s: seq<real>, i: nat, j: nat) {
    && Sorted(s) && i <= j < |s| && s[i] == s[j]
    && (i > 0 ==> s[i - 1] < s[i]) && (j + 1 < |s| ==> s[j + 1] != s[i])
  }

  lemma GroupEqual(s: seq<real>, i: nat, j: nat, p: nat)
    requires TieGroup(s, i, j) && p < |s|
    ensures p < i ==> s[p] < s[i]
    ensures i <= p <= j ==> s[p] == s[i]
    ensures j < p ==> s[p] > s[i]
  {
    if p < i - 1 { assert s[p] <= s[i - 1]; }
    if i < p < j { assert s[i] <= s[p] <= s[j]; }
    if j + 1 < p { assert s[j] <= s[j + 1] <= s[p]; }
    if j + 1 < |s| { assert s[j] <= s[j + 1]; }
  }

  /** The members i..j of a maximal tie group share the mean rank (i+j+2)/2. */
  lemma GroupRank(s: seq<real>, i: nat, j: nat)
    requires TieGroup(s, i, j)
    ensures MidRank(s[i], s) == (i + j + 2) as real / 2.0
  {
    LowPart(s, i, j);
    TiedPart(s, i, j);
    HighPart(s, i, j);
    ThreeParts(s[i], s, i, j + 1);
  }

  lemma LowPart(s: seq<real>, i: nat, j: nat)
    requires TieGroup(s, i, j)
    ensures Below(s[i], s[..i]) == i as real
  {
    var low := s[..i];
    forall p | 0 <= p < |low| ensures low[p] < s[i] { GroupEqual(s, i, j, p); }
    AllLower(s[i], low);
  }

  lemma TiedPart(s: seq<real>, i: nat, j: nat)
    requires TieGroup(s, i, j)
    ensures Below(s[i], s[i..j + 1]) == (j + 1 - i) as real / 2.0
  {
    var group := s[i..j + 1];
    forall p | 0 <= p < |group| ensures group[p] == s[i] { GroupEqual(s, i, j, i + p); }
    AllTied(s[i], group);
  }

  lemma HighPart(s: seq<real>, i: nat, j: nat)
    requires TieGroup(s, i, j)
    ensures Below(s[i], s[j + 1..]) == 0.0
  {
    var high := s[j + 1..];
    forall p | 0 <= p < |high| ensures high[p] > s[i] { GroupEqual(s, i, j, j + 1 + p); }
    AllHigher(s[i], high);
  }

  lemma ThreeParts(v: real, s: seq<real>, i: nat, j: nat)
    requires i <= j <= |s|
    ensures Below(v, s) == Below(v, s[..i]) + Below(v, s[i..j]) + Below(v, s[j..])
  {
    assert s == s[..i] + s[i..j] + s[j..];
    BelowConcat(v, s[..i] + s[i..j], s[j..]);
    BelowConcat(v, s[..i], s[i..j]);
  }

  // ---- the algorithm ----

  // the assignment ranks[order[i:j+1]] = v
  method SetGroup(ranks: array<real>, order: seq<nat>, i: nat, j: nat, v: real)
    requires |order| == ranks.Length && Injective(order) && (forall p :: 0 <= p < |order| ==> order[p] < |order|)
    requires i <= j < |order|
    modifies ranks
    ensures forall p :: 0 <= p < |order| ==> ranks[order[p]] == if i <= p <= j then v else old(ranks[order[p]])
  {
    forall p | i <= p <= j {
      ranks[order[p]] := v;
    }
  }

  // sorted positions below i carry their final rank, the others their position
  ghost predicate RanksDone(ranks: array<real>, order: seq<nat>, sorted: seq<real>, i: nat)
    requires |order| == ranks.Length == |sorted| && forall p :: 0 <= p < |order| ==> order[p] < |order|
    reads ranks
  {
    forall p :: 0 <= p < |order| ==> ranks[order[p]] == if p < i then MidRank(sorted[p], sorted) else (p + 1) as real
  }

  lemma GroupMidRanks(s: seq<real>, i: nat, j: nat)
    requires TieGroup(s, i, j)
    ensures forall p :: i <= p <= j ==> MidRank(s[p], s) == (i + j + 2) as real / 2.0
  {
    GroupRank(s, i, j);
    forall p | i <= p <= j ensures s[p] == s[i] { GroupEqual(s, i, j, p); }
  }

  // the assignment ranks[order] = 1..n
  method SetPositions(ranks: array<real>, order: seq<nat>)
    requires |order| == ranks.Length && Injective(order) && (forall p :: 0 <= p < |order| ==> order[p] < |order|)
    modifies ranks
    ensures forall p :: 0 <= p < |order| ==> ranks[order[p]] == (p + 1) as real
  {
    forall p | 0 <= p < |order| {
      ranks[order[p]] := (p + 1) as real;
    }
  }

  // the last member of the tie group that starts at i
  method GroupEnd(sorted: seq<real>, i: nat) returns (j: nat)
    requires Sorted(sorted) && i < |sorted| && (i > 0 ==> sorted[i - 1] < sorted[i])
    ensures TieGroup(sorted, i, j)
  {
    j := i;
    while j + 1 < |sorted| && sorted[j + 1] == sorted[i]
      invariant i <= j < |sorted| && sorted[j] == sorted[i]
    {
      j := j + 1;
    }
  }

  // one round of the outer loop: the group i..j gets its mean rank
  method AverageGroup(ranks: array<real>, order: seq<nat>, sorted: seq<real>, i: nat, j: nat)
    requires |order| == ranks.Length == |sorted| && Injective(order)
    requires forall p :: 0 <= p < |order| ==> order[p] < |order|
    requires TieGroup(sorted, i, j) && RanksDone(ranks, order, sorted, i)
    modifies ranks
    ensures RanksDone(ranks, order, sorted, j + 1)
  {
    GroupMidRanks(sorted, i, j);
    if j > i {
      SetGroup(ranks, order, i, j, (i + j + 2) as real / 2.0);
    } else {
      assert MidRank(sorted[i], sorted) == (i + 1) as real;
    }
  }

  // the outer loop: from sorted positions to final ranks, group by group
  method AverageTies(ranks: array<real>, order: seq<nat>, sorted: seq<real>)
    requires |order| == ranks.Length == |sorted| && Injective(order) && Sorted(sorted)
    requires forall p :: 0 <= p < |order| ==> order[p] < |order|
    requires RanksDone(ranks, order, sorted, 0)
    modifies ranks
    ensures RanksDone(ranks, order, sorted, |order|)
  {
    var i := 0;
    while i < |sorted|
      invariant i <= |sorted| && RanksDone(ranks, order, sorted, i)
      invariant 0 < i < |sorted| ==> sorted[i - 1] < sorted[i]
    {
      var j := GroupEnd(sorted, i);
      AverageGroup(ranks, order, sorted, i, j);
      if j + 1 < |sorted| { GroupEqual(sorted, i, j, j + 1); }
      i := j + 1;
    }
  }

  /** Ranks of all observations, tie groups averaged in place. */
  method TieAveragedRanks(y: seq<real>, order: seq<nat>) returns (r: seq<real>)
    requires SortingOrder(order, y)
    ensures r == Ranks(y, y)
  {
    var ranks := new real[|y|](_ => 0.0);
    var sorted := Gather(y, order);
    OrderIsInjective(order);
    SetPositions(ranks, order);
    AverageTies(ranks, order, sorted);
    r := ranks[..];
    DoneRanks(ranks, order, sorted);
    RanksFinal(y, order, r);
  }

  lemma DoneRanks(ranks: array<real>, order: seq<nat>, sorted: seq<real>)
    requires |order| == ranks.Length == |sorted| && (forall p :: 0 <= p < |order| ==> order[p] < |order|)
    requires RanksDone(ranks, order, sorted, |order|)
    ensures forall p :: 0 <= p < |order| ==> ranks[..][order[p]] == MidRank(sorted[p], sorted)
  {
  }

  lemma RanksFinal(y: seq<real>, order: seq<nat>, r: seq<real>)
    requires SortingOrder(order, y) && |r| == |y|
    requires forall p :: 0 <= p < |order| ==> r[order[p]] == MidRank(Gather(y, order)[p], Gather(y, order))
    ensures r == Ranks(y, y)
  {
    GatherPermutes(y, order);
    forall k | 0 <= k < |y|
      ensures r[k] == MidRank(y[k], y)
    {
      OrderIsOnto(order, k);
      var p :| 0 <= p < |order| && order[p] == k;
      assert r[order[p]] == MidRank(Gather(y, order)[p], Gather(y, order));
      BelowPermuted(y[k], Gather(y, order), y);
    }
  }

  /** The AUC of two samples, None standing for not-a-number: the share of
      positive-negative pairs ranked correctly, ties counting half. */
  method RocAuc(neg: seq<real>, pos: seq<real>, order: seq<nat>) returns (auc: Option<real>)
    requires SortingOrder(order, neg + pos)
    ensures auc.None? <==> neg == [] || pos == []
    ensures auc.Some? ==>
              auc.value == (Wins(pos, neg) as real + Ties(pos, neg) as real / 2.0) / (|pos| * |neg|) as real
  {
    if |neg| == 0 || |pos| == 0 {
      return None;
    }
    var y := neg + pos;
    var ranks := TieAveragedRanks(y, order);
    var rankSum := SumOf(ranks[|neg|..]);
    assert ranks[|neg|..] == Ranks(pos, y);
    MannWhitney(neg, pos);
    ScoreCounts(pos, neg);
    assert |pos| * |neg| > 0;
    auc := Some((rankSum - (|pos| * (|pos| + 1)) as real / 2.0) / (|pos| * |neg|) as real);
  }

  /** The copy in the training script has no guard: on an empty side it divides
      zero by zero, which is not-a-number again. */
  lemma UnguardedIsZeroOverZero(neg: seq<real>, pos: seq<real>)
    requires neg == [] || pos == []
    ensures SumOf(Ranks(pos, neg + pos)) - (|pos| * (|pos| + 1)) as real / 2.0 == 0.0
    ensures |pos| * |neg| == 0
  {
    MannWhitney(neg, pos);
    if neg == [] { NothingBelow(pos); }
  }

  /** Exchanging the two samples complements the AUC, which lies in [0, 1]. */
  lemma AucComplement(neg: seq<real>, pos: seq<real>)
    requires neg != [] && pos != []
    ensures var d := (|pos| * |neg|) as real;
            d > 0.0 && PairScore(pos, neg) / d + PairScore(neg, pos) / d == 1.0 && 0.0 <= PairScore(pos, neg) <= d
  {
    ScoreComplement(pos, neg);
    ScoreCounts(pos, neg);
    ScoreCounts(neg, pos);
    assert |pos| * |neg| > 0;
    AddQuotients(PairScore(pos, neg), PairScore(neg, pos), (|pos| * |neg|) as real);
  }

  lemma AddQuotients(x: real, y: real, d: real)
    requires d > 0.0 && x + y == d
    ensures x / d + y / d == 1.0
  {
  }
}
