/** Records of one honest store run, and what a verifier makes of deliveries
    drawn from them. */
module HonestRuns {
  import opened Wrappers
  import opened Records
  import opened ChainWalk
  import opened Verifier
  import opened Sorting

  /** The exports of one run that started behind head0: consecutive numbers,
      each link recomputing and naming its predecessor. */
  ghost predicate HonestRun(H: Hash, es: seq<Envelope>, head0: string) {
    && |head0| == HEX_WIDTH && HexDigests(H)
    && (forall i :: 0 <= i < |es| ==> HonestAt(H, es, head0, i))
    && GapFree(es)
  }

  ghost predicate HonestAt(H: Hash, es: seq<Envelope>, head0: string, i: nat)
    requires i < |es|
  {
    && Recomputes(H, es[i]) && es[i].prevHash == Some(HeadAt(es, head0, i))
    && es[i].seqNo.Some? && |es[i].Binding()| == HEX_WIDTH
  }

  // the chain head before record i
  function HeadAt(es: seq<Envelope>, head0: string, i: nat): string
    requires i <= |es|
  {
    if i == 0 then head0 else es[i - 1].Chain()
  }

  // where the hash function fails on a run
  datatype Witness = Pair(i: nat, j: nat) | Root(i: nat)

  // two records collide, or one record hashes to the starting head
  ghost predicate Fails(H: Hash, es: seq<Envelope>, head0: string, w: Witness) {
    match w
    case Pair(i, j) => i < j < |es| && Collision(H, es[i].Preimage(), es[j].Preimage())
    case Root(i) => i < |es| && H(es[i].Preimage()) == head0
  }

  ghost predicate HashFailure(H: Hash, es: seq<Envelope>, head0: string) {
    exists w :: Fails(H, es, head0, w)
  }

  lemma {:induction false} HeadsDistinct(H: Hash, es: seq<Envelope>, head0: string, i: nat, j: nat)
    requires HonestRun(H, es, head0) && i < j <= |es|
    requires HeadAt(es, head0, i) == HeadAt(es, head0, j)
    ensures HashFailure(H, es, head0)
  {
    if i == 0 {
      assert HonestAt(H, es, head0, j - 1);
      assert Fails(H, es, head0, Root(j - 1));
    } else {
      SharedHead(H, es, head0, i - 1, j - 1);
      if !Fails(H, es, head0, Pair(i - 1, j - 1)) {
        HeadsDistinct(H, es, head0, i - 1, j - 1);
      }
    }
  }

  // two records with one chain hash collide or continue the same head
  lemma SharedHead(H: Hash, es: seq<Envelope>, head0: string, i: nat, j: nat)
    requires HonestRun(H, es, head0) && i < j < |es| && es[i].Chain() == es[j].Chain()
    ensures Fails(H, es, head0, Pair(i, j)) || HeadAt(es, head0, i) == HeadAt(es, head0, j)
  {
    assert HonestAt(H, es, head0, i) && HonestAt(H, es, head0, j);
    RunWidths(H, es, head0, i);
    RunWidths(H, es, head0, j);
    SameDigest(H, es[i], es[j]);
  }

  lemma RunWidths(H: Hash, es: seq<Envelope>, head0: string, i: nat)
    requires HonestRun(H, es, head0) && i < |es|
    ensures |es[i].Prev()| == HEX_WIDTH && |es[i].Binding()| == HEX_WIDTH
    ensures es[i].Prev() == HeadAt(es, head0, i)
  {
    assert HonestAt(H, es, head0, i);
    if i > 0 { assert HonestAt(H, es, head0, i - 1) && |H(es[i - 1].Preimage())| == HEX_WIDTH; }
  }

  // record k is accepted behind record i exactly when it is the next one
  lemma NextOnly(c: Crypto, es: seq<Envelope>, head0: string, i: nat, k: nat)
    requires HonestRun(c.H, es, head0) && i < |es| && k < |es|
    ensures k == i + 1 ==> ChainLinkOk(c, Some(es[i].Chain()), es[k])
    ensures HashFailure(c.H, es, head0) || (ChainLinkOk(c, Some(es[i].Chain()), es[k]) ==> k == i + 1)
  {
    assert HonestAt(c.H, es, head0, k);
    RunWidths(c.H, es, head0, k);
    if ChainLinkOk(c, Some(es[i].Chain()), es[k]) && k != i + 1 {
      assert HeadAt(es, head0, k) == HeadAt(es, head0, i + 1);
      if k < i + 1 { HeadsDistinct(c.H, es, head0, k, i + 1); } else { HeadsDistinct(c.H, es, head0, i + 1, k); }
    }
  }

  // ---- deliveries ----

  ghost predicate Indices(picks: seq<nat>, n: nat) {
    forall j :: 0 <= j < |picks| ==> picks[j] < n
  }

  function Pick(es: seq<Envelope>, picks: seq<nat>): (r: seq<Envelope>)
    requires Indices(picks, |es|)
    ensures |r| == |picks|
  {
    seq(|picks|, j requires 0 <= j < |picks| => es[picks[j]])
  }

  ghost predicate NextAt(picks: seq<nat>, j: nat)
    requires 0 < j < |picks|
  {
    picks[j] == picks[j - 1] + 1
  }

  ghost predicate Contiguous(picks: seq<nat>) {
    forall j :: 0 < j < |picks| ==> NextAt(picks, j)
  }

  // one more record keeps a passing delivery passing exactly when it is the next one
  lemma DeliverOneMore(c: Crypto, es: seq<Envelope>, head0: string, front: seq<nat>, last: nat)
    requires HonestRun(c.H, es, head0) && Indices(front, |es|) && last < |es| && front != []
    requires AllLinksPass(c, None, Pick(es, front))
    ensures last == front[|front| - 1] + 1 ==> AllLinksPass(c, None, Pick(es, front) + [es[last]])
    ensures HashFailure(c.H, es, head0)
            || (AllLinksPass(c, None, Pick(es, front) + [es[last]]) ==> last == front[|front| - 1] + 1)
  {
    PickSnoc(es, front, last);
    AllLinksPassSnoc(c, None, Pick(es, front), es[last]);
    NextOnly(c, es, head0, front[|front| - 1], last);
  }

  /** Records of one run, delivered in any order with any repetitions, all pass
      CHAIN_LINK exactly when they form a contiguous ascending segment; only the
      "not otherwise" half leans on the hash function. */
  lemma {:induction false} DeliveryPassesIffContiguous(c: Crypto, es: seq<Envelope>, head0: string, picks: seq<nat>)
    requires HonestRun(c.H, es, head0) && Indices(picks, |es|)
    ensures Contiguous(picks) ==> AllLinksPass(c, None, Pick(es, picks))
    ensures HashFailure(c.H, es, head0) || (AllLinksPass(c, None, Pick(es, picks)) ==> Contiguous(picks))
  {
    if |picks| == 1 {
      assert HonestAt(c.H, es, head0, picks[0]);
    } else if picks != [] {
      var front, last := picks[..|picks| - 1], picks[|picks| - 1];
      assert picks == front + [last];
      DeliveryPassesIffContiguous(c, es, head0, front);
      PickSnoc(es, front, last);
      ContiguousSnoc(front, last);
      if AllLinksPass(c, None, Pick(es, front)) {
        DeliverOneMore(c, es, head0, front, last);
      } else {
        AllLinksPassSnoc(c, None, Pick(es, front), es[last]);
      }
    }
  }

  lemma PickSnoc(es: seq<Envelope>, front: seq<nat>, last: nat)
    requires Indices(front, |es|) && last < |es|
    ensures Indices(front + [last], |es|) && Pick(es, front + [last]) == Pick(es, front) + [es[last]]
    ensures front != [] ==> HeadOf(Pick(es, front)) == Some(es[front[|front| - 1]].Chain())
  {
  }

  lemma ContiguousSnoc(front: seq<nat>, last: nat)
    requires front != []
    ensures Contiguous(front + [last]) <==> Contiguous(front) && last == front[|front| - 1] + 1
  {
    var picks := front + [last];
    if Contiguous(picks) {
      assert NextAt(picks, |front|);
      forall j | 0 < j < |front| ensures NextAt(front, j) { assert NextAt(picks, j); }
    }
    if Contiguous(front) && last == front[|front| - 1] + 1 {
      forall j | 0 < j < |picks| ensures NextAt(picks, j) { if j < |front| { assert NextAt(front, j); } }
    }
  }

  // behind record i, a record other than the next one is a counted break
  lemma WrongRecord(c: Crypto, es: seq<Envelope>, head0: string, i: nat, k: nat, st: VState)
    requires HonestRun(c.H, es, head0) && !HashFailure(c.H, es, head0) && i < |es| && k < |es| && k != i + 1
    requires st.expectedPrev == Some(es[i].Chain())
    ensures var after := Step(c, st, Deliver(es[k]));
            after.expectedPrev == st.expectedPrev && after.stats.chainBroken == st.stats.chainBroken + 1
  {
    NextOnly(c, es, head0, i, k);
    OneDelivery(c, st, es[k]);
  }

  /** Once record i is the tracked head, deliveries that never contain record
      i + 1 all fail, and the tracked head does not move. */
  lemma {:induction false} HoleIsPermanent(c: Crypto, es: seq<Envelope>, head0: string, i: nat, picks: seq<nat>,
                                           st: VState)
    requires HonestRun(c.H, es, head0) && Indices(picks, |es|) && i < |es|
    requires st.expectedPrev == Some(es[i].Chain())
    requires forall j :: 0 <= j < |picks| ==> picks[j] != i + 1
    ensures HashFailure(c.H, es, head0)
            || (var after := Run(c, st, Deliveries(Pick(es, picks)));
                && after.expectedPrev == st.expectedPrev
                && after.stats.chainBroken == st.stats.chainBroken + |picks|)
  {
    if picks != [] {
      var front, last := picks[..|picks| - 1], picks[|picks| - 1];
      HoleIsPermanent(c, es, head0, i, front, st);
      PickSnoc(es, front, last);
      assert picks == front + [last];
      RunLast(c, st, Pick(es, picks));
      if !HashFailure(c.H, es, head0) { WrongRecord(c, es, head0, i, last, Run(c, st, Deliveries(Pick(es, front)))); }
    }
  }

  // ---- offline windows of an honest run ----

  ghost predicate Ascending(picks: seq<nat>) {
    forall i, j :: 0 <= i < j < |picks| ==> picks[i] < picks[j]
  }

  lemma {:induction false} SeqOfRun(H: Hash, es: seq<Envelope>, head0: string, i: nat)
    requires HonestRun(H, es, head0) && i < |es|
    ensures es[i].Seq() == es[0].Seq() + i
  {
    assert HonestAt(H, es, head0, i);
    if i > 0 {
      SeqOfRun(H, es, head0, i - 1);
      assert NoGapAt(es, i);
    }
  }

  lemma PickedNeighbours(H: Hash, es: seq<Envelope>, head0: string, picks: seq<nat>, j: nat)
    requires HonestRun(H, es, head0) && Indices(picks, |es|) && 0 < j < |picks|
    ensures NoGapAt(Pick(es, picks), j) <==> NextAt(picks, j)
    ensures NextAt(picks, j) ==> LinkAt(Pick(es, picks), j)
  {
    SeqOfRun(H, es, head0, picks[j - 1]);
    SeqOfRun(H, es, head0, picks[j]);
    assert HonestAt(H, es, head0, picks[j]);
  }

  /** Any window of distinct records of one run is intact exactly when no
      number is missing in it - no hash assumption is needed. */
  lemma WindowIntactIffContiguous(H: Hash, es: seq<Envelope>, head0: string, picks: seq<nat>)
    requires HonestRun(H, es, head0) && Indices(picks, |es|) && Ascending(picks)
    ensures IntactChain(H, Pick(es, picks)) <==> Contiguous(picks)
  {
    var w := Pick(es, picks);
    forall j | 0 <= j < |w| ensures Recomputes(H, w[j]) && w[j].seqNo.Some? { assert HonestAt(H, es, head0, picks[j]); }
    forall j | 0 < j < |w|
      ensures NoGapAt(w, j) <==> NextAt(picks, j)
      ensures NextAt(picks, j) ==> LinkAt(w, j)
    {
      PickedNeighbours(H, es, head0, picks, j);
    }
    if picks != [] { assert HonestAt(H, es, head0, picks[0]); }
    if !Contiguous(picks) {
      var j :| 0 < j < |picks| && !NextAt(picks, j);
      assert !NoGapAt(w, j);
    }
  }

  // a contiguous slice of an honest run is intact
  lemma SliceIntact(H: Hash, log: seq<Envelope>, head0: string, lo: nat, hi: nat)
    requires HonestRun(H, log, head0) && lo <= hi <= |log|
    ensures IntactChain(H, log[lo..hi])
  {
    var picks: seq<nat> := seq(hi - lo, i requires 0 <= i < hi - lo => lo + i);
    assert Pick(log, picks) == log[lo..hi];
    forall j | 0 < j < |picks| ensures NextAt(picks, j) { }
    WindowIntactIffContiguous(H, log, head0, picks);
  }

  // its numbers ascend
  lemma SliceAscends(H: Hash, log: seq<Envelope>, head0: string, lo: nat, hi: nat, i: nat, j: nat)
    requires HonestRun(H, log, head0) && lo <= hi <= |log| && i < j < hi - lo
    ensures log[lo..hi][i].Seq() < log[lo..hi][j].Seq()
  {
    SeqOfRun(H, log, head0, lo + i);
    SeqOfRun(H, log, head0, lo + j);
  }

  // so is any reordering of it, once the walk has sorted it
  lemma ShuffledSliceIntact(H: Hash, log: seq<Envelope>, head0: string, lo: nat, hi: nat, window: seq<Envelope>)
    requires HonestRun(H, log, head0) && lo <= hi <= |log| && multiset(window) == multiset(log[lo..hi])
    ensures BySeq(window) == log[lo..hi] && IntactChain(H, BySeq(window))
  {
    SliceIntact(H, log, head0, lo, hi);
    var slice := log[lo..hi];
    forall i, j | 0 <= i < j < |slice|
      ensures slice[i].Seq() < slice[j].Seq()
    {
      SliceAscends(H, log, head0, lo, hi, i, j);
    }
    SortOf(window, log[lo..hi], (e: Envelope) => e.Seq());
  }
}
