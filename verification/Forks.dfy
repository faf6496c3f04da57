/** A ledger written across restarts is a tree: what the chain checks make of it. */
module Forks {
  import opened Wrappers
  import opened Records
  import opened ChainWalk
  import opened HonestRuns
  import opened Verifier
  import opened Sorting

  /** What a record was chained on: the genesis constant, the head the whole run
      resumed from, or an earlier record of the run. */
  datatype Origin = Genesis | Persisted | Nth(i: nat)

  predicate Known(o: Origin, n: nat) {
    o.Nth? ==> o.i < n
  }

  // number and chain hash of a head
  function HeadOfOrigin(log: seq<Envelope>, root: (int, string), o: Origin): (int, string)
    requires Known(o, |log|)
  {
    match o
    case Genesis => (0, GENESIS)
    case Persisted => root
    case Nth(i) => (log[i].Seq(), log[i].Chain())
  }

  // e continues that head
  ghost predicate Continues(H: Hash, e: Envelope, head: (int, string)) {
    && Recomputes(H, e) && |e.Binding()| == HEX_WIDTH
    && e.prevHash == Some(head.1) && e.seqNo == Some(head.0 + 1)
  }

  ghost predicate ChainedAt(H: Hash, log: seq<Envelope>, parents: seq<Origin>, root: (int, string), i: nat)
    requires i < |log| == |parents|
  {
    Known(parents[i], i) && Continues(H, log[i], HeadOfOrigin(log, root, parents[i]))
  }

  /** Every record continues the head it was chained on. */
  ghost predicate Chained(H: Hash, log: seq<Envelope>, parents: seq<Origin>, root: (int, string)) {
    && HexDigests(H) && |root.1| == HEX_WIDTH && |log| == |parents|
    && forall i :: 0 <= i < |log| ==> ChainedAt(H, log, parents, root, i)
  }

  lemma ExtendChained(H: Hash, log: seq<Envelope>, parents: seq<Origin>, root: (int, string), e: Envelope, o: Origin)
    requires Chained(H, log, parents, root) && Known(o, |log|) && Continues(H, e, HeadOfOrigin(log, root, o))
    ensures Chained(H, log + [e], parents + [o], root)
  {
    var log', parents' := log + [e], parents + [o];
    forall i | 0 <= i < |log'|
      ensures ChainedAt(H, log', parents', root, i)
    {
      if i < |log| { assert ChainedAt(H, log, parents, root, i); }
    }
  }

  // ---- records with one chain hash ----

  // two records share a chain hash, or one has the chain hash of a starting head
  ghost predicate EchoAt(log: seq<Envelope>, root: (int, string), w: Witness) {
    match w
    case Pair(i, j) => i < j < |log| && log[i].Chain() == log[j].Chain()
    case Root(i) => i < |log| && (log[i].Chain() == GENESIS || log[i].Chain() == root.1)
  }

  ghost predicate Echo(log: seq<Envelope>, root: (int, string)) {
    exists w :: EchoAt(log, root, w)
  }

  lemma OriginWidth(H: Hash, log: seq<Envelope>, parents: seq<Origin>, root: (int, string), i: nat)
    requires Chained(H, log, parents, root) && i < |log|
    ensures |log[i].Prev()| == HEX_WIDTH && |log[i].Binding()| == HEX_WIDTH
  {
    assert ChainedAt(H, log, parents, root, i);
    if parents[i].Nth? {
      var k := parents[i].i;
      assert ChainedAt(H, log, parents, root, k);
      assert |H(log[k].Preimage())| == HEX_WIDTH;
    }
  }

  /** Two records with one chain hash repeat one link - the same texts committed
      twice behind one head - or they collide. */
  lemma EchoMeans(H: Hash, log: seq<Envelope>, parents: seq<Origin>, root: (int, string), i: nat, j: nat)
    requires Chained(H, log, parents, root) && EchoAt(log, root, Pair(i, j))
    ensures SameLink(log[i], log[j]) || Collision(H, log[i].Preimage(), log[j].Preimage())
  {
    assert ChainedAt(H, log, parents, root, i) && ChainedAt(H, log, parents, root, j);
    OriginWidth(H, log, parents, root, i);
    OriginWidth(H, log, parents, root, j);
    SameDigest(H, log[i], log[j]);
  }

  // record i names record k exactly when it was chained on it
  lemma NamesParent(H: Hash, log: seq<Envelope>, parents: seq<Origin>, root: (int, string), i: nat, k: nat)
    requires Chained(H, log, parents, root) && i < |log| && k < |log|
    ensures parents[i] == Nth(k) ==> log[i].Prev() == log[k].Chain()
    ensures Echo(log, root) || (log[i].Prev() == log[k].Chain() ==> parents[i] == Nth(k))
  {
    assert ChainedAt(H, log, parents, root, i);
    if log[i].Prev() == log[k].Chain() && parents[i] != Nth(k) {
      match parents[i]
      case Nth(m) => assert EchoAt(log, root, if m < k then Pair(m, k) else Pair(k, m));
      case Genesis => assert EchoAt(log, root, Root(k));
      case Persisted => assert EchoAt(log, root, Root(k));
    }
  }

  // ---- online ----

  ghost predicate ChildAt(parents: seq<Origin>, picks: seq<nat>, j: nat)
    requires 0 < j < |picks| && Indices(picks, |parents|)
  {
    parents[picks[j]] == Nth(picks[j - 1])
  }

  /** Every record but the first was chained on the one delivered before it. */
  ghost predicate Unbroken(parents: seq<Origin>, picks: seq<nat>)
    requires Indices(picks, |parents|)
  {
    forall j :: 0 < j < |picks| ==> ChildAt(parents, picks, j)
  }

  /** Records delivered in any order, with any repetitions, all pass CHAIN_LINK
      exactly when each was chained on the one before it. */
  lemma DeliveryPassesIffUnbroken(c: Crypto, log: seq<Envelope>, parents: seq<Origin>, root: (int, string),
                                  picks: seq<nat>)
    requires Chained(c.H, log, parents, root) && Indices(picks, |log|)
    ensures Unbroken(parents, picks) ==> AllLinksPass(c, None, Pick(log, picks))
    ensures Echo(log, root) || (AllLinksPass(c, None, Pick(log, picks)) ==> Unbroken(parents, picks))
  {
    var es := Pick(log, picks);
    AllLinksPassMeaning(c, None, es);
    forall j | 0 <= j < |es|
      ensures c.H(es[j].Preimage()) == es[j].Chain()
    {
      assert ChainedAt(c.H, log, parents, root, picks[j]);
    }
    forall j | 0 < j < |es|
      ensures ChildAt(parents, picks, j) ==> OnlineLinkAt(es, j)
      ensures Echo(log, root) || (OnlineLinkAt(es, j) ==> ChildAt(parents, picks, j))
    {
      NamesParent(c.H, log, parents, root, picks[j], picks[j - 1]);
    }
  }

  // ---- offline ----

  /** Between lo and hi every record was chained on its neighbour. */
  ghost predicate Straight(parents: seq<Origin>, lo: nat, hi: nat)
    requires hi <= |parents|
  {
    forall i :: lo < i < hi ==> parents[i] == Nth(i - 1)
  }

  // such a stretch is an honest run of its own
  lemma StraightIsHonest(H: Hash, log: seq<Envelope>, parents: seq<Origin>, root: (int, string), lo: nat, hi: nat)
    requires Chained(H, log, parents, root) && lo < hi <= |log| && Straight(parents, lo, hi)
    ensures HonestRun(H, log[lo..hi], log[lo].Prev())
  {
    var es := log[lo..hi];
    OriginWidth(H, log, parents, root, lo);
    forall i | 0 <= i < |es|
      ensures HonestAt(H, es, log[lo].Prev(), i)
      ensures i > 0 ==> NoGapAt(es, i)
    {
      assert ChainedAt(H, log, parents, root, lo + i);
      if i > 0 { assert parents[lo + i] == Nth(lo + i - 1); }
    }
  }

  // the records of a reordering, by their places in the log
  lemma PlacesOf(log: seq<Envelope>, lo: nat, hi: nat, es: seq<Envelope>) returns (picks: seq<nat>)
    requires lo <= hi <= |log| && multiset(es) == multiset(log[lo..hi])
    ensures Indices(picks, |log|) && es == Pick(log, picks)
    ensures forall j :: 0 <= j < |picks| ==> lo <= picks[j] < hi
  {
    picks := [];
    for i := 0 to |es|
      invariant |picks| == i && Indices(picks, |log|)
      invariant forall j :: 0 <= j < i ==> lo <= picks[j] < hi && es[j] == log[picks[j]]
    {
      var k := IndexIn(es, log[lo..hi], i);
      picks := picks + [lo + k];
    }
  }

  // an ascending list that fits exactly is the whole stretch
  lemma {:induction false} Fills(picks: seq<nat>, lo: nat, hi: nat, j: nat)
    requires |picks| == hi - lo && j < |picks|
    requires forall i :: 0 <= i < |picks| ==> lo <= picks[i] < hi
    requires forall i :: 0 < i < |picks| ==> picks[i - 1] < picks[i]
    ensures picks[j] >= lo + j
    ensures picks[|picks| - 1 - j] <= hi - 1 - j
  {
    if j > 0 {
      Fills(picks, lo, hi, j - 1);
      assert picks[j - 1] < picks[j];
      assert picks[|picks| - 1 - j] < picks[|picks| - j];
    }
  }

  /** The walk over any reordering of a stretch of the log is intact exactly
      when the stretch is straight: a fork inside it cannot be sorted away. */
  lemma WindowIntactIffStraight(H: Hash, log: seq<Envelope>, parents: seq<Origin>, root: (int, string), lo: nat,
                                hi: nat, window: seq<Envelope>)
    requires Chained(H, log, parents, root) && lo <= hi <= |log| && multiset(window) == multiset(log[lo..hi])
    ensures Straight(parents, lo, hi) ==> IntactChain(H, BySeq(window))
    ensures Echo(log, root) || (IntactChain(H, BySeq(window)) ==> Straight(parents, lo, hi))
  {
    if lo < hi && Straight(parents, lo, hi) {
      StraightIsHonest(H, log, parents, root, lo, hi);
      var run := log[lo..hi];
      assert run[0..|run|] == run;
      ShuffledSliceIntact(H, run, log[lo].Prev(), 0, |run|, window);
    }
    if IntactChain(H, BySeq(window)) && !Echo(log, root) { IntactIsStraight(H, log, parents, root, lo, hi, window); }
    if lo == hi { assert |window| == |multiset(window)| == 0; }
  }

  lemma IntactIsStraight(H: Hash, log: seq<Envelope>, parents: seq<Origin>, root: (int, string), lo: nat, hi: nat,
                         window: seq<Envelope>)
    requires Chained(H, log, parents, root) && lo <= hi <= |log| && multiset(window) == multiset(log[lo..hi])
    requires Linked(H, BySeq(window)) && !Echo(log, root)
    ensures Straight(parents, lo, hi)
  {
    var es := BySeq(window);
    SortSorts(window, (e: Envelope) => e.Seq());
    var picks := PlacesOf(log, lo, hi, es);
    assert |es| == |multiset(es)| == |multiset(log[lo..hi])| == hi - lo;
    forall j | 0 < j < |picks| ensures ChildAt(parents, picks, j) { LinkIsChild(H, log, parents, root, picks, j); }
    UnbrokenFills(H, log, parents, root, lo, hi, picks);
  }

  lemma LinkIsChild(H: Hash, log: seq<Envelope>, parents: seq<Origin>, root: (int, string), picks: seq<nat>, j: nat)
    requires Chained(H, log, parents, root) && Indices(picks, |log|) && 0 < j < |picks| && !Echo(log, root)
    requires LinkAt(Pick(log, picks), j)
    ensures ChildAt(parents, picks, j)
  {
    NamesParent(H, log, parents, root, picks[j], picks[j - 1]);
  }

  // children come later in the log, so an unbroken list that fits exactly is the stretch
  lemma UnbrokenFills(H: Hash, log: seq<Envelope>, parents: seq<Origin>, root: (int, string), lo: nat, hi: nat,
                      picks: seq<nat>)
    requires Chained(H, log, parents, root) && lo <= hi <= |log| && |picks| == hi - lo
    requires forall j :: 0 <= j < |picks| ==> lo <= picks[j] < hi
    requires Unbroken(parents, picks)
    ensures Straight(parents, lo, hi)
  {
    forall j | 0 < j < |picks|
      ensures picks[j - 1] < picks[j]
    {
      assert ChildAt(parents, picks, j) && ChainedAt(H, log, parents, root, picks[j]);
    }
    forall j | 0 <= j < |picks|
      ensures picks[j] == lo + j
    {
      Fills(picks, lo, hi, j);
      Fills(picks, lo, hi, |picks| - 1 - j);
    }
    forall i | lo < i < hi
      ensures parents[i] == Nth(i - 1)
    {
      assert ChildAt(parents, picks, i - lo);
    }
  }
}
