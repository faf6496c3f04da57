/** The offline walk over a window of published records, and what a clean walk
    proves about the window. */
module ChainWalk {
  import opened Wrappers
  import opened Decimal
  import opened Records
  import opened Sorting

  datatype Reason = PrevMismatch | RecomputeMismatch(wording: string) | SequenceGap(expected: int)

  datatype Break = Break(seqNo: int, txnId: Option<string>, reason: Reason)

  datatype ChainReport = ChainReport(intact: bool, checked: nat, first: Option<int>, last: Option<int>,
                                     breaks: seq<Break>, head: Option<string>)

  // the two walkers word one reason differently
  const PROVER_RECOMPUTE := "CHAIN_HASH_RECOMPUTE_MISMATCH"
  const DASHBOARD_RECOMPUTE := "CHAIN_HASH_MISMATCH"

  // ---- the walk ----

  function BreaksAt(H: Hash, e: Envelope, prevHash: string, prevSeq: int, wording: string): seq<Break> {
    (if e.prevHash != Some(prevHash) then [Break(e.Seq(), e.txnId, PrevMismatch)] else [])
    + (if Some(H(e.Preimage())) != e.chainHash then [Break(e.Seq(), e.txnId, RecomputeMismatch(wording))] else [])
    + (if e.Seq() != prevSeq + 1 then [Break(e.Seq(), e.txnId, SequenceGap(prevSeq + 1))] else [])
  }

  function WalkFrom(H: Hash, es: seq<Envelope>, prevHash: string, prevSeq: int, wording: string): seq<Break> {
    if es == [] then []
    else BreaksAt(H, es[0], prevHash, prevSeq, wording)
         + WalkFrom(H, es[1..], es[0].Chain(), es[0].Seq(), wording)
  }

  // every break of the walk over a sequence-sorted window
  function WalkBreaks(H: Hash, es: seq<Envelope>, wording: string): seq<Break> {
    if es == [] then []
    else WalkFrom(H, es, es[0].prevHash.GetOr(GENESIS), es[0].seqNo.GetOr(1) - 1, wording)
  }

  // the window in sequence order
  function BySeq(window: seq<Envelope>): (es: seq<Envelope>)
    ensures |es| == |window|
  {
    SortBy(window, (e: Envelope) => e.Seq())
  }

  lemma WalkStep(H: Hash, es: seq<Envelope>, i: nat, prevHash: string, prevSeq: int, wording: string)
    requires i < |es|
    ensures WalkFrom(H, es[i..], prevHash, prevSeq, wording)
         == BreaksAt(H, es[i], prevHash, prevSeq, wording)
            + WalkFrom(H, es[i + 1..], es[i].Chain(), es[i].Seq(), wording)
  {
    assert es[i..][0] == es[i] && es[i..][1..] == es[i + 1..];
  }

  method CheckRecord(H: Hash, e: Envelope, prevHash: string, prevSeq: int, wording: string) returns (breaks: seq<Break>)
    ensures breaks == BreaksAt(H, e, prevHash, prevSeq, wording)
  {
    breaks := [];
    if e.prevHash != Some(prevHash) {
      breaks := breaks + [Break(e.Seq(), e.txnId, PrevMismatch)];
    }
    var expected := ComputeChainHash(H, e.Prev(), e.Binding(), e.Txn(), e.Ts());
    if Some(expected) != e.chainHash {
      breaks := breaks + [Break(e.Seq(), e.txnId, RecomputeMismatch(wording))];
    }
    if e.Seq() != prevSeq + 1 {
      breaks := breaks + [Break(e.Seq(), e.txnId, SequenceGap(prevSeq + 1))];
    }
  }

  // the breaks found so far and those still to come
  ghost predicate Progress(H: Hash, es: seq<Envelope>, i: nat, found: seq<Break>, prevHash: string, prevSeq: int,
                           wording: string, all: seq<Break>)
    requires i <= |es|
  {
    found + WalkFrom(H, es[i..], prevHash, prevSeq, wording) == all
  }

  lemma Advance(H: Hash, es: seq<Envelope>, i: nat, found: seq<Break>, prevHash: string, prevSeq: int, wording: string,
                all: seq<Break>)
    requires i < |es| && Progress(H, es, i, found, prevHash, prevSeq, wording, all)
    ensures Progress(H, es, i + 1, found + BreaksAt(H, es[i], prevHash, prevSeq, wording), es[i].Chain(), es[i].Seq(),
                     wording, all)
  {
    WalkStep(H, es, i, prevHash, prevSeq, wording);
    var here := BreaksAt(H, es[i], prevHash, prevSeq, wording);
    var rest := WalkFrom(H, es[i + 1..], es[i].Chain(), es[i].Seq(), wording);
    assert (found + here) + rest == found + (here + rest);
  }

  // the walk over an ordered window, from given running values
  method WalkSorted(H: Hash, es: seq<Envelope>, prev: string, before: int, wording: string)
    returns (breaks: seq<Break>, prevHash: string)
    ensures breaks == WalkFrom(H, es, prev, before, wording)
    ensures prevHash == if es == [] then prev else es[|es| - 1].Chain()
  {
    breaks, prevHash := [], prev;
    var prevSeq := before;
    ghost var all := WalkFrom(H, es, prev, before, wording);
    assert es[0..] == es;
    for i := 0 to |es|
      invariant Progress(H, es, i, breaks, prevHash, prevSeq, wording, all)
      invariant prevHash == if i == 0 then prev else es[i - 1].Chain()
    {
      Advance(H, es, i, breaks, prevHash, prevSeq, wording, all);
      var found := CheckRecord(H, es[i], prevHash, prevSeq, wording);
      breaks := breaks + found;
      prevHash := es[i].Chain();
      prevSeq := es[i].Seq();
    }
    assert es[|es|..] == [];
  }

  /** Sort the window by sequence number and walk it oldest-first. */
  method WalkChain(H: Hash, window: seq<Envelope>, wording: string) returns (r: ChainReport)
    ensures r.checked == |window|
    ensures r.intact <==> WalkBreaks(H, BySeq(window), wording) == []
    ensures r.breaks <= WalkBreaks(H, BySeq(window), wording)
    ensures |r.breaks| == 20 || (|r.breaks| < 20 && r.breaks == WalkBreaks(H, BySeq(window), wording))
    ensures window != [] ==>
              && r.first == BySeq(window)[0].seqNo && r.last == BySeq(window)[|window| - 1].seqNo
              && r.head == Some(BySeq(window)[|window| - 1].Chain())
    ensures window == [] ==> r.first == r.last == None && r.head == None
  {
    var es := BySeq(window);
    if es == [] {
      return ChainReport(true, 0, None, None, [], None);
    }
    var breaks, head := WalkSorted(H, es, es[0].prevHash.GetOr(GENESIS), es[0].seqNo.GetOr(1) - 1, wording);
    r := ChainReport(breaks == [], |es|, es[0].seqNo, es[|es| - 1].seqNo, First20(breaks), Some(head));
  }

  function First20(bs: seq<Break>): seq<Break> {
    if |bs| <= 20 then bs else bs[..20]
  }

  // ---- what a break reports ----

  // what record i is compared with: its neighbour, or at the start its own claim
  function PrevChainAt(es: seq<Envelope>, i: nat): string
    requires i < |es|
  {
    if i == 0 then es[0].prevHash.GetOr(GENESIS) else es[i - 1].Chain()
  }

  function PrevSeqAt(es: seq<Envelope>, i: nat): int
    requires i < |es|
  {
    if i == 0 then es[0].seqNo.GetOr(1) - 1 else es[i - 1].Seq()
  }

  // the fault that a reason names, at record i
  ghost predicate FaultAt(H: Hash, es: seq<Envelope>, i: nat, reason: Reason, wording: string)
    requires i < |es|
  {
    match reason
    case PrevMismatch => es[i].prevHash != Some(PrevChainAt(es, i))
    case RecomputeMismatch(w) =>
      var e := es[i];
      w == wording && e.chainHash != Some(ComputeChainHash(H, e.Prev(), e.Binding(), e.Txn(), e.Ts()))
    case SequenceGap(expected) => expected == PrevSeqAt(es, i) + 1 && es[i].Seq() != expected
  }

  // b reports a fault of record i under its number and id
  ghost predicate ReportsAt(H: Hash, es: seq<Envelope>, wording: string, i: nat, b: Break) {
    i < |es| && b.seqNo == es[i].Seq() && b.txnId == es[i].txnId && FaultAt(H, es, i, b.reason, wording)
  }

  lemma BreaksAtReport(H: Hash, e: Envelope, prevHash: string, prevSeq: int, wording: string, b: Break)
    ensures b in BreaksAt(H, e, prevHash, prevSeq, wording) <==>
              && b.seqNo == e.Seq() && b.txnId == e.txnId
              && match b.reason
                 case PrevMismatch => e.prevHash != Some(prevHash)
                 case RecomputeMismatch(w) => w == wording && e.chainHash != Some(H(e.Preimage()))
                 case SequenceGap(expected) => expected == prevSeq + 1 && e.Seq() != expected
  {
  }

  // what is left of the walk behind the first i records
  function WalkRest(H: Hash, es: seq<Envelope>, i: nat, wording: string): seq<Break>
    requires i <= |es|
  {
    if i == |es| then [] else WalkFrom(H, es[i..], PrevChainAt(es, i), PrevSeqAt(es, i), wording)
  }

  lemma {:induction false} RestReports(H: Hash, es: seq<Envelope>, wording: string, i: nat, b: Break)
    requires i <= |es|
    ensures b in WalkRest(H, es, i, wording) <==> exists j :: i <= j && ReportsAt(H, es, wording, j, b)
    decreases |es| - i
  {
    if i < |es| {
      WalkStep(H, es, i, PrevChainAt(es, i), PrevSeqAt(es, i), wording);
      BreaksAtReport(H, es[i], PrevChainAt(es, i), PrevSeqAt(es, i), wording, b);
      RestReports(H, es, wording, i + 1, b);
      RestOf(H, es, wording, i);
      OneOrLater(H, es, wording, i, b);
    }
  }

  lemma RestOf(H: Hash, es: seq<Envelope>, wording: string, i: nat)
    requires i < |es|
    ensures WalkFrom(H, es[i + 1..], es[i].Chain(), es[i].Seq(), wording) == WalkRest(H, es, i + 1, wording)
  {
    if i + 1 == |es| { assert es[i + 1..] == []; }
  }

  lemma OneOrLater(H: Hash, es: seq<Envelope>, wording: string, i: nat, b: Break)
    requires i < |es|
    ensures (exists j :: i <= j && ReportsAt(H, es, wording, j, b))
            <==> ReportsAt(H, es, wording, i, b) || exists j :: i + 1 <= j && ReportsAt(H, es, wording, j, b)
  {
  }

  /** The walk reports exactly the faults of the window: each break names a
      record that has the fault it states, and every such fault is reported. */
  lemma WalkReportsFaults(H: Hash, es: seq<Envelope>, wording: string, b: Break)
    ensures b in WalkBreaks(H, es, wording) <==> exists i :: ReportsAt(H, es, wording, i, b)
  {
    RestReports(H, es, wording, 0, b);
    if es != [] { assert es[0..] == es; }
    if i :| ReportsAt(H, es, wording, i, b) { assert 0 <= i; }
  }

  // ---- what "intact" means ----

  ghost predicate Recomputes(H: Hash, e: Envelope) {
    e.chainHash == Some(H(e.Preimage()))
  }

  // b names a as its predecessor
  ghost predicate Follows(a: Envelope, b: Envelope) {
    b.prevHash == Some(a.Chain())
  }

  ghost predicate LinkAt(es: seq<Envelope>, i: nat)
    requires 0 < i < |es|
  {
    Follows(es[i - 1], es[i])
  }

  ghost predicate NoGapAt(es: seq<Envelope>, i: nat)
    requires 0 < i < |es|
  {
    es[i].Seq() == es[i - 1].Seq() + 1
  }

  ghost predicate Linked(H: Hash, es: seq<Envelope>) {
    && (forall i :: 0 <= i < |es| ==> Recomputes(H, es[i]))
    && (forall i :: 0 < i < |es| ==> LinkAt(es, i))
  }

  ghost predicate GapFree(es: seq<Envelope>) {
    forall i :: 0 < i < |es| ==> NoGapAt(es, i)
  }

  /** Linked, recomputing, gap-free, and the first record carries its fields. */
  ghost predicate IntactChain(H: Hash, es: seq<Envelope>) {
    Linked(H, es) && GapFree(es) && (es != [] ==> es[0].prevHash.Some? && es[0].seqNo.Some?)
  }

  lemma ConsLinked(H: Hash, e: Envelope, rest: seq<Envelope>)
    ensures Linked(H, [e] + rest) <==>
              Recomputes(H, e) && Linked(H, rest) && (rest != [] ==> Follows(e, rest[0]))
  {
    var es := [e] + rest;
    if Linked(H, es) {
      assert Recomputes(H, es[0]);
      if rest != [] { assert LinkAt(es, 1); }
      forall i | 0 <= i < |rest|
        ensures Recomputes(H, rest[i])
        ensures i > 0 ==> LinkAt(rest, i)
      {
        assert rest[i] == es[i + 1];
        if i > 0 { assert LinkAt(es, i + 1); }
      }
    }
    if Recomputes(H, e) && Linked(H, rest) && (rest != [] ==> Follows(e, rest[0])) {
      forall i | 0 <= i < |es|
        ensures Recomputes(H, es[i])
        ensures i > 0 ==> LinkAt(es, i)
      {
        if i > 0 { assert es[i] == rest[i - 1]; }
        if i > 1 { assert LinkAt(rest, i - 1); }
      }
    }
  }

  lemma ConsGapFree(e: Envelope, rest: seq<Envelope>)
    ensures GapFree([e] + rest) <==> GapFree(rest) && (rest != [] ==> rest[0].Seq() == e.Seq() + 1)
  {
    var es := [e] + rest;
    if GapFree(es) {
      if rest != [] { assert NoGapAt(es, 1); }
      forall i | 0 < i < |rest| ensures NoGapAt(rest, i) { assert NoGapAt(es, i + 1); }
    }
    if GapFree(rest) && (rest != [] ==> rest[0].Seq() == e.Seq() + 1) {
      forall i | 0 < i < |es| ensures NoGapAt(es, i) { if i > 1 { assert NoGapAt(rest, i - 1); } }
    }
  }

  lemma CleanAt(H: Hash, e: Envelope, prevHash: string, prevSeq: int, wording: string)
    ensures BreaksAt(H, e, prevHash, prevSeq, wording) == [] <==>
              e.prevHash == Some(prevHash) && Recomputes(H, e) && e.Seq() == prevSeq + 1
  {
  }

  lemma {:induction false} WalkFromClean(H: Hash, es: seq<Envelope>, prevHash: string, prevSeq: int, wording: string)
    ensures WalkFrom(H, es, prevHash, prevSeq, wording) == [] <==>
              && Linked(H, es) && GapFree(es)
              && (es != [] ==> es[0].prevHash == Some(prevHash) && es[0].Seq() == prevSeq + 1)
  {
    if es != [] {
      var e, rest := es[0], es[1..];
      assert es == [e] + rest;
      WalkFromClean(H, rest, e.Chain(), e.Seq(), wording);
      CleanAt(H, e, prevHash, prevSeq, wording);
      ConsLinked(H, e, rest);
      ConsGapFree(e, rest);
    }
  }

  /** The walk is clean exactly on intact chains, whatever its wording. */
  lemma WalkCleanIffIntact(H: Hash, es: seq<Envelope>, wording: string)
    ensures WalkBreaks(H, es, wording) == [] <==> IntactChain(H, es)
  {
    if es != [] {
      WalkFromClean(H, es, es[0].prevHash.GetOr(GENESIS), es[0].seqNo.GetOr(1) - 1, wording);
    }
  }

  // no PREV_HASH_MISMATCH and no recompute mismatch; gaps are allowed
  ghost predicate NoHashBreak(bs: seq<Break>) {
    forall i :: 0 <= i < |bs| ==> bs[i].reason.SequenceGap?
  }

  lemma {:induction false} HashCleanFrom(H: Hash, es: seq<Envelope>, prevHash: string, prevSeq: int, wording: string)
    ensures NoHashBreak(WalkFrom(H, es, prevHash, prevSeq, wording)) <==>
              Linked(H, es) && (es != [] ==> es[0].prevHash == Some(prevHash))
  {
    if es != [] {
      var e, rest := es[0], es[1..];
      assert es == [e] + rest;
      HashCleanFrom(H, rest, e.Chain(), e.Seq(), wording);
      NoHashBreakConcat(BreaksAt(H, e, prevHash, prevSeq, wording), WalkFrom(H, rest, e.Chain(), e.Seq(), wording));
      HashCleanAt(H, e, prevHash, prevSeq, wording);
      ConsLinked(H, e, rest);
    }
  }

  lemma NoHashBreakConcat(a: seq<Break>, b: seq<Break>)
    ensures NoHashBreak(a + b) <==> NoHashBreak(a) && NoHashBreak(b)
  {
    if NoHashBreak(a + b) {
      assert forall i :: 0 <= i < |a| ==> a[i] == (a + b)[i];
      assert forall i :: 0 <= i < |b| ==> b[i] == (a + b)[|a| + i];
    }
  }

  lemma HashCleanAt(H: Hash, e: Envelope, prevHash: string, prevSeq: int, wording: string)
    ensures NoHashBreak(BreaksAt(H, e, prevHash, prevSeq, wording)) <==>
              e.prevHash == Some(prevHash) && Recomputes(H, e)
  {
    var bs := BreaksAt(H, e, prevHash, prevSeq, wording);
    if e.prevHash != Some(prevHash) {
      assert bs[0].reason == PrevMismatch;
    } else if !Recomputes(H, e) {
      assert bs[0].reason == RecomputeMismatch(wording);
    }
  }

  lemma HashCleanIffLinked(H: Hash, es: seq<Envelope>, wording: string)
    ensures NoHashBreak(WalkBreaks(H, es, wording)) <==> Linked(H, es) && (es != [] ==> es[0].prevHash.Some?)
  {
    if es != [] {
      HashCleanFrom(H, es, es[0].prevHash.GetOr(GENESIS), es[0].seqNo.GetOr(1) - 1, wording);
    }
  }

  // ---- tamper evidence ----

  // equal in everything the link commits to
  ghost predicate SameLink(a: Envelope, b: Envelope) {
    && a.Prev() == b.Prev() && a.Binding() == b.Binding() && a.Chain() == b.Chain()
    && a.Txn() + Dec(a.Ts()) == b.Txn() + Dec(b.Ts())
  }

  // equal in what the hash reads and yields
  ghost predicate SameText(a: Envelope, b: Envelope) {
    a.Preimage() == b.Preimage() && a.Chain() == b.Chain()
  }

  /** One predecessor, one digest, and one text of binding hash, id and
      timestamp joined; so one link exactly when the binding hashes are equally
      wide. */
  ghost predicate Agree(a: Envelope, b: Envelope) {
    && a.Prev() == b.Prev() && a.Chain() == b.Chain()
    && SameBody(a.Binding(), a.Txn(), a.Ts(), b.Binding(), b.Txn(), b.Ts())
    && (SameLink(a, b) <==> |a.Binding()| == |b.Binding()|)
  }

  lemma TextsAgree(x: Envelope, y: Envelope)
    requires SameText(x, y) && |x.Prev()| == |y.Prev()|
    ensures Agree(x, y)
  {
    TextAfterPrev(x.Prev(), x.Binding(), x.Txn(), x.Ts(), y.Prev(), y.Binding(), y.Txn(), y.Ts());
    if |x.Binding()| == |y.Binding()| {
      PreimageDetermines(x.Prev(), x.Binding(), x.Txn(), x.Ts(), y.Prev(), y.Binding(), y.Txn(), y.Ts());
    }
  }

  // the d-th record from the end
  function Back(es: seq<Envelope>, d: nat): Envelope
    requires 1 <= d <= |es|
  {
    es[|es| - d]
  }

  // one digest means one link, or a collision
  lemma SameDigest(H: Hash, x: Envelope, y: Envelope)
    requires |x.Prev()| == |y.Prev()| && |x.Binding()| == |y.Binding()|
    requires H(x.Preimage()) == H(y.Preimage())
    ensures Collision(H, x.Preimage(), y.Preimage())
            || (x.Prev() == y.Prev() && x.Binding() == y.Binding() && x.Txn() + Dec(x.Ts()) == y.Txn() + Dec(y.Ts()))
  {
    PreimageDetermines(x.Prev(), x.Binding(), x.Txn(), x.Ts(), y.Prev(), y.Binding(), y.Txn(), y.Ts());
  }

  ghost predicate SameAt(a: seq<Envelope>, b: seq<Envelope>, d: nat) {
    1 <= d <= |a| && d <= |b| && SameText(Back(a, d), Back(b, d))
  }

  ghost predicate CollideAt(H: Hash, a: seq<Envelope>, b: seq<Envelope>, d: nat) {
    1 <= d <= |a| && d <= |b| && Collision(H, Back(a, d).Preimage(), Back(b, d).Preimage())
  }

  // the last n records of two chains, compared from the end
  ghost predicate SameTail(a: seq<Envelope>, b: seq<Envelope>, n: nat) {
    forall d :: 1 <= d <= n ==> SameAt(a, b, d)
  }

  // at some distance from the end the two chains hash distinct texts to one digest
  ghost predicate CollidingTail(H: Hash, a: seq<Envelope>, b: seq<Envelope>) {
    exists d :: CollideAt(H, a, b, d)
  }

  // behind the first record of a chain, the embedded predecessor is a digest
  lemma PrevIsDigest(H: Hash, es: seq<Envelope>, i: nat)
    requires HexDigests(H) && Linked(H, es) && 0 < i < |es|
    ensures es[i].Prev() == es[i - 1].Chain() && |es[i].Prev()| == HEX_WIDTH
  {
    assert LinkAt(es, i) && Recomputes(H, es[i - 1]);
    assert |H(es[i - 1].Preimage())| == HEX_WIDTH;
  }

  lemma RecomputesAt(H: Hash, es: seq<Envelope>, n: nat)
    requires Linked(H, es) && 1 <= n <= |es|
    ensures Recomputes(H, Back(es, n))
  {
    assert Back(es, n) == es[|es| - n];
  }

  // recomputing records of one digest have one text or collide
  lemma TailStep(H: Hash, a: seq<Envelope>, b: seq<Envelope>, n: nat)
    requires 1 <= n <= |a| && n <= |b| && Back(a, n).Chain() == Back(b, n).Chain()
    ensures SameAt(a, b, n) || CollideAt(H, a, b, n) || !Recomputes(H, Back(a, n)) || !Recomputes(H, Back(b, n))
  {
  }

  lemma PrevBack(H: Hash, es: seq<Envelope>, n: nat)
    requires HexDigests(H) && Linked(H, es) && 1 <= n < |es|
    ensures Back(es, n).Prev() == Back(es, n + 1).Chain() && |Back(es, n).Prev()| == HEX_WIDTH
  {
    PrevIsDigest(H, es, |es| - n);
  }

  lemma {:induction false} TailsAgree(H: Hash, a: seq<Envelope>, b: seq<Envelope>, n: nat)
    requires HexDigests(H) && Linked(H, a) && Linked(H, b)
    requires 1 <= n <= |a| && n <= |b| && Back(a, 1).Chain() == Back(b, 1).Chain()
    ensures SameTail(a, b, n) || CollidingTail(H, a, b)
    ensures CollidingTail(H, a, b) || Back(a, n).Chain() == Back(b, n).Chain()
  {
    if n > 1 {
      TailsAgree(H, a, b, n - 1);
      if !CollidingTail(H, a, b) {
        assert SameAt(a, b, n - 1);
        PrevBack(H, a, n - 1);
        PrevBack(H, b, n - 1);
        TextsAgree(Back(a, n - 1), Back(b, n - 1));
      }
    }
    if !CollidingTail(H, a, b) {
      RecomputesAt(H, a, n);
      RecomputesAt(H, b, n);
      TailStep(H, a, b, n);
    }
  }

  /** Two linked chains of one length that end in the same head agree at every
      position, or a position exhibits a hash collision.  No width is assumed
      but that the two first records embed equally wide predecessors. */
  lemma TamperEvidence(H: Hash, a: seq<Envelope>, b: seq<Envelope>)
    requires HexDigests(H) && Linked(H, a) && Linked(H, b)
    requires |a| == |b| > 0 && a[|a| - 1].Chain() == b[|b| - 1].Chain()
    requires |a[0].Prev()| == |b[0].Prev()|
    ensures (forall i :: 0 <= i < |a| ==> Agree(a[i], b[i])) || CollidingTail(H, a, b)
  {
    TailsAgree(H, a, b, |a|);
    if !CollidingTail(H, a, b) { SameTailEverywhere(H, a, b); }
  }

  lemma SameTailEverywhere(H: Hash, a: seq<Envelope>, b: seq<Envelope>)
    requires HexDigests(H) && Linked(H, a) && Linked(H, b)
    requires |a| == |b| && SameTail(a, b, |a|) && (a != [] ==> |a[0].Prev()| == |b[0].Prev()|)
    ensures forall i :: 0 <= i < |a| ==> Agree(a[i], b[i])
  {
    forall i | 0 <= i < |a|
      ensures Agree(a[i], b[i])
    {
      assert SameAt(a, b, |a| - i);
      if i > 0 {
        PrevIsDigest(H, a, i);
        PrevIsDigest(H, b, i);
      }
      TextsAgree(a[i], b[i]);
    }
  }

  // a record whose own link hashes to the genesis constant
  ghost predicate GenesisPreimage(H: Hash, es: seq<Envelope>) {
    exists i :: 0 <= i < |es| && H(es[i].Preimage()) == GENESIS
  }

  /** Chains rooted at genesis need not be assumed equally long: the common head
      fixes the length too, up to a collision or a preimage of genesis. */
  lemma HeadDeterminesLedger(H: Hash, a: seq<Envelope>, b: seq<Envelope>)
    requires HexDigests(H) && Linked(H, a) && Linked(H, b)
    requires |a| >= |b| > 0 && a[0].Prev() == b[0].Prev() == GENESIS
    requires a[|a| - 1].Chain() == b[|b| - 1].Chain()
    ensures || (|a| == |b| && forall i :: 0 <= i < |a| ==> Agree(a[i], b[i]))
            || CollidingTail(H, a, b)
            || GenesisPreimage(H, a)
  {
    TailsAgree(H, a, b, |b|);
    if !CollidingTail(H, a, b) {
      var d := |b|;
      assert SameAt(a, b, d);
      if |a| > |b| {
        PrevIsDigest(H, a, |a| - d);
        assert Recomputes(H, a[|a| - d - 1]);
        TextsAgree(a[|a| - d], b[0]);
        assert H(a[|a| - d - 1].Preimage()) == GENESIS;
      } else {
        SameTailEverywhere(H, a, b);
      }
    }
  }

  // what the walk reads of a record besides its pre-image
  ghost predicate SameToWalk(a: Envelope, b: Envelope) {
    && a.Preimage() == b.Preimage()
    && a.prevHash == b.prevHash && a.chainHash == b.chainHash && a.seqNo == b.seqNo
  }

  /** The walk sees the joined text only: an edit that keeps it - one that moves
      characters between binding hash, id and timestamp - changes no verdict. */
  lemma EditUndetected(H: Hash, es: seq<Envelope>, i: nat, e: Envelope)
    requires i < |es| && SameToWalk(es[i], e)
    ensures IntactChain(H, es[i := e]) <==> IntactChain(H, es)
  {
    var edited := es[i := e];
    assert edited[i := es[i]] == es;
    if IntactChain(H, es) { EditKeepsIntact(H, es, i, e); }
    if IntactChain(H, edited) { EditKeepsIntact(H, edited, i, es[i]); }
  }

  lemma EditKeepsIntact(H: Hash, es: seq<Envelope>, i: nat, e: Envelope)
    requires i < |es| && SameToWalk(es[i], e) && IntactChain(H, es)
    ensures IntactChain(H, es[i := e])
  {
    var edited := es[i := e];
    forall j | 0 <= j < |es| ensures Recomputes(H, edited[j]) { assert Recomputes(H, es[j]); }
    forall j | 0 < j < |es|
      ensures LinkAt(edited, j) && NoGapAt(edited, j)
    {
      assert LinkAt(es, j) && NoGapAt(es, j);
    }
  }

  // x moved from the front of the id to the end of the binding hash
  function MoveBoundary(e: Envelope, x: string, txn: string): Envelope {
    e.(bindingHash := Some(e.Binding() + x), txnId := Some(txn))
  }

  lemma MoveKeepsText(e: Envelope, x: string, txn: string)
    requires e.Txn() == x + txn
    ensures SameToWalk(e, MoveBoundary(e, x, txn))
  {
    BoundaryText(e.Prev(), e.Binding(), x, txn, e.Ts());
  }

  lemma MoveChangesBinding(e: Envelope, x: string, txn: string)
    requires x != ""
    ensures e.Binding() != MoveBoundary(e, x, txn).Binding()
  {
    assert |e.Binding() + x| > |e.Binding()|;
  }

  /** So the boundary of the binding hash can be moved in any record of any
      chain: another binding hash, the same verdict, the same head. */
  lemma BoundaryMoveInChain(H: Hash, es: seq<Envelope>, i: nat, x: string, txn: string)
    requires i < |es| && es[i].Txn() == x + txn && x != ""
    ensures var e := MoveBoundary(es[i], x, txn);
            && e.Binding() != es[i].Binding()
            && (IntactChain(H, es[i := e]) <==> IntactChain(H, es))
            && es[i := e][|es| - 1].Chain() == es[|es| - 1].Chain()
  {
    var e := MoveBoundary(es[i], x, txn);
    MoveKeepsText(es[i], x, txn);
    MoveChangesBinding(es[i], x, txn);
    EditUndetected(H, es, i, e);
    SameHeadAfter(es, i, e);
  }

  lemma SameHeadAfter(es: seq<Envelope>, i: nat, e: Envelope)
    requires i < |es| && e.Chain() == es[i].Chain()
    ensures es[i := e][|es| - 1].Chain() == es[|es| - 1].Chain()
  {
  }

  /** Adding what the signatures cover: records with equal links have equal
      signing payloads exactly when they agree on the id and on the timestamp
      separately - whatever the ids contain. */
  lemma SignedLinksAgree(a: Envelope, b: Envelope)
    requires SameLink(a, b)
    ensures (SigningPayload(a.Txn(), a.Binding(), a.Ts(), a.Chain())
             == SigningPayload(b.Txn(), b.Binding(), b.Ts(), b.Chain()))
            <==> (a.Txn() == b.Txn() && a.Ts() == b.Ts())
  {
    PayloadOfLink(a.Txn(), a.Ts(), b.Txn(), b.Ts(), a.Binding(), a.Chain());
  }
}
