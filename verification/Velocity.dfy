/** The sliding-window event counter per account.  Times are integer nanoseconds. */
module Velocity {
  import opened Wrappers

  datatype Recorded = Recorded(account: string, ts: int)

  // ---- specification over event lists ----

  // the times recorded for one account, in arrival order
  function EventsOf(history: seq<Recorded>, account: string): seq<int> {
    if history == [] then []
    else
      var front, last := history[..|history| - 1], history[|history| - 1];
      EventsOf(front, account) + if last.account == account then [last.ts] else []
  }

  function CountAfter(ts: seq<int>, cutoff: int): nat {
    if ts == [] then 0 else CountAfter(ts[..|ts| - 1], cutoff) + if ts[|ts| - 1] > cutoff then 1 else 0
  }

  // the events behind the cutoff
  ghost function After(ts: seq<int>, cutoff: int): set<nat> {
    set i: nat | i < |ts| && ts[i] > cutoff
  }

  /** The count is the number of events behind the cutoff, each counted once. */
  lemma {:induction false} CountIsCardinality(ts: seq<int>, cutoff: int)
    ensures CountAfter(ts, cutoff) == |After(ts, cutoff)|
  {
    if ts == [] {
      assert After(ts, cutoff) == {};
    } else {
      var front, n := ts[..|ts| - 1], |ts| - 1;
      CountIsCardinality(front, cutoff);
      assert After(ts, cutoff) == After(front, cutoff) + if ts[n] > cutoff then {n} else {};
    }
  }

  // drop from the front while the front is older than cutoff
  function Trim(dq: seq<int>, cutoff: int): seq<int> {
    if dq != [] && dq[0] < cutoff then Trim(dq[1..], cutoff) else dq
  }

  // the deque of an account after its events arrived in this order
  function DequeOf(events: seq<int>, window: nat): seq<int> {
    if events == [] then [] else
      var ts := events[|events| - 1];
      Trim(DequeOf(events[..|events| - 1], window) + [ts], ts - window)
  }

  lemma {:induction false} CountConcat(a: seq<int>, b: seq<int>, cutoff: int)
    ensures CountAfter(a + b, cutoff) == CountAfter(a, cutoff) + CountAfter(b, cutoff)
  {
    if b == [] {
      assert a + b == a;
    } else {
      CountConcat(a, b[..|b| - 1], cutoff);
      assert (a + b)[..|a + b| - 1] == a + b[..|b| - 1];
    }
  }

  // ---- exactly which events a deque still holds ----

  /** A later arrival has put the window past event m. */
  ghost predicate Outlived(events: seq<int>, window: nat, m: nat) {
    m < |events| && exists j :: m < j < |events| && events[m] < events[j] - window
  }

  // the first k events are outlived and the next one, if any, is not
  ghost predicate Evicted(events: seq<int>, window: nat, k: nat) {
    && k <= |events| && (forall m :: 0 <= m < k ==> Outlived(events, window, m))
    && (k < |events| ==> !Outlived(events, window, k))
  }

  // front eviction stops at the first element that is not older than the cutoff
  lemma {:induction false} TrimStops(dq: seq<int>, cutoff: int) returns (k: nat)
    ensures k <= |dq| && Trim(dq, cutoff) == dq[k..]
    ensures (forall i :: 0 <= i < k ==> dq[i] < cutoff) && (k < |dq| ==> dq[k] >= cutoff)
  {
    if dq != [] && dq[0] < cutoff {
      var rest := dq[1..];
      var j := TrimStops(rest, cutoff);
      k := j + 1;
      forall i | 0 <= i < k ensures dq[i] < cutoff { if i > 0 { assert rest[i - 1] == dq[i]; } }
    } else {
      k := 0;
    }
  }

  lemma OutlivedLater(front: seq<int>, ts: int, window: nat, m: nat)
    requires m < |front|
    ensures Outlived(front + [ts], window, m) <==> Outlived(front, window, m) || front[m] < ts - window
  {
    var events := front + [ts];
    if Outlived(front, window, m) {
      var j :| m < j < |front| && front[m] < front[j] - window;
      assert events[j] == front[j];
    }
    if front[m] < ts - window { assert events[|front|] == ts; }
  }

  // whatever would outlive k would have outlived the older survivor before it
  lemma SurvivorShields(front: seq<int>, window: nat, k0: nat, k: nat)
    requires k0 < k < |front| && !Outlived(front, window, k0) && front[k0] < front[k]
    ensures !Outlived(front, window, k)
  {
    forall j | k < j < |front| ensures front[k] >= front[j] - window { }
  }

  lemma NewBoundary(front: seq<int>, ts: int, window: nat, k0: nat, k: nat)
    requires Evicted(front, window, k0) && k0 <= k <= |front|
    requires forall i :: k0 <= i < k ==> front[i] < ts - window
    requires k < |front| ==> front[k] >= ts - window
    ensures Evicted(front + [ts], window, k)
  {
    forall m | 0 <= m < k
      ensures Outlived(front + [ts], window, m)
    {
      OutlivedLater(front, ts, window, m);
    }
    if k < |front| {
      OutlivedLater(front, ts, window, k);
      if k0 < k { SurvivorShields(front, window, k0, k); }
    }
  }

  /** The deque holds exactly the events from the first one not outlived. */
  lemma {:induction false} DequeExact(events: seq<int>, window: nat) returns (k: nat)
    ensures Evicted(events, window, k) && DequeOf(events, window) == events[k..]
  {
    if events == [] {
      k := 0;
    } else {
      var front, ts := events[..|events| - 1], events[|events| - 1];
      assert events == front + [ts];
      var k0 := DequeExact(front, window);
      var j := TrimStops(front[k0..] + [ts], ts - window);
      k := k0 + j;
      TrimmedRest(front, ts, k0, j, ts - window);
      NewBoundary(front, ts, window, k0, k);
    }
  }

  // the trimmed list in terms of the whole one; the new arrival itself stays
  lemma TrimmedRest(front: seq<int>, ts: int, k0: nat, j: nat, cutoff: int)
    requires k0 <= |front| && cutoff <= ts
    requires var grown := front[k0..] + [ts];
             && j <= |grown| && (forall i :: 0 <= i < j ==> grown[i] < cutoff) && (j < |grown| ==> grown[j] >= cutoff)
    ensures k0 + j <= |front| && (front[k0..] + [ts])[j..] == (front + [ts])[k0 + j..]
    ensures forall i :: k0 <= i < k0 + j ==> front[i] < cutoff
    ensures k0 + j < |front| ==> front[k0 + j] >= cutoff
  {
    var grown := front[k0..] + [ts];
    assert grown[|grown| - 1] == ts;
    forall i | k0 <= i < k0 + j ensures front[i] < cutoff { assert grown[i - k0] == front[i]; }
    if k0 + j < |front| { assert grown[j] == front[k0 + j]; }
  }

  /** Every event up to i has been outlived: i itself is gone from the deque. */
  ghost predicate Gone(events: seq<int>, window: nat, i: nat) {
    i < |events| && forall m :: 0 <= m <= i ==> Outlived(events, window, m)
  }

  ghost predicate NoneGoneAfter(events: seq<int>, window: nat, cutoff: int) {
    forall i: nat :: Gone(events, window, i) ==> events[i] <= cutoff
  }

  lemma {:induction false} CountIsZero(ts: seq<int>, cutoff: int)
    ensures CountAfter(ts, cutoff) == 0 <==> forall i :: 0 <= i < |ts| ==> ts[i] <= cutoff
  {
    if ts != [] {
      var front := ts[..|ts| - 1];
      CountIsZero(front, cutoff);
      if forall i :: 0 <= i < |front| ==> front[i] <= cutoff {
        assert forall i :: 0 <= i < |front| ==> ts[i] == front[i];
      } else {
        var i :| 0 <= i < |front| && front[i] > cutoff;
        assert ts[i] > cutoff;
      }
    }
  }

  /** For any time asked about: the deque never counts an event too many, and it
      counts them all exactly when no event that is gone lies after the cutoff. */
  lemma CountExactIff(events: seq<int>, window: nat, cutoff: int)
    ensures CountAfter(DequeOf(events, window), cutoff) <= CountAfter(events, cutoff)
    ensures CountAfter(DequeOf(events, window), cutoff) == CountAfter(events, cutoff)
            <==> NoneGoneAfter(events, window, cutoff)
  {
    var k := DequeExact(events, window);
    var lost := events[..k];
    assert events == lost + events[k..];
    CountConcat(lost, events[k..], cutoff);
    CountIsZero(lost, cutoff);
    LostAreGone(events, window, k, cutoff);
  }

  lemma LostAreGone(events: seq<int>, window: nat, k: nat, cutoff: int)
    requires Evicted(events, window, k)
    ensures NoneGoneAfter(events, window, cutoff) <==> forall i :: 0 <= i < |events[..k]| ==> events[..k][i] <= cutoff
  {
    var lost := events[..k];
    assert forall i: nat :: Gone(events, window, i) <==> i < k;
    if NoneGoneAfter(events, window, cutoff) {
      forall i | 0 <= i < |lost| ensures lost[i] <= cutoff { assert Gone(events, window, i); }
    }
    if forall i :: 0 <= i < |lost| ==> lost[i] <= cutoff {
      forall i: nat | Gone(events, window, i) ensures events[i] <= cutoff { assert lost[i] == events[i]; }
    }
  }

  /** Asked at a time no earlier than any recorded one, the deque knows every
      event of the window - in whatever order the events arrived. */
  lemma CountExact(events: seq<int>, window: nat, asOf: int)
    requires forall i :: 0 <= i < |events| ==> events[i] <= asOf
    ensures CountAfter(DequeOf(events, window), asOf - window) == CountAfter(events, asOf - window)
  {
    CountExactIff(events, window, asOf - window);
    forall i: nat | Gone(events, window, i)
      ensures events[i] <= asOf - window
    {
      assert Outlived(events, window, i);
    }
  }

  /** A late event is counted at its own time without a window mate that a
      later-stamped event has already put past the window. */
  lemma LateEventUndercounts(events: seq<int>, window: nat, late: int, i: nat)
    requires Gone(events, window, i) && events[i] > late - window
    ensures CountAfter(DequeOf(events + [late], window), late - window) < CountAfter(events + [late], late - window)
  {
    var more := events + [late];
    forall m | 0 <= m <= i
      ensures Outlived(more, window, m)
    {
      OutlivedLater(events, late, window, m);
      assert Outlived(events, window, m);
    }
    assert Gone(more, window, i) && more[i] == events[i];
    CountExactIff(more, window, late - window);
  }

  /** Such events exist: window 3600, arrivals at 1 and 10000, then one at 2. */
  lemma LateEventExample()
    ensures CountAfter(DequeOf([1, 10000, 2], 3600), 2 - 3600) < CountAfter([1, 10000, 2], 2 - 3600)
  {
    var events := [1, 10000];
    assert events[0] < events[1] - 3600;
    assert Outlived(events, 3600, 0);
    LateEventUndercounts(events, 3600, 2, 0);
    assert events + [2] == [1, 10000, 2];
  }

  // ---- the tracker ----

  const PRUNE_SCAN := 1000

  // among the given keys, those whose deque is empty
  function StaleKeys(keys: seq<string>, deques: map<string, seq<int>>): seq<string> {
    if keys == [] then [] else
      var front, last := keys[..|keys| - 1], keys[|keys| - 1];
      StaleKeys(front, deques) + if last in deques && deques[last] == [] then [last] else []
  }

  function Without(keys: seq<string>, gone: string): seq<string> {
    if keys == [] then [] else
      Without(keys[..|keys| - 1], gone) + if keys[|keys| - 1] == gone then [] else [keys[|keys| - 1]]
  }

  lemma {:induction false} NoStaleKeys(keys: seq<string>, deques: map<string, seq<int>>)
    requires forall key :: key in deques ==> deques[key] != []
    ensures StaleKeys(keys, deques) == []
  {
    if keys != [] { NoStaleKeys(keys[..|keys| - 1], deques); }
  }

  // accounts in order of their first event
  function FirstSeen(history: seq<Recorded>): seq<string> {
    if history == [] then [] else
      var front, last := FirstSeen(history[..|history| - 1]), history[|history| - 1].account;
      if last in front then front else front + [last]
  }

  lemma {:induction false} SeenIffEvents(history: seq<Recorded>, account: string)
    ensures account in FirstSeen(history) <==> EventsOf(history, account) != []
  {
    if history != [] { SeenIffEvents(history[..|history| - 1], account); }
  }

  /** The deque of an account that was ever seen is never empty. */
  lemma SeenAccountsHaveEvents(history: seq<Recorded>, account: string, window: nat)
    requires account in FirstSeen(history)
    ensures DequeOf(EventsOf(history, account), window) != []
  {
    SeenIffEvents(history, account);
    var events := EventsOf(history, account);
    var k := DequeExact(events, window);
    assert !Outlived(events, window, |events| - 1);
  }

  // one more event changes the list of its own account only
  lemma HistoryStep(history: seq<Recorded>, account: string, ts: int)
    ensures var more := history + [Recorded(account, ts)];
            && EventsOf(more, account) == EventsOf(history, account) + [ts]
            && (forall a :: a != account ==> EventsOf(more, a) == EventsOf(history, a))
            && FirstSeen(more)
               == (if account in FirstSeen(history) then FirstSeen(history) else FirstSeen(history) + [account])
            && forall w: nat ::
                 DequeOf(EventsOf(more, account), w) == Trim(DequeOf(EventsOf(history, account), w) + [ts], ts - w)
  {
    var more := history + [Recorded(account, ts)];
    assert more[..|history|] == history;
    var events := EventsOf(history, account);
    assert (events + [ts])[..|events|] == events;
  }

  ghost predicate Tables(accounts: seq<string>, deques: map<string, seq<int>>, history: seq<Recorded>, window: nat) {
    accounts == FirstSeen(history) && forall a :: TableAt(deques, history, window, a)
  }

  ghost predicate TableAt(deques: map<string, seq<int>>, history: seq<Recorded>, window: nat, a: string) {
    && (a in deques <==> EventsOf(history, a) != [])
    && (a in deques ==> deques[a] == DequeOf(EventsOf(history, a), window))
  }

  // an unseen account has the empty deque
  lemma CurrentDeque(accounts: seq<string>, deques: map<string, seq<int>>, history: seq<Recorded>, window: nat,
                     account: string)
    requires Tables(accounts, deques, history, window)
    ensures (if account in deques then deques[account] else []) == DequeOf(EventsOf(history, account), window)
    ensures account in deques <==> account in FirstSeen(history)
  {
    assert TableAt(deques, history, window, account);
    SeenIffEvents(history, account);
  }

  // the tables after one more event
  lemma AppendStep(accounts: seq<string>, deques: map<string, seq<int>>, history: seq<Recorded>, window: nat,
                   account: string, ts: int, keys: seq<string>, table: map<string, seq<int>>)
    requires Tables(accounts, deques, history, window)
    requires keys == if account in deques then accounts else accounts + [account]
    requires table == deques[account := Trim((if account in deques then deques[account] else []) + [ts], ts - window)]
    ensures Tables(keys, table, history + [Recorded(account, ts)], window)
  {
    CurrentDeque(accounts, deques, history, window, account);
    HistoryStep(history, account, ts);
    var more := history + [Recorded(account, ts)];
    forall a
      ensures TableAt(table, more, window, a)
    {
      assert TableAt(deques, history, window, a);
    }
  }

  /** Never above the true number of events of the window, equal to it exactly
      when none of them is gone, and always equal at the latest time so far. */
  ghost predicate CountsWindow(events: seq<int>, window: nat, now: int, n: nat) {
    && n <= |After(events, now - window)|
    && (n == |After(events, now - window)| <==> NoneGoneAfter(events, window, now - window))
    && ((forall i :: 0 <= i < |events| ==> events[i] <= now) ==> n == |After(events, now - window)|)
  }

  lemma CountOf(events: seq<int>, window: nat, now: int)
    ensures CountsWindow(events, window, now, CountAfter(DequeOf(events, window), now - window))
  {
    CountExactIff(events, window, now - window);
    CountIsCardinality(events, now - window);
    if forall i :: 0 <= i < |events| ==> events[i] <= now { CountExact(events, window, now); }
  }

  class VelocityTracker {
    const window: nat
    const maxAccounts: nat
    var accounts: seq<string>               // keys in insertion order
    var deques: map<string, seq<int>>
    ghost var history: seq<Recorded>

    /** The tables are a function of everything ever recorded: no account is
        ever dropped, and each deque is the trimmed list of its events. */
    ghost predicate Valid()
      reads this
    {
      Tables(accounts, deques, history, window)
    }

    constructor (window: nat, maxAccounts: nat)
      ensures Valid() && history == [] && this.window == window
    {
      this.window := window;
      this.maxAccounts := maxAccounts;
      accounts := [];
      deques := map[];
      history := [];
    }

    lemma DequesNonEmpty()
      requires Valid()
      ensures forall a :: a in deques ==> deques[a] != []
    {
      forall a | a in deques
        ensures deques[a] != []
      {
        CurrentDeque(accounts, deques, history, window, a);
        SeenAccountsHaveEvents(history, a, window);
      }
    }

    // evict from the front
    method Evict(dq: seq<int>, cutoff: int) returns (r: seq<int>)
      ensures r == Trim(dq, cutoff)
    {
      r := dq;
      while r != [] && r[0] < cutoff
        invariant Trim(r, cutoff) == Trim(dq, cutoff)
      {
        r := r[1..];
      }
    }

    // append the time to the account's deque, creating it if needed
    method Append(account: string, ts: int)
      requires Valid()
      modifies this
      ensures Valid() && history == old(history) + [Recorded(account, ts)]
    {
      var current := if account in deques then deques[account] else [];
      var dq := Evict(current + [ts], ts - window);
      var keys := if account in deques then accounts else accounts + [account];
      var table := deques[account := dq];
      AppendStep(accounts, deques, history, window, account, ts, keys, table);
      accounts, deques, history := keys, table, history + [Recorded(account, ts)];
    }

    // remove the given keys
    method Forget(stale: seq<string>)
      modifies this`accounts, this`deques
      ensures stale == [] ==> accounts == old(accounts) && deques == old(deques)
    {
      for i := 0 to |stale|
        invariant i == 0 ==> accounts == old(accounts) && deques == old(deques)
      {
        accounts := Without(accounts, stale[i]);
        deques := deques - {stale[i]};
      }
    }

    /** Drop the empty deques among the first keys: there never are any, so the
        number of accounts is not bounded by maxAccounts. */
    method Prune()
      requires Valid()
      modifies this`accounts, this`deques
      ensures Valid() && accounts == old(accounts) && deques == old(deques)
    {
      if |accounts| > maxAccounts {
        var scan := if |accounts| <= PRUNE_SCAN then accounts else accounts[..PRUNE_SCAN];
        var stale := StaleKeys(scan, deques);
        DequesNonEmpty();
        NoStaleKeys(scan, deques);
        Forget(stale);
      }
    }

    /** Record one event; a missing or zero time is replaced by the clock. */
    method Record(account: string, timestamp: Option<int>, clock: int)
      requires Valid()
      modifies this
      ensures Valid()
      ensures history == old(history) + [Recorded(account, if timestamp.GetOr(0) == 0 then clock else timestamp.value)]
    {
      Append(account, if timestamp.GetOr(0) == 0 then clock else timestamp.value);
      Prune();
    }

    /** Events of the trailing window, measured from event time. */
    method Count(account: string, asOf: Option<int>, clock: int) returns (n: nat)
      requires Valid()
      ensures var now := if asOf.GetOr(0) == 0 then clock else asOf.value;
              CountsWindow(EventsOf(history, account), window, now, n)
    {
      var now := if asOf.GetOr(0) == 0 then clock else asOf.value;
      n := if account in deques then CountAfter(deques[account], now - window) else 0;
      CurrentDeque(accounts, deques, history, window, account);
      CountOf(EventsOf(history, account), window, now);
    }
  }
}
