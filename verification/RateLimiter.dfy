/** The per-address sliding-window rate limiter (core/gopher_server.py, RateLimiter). */
module RateLimiters {
  import opened Collections
  import opened Wrappers
  import opened RequestLog

  predicate Stale(q: seq<real>, cutoff: real) {
    q == [] || q[|q| - 1] < cutoff
  }

  /** The addresses of order whose queues are not stale. */
  function Fresh(order: seq<string>, requests: map<string, seq<real>>, cutoff: real): (kept: seq<string>)
    requires forall ip :: ip in order ==> ip in requests
    ensures |kept| <= |order|
    ensures forall ip :: ip in kept <==> ip in order && !Stale(requests[ip], cutoff)
  {
    if order == [] then []
    else
      var last := order[|order| - 1];
      var init := order[..|order| - 1];
      assert order == init + [last];
      Fresh(init, requests, cutoff) + (if Stale(requests[last], cutoff) then [] else [last])
  }

  lemma FreshEmpty(requests: map<string, seq<real>>, cutoff: real)
    ensures Fresh([], requests, cutoff) == []
  {
  }

  lemma FreshNext(order: seq<string>, i: nat, requests: map<string, seq<real>>, cutoff: real)
    requires i < |order| && forall ip :: ip in order ==> ip in requests
    ensures order[..i + 1] == order[..i] + [order[i]]
    ensures Fresh(order[..i + 1], requests, cutoff)
            == Fresh(order[..i], requests, cutoff) + (if Stale(requests[order[i]], cutoff) then [] else [order[i]])
  {
    assert order[..i + 1][..i] == order[..i];
  }

  lemma {:induction false} FreshDistinct(order: seq<string>, requests: map<string, seq<real>>, cutoff: real)
    requires forall ip :: ip in order ==> ip in requests
    requires Distinct(order)
    ensures Distinct(Fresh(order, requests, cutoff))
  {
    if order != [] {
      var last, init := order[|order| - 1], order[..|order| - 1];
      assert order == init + [last];
      FreshDistinct(init, requests, cutoff);
    }
  }

  function QueueIn(requests: map<string, seq<real>>, ip: string): seq<real> {
    if ip in requests then requests[ip] else []
  }

  /** Every queue remembers its address's accepted requests since horizon, except lost ones. */
  ghost predicate TracksAll(requests: map<string, seq<real>>, log: seq<Accept>, horizon: real, lost: Option<real>) {
    forall ip :: Tracks(QueueIn(requests, ip), Times(log, ip), horizon, lost)
  }

  ghost predicate Swept(before: map<string, seq<real>>, after: map<string, seq<real>>, cutoff: real) {
    && (forall ip :: ip in after <==> ip in before && !Stale(before[ip], cutoff))
    && (forall ip :: ip in after ==> after[ip] == before[ip])
  }

  lemma SweepTracks(
      before: map<string, seq<real>>, after: map<string, seq<real>>, log: seq<Accept>, cutoff: real,
      lost: Option<real>)
    requires Chronological(log) && TracksAll(before, log, cutoff, lost) && Swept(before, after, cutoff)
    ensures TracksAll(after, log, cutoff, lost)
  {
    hide Tracks, Times, SortedTimes, Chronological;
    forall ip
      ensures Tracks(QueueIn(after, ip), Times(log, ip), cutoff, lost)
    {
      assert Tracks(QueueIn(before, ip), Times(log, ip), cutoff, lost);
      TimesOf(log, ip);
      if ip in before && ip !in after {
        TracksStale(before[ip], Times(log, ip), cutoff, lost);
      }
    }
  }

  ghost predicate ValidOrder(order: seq<string>, requests: map<string, seq<real>>) {
    Distinct(order) && forall ip :: ip in order <==> ip in requests
  }

  /** The deletion loop of _sweep. */
  method RemoveStale(order: seq<string>, requests: map<string, seq<real>>, cutoff: real)
    returns (kept: seq<string>, table: map<string, seq<real>>)
    requires ValidOrder(order, requests)
    ensures ValidOrder(kept, table) && kept == Fresh(order, requests, cutoff) && Swept(requests, table, cutoff)
  {
    hide Distinct, Fresh, Stale;
    assert Fresh(order[..0], requests, cutoff) == [] by {
      FreshEmpty(requests, cutoff);
    }
    kept, table := [], requests;
    for i := 0 to |order|
      invariant kept == Fresh(order[..i], requests, cutoff)
      invariant forall ip :: ip in table <==> ip in requests && !(ip in order[..i] && Stale(requests[ip], cutoff))
      invariant forall ip :: ip in table ==> table[ip] == requests[ip]
    {
      var ip := order[i];
      FreshNext(order, i, requests, cutoff);
      if Stale(requests[ip], cutoff) {
        table := table - {ip};
      } else {
        kept := kept + [ip];
      }
    }
    assert order[..|order|] == order;
    FreshDistinct(order, requests, cutoff);
  }

  lemma SweptDomain(before: map<string, seq<real>>, after: map<string, seq<real>>, cutoff: real, ip: string)
    requires Swept(before, after, cutoff) && ip !in before
    ensures ip !in after
  {
  }

  /** After a sweep every tracked address has a request in the window. */
  lemma SweptAreLive(
      before: map<string, seq<real>>, after: map<string, seq<real>>, order: seq<string>, log: seq<Accept>,
      cutoff: real, lost: Option<real>, ip: string)
    requires Chronological(log) && Swept(before, after, cutoff)
    requires ValidOrder(order, after) && TracksAll(after, log, cutoff, lost) && ip !in after
    ensures |Live(log, cutoff) - {ip}| >= |order|
  {
    hide Times, Chronological;
    forall other | other in order
      ensures other in Live(log, cutoff) - {ip}
    {
      var q := after[other];
      assert Tracks(QueueIn(after, other), Times(log, other), cutoff, lost);
      TimesOf(log, other);
      assert q[|q| - 1] == Times(log, other)[|Times(log, other)| - 1];
      assert q[|q| - 1] in Times(log, other);
      var a :| a in log && a.time == q[|q| - 1] && a.ip == other;
      var i :| 0 <= i < |log| && log[i] == a;
    }
    DistinctFit(order, Live(log, cutoff) - {ip});
  }

  lemma DropFirst(order: seq<string>, requests: map<string, seq<real>>)
    requires ValidOrder(order, requests) && order != []
    ensures ValidOrder(order[1..], requests - {order[0]})
  {
    forall ip
      ensures ip in order[1..] <==> ip in requests - {order[0]}
    {
      if ip in order && ip != order[0] {
        var i :| 0 <= i < |order| && order[i] == ip;
        assert order[1..][i - 1] == ip;
      }
    }
  }

  lemma EvictTracks(
      requests: map<string, seq<real>>, victim: string, log: seq<Accept>, cutoff: real, lost: Option<real>,
      now: real)
    requires TracksAll(requests, log, cutoff, lost)
    requires Chronological(log) && forall a :: a in log ==> a.time <= now
    ensures TracksAll(requests - {victim}, log, cutoff, Some(now))
  {
    hide Tracks, Times, SortedTimes;
    forall ip
      ensures Tracks(QueueIn(requests - {victim}, ip), Times(log, ip), cutoff, Some(now))
    {
      TimesOf(log, ip);
      assert Tracks(QueueIn(requests, ip), Times(log, ip), cutoff, lost);
      TracksEvicted(QueueIn(requests, ip), Times(log, ip), cutoff, lost, now);
    }
  }

  lemma AddEmptyTracks(
      requests: map<string, seq<real>>, ip: string, log: seq<Accept>, cutoff: real, lost: Option<real>)
    requires TracksAll(requests, log, cutoff, lost) && ip !in requests
    ensures TracksAll(requests[ip := []], log, cutoff, lost)
  {
    ReplaceTracks(requests, ip, [], log, cutoff, lost);
  }

  lemma TracksOne(requests: map<string, seq<real>>, ip: string, log: seq<Accept>, cutoff: real, lost: Option<real>)
    requires TracksAll(requests, log, cutoff, lost)
    ensures Tracks(QueueIn(requests, ip), Times(log, ip), cutoff, lost)
  {
  }

  lemma ReplaceTracks(
      requests: map<string, seq<real>>, ip: string, q: seq<real>, log: seq<Accept>, cutoff: real,
      lost: Option<real>)
    requires TracksAll(requests, log, cutoff, lost)
    requires q == QueueIn(requests, ip) || Tracks(q, Times(log, ip), cutoff, lost)
    ensures TracksAll(requests[ip := q], log, cutoff, lost)
  {
    hide Tracks, Times;
    forall other
      ensures Tracks(QueueIn(requests[ip := q], other), Times(log, other), cutoff, lost)
    {
      assert Tracks(QueueIn(requests, other), Times(log, other), cutoff, lost);
    }
  }

  lemma TimesAppended(log: seq<Accept>, ip: string, now: real, other: string)
    ensures Times(log + [Accept(ip, now)], other)
            == if other == ip then Times(log, other) + [now] else Times(log, other)
  {
    assert (log + [Accept(ip, now)])[..|log|] == log;
  }

  lemma AppendTracks(
      requests: map<string, seq<real>>, ip: string, q: seq<real>, log: seq<Accept>, now: real, cutoff: real,
      lost: Option<real>)
    requires TracksAll(requests, log, cutoff, lost)
    requires q != [] && q[|q| - 1] == now && Tracks(q[..|q| - 1], Times(log, ip), cutoff, lost)
    ensures TracksAll(requests[ip := q], log + [Accept(ip, now)], cutoff, lost)
  {
    hide Tracks, Times;
    var longer := log + [Accept(ip, now)];
    forall other
      ensures Tracks(QueueIn(requests[ip := q], other), Times(longer, other), cutoff, lost)
    {
      assert Tracks(QueueIn(requests, other), Times(log, other), cutoff, lost);
      TimesAppended(log, ip, now, other);
      if other == ip {
        TracksAppended(q[..|q| - 1], Times(log, ip), cutoff, lost, now);
        assert q == q[..|q| - 1] + [now];
      }
    }
  }

  lemma AllTrackLater(
      requests: map<string, seq<real>>, log: seq<Accept>, horizon: real, horizon': real, lost: Option<real>)
    requires TracksAll(requests, log, horizon, lost) && horizon <= horizon'
    ensures TracksAll(requests, log, horizon', lost)
  {
    hide Times;
    forall ip
      ensures Tracks(QueueIn(requests, ip), Times(log, ip), horizon', lost)
    {
      assert Tracks(QueueIn(requests, ip), Times(log, ip), horizon, lost);
    }
  }

  /** The loop of is_allowed that drops the times before the window. */
  method Prune(queue: seq<real>, cutoff: real, ghost ts: seq<real>, ghost lost: Option<real>) returns (q: seq<real>)
    requires Tracks(queue, ts, cutoff, lost)
    ensures Tracks(q, ts, cutoff, lost) && (q == [] || q[0] >= cutoff)
  {
    hide Tracks;
    q := queue;
    while q != [] && q[0] < cutoff
      invariant Tracks(q, ts, cutoff, lost)
    {
      TracksWithoutFirst(q, ts, cutoff, lost);
      q := q[1..];
    }
  }

  lemma OrderWithLast(order: seq<string>, requests: map<string, seq<real>>, ip: string, q: seq<real>)
    requires ValidOrder(order, requests)
    ensures ip !in requests ==> ValidOrder(order + [ip], requests[ip := q])
    ensures ip in requests ==> ValidOrder(order, requests[ip := q])
  {
  }

  lemma LogAppended(log: seq<Accept>, ip: string, now: real)
    requires Chronological(log) && forall a :: a in log ==> a.time <= now
    ensures Chronological(log + [Accept(ip, now)]) && forall a :: a in log + [Accept(ip, now)] ==> a.time <= now
  {
    assert forall i :: 0 <= i < |log| ==> log[i] in log;
  }

  /** The last n of the addresses, or all of them if they are fewer. */
  function Newest(order: seq<string>, n: int): seq<string> {
    if n < 0 then [] else if n < |order| then order[|order| - n..] else order
  }

  lemma NewestAll(order: seq<string>, n: int)
    requires n >= |order|
    ensures Newest(order, n) == order
  {
  }

  lemma NewestNext(order: seq<string>, n: nat)
    requires 0 < n <= |order|
    ensures Newest(order, n) != [] && Newest(order, n)[1..] == Newest(order, n - 1)
  {
  }

  /** The queues of other addresses are as they were, or gone. */
  ghost predicate KeptFrom(before: map<string, seq<real>>, after: map<string, seq<real>>, ip: string) {
    forall other :: other in after && other != ip ==> other in before && after[other] == before[other]
  }

  lemma KeptItself(requests: map<string, seq<real>>, ip: string)
    ensures KeptFrom(requests, requests, ip)
  {
  }

  lemma SweptKept(before: map<string, seq<real>>, after: map<string, seq<real>>, cutoff: real, ip: string)
    requires Swept(before, after, cutoff)
    ensures KeptFrom(before, after, ip)
  {
  }

  lemma KeptFurther(a: map<string, seq<real>>, b: map<string, seq<real>>, c: map<string, seq<real>>, ip: string)
    requires KeptFrom(a, b, ip) && KeptFrom(b, c, ip)
    ensures KeptFrom(a, c, ip)
  {
  }

  lemma KeptWithout(before: map<string, seq<real>>, after: map<string, seq<real>>, ip: string, victim: string)
    requires KeptFrom(before, after, ip)
    ensures KeptFrom(before, after - {victim}, ip)
  {
  }

  lemma KeptWith(before: map<string, seq<real>>, after: map<string, seq<real>>, ip: string, q: seq<real>)
    requires KeptFrom(before, after, ip)
    ensures KeptFrom(before, after[ip := q], ip)
  {
  }

  /** Nothing stale is left but perhaps ip's own queue. */
  ghost predicate CleanBut(requests: map<string, seq<real>>, ip: string, cutoff: real) {
    forall other :: other in requests && other != ip ==> !Stale(requests[other], cutoff)
  }

  lemma SweptIsClean(before: map<string, seq<real>>, after: map<string, seq<real>>, ip: string, cutoff: real)
    requires Swept(before, after, cutoff)
    ensures CleanBut(after, ip, cutoff)
  {
  }

  lemma StaysClean(before: map<string, seq<real>>, after: map<string, seq<real>>, ip: string, cutoff: real)
    requires CleanBut(before, ip, cutoff) && KeptFrom(before, after, ip)
    ensures CleanBut(after, ip, cutoff)
  {
  }

  class RateLimiter {
    const limits: Limits
    const sweepEvery: int
    /** The tracked addresses, oldest first, and their queues of accepted times. */
    var order: seq<string>
    var requests: map<string, seq<real>>
    var blockedCount: nat
    var callsSinceSweep: int
    /** Every accepted request. */
    ghost var log: seq<Accept>
    /** The latest time seen, and the latest time a queue with requests in its window was dropped. */
    ghost var clock: real
    ghost var lost: Option<real>

    ghost predicate ValidLog()
      reads this
    {
      && Chronological(log)
      && (forall a :: a in log ==> a.time <= clock)
      && (lost.Some? ==> lost.value <= clock)
    }

    ghost predicate Valid()
      reads this
    {
      && limits.maxTracked >= 1 && |order| <= limits.maxTracked
      && ValidOrder(order, requests) && ValidLog()
      && TracksAll(requests, log, clock - limits.window, lost)
    }

    constructor (maxRequests: int, window: real, maxTracked: int, sweepEvery: int)
      requires maxTracked >= 1
      ensures Valid() && log == [] && lost == None && clock == 0.0
      ensures limits == Limits(maxRequests, window, maxTracked)
    {
      limits := Limits(maxRequests, window, maxTracked);
      this.sweepEvery := sweepEvery;
      order, requests := [], map[];
      blockedCount, callsSinceSweep := 0, 0;
      log, clock, lost := [], 0.0, None;
    }

    /** _sweep: forget the addresses with nothing left in the window. */
    method Sweep(cutoff: real)
      requires ValidOrder(order, requests) && ValidLog() && TracksAll(requests, log, cutoff, lost)
      modifies this`order, this`requests
      ensures ValidOrder(order, requests) && order == Fresh(old(order), old(requests), cutoff)
      ensures TracksAll(requests, log, cutoff, lost)
      ensures Swept(old(requests), requests, cutoff)
    {
      hide TracksAll, ValidOrder, Swept, Chronological;
      var kept, table := RemoveStale(order, requests, cutoff);
      SweepTracks(requests, table, log, cutoff, lost);
      order, requests := kept, table;
    }

    /** The eviction loop of is_allowed: the oldest addresses go first. */
    method Evict(ip: string, now: real)
      requires limits.maxTracked >= 1
      requires ValidOrder(order, requests) && ValidLog() && TracksAll(requests, log, now - limits.window, lost)
      requires clock == now && ip !in requests
      modifies this`order, this`requests, this`lost
      ensures order == Newest(old(order), limits.maxTracked - 1) && |order| < limits.maxTracked
      ensures ValidOrder(order, requests) && ValidLog() && TracksAll(requests, log, now - limits.window, lost)
      ensures ip !in requests && KeptFrom(old(requests), requests, ip)
      ensures |old(order)| < limits.maxTracked ==> lost == old(lost)
    {
      hide TracksAll, Stale, Live, Distinct, Chronological, KeptFrom, Newest;
      var cutoff := now - limits.window;
      KeptItself(requests, ip);
      NewestAll(order, |order|);
      if |order| < limits.maxTracked {
        NewestAll(order, limits.maxTracked - 1);
      }
      while |order| >= limits.maxTracked
        invariant order == Newest(old(order), |order|)
        invariant |order| == |old(order)| || |order| >= limits.maxTracked - 1
        invariant ValidOrder(order, requests) && ValidLog() && TracksAll(requests, log, cutoff, lost)
        invariant ip !in requests && KeptFrom(old(requests), requests, ip)
        invariant |old(order)| < limits.maxTracked ==> lost == old(lost)
      {
        EvictTracks(requests, order[0], log, cutoff, lost, now);
        NewestNext(old(order), |order|);
        DropFirst(order, requests);
        KeptWithout(old(requests), requests, ip, order[0]);
        requests := requests - {order[0]};
        order := order[1..];
        lost := Some(now);
      }
    }

    /** is_allowed, up to the address's own queue: the address has a queue afterwards. */
    method MakeRoom(ip: string, now: real)
      requires limits.maxTracked >= 1 && |order| <= limits.maxTracked
      requires ValidOrder(order, requests) && ValidLog() && TracksAll(requests, log, now - limits.window, lost)
      requires clock == now && ip !in requests
      modifies this`order, this`requests, this`lost
      ensures |order| <= limits.maxTracked && ValidOrder(order, requests) && ValidLog()
      ensures TracksAll(requests, log, now - limits.window, lost)
      ensures ip in requests && requests[ip] == [] && KeptFrom(old(requests), requests, ip)
      ensures order == (if |old(order)| < limits.maxTracked then old(order)
                        else Newest(Fresh(old(order), old(requests), now - limits.window),
                                    limits.maxTracked - 1)) + [ip]
      ensures lost == old(lost) || |Live(log, now - limits.window) - {ip}| >= limits.maxTracked
    {
      hide TracksAll, Swept, Stale, Live, Distinct, Chronological, KeptFrom, Newest, Fresh;
      var cutoff := now - limits.window;
      KeptItself(requests, ip);
      if |order| >= limits.maxTracked {
        Sweep(cutoff);
        SweptDomain(old(requests), requests, cutoff, ip);
        SweptAreLive(old(requests), requests, order, log, cutoff, lost, ip);
        SweptKept(old(requests), requests, cutoff, ip);
        ghost var swept := requests;
        Evict(ip, now);
        KeptFurther(old(requests), swept, requests, ip);
      }
      AddEmptyTracks(requests, ip, log, cutoff, lost);
      OrderWithLast(order, requests, ip, []);
      KeptWith(old(requests), requests, ip, []);
      requests := requests[ip := []];
      order := order + [ip];
    }

    /** is_allowed, once the address has a queue: prune, count, decide. */
    method Decide(ip: string, now: real) returns (allowed: bool)
      requires Valid() && clock == now && ip in requests
      modifies this`requests, this`blockedCount, this`log
      ensures Valid()
      ensures KeptFrom(old(requests), requests, ip)
      ensures log == if allowed then old(log) + [Accept(ip, now)] else old(log)
      ensures blockedCount == old(blockedCount) + if allowed then 0 else 1
      ensures Allows(limits, old(log), Call(ip, now)) ==> allowed
      ensures lost.None? || lost.value < now - limits.window ==>
        (allowed <==> Allows(limits, old(log), Call(ip, now)))
    {
      hide TracksAll, Count, Times, Tracks, ValidOrder, SortedTimes, CountTimes, Chronological, Distinct, Live,
           KeptFrom;
      var cutoff := now - limits.window;
      KeptItself(requests, ip);
      TracksOne(requests, ip, log, cutoff, lost);
      var q := Prune(requests[ip], cutoff, Times(log, ip), lost);
      TimesOf(log, ip);
      CountIsCountTimes(log, ip, cutoff);
      allowed := |q| < limits.maxRequests;
      TracksCountsAtMost(q, Times(log, ip), cutoff, lost);
      if lost.None? || lost.value < cutoff {
        TracksCounts(q, Times(log, ip), cutoff, lost);
      }
      OrderWithLast(order, requests, ip, q);
      KeptWith(requests, requests, ip, if allowed then q + [now] else q);
      if allowed {
        OrderWithLast(order, requests, ip, q + [now]);
        AppendTracks(requests, ip, q + [now], log, now, cutoff, lost);
        LogAppended(log, ip, now);
        requests, log := requests[ip := q + [now]], log + [Accept(ip, now)];
      } else {
        ReplaceTracks(requests, ip, q, log, cutoff, lost);
        requests, blockedCount := requests[ip := q], blockedCount + 1;
      }
    }

    /** The start of is_allowed: the clock, and a sweep every sweepEvery calls. */
    method Tick(ip: string, now: real)
      requires Valid() && now >= clock
      modifies this`callsSinceSweep, this`order, this`requests, this`clock
      ensures Valid() && clock == now
      ensures callsSinceSweep == (if old(callsSinceSweep) + 1 >= sweepEvery then 0 else old(callsSinceSweep) + 1)
      ensures if old(callsSinceSweep) + 1 >= sweepEvery then CleanBut(requests, ip, now - limits.window)
              else order == old(order) && requests == old(requests)
    {
      hide TracksAll, Swept, ValidOrder, Chronological, Fresh, CleanBut;
      var cutoff := now - limits.window;
      AllTrackLater(requests, log, clock - limits.window, cutoff, lost);
      clock := now;
      callsSinceSweep := callsSinceSweep + 1;
      if callsSinceSweep >= sweepEvery {
        callsSinceSweep := 0;
        Sweep(cutoff);
        SweptIsClean(old(requests), requests, ip, cutoff);
      }
    }

    /** is_allowed. */
    method IsAllowed(ip: string, now: real) returns (allowed: bool)
      requires Valid() && now >= clock
      modifies this
      ensures Valid() && clock == now
      ensures log == if allowed then old(log) + [Accept(ip, now)] else old(log)
      ensures blockedCount == old(blockedCount) + if allowed then 0 else 1
      ensures callsSinceSweep == (if old(callsSinceSweep) + 1 >= sweepEvery then 0 else old(callsSinceSweep) + 1)
      ensures old(callsSinceSweep) + 1 >= sweepEvery ==> CleanBut(requests, ip, now - limits.window)
      ensures lost == old(lost) || !Uncrowded(limits, old(log), Call(ip, now))
      ensures Allows(limits, old(log), Call(ip, now)) ==> allowed
      ensures lost.None? || lost.value < now - limits.window ==>
        (allowed <==> Allows(limits, old(log), Call(ip, now)))
    {
      hide TracksAll, Live, ValidOrder, Chronological, Allows, KeptFrom, Newest, Fresh, CleanBut;
      Tick(ip, now);
      ghost var swept := requests;
      KeptItself(requests, ip);
      if ip !in requests {
        MakeRoom(ip, now);
      }
      ghost var roomy := requests;
      allowed := Decide(ip, now);
      KeptFurther(swept, roomy, requests, ip);
      if old(callsSinceSweep) + 1 >= sweepEvery {
        StaysClean(swept, requests, ip, now - limits.window);
      }
    }
  }

  /** No call of a run meets a window with maxTracked other live addresses. */
  ghost predicate NeverCrowded(limits: Limits, calls: seq<Call>) {
    forall i :: 0 <= i < |calls| ==> Uncrowded(limits, LogOf(limits, calls[..i]), calls[i])
  }

  lemma LogOfNone(limits: Limits, calls: seq<Call>)
    ensures LogOf(limits, calls[..0]) == []
  {
  }

  lemma CallsInOrder(calls: seq<Call>, i: nat)
    requires InOrder(calls) && i < |calls|
    ensures i > 0 ==> calls[i - 1].now <= calls[i].now
  {
  }

  lemma LogOfNext(limits: Limits, calls: seq<Call>, i: nat)
    requires i < |calls|
    ensures LogOf(limits, calls[..i + 1]) == After(limits, LogOf(limits, calls[..i]), calls[i])
  {
    assert calls[..i + 1][..i] == calls[..i];
  }

  /** Every call up to i is uncrowded, in the log of the answers before it. */
  ghost predicate Spacious(limits: Limits, calls: seq<Call>, decisions: seq<bool>, i: nat)
    requires i <= |calls| && i <= |decisions|
  {
    forall k :: 0 <= k < i ==> Uncrowded(limits, Answered(calls, decisions, k), calls[k])
  }

  /** How the answers follow from the calls: the unbounded log would give them, or only refuse more. */
  ghost predicate Decided(limits: Limits, calls: seq<Call>, decisions: seq<bool>, k: nat)
    requires k < |calls| && k < |decisions|
  {
    var log := Answered(calls, decisions, k);
    && (Allows(limits, log, calls[k]) ==> decisions[k])
    && (Spacious(limits, calls, decisions, k) && Uncrowded(limits, log, calls[k]) ==>
          decisions[k] == Allows(limits, log, calls[k]))
  }

  lemma SpaciousMore(limits: Limits, calls: seq<Call>, decisions: seq<bool>, more: seq<bool>, i: nat)
    requires i <= |calls| && i <= |decisions| && decisions <= more
    ensures Spacious(limits, calls, decisions, i) == Spacious(limits, calls, more, i)
  {
    hide Uncrowded, Answered;
    forall k | 0 <= k < i
      ensures Answered(calls, decisions, k) == Answered(calls, more, k)
    {
      AnsweredMore(calls, decisions, more, k);
    }
  }

  lemma DecidedMore(limits: Limits, calls: seq<Call>, decisions: seq<bool>, more: seq<bool>, k: nat)
    requires k < |calls| && k < |decisions| && decisions <= more
    ensures Decided(limits, calls, decisions, k) == Decided(limits, calls, more, k)
  {
    hide Uncrowded, Answered, Allows, Spacious;
    AnsweredMore(calls, decisions, more, k);
    SpaciousMore(limits, calls, decisions, more, k);
  }

  /** One more answer. */
  lemma AnswerNext(limits: Limits, calls: seq<Call>, decisions: seq<bool>, allowed: bool)
    requires |decisions| < |calls|
    requires var log := Answered(calls, decisions, |decisions|);
      && (Allows(limits, log, calls[|decisions|]) ==> allowed)
      && (Spacious(limits, calls, decisions, |decisions|) && Uncrowded(limits, log, calls[|decisions|]) ==>
            allowed == Allows(limits, log, calls[|decisions|]))
    requires forall k :: 0 <= k < |decisions| ==> Decided(limits, calls, decisions, k)
    ensures var more, n := decisions + [allowed], |decisions|;
      && (forall k :: 0 <= k <= n ==> Decided(limits, calls, more, k))
      && Answered(calls, more, n + 1)
         == Answered(calls, decisions, n) + (if allowed then [Accept(calls[n].ip, calls[n].now)] else [])
      && (Spacious(limits, calls, more, n + 1) ==>
            Spacious(limits, calls, decisions, n) && Uncrowded(limits, Answered(calls, decisions, n), calls[n]))
  {
    hide Uncrowded, Allows;
    var more, n := decisions + [allowed], |decisions|;
    AnsweredMore(calls, decisions, more, n);
    SpaciousMore(limits, calls, decisions, more, n);
    forall k | 0 <= k < n
      ensures Decided(limits, calls, more, k)
    {
      DecidedMore(limits, calls, decisions, more, k);
    }
  }

  /** What the answers say of the calls. */
  lemma DecidedMeans(limits: Limits, calls: seq<Call>, decisions: seq<bool>, i: nat)
    requires |decisions| == |calls| && i < |calls| && Decided(limits, calls, decisions, i)
    ensures |Passed(calls, decisions, limits.window, i)| < limits.maxRequests ==> decisions[i]
    ensures Roomy(limits, calls, decisions, i) ==>
      (decisions[i] <==> |Passed(calls, decisions, limits.window, i)| < limits.maxRequests)
  {
    hide Uncrowded, Allows, Answered, Others, Passed;
    AllowsAnswered(limits, calls, decisions, i);
    forall k | 0 <= k <= i
      ensures Uncrowded(limits, Answered(calls, decisions, k), calls[k])
              <==> |Others(calls, decisions, limits.window, k)| < limits.maxTracked
    {
      UncrowdedAnswered(limits, calls, decisions, k);
    }
  }

  lemma AnsweredNone(calls: seq<Call>)
    ensures Answered(calls, [], 0) == []
  {
  }

  /**
   A whole run of is_allowed. A call is let through whenever fewer than
   maxRequests calls of its address were accepted in its window, and while there
   is room exactly then: bounded and lazily swept, the limiter decides as the
   unbounded log does.
   */
  method Serve(limiter: RateLimiter, calls: seq<Call>) returns (decisions: seq<bool>)
    requires limiter.Valid() && limiter.log == [] && limiter.lost == None
    requires InOrder(calls) && (calls != [] ==> limiter.clock <= calls[0].now)
    modifies limiter
    ensures limiter.Valid() && |decisions| == |calls|
    ensures NeverCrowded(limiter.limits, calls) ==> limiter.log == LogOf(limiter.limits, calls)
    ensures NeverCrowded(limiter.limits, calls) ==> forall i :: 0 <= i < |calls| ==>
      decisions[i] == Allows(limiter.limits, LogOf(limiter.limits, calls[..i]), calls[i])
    ensures forall i :: 0 <= i < |calls| ==>
      |Passed(calls, decisions, limiter.limits.window, i)| < limiter.limits.maxRequests ==> decisions[i]
    ensures forall i :: 0 <= i < |calls| && Roomy(limiter.limits, calls, decisions, i) ==>
      (decisions[i] <==> |Passed(calls, decisions, limiter.limits.window, i)| < limiter.limits.maxRequests)
  {
    hide Uncrowded, Allows, LogOf, InOrder, TracksAll, ValidOrder, Chronological, Answered, Decided, Spacious, Roomy,
         Passed;
    assert LogOf(limiter.limits, calls[..0]) == [] by {
      LogOfNone(limiter.limits, calls);
    }
    decisions := [];
    assert Answered(calls, decisions, 0) == [] by {
      AnsweredNone(calls);
    }
    for i := 0 to |calls|
      invariant limiter.Valid() && |decisions| == i
      invariant i > 0 ==> limiter.clock == calls[i - 1].now
      invariant i == 0 ==> limiter.clock == old(limiter.clock)
      invariant NeverCrowded(limiter.limits, calls) ==>
        limiter.lost == None && limiter.log == LogOf(limiter.limits, calls[..i])
      invariant NeverCrowded(limiter.limits, calls) ==> forall k :: 0 <= k < i ==>
        decisions[k] == Allows(limiter.limits, LogOf(limiter.limits, calls[..k]), calls[k])
      invariant limiter.log == Answered(calls, decisions, i)
      invariant Spacious(limiter.limits, calls, decisions, i) ==> limiter.lost == None
      invariant forall k :: 0 <= k < i ==> Decided(limiter.limits, calls, decisions, k)
    {
      LogOfNext(limiter.limits, calls, i);
      CallsInOrder(calls, i);
      assert Call(calls[i].ip, calls[i].now) == calls[i];
      var allowed := limiter.IsAllowed(calls[i].ip, calls[i].now);
      AnswerNext(limiter.limits, calls, decisions, allowed);
      decisions := decisions + [allowed];
    }
    assert calls[..|calls|] == calls;
    forall i | 0 <= i < |calls|
      ensures |Passed(calls, decisions, limiter.limits.window, i)| < limiter.limits.maxRequests ==> decisions[i]
      ensures Roomy(limiter.limits, calls, decisions, i) ==>
        (decisions[i] <==> |Passed(calls, decisions, limiter.limits.window, i)| < limiter.limits.maxRequests)
    {
      DecidedMeans(limiter.limits, calls, decisions, i);
    }
  }
}
