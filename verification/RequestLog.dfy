/** The plain log of accepted requests that the rate limiter is measured against. */
module RequestLog {
  import opened Wrappers
  import opened Collections

  datatype Accept = Accept(ip: string, time: real)

  datatype Call = Call(ip: string, now: real)

  /** How many requests of ip were accepted at or after since. */
  function Count(log: seq<Accept>, ip: string, since: real): nat {
    if log == [] then 0
    else
      var last := log[|log| - 1];
      Count(log[..|log| - 1], ip, since) + (if last.ip == ip && last.time >= since then 1 else 0)
  }

  /** The addresses with an accepted request at or after since. */
  function Live(log: seq<Accept>, since: real): set<string> {
    set i | 0 <= i < |log| && log[i].time >= since :: log[i].ip
  }

  predicate Chronological(log: seq<Accept>) {
    forall i, j :: 0 <= i < j < |log| ==> log[i].time <= log[j].time
  }

  // ----- the decisions of an unbounded log

  datatype Limits = Limits(maxRequests: int, window: real, maxTracked: int)

  predicate Allows(limits: Limits, log: seq<Accept>, call: Call) {
    Count(log, call.ip, call.now - limits.window) < limits.maxRequests
  }

  function After(limits: Limits, log: seq<Accept>, call: Call): seq<Accept> {
    if Allows(limits, log, call) then log + [Accept(call.ip, call.now)] else log
  }

  /** The log of accepted requests after the calls. */
  function LogOf(limits: Limits, calls: seq<Call>): seq<Accept> {
    if calls == [] then []
    else After(limits, LogOf(limits, calls[..|calls| - 1]), calls[|calls| - 1])
  }

  /** Fewer than maxTracked other addresses have an accepted request in the call's window. */
  predicate Uncrowded(limits: Limits, log: seq<Accept>, call: Call) {
    |Live(log, call.now - limits.window) - {call.ip}| < limits.maxTracked
  }

  predicate InOrder(calls: seq<Call>) {
    forall i, j :: 0 <= i < j < |calls| ==> calls[i].now <= calls[j].now
  }

  // ----- no window holds more than maxRequests

  /** The requests of ip accepted in the closed interval from start to end. */
  function CountWithin(log: seq<Accept>, ip: string, start: real, end: real): nat {
    if log == [] then 0
    else
      var last := log[|log| - 1];
      CountWithin(log[..|log| - 1], ip, start, end) + (if last.ip == ip && start <= last.time <= end then 1 else 0)
  }

  lemma {:induction false} CountWithinAtMost(log: seq<Accept>, ip: string, start: real, end: real, since: real)
    requires since <= start
    ensures CountWithin(log, ip, start, end) <= Count(log, ip, since)
  {
    if log != [] {
      CountWithinAtMost(log[..|log| - 1], ip, start, end, since);
    }
  }

  lemma {:induction false} LogOfTimes(limits: Limits, calls: seq<Call>)
    requires InOrder(calls)
    ensures Chronological(LogOf(limits, calls))
    ensures forall a :: a in LogOf(limits, calls) ==> calls != [] && a.time <= calls[|calls| - 1].now
  {
    if calls != [] {
      LogOfTimes(limits, calls[..|calls| - 1]);
      var log := LogOf(limits, calls[..|calls| - 1]);
      assert forall i :: 0 <= i < |log| ==> log[i] in log;
    }
  }

  /** In every run, every closed window of the configured length holds at most maxRequests of one address. */
  lemma {:induction false} WindowBound(limits: Limits, calls: seq<Call>, ip: string, start: real)
    requires InOrder(calls) && limits.maxRequests >= 0
    ensures CountWithin(LogOf(limits, calls), ip, start, start + limits.window) <= limits.maxRequests
  {
    if calls != [] {
      var before := calls[..|calls| - 1];
      var call := calls[|calls| - 1];
      var log := LogOf(limits, before);
      WindowBound(limits, before, ip, start);
      if Allows(limits, log, call) && call.ip == ip && start <= call.now <= start + limits.window {
        CountWithinAtMost(log, ip, start, start + limits.window, call.now - limits.window);
        assert (log + [Accept(call.ip, call.now)])[..|log|] == log;
      } else {
        assert (log + [Accept(call.ip, call.now)])[..|log|] == log;
      }
    }
  }

  // ----- one address's accepted times and what a queue remembers of them

  function Times(log: seq<Accept>, ip: string): seq<real> {
    if log == [] then []
    else
      var last := log[|log| - 1];
      Times(log[..|log| - 1], ip) + (if last.ip == ip then [last.time] else [])
  }

  predicate SortedTimes(ts: seq<real>) {
    forall i, j :: 0 <= i < j < |ts| ==> ts[i] <= ts[j]
  }

  lemma {:induction false} TimesOf(log: seq<Accept>, ip: string)
    requires Chronological(log)
    ensures SortedTimes(Times(log, ip))
    ensures forall t :: t in Times(log, ip) ==> exists a :: a in log && a.time == t && a.ip == ip
  {
    if log != [] {
      var init, last := log[..|log| - 1], log[|log| - 1];
      TimesOf(init, ip);
      var ts := Times(init, ip);
      forall t | t in ts
        ensures t <= last.time
      {
        var a :| a in init && a.time == t && a.ip == ip;
        var i :| 0 <= i < |init| && log[i] == a;
      }
      assert forall i :: 0 <= i < |ts| ==> ts[i] in ts;
      assert Times(log, ip) == if last.ip == ip then ts + [last.time] else ts;
      forall t | t in Times(log, ip)
        ensures exists a :: a in log && a.time == t && a.ip == ip
      {
        if t in ts {
          var a :| a in init && a.time == t && a.ip == ip;
          assert a in log;
        } else {
          assert last in log;
        }
      }
    }
  }

  function CountTimes(ts: seq<real>, since: real): nat {
    if ts == [] then 0
    else CountTimes(ts[..|ts| - 1], since) + (if ts[|ts| - 1] >= since then 1 else 0)
  }

  lemma {:induction false} CountIsCountTimes(log: seq<Accept>, ip: string, since: real)
    ensures Count(log, ip, since) == CountTimes(Times(log, ip), since)
  {
    if log != [] {
      var init, last := log[..|log| - 1], log[|log| - 1];
      CountIsCountTimes(init, ip, since);
      if last.ip == ip {
        assert Times(log, ip)[..|Times(init, ip)|] == Times(init, ip);
      } else {
        assert Times(log, ip) == Times(init, ip);
      }
    }
  }

  /** The last n times are the ones at or after since. */
  lemma {:induction false} CountSuffix(ts: seq<real>, n: nat, since: real)
    requires n <= |ts|
    requires forall i :: 0 <= i < |ts| - n ==> ts[i] < since
    requires forall i :: |ts| - n <= i < |ts| ==> ts[i] >= since
    ensures CountTimes(ts, since) == n
  {
    if ts != [] {
      CountSuffix(ts[..|ts| - 1], if n == 0 then 0 else n - 1, since);
    }
  }

  /** q holds the latest of the times ts; whatever is missing is older than horizon or was lost. */
  ghost predicate Tracks(q: seq<real>, ts: seq<real>, horizon: real, lost: Option<real>) {
    && |q| <= |ts|
    && q == ts[|ts| - |q|..]
    && forall i :: 0 <= i < |ts| - |q| ==> ts[i] < horizon || (lost.Some? && ts[i] <= lost.value)
  }

  lemma TracksWithoutFirst(q: seq<real>, ts: seq<real>, horizon: real, lost: Option<real>)
    requires Tracks(q, ts, horizon, lost) && q != [] && q[0] < horizon
    ensures Tracks(q[1..], ts, horizon, lost)
  {
  }

  /** A queue whose last time is too old can be forgotten. */
  lemma TracksStale(q: seq<real>, ts: seq<real>, horizon: real, lost: Option<real>)
    requires Tracks(q, ts, horizon, lost) && SortedTimes(ts)
    requires q == [] || q[|q| - 1] < horizon
    ensures Tracks([], ts, horizon, lost)
  {
  }

  lemma TracksEvicted(q: seq<real>, ts: seq<real>, horizon: real, lost: Option<real>, now: real)
    requires Tracks(q, ts, horizon, lost)
    requires forall t :: t in ts ==> t <= now
    ensures Tracks([], ts, horizon, Some(now))
    ensures Tracks(q, ts, horizon, Some(now))
  {
    assert forall i :: 0 <= i < |ts| ==> ts[i] in ts;
  }

  lemma TracksAppended(q: seq<real>, ts: seq<real>, horizon: real, lost: Option<real>, now: real)
    requires Tracks(q, ts, horizon, lost)
    ensures Tracks(q + [now], ts + [now], horizon, lost)
  {
  }

  /** A pruned queue counts exactly, unless something inside the window was lost. */
  lemma TracksCounts(q: seq<real>, ts: seq<real>, horizon: real, lost: Option<real>)
    requires Tracks(q, ts, horizon, lost) && SortedTimes(ts)
    requires q == [] || q[0] >= horizon
    requires lost.None? || lost.value < horizon
    ensures CountTimes(ts, horizon) == |q|
  {
    CountSuffix(ts, |q|, horizon);
  }

  /** A pruned queue counts nothing that the window does not hold. */
  lemma {:induction false} CountAtLeast(ts: seq<real>, n: nat, since: real)
    requires n <= |ts| && forall i :: |ts| - n <= i < |ts| ==> ts[i] >= since
    ensures CountTimes(ts, since) >= n
  {
    if n > 0 {
      CountAtLeast(ts[..|ts| - 1], n - 1, since);
    }
  }

  lemma TracksCountsAtMost(q: seq<real>, ts: seq<real>, horizon: real, lost: Option<real>)
    requires Tracks(q, ts, horizon, lost) && SortedTimes(ts)
    requires q == [] || q[0] >= horizon
    ensures |q| <= CountTimes(ts, horizon)
  {
    CountAtLeast(ts, |q|, horizon);
  }

  // ----- runs, in terms of the calls and their answers alone

  /** The first n calls of ip that were accepted at or after since. */
  ghost function AcceptedOf(
      calls: seq<Call>, decisions: seq<bool>, n: nat, ip: string, since: real): (accepted: set<nat>)
    requires n <= |calls| && n <= |decisions|
    ensures forall k: nat :: k in accepted <==> k < n && decisions[k] && calls[k].ip == ip && since <= calls[k].now
  {
    set k: nat | k < n && decisions[k] && calls[k].ip == ip && since <= calls[k].now
  }

  /** The addresses but ip with a call among the first n that was accepted at or after since. */
  ghost function OthersSince(
      calls: seq<Call>, decisions: seq<bool>, n: nat, ip: string, since: real): (ips: set<string>)
    requires n <= |calls| && n <= |decisions|
    ensures forall other :: other in ips <==> other != ip && AcceptedOf(calls, decisions, n, other, since) != {}
  {
    var ips := set k: nat | k < n && decisions[k] && calls[k].ip != ip && since <= calls[k].now :: calls[k].ip;
    assert forall other :: AcceptedOf(calls, decisions, n, other, since) != {} ==>
      exists k :: k in AcceptedOf(calls, decisions, n, other, since);
    assert forall k: nat :: k < n && decisions[k] && since <= calls[k].now ==>
      k in AcceptedOf(calls, decisions, n, calls[k].ip, since);
    ips
  }

  /** The earlier calls of call i's address that were accepted in the window before it. */
  ghost function Passed(calls: seq<Call>, decisions: seq<bool>, window: real, i: nat): set<nat>
    requires i < |calls| && i <= |decisions|
  {
    AcceptedOf(calls, decisions, i, calls[i].ip, calls[i].now - window)
  }

  /** The other addresses with a call that was accepted in the window before call i. */
  ghost function Others(calls: seq<Call>, decisions: seq<bool>, window: real, i: nat): set<string>
    requires i < |calls| && i <= |decisions|
  {
    OthersSince(calls, decisions, i, calls[i].ip, calls[i].now - window)
  }

  /** No call up to i meets maxTracked other addresses in its window. */
  ghost predicate Roomy(limits: Limits, calls: seq<Call>, decisions: seq<bool>, i: nat)
    requires i < |calls| && i <= |decisions|
  {
    forall k :: 0 <= k <= i ==> |Others(calls, decisions, limits.window, k)| < limits.maxTracked
  }

  /** The log of the first n calls, as they were answered. */
  ghost function Answered(calls: seq<Call>, decisions: seq<bool>, n: nat): seq<Accept>
    requires n <= |calls| && n <= |decisions|
  {
    if n == 0 then []
    else
      Answered(calls, decisions, n - 1)
      + if decisions[n - 1] then [Accept(calls[n - 1].ip, calls[n - 1].now)] else []
  }

  lemma {:induction false} AnsweredMore(calls: seq<Call>, decisions: seq<bool>, more: seq<bool>, n: nat)
    requires n <= |calls| && n <= |decisions| && decisions <= more
    ensures Answered(calls, decisions, n) == Answered(calls, more, n)
  {
    if n > 0 {
      AnsweredMore(calls, decisions, more, n - 1);
    }
  }

  lemma {:induction false} CountAnswered(calls: seq<Call>, decisions: seq<bool>, n: nat, ip: string, since: real)
    requires n <= |calls| && n <= |decisions|
    ensures Count(Answered(calls, decisions, n), ip, since) == |AcceptedOf(calls, decisions, n, ip, since)|
  {
    if n > 0 {
      CountAnswered(calls, decisions, n - 1, ip, since);
      var log := Answered(calls, decisions, n);
      var before := Answered(calls, decisions, n - 1);
      var all, fewer := AcceptedOf(calls, decisions, n, ip, since), AcceptedOf(calls, decisions, n - 1, ip, since);
      if decisions[n - 1] {
        assert log[..|log| - 1] == before;
        if calls[n - 1].ip == ip && since <= calls[n - 1].now {
          assert all == fewer + {n - 1};
        } else {
          assert all == fewer;
        }
      } else {
        assert log == before && all == fewer;
      }
    }
  }

  lemma {:induction false} LiveAnswered(calls: seq<Call>, decisions: seq<bool>, n: nat, ip: string, since: real)
    requires n <= |calls| && n <= |decisions|
    ensures ip in Live(Answered(calls, decisions, n), since) <==> AcceptedOf(calls, decisions, n, ip, since) != {}
  {
    CountAnswered(calls, decisions, n, ip, since);
    CountLive(Answered(calls, decisions, n), ip, since);
    assert AcceptedOf(calls, decisions, n, ip, since) != {} <==> |AcceptedOf(calls, decisions, n, ip, since)| > 0;
  }

  lemma {:induction false} CountLive(log: seq<Accept>, ip: string, since: real)
    ensures Count(log, ip, since) > 0 <==> ip in Live(log, since)
  {
    if log != [] {
      var init := log[..|log| - 1];
      CountLive(init, ip, since);
      assert ip in Live(log, since) <==>
        ip in Live(init, since) || (log[|log| - 1].ip == ip && log[|log| - 1].time >= since) by {
        assert forall i :: 0 <= i < |init| ==> init[i] == log[i];
      }
    }
  }

  /** A call is within the limit exactly when fewer than maxRequests were accepted in its window. */
  lemma AllowsAnswered(limits: Limits, calls: seq<Call>, decisions: seq<bool>, i: nat)
    requires i < |calls| && i <= |decisions|
    ensures Allows(limits, Answered(calls, decisions, i), calls[i])
            <==> |Passed(calls, decisions, limits.window, i)| < limits.maxRequests
  {
    hide Count, Answered, AcceptedOf;
    CountAnswered(calls, decisions, i, calls[i].ip, calls[i].now - limits.window);
  }

  lemma UncrowdedAnswered(limits: Limits, calls: seq<Call>, decisions: seq<bool>, i: nat)
    requires i < |calls| && i <= |decisions|
    ensures Uncrowded(limits, Answered(calls, decisions, i), calls[i])
            <==> |Others(calls, decisions, limits.window, i)| < limits.maxTracked
  {
    hide Live, Answered, OthersSince;
    OthersAreLive(calls, decisions, i, calls[i].ip, calls[i].now - limits.window);
  }

  lemma OthersAreLive(calls: seq<Call>, decisions: seq<bool>, n: nat, ip: string, since: real)
    requires n <= |calls| && n <= |decisions|
    ensures Live(Answered(calls, decisions, n), since) - {ip} == OthersSince(calls, decisions, n, ip, since)
  {
    hide Live, Answered, AcceptedOf, OthersSince;
    forall other
      ensures other in Live(Answered(calls, decisions, n), since) - {ip}
              <==> other in OthersSince(calls, decisions, n, ip, since)
    {
      LiveAnswered(calls, decisions, n, other, since);
    }
  }

  /** The accepted calls of ip in the closed interval from start to end. */
  ghost function Window(calls: seq<Call>, decisions: seq<bool>, ip: string, start: real, end: real): (within: set<nat>)
    requires |decisions| == |calls|
    ensures forall k: nat :: k in within <==>
      k < |calls| && decisions[k] && calls[k].ip == ip && start <= calls[k].now <= end
  {
    set k: nat | k < |calls| && decisions[k] && calls[k].ip == ip && start <= calls[k].now <= end
  }

  lemma Latest(s: set<nat>) returns (i: nat)
    requires s != {}
    ensures i in s && forall k :: k in s ==> k <= i
  {
    var one :| one in s;
    i := one;
    if s - {one} != {} {
      var later := Latest(s - {one});
      i := if later > one then later else one;
      assert forall k :: k in s ==> k == one || k in s - {one};
    } else {
      assert s == {one};
    }
  }

  /**
   When a call is let through only with fewer than maxRequests accepted calls of
   its address in the window before it, no window of that length holds more.
   */
  lemma WindowHolds(limits: Limits, calls: seq<Call>, decisions: seq<bool>, ip: string, start: real)
    requires InOrder(calls) && limits.maxRequests >= 0 && |decisions| == |calls|
    requires forall i :: 0 <= i < |calls| && decisions[i] ==>
      |Passed(calls, decisions, limits.window, i)| < limits.maxRequests
    ensures |Window(calls, decisions, ip, start, start + limits.window)| <= limits.maxRequests
  {
    hide Passed, Window, InOrder;
    var within := Window(calls, decisions, ip, start, start + limits.window);
    if within != {} {
      var i := Latest(within);
      WindowBefore(calls, decisions, ip, start, limits.window, i);
      SmallerSet(within - {i}, Passed(calls, decisions, limits.window, i));
    }
  }

  lemma WindowBefore(calls: seq<Call>, decisions: seq<bool>, ip: string, start: real, window: real, i: nat)
    requires InOrder(calls) && |decisions| == |calls|
    requires var within := Window(calls, decisions, ip, start, start + window);
      i in within && forall k :: k in within ==> k <= i
    ensures i < |calls| && decisions[i]
    ensures Window(calls, decisions, ip, start, start + window) - {i} <= Passed(calls, decisions, window, i)
  {
    hide AcceptedOf, Window;
    var end, since := start + window, calls[i].now - window;
    assert since <= start;
    assert Window(calls, decisions, ip, start, end) - {i} <= AcceptedOf(calls, decisions, i, ip, since);
  }
}
