/** What the liveness oracle's tables, verdicts and batches come to, row by row (monitor/liveness.py). */
module LivenessLaws {
  import opened Collections
  import opened CodePoints
  import opened Wrappers
  import opened Verdicts
  import opened LivenessMonitor

  // ----- counting

  /** The rounds from start up to end, by position. */
  ghost function RoundsWithin(rounds: seq<int>, start: int, end: int): (at: set<nat>)
    ensures forall i: nat :: i in at <==> i < |rounds| && start <= rounds[i] < end
  {
    set i: nat | i < |rounds| && start <= rounds[i] < end
  }

  /** The probes of pid from start up to end, by position. */
  ghost function ProbesOf(probes: seq<Probe>, pid: string, start: int, end: int): (at: set<nat>)
    ensures forall i: nat :: i in at <==> i < |probes| && probes[i].pid == pid && start <= probes[i].ts < end
  {
    set i: nat | i < |probes| && probes[i].pid == pid && start <= probes[i].ts < end
  }

  /** Those of them that were answered. */
  ghost function AnswersOf(probes: seq<Probe>, pid: string, start: int, end: int): (at: set<nat>)
    ensures forall i: nat :: i in at <==>
      i < |probes| && probes[i].pid == pid && start <= probes[i].ts < end && probes[i].ok
  {
    set i: nat | i < |probes| && probes[i].pid == pid && start <= probes[i].ts < end && probes[i].ok
  }

  lemma DayIs(ts: int, day: int)
    ensures DayOf(ts) == day <==> day * 86400 <= ts < (day + 1) * 86400
  {
  }

  lemma {:induction false} CountRounds(rounds: seq<int>, day: int)
    ensures RoundsOn(rounds, day) == |RoundsWithin(rounds, day * 86400, (day + 1) * 86400)|
  {
    hide DayOf;
    var all := RoundsWithin(rounds, day * 86400, (day + 1) * 86400);
    if rounds == [] {
      assert all == {};
    } else {
      var n := |rounds| - 1;
      CountRounds(rounds[..n], day);
      DayIs(rounds[n], day);
      var before := RoundsWithin(rounds[..n], day * 86400, (day + 1) * 86400);
      assert all == if DayOf(rounds[n]) == day then before + {n} else before;
    }
  }

  lemma OnStep(probes: seq<Probe>, day: int, pid: string)
    requires probes != []
    ensures var init, last := probes[..|probes| - 1], probes[|probes| - 1];
      var here := DayOf(last.ts) == day && last.pid == pid;
      && Asked(On(probes, day), pid) == Asked(On(init, day), pid) + (if here then 1 else 0)
      && Answered(On(probes, day), pid) == Answered(On(init, day), pid) + (if here && last.ok then 1 else 0)
  {
    hide DayOf;
    var init, last := probes[..|probes| - 1], probes[|probes| - 1];
    var rows := On(init, day);
    if DayOf(last.ts) == day {
      assert On(probes, day) == rows + [last] && (rows + [last])[..|rows|] == rows;
    } else {
      assert On(probes, day) == rows;
    }
  }

  lemma {:induction false} CountProbes(probes: seq<Probe>, day: int, pid: string)
    ensures Asked(On(probes, day), pid) == |ProbesOf(probes, pid, day * 86400, (day + 1) * 86400)|
    ensures Answered(On(probes, day), pid) == |AnswersOf(probes, pid, day * 86400, (day + 1) * 86400)|
  {
    hide DayOf, On, Asked, Answered, ProbesOf, AnswersOf;
    var start, end := day * 86400, (day + 1) * 86400;
    if probes == [] {
      NoProbes(day, pid);
      assert ProbesOf([], pid, start, end) == {} && AnswersOf([], pid, start, end) == {};
    } else {
      var n := |probes| - 1;
      var init, last := probes[..n], probes[n];
      CountProbes(init, day, pid);
      OnStep(probes, day, pid);
      DayIs(last.ts, day);
      ProbesStep(probes, pid, start, end);
    }
  }

  lemma ProbesStep(probes: seq<Probe>, pid: string, start: int, end: int)
    requires probes != []
    ensures var init, last := probes[..|probes| - 1], probes[|probes| - 1];
      var here := start <= last.ts < end && last.pid == pid;
      && |ProbesOf(probes, pid, start, end)| == |ProbesOf(init, pid, start, end)| + (if here then 1 else 0)
      && |AnswersOf(probes, pid, start, end)|
         == |AnswersOf(init, pid, start, end)| + (if here && last.ok then 1 else 0)
  {
    var n := |probes| - 1;
    var init, last := probes[..n], probes[n];
    var here := start <= last.ts < end && last.pid == pid;
    assert ProbesOf(probes, pid, start, end) ==
      if here then ProbesOf(init, pid, start, end) + {n} else ProbesOf(init, pid, start, end);
    assert AnswersOf(probes, pid, start, end) ==
      if here && last.ok then AnswersOf(init, pid, start, end) + {n} else AnswersOf(init, pid, start, end);
  }

  lemma NoProbes(day: int, pid: string)
    ensures Asked(On([], day), pid) == 0 && Answered(On([], day), pid) == 0
  {
  }

  lemma {:induction false} OnMeans(probes: seq<Probe>, day: int, row: Probe)
    ensures row in On(probes, day) <==> row in probes && day * 86400 <= row.ts < (day + 1) * 86400
  {
    hide DayOf;
    DayIs(row.ts, day);
    if probes != [] {
      var init, last := probes[..|probes| - 1], probes[|probes| - 1];
      OnMeans(init, day, row);
      assert probes == init + [last];
    }
  }

  lemma SomeAnswerMeans(probes: seq<Probe>, day: int)
    ensures SomeAnswer(On(probes, day)) <==>
      exists row :: row in probes && day * 86400 <= row.ts < (day + 1) * 86400 && row.ok
  {
    hide On;
    var rows := On(probes, day);
    if SomeAnswer(rows) {
      var i :| 0 <= i < |rows| && rows[i].ok;
      OnMeans(probes, day, rows[i]);
    }
    if row :| row in probes && day * 86400 <= row.ts < (day + 1) * 86400 && row.ok {
      OnMeans(probes, day, row);
      var i :| 0 <= i < |rows| && rows[i] == row;
    }
  }

  /**
   Who is inactive on a day: it had 77 rounds or more, some probe of it was
   answered, and of this PID's probes, one at least, fewer than four fifths were.
   */
  lemma InactiveIs(rounds: seq<int>, probes: seq<Probe>, day: int, pid: string)
    ensures var start, end := day * 86400, (day + 1) * 86400;
      pid in Inactive(rounds, probes, day) <==>
        && |RoundsWithin(rounds, start, end)| >= 77
        && (exists row :: row in probes && start <= row.ts < end && row.ok)
        && ProbesOf(probes, pid, start, end) != {}
        && 5 * |AnswersOf(probes, pid, start, end)| < 4 * |ProbesOf(probes, pid, start, end)|
  {
    hide Inactive, RoundsOn, On, Asked, Answered, SomeAnswer;
    InactiveMeans(rounds, probes, day);
    CountRounds(rounds, day);
    CountProbes(probes, day, pid);
    SomeAnswerMeans(probes, day);
    var asked := ProbesOf(probes, pid, day * 86400, (day + 1) * 86400);
    assert asked != {} <==> |asked| > 0;
  }

  /** Each PID stands before those that follow. */
  predicate Ascending(pids: seq<string>) {
    forall i, j :: 0 <= i < j < |pids| ==> Before(pids[i], pids[j])
  }

  lemma InactiveAscends(rounds: seq<int>, probes: seq<Probe>, day: int)
    ensures Ascending(Inactive(rounds, probes, day))
  {
    hide Inactive, Before;
    InactiveMeans(rounds, probes, day);
    var pids := Inactive(rounds, probes, day);
    forall i, j | 0 <= i < j < |pids|
      ensures Before(pids[i], pids[j])
    {
      CompareMeans(pids[i], pids[j]);
      assert Leq(pids[i], pids[j]);
    }
  }

  /** What is still to be submitted keeps that order. */
  lemma {:induction false} PendingAscends(submitted: map<(int, string), string>, day: int, pids: seq<string>)
    requires Ascending(pids) && Distinct(pids)
    ensures Ascending(Pending(submitted, day, pids))
  {
    hide Before;
    if pids != [] {
      var rest := Pending(submitted, day, pids[1..]);
      PendingAscends(submitted, day, pids[1..]);
      PendingMeans(submitted, day, pids[1..]);
      forall i | 0 <= i < |rest|
        ensures Before(pids[0], rest[i])
      {
        assert rest[i] in pids[1..];
      }
    }
  }

  // ----- recording

  /** The last result for pid, if there is one. */
  ghost predicate LastResult(results: seq<(string, bool)>, pid: string, ok: bool) {
    exists i :: 0 <= i < |results| && results[i] == (pid, ok) && NoLater(results, pid, i)
  }

  predicate NoLater(results: seq<(string, bool)>, pid: string, i: int) {
    forall j :: i < j < |results| && j >= 0 ==> results[j].0 != pid
  }

  /** After a round the probes table has its last result for each PID, and every row of another time or PID. */
  lemma {:induction false} RecordedMeans(probes: seq<Probe>, results: seq<(string, bool)>, ts: int, row: Probe)
    requires Keyed(probes)
    ensures row in Recorded(probes, results, ts) <==>
      if row.ts == ts && !NoLater(results, row.pid, -1) then LastResult(results, row.pid, row.ok) else row in probes
  {
    if results != [] {
      var n := |results| - 1;
      var init, last := results[..n], results[n];
      RecordedMeans(probes, init, ts, row);
      RecordedKeyed(probes, init, ts);
      var before := Recorded(probes, init, ts);
      WithoutKeyed(before, last.0, ts);
      assert row in Recorded(probes, results, ts) <==>
        (row in before && !(row.pid == last.0 && row.ts == ts)) || row == Probe(last.0, ts, last.1);
      LastStep(results, row.pid, row.ok);
    }
  }

  lemma LastStep(results: seq<(string, bool)>, pid: string, ok: bool)
    requires results != []
    ensures var init, last := results[..|results| - 1], results[|results| - 1];
      && (LastResult(results, pid, ok) <==> if last.0 == pid then last.1 == ok else LastResult(init, pid, ok))
      && (NoLater(results, pid, -1) <==> last.0 != pid && NoLater(init, pid, -1))
  {
    var n := |results| - 1;
    var init, last := results[..n], results[n];
    if last.0 == pid {
      assert NoLater(results, pid, n);
      if LastResult(results, pid, ok) {
        var i :| 0 <= i < |results| && results[i] == (pid, ok) && NoLater(results, pid, i);
        assert i == n;
      }
    } else {
      if LastResult(results, pid, ok) {
        var i :| 0 <= i < |results| && results[i] == (pid, ok) && NoLater(results, pid, i);
        assert init[i] == (pid, ok) && NoLater(init, pid, i);
      }
      if LastResult(init, pid, ok) {
        var i :| 0 <= i < |init| && init[i] == (pid, ok) && NoLater(init, pid, i);
        assert results[i] == (pid, ok) && NoLater(results, pid, i);
      }
    }
  }

  /** What the round of a pass leaves in the tables, and that a process that dies after it leaves no more. */
  lemma RoundMeans(t: Tables, p: Pass, submits: bool, last: int, ts: int, row: Probe)
    requires Keyed(t.probes)
    ensures var (after, reached, alive) := AfterPass(t, p, submits, last);
      && (ts in after.rounds <==> ts in t.rounds || (p.round.Some? && ts == p.ts))
      && (p.round == None ==> (row in after.probes <==> row in t.probes))
      && (p.round.Some? ==>
            (row in after.probes <==>
               if row.ts == p.ts && !NoLater(p.round.value, row.pid, -1)
               then LastResult(p.round.value, row.pid, row.ok) else row in t.probes))
      && (p.death == BeforeFinalizing ==>
            after.submitted == t.submitted && after.sent == t.sent && after.cursor == t.cursor
            && reached == last && !alive)
  {
    hide Recorded, NoLater, LastResult;
    var probed := t.(rounds := TablesAfter(t.rounds, t.probes, p).0, probes := TablesAfter(t.rounds, t.probes, p).1);
    if p.round.Some? {
      RecordedMeans(t.probes, p.round.value, p.ts, row);
    }
    DaysKeepTables(probed, p, submits, last);
  }

  /** Finalizing days leaves rounds and probes as they are. */
  lemma {:induction false} DaysKeepTables(t: Tables, p: Pass, submits: bool, last: int)
    ensures AfterDays(t, p, submits, last).0.rounds == t.rounds && AfterDays(t, p, submits, last).0.probes == t.probes
    decreases p.Yesterday() - last
  {
    hide Inactive, Pending, DayBatches, MarkedAll, Pass.Yesterday;
    if last < p.Yesterday() {
      DaysKeepTables(AfterDay(t, p, submits, last + 1).0, p, submits, last + 1);
    }
  }

  /** A round is recorded once. */
  lemma CompletedMeans(rounds: seq<int>, ts: int, t: int)
    ensures t in Completed(rounds, ts) <==> t in rounds || t == ts
    ensures Distinct(rounds) ==> Distinct(Completed(rounds, ts))
  {
  }

  // ----- the clock

  /** When a day is judged, and where a start begins. */
  lemma ClockMeans(p: Pass, day: int, clock: int, stored: int, now: int, again: int)
    ensures Over(day, clock) <==> clock >= (day + 1) * 86400 + 3600
    ensures day <= p.Yesterday() <==> p.now >= (day + 1) * 86400 + 3600
    ensures StartDay(Some(stored), now, again) == if stored >= now / 86400 - 8 then stored else now / 86400 - 8
    ensures StartDay(None, now, again) == again / 86400 - 2
  {
  }

  // ----- batches

  /** Batch j is the j-th hundred, the last one what is left. */
  lemma BatchMeans(todo: seq<string>, j: nat, k: nat)
    requires 100 * j < |todo|
    ensures |BatchOf(todo, j)| == if |todo| < 100 * (j + 1) then |todo| - 100 * j else 100
    ensures k < |BatchOf(todo, j)| ==> BatchOf(todo, j)[k] == todo[100 * j + k]
  {
  }

  /** The PIDs that finalizing the day is to submit. */
  function Todo(t: Tables, day: int): seq<string> {
    Pending(t.submitted, day, Inactive(t.rounds, t.probes, day))
  }

  /** The todo list: each inactive PID that was not submitted for the day, once, in order. */
  lemma TodoMeans(t: Tables, day: int, pid: string)
    ensures pid in Todo(t, day) <==> pid in Inactive(t.rounds, t.probes, day) && (day, pid) !in t.submitted
    ensures Distinct(Todo(t, day)) && Ascending(Todo(t, day))
  {
    hide Inactive, Pending, Distinct, Ascending;
    InactiveMeans(t.rounds, t.probes, day);
    InactiveAscends(t.rounds, t.probes, day);
    PendingMeans(t.submitted, day, Inactive(t.rounds, t.probes, day));
    PendingAscends(t.submitted, day, Inactive(t.rounds, t.probes, day));
  }

  /** How many batches of the day are accepted: n, when the first n answers are transactions and the next is not. */
  ghost predicate Accepted(todo: seq<string>, p: Pass, day: int, n: nat) {
    && (forall j :: 0 <= j < n ==> 100 * j < |todo| && p.answers(day, j).Sent?)
    && (100 * n < |todo| ==> !p.answers(day, n).Sent?)
  }

  lemma {:induction false} AcceptedMeans(todo: seq<string>, p: Pass, day: int, j: nat, n: nat)
    requires j <= n && forall i :: j <= i < n ==> 100 * i < |todo| && p.answers(day, i).Sent?
    requires 100 * n < |todo| ==> !p.answers(day, n).Sent?
    ensures |DayBatches(day, todo, p.answers, j)| == n - j
    decreases n - j
  {
    hide BatchOf;
    if j < n {
      AcceptedMeans(todo, p, day, j + 1, n);
    }
  }

  /**
   What finalizing a day does, when n of its batches are accepted: it sends the
   first n hundreds, and the day is passed unless the process dies or an unsent
   batch failed within the last seven days.
   */
  lemma AfterDayMeans(t: Tables, p: Pass, day: int, n: nat)
    requires Accepted(Todo(t, day), p, day, n)
    ensures var (after, next) := AfterDay(t, p, true, day);
      && |after.sent| == |t.sent| + n && t.sent <= after.sent
      && (forall j: nat :: j < n ==>
            && after.sent[|t.sent| + j].day == day
            && 100 * j < |Todo(t, day)| && after.sent[|t.sent| + j].pids == BatchOf(Todo(t, day), j)
            && p.answers(day, j) == Answer.Sent(after.sent[|t.sent| + j].tx))
      && after.rounds == t.rounds && after.probes == t.probes
      && (next == Dead <==>
            p.death == BeforeCursor(day) || (100 * n < |Todo(t, day)| && p.answers(day, n) == Killed))
      && (next == Retry <==>
            && p.death != BeforeCursor(day) && 100 * n < |Todo(t, day)| && p.answers(day, n) == Answer.Failed
            && day > p.later(day) / 86400 - 7)
      && after.cursor == if next == Advanced then Some(day) else t.cursor
  {
    hide BatchOf, Todo, MarkedAll, DayBatches;
    AcceptedMeans(Todo(t, day), p, day, 0, n);
    var batches := DayBatches(day, Todo(t, day), p.answers, 0);
    assert AfterDay(t, p, true, day).0.sent == t.sent + batches by {
      TodoIs(t, day);
    }
    TodoIs(t, day);
    forall j: nat | j < n
      ensures 100 * j < |Todo(t, day)| && batches[j].day == day && batches[j].pids == BatchOf(Todo(t, day), j)
      ensures p.answers(day, j) == Answer.Sent(batches[j].tx)
    {
      BatchesAreAnswered(day, Todo(t, day), p.answers, 0, j);
    }
  }

  lemma TodoIs(t: Tables, day: int)
    ensures Todo(t, day) == Pending(t.submitted, day, Inactive(t.rounds, t.probes, day))
  {
  }

  /** Without a submitter nothing is sent or marked, and the day is passed unless the process dies. */
  lemma DryDayMeans(t: Tables, p: Pass, day: int)
    ensures AfterDay(t, p, false, day) ==
      if p.death == BeforeCursor(day) then (t, Dead) else (t.(cursor := Some(day)), Advanced)
  {
    hide Inactive, Pending;
    NoBatches(t.submitted);
    assert t.sent + [] == t.sent;
  }

  /** The submitted table names the transaction of a PID's first batch for the day. */
  lemma {:induction false} MarkedMeans(
      submitted: map<(int, string), string>, batches: seq<Batch>, day: int, pid: string)
    ensures (day, pid) in MarkedAll(submitted, batches) <==>
      (day, pid) in submitted || exists i :: 0 <= i < |batches| && batches[i].day == day && pid in batches[i].pids
    ensures (day, pid) in submitted ==> MarkedAll(submitted, batches)[(day, pid)] == submitted[(day, pid)]
    ensures (day, pid) in MarkedAll(submitted, batches) && (day, pid) !in submitted ==>
      exists i :: 0 <= i < |batches| && batches[i].day == day && pid in batches[i].pids
                  && MarkedAll(submitted, batches)[(day, pid)] == batches[i].tx
  {
    if batches != [] {
      var n := |batches| - 1;
      var init, b := batches[..n], batches[n];
      MarkedMeans(submitted, init, day, pid);
      MarkedKeys(MarkedAll(submitted, init), b.day, b.pids, b.tx);
      assert forall i :: 0 <= i < n ==> init[i] == batches[i];
    }
  }

  // ----- a pass in which all goes well

  /** Every submission is mined and the process lives. */
  ghost predicate Smooth(p: Pass) {
    p.death == Never && forall day, k: nat :: p.answers(day, k).Sent?
  }

  /** Such a pass finalizes every day that is over, and afterwards each day's inactive PIDs were submitted. */
  lemma {:induction false} SmoothDays(t: Tables, p: Pass, last: int)
    requires Smooth(p)
    ensures var (after, reached, alive) := AfterDays(t, p, true, last);
      && alive && reached == (if last < p.Yesterday() then p.Yesterday() else last)
      && after.rounds == t.rounds && after.probes == t.probes
      && (forall k :: k in t.submitted ==> k in after.submitted)
      && (forall day :: last < day <= reached ==> AllSent(t.rounds, t.probes, after.submitted, day))
      && after.cursor == if last < reached then Some(reached) else t.cursor
    decreases p.Yesterday() - last
  {
    hide Inactive, Pending, DayBatches, MarkedAll, Pass.Yesterday, AllSent;
    if last < p.Yesterday() {
      SmoothDay(t, p, last + 1);
      var after := AfterDay(t, p, true, last + 1).0;
      SmoothDays(after, p, last + 1);
      var end := AfterDays(after, p, true, last + 1).0;
      MoreAllSent(t, after.submitted, end.submitted, last + 1);
    }
  }

  lemma MoreAllSent(
      t: Tables, submitted: map<(int, string), string>, submitted': map<(int, string), string>, day: int)
    requires AllSent(t.rounds, t.probes, submitted, day) && forall k :: k in submitted ==> k in submitted'
    ensures AllSent(t.rounds, t.probes, submitted', day)
  {
    hide Inactive;
  }

  lemma SmoothDay(t: Tables, p: Pass, day: int)
    requires Smooth(p)
    ensures var (after, next) := AfterDay(t, p, true, day);
      && next == Advanced && after.cursor == Some(day) && after.rounds == t.rounds && after.probes == t.probes
      && (forall k :: k in t.submitted ==> k in after.submitted)
      && AllSent(t.rounds, t.probes, after.submitted, day)
  {
    hide Inactive, Todo, DayBatches, MarkedAll, BatchOf, Pending;
    var todo := Todo(t, day);
    TodoIs(t, day);
    var batches := DayBatches(day, todo, p.answers, 0);
    BatchesEnd(day, todo, p.answers, 0);
    forall pid
      ensures (day, pid) in t.submitted ==> (day, pid) in MarkedAll(t.submitted, batches)
      ensures pid in Inactive(t.rounds, t.probes, day) ==> (day, pid) in MarkedAll(t.submitted, batches)
    {
      TodoMeans(t, day, pid);
      MarkedMeans(t.submitted, batches, day, pid);
      if pid in todo {
        var i := InBatch(day, todo, p.answers, pid);
      }
    }
    forall k | k in t.submitted
      ensures k in MarkedAll(t.submitted, batches)
    {
      MarkedMeans(t.submitted, batches, k.0, k.1);
    }
  }

  /** Once all batches are accepted, each PID is in one. */
  lemma InBatch(day: int, todo: seq<string>, answers: (int, nat) -> Answer, pid: string) returns (j: nat)
    requires pid in todo && 100 * |DayBatches(day, todo, answers, 0)| >= |todo|
    ensures j < |DayBatches(day, todo, answers, 0)|
    ensures DayBatches(day, todo, answers, 0)[j].day == day && pid in DayBatches(day, todo, answers, 0)[j].pids
  {
    hide DayBatches;
    var i :| 0 <= i < |todo| && todo[i] == pid;
    j := i / 100;
    BatchesAreAnswered(day, todo, answers, 0, j);
    BatchMeans(todo, j, i - 100 * j);
  }
}
