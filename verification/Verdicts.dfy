/** Which Pillars were inactive on a day, from the monitor's tables (monitor/liveness.py, inactive_for_day). */
module Verdicts {
  import opened Collections
  import opened CodePoints

  const SECONDS_PER_DAY := 86400
  const ROUNDS_PER_DAY := 96

  /** A row of the probes table. */
  datatype Probe = Probe(pid: string, ts: int, ok: bool)

  /** utc_day of a time in whole seconds. */
  function DayOf(ts: int): int {
    ts / SECONDS_PER_DAY
  }

  function RoundsOn(rounds: seq<int>, day: int): nat {
    if rounds == [] then 0
    else RoundsOn(rounds[..|rounds| - 1], day) + (if DayOf(rounds[|rounds| - 1]) == day then 1 else 0)
  }

  /** The day's probes. */
  function On(probes: seq<Probe>, day: int): seq<Probe> {
    if probes == [] then []
    else
      var last := probes[|probes| - 1];
      On(probes[..|probes| - 1], day) + (if DayOf(last.ts) == day then [last] else [])
  }

  function Asked(rows: seq<Probe>, pid: string): nat {
    if rows == [] then 0
    else Asked(rows[..|rows| - 1], pid) + (if rows[|rows| - 1].pid == pid then 1 else 0)
  }

  function Answered(rows: seq<Probe>, pid: string): nat {
    if rows == [] then 0
    else Answered(rows[..|rows| - 1], pid) + (if rows[|rows| - 1].pid == pid && rows[|rows| - 1].ok then 1 else 0)
  }

  /** The PIDs of the rows, each once. */
  function Pids(rows: seq<Probe>): seq<string> {
    if rows == [] then []
    else
      var before, last := Pids(rows[..|rows| - 1]), rows[|rows| - 1].pid;
      if last in before then before else before + [last]
  }

  predicate SomeAnswer(rows: seq<Probe>) {
    exists i :: 0 <= i < |rows| && rows[i].ok
  }

  /** Fewer than four fifths of the probes were answered. */
  predicate Failed(rows: seq<Probe>, pid: string) {
    Asked(rows, pid) > 0 && 5 * Answered(rows, pid) < 4 * Asked(rows, pid)
  }

  function FailedOf(rows: seq<Probe>, pids: seq<string>): seq<string> {
    if pids == [] then []
    else (if Failed(rows, pids[0]) then [pids[0]] else []) + FailedOf(rows, pids[1..])
  }

  /** The monitor ran at least 80% of the day's rounds. */
  predicate Covered(rounds: seq<int>, day: int) {
    5 * RoundsOn(rounds, day) >= 4 * ROUNDS_PER_DAY
  }

  /** inactive_for_day. */
  function Inactive(rounds: seq<int>, probes: seq<Probe>, day: int): seq<string> {
    if !Covered(rounds, day) then []
    else
      var rows := On(probes, day);
      if rows != [] && !SomeAnswer(rows) then []
      else Sort(FailedOf(rows, Pids(rows)))
  }

  lemma {:induction false} PidsOf(rows: seq<Probe>)
    ensures Distinct(Pids(rows))
    ensures forall pid :: pid in Pids(rows) <==> Asked(rows, pid) > 0
  {
    if rows != [] {
      PidsOf(rows[..|rows| - 1]);
    }
  }

  lemma {:induction false} FailedOfMeans(rows: seq<Probe>, pids: seq<string>)
    requires Distinct(pids)
    ensures Distinct(FailedOf(rows, pids))
    ensures forall pid :: pid in FailedOf(rows, pids) <==> pid in pids && Failed(rows, pid)
  {
    hide Failed;
    if pids != [] {
      FailedOfMeans(rows, pids[1..]);
      assert pids == [pids[0]] + pids[1..];
    }
  }

  lemma {:induction false} DistinctCounts(pids: seq<string>)
    ensures Distinct(pids) <==> forall p :: multiset(pids)[p] <= 1
  {
    if pids != [] {
      var init, last := pids[..|pids| - 1], pids[|pids| - 1];
      assert pids == init + [last];
      DistinctCounts(init);
      if Distinct(pids) {
        assert last !in init;
      } else if Distinct(init) {
        assert last in multiset(init);
        assert multiset(pids)[last] == 2;
      } else {
        var p :| multiset(init)[p] > 1;
        assert multiset(pids)[p] > 1;
      }
    }
  }

  /**
   A Pillar is recorded inactive exactly when the monitor completed at least
   77 rounds, some Pillar answered, and this one failed more than a fifth of
   the probes it got; each is listed once, in order.
   */
  lemma InactiveMeans(rounds: seq<int>, probes: seq<Probe>, day: int)
    ensures Distinct(Inactive(rounds, probes, day)) && Sorted(Inactive(rounds, probes, day))
    ensures forall pid :: pid in Inactive(rounds, probes, day) <==>
      RoundsOn(rounds, day) >= 77 && SomeAnswer(On(probes, day)) && Failed(On(probes, day), pid)
  {
    hide On, RoundsOn, Failed, SomeAnswer, Distinct, Sorted, Leq;
    assert Covered(rounds, day) <==> RoundsOn(rounds, day) >= 77;
    var rows := On(probes, day);
    NothingIsDistinct();
    PidsOf(rows);
    FailedOfMeans(rows, Pids(rows));
    SortCorrect(FailedOf(rows, Pids(rows)));
    DistinctCounts(FailedOf(rows, Pids(rows)));
    DistinctCounts(Sort(FailedOf(rows, Pids(rows))));
    NobodyFailed(rows);
    forall pid
      ensures pid in Sort(FailedOf(rows, Pids(rows))) <==> Failed(rows, pid)
    {
      assert pid in Sort(FailedOf(rows, Pids(rows))) <==> pid in multiset(FailedOf(rows, Pids(rows)));
      FailedWasAsked(rows, pid);
    }
  }

  lemma FailedWasAsked(rows: seq<Probe>, pid: string)
    ensures Failed(rows, pid) ==> Asked(rows, pid) > 0
  {
  }

  lemma NothingIsDistinct()
    ensures Distinct<string>([]) && Sorted([])
  {
  }

  lemma NobodyFailed(rows: seq<Probe>)
    ensures rows == [] ==> forall pid :: !Failed(rows, pid)
  {
  }

  // ----- recording a round

  function Without(probes: seq<Probe>, pid: string, ts: int): seq<Probe> {
    if probes == [] then []
    else
      var last := probes[|probes| - 1];
      Without(probes[..|probes| - 1], pid, ts) + (if last.pid == pid && last.ts == ts then [] else [last])
  }

  /** INSERT OR REPLACE INTO probes. */
  function Replaced(probes: seq<Probe>, row: Probe): seq<Probe> {
    Without(probes, row.pid, row.ts) + [row]
  }

  function Recorded(probes: seq<Probe>, results: seq<(string, bool)>, ts: int): seq<Probe> {
    if results == [] then probes
    else
      var last := results[|results| - 1];
      Replaced(Recorded(probes, results[..|results| - 1], ts), Probe(last.0, ts, last.1))
  }

  /** INSERT OR IGNORE INTO rounds. */
  function Completed(rounds: seq<int>, ts: int): seq<int> {
    if ts in rounds then rounds else rounds + [ts]
  }

  /** The primary key of probes. */
  predicate Keyed(probes: seq<Probe>) {
    forall i, j :: 0 <= i < j < |probes| ==> probes[i].pid != probes[j].pid || probes[i].ts != probes[j].ts
  }

  lemma {:induction false} WithoutKeyed(probes: seq<Probe>, pid: string, ts: int)
    requires Keyed(probes)
    ensures Keyed(Without(probes, pid, ts))
    ensures forall row :: row in Without(probes, pid, ts) <==> row in probes && !(row.pid == pid && row.ts == ts)
  {
    if probes != [] {
      var init, last := probes[..|probes| - 1], probes[|probes| - 1];
      assert probes == init + [last];
      WithoutKeyed(init, pid, ts);
    }
  }

  lemma {:induction false} RecordedKeyed(probes: seq<Probe>, results: seq<(string, bool)>, ts: int)
    requires Keyed(probes)
    ensures Keyed(Recorded(probes, results, ts))
  {
    if results != [] {
      var init, last := results[..|results| - 1], results[|results| - 1];
      RecordedKeyed(probes, init, ts);
      WithoutKeyed(Recorded(probes, init, ts), last.0, ts);
    }
  }

  lemma {:induction false} WithoutOther(probes: seq<Probe>, pid: string, ts: int, day: int)
    requires DayOf(ts) != day
    ensures On(Without(probes, pid, ts), day) == On(probes, day)
  {
    hide DayOf;
    if probes != [] {
      var init, last := probes[..|probes| - 1], probes[|probes| - 1];
      WithoutOther(init, pid, ts, day);
      if !(last.pid == pid && last.ts == ts) {
        assert (Without(init, pid, ts) + [last])[..|Without(init, pid, ts)|] == Without(init, pid, ts);
      } else {
        assert Without(probes, pid, ts) == Without(init, pid, ts);
      }
    }
  }

  /** A round on another day changes nothing that day's verdict depends on. */
  lemma {:induction false} RoundElsewhere(
      rounds: seq<int>, probes: seq<Probe>, results: seq<(string, bool)>, ts: int, day: int)
    requires DayOf(ts) != day
    ensures On(Recorded(probes, results, ts), day) == On(probes, day)
    ensures RoundsOn(Completed(rounds, ts), day) == RoundsOn(rounds, day)
    ensures Inactive(Completed(rounds, ts), Recorded(probes, results, ts), day) == Inactive(rounds, probes, day)
  {
    hide DayOf;
    if results != [] {
      var init, last := results[..|results| - 1], results[|results| - 1];
      RoundElsewhere(rounds, probes, init, ts, day);
      var before := Recorded(probes, init, ts);
      WithoutOther(before, last.0, ts, day);
      var kept := Without(before, last.0, ts);
      assert (kept + [Probe(last.0, ts, last.1)])[..|kept|] == kept;
    }
    assert (rounds + [ts])[..|rounds|] == rounds;
  }
}
