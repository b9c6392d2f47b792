/** Two runs of the liveness oracle that pass over a recent day with PIDs still to submit (monitor/liveness.py). */
module LivenessRuns {
  import opened Wrappers
  import opened Verdicts
  import opened LivenessMonitor

  /** A round in which "b" answers and "a" does not. */
  const RESULTS := [("b", true), ("a", false)]

  function Sends(day: int, k: nat): Answer {
    Answer.Sent("tx")
  }

  /** An undisturbed pass at one moment. */
  function PassAt(round: Option<seq<(string, bool)>>, ts: int): Pass {
    Pass(round, ts, ts, Sends, _ => ts, Never, ts)
  }

  lemma PassAtFacts(round: Option<seq<(string, bool)>>, ts: int, clock: int)
    ensures PassAt(round, ts).Survived()
    ensures clock <= ts ==> PassAt(round, ts).InOrder(clock)
    ensures forall day :: !PassAt(round, ts).SomeRetried(day)
  {
  }

  /** n rounds of day 0 before end, in all of which "b" answered and "a" did not. */
  ghost predicate Rounds(rounds: seq<int>, probes: seq<Probe>, n: nat, end: int) {
    && RoundsOn(rounds, 0) == n
    && Asked(On(probes, 0), "a") == n && Answered(On(probes, 0), "a") == 0
    && (n > 0 ==> SomeAnswer(On(probes, 0)))
    && (forall i :: 0 <= i < |rounds| ==> rounds[i] < end)
    && (forall i :: 0 <= i < |probes| ==> probes[i].ts < end)
  }

  lemma {:induction false} WithoutNew(probes: seq<Probe>, pid: string, ts: int)
    requires forall i :: 0 <= i < |probes| ==> probes[i].ts != ts || probes[i].pid != pid
    ensures Without(probes, pid, ts) == probes
  {
    if probes != [] {
      WithoutNew(probes[..|probes| - 1], pid, ts);
    }
  }

  lemma OnAppended(probes: seq<Probe>, row: Probe)
    ensures On(probes + [row], 0) == if DayOf(row.ts) == 0 then On(probes, 0) + [row] else On(probes, 0)
  {
    assert (probes + [row])[..|probes|] == probes;
  }

  lemma CountsAppended(rows: seq<Probe>, row: Probe, pid: string)
    ensures Asked(rows + [row], pid) == Asked(rows, pid) + if row.pid == pid then 1 else 0
    ensures Answered(rows + [row], pid) == Answered(rows, pid) + if row.pid == pid && row.ok then 1 else 0
    ensures SomeAnswer(rows + [row]) <==> SomeAnswer(rows) || row.ok
  {
    assert (rows + [row])[..|rows|] == rows;
    assert (rows + [row])[|rows|] == row;
    if SomeAnswer(rows) {
      var i :| 0 <= i < |rows| && rows[i].ok;
      assert (rows + [row])[i].ok;
    }
  }

  lemma RecordedBoth(probes: seq<Probe>, ts: int)
    requires forall i :: 0 <= i < |probes| ==> probes[i].ts < ts
    ensures Recorded(probes, RESULTS, ts) == probes + [Probe("b", ts, true)] + [Probe("a", ts, false)]
  {
    assert RESULTS[..1] == [("b", true)] && RESULTS[..1][..0] == [];
    assert Recorded(probes, RESULTS[..0], ts) == probes;
    WithoutNew(probes, "b", ts);
    assert Recorded(probes, RESULTS[..1], ts) == probes + [Probe("b", ts, true)];
    WithoutNew(probes + [Probe("b", ts, true)], "a", ts);
  }

  /** One more such round. */
  lemma OneRound(rounds: seq<int>, probes: seq<Probe>, n: nat, end: int, ts: int)
    requires Rounds(rounds, probes, n, end) && end <= ts && DayOf(ts) == 0
    ensures Rounds(Completed(rounds, ts), Recorded(probes, RESULTS, ts), n + 1, ts + 1)
  {
    hide RoundsOn, On, Asked, Answered, SomeAnswer, Recorded;
    RecordedBoth(probes, ts);
    var b, a := Probe("b", ts, true), Probe("a", ts, false);
    OnAppended(probes, b);
    OnAppended(probes + [b], a);
    CountsAppended(On(probes, 0), b, "a");
    CountsAppended(On(probes, 0) + [b], a, "a");
    RoundAppended(rounds, ts);
  }

  lemma RoundAppended(rounds: seq<int>, ts: int)
    requires DayOf(ts) == 0 && ts !in rounds
    ensures Completed(rounds, ts) == rounds + [ts] && RoundsOn(rounds + [ts], 0) == RoundsOn(rounds, 0) + 1
  {
    assert (rounds + [ts])[..|rounds|] == rounds;
  }

  /** After 77 such rounds "a" is inactive on day 0. */
  lemma InactiveAfter(rounds: seq<int>, probes: seq<Probe>, end: int)
    requires Rounds(rounds, probes, 77, end)
    ensures "a" in Inactive(rounds, probes, 0)
  {
    hide Inactive, RoundsOn, On, Asked, Answered;
    InactiveMeans(rounds, probes, 0);
  }

  lemma RecentUnsent(
      first: int, last: int, rounds: seq<int>, probes: seq<Probe>, submitted: map<(int, string), string>,
      clock: int)
    requires first <= 0 <= last && "a" in Inactive(rounds, probes, 0) && (0, "a") !in submitted
    requires DayOf(clock) < MAX_BACKFILL_DAYS
    ensures !Passed(first, last, {}, rounds, probes, submitted, clock)
  {
    hide Inactive;
    assert !AllSent(rounds, probes, submitted, 0);
    assert first <= 0 <= last && 0 !in {};
  }

  // ----- a dry run before a submitting one

  /** A process's passes of day 0, a quarter of an hour apart. */
  function DayPasses(n: nat): seq<Pass> {
    if n == 0 then [] else DayPasses(n - 1) + [PassAt(Some(RESULTS), 900 * (n - 1))]
  }

  lemma {:induction false} DayPassesFacts(n: nat)
    requires n <= 77
    ensures |DayPasses(n)| == n && AllSurvived(DayPasses(n)) && PassesInOrder(0, DayPasses(n))
    ensures n > 0 ==> DayPasses(n)[n - 1].end == 900 * (n - 1)
    ensures var t := TablesAfterAll([], [], DayPasses(n)); Rounds(t.0, t.1, n, 900 * n)
  {
    hide Rounds, Pass.Survived, Pass.InOrder, Recorded, Completed;
    if n == 0 {
      NoRounds();
    } else {
      DayPassesFacts(n - 1);
      var before, ts := DayPasses(n - 1), 900 * (n - 1);
      assert DayPasses(n)[..n - 1] == before;
      PassAtFacts(Some(RESULTS), ts, if n == 1 then 0 else 900 * (n - 2));
      var t := TablesAfterAll([], [], before);
      OneRound(t.0, t.1, n - 1, ts, ts);
      MoreTime(Completed(t.0, ts), Recorded(t.1, RESULTS, ts), n, ts + 1, 900 * n);
    }
  }

  lemma NoRounds()
    ensures Rounds([], [], 0, 0)
  {
  }

  lemma MoreTime(rounds: seq<int>, probes: seq<Probe>, n: nat, end: int, later: int)
    requires Rounds(rounds, probes, n, end) && end <= later
    ensures Rounds(rounds, probes, n, later)
  {
  }

  const NIGHT := 90000

  /** A dry process covers day 0 and finalizes it an hour after it ended. */
  function DrySession(): Session {
    Session(0, 0, false, DayPasses(77) + [PassAt(None, NIGHT)])
  }

  lemma DrySessionFacts()
    ensures var s := DrySession();
      && |s.passes| == 78 && s.passes[77] == PassAt(None, NIGHT) && AllSurvived(s.passes) && SessionInOrder(0, s)
      && EndOf(s) == NIGHT
      && var t := TablesAfterAll([], [], s.passes); Rounds(t.0, t.1, 77, 77 * 900)
  {
    hide Rounds, Pass.Survived, Pass.InOrder, DayPasses;
    DayPassesFacts(77);
    PassAtFacts(None, NIGHT, 76 * 900);
    var s := DrySession();
    assert s.passes[..77] == DayPasses(77);
  }

  /**
   A process without a submitter finalizes day 0 and stores the cursor; a
   submitting process that starts then passes over day 0, which is recent, and
   on which "a" was inactive and was never submitted.
   */
  method DryRunPasses() returns (m: Monitor, last: int)
    ensures m.cursor == Some(0) && m.first <= 0 <= last && m.dryDays != {}
    ensures "a" in Inactive(m.rounds, m.probes, 0) && (0, "a") !in m.submitted
    ensures !Passed(m.first, last, {}, m.rounds, m.probes, m.submitted, NIGHT)
  {
    hide Inactive, Rounds, DayPasses, DrySession, Booked, Evident, Standing, TablesAfterAll, Pass.Survived;
    m := new Monitor();
    var s := DrySession();
    DrySessionFacts();
    SessionValues();
    var dryLast, made := m.Run(s, -2);
    assert s.passes[..78] == s.passes;
    InactiveAfter(m.rounds, m.probes, 77 * 900);
    NightPass(dryLast, m.clock);
    assert 0 in m.dryDays;
    ghost var made2;
    TablesAfterNone(m.rounds, m.probes);
    last, made2 := m.Run(Session(NIGHT, NIGHT, true, []), dryLast);
    StartAtNight(last, m.clock);
    NeverSent(m.sent, m.submitted);
    RecentUnsent(m.first, last, m.rounds, m.probes, m.submitted, NIGHT);
  }

  lemma SessionValues()
    ensures var s := DrySession(); s.now == 0 && s.again == 0 && !s.submits
  {
  }

  lemma TablesAfterNone(rounds: seq<int>, probes: seq<Probe>)
    ensures TablesAfterAll(rounds, probes, []) == (rounds, probes)
  {
  }

  lemma StartAtNight(last: int, clock: int)
    requires last >= StartDay(Some(0), NIGHT, NIGHT) && Over(last, clock) && clock <= NIGHT
    ensures last == StartDay(Some(0), NIGHT, NIGHT) == 0
  {
  }

  lemma NeverSent(sent: seq<Batch>, submitted: map<(int, string), string>)
    requires Booked(sent, submitted) && forall i :: 0 <= i < |sent| ==> sent[i].day != 0
    ensures (0, "a") !in submitted
  {
  }

  /** Nothing stops the pass before it has finalized day 0, and no later day is over. */
  lemma NightPass(last: int, clock: int)
    requires PassAt(None, NIGHT).CaughtUp(false, last) && Over(last, clock) && clock <= NIGHT
    ensures last == 0
  {
  }

  // ----- starts that find no cursor

  function QuickSession(i: int): Session {
    Session(i, i, true, [PassAt(Some(RESULTS), i)])
  }

  lemma QuickSessionFacts(i: int, clock: int, rounds: seq<int>, probes: seq<Probe>)
    requires clock <= i < 77
    ensures var s := QuickSession(i);
      && SessionInOrder(clock, s) && AllSurvived(s.passes) && |s.passes| == 1 && EndOf(s) == i
      && TablesAfterAll(rounds, probes, s.passes[..1]) == (Completed(rounds, i), Recorded(probes, RESULTS, i))
  {
    hide Recorded, Completed, Pass.InOrder, Pass.Survived;
    PassAtFacts(Some(RESULTS), i, i);
    var passes := QuickSession(i).passes;
    assert passes[..1] == passes && passes[..0] == [];
    assert TablesAfterAll(rounds, probes, passes[..0]) == (rounds, probes);
  }

  lemma QuickStart(i: int, last: int, clock: int)
    requires 0 <= i < 77 && last >= StartDay(None, i, i) && Over(last, clock) && clock <= i
    ensures last == StartDay(None, i, i) == -2 && DayOf(i) == 0 && DayOf(i) - 1 == -1
  {
  }

  lemma BeforeDayZero(from: nat, sent: seq<Batch>)
    requires SentFrom(from, sent, -2, -2) && from <= |sent| && forall i :: 0 <= i < from ==> sent[i].day < 0
    ensures forall i :: 0 <= i < |sent| ==> sent[i].day < 0
  {
  }

  lemma StartOnDayTwo()
    ensures StartDay(None, 172800, 172800) == 0 && DayOf(172800) == 2
  {
  }

  /**
   77 submitting processes that each make one round early on day 0 store no
   cursor; the next start, on day 2, passes over day 0, on which "a" was
   inactive and was never submitted.
   */
  method QuickStartsPass() returns (m: Monitor)
    ensures m.cursor == None && m.dryDays == {} && m.first == -1 && m.clock <= 172800
    ensures "a" in Inactive(m.rounds, m.probes, 0) && (0, "a") !in m.submitted
    ensures !Passed(m.first, StartDay(m.cursor, 172800, 172800), {}, m.rounds, m.probes, m.submitted, 172800)
  {
    hide Inactive, Rounds, Booked, Evident, Standing, Passed, TablesAfterAll, SessionInOrder, AllSurvived,
         QuickSession, Pass.CaughtUp, Pass.Kills, SentFrom, Over, DayOf, StartDay, Recorded, Completed, Keyed;
    m := new Monitor();
    NoRounds();
    for i := 0 to 77
      invariant m.Valid(-2) && m.cursor == None && m.dryDays == {} && (i > 0 ==> m.first == -1)
      invariant m.clock <= i && Rounds(m.rounds, m.probes, i, i)
      invariant forall k :: 0 <= k < |m.sent| ==> m.sent[k].day < 0
    {
      ghost var rounds, probes, sent := m.rounds, m.probes, m.sent;
      var s := QuickSession(i);
      QuickValues(i);
      QuickSessionFacts(i, m.clock, rounds, probes);
      ghost var made;
      var last: int;
      last, made := m.Run(s, -2);
      QuickStart(i, last, m.clock);
      BeforeDayZero(|sent|, m.sent);
      OneRound(rounds, probes, i, i, i);
      NoDryDays(m.dryDays, last);
    }
    InactiveAfter(m.rounds, m.probes, 77);
    NeverSent(m.sent, m.submitted);
    StartOnDayTwo();
    RecentUnsent(-1, 0, m.rounds, m.probes, m.submitted, 172800);
  }

  lemma QuickValues(i: int)
    ensures var s := QuickSession(i); s.now == i && s.again == i && s.submits
  {
  }

  lemma NoDryDays(days: set<int>, last: int)
    requires DryFrom({}, days, true, last, last)
    ensures days == {}
  {
    assert forall day :: day in days ==> day in {};
  }
}
