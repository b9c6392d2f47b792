/** The liveness oracle: it runs rounds, judges days, submits batches and survives restarts (monitor/liveness.py). */
module LivenessMonitor {
  import opened Collections
  import opened Wrappers
  import opened Verdicts

  const SUBMIT_BATCH := 100
  const FINALIZE_DELAY := 3600
  const MAX_BACKFILL_DAYS := 7

  /** What becomes of one submission: it is mined, it raises, or the process dies. */
  datatype Answer = Sent(tx: string) | Failed | Killed

  datatype Stop = Raised | Died

  /** A batch that the submitter accepted. */
  datatype Batch = Batch(day: int, pids: seq<string>, tx: string)

  /** pending_for_day. */
  function Pending(submitted: map<(int, string), string>, day: int, pids: seq<string>): seq<string> {
    if pids == [] then []
    else (if (day, pids[0]) in submitted then [] else [pids[0]]) + Pending(submitted, day, pids[1..])
  }

  lemma {:induction false} PendingMeans(submitted: map<(int, string), string>, day: int, pids: seq<string>)
    requires Distinct(pids)
    ensures Distinct(Pending(submitted, day, pids))
    ensures forall p :: p in Pending(submitted, day, pids) <==> p in pids && (day, p) !in submitted
  {
    if pids != [] {
      PendingMeans(submitted, day, pids[1..]);
      assert pids == [pids[0]] + pids[1..];
    }
  }

  /** The j-th batch of the PIDs to submit. */
  function BatchOf(todo: seq<string>, j: nat): seq<string>
    requires SUBMIT_BATCH * j < |todo|
  {
    var end := SUBMIT_BATCH * (j + 1);
    todo[SUBMIT_BATCH * j..if end < |todo| then end else |todo|]
  }

  // ----- what is kept

  /** The submitted table and the accepted batches say the same, and no (day, PID) is in two places. */
  ghost predicate Booked(sent: seq<Batch>, submitted: map<(int, string), string>) {
    && (forall i :: 0 <= i < |sent| ==> 1 <= |sent[i].pids| <= SUBMIT_BATCH && Distinct(sent[i].pids))
    && (forall i, p :: 0 <= i < |sent| && p in sent[i].pids ==>
          (sent[i].day, p) in submitted && submitted[(sent[i].day, p)] == sent[i].tx)
    && (forall k :: k in submitted ==> exists i :: 0 <= i < |sent| && sent[i].day == k.0 && k.1 in sent[i].pids)
    && (forall i, j, p :: 0 <= i < j < |sent| && p in sent[i].pids && sent[i].day == sent[j].day ==> p !in sent[j].pids)
  }

  function Marked(
      submitted: map<(int, string), string>, day: int, pids: seq<string>, tx: string): map<(int, string), string> {
    if pids == [] then submitted
    else
      var before := Marked(submitted, day, pids[..|pids| - 1], tx);
      var key := (day, pids[|pids| - 1]);
      if key in before then before else before[key := tx]
  }

  lemma {:induction false} MarkedKeys(submitted: map<(int, string), string>, day: int, pids: seq<string>, tx: string)
    ensures forall k :: k in Marked(submitted, day, pids, tx) <==> k in submitted || (k.0 == day && k.1 in pids)
    ensures forall k :: k in submitted ==> Marked(submitted, day, pids, tx)[k] == submitted[k]
    ensures forall p :: p in pids && (day, p) !in submitted ==> Marked(submitted, day, pids, tx)[(day, p)] == tx
  {
    if pids != [] {
      MarkedKeys(submitted, day, pids[..|pids| - 1], tx);
      assert pids == pids[..|pids| - 1] + [pids[|pids| - 1]];
    }
  }

  lemma BookedBatch(sent: seq<Batch>, submitted: map<(int, string), string>, b: Batch)
    requires Booked(sent, submitted) && 1 <= |b.pids| <= SUBMIT_BATCH && Distinct(b.pids)
    requires forall p :: p in b.pids ==> (b.day, p) !in submitted
    ensures Booked(sent + [b], Marked(submitted, b.day, b.pids, b.tx))
  {
    hide Distinct, Marked;
    MarkedKeys(submitted, b.day, b.pids, b.tx);
    var sent', submitted' := sent + [b], Marked(submitted, b.day, b.pids, b.tx);
    forall k | k in submitted'
      ensures exists i :: 0 <= i < |sent'| && sent'[i].day == k.0 && k.1 in sent'[i].pids
    {
      if k in submitted {
        var i :| 0 <= i < |sent| && sent[i].day == k.0 && k.1 in sent[i].pids;
        assert sent'[i] == sent[i];
      } else {
        assert sent'[|sent|] == b;
      }
    }
  }

  /** The day was over for at least an hour. */
  predicate Over(day: int, clock: int) {
    (day + 1) * SECONDS_PER_DAY + FINALIZE_DELAY <= clock
  }

  lemma OverIff(day: int, clock: int)
    ensures Over(day, clock) <==> day <= DayOf(clock - FINALIZE_DELAY) - 1
  {
  }

  /** Every accepted batch names only Pillars that its day's verdict names. */
  ghost predicate Evident(sent: seq<Batch>, rounds: seq<int>, probes: seq<Probe>, clock: int) {
    forall i :: 0 <= i < |sent| ==>
      Over(sent[i].day, clock) && forall p :: p in sent[i].pids ==> p in Inactive(rounds, probes, sent[i].day)
  }

  /** The verdicts reached stand. */
  ghost predicate Standing(judged: map<int, seq<string>>, rounds: seq<int>, probes: seq<Probe>, clock: int) {
    forall day :: day in judged ==> Over(day, clock) && judged[day] == Inactive(rounds, probes, day)
  }

  predicate AllSent(rounds: seq<int>, probes: seq<Probe>, submitted: map<(int, string), string>, day: int) {
    forall p :: p in Inactive(rounds, probes, day) ==> (day, p) in submitted
  }

  /**
   Of the days from first to last, only those too old for the contract may have
   unsent PIDs, and those that a process without a submitter finalized.
   */
  ghost predicate Passed(
      first: int, last: int, dryDays: set<int>, rounds: seq<int>, probes: seq<Probe>,
      submitted: map<(int, string), string>, clock: int) {
    forall day :: first <= day <= last && day !in dryDays ==>
      day <= DayOf(clock) - MAX_BACKFILL_DAYS || AllSent(rounds, probes, submitted, day)
  }

  lemma AfterRound(
      sent: seq<Batch>, judged: map<int, seq<string>>, first: int, last: int, dryDays: set<int>,
      rounds: seq<int>, probes: seq<Probe>, submitted: map<(int, string), string>, clock: int,
      results: seq<(string, bool)>, ts: int)
    requires Evident(sent, rounds, probes, clock) && Standing(judged, rounds, probes, clock)
    requires Passed(first, last, dryDays, rounds, probes, submitted, clock) && Over(last, clock) && clock <= ts
    ensures var rounds', probes' := Completed(rounds, ts), Recorded(probes, results, ts);
      && Evident(sent, rounds', probes', ts) && Standing(judged, rounds', probes', ts)
      && Passed(first, last, dryDays, rounds', probes', submitted, ts)
  {
    hide Inactive, Recorded, Completed;
    forall day | Over(day, clock)
      ensures Inactive(Completed(rounds, ts), Recorded(probes, results, ts), day) == Inactive(rounds, probes, day)
    {
      RoundElsewhere(rounds, probes, results, ts, day);
    }
    LaterDay(clock, ts);
    forall day | first <= day <= last && day !in dryDays && day > DayOf(ts) - MAX_BACKFILL_DAYS
      ensures AllSent(Completed(rounds, ts), Recorded(probes, results, ts), submitted, day)
    {
      assert AllSent(rounds, probes, submitted, day);
    }
  }

  lemma LaterDay(clock: int, ts: int)
    requires clock <= ts
    ensures DayOf(clock) <= DayOf(ts)
  {
  }

  lemma OverLater(day: int, clock: int, later: int)
    requires Over(day, clock) && clock <= later
    ensures Over(day, later)
  {
  }

  /** What is kept at one time is kept at a later time. */
  lemma LaterState(
      sent: seq<Batch>, judged: map<int, seq<string>>, first: int, last: int, dryDays: set<int>,
      rounds: seq<int>, probes: seq<Probe>, submitted: map<(int, string), string>, clock: int, later: int)
    requires clock <= later
    ensures Evident(sent, rounds, probes, clock) ==> Evident(sent, rounds, probes, later)
    ensures Standing(judged, rounds, probes, clock) ==> Standing(judged, rounds, probes, later)
    ensures Passed(first, last, dryDays, rounds, probes, submitted, clock) ==>
      Passed(first, last, dryDays, rounds, probes, submitted, later)
    ensures Over(last, clock) ==> Over(last, later)
  {
    hide Inactive, AllSent;
    LaterDay(clock, later);
  }

  /** A finished day's batches and verdict, added to the history. */
  lemma Judge(
      sent: seq<Batch>, sent': seq<Batch>, judged: map<int, seq<string>>, rounds: seq<int>, probes: seq<Probe>,
      day: int, clock: int)
    requires Evident(sent, rounds, probes, clock) && Standing(judged, rounds, probes, clock) && Over(day, clock)
    requires sent <= sent' && forall i :: |sent| <= i < |sent'| ==>
      sent'[i].day == day && forall p :: p in sent'[i].pids ==> p in Inactive(rounds, probes, day)
    ensures Evident(sent', rounds, probes, clock)
    ensures Standing(judged[day := Inactive(rounds, probes, day)], rounds, probes, clock)
    ensures Extends(judged, judged[day := Inactive(rounds, probes, day)])
  {
    hide Inactive;
    assert forall i :: 0 <= i < |sent| ==> sent'[i] == sent[i];
  }

  lemma MoreSent(
      first: int, last: int, dryDays: set<int>, rounds: seq<int>, probes: seq<Probe>,
      submitted: map<(int, string), string>, submitted': map<(int, string), string>, clock: int)
    requires forall k :: k in submitted ==> k in submitted'
    ensures Passed(first, last, dryDays, rounds, probes, submitted, clock) ==>
      Passed(first, last, dryDays, rounds, probes, submitted', clock)
  {
    hide Inactive;
    forall day | AllSent(rounds, probes, submitted, day)
      ensures AllSent(rounds, probes, submitted', day)
    {
    }
  }

  lemma PassDay(
      first: int, last: int, dryDays: set<int>, rounds: seq<int>, probes: seq<Probe>,
      submitted: map<(int, string), string>, clock: int)
    requires || last + 1 in dryDays || AllSent(rounds, probes, submitted, last + 1)
             || last + 1 <= DayOf(clock) - MAX_BACKFILL_DAYS
    ensures Passed(first, last, dryDays, rounds, probes, submitted, clock) ==>
      Passed(first, last + 1, dryDays, rounds, probes, submitted, clock)
  {
    hide AllSent;
  }

  lemma MoreDry(
      first: int, last: int, dryDays: set<int>, day: int, rounds: seq<int>, probes: seq<Probe>,
      submitted: map<(int, string), string>, clock: int)
    ensures Passed(first, last, dryDays, rounds, probes, submitted, clock) ==>
      Passed(first, last, dryDays + {day}, rounds, probes, submitted, clock)
  {
    hide AllSent;
  }

  // ----- the monitor

  /** Submission k of a day's finalization; no submitter means a dry run. */
  type Submitter = Option<(int, nat) -> Answer>

  /** When the process dies in a pass, other than in a submission. */
  datatype Death = Never | BeforeFinalizing | BeforeCursor(day: int)

  /**
   One pass of the monitor's loop: the results of its round unless that failed,
   the time of the round, the time at which it looks for finished days, what
   becomes of each submission, the time read when finalizing a day fails, and
   the time at which the pass ends.
   */
  datatype Pass = Pass(round: Option<seq<(string, bool)>>, ts: int, now: int,
                       answers: (int, nat) -> Answer, later: int -> int, death: Death, end: int)
  {
    /** The clock does not go back during the pass. */
    ghost predicate InOrder(clock: int) {
      clock <= ts <= now && EndInOrder()
    }

    ghost predicate EndInOrder() {
      now <= end && forall day :: now <= later(day) <= end
    }

    function Yesterday(): int {
      DayOf(now - FINALIZE_DELAY) - 1
    }

    /** Submission k of the day raises, and the contract may still take the day. */
    predicate Retried(day: int, k: nat) {
      answers(day, k) == Failed && day > DayOf(later(day)) - MAX_BACKFILL_DAYS
    }

    ghost predicate SomeRetried(day: int) {
      exists k: nat :: Retried(day, k)
    }

    predicate KilledAt(day: int, k: nat) {
      answers(day, k) == Killed
    }

    ghost predicate SomeKilled(day: int) {
      exists k: nat :: KilledAt(day, k)
    }

    /** The process dies while it finalizes the day. */
    ghost predicate Kills(day: int) {
      death == BeforeCursor(day) || SomeKilled(day)
    }

    /** The process does not die in this pass. */
    ghost predicate Survived() {
      death == Never && forall day, k: nat :: !KilledAt(day, k)
    }

    /** The pass has finalized every finished day up to last, or leaves the next to be submitted again. */
    ghost predicate CaughtUp(submits: bool, last: int) {
      last >= Yesterday() || (submits && SomeRetried(last + 1))
    }
  }

  // ----- the tables after a day, a pass and a process

  /** The monitor's tables, and the batches that the submitter accepted. */
  datatype Tables = Tables(
    rounds: seq<int>, probes: seq<Probe>, submitted: map<(int, string), string>, cursor: Option<int>,
    sent: seq<Batch>)

  /** The day's batches from the j-th on, up to the first that is not accepted. */
  function DayBatches(day: int, todo: seq<string>, answers: (int, nat) -> Answer, j: nat): seq<Batch>
    decreases |todo| - SUBMIT_BATCH * j
  {
    if SUBMIT_BATCH * j >= |todo| then []
    else
      match answers(day, j)
      case Sent(tx) => [Batch(day, BatchOf(todo, j), tx)] + DayBatches(day, todo, answers, j + 1)
      case _ => []
  }

  function MarkedAll(submitted: map<(int, string), string>, batches: seq<Batch>): map<(int, string), string> {
    if batches == [] then submitted
    else
      var b := batches[|batches| - 1];
      Marked(MarkedAll(submitted, batches[..|batches| - 1]), b.day, b.pids, b.tx)
  }

  /** What finalizing the day leaves, and what becomes of the day. */
  function AfterDay(t: Tables, p: Pass, submits: bool, day: int): (Tables, Next) {
    var todo := Pending(t.submitted, day, Inactive(t.rounds, t.probes, day));
    var batches := if submits then DayBatches(day, todo, p.answers, 0) else [];
    var marked := t.(submitted := MarkedAll(t.submitted, batches), sent := t.sent + batches);
    var stopped := submits && SUBMIT_BATCH * |batches| < |todo|;
    if (stopped && p.answers(day, |batches|) == Killed) || p.death == BeforeCursor(day) then (marked, Dead)
    else if stopped && day > DayOf(p.later(day)) - MAX_BACKFILL_DAYS then (marked, Retry)
    else (marked.(cursor := Some(day)), Advanced)
  }

  /** What the inner loop of run leaves after last, the last day finalized, and whether the process lives. */
  function AfterDays(t: Tables, p: Pass, submits: bool, last: int): (Tables, int, bool)
    decreases p.Yesterday() - last
  {
    if last >= p.Yesterday() then (t, last, true)
    else
      var (after, next) := AfterDay(t, p, submits, last + 1);
      match next
      case Advanced => AfterDays(after, p, submits, last + 1)
      case Retry => (after, last, true)
      case Dead => (after, last, false)
  }

  function AfterPass(t: Tables, p: Pass, submits: bool, last: int): (Tables, int, bool) {
    var (rounds, probes) := TablesAfter(t.rounds, t.probes, p);
    var probed := t.(rounds := rounds, probes := probes);
    if p.death == BeforeFinalizing then (probed, last, false) else AfterDays(probed, p, submits, last)
  }

  /** What the passes leave; none is made after a death. */
  function AfterPasses(t: Tables, passes: seq<Pass>, submits: bool, last: int): (Tables, int, bool) {
    if passes == [] then (t, last, true)
    else
      var before := AfterPasses(t, passes[..|passes| - 1], submits, last);
      if before.2 then AfterPass(before.0, passes[|passes| - 1], submits, before.1) else before
  }

  lemma PassesNone(t: Tables, passes: seq<Pass>, submits: bool, last: int)
    ensures AfterPasses(t, passes[..0], submits, last) == (t, last, true)
    ensures TablesAfterAll(t.rounds, t.probes, passes[..0]) == (t.rounds, t.probes)
  {
  }

  lemma PassesNext(t: Tables, passes: seq<Pass>, submits: bool, last: int, i: nat)
    requires i < |passes|
    ensures var before := AfterPasses(t, passes[..i], submits, last);
      var after := AfterPasses(t, passes[..i + 1], submits, last);
      after == if before.2 then AfterPass(before.0, passes[i], submits, before.1) else before
    ensures var before := TablesAfterAll(t.rounds, t.probes, passes[..i]);
      TablesAfterAll(t.rounds, t.probes, passes[..i + 1]) == TablesAfter(before.0, before.1, passes[i])
  {
    hide AfterPass, TablesAfter;
    assert passes[..i + 1][..i] == passes[..i];
  }

  /** After a death nothing changes. */
  lemma {:induction false} DeadStays(t: Tables, passes: seq<Pass>, submits: bool, last: int, n: nat)
    requires n <= |passes| && (AfterPasses(t, passes[..n], submits, last).2 ==> n == |passes|)
    ensures AfterPasses(t, passes, submits, last) == AfterPasses(t, passes[..n], submits, last)
    decreases |passes|
  {
    hide AfterPass;
    if n == |passes| {
      assert passes[..n] == passes;
    } else {
      var init := passes[..|passes| - 1];
      assert init[..n] == passes[..n];
      if n < |init| {
        DeadStays(t, init, submits, last, n);
      } else {
        assert passes[..n] == init;
      }
    }
  }

  /** What a process leaves. */
  function AfterSession(t: Tables, s: Session): (Tables, int, bool) {
    AfterPasses(t, s.passes, s.submits, StartDay(t.cursor, s.now, s.again))
  }

  /** Each of the day's batches is the one that its answer accepted. */
  lemma {:induction false} BatchesAreAnswered(
      day: int, todo: seq<string>, answers: (int, nat) -> Answer, j: nat, i: nat)
    requires i < |DayBatches(day, todo, answers, j)|
    ensures SUBMIT_BATCH * (j + i) < |todo|
    ensures answers(day, j + i) == Answer.Sent(DayBatches(day, todo, answers, j)[i].tx)
    ensures DayBatches(day, todo, answers, j)[i]
           == Batch(day, BatchOf(todo, j + i), DayBatches(day, todo, answers, j)[i].tx)
    decreases i
  {
    hide BatchOf;
    if i > 0 {
      BatchesAreAnswered(day, todo, answers, j + 1, i - 1);
    }
  }

  /** The batches end where the PIDs do, or at the first answer that accepts nothing. */
  lemma {:induction false} BatchesEnd(day: int, todo: seq<string>, answers: (int, nat) -> Answer, j: nat)
    ensures var k := j + |DayBatches(day, todo, answers, j)|; SUBMIT_BATCH * k < |todo| ==> !answers(day, k).Sent?
    decreases |todo| - SUBMIT_BATCH * j
  {
    hide BatchOf;
    if SUBMIT_BATCH * j < |todo| && answers(day, j).Sent? {
      BatchesEnd(day, todo, answers, j + 1);
    }
  }

  /** A submitting pass goes on past a day that it could not submit in full only after an answer that failed. */
  lemma AdvancedAfterFailure(t: Tables, p: Pass, day: int)
    requires AfterDay(t, p, true, day).1 == Advanced
    ensures var todo := Pending(t.submitted, day, Inactive(t.rounds, t.probes, day));
      var k := |DayBatches(day, todo, p.answers, 0)|;
      SUBMIT_BATCH * k < |todo| ==> p.answers(day, k) == Failed && day <= DayOf(p.later(day)) - MAX_BACKFILL_DAYS
  {
    hide Inactive, Pending, DayBatches, MarkedAll, DayOf;
    BatchesEnd(day, Pending(t.submitted, day, Inactive(t.rounds, t.probes, day)), p.answers, 0);
  }

  /** The tables of rounds and probes after a pass. */
  function TablesAfter(rounds: seq<int>, probes: seq<Probe>, p: Pass): (seq<int>, seq<Probe>) {
    match p.round
    case None => (rounds, probes)
    case Some(results) => (Completed(rounds, p.ts), Recorded(probes, results, p.ts))
  }

  /** And after several. */
  function TablesAfterAll(rounds: seq<int>, probes: seq<Probe>, passes: seq<Pass>): (seq<int>, seq<Probe>) {
    if passes == [] then (rounds, probes)
    else
      var before := TablesAfterAll(rounds, probes, passes[..|passes| - 1]);
      TablesAfter(before.0, before.1, passes[|passes| - 1])
  }

  /** A process: the times read at its start, whether it submits, and its passes. */
  datatype Session = Session(now: int, again: int, submits: bool, passes: seq<Pass>)

  /** No clock reading of the passes is before the clock or out of order. */
  ghost predicate PassesInOrder(clock: int, passes: seq<Pass>) {
    && (passes != [] ==> passes[0].InOrder(clock))
    && forall i :: 1 <= i < |passes| ==> passes[i].InOrder(passes[i - 1].end)
  }

  ghost predicate SessionInOrder(clock: int, s: Session) {
    clock <= s.now <= s.again && PassesInOrder(s.again, s.passes)
  }

  /** The day a process starts after: one of the last two if there is no cursor. */
  function StartDay(cursor: Option<int>, now: int, again: int): int {
    var oldest := DayOf(now) - MAX_BACKFILL_DAYS;
    match cursor
    case Some(stored) => if stored >= oldest - 1 then stored else oldest - 1
    case None => DayOf(again) - 2
  }

  /** A cursor that has not gone back. */
  predicate Onward(before: Option<int>, after: Option<int>) {
    before.Some? ==> after.Some? && before.value <= after.value
  }

  ghost predicate Extends(before: map<int, seq<string>>, after: map<int, seq<string>>) {
    forall day :: day in before ==> day in after && after[day] == before[day]
  }

  lemma ExtendsItself(judged: map<int, seq<string>>)
    ensures Extends(judged, judged)
  {
  }

  lemma ExtendsFurther(a: map<int, seq<string>>, b: map<int, seq<string>>, c: map<int, seq<string>>)
    requires Extends(a, b) && Extends(b, c)
    ensures Extends(a, c)
  {
  }

  lemma FinishedIsOver(p: Pass, day: int)
    requires day <= p.Yesterday()
    ensures Over(day, p.now)
  {
    OverIff(day, p.now);
  }

  /** What became of the next day: finalized, left for the next pass, or the process died. */
  datatype Next = Advanced | Retry | Dead

  /** The batches from the given one on are for days after start, up to the one after last. */
  ghost predicate SentFrom(from: nat, sent: seq<Batch>, start: int, last: int) {
    forall i :: from <= i < |sent| ==> start < sent[i].day <= last + 1
  }

  lemma SentNone(sent: seq<Batch>, start: int)
    ensures SentFrom(|sent|, sent, start, start)
  {
  }

  lemma SentFurther(from: nat, mid: seq<Batch>, sent: seq<Batch>, start: int, midDay: int, last: int)
    requires SentFrom(from, mid, start, midDay) && SentFrom(|mid|, sent, midDay, last) && mid <= sent
    requires start <= midDay <= last
    ensures SentFrom(from, sent, start, last)
  {
    assert forall i :: 0 <= i < |mid| ==> sent[i] == mid[i];
  }

  /** Without a submitter the days after start up to last are added to the dry days. */
  ghost predicate DryFrom(before: set<int>, after: set<int>, submits: bool, start: int, last: int) {
    forall day :: day in after <==> day in before || (!submits && start < day <= last)
  }

  lemma DryNone(days: set<int>, submits: bool, start: int)
    ensures DryFrom(days, days, submits, start, start)
  {
  }

  lemma DryFurther(a: set<int>, b: set<int>, c: set<int>, submits: bool, start: int, mid: int, last: int)
    requires DryFrom(a, b, submits, start, mid) && DryFrom(b, c, submits, mid, last) && start <= mid <= last
    ensures DryFrom(a, c, submits, start, last)
  {
  }

  lemma NoBatches(submitted: map<(int, string), string>)
    ensures MarkedAll(submitted, []) == submitted
  {
  }

  lemma NothingToDo(day: int, answers: (int, nat) -> Answer)
    ensures DayBatches(day, [], answers, 0) == []
  {
  }

  lemma SoFarNone(todo: seq<string>)
    ensures SoFar(todo, 0) == []
  {
  }

  /** The day's batches are for the day, and of its PIDs. */
  lemma {:induction false} BatchesWithin(day: int, todo: seq<string>, answers: (int, nat) -> Answer, j: nat)
    ensures forall i :: 0 <= i < |DayBatches(day, todo, answers, j)| ==>
      && DayBatches(day, todo, answers, j)[i].day == day
      && forall p :: p in DayBatches(day, todo, answers, j)[i].pids ==> p in todo
    decreases |todo| - SUBMIT_BATCH * j
  {
    if SUBMIT_BATCH * j < |todo| && answers(day, j).Sent? {
      BatchesWithin(day, todo, answers, j + 1);
      assert forall p :: p in BatchOf(todo, j) ==> p in todo;
    }
  }

  lemma MarkedOneMore(submitted: map<(int, string), string>, batches: seq<Batch>, b: Batch)
    ensures MarkedAll(submitted, batches + [b]) == Marked(MarkedAll(submitted, batches), b.day, b.pids, b.tx)
  {
    assert (batches + [b])[..|batches|] == batches;
  }

  class Monitor {
    var rounds: seq<int>
    var probes: seq<Probe>
    /** The submitted table: (day, PID) to transaction. */
    var submitted: map<(int, string), string>
    var cursor: Option<int>
    /** Every batch the submitter accepted, and every verdict the loop reached. */
    ghost var sent: seq<Batch>
    ghost var judged: map<int, seq<string>>
    /** The latest time seen, and the day before the last start that found no cursor. */
    ghost var clock: int
    ghost var first: int
    /** The days that a process without a submitter finalized. */
    ghost var dryDays: set<int>

    ghost function Now(): Tables
      reads this
    {
      Tables(rounds, probes, submitted, cursor, sent)
    }

    /** What holds whenever the process may stop; last is the last day finalized in memory or on disk. */
    ghost predicate Valid(last: int)
      reads this
    {
      && Keyed(probes)
      && Booked(sent, submitted)
      && Evident(sent, rounds, probes, clock)
      && Standing(judged, rounds, probes, clock)
      && Over(last, clock)
      && Passed(first, last, dryDays, rounds, probes, submitted, clock)
      && (cursor.Some? ==> cursor.value <= last)
    }

    constructor ()
      ensures Valid(-2) && cursor == None && sent == [] && clock == 0 && dryDays == {}
      ensures rounds == [] && probes == [] && submitted == map[]
    {
      rounds, probes, submitted, cursor := [], [], map[], None;
      sent, judged, clock, first, dryDays := [], map[], 0, 0, {};
    }

    /** run_round, once every probe has its result. */
    method RunRound(results: seq<(string, bool)>, ts: int)
      modifies this`rounds, this`probes
      ensures rounds == Completed(old(rounds), ts) && probes == Recorded(old(probes), results, ts)
    {
      hide Without;
      for i := 0 to |results|
        invariant probes == Recorded(old(probes), results[..i], ts) && rounds == old(rounds)
      {
        assert results[..i + 1][..i] == results[..i];
        probes := Replaced(probes, Probe(results[i].0, ts, results[i].1));
      }
      assert results[..|results|] == results;
      if ts !in rounds {
        rounds := rounds + [ts];
      }
    }

    /** mark_submitted: INSERT OR IGNORE. */
    method MarkSubmitted(day: int, pids: seq<string>, tx: string)
      modifies this`submitted
      ensures submitted == Marked(old(submitted), day, pids, tx)
    {
      for i := 0 to |pids|
        invariant submitted == Marked(old(submitted), day, pids[..i], tx)
      {
        assert pids[..i + 1][..i] == pids[..i];
        if (day, pids[i]) !in submitted {
          submitted := submitted[(day, pids[i]) := tx];
        }
      }
      assert pids[..|pids|] == pids;
    }

    /** finalize_day. */
    method FinalizeDay(day: int, submit: Submitter) returns (r: Result<seq<string>, Stop>)
      requires Booked(sent, submitted)
      modifies this`submitted, this`sent
      ensures Booked(sent, submitted) && old(sent) <= sent
      ensures forall i :: |old(sent)| <= i < |sent| ==>
        sent[i].day == day && forall p :: p in sent[i].pids ==> p in Inactive(rounds, probes, day)
      ensures submit.None? ==> submitted == old(submitted) && sent == old(sent) && r.Ok?
      ensures r.Ok? ==> r.value == Pending(old(submitted), day, Inactive(rounds, probes, day))
      ensures r.Ok? && submit.Some? ==> AllSent(rounds, probes, submitted, day)
      ensures var todo := Pending(old(submitted), day, Inactive(rounds, probes, day));
        var batches := if submit.Some? then DayBatches(day, todo, submit.value, 0) else [];
        && sent == old(sent) + batches && submitted == MarkedAll(old(submitted), batches)
        && (r.Err? <==> submit.Some? && SUBMIT_BATCH * |batches| < |todo|)
        && (r.Err? ==> submit.value(day, |batches|) == (if r.error == Raised then Failed else Killed))
      ensures forall k :: k in old(submitted) ==> k in submitted
    {
      hide Inactive, Booked, Pending, Distinct, MarkedAll, DayBatches;
      InactiveMeans(rounds, probes, day);
      var todo := Pending(submitted, day, Inactive(rounds, probes, day));
      PendingMeans(submitted, day, Inactive(rounds, probes, day));
      NoBatches(submitted);
      if submit.None? {
        return Ok(todo);
      }
      NothingToDo(day, submit.value);
      if todo == [] {
        return Ok(todo);
      }
      BatchesWithin(day, todo, submit.value, 0);
      var stop := SubmitBatches(day, todo, submit.value);
      if stop.Some? {
        return Err(stop.value);
      }
      SoFarAll(todo, |sent| - |old(sent)|);
      r := Ok(todo);
    }

    /** The loop of finalize_day. */
    method SubmitBatches(day: int, todo: seq<string>, answers: (int, nat) -> Answer) returns (stop: Option<Stop>)
      requires Booked(sent, submitted) && Distinct(todo) && forall p :: p in todo ==> (day, p) !in submitted
      modifies this`submitted, this`sent
      ensures Booked(sent, submitted)
      ensures var batches := DayBatches(day, todo, answers, 0);
        && sent == old(sent) + batches && submitted == MarkedAll(old(submitted), batches)
        && (stop.Some? <==> SUBMIT_BATCH * |batches| < |todo|)
        && (stop.Some? ==> answers(day, |batches|) == (if stop.value == Raised then Failed else Killed))
        && forall k :: k in submitted <==> k in old(submitted) || (k.0 == day && k.1 in SoFar(todo, |batches|))
    {
      hide Booked, Distinct, Marked, MarkedAll, BatchOf, SoFar;
      var j := 0;
      ghost var done: seq<Batch> := [];
      NoBatches(submitted);
      SoFarNone(todo);
      while SUBMIT_BATCH * j < |todo|
        invariant Booked(sent, submitted) && sent == old(sent) + done && |done| == j
        invariant submitted == MarkedAll(old(submitted), done)
        invariant done + DayBatches(day, todo, answers, j) == DayBatches(day, todo, answers, 0)
        invariant forall k :: k in submitted <==> k in old(submitted) || (k.0 == day && k.1 in SoFar(todo, j))
        decreases |todo| - SUBMIT_BATCH * j
      {
        var batch := BatchOf(todo, j);
        NextBatch(todo, j);
        match answers(day, j) {
          case Sent(tx) =>
            BookedBatch(sent, submitted, Batch(day, batch, tx));
            MarkedKeys(submitted, day, batch, tx);
            MarkedOneMore(old(submitted), done, Batch(day, batch, tx));
            MarkSubmitted(day, batch, tx);
            sent := sent + [Batch(day, batch, tx)];
            done := done + [Batch(day, batch, tx)];
          case Failed =>
            assert done + [] == done;
            return Some(Raised);
          case Killed =>
            assert done + [] == done;
            return Some(Died);
        }
        j := j + 1;
      }
      assert done + [] == done;
      stop := None;
    }

    /** Finalize the day after last. */
    method FinalizeNext(p: Pass, submits: bool, last: int) returns (next: Next)
      requires Valid(last) && clock == p.end && p.EndInOrder() && last < p.Yesterday()
      modifies this`submitted, this`sent, this`cursor, this`judged, this`dryDays
      ensures Valid(if next == Advanced then last + 1 else last)
      ensures cursor == (if next == Advanced then Some(last + 1) else old(cursor))
      ensures old(sent) <= sent && Extends(old(judged), judged)
      ensures forall day :: day in judged <==> day in old(judged) || day == last + 1
      ensures next == Retry ==> submits && p.SomeRetried(last + 1)
      ensures next == Dead ==> p.Kills(last + 1)
      ensures dryDays == if !submits && next == Advanced then old(dryDays) + {last + 1} else old(dryDays)
      ensures !submits ==> submitted == old(submitted) && sent == old(sent)
      ensures SentFrom(|old(sent)|, sent, last, last)
      ensures (Now(), next) == AfterDay(old(Now()), p, submits, last + 1)
    {
      hide Booked, Evident, Standing, Passed, AllSent, Inactive, Over, DayOf, Pending, Keyed, Extends,
           DayBatches, MarkedAll;
      var day := last + 1;
      OverIff(day, p.now);
      OverLater(day, p.now, p.end);
      ghost var submitted0, sent0 := submitted, sent;
      var r := FinalizeDay(day, if submits then Some(p.answers) else None);
      Judge(sent0, sent, judged, rounds, probes, day, clock);
      judged := judged[day := Inactive(rounds, probes, day)];
      MoreSent(first, last, dryDays, rounds, probes, submitted0, submitted, clock);
      if r == Err(Died) || p.death == BeforeCursor(day) {
        assert r == Err(Died) ==> p.KilledAt(day, |sent| - |sent0|);
        return Dead;
      }
      if r.Err? && day > DayOf(p.later(day)) - MAX_BACKFILL_DAYS {
        assert p.Retried(day, |sent| - |sent0|);
        return Retry;
      }
      LaterDay(p.later(day), p.end);
      if !submits {
        MoreDry(first, last, dryDays, day, rounds, probes, submitted, clock);
        dryDays := dryDays + {day};
      }
      PassDay(first, last, dryDays, rounds, probes, submitted, clock);
      cursor := Some(day);
      next := Advanced;
    }

    /** The inner loop of run: finalize every finished day after last0. */
    method FinishDays(p: Pass, submits: bool, last0: int) returns (last: int, alive: bool)
      requires Valid(last0) && clock == p.now && p.EndInOrder()
      modifies this`submitted, this`sent, this`cursor, this`judged, this`clock, this`dryDays
      ensures Valid(last) && clock == p.end && last >= last0
      ensures Onward(old(cursor), cursor) && old(sent) <= sent && Extends(old(judged), judged)
      ensures forall day :: day in judged && day !in old(judged) ==> Over(day, p.now)
      ensures if alive then p.CaughtUp(submits, last) else p.Kills(last + 1)
      ensures cursor == if last == last0 then old(cursor) else Some(last)
      ensures DryFrom(old(dryDays), dryDays, submits, last0, last)
      ensures !submits ==> submitted == old(submitted) && sent == old(sent)
      ensures SentFrom(|old(sent)|, sent, last0, last)
      ensures (Now(), last, alive) == AfterDays(old(Now()), p, submits, last0)
    {
      hide Booked, Evident, Standing, Passed, Over, Keyed, Extends, Pass.Yesterday, Pass.Kills, AfterDay;
      last, alive := last0, true;
      clock := p.end;
      LaterState(sent, judged, first, last, dryDays, rounds, probes, submitted, p.now, p.end);
      ExtendsItself(judged);
      while last < p.Yesterday()
        invariant Valid(last) && clock == p.end && last >= last0
        invariant Onward(old(cursor), cursor) && old(sent) <= sent && Extends(old(judged), judged)
        invariant forall day :: day in judged && day !in old(judged) ==> Over(day, p.now)
        invariant cursor == if last == last0 then old(cursor) else Some(last)
        invariant DryFrom(old(dryDays), dryDays, submits, last0, last)
        invariant !submits ==> submitted == old(submitted) && sent == old(sent)
        invariant SentFrom(|old(sent)|, sent, last0, last)
        invariant alive && AfterDays(Now(), p, submits, last) == AfterDays(old(Now()), p, submits, last0)
        decreases p.Yesterday() - last
      {
        ghost var judged0, sent0 := judged, sent;
        FinishedIsOver(p, last + 1);
        var next := FinalizeNext(p, submits, last);
        ExtendsFurther(old(judged), judged0, judged);
        SentFurther(|old(sent)|, sent0, sent, last0, last, if next == Advanced then last + 1 else last);
        match next {
          case Advanced => last := last + 1;
          case Retry => return last, true;
          case Dead => return last, false;
        }
      }
    }

    /** One pass of run: a round, then every finished day. */
    method RunPass(p: Pass, submits: bool, last0: int) returns (last: int, alive: bool)
      requires Valid(last0) && p.InOrder(clock)
      modifies this`rounds, this`probes, this`submitted, this`sent, this`cursor, this`judged, this`clock, this`dryDays
      ensures Valid(last) && clock == p.end && last >= last0 && clock >= old(clock)
      ensures Onward(old(cursor), cursor) && old(sent) <= sent && Extends(old(judged), judged)
      ensures forall day :: day in judged && day !in old(judged) ==> Over(day, p.now)
      ensures if alive then p.CaughtUp(submits, last) else p.death == BeforeFinalizing || p.Kills(last + 1)
      ensures p.Survived() ==> alive
      ensures (rounds, probes) == TablesAfter(old(rounds), old(probes), p)
      ensures cursor == if last == last0 then old(cursor) else Some(last)
      ensures DryFrom(old(dryDays), dryDays, submits, last0, last)
      ensures !submits ==> submitted == old(submitted) && sent == old(sent)
      ensures SentFrom(|old(sent)|, sent, last0, last)
      ensures (Now(), last, alive) == AfterPass(old(Now()), p, submits, last0)
    {
      hide Booked, Evident, Standing, Passed, Over, Keyed, Extends, DayOf, Pass.CaughtUp, AfterDays;
      ExtendsItself(judged);
      if p.round.Some? {
        AfterRound(sent, judged, first, last0, dryDays, rounds, probes, submitted, clock, p.round.value, p.ts);
        RecordedKeyed(probes, p.round.value, p.ts);
        RunRound(p.round.value, p.ts);
        OverLater(last0, clock, p.ts);
        clock := p.ts;
      }
      LaterState(sent, judged, first, last0, dryDays, rounds, probes, submitted, clock, p.now);
      clock := p.now;
      if p.death == BeforeFinalizing {
        LaterState(sent, judged, first, last0, dryDays, rounds, probes, submitted, clock, p.end);
        clock := p.end;
        return last0, false;
      }
      last, alive := FinishDays(p, submits, last0);
    }

    /** run, until the process dies or has made its passes. */
    method Run(s: Session, ghost before: int) returns (last: int, ghost made: nat)
      requires Valid(before) && SessionInOrder(clock, s)
      modifies this
      ensures Valid(last) && last >= StartDay(old(cursor), s.now, s.again)
      ensures s.again <= clock <= EndOf(s)
      ensures made <= |s.passes| && (rounds, probes) == TablesAfterAll(old(rounds), old(probes), s.passes[..made])
      ensures made < |s.passes| ==>
        made > 0 && var p := s.passes[made - 1]; p.death == BeforeFinalizing || p.Kills(last + 1)
      ensures AllSurvived(s.passes) ==>
        made == |s.passes| && (made > 0 ==> s.passes[made - 1].CaughtUp(s.submits, last))
      ensures Onward(old(cursor), cursor) && old(sent) <= sent && Extends(old(judged), judged)
      ensures cursor == if last == StartDay(old(cursor), s.now, s.again) then old(cursor) else Some(last)
      ensures first == (if old(cursor).None? then DayOf(s.again) - 1 else old(first))
      ensures DryFrom(old(dryDays), dryDays, s.submits, StartDay(old(cursor), s.now, s.again), last)
      ensures !s.submits ==> submitted == old(submitted) && sent == old(sent)
      ensures SentFrom(|old(sent)|, sent, StartDay(old(cursor), s.now, s.again), last)
      ensures Now() == AfterSession(old(Now()), s).0 && last == AfterSession(old(Now()), s).1
    {
      hide Booked, Evident, Standing, Passed, Over, Keyed, Extends, DayOf, StartDay, Pass.InOrder, TablesAfter,
           Pass.CaughtUp, Pass.Kills, Pass.Survived, DryFrom, SentFrom, AfterPass, AfterPasses, TablesAfterAll;
      Restart(sent, judged, first, before, dryDays, rounds, probes, submitted, clock, cursor, s);
      var start := StartDay(cursor, s.now, s.again);
      last := start;
      first := if cursor.None? then DayOf(s.again) - 1 else first;
      clock := s.again;
      ExtendsItself(judged);
      DryNone(dryDays, s.submits, last);
      SentNone(sent, last);
      var alive := true;
      var i := 0;
      PassesNone(old(Now()), s.passes, s.submits, start);
      while alive && i < |s.passes|
        invariant i <= |s.passes|
        invariant (rounds, probes) == TablesAfterAll(old(rounds), old(probes), s.passes[..i])
        invariant Valid(last) && last >= start
        invariant s.again <= clock
        invariant clock == if i == 0 then s.again else s.passes[i - 1].end
        invariant Onward(old(cursor), cursor) && old(sent) <= sent && Extends(old(judged), judged)
        invariant first == (if old(cursor).None? then DayOf(s.again) - 1 else old(first))
        invariant cursor == if last == start then old(cursor) else Some(last)
        invariant DryFrom(old(dryDays), dryDays, s.submits, start, last)
        invariant !s.submits ==> submitted == old(submitted) && sent == old(sent)
        invariant SentFrom(|old(sent)|, sent, start, last)
        invariant (Now(), last, alive) == AfterPasses(old(Now()), s.passes[..i], s.submits, start)
        invariant !alive ==> i > 0 && (s.passes[i - 1].death == BeforeFinalizing || s.passes[i - 1].Kills(last + 1))
        invariant AllSurvived(s.passes) ==> alive && (i > 0 ==> s.passes[i - 1].CaughtUp(s.submits, last))
      {
        ghost var judged0, last0, dry0, sent0 := judged, last, dryDays, sent;
        last, alive := RunPass(s.passes[i], s.submits, last);
        ExtendsFurther(old(judged), judged0, judged);
        SentFurther(|old(sent)|, sent0, sent, start, last0, last);
        DryFurther(old(dryDays), dry0, dryDays, s.submits, start, last0, last);
        PassesNext(old(Now()), s.passes, s.submits, start, i);
        i := i + 1;
      }
      made := i;
      DeadStays(old(Now()), s.passes, s.submits, start, i);
      EndsInOrder(s, i);
    }
  }

  ghost predicate AllSurvived(passes: seq<Pass>) {
    forall i :: 0 <= i < |passes| ==> passes[i].Survived()
  }

  /** The time at which the last pass of a session would end. */
  function EndOf(s: Session): int {
    if s.passes == [] then s.again else s.passes[|s.passes| - 1].end
  }

  lemma {:induction false} EndsInOrder(s: Session, i: nat)
    requires SessionInOrder(s.now, s) && i <= |s.passes|
    ensures (if i == 0 then s.again else s.passes[i - 1].end) <= EndOf(s)
    decreases |s.passes| - i
  {
    if i < |s.passes| {
      assert s.passes[i].InOrder(if i == 0 then s.again else s.passes[i - 1].end);
      EndsInOrder(s, i + 1);
    }
  }

  /** A start keeps what a stopped process left behind. */
  lemma Restart(
      sent: seq<Batch>, judged: map<int, seq<string>>, first: int, before: int, dryDays: set<int>,
      rounds: seq<int>, probes: seq<Probe>, submitted: map<(int, string), string>, clock: int,
      cursor: Option<int>, s: Session)
    requires Evident(sent, rounds, probes, clock) && Standing(judged, rounds, probes, clock) && Over(before, clock)
    requires Passed(first, before, dryDays, rounds, probes, submitted, clock)
    requires cursor.Some? ==> cursor.value <= before
    requires clock <= s.now <= s.again
    ensures var last := StartDay(cursor, s.now, s.again);
      && Evident(sent, rounds, probes, s.again) && Standing(judged, rounds, probes, s.again) && Over(last, s.again)
      && (cursor.Some? ==> Passed(first, last, dryDays, rounds, probes, submitted, s.again))
      && (cursor.None? ==> Passed(DayOf(s.again) - 1, last, dryDays, rounds, probes, submitted, s.again))
      && (cursor.Some? ==> cursor.value <= last)
  {
    hide AllSent;
    LaterState(sent, judged, first, before, dryDays, rounds, probes, submitted, clock, s.again);
    LaterDay(s.now, s.again);
  }

  /** A day that a start without a cursor leaves behind, and that the contract would still take. */
  predicate Skipped(first: int, before: int, dryDays: set<int>, again: int, day: int) {
    first <= day && before < day <= DayOf(again) - 2 && day > DayOf(again) - MAX_BACKFILL_DAYS && day !in dryDays
  }

  /**
   A start keeps the promise made from an earlier first day exactly when it
   finds a cursor, or when no day before yesterday that the contract would
   still take has anything unsent.
   */
  lemma StartPassesIff(
      first: int, before: int, dryDays: set<int>, rounds: seq<int>, probes: seq<Probe>,
      submitted: map<(int, string), string>, clock: int, cursor: Option<int>, now: int, again: int)
    requires Passed(first, before, dryDays, rounds, probes, submitted, clock) && clock <= now <= again
    requires cursor.Some? ==> cursor.value <= before
    ensures Passed(first, StartDay(cursor, now, again), dryDays, rounds, probes, submitted, again) <==>
      || cursor.Some?
      || forall day :: Skipped(first, before, dryDays, again, day) ==> AllSent(rounds, probes, submitted, day)
  {
    hide AllSent;
    LaterDay(clock, again);
    LaterDay(now, again);
  }

  /**
   Finalizing the next day without a submitter keeps the promise, with no day
   excused, exactly when the day has nothing pending or is too old.
   */
  lemma DryPassesIff(
      first: int, last: int, rounds: seq<int>, probes: seq<Probe>, submitted: map<(int, string), string>,
      clock: int)
    requires Passed(first, last, {}, rounds, probes, submitted, clock) && first <= last + 1
    ensures Passed(first, last + 1, {}, rounds, probes, submitted, clock) <==>
      || Pending(submitted, last + 1, Inactive(rounds, probes, last + 1)) == []
      || last + 1 <= DayOf(clock) - MAX_BACKFILL_DAYS
  {
    hide AllSent, Inactive, Pending;
    var day := last + 1;
    NothingPending(rounds, probes, submitted, day);
    PassDayIff(first, last, rounds, probes, submitted, clock);
  }

  lemma PassDayIff(
      first: int, last: int, rounds: seq<int>, probes: seq<Probe>, submitted: map<(int, string), string>,
      clock: int)
    requires Passed(first, last, {}, rounds, probes, submitted, clock) && first <= last + 1
    ensures Passed(first, last + 1, {}, rounds, probes, submitted, clock) <==>
      AllSent(rounds, probes, submitted, last + 1) || last + 1 <= DayOf(clock) - MAX_BACKFILL_DAYS
  {
    hide AllSent;
    var day := last + 1;
    assert first <= day <= last + 1 && day !in {};
  }

  /** Nothing is pending for a day exactly when all its inactive PIDs were submitted. */
  lemma NothingPending(rounds: seq<int>, probes: seq<Probe>, submitted: map<(int, string), string>, day: int)
    ensures Pending(submitted, day, Inactive(rounds, probes, day)) == [] <==> AllSent(rounds, probes, submitted, day)
  {
    hide Inactive, Pending;
    InactiveMeans(rounds, probes, day);
    PendingMeans(submitted, day, Inactive(rounds, probes, day));
    var pending := Pending(submitted, day, Inactive(rounds, probes, day));
    assert pending != [] ==> pending[0] in pending;
  }

  /** The PIDs of the first j batches. */
  function SoFar(todo: seq<string>, j: nat): seq<string> {
    if SUBMIT_BATCH * j < |todo| then todo[..SUBMIT_BATCH * j] else todo
  }

  lemma SoFarAll(todo: seq<string>, j: nat)
    requires SUBMIT_BATCH * j >= |todo|
    ensures SoFar(todo, j) == todo
  {
  }

  lemma NextBatch(todo: seq<string>, j: nat)
    requires SUBMIT_BATCH * j < |todo| && Distinct(todo)
    ensures SoFar(todo, j + 1) == SoFar(todo, j) + BatchOf(todo, j)
    ensures 1 <= |BatchOf(todo, j)| <= SUBMIT_BATCH && Distinct(BatchOf(todo, j))
    ensures forall p :: p in BatchOf(todo, j) ==> p in todo && p !in SoFar(todo, j)
  {
  }
}
