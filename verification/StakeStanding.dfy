/** A Pillar's standing across the staking contracts, and how long an answer is used (mesh/staking.py, status). */
module StakeStanding {
  import opened Wrappers

  /** What one contract says of a PID; no operator means it is not registered there. */
  datatype Answer = Answer(active: bool, operator: Option<string>, endpoint: string, stakeUnits: nat)

  datatype Standing = Standing(pid: string, active: bool, operator: Option<string>, endpoint: string, stakeUnits: nat,
                               contract: Option<nat>, checkedAt: int, error: bool, stale: bool)

  /** _PID_RE: 64 hexadecimal digits, and perhaps a newline. */
  predicate IsPid(t: string) {
    var s := if t != "" && t[|t| - 1] == '\n' then t[..|t| - 1] else t;
    |s| == 64 && forall c :: c in s ==> '0' <= c <= '9' || 'a' <= c <= 'f'
  }

  /** An answer as _read_one returns it: a PID nobody registered is not active. */
  function Reading(pid: string, c: nat, a: Answer, now: int): Standing {
    if a.operator.None? then Standing(pid, false, None, "", 0, Some(c), now, false, false)
    else Standing(pid, a.active, a.operator, a.endpoint, a.stakeUnits, Some(c), now, false, false)
  }

  function Nowhere(pid: string, now: int, error: bool): Standing {
    Standing(pid, false, None, "", 0, None, now, error, false)
  }

  /** Contract c answers, and the PID is not active there. */
  predicate Idle(answers: nat -> Option<Answer>, c: nat) {
    answers(c).Some? && (answers(c).value.active ==> answers(c).value.operator.None?)
  }

  predicate IdleBefore(answers: nat -> Option<Answer>, n: nat) {
    forall c: nat :: c < n ==> Idle(answers, c)
  }

  /** The first contract before n where the PID is registered, if any. */
  function Registered(answers: nat -> Option<Answer>, n: nat): (r: Option<nat>)
    requires IdleBefore(answers, n)
    ensures r.Some? ==> r.value < n && Idle(answers, r.value) && answers(r.value).value.operator.Some?
    ensures forall c: nat :: c < n && answers(c).Some? && answers(c).value.operator.Some? ==> r.Some? && r.value <= c
  {
    if n == 0 then None
    else
      var before := Registered(answers, n - 1);
      assert Idle(answers, n - 1);
      if before.Some? then before else if answers(n - 1).value.operator.Some? then Some(n - 1) else None
  }

  /** What is reported of a PID that is active nowhere: the first contract where it is registered, if any. */
  function NotActive(answers: nat -> Option<Answer>, n: nat, pid: string, now: int): Standing
    requires IdleBefore(answers, n)
  {
    match Registered(answers, n)
    case Some(c) => Reading(pid, c, answers(c).value, now)
    case None => Nowhere(pid, now, false)
  }

  predicate IsReading(st: Standing, pid: string, now: int) {
    st.pid == pid && st.checkedAt == now && !st.error && !st.stale
  }

  /** The first contract from c on that does not answer or where the PID is active, or contracts. */
  function FirstBusy(answers: nat -> Option<Answer>, c: nat, contracts: nat): (k: nat)
    requires c <= contracts && IdleBefore(answers, c)
    ensures c <= k <= contracts && IdleBefore(answers, k) && (k < contracts ==> !Idle(answers, k))
    decreases contracts - c
  {
    if c < contracts && Idle(answers, c) then FirstBusy(answers, c + 1, contracts) else c
  }

  /** What the contracts together say of a PID; None where a call raises. */
  function Consulted(answers: nat -> Option<Answer>, contracts: nat, pid: string, now: int): Option<Standing> {
    var k := FirstBusy(answers, 0, contracts);
    if k == contracts then Some(NotActive(answers, contracts, pid, now))
    else if answers(k).None? then None
    else Some(Reading(pid, k, answers(k).value, now))
  }

  lemma BusyIsFirst(answers: nat -> Option<Answer>, contracts: nat, c: nat)
    requires c < contracts && IdleBefore(answers, c) && !Idle(answers, c)
    ensures FirstBusy(answers, 0, contracts) == c
  {
    hide Idle;
    var k := FirstBusy(answers, 0, contracts);
  }

  lemma NobodyBusy(answers: nat -> Option<Answer>, contracts: nat)
    requires IdleBefore(answers, contracts)
    ensures FirstBusy(answers, 0, contracts) == contracts
  {
    hide Idle;
    var k := FirstBusy(answers, 0, contracts);
  }

  lemma ConsultedIsReading(answers: nat -> Option<Answer>, contracts: nat, pid: string, now: int)
    requires Consulted(answers, contracts, pid, now).Some?
    ensures IsReading(Consulted(answers, contracts, pid, now).value, pid, now)
  {
  }

  /** The loop over the contracts. */
  method Consult(pid: string, contracts: nat, answers: nat -> Option<Answer>, now: int) returns (r: Option<Standing>)
    ensures r == Consulted(answers, contracts, pid, now)
  {
    var found: Option<Standing> := None;
    for c := 0 to contracts
      invariant IdleBefore(answers, c)
      invariant found.None? <==> Registered(answers, c).None?
      invariant found.GetOr(Nowhere(pid, now, false)) == NotActive(answers, c, pid, now)
    {
      if answers(c).None? {
        BusyIsFirst(answers, contracts, c);
        return None;
      }
      var st := Reading(pid, c, answers(c).value, now);
      if st.active {
        BusyIsFirst(answers, contracts, c);
        return Some(st);
      }
      assert Idle(answers, c);
      if found.None? && st.operator.Some? {
        found := Some(st);
      }
    }
    NobodyBusy(answers, contracts);
    r := Some(found.GetOr(Nowhere(pid, now, false)));
  }

  /** The latest reading of a PID is the one in the cache. */
  ghost predicate Latest(cache: map<string, Standing>, read: seq<Standing>) {
    && (forall pid :: pid in cache ==> cache[pid] in read && IsReading(cache[pid], pid, cache[pid].checkedAt))
    && (forall i :: 0 <= i < |read| ==> read[i].pid in cache && read[i].checkedAt <= cache[read[i].pid].checkedAt)
  }

  ghost predicate ReadBy(read: seq<Standing>, now: int) {
    forall i :: 0 <= i < |read| ==> read[i].checkedAt <= now
  }

  lemma AddReading(cache: map<string, Standing>, read: seq<Standing>, st: Standing, now: int)
    requires Latest(cache, read) && ReadBy(read, now) && IsReading(st, st.pid, now)
    ensures Latest(cache[st.pid := st], read + [st]) && ReadBy(read + [st], now) && st in read + [st]
  {
    assert forall r :: r in read ==> r in read + [st];
  }

  /** There is a cached standing younger than limit. */
  predicate InUse(cache: map<string, Standing>, pid: string, now: int, limit: int) {
    pid in cache && now - cache[pid].checkedAt < limit
  }

  ghost predicate NothingNewer(read: seq<Standing>, pid: string, time: int) {
    forall i :: 0 <= i < |read| && read[i].pid == pid ==> read[i].checkedAt <= time
  }

  lemma CachedIsLatest(cache: map<string, Standing>, read: seq<Standing>, pid: string)
    requires Latest(cache, read) && pid in cache
    ensures NothingNewer(read, pid, cache[pid].checkedAt) && cache[pid] in read
    ensures IsReading(cache[pid], pid, cache[pid].checkedAt)
  {
  }

  lemma NowIsLatest(read: seq<Standing>, pid: string, now: int)
    requires ReadBy(read, now)
    ensures NothingNewer(read, pid, now)
  {
  }

  class Reader {
    /** str.lower. */
    const lower: string -> string
    const contracts: nat
    const ttl: int
    const grace: int
    var cache: map<string, Standing>
    /** Every standing read from the contracts. */
    ghost var read: seq<Standing>

    constructor (lower: string -> string, contracts: nat, ttl: int, grace: int)
      ensures Latest(cache, read) && cache == map[] && read == []
      ensures this.lower == lower && this.contracts == contracts && this.ttl == ttl && this.grace == grace
    {
      this.lower, this.contracts, this.ttl, this.grace := lower, contracts, ttl, grace;
      cache, read := map[], [];
    }

    /**
     status of a PID, which is put in lower case first: what it says was read from the contracts less
     than ttl ago, or just now, or, when they can not be reached, less than
     grace ago; and nothing newer was read.
     */
    method Status(given: string, now: int, answers: nat -> Option<Answer>) returns (s: Standing)
      requires Latest(cache, read) && ReadBy(read, now)
      modifies this`cache, this`read
      ensures Latest(cache, read) && ReadBy(read, now)
      ensures old(read) <= read && s.pid == lower(given)
      ensures !IsPid(lower(given)) ==> s == Nowhere(lower(given), now, true) && cache == old(cache)
      ensures IsPid(lower(given)) && InUse(old(cache), lower(given), now, ttl) ==>
        s == old(cache)[lower(given)] && cache == old(cache)
      ensures IsPid(lower(given)) && !InUse(old(cache), lower(given), now, ttl) ==>
        match Consulted(answers, contracts, lower(given), now)
        case Some(st) => s == st && cache == old(cache)[lower(given) := st]
        case None =>
          && cache == old(cache)
          && s == if InUse(cache, lower(given), now, grace) then cache[lower(given)].(stale := true, error := true)
                  else Nowhere(lower(given), now, true)
      ensures !s.error ==> s in read && (s.checkedAt == now || now - s.checkedAt < ttl)
      ensures s.error && s.active ==> s.stale
      ensures s.stale ==> s.(stale := false, error := false) in read && now - s.checkedAt < grace
      ensures s.stale || !s.error ==> NothingNewer(read, lower(given), s.checkedAt)
    {
      hide IsPid, Latest, ReadBy, NothingNewer, Consulted;
      var pid := lower(given);
      if pid in cache {
        CachedIsLatest(cache, read, pid);
      }
      if !IsPid(pid) {
        return Nowhere(pid, now, true);
      }
      if pid in cache && !cache[pid].error && now - cache[pid].checkedAt < ttl {
        return cache[pid];
      }
      var result := Consult(pid, contracts, answers, now);
      if result.Some? {
        s := result.value;
        ConsultedIsReading(answers, contracts, pid, now);
        AddReading(cache, read, s, now);
        NowIsLatest(read + [s], pid, now);
        cache, read := cache[pid := s], read + [s];
        return s;
      }
      if pid in cache && now - cache[pid].checkedAt < grace {
        return cache[pid].(stale := true, error := true);
      }
      s := Nowhere(pid, now, true);
    }
  }
}
