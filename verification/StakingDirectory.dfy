/**
 Reading the staking contracts' directory page by page while registrations
 append slots to it and withdrawals empty them (mesh/staking.py).
 */
module StakingDirectory {
  import opened Collections
  import opened Wrappers

  const PAGE := 200

  const ZEROS := "0000000000000000"

  /** The text of an empty slot. */
  const EMPTY := ZEROS + ZEROS + ZEROS + ZEROS

  /**
   The contracts as the reader's calls find them: at call t contract c has
   slots(c, t), and the call fails if fails(t).
   */
  datatype Chain = Chain(contracts: nat, slots: (nat, nat) -> seq<string>, fails: nat -> bool)
  {
    /** Between two calls slots may be appended and emptied. */
    ghost predicate Evolves() {
      forall c: nat, t: nat :: Grows(slots(c, t), slots(c, t + 1))
    }
  }

  predicate Grows(before: seq<string>, after: seq<string>) {
    |before| <= |after| && forall i :: 0 <= i < |before| ==> after[i] == before[i] || after[i] == EMPTY
  }

  /** pidsPage(offset, PAGE). */
  function PageOf(slots: seq<string>, offset: nat): (page: seq<string>)
    ensures |page| <= PAGE
    ensures forall i :: 0 <= i < |page| ==> offset + i < |slots| && page[i] == slots[offset + i]
    ensures offset < |slots| ==> page != []
    ensures offset <= |slots| ==> offset + |page| <= |slots|
  {
    if offset >= |slots| then []
    else if offset + PAGE <= |slots| then slots[offset..offset + PAGE]
    else slots[offset..]
  }

  lemma GrowsFurther(a: seq<string>, b: seq<string>, c: seq<string>)
    requires Grows(a, b) && Grows(b, c)
    ensures Grows(a, c)
  {
    hide EMPTY;
  }

  /** Over any number of calls, too, slots are only appended and emptied. */
  lemma {:induction false} EvolvesFar(chain: Chain, c: nat, t: nat, later: nat)
    requires chain.Evolves() && t <= later
    ensures Grows(chain.slots(c, t), chain.slots(c, later))
    decreases later - t
  {
    hide EMPTY;
    if t < later {
      assert Grows(chain.slots(c, t), chain.slots(c, t + 1));
      EvolvesFar(chain, c, t + 1, later);
      GrowsFurther(chain.slots(c, t), chain.slots(c, t + 1), chain.slots(c, later));
    }
  }

  /** pid held slot i of contract c from call t to call end, after the call's count. */
  ghost predicate Stayed(chain: Chain, c: nat, i: nat, pid: string, t: nat, end: nat) {
    && i < |chain.slots(c, t)| && pid != EMPTY
    && forall k :: t <= k <= end ==> i < |chain.slots(c, k)| && chain.slots(c, k)[i] == pid
  }

  /** pid stood in some slot of some contract at some call from the given one up to end. */
  ghost predicate Seen(chain: Chain, pid: string, from: nat, end: nat) {
    exists c: nat, t: nat, i: nat ::
      c < chain.contracts && from <= t < end && i < |chain.slots(c, t)| && chain.slots(c, t)[i] == pid
  }

  /** What the reader has gathered so far. */
  ghost predicate Gathered(chain: Chain, pids: seq<string>, from: nat, now: nat) {
    Distinct(pids) && EMPTY !in pids && forall pid :: pid in pids ==> Seen(chain, pid, from, now)
  }

  // ----- calls

  /** One eth_call: pillarCount() or pidsPage(offset, PAGE) of a contract. */
  datatype Call = Count(contract: nat) | Page(contract: nat, offset: nat)

  /** Call k reads slot i of contract c. */
  predicate Covers(chain: Chain, calls: seq<Call>, k: nat, c: nat, i: nat)
    requires k < |calls|
  {
    && calls[k].Page? && calls[k].contract == c
    && calls[k].offset <= i < calls[k].offset + |PageOf(chain.slots(c, k), calls[k].offset)|
    && i < |chain.slots(c, k)|
  }

  /** One of the calls reads slot i of contract c, and what it finds there, if anything, is gathered. */
  ghost predicate Got(chain: Chain, calls: seq<Call>, c: nat, i: nat, pids: seq<string>, from: nat) {
    exists k: nat :: from <= k < |calls| && Covers(chain, calls, k, c, i) &&
                     (chain.slots(c, k)[i] != EMPTY ==> chain.slots(c, k)[i] in pids)
  }

  /** So it is for the first n slots of contract c. */
  ghost predicate Collected(chain: Chain, c: nat, n: nat, pids: seq<string>, calls: seq<Call>, from: nat) {
    forall i: nat :: i < n ==> Got(chain, calls, c, i, pids, from)
  }

  /** The PIDs once a page was read after them: its new nonempty ones follow, in the page's order. */
  function Merged(pids: seq<string>, page: seq<string>): seq<string> {
    if page == [] then pids
    else
      var before, last := Merged(pids, page[..|page| - 1]), page[|page| - 1];
      if last == EMPTY || last in before then before else before + [last]
  }

  /** The PIDs that calls from the given one up to n have found, in the order of their finding. */
  function Findings(chain: Chain, calls: seq<Call>, from: nat, n: nat): seq<string>
    requires n <= |calls|
  {
    if n <= from then []
    else
      var before := Findings(chain, calls, from, n - 1);
      match calls[n - 1]
      case Count(_) => before
      case Page(c, offset) => Merged(before, PageOf(chain.slots(c, n - 1), offset))
  }

  lemma {:induction false} FindingsLater(chain: Chain, calls: seq<Call>, more: seq<Call>, from: nat, n: nat)
    requires n <= |calls| && calls <= more
    ensures Findings(chain, calls, from, n) == Findings(chain, more, from, n)
  {
    if n > from {
      FindingsLater(chain, calls, more, from, n - 1);
    }
  }

  /** One call more. */
  lemma NextFindings(chain: Chain, calls: seq<Call>, call: Call, from: nat)
    requires from <= |calls|
    ensures var before := Findings(chain, calls, from, |calls|);
      Findings(chain, calls + [call], from, |calls| + 1) ==
        match call
        case Count(_) => before
        case Page(c, offset) => Merged(before, PageOf(chain.slots(c, |calls|), offset))
  {
    FindingsLater(chain, calls, calls + [call], from, |calls|);
  }

  lemma NoFindings(chain: Chain, calls: seq<Call>)
    ensures Findings(chain, calls, |calls|, |calls|) == []
  {
  }

  /** The loop over one page. */
  method TakePage(page: seq<string>, pids0: seq<string>) returns (pids: seq<string>)
    requires Distinct(pids0) && EMPTY !in pids0
    ensures pids == Merged(pids0, page)
    ensures Distinct(pids) && EMPTY !in pids && pids0 <= pids
    ensures forall pid :: pid in pids <==> pid in pids0 || (pid in page && pid != EMPTY)
  {
    hide EMPTY;
    pids := pids0;
    for i := 0 to |page|
      invariant Distinct(pids) && EMPTY !in pids && pids0 <= pids && pids == Merged(pids0, page[..i])
      invariant forall pid :: pid in pids <==> pid in pids0 || (pid in page[..i] && pid != EMPTY)
    {
      assert page[..i + 1][..i] == page[..i];
      assert page[..i + 1] == page[..i] + [page[i]];
      if page[i] != EMPTY && page[i] !in pids {
        pids := pids + [page[i]];
      }
    }
    assert page[..|page|] == page;
  }

  lemma SeenLater(chain: Chain, pid: string, from: nat, end: nat, later: nat)
    requires Seen(chain, pid, from, end) && end <= later
    ensures Seen(chain, pid, from, later)
  {
  }

  /** A page read at call t keeps what was gathered true at the next call. */
  lemma AfterPage(chain: Chain, c: nat, offset: nat, pids0: seq<string>, pids: seq<string>, from: nat, t: nat)
    requires c < chain.contracts && from <= t
    requires Gathered(chain, pids0, from, t) && Distinct(pids) && EMPTY !in pids
    requires var page := PageOf(chain.slots(c, t), offset);
      forall pid :: pid in pids <==> pid in pids0 || (pid in page && pid != EMPTY)
    ensures Gathered(chain, pids, from, t + 1)
  {
    hide EMPTY, PageOf;
    var page := PageOf(chain.slots(c, t), offset);
    forall pid | pid in pids
      ensures Seen(chain, pid, from, t + 1)
    {
      if pid in pids0 {
        SeenLater(chain, pid, from, t, t + 1);
      } else {
        var i :| 0 <= i < |page| && page[i] == pid;
        assert chain.slots(c, t)[offset + i] == pid;
      }
    }
  }

  /** More calls and more PIDs keep what was collected. */
  lemma CollectedLater(
      chain: Chain, c: nat, n: nat, pids: seq<string>, pids': seq<string>, calls: seq<Call>, calls': seq<Call>,
      from: nat)
    requires Collected(chain, c, n, pids, calls, from) && pids <= pids' && calls <= calls'
    ensures Collected(chain, c, n, pids', calls', from)
  {
    hide EMPTY, PageOf;
    forall i: nat | i < n
      ensures Got(chain, calls', c, i, pids', from)
    {
      assert Got(chain, calls, c, i, pids, from);
      var k: nat :| from <= k < |calls| && Covers(chain, calls, k, c, i) &&
                    (chain.slots(c, k)[i] != EMPTY ==> chain.slots(c, k)[i] in pids);
      assert calls'[k] == calls[k];
      assert Covers(chain, calls', k, c, i);
      assert forall pid :: pid in pids ==> pid in pids';
    }
  }

  /** The page just read is collected with what came before it. */
  lemma CollectedPage(
      chain: Chain, c: nat, offset: nat, pids: seq<string>, pids': seq<string>, calls: seq<Call>, from: nat)
    requires Collected(chain, c, offset, pids, calls, from) && pids <= pids' && from <= |calls|
    requires forall pid :: pid in PageOf(chain.slots(c, |calls|), offset) && pid != EMPTY ==> pid in pids'
    ensures var page := PageOf(chain.slots(c, |calls|), offset);
      Collected(chain, c, offset + |page|, pids', calls + [Page(c, offset)], from)
  {
    hide EMPTY, PageOf;
    var calls' := calls + [Page(c, offset)];
    var t, page := |calls|, PageOf(chain.slots(c, |calls|), offset);
    CollectedLater(chain, c, offset, pids, pids', calls, calls', from);
    forall i: nat | i < offset + |page|
      ensures Got(chain, calls', c, i, pids', from)
    {
      if i >= offset {
        var q := i - offset;
        assert page[q] in page && offset + q == i && page[q] == chain.slots(c, t)[i];
        assert calls'[t] == Page(c, offset) && Covers(chain, calls', t, c, i);
      }
    }
  }

  lemma GatheredLater(chain: Chain, pids: seq<string>, from: nat, t: nat, later: nat)
    requires Gathered(chain, pids, from, t) && t <= later
    ensures Gathered(chain, pids, from, later)
  {
    forall pid | pid in pids
      ensures Seen(chain, pid, from, later)
    {
      SeenLater(chain, pid, from, t, later);
    }
  }

  lemma NothingCollected(chain: Chain, c: nat, pids: seq<string>, calls: seq<Call>, from: nat)
    ensures Collected(chain, c, 0, pids, calls, from)
  {
  }

  lemma FewerCollected(chain: Chain, c: nat, n: nat, n': nat, pids: seq<string>, calls: seq<Call>, from: nat)
    requires n <= n' && Collected(chain, c, n', pids, calls, from)
    ensures Collected(chain, c, n, pids, calls, from)
  {
  }

  /** The count read first still bounds the table, so no page before it is empty. */
  lemma GrownCount(chain: Chain, c: nat, t: nat, later: nat)
    requires chain.Evolves() && t <= later
    ensures |chain.slots(c, t)| <= |chain.slots(c, later)|
  {
    EvolvesFar(chain, c, t, later);
  }

  lemma GatheredMeans(chain: Chain, pids: seq<string>, from: nat, t: nat)
    requires Gathered(chain, pids, from, t)
    ensures Distinct(pids) && EMPTY !in pids
  {
  }

  lemma NothingGathered(chain: Chain, from: nat)
    ensures Gathered(chain, [], from, from)
  {
  }

  lemma GatheredPart(chain: Chain, pids: seq<string>, n: nat, from: nat, t: nat)
    requires Gathered(chain, pids, from, t) && n <= |pids|
    ensures Gathered(chain, pids[..n], from, t)
    ensures n == |pids| ==> pids[..n] == pids
    ensures n == 0 ==> pids[..n] == []
  {
    hide Seen, EMPTY;
  }

  // ----- the reader and its calls

  /**
   The calls from the given one on read contract c: first its count, then its
   pages one after another.
   */
  ghost predicate Reads(chain: Chain, c: nat, calls: seq<Call>, from: nat, end: nat) {
    && from < end <= |calls| && calls[from] == Count(c)
    && forall k :: from < k < end ==> calls[k] == Page(c, NextOffset(chain, calls[k - 1], k - 1))
  }

  /** The offset after a call made at time k: 0 after the count, and otherwise past the page read. */
  function NextOffset(chain: Chain, call: Call, k: nat): nat {
    match call
    case Count(_) => 0
    case Page(c, offset) => offset + |PageOf(chain.slots(c, k), offset)|
  }

  /** Where contract c's calls end: at the next contract's count, or at the last call. */
  function EndOf(counts: seq<nat>, c: nat, end: nat): nat {
    if c + 1 < |counts| then counts[c + 1] else end
  }

  /** The calls from the given one on read the first n contracts in turn, the counts at the given calls. */
  ghost predicate InTurn(chain: Chain, n: nat, calls: seq<Call>, from: nat, counts: seq<nat>) {
    && |counts| == n && (n == 0 ==> |calls| == from) && (n > 0 ==> counts[0] == from)
    && forall c: nat :: c < n ==> Reads(chain, c, calls, counts[c], EndOf(counts, c, |calls|))
  }

  lemma NextInTurn(chain: Chain, n: nat, calls: seq<Call>, calls': seq<Call>, from: nat, counts: seq<nat>)
    requires InTurn(chain, n, calls, from, counts) && calls <= calls' && Reads(chain, n, calls', |calls|, |calls'|)
    ensures InTurn(chain, n + 1, calls', from, counts + [|calls|])
  {
    hide NextOffset;
    var more := counts + [|calls|];
    forall c: nat | c < n + 1
      ensures Reads(chain, c, calls', more[c], EndOf(more, c, |calls'|))
    {
      assert c < n ==> Reads(chain, c, calls, counts[c], EndOf(counts, c, |calls|));
      assert forall k :: 0 <= k < |calls| ==> calls'[k] == calls[k];
    }
  }

  lemma OneMorePage(chain: Chain, c: nat, calls: seq<Call>, from: nat)
    requires Reads(chain, c, calls, from, |calls|)
    ensures var more := calls + [Page(c, NextOffset(chain, calls[|calls| - 1], |calls| - 1))];
      Reads(chain, c, more, from, |more|)
  {
    hide NextOffset;
  }

  /**
   What the reader returns when its calls from the given one on read every
   contract in turn: the first max PIDs that they find, all seen in the contracts
   meanwhile; and, when these are fewer, whatever the calls found in the slots
   below each contract's count, every one of which they read.
   */
  ghost predicate Found(chain: Chain, max: int, pids: seq<string>, calls: seq<Call>, from: nat, counts: seq<nat>) {
    && |pids| <= (if max < 0 then 0 else max) && Gathered(chain, pids, from, |calls|)
    && InTurn(chain, chain.contracts, calls, from, counts)
    && (var found := Findings(chain, calls, from, |calls|);
        pids == if max < 0 then [] else if max < |found| then found[..max] else found)
    && (|pids| < max ==> forall c: nat :: c < chain.contracts ==>
          Collected(chain, c, |chain.slots(c, counts[c])|, pids, calls, counts[c]))
  }

  /** In terms of one PID: it is found if it held its slot from its contract's count to the last call. */
  lemma StayedIsFound(
      chain: Chain, max: int, pids: seq<string>, calls: seq<Call>, from: nat, counts: seq<nat>, c: nat, i: nat,
      pid: string)
    requires Found(chain, max, pids, calls, from, counts) && |pids| < max && c < chain.contracts
    requires calls != [] && Stayed(chain, c, i, pid, counts[c], |calls| - 1)
    ensures counts[c] < |calls| && calls[counts[c]] == Count(c) && pid in pids
  {
    hide EMPTY, NextOffset, PageOf, Findings;
    assert Reads(chain, c, calls, counts[c], EndOf(counts, c, |calls|));
    assert Collected(chain, c, |chain.slots(c, counts[c])|, pids, calls, counts[c]);
    assert Got(chain, calls, c, i, pids, counts[c]);
  }

  class DirectoryReader {
    const chain: Chain
    /** The identifier of the last call. */
    var rpcId: nat
    ghost var calls: seq<Call>

    ghost predicate Valid()
      reads this
    {
      rpcId == |calls|
    }

    constructor (chain: Chain)
      ensures Valid() && this.chain == chain && calls == []
    {
      this.chain := chain;
      rpcId, calls := 0, [];
    }

    /** eth_call of pillarCount(). */
    method PillarCount(c: nat) returns (count: Option<nat>)
      requires Valid()
      modifies this
      ensures Valid() && calls == old(calls) + [Count(c)]
      ensures var t := |old(calls)|; count == if chain.fails(t) then None else Some(|chain.slots(c, t)|)
    {
      var t := rpcId;
      rpcId, calls := rpcId + 1, calls + [Count(c)];
      count := if chain.fails(t) then None else Some(|chain.slots(c, t)|);
    }

    /** eth_call of pidsPage(offset, PAGE). */
    method PidsPage(c: nat, offset: nat) returns (page: Option<seq<string>>)
      requires Valid()
      modifies this
      ensures Valid() && calls == old(calls) + [Page(c, offset)]
      ensures var t := |old(calls)|; page == if chain.fails(t) then None else Some(PageOf(chain.slots(c, t), offset))
    {
      var t := rpcId;
      rpcId, calls := rpcId + 1, calls + [Page(c, offset)];
      page := if chain.fails(t) then None else Some(PageOf(chain.slots(c, t), offset));
    }

    /** The pages of one contract; from is the call at which the reading of the directory began. */
    method ReadContract(c: nat, max: int, pids0: seq<string>, ghost from: nat) returns (r: Option<seq<string>>)
      requires Valid() && chain.Evolves() && c < chain.contracts && from <= |calls|
      requires Gathered(chain, pids0, from, |calls|) && pids0 == Findings(chain, calls, from, |calls|)
      modifies this
      ensures Valid() && old(calls) < calls
      ensures r.None? ==> chain.fails(|calls| - 1)
      ensures r.Some? ==> pids0 <= r.value && Gathered(chain, r.value, from, |calls|)
      ensures r.Some? ==> Reads(chain, c, calls, |old(calls)|, |calls|)
      ensures r.Some? ==> r.value == Findings(chain, calls, from, |calls|)
      ensures r.Some? && |r.value| < max ==>
        Collected(chain, c, |chain.slots(c, |old(calls)|)|, r.value, calls, |old(calls)|)
    {
      hide EMPTY, Grows, PageOf, Gathered, Collected, Chain.Evolves, Reads, Findings, Merged;
      ghost var t := |calls|;
      NextFindings(chain, calls, Count(c), from);
      var count := PillarCount(c);
      if count.None? {
        return None;
      }
      var offset := 0;
      var pids := pids0;
      GatheredLater(chain, pids, from, t, t + 1);
      NothingCollected(chain, c, pids, calls, t);
      CountRead(chain, c, calls, t);
      while offset < count.value && |pids| < max
        invariant Valid() && old(calls) < calls && pids0 <= pids && Gathered(chain, pids, from, |calls|)
        invariant Collected(chain, c, offset, pids, calls, t) && Reads(chain, c, calls, t, |calls|)
        invariant offset == NextOffset(chain, calls[|calls| - 1], |calls| - 1)
        invariant pids == Findings(chain, calls, from, |calls|)
        decreases count.value - offset
      {
        ghost var now, before := |calls|, calls;
        OneMorePage(chain, c, calls, t);
        GrownCount(chain, c, t, now);
        NextFindings(chain, calls, Page(c, offset), from);
        var page := PidsPage(c, offset);
        if page.None? {
          return None;
        }
        if page.value == [] {
          break;
        }
        GatheredMeans(chain, pids, from, now);
        var more := TakePage(page.value, pids);
        AfterPage(chain, c, offset, pids, more, from, now);
        CollectedPage(chain, c, offset, pids, more, before, t);
        pids := more;
        offset := offset + |page.value|;
      }
      if offset >= count.value {
        FewerCollected(chain, c, count.value, offset, pids, calls, t);
      }
      r := Some(pids);
    }

    /**
     directory: it ends, with distinct nonempty PIDs that were all in the
     contracts while it read them; and when there are fewer than max, its calls
     read every slot below each contract's count, and all that they found is
     among them. counts are the calls that read the contracts' counts.
     */
    method Directory(max: int) returns (r: Option<seq<string>>, ghost counts: seq<nat>)
      requires Valid() && chain.Evolves()
      modifies this
      ensures Valid() && old(calls) <= calls
      ensures r.None? ==> old(calls) < calls && chain.fails(|calls| - 1)
      ensures r.Some? ==> Found(chain, max, r.value, calls, |old(calls)|, counts)
    {
      hide EMPTY, Grows, Gathered, Collected, Chain.Evolves, Reads, InTurn, Findings;
      NoFindings(chain, calls);
      var pids: seq<string> := [];
      ghost var from := |calls|;
      counts := [];
      NothingGathered(chain, from);
      NoneInTurn(chain, calls);
      for c := 0 to chain.contracts
        invariant Valid() && old(calls) <= calls && Gathered(chain, pids, from, |calls|)
        invariant pids == Findings(chain, calls, from, |calls|)
        invariant |counts| == c && InTurn(chain, c, calls, from, counts)
        invariant |pids| < max ==> forall k: nat :: k < c ==>
          Collected(chain, k, |chain.slots(k, counts[k])|, pids, calls, counts[k])
      {
        ghost var before := calls;
        var more := ReadContract(c, max, pids, from);
        if more.None? {
          return None, counts;
        }
        forall k: nat | k < c && |more.value| < max
          ensures Collected(chain, k, |chain.slots(k, counts[k])|, more.value, calls, counts[k])
        {
          CollectedLater(chain, k, |chain.slots(k, counts[k])|, pids, more.value, before, calls, counts[k]);
        }
        NextInTurn(chain, c, before, calls, from, counts);
        counts := counts + [|before|];
        pids := more.value;
      }
      GatheredPart(chain, pids, if max < 0 then 0 else if max < |pids| then max else |pids|, from, |calls|);
      r := Some(if max < 0 then [] else if max < |pids| then pids[..max] else pids);
    }
  }

  lemma CountRead(chain: Chain, c: nat, calls: seq<Call>, t: nat)
    requires |calls| == t + 1 && calls[t] == Count(c)
    ensures Reads(chain, c, calls, t, |calls|)
  {
  }

  lemma NoneInTurn(chain: Chain, calls: seq<Call>)
    ensures InTurn(chain, 0, calls, |calls|, [])
  {
  }
}
