/** What words, pages and answers of the staking contracts stand for (mesh/staking.py). */
module StakingLaws {
  import opened Wrappers
  import opened GF256
  import opened Abi
  import opened StakingDirectory
  import opened StakeStanding

  // ----- words

  /** Bytes are read with the most significant first. */
  lemma FromBytesMeans(b: seq<Byte>, last: Byte)
    ensures FromBytes([]) == 0 && FromBytes(b + [last]) == 256 * FromBytes(b) + last
  {
    assert (b + [last])[..|b|] == b;
  }

  /** Nothing is decoded of data that is empty or has no whole number of words. */
  lemma NoWords(data: seq<Byte>)
    requires |data| % 32 != 0 || data == []
    ensures DecodeArray(data) == None
  {
  }

  /**
   Of other data, the first word is the offset of the count and the items follow
   the count; the array is decoded exactly when all of them lie within the data.
   */
  lemma DecodeMeans(data: seq<Byte>)
    requires |data| % 32 == 0 && data != []
    ensures var offset := FromBytes(data[..32]);
      && (offset + 32 > |data| ==> DecodeArray(data) == None)
      && (offset + 32 <= |data| ==>
            var count := FromBytes(data[offset..offset + 32]);
            && (offset + 32 + 32 * count > |data| ==> DecodeArray(data) == None)
            && (offset + 32 + 32 * count <= |data| ==>
                  && DecodeArray(data).Some? && |DecodeArray(data).value| == count
                  && forall i :: 0 <= i < count ==>
                       DecodeArray(data).value[i] == data[offset + 32 + 32 * i..offset + 64 + 32 * i]))
  {
    hide FromBytes;
    assert Slice(data, 0, 32) == data[..32];
  }

  // ----- pages

  /** An empty slot is 64 zeros. */
  lemma EmptyMeans(slot: string)
    ensures slot == EMPTY <==> |slot| == 64 && forall c :: c in slot ==> c == '0'
  {
    if |slot| == 64 && forall c :: c in slot ==> c == '0' {
      assert forall i :: 0 <= i < 64 ==> slot[i] in slot && slot[i] == EMPTY[i];
    }
  }

  /** A page is the slots from offset on, two hundred at most. */
  lemma PageMeans(slots: seq<string>, offset: nat)
    ensures |PageOf(slots, offset)| ==
      if |slots| <= offset then 0 else if |slots| - offset < 200 then |slots| - offset else 200
    ensures forall i :: 0 <= i < |PageOf(slots, offset)| ==> PageOf(slots, offset)[i] == slots[offset + i]
  {
  }

  /** A page's slots are taken one after the other, but for empty ones and PIDs that are there already. */
  lemma MergedMeans(pids: seq<string>, page: seq<string>, slot: string)
    ensures Merged(pids, []) == pids
    ensures var before := Merged(pids, page);
      Merged(pids, page + [slot]) ==
        if (|slot| == 64 && forall c :: c in slot ==> c == '0') || slot in before then before else before + [slot]
  {
    hide EMPTY;
    EmptyMeans(slot);
    assert (page + [slot])[..|page|] == page;
  }

  // ----- standings

  /** The contract answers, and registers the PID. */
  predicate Registers(answers: nat -> Option<Answer>, c: nat) {
    answers(c).Some? && answers(c).value.operator.Some?
  }

  /** The first n contracts answer, and the PID is active in none. */
  predicate NotYet(answers: nat -> Option<Answer>, n: nat) {
    forall c: nat :: c < n ==> answers(c).Some? && !(Registers(answers, c) && answers(c).value.active)
  }

  lemma NotYetIsIdle(answers: nat -> Option<Answer>, n: nat)
    ensures NotYet(answers, n) <==> IdleBefore(answers, n)
  {
    assert forall c: nat ::
      Idle(answers, c) <==> answers(c).Some? && !(Registers(answers, c) && answers(c).value.active);
  }

  /** The first contract where the PID is registered and active decides. */
  lemma ActiveDecides(answers: nat -> Option<Answer>, contracts: nat, pid: string, now: int, c: nat)
    requires c < contracts && NotYet(answers, c) && Registers(answers, c) && answers(c).value.active
    ensures var a := answers(c).value;
      Consulted(answers, contracts, pid, now) ==
        Some(Standing(pid, true, a.operator, a.endpoint, a.stakeUnits, Some(c), now, false, false))
  {
    hide IdleBefore;
    NotYetIsIdle(answers, c);
    BusyIsFirst(answers, contracts, c);
  }

  /** A contract that does not answer before that leaves the question open. */
  lemma SilenceDecides(answers: nat -> Option<Answer>, contracts: nat, pid: string, now: int, c: nat)
    requires c < contracts && NotYet(answers, c) && answers(c) == None
    ensures Consulted(answers, contracts, pid, now) == None
  {
    hide IdleBefore;
    NotYetIsIdle(answers, c);
    BusyIsFirst(answers, contracts, c);
  }

  /** Otherwise the first contract where it is registered is reported, not active. */
  lemma RegisteredDecides(answers: nat -> Option<Answer>, contracts: nat, pid: string, now: int, c: nat)
    requires c < contracts && NotYet(answers, contracts) && Registers(answers, c)
    requires forall k: nat :: k < c ==> !Registers(answers, k)
    ensures var a := answers(c).value;
      Consulted(answers, contracts, pid, now) ==
        Some(Standing(pid, false, a.operator, a.endpoint, a.stakeUnits, Some(c), now, false, false))
  {
    NotYetIsIdle(answers, contracts);
    NobodyBusy(answers, contracts);
    var r := Registered(answers, contracts);
    assert r.Some? ==> Registers(answers, r.value);
    assert r == Some(c);
  }

  /** And with no registration at all, a standing without operator, stake or contract. */
  lemma NobodyDecides(answers: nat -> Option<Answer>, contracts: nat, pid: string, now: int)
    requires NotYet(answers, contracts) && forall k: nat :: k < contracts ==> !Registers(answers, k)
    ensures Consulted(answers, contracts, pid, now) ==
      Some(Standing(pid, false, None, "", 0, None, now, false, false))
  {
    NotYetIsIdle(answers, contracts);
    NobodyBusy(answers, contracts);
    var r := Registered(answers, contracts);
    assert r.Some? ==> Registers(answers, r.value);
  }

  /** A PID is 64 lower-case hexadecimal digits, and may end in a newline. */
  lemma IsPidMeans(t: string, end: string)
    requires end == "" || end == "\n"
    ensures |t| == 64 && (forall c :: c in t ==> c in "0123456789abcdef") ==> IsPid(t + end)
    ensures IsPid(t + end) && (t == "" || t[|t| - 1] != '\n') ==>
      |t| == 64 && forall c :: c in t ==> c in "0123456789abcdef"
  {
    forall c
      ensures c in "0123456789abcdef" <==> '0' <= c <= '9' || 'a' <= c <= 'f'
    {
      HexDigits(c);
    }
    if end == "" {
      assert t + end == t;
      assert t != "" ==> t[|t| - 1] in t;
    } else {
      assert (t + end)[..|t|] == t;
    }
  }

  lemma HexDigits(c: char)
    ensures c in "0123456789abcdef" <==> '0' <= c <= '9' || 'a' <= c <= 'f'
  {
    var digits := "0123456789abcdef";
    if '0' <= c <= '9' {
      assert c == digits[c as int - '0' as int];
    } else if 'a' <= c <= 'f' {
      assert c == digits[10 + c as int - 'a' as int];
    }
  }
}
