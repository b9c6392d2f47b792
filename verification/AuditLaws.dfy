/** What a log that verifies says, entry by entry, and what it takes to alter one unnoticed (db/audit.py). */
module AuditLaws {
  import opened AuditChain

  /** What an entry's hash is taken of. */
  lemma EntryHashMeans(hash: string -> string, e: Entry)
    ensures EntryHash(hash, HashedOf(e)) ==
      hash(e.prevHash + ":" + e.recordHash + ":" + e.tableName + ":" + e.operation + ":" + e.createdAt)
  {
  }

  lemma {:induction false} RepeatedMeans(c: char, n: nat)
    ensures |Repeated(c, n)| == n && forall i :: 0 <= i < n ==> Repeated(c, n)[i] == c
  {
    if n > 0 {
      RepeatedMeans(c, n - 1);
    }
  }

  /** The first entry follows 64 zeros. */
  lemma GenesisMeans()
    ensures |GENESIS| == 64 && forall c :: c in GENESIS ==> c == '0'
  {
    hide Repeated;
    RepeatedMeans('0', 64);
  }

  /** Entry i names the hash before it and carries the hash of its own fields. */
  predicate LinkText(hash: string -> string, log: seq<Entry>, i: nat)
    requires i < |log|
  {
    && log[i].prevHash == (if i == 0 then GENESIS else log[i - 1].entryHash)
    && log[i].entryHash == hash(
         log[i].prevHash + ":" + log[i].recordHash + ":" + log[i].tableName + ":" + log[i].operation + ":"
         + log[i].createdAt)
  }

  /** A log verifies exactly when each of its entries does so. */
  lemma VerifiesMeans(hash: string -> string, log: seq<Entry>)
    ensures Verifies(hash, log) <==> forall i :: 0 <= i < |log| ==> LinkText(hash, log, i)
  {
    hide LinkText, LinkOk;
    forall i | 0 <= i < |log|
      ensures LinkOk(hash, log, i) <==> LinkText(hash, log, i)
    {
      LinkMeans(hash, log, i);
    }
  }

  lemma LinkMeans(hash: string -> string, log: seq<Entry>, i: nat)
    requires i < |log|
    ensures LinkOk(hash, log, i) <==> LinkText(hash, log, i)
  {
    hide GENESIS;
    EntryHashMeans(hash, log[i]);
  }

  /** The hash separates the two statements. */
  ghost predicate Separates(hash: string -> string, a: Hashed, b: Hashed) {
    hash(Payload(a)) == hash(Payload(b)) ==> Payload(a) == Payload(b)
  }

  /**
   Altering any entry but the last: the log verifies afterwards exactly when
   nothing that its hash covers was changed, nor the hash, unless the hash
   collides.
   */
  lemma AlteredEntryShows(hash: string -> string, log: seq<Entry>, i: nat, e: Entry)
    requires Verifies(hash, log) && i + 1 < |log|
    requires Separable(HashedOf(log[i])) && Separable(HashedOf(e)) && Separates(hash, HashedOf(log[i]), HashedOf(e))
    ensures Verifies(hash, log[i := e]) <==> HashedOf(e) == HashedOf(log[i]) && e.entryHash == log[i].entryHash
  {
    hide GENESIS, Payload, Separable;
    var after := log[i := e];
    assert LinkOk(hash, log, i) && LinkOk(hash, log, i + 1);
    if Verifies(hash, after) {
      assert LinkOk(hash, after, i) && LinkOk(hash, after, i + 1);
      assert after[i + 1] == log[i + 1];
      PayloadInjective(HashedOf(log[i]), HashedOf(e));
    }
    if HashedOf(e) == HashedOf(log[i]) && e.entryHash == log[i].entryHash {
      forall k | 0 <= k < |after|
        ensures LinkOk(hash, after, k)
      {
        assert LinkOk(hash, log, k);
      }
    }
  }


  /** An entry taken out from within a log shows, too, unless the hash repeats. */
  lemma RemovedEntryShows(hash: string -> string, log: seq<Entry>, i: nat)
    requires Verifies(hash, log) && i + 1 < |log|
    requires log[i].entryHash != (if i == 0 then GENESIS else log[i - 1].entryHash)
    ensures !Verifies(hash, log[..i] + log[i + 1..])
  {
    hide GENESIS, Payload, EntryHash;
    var after := log[..i] + log[i + 1..];
    assert LinkOk(hash, log, i + 1);
    assert after[i] == log[i + 1] && (i > 0 ==> after[i - 1] == log[i - 1]);
    assert !LinkOk(hash, after, i);
  }
}
