/** The hash-chained audit log (db/audit.py). */
module AuditChain {
  import opened PythonText
  import opened Envelopes

  function Repeated(c: char, n: nat): string {
    if n == 0 then "" else [c] + Repeated(c, n - 1)
  }

  const GENESIS := Repeated('0', 64)

  /** A row of audit_log. */
  datatype Entry = Entry(prevHash: string, entryHash: string, tableName: string, operation: string, recordKey: string,
                         recordHash: string, pid: string, signature: string, createdAt: string)

  /** The part of an entry that its hash covers. */
  datatype Hashed = Hashed(
    prevHash: string, recordHash: string, tableName: string, operation: string, createdAt: string)

  function HashedOf(e: Entry): Hashed {
    Hashed(e.prevHash, e.recordHash, e.tableName, e.operation, e.createdAt)
  }

  function Payload(e: Hashed): string {
    e.prevHash + ":" + e.recordHash + ":" + e.tableName + ":" + e.operation + ":" + e.createdAt
  }

  /** _compute_entry_hash. */
  function EntryHash(hash: string -> string, e: Hashed): string {
    hash(Payload(e))
  }

  /** The hash that entry i must name as its predecessor's. */
  function Expected(log: seq<Entry>, i: nat): string
    requires i <= |log|
  {
    if i == 0 then GENESIS else log[i - 1].entryHash
  }

  predicate LinkOk(hash: string -> string, log: seq<Entry>, i: nat)
    requires i < |log|
  {
    log[i].prevHash == Expected(log, i) && log[i].entryHash == EntryHash(hash, HashedOf(log[i]))
  }

  ghost predicate Verifies(hash: string -> string, log: seq<Entry>) {
    forall i :: 0 <= i < |log| ==> LinkOk(hash, log, i)
  }

  datatype Problem = NoProblem | ChainBroken | HashMismatch

  /** Text that an entry's hash keeps apart from its neighbours: its time alone may have colons. */
  predicate Separable(e: Hashed) {
    Lacks(e.prevHash, ':') && Lacks(e.recordHash, ':') && Lacks(e.tableName, ':') && Lacks(e.operation, ':')
  }

  lemma PayloadInjective(a: Hashed, b: Hashed)
    requires Separable(a) && Separable(b) && Payload(a) == Payload(b)
    ensures a == b
  {
    hide Lacks;
    var a1, b1 := a.operation + ":" + a.createdAt, b.operation + ":" + b.createdAt;
    var a2, b2 := a.tableName + ":" + a1, b.tableName + ":" + b1;
    var a3, b3 := a.recordHash + ":" + a2, b.recordHash + ":" + b2;
    assert Payload(a) == a.prevHash + ":" + a3 && Payload(b) == b.prevHash + ":" + b3;
    SplitAtFirst(':', a.prevHash, b.prevHash, a3, b3);
    SplitAtFirst(':', a.recordHash, b.recordHash, a2, b2);
    SplitAtFirst(':', a.tableName, b.tableName, a1, b1);
    SplitAtFirst(':', a.operation, b.operation, a.createdAt, b.createdAt);
  }

  /** A text with a colon, divided at one. */
  lemma Divided(t: string) returns (a: string, b: string)
    requires !Lacks(t, ':')
    ensures t == a + ":" + b && |a| < |t|
  {
    var i :| 0 <= i < |t| && t[i] == ':';
    a, b := t[..i], t[i + 1..];
  }

  /** Six parts make five in several ways, all with one payload. */
  lemma Regrouped(a: string, b: string, c: string, d: string, e: string, f: string)
    ensures Payload(Hashed(a + ":" + b, c, d, e, f)) == Payload(Hashed(a, b, c, d, e + ":" + f))
    ensures Payload(Hashed(a, b + ":" + c, d, e, f)) == Payload(Hashed(a, b, c, d, e + ":" + f))
    ensures Payload(Hashed(a, b, c + ":" + d, e, f)) == Payload(Hashed(a, b, c, d, e + ":" + f))
    ensures Payload(Hashed(a, b, c, d + ":" + e, f)) == Payload(Hashed(a, b, c, d, e + ":" + f))
  {
    var whole := a + ":" + b + ":" + c + ":" + d + ":" + e + ":" + f;
    assert Payload(Hashed(a, b, c, d, e + ":" + f)) == whole;
    assert Payload(Hashed(a + ":" + b, c, d, e, f)) == whole;
    assert Payload(Hashed(a, b + ":" + c, d, e, f)) == whole;
    assert Payload(Hashed(a, b, c + ":" + d, e, f)) == whole;
    assert Payload(Hashed(a, b, c, d + ":" + e, f)) == whole;
  }

  /** Every entry with a colon in a hash or a name shares its hash with another entry, so colons must be kept out. */
  lemma ColonsConfuse(hash: string -> string, e: Hashed) returns (other: Hashed)
    requires !Separable(e)
    ensures other != e && EntryHash(hash, other) == EntryHash(hash, e)
  {
    hide Lacks, Payload;
    if !Lacks(e.prevHash, ':') {
      var a, b := Divided(e.prevHash);
      Regrouped(a, b, e.recordHash, e.tableName, e.operation, e.createdAt);
      other := Hashed(a, b, e.recordHash, e.tableName, e.operation + ":" + e.createdAt);
      assert |other.prevHash| < |e.prevHash|;
    } else if !Lacks(e.recordHash, ':') {
      var a, b := Divided(e.recordHash);
      Regrouped(e.prevHash, a, b, e.tableName, e.operation, e.createdAt);
      other := Hashed(e.prevHash, a, b, e.tableName, e.operation + ":" + e.createdAt);
      assert |other.recordHash| < |e.recordHash|;
    } else if !Lacks(e.tableName, ':') {
      var a, b := Divided(e.tableName);
      Regrouped(e.prevHash, e.recordHash, a, b, e.operation, e.createdAt);
      other := Hashed(e.prevHash, e.recordHash, a, b, e.operation + ":" + e.createdAt);
      assert |other.tableName| < |e.tableName|;
    } else {
      var a, b := Divided(e.operation);
      Regrouped(e.prevHash, e.recordHash, e.tableName, a, b, e.createdAt);
      other := Hashed(e.prevHash, e.recordHash, e.tableName, a, b + ":" + e.createdAt);
      assert |other.operation| < |e.operation|;
    }
  }

  predicate AllSeparable(log: seq<Entry>) {
    forall i :: 0 <= i < |log| ==> Separable(HashedOf(log[i]))
  }

  /** On the payloads of the two logs the hash neither collides nor gives the genesis value. */
  ghost predicate Sound(hash: string -> string, a: seq<Entry>, b: seq<Entry>) {
    && (forall i, j :: 0 <= i < |a| && 0 <= j < |b| ==>
          EntryHash(hash, HashedOf(a[i])) == EntryHash(hash, HashedOf(b[j])) ==>
          Payload(HashedOf(a[i])) == Payload(HashedOf(b[j])))
    && (forall i :: 0 <= i < |a| ==> EntryHash(hash, HashedOf(a[i])) != GENESIS)
    && (forall j :: 0 <= j < |b| ==> EntryHash(hash, HashedOf(b[j])) != GENESIS)
  }

  lemma SoundPrefix(hash: string -> string, a: seq<Entry>, b: seq<Entry>, m: nat, n: nat)
    requires m <= |a| && n <= |b|
    ensures Sound(hash, a, b) ==> Sound(hash, a[..m], b[..n])
    ensures Verifies(hash, a) ==> Verifies(hash, a[..m])
    ensures AllSeparable(a) ==> AllSeparable(a[..m])
  {
    hide EntryHash, Payload, GENESIS;
    if Verifies(hash, a) {
      forall i | 0 <= i < m
        ensures LinkOk(hash, a[..m], i)
      {
        assert LinkOk(hash, a, i);
      }
    }
  }

  /**
   The last hash fixes the history: two logs that verify and end in the same
   hash have the same length and the same hashed fields throughout, unless
   the hash collides on them or gives the genesis value.
   */
  lemma {:induction false} LastHashFixesHistory(hash: string -> string, a: seq<Entry>, b: seq<Entry>)
    requires Verifies(hash, a) && Verifies(hash, b) && AllSeparable(a) && AllSeparable(b)
    requires Sound(hash, a, b) && Expected(a, |a|) == Expected(b, |b|)
    ensures |a| == |b| && forall i :: 0 <= i < |a| ==> HashedOf(a[i]) == HashedOf(b[i])
    decreases |a|
  {
    hide Payload, Separable, EntryHash, GENESIS, Sound;
    var m, n := |a| - 1, |b| - 1;
    assert a != [] ==> LinkOk(hash, a, m);
    assert b != [] ==> LinkOk(hash, b, n);
    EndsAlike(hash, a, b);
    if a != [] {
      PayloadInjective(HashedOf(a[m]), HashedOf(b[n]));
      SoundPrefix(hash, a, b, m, n);
      SoundPrefix(hash, b, a, n, m);
      LastHashFixesHistory(hash, a[..m], b[..n]);
      forall i | 0 <= i < |a|
        ensures HashedOf(a[i]) == HashedOf(b[i])
      {
        assert i < m ==> a[..m][i] == a[i] && b[..n][i] == b[i];
      }
    }
  }

  /** Neither or both of two logs with the same last hash are empty, and their last payloads are equal. */
  lemma EndsAlike(hash: string -> string, a: seq<Entry>, b: seq<Entry>)
    requires Verifies(hash, a) && Verifies(hash, b) && Sound(hash, a, b) && Expected(a, |a|) == Expected(b, |b|)
    ensures a == [] <==> b == []
    ensures a != [] ==> Payload(HashedOf(a[|a| - 1])) == Payload(HashedOf(b[|b| - 1]))
  {
    hide Payload, EntryHash, GENESIS;
    assert a != [] ==> LinkOk(hash, a, |a| - 1);
    assert b != [] ==> LinkOk(hash, b, |b| - 1);
  }

  class AuditLog {
    const library: Library
    var rows: seq<Entry>

    constructor (library: Library)
      ensures this.library == library && rows == [] && Verifies(library.sha256, rows)
    {
      this.library := library;
      rows := [];
    }

    /** get_last_hash. */
    function LastHash(): (h: string)
      reads this
      ensures h == Expected(rows, |rows|)
    {
      if rows == [] then GENESIS else rows[|rows| - 1].entryHash
    }

    /** append_audit_entry; record is the canonical text of the record's fields. */
    method Append(
        tableName: string, operation: string, recordKey: string, record: string, pid: string, key: string,
        time: string)
      returns (entryHash: string)
      requires library.Ideal()
      modifies this`rows
      ensures |rows| == |old(rows)| + 1 && old(rows) <= rows
      ensures var e := rows[|rows| - 1];
        && HashedOf(e) == Hashed(Expected(old(rows), |old(rows)|), library.sha256(record), tableName, operation, time)
        && e.recordKey == recordKey && e.pid == pid && e.entryHash == entryHash == LastHash()
        && library.verify(entryHash, e.signature, library.publicKey(key))
      ensures Verifies(library.sha256, old(rows)) ==> Verifies(library.sha256, rows)
    {
      hide Payload, GENESIS;
      var recordHash := library.sha256(record);
      var prevHash := LastHash();
      entryHash := EntryHash(library.sha256, Hashed(prevHash, recordHash, tableName, operation, time));
      var signature := library.sign(key, entryHash);
      var e := Entry(prevHash, entryHash, tableName, operation, recordKey, recordHash, pid, signature, time);
      VerifiesAppended(library.sha256, rows, e);
      rows := rows + [e];
    }

    /** verify_chain. */
    method VerifyChain(limit: int) returns (valid: bool, verified: nat, problem: Problem)
      ensures var n := if 0 < limit < |rows| then limit else |rows|;
        && verified <= n && Verifies(library.sha256, rows[..verified])
        && (valid <==> verified == n)
        && (valid <==> Verifies(library.sha256, rows[..n]))
        && (!valid ==> !LinkOk(library.sha256, rows, verified))
        && (problem == NoProblem <==> valid)
        && (problem == ChainBroken <==> !valid && rows[verified].prevHash != Expected(rows, verified))
    {
      hide Payload, GENESIS, EntryHash;
      var n := if 0 < limit < |rows| then limit else |rows|;
      var expected := GENESIS;
      verified := 0;
      assert Verifies(library.sha256, rows[..0]);
      while verified < n
        invariant verified <= n && expected == Expected(rows, verified)
        invariant Verifies(library.sha256, rows[..verified])
      {
        var row := rows[verified];
        PrefixVerifiesIff(library.sha256, rows, verified, n);
        if row.prevHash != expected {
          return false, verified, ChainBroken;
        }
        if EntryHash(library.sha256, HashedOf(row)) != row.entryHash {
          return false, verified, HashMismatch;
        }
        expected := row.entryHash;
        verified := verified + 1;
      }
      return true, verified, NoProblem;
    }
  }

  lemma VerifiesAppended(hash: string -> string, log: seq<Entry>, e: Entry)
    requires e.prevHash == Expected(log, |log|) && e.entryHash == EntryHash(hash, HashedOf(e))
    ensures Verifies(hash, log) ==> Verifies(hash, log + [e])
  {
    hide Payload, GENESIS, EntryHash;
    if Verifies(hash, log) {
      forall i | 0 <= i < |log + [e]|
        ensures LinkOk(hash, log + [e], i)
      {
        assert i < |log| ==> LinkOk(hash, log, i);
      }
    }
  }

  /** A prefix one longer verifies exactly when its last link is right; no longer prefix does otherwise. */
  lemma PrefixVerifiesIff(hash: string -> string, log: seq<Entry>, i: nat, n: nat)
    requires i < n <= |log| && Verifies(hash, log[..i])
    ensures Verifies(hash, log[..i + 1]) <==> LinkOk(hash, log, i)
    ensures Verifies(hash, log[..n]) ==> LinkOk(hash, log, i)
  {
    hide Payload, GENESIS, EntryHash;
    var longer := log[..i + 1];
    assert LinkOk(hash, longer, i) == LinkOk(hash, log, i) == LinkOk(hash, log[..n], i);
    forall k | 0 <= k < i
      ensures LinkOk(hash, longer, k)
    {
      assert LinkOk(hash, log[..i], k);
    }
  }

  /** Every prefix of a log that verifies does too, so verifying with any limit succeeds on it. */
  lemma EveryPrefixVerifies(hash: string -> string, log: seq<Entry>, n: nat)
    requires Verifies(hash, log) && n <= |log|
    ensures Verifies(hash, log[..n])
  {
    SoundPrefix(hash, log, log, n, n);
  }
}
