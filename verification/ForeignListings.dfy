/**
 What foreign listings can say of a Pillar that signs only what it creates
 (core/gopherhole.py, mesh/replication.py).
 */
module ForeignListings {
  import opened Wrappers
  import opened PythonText
  import opened Envelopes
  import opened Selectors
  import opened Gopherholes

  function PayloadOf(r: Record): string {
    Payload(r.pid, r.selector, r.name, r.registeredAt)
  }

  /** The records that the Pillar of this PID created: at most one per selector, with plain selectors and dates. */
  predicate Book(pid: string, book: seq<Record>) {
    && ColonFree(pid)
    && (forall i :: 0 <= i < |book| ==>
          && book[i].pid == pid && ColonFree(book[i].selector)
          && ColonFree(book[i].registeredAt) && book[i].registeredAt !in FALSY)
    && (forall i, j :: 0 <= i < j < |book| ==> book[i].selector != book[j].selector)
  }

  predicate InBook(payload: string, book: seq<Record>) {
    exists i :: 0 <= i < |book| && PayloadOf(book[i]) == payload
  }

  /** An entry that verifies under the PID shows the payload of a record in the book. */
  predicate Unforged(library: Library, pid: string, book: seq<Record>, hole: Hole) {
    hole.pid == Some(pid) && VerifySignature(library, hole) == Some(true) ==>
      hole.selector.Some? && InBook(ShownPayload(pid, hole.selector.value, hole), book)
  }

  /** The entry's values are values of JSON, and none but a text is shown as a date of the book. */
  predicate Sane(book: seq<Record>, hole: Hole) {
    && LawfulHole(hole)
    && (hole.registeredAt.Other? ==>
          && ColonFree(hole.registeredAt.shown)
          && forall i :: 0 <= i < |book| ==> book[i].registeredAt != hole.registeredAt.shown)
  }

  /** A listing in which nobody forged the Pillar's signature. */
  predicate Honest(library: Library, pid: string, book: seq<Record>, holes: seq<Hole>) {
    forall j :: 0 <= j < |holes| ==> Unforged(library, pid, book, holes[j]) && Sane(book, holes[j])
  }

  function ListingOf(book: seq<Record>): (holes: seq<Hole>)
    ensures |holes| == |book| && forall i :: 0 <= i < |book| ==> holes[i] == Listed(book[i])
  {
    if book == [] then [] else ListingOf(book[..|book| - 1]) + [Listed(book[|book| - 1])]
  }

  /** The record is one that create_gopherhole signs with the key. */
  predicate Own(library: Library, key: string, b: Record) {
    && ValidSelector(b.selector, PidOf(library, key))
    && b == Signed(library, key, b.selector, b.name, b.description, b.ownerAddress, b.registeredAt)
  }

  lemma OwnIsHonest(library: Library, key: string, book: seq<Record>, i: nat)
    requires library.Ideal() && i < |book| && Own(library, key, book[i])
    ensures Unforged(library, PidOf(library, key), book, Listed(book[i])) && Sane(book, Listed(book[i]))
    ensures VerifySignature(library, Listed(book[i])) == Some(true)
  {
    hide VerifySignature, Payload, ValidSelector, Library.Ideal;
    var b := book[i];
    SignedVerifies(library, key, b.selector, b.name, b.description, b.ownerAddress, b.registeredAt);
    assert ShownPayload(b.pid, b.selector, Listed(b)) == PayloadOf(b);
  }

  /** A Pillar with an ideal library that lists what it signed lists honestly, and all of it verifies. */
  lemma OwnListingIsHonest(library: Library, key: string, book: seq<Record>)
    requires library.Ideal() && forall i :: 0 <= i < |book| ==> Own(library, key, book[i])
    ensures Honest(library, PidOf(library, key), book, ListingOf(book))
    ensures forall i :: 0 <= i < |book| ==> VerifySignature(library, ListingOf(book)[i]) == Some(true)
  {
    hide VerifySignature, Own, Unforged, Sane, Library.Ideal, Listed, PidOf;
    var holes := ListingOf(book);
    forall i | 0 <= i < |book|
      ensures Unforged(library, PidOf(library, key), book, holes[i]) && Sane(book, holes[i])
      ensures VerifySignature(library, holes[i]) == Some(true)
    {
      OwnIsHonest(library, key, book, i);
    }
  }

  /** Payloads with one PID and selector leave the same text for name and date. */
  lemma SameStart(
      pid: string, selector: string, name: string, date: string, selector': string, name': string,
      date': string)
    requires ColonFree(pid) && ColonFree(selector) && ColonFree(selector')
    requires Payload(pid, selector, name, date) == Payload(pid, selector', name', date')
    ensures selector == selector' && name + ":" + date == name' + ":" + date'
  {
    hide Lacks;
    var rest, rest' := selector + ":" + (name + ":" + date), selector' + ":" + (name' + ":" + date');
    assert Payload(pid, selector, name, date) == pid + ":" + rest;
    assert Payload(pid, selector', name', date') == pid + ":" + rest';
    SplitAtFirst(':', pid, pid, rest, rest');
    SplitAtFirst(':', selector, selector', name + ":" + date, name' + ":" + date');
  }

  lemma SplitOnce(name: string, date: string, name': string, date': string)
    requires name + ":" + date == name' + ":" + date' && ColonFree(date)
    ensures name' == name && date' == date <==> ColonFree(date')
    ensures ColonFree(name) ==> name' == name && date' == date
  {
    if ColonFree(date') {
      SplitAtLast(':', name, name', date, date');
    }
    if ColonFree(name) {
      OneColon(name, date, name', date');
      SplitAtLast(':', name, name', date, date');
    }
  }

  /** A text with one colon leaves none for the date. */
  lemma OneColon(name: string, date: string, name': string, date': string)
    requires name + ":" + date == name' + ":" + date' && ColonFree(name) && ColonFree(date)
    ensures ColonFree(date')
  {
    var t := name + ":" + date;
    assert forall k :: 0 <= k < |name| ==> t[k] == name[k] && name[k] in name;
    assert forall k :: |name| < k < |t| ==> t[k] == date[k - |name| - 1] && t[k] in date;
    forall c | c in date'
      ensures c != ':'
    {
      var k :| 0 <= k < |date'| && date'[k] == c;
      assert t[|name'|] == ':' && t[|name'| + 1 + k] == c;
    }
  }

  /** The row has the name and date that the Pillar signed. */
  predicate SignedAs(row: Record, b: Record) {
    row.name == b.name && row.registeredAt == b.registeredAt
  }

  /**
   What an acceptable entry of the Pillar with a plain selector is stored as:
   the name and date that the Pillar signed for the selector exactly when the
   row verifies and its date has no colon; and whenever the row verifies and
   the signed name has none.
   */
  lemma StoredAsSignedIff(
      library: Library, pid: string, book: seq<Record>, hole: Hole, today: string) returns (i: nat)
    requires OneMessage(library) && Book(pid, book) && today !in FALSY
    requires Acceptable(library, hole) && hole.pid == Some(pid) && hole.selector.Some? && ColonFree(hole.selector.value)
    requires Unforged(library, pid, book, hole) && Sane(book, hole)
    ensures i < |book| && Some(book[i].selector) == hole.selector
    ensures var row := Dated(Taken(hole), today);
      && (SignedAs(row, book[i]) <==> Verifies(library, row) && ColonFree(row.registeredAt))
      && (Verifies(library, row) && ColonFree(book[i].name) ==> SignedAs(row, book[i]))
  {
    hide Payload, ColonFree, VerifySignature, Verifies, OneMessage, Book, Sane, Storable, AsSigned;
    var selector := hole.selector.value;
    i :| 0 <= i < |book| && PayloadOf(book[i]) == ShownPayload(pid, selector, hole);
    var b := book[i];
    BookEntry(pid, book, i);
    SameStart(pid, b.selector, b.name, b.registeredAt, selector, hole.name.Shown(), hole.registeredAt.Shown());
    SplitOnce(b.name, b.registeredAt, hole.name.Shown(), hole.registeredAt.Shown());
    SaneIsLawful(book, hole);
    ValuesGiven(library, hole);
    StoredVerifiesIff(library, hole, today);
    ShownAndStored(book, i, hole, today);
  }

  lemma BookEntry(pid: string, book: seq<Record>, i: nat)
    requires Book(pid, book) && i < |book|
    ensures book[i].pid == pid && ColonFree(pid) && ColonFree(book[i].selector)
    ensures ColonFree(book[i].registeredAt) && book[i].registeredAt !in FALSY
  {
  }

  lemma SaneIsLawful(book: seq<Record>, hole: Hole)
    requires Sane(book, hole)
    ensures LawfulHole(hole)
  {
  }

  lemma ValuesGiven(library: Library, hole: Hole)
    requires Acceptable(library, hole)
    ensures Storable(hole) && !hole.name.Missing? && !hole.registeredAt.Missing?
  {
  }

  /** Of an entry that shows a signed name and date, what the table keeps. */
  lemma ShownAndStored(book: seq<Record>, i: nat, hole: Hole, today: string)
    requires i < |book| && ColonFree(book[i].registeredAt) && book[i].registeredAt !in FALSY
    requires LawfulHole(hole) && Sane(book, hole) && Storable(hole) && today !in FALSY
    requires !hole.name.Missing? && !hole.registeredAt.Missing?
    requires book[i].name + ":" + book[i].registeredAt == hole.name.Shown() + ":" + hole.registeredAt.Shown()
    ensures var row := Dated(Taken(hole), today);
      && (SignedAs(row, book[i]) <==> AsSigned(hole) && ColonFree(row.registeredAt))
      && (AsSigned(hole) && ColonFree(book[i].name) ==> SignedAs(row, book[i]))
  {
    hide ColonFree;
    var b, row := book[i], Dated(Taken(hole), today);
    SplitOnce(b.name, b.registeredAt, hole.name.Shown(), hole.registeredAt.Shown());
    FalsyIsPlain();
    if SignedAs(row, b) && hole.name.Other? {
      NamesWithoutColon(b, hole, row);
    }
  }

  lemma NamesWithoutColon(b: Record, hole: Hole, row: Record)
    requires hole.name.Other? && LawfulHole(hole) && Storable(hole) && row.name == hole.name.Kept().value == b.name
    requires b.name + ":" + b.registeredAt == hole.name.Shown() + ":" + hole.registeredAt.Shown()
    ensures hole.name.KeptAsShown()
  {
    SplitAtFirst(':', b.name, hole.name.Shown(), b.registeredAt, hole.registeredAt.Shown());
  }

  lemma FalsyIsPlain()
    ensures forall t :: t in FALSY ==> ColonFree(t)
  {
  }

  // ----- registries that import any listings

  /** One import: a peer's listing, its PID and the date of the import. */
  datatype Delivery = Delivery(holes: seq<Hole>, source: string, today: string)

  /** The registry after the imports, in order. */
  function ImportAll(tools: Tools, rows: seq<Row>, ds: seq<Delivery>): seq<Row> {
    if ds == [] then rows
    else
      var d := ds[|ds| - 1];
      Import(tools, ImportAll(tools, rows, ds[..|ds| - 1]), d.holes, d.source, d.today)
  }

  predicate HonestDeliveries(library: Library, pid: string, book: seq<Record>, ds: seq<Delivery>) {
    forall k :: 0 <= k < |ds| ==> Honest(library, pid, book, ds[k].holes) && ds[k].today !in FALSY
  }

  /** The row has what the Pillar signed for the selector, exactly when it verifies and its date has no colon. */
  predicate Faithful(library: Library, book: seq<Record>, row: Record, i: nat)
    requires i < |book|
  {
    && book[i].selector == row.selector
    && (SignedAs(row, book[i]) <==> Verifies(library, row) && ColonFree(row.registeredAt))
    && (Verifies(library, row) && ColonFree(book[i].name) ==> SignedAs(row, book[i]))
  }

  lemma {:induction false} EveryRowFaithful(
      tools: Tools, pid: string, book: seq<Record>, ds: seq<Delivery>, r: nat) returns (i: nat)
    requires OneMessage(tools.library) && Book(pid, book) && HonestDeliveries(tools.library, pid, book, ds)
    requires r < |ImportAll(tools, [], ds)|
    requires var row := ImportAll(tools, [], ds)[r].record; row.pid == pid && ColonFree(row.selector)
    ensures i < |book| && Faithful(tools.library, book, ImportAll(tools, [], ds)[r].record, i)
    decreases |ds|
  {
    hide ColonFree, OneMessage, Book, Verifies, VerifySignature, Unforged, Sane, Storable, Import, Dated, SignedAs;
    var n := |ds| - 1;
    var before := ImportAll(tools, [], ds[..n]);
    var d := ds[n];
    var after := Import(tools, before, d.holes, d.source, d.today);
    ImportKeeps(tools, before, d.holes, d.source, d.today);
    if r < |before| {
      assert after[r] == before[r];
      i := EveryRowFaithful(tools, pid, book, ds[..n], r);
    } else {
      ImportAdds(tools, before, d.holes, d.source, d.today, r);
      var j :| 0 <= j < |d.holes| && Acceptable(tools.library, d.holes[j]) &&
               after[r] == RowOf(tools, Taken(d.holes[j]), d.source, d.today);
      assert Unforged(tools.library, pid, book, d.holes[j]) && Sane(book, d.holes[j]);
      KeysGiven(tools.library, d.holes[j]);
      DatedKey(Taken(d.holes[j]), d.today);
      i := StoredAsSignedIff(tools.library, pid, book, d.holes[j], d.today);
    }
  }

  lemma {:induction false} ImportKeeps(tools: Tools, rows: seq<Row>, holes: seq<Hole>, source: string, today: string)
    ensures rows <= Import(tools, rows, holes, source, today)
  {
    hide Takes;
    if holes != [] {
      ImportKeeps(tools, rows, holes[..|holes| - 1], source, today);
    }
  }

  lemma KeysGiven(library: Library, hole: Hole)
    requires Acceptable(library, hole)
    ensures hole.pid == Some(Taken(hole).pid) && hole.selector == Some(Taken(hole).selector)
  {
  }

  lemma DatedKey(record: Record, today: string)
    ensures Dated(record, today).pid == record.pid && Dated(record, today).selector == record.selector
  {
  }

  /**
   Two registries that imported any listings without a forged signature, and
   their rows for one plain selector of the Pillar: both have the name and date
   that the Pillar signed, and so agree, exactly when both verify and neither
   date has a colon; and whenever both verify and the signed name has none.
   */
  lemma ForeignAgreement(
      tools: Tools, pid: string, book: seq<Record>, ds: seq<Delivery>, ds': seq<Delivery>, r: nat, r': nat)
    returns (i: nat)
    requires OneMessage(tools.library) && Book(pid, book)
    requires HonestDeliveries(tools.library, pid, book, ds) && HonestDeliveries(tools.library, pid, book, ds')
    requires r < |ImportAll(tools, [], ds)| && r' < |ImportAll(tools, [], ds')|
    requires var row, row' := ImportAll(tools, [], ds)[r].record, ImportAll(tools, [], ds')[r'].record;
      row.pid == row'.pid == pid && row.selector == row'.selector && ColonFree(row.selector)
    ensures var row, row' := ImportAll(tools, [], ds)[r].record, ImportAll(tools, [], ds')[r'].record;
      && i < |book| && book[i].selector == row.selector
      && (SignedAs(row, book[i]) && SignedAs(row', book[i]) <==>
            && Verifies(tools.library, row) && Verifies(tools.library, row')
            && ColonFree(row.registeredAt) && ColonFree(row'.registeredAt))
      && (Verifies(tools.library, row) && Verifies(tools.library, row') && ColonFree(book[i].name) ==>
            SignedAs(row, row'))
  {
    hide ColonFree, OneMessage, Verifies, ImportAll, HonestDeliveries;
    i := EveryRowFaithful(tools, pid, book, ds, r);
    var i' := EveryRowFaithful(tools, pid, book, ds', r');
    SameEntry(pid, book, i, i');
  }

  lemma SameEntry(pid: string, book: seq<Record>, k: nat, k': nat)
    requires Book(pid, book) && k < |book| && k' < |book| && book[k].selector == book[k'].selector
    ensures k == k'
  {
  }

  /** Description and owner are not signed: with any others a record verifies as well. */
  lemma DescriptionUnsigned(library: Library, r: Record, description: string, ownerAddress: string)
    ensures Verifies(library, r.(description := description, ownerAddress := ownerAddress)) == Verifies(library, r)
  {
    hide Match, Payload, NamespaceFits;
  }

  /** A name with a colon can be listed as a shorter name with a longer date, under the same signature. */
  lemma NameMaySplit(library: Library, r: Record, start: string, end: string)
    requires r.name == start + ":" + end
    ensures Verifies(library, r.(name := start, registeredAt := end + ":" + r.registeredAt)) == Verifies(library, r)
  {
    hide Match, NamespaceFits;
    var date := end + ":" + r.registeredAt;
    assert Payload(r.pid, r.selector, start, date) == Payload(r.pid, r.selector, r.name, r.registeredAt);
  }
}
