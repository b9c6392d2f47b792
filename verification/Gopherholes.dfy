/**
 Gopherhole records: signing, verifying, registering and importing them
 (core/gopherhole.py, db/live_db.py, mesh/replication.py).
 */
module Gopherholes {
  import opened Wrappers
  import opened PythonText
  import opened Envelopes
  import opened Selectors

  /** What a gopherhole record says, apart from where a Pillar got it from. */
  datatype Record = Record(
    pid: string, selector: string, name: string, description: string, ownerAddress: string,
    pubkeyHex: string, signature: string, registeredAt: string)

  /** A row of the registry. */
  datatype Row = Row(record: Record, source: string, txHash: string)

  /**
   A value in an entry of a listing: missing, a text, or another value of JSON,
   with the text that Python shows of it, whether Python takes it for false, and
   the text that a TEXT column keeps of it, if it takes it at all.
   */
  datatype Value = Missing | Text(text: string) | Other(shown: string, falsy: bool, kept: Option<string>)
  {
    /** What the signed payload shows of it. */
    function Shown(): string {
      match this
      case Missing => ""
      case Text(text) => text
      case Other(shown, _, _) => shown
    }

    predicate IsFalse() {
      match this
      case Missing => true
      case Text(text) => text == ""
      case Other(_, falsy, _) => falsy
    }

    function Kept(): Option<string> {
      match this
      case Missing => None
      case Text(text) => Some(text)
      case Other(_, _, kept) => kept
    }

    /** The table keeps what was signed. */
    predicate KeptAsShown() {
      Kept() == Some(Shown())
    }
  }

  /** How Python prints the values of JSON that it takes for false. */
  const FALSY := ["", "None", "False", "0", "0.0", "-0.0", "[]", "{}"]

  /** An entry of a peer's listing, any field of which may be missing. */
  datatype Hole = Hole(
    pid: Option<string>, selector: Option<string>, name: Value, description: Option<string>,
    ownerAddress: Option<string>, pubkeyHex: Option<string>, signature: Option<string>, registeredAt: Value)

  /** The library calls, and the hash of a record and its source. */
  datatype Tools = Tools(library: Library, digest: (Record, string) -> string)

  // ----- signatures

  function Payload(pid: string, selector: string, name: string, registeredAt: string): string {
    pid + ":" + selector + ":" + name + ":" + registeredAt
  }

  /** The payload as an entry's own values show it. */
  function ShownPayload(pid: string, selector: string, hole: Hole): string {
    Payload(pid, selector, hole.name.Shown(), hole.registeredAt.Shown())
  }

  /** verify_gopherhole_signature; None where a missing field raises. */
  function VerifySignature(library: Library, hole: Hole): Option<bool> {
    match (hole.pid, hole.pubkeyHex)
    case (Some(pid), Some(pubkeyHex)) =>
      if !library.PidMatchesKey(pid, pubkeyHex) then Some(false)
      else (
        match hole.selector
        case None => None
        case Some(selector) =>
          if !NamespaceFits(selector, pid) then Some(false)
          else (
            match hole.signature
            case None => None
            case Some(signature) =>
              if hole.name.Missing? || hole.registeredAt.Missing? then None
              else Some(library.verify(ShownPayload(pid, selector, hole), signature, pubkeyHex))))
    case _ => None
  }

  /** A record as /directory.json lists it. */
  function Listed(record: Record): Hole {
    Hole(Some(record.pid), Some(record.selector), Text(record.name), Some(record.description),
         Some(record.ownerAddress), Some(record.pubkeyHex), Some(record.signature), Text(record.registeredAt))
  }

  predicate Verifies(library: Library, record: Record) {
    VerifySignature(library, Listed(record)) == Some(true)
  }

  function PidOf(library: Library, key: string): string {
    library.keyHash(library.publicKey(key)).GetOr("")
  }

  /** The record create_gopherhole signs and registers. */
  function Signed(
      library: Library, key: string, selector: string, name: string, description: string, ownerAddress: string,
      registeredAt: string): Record {
    var pid := PidOf(library, key);
    Record(pid, selector, name, description, ownerAddress, library.publicKey(key),
           library.sign(key, Payload(pid, selector, name, registeredAt)), registeredAt)
  }

  lemma SignedVerifies(
      library: Library, key: string, selector: string, name: string, description: string, ownerAddress: string,
      registeredAt: string)
    requires library.Ideal() && ValidSelector(selector, PidOf(library, key))
    ensures Verifies(library, Signed(library, key, selector, name, description, ownerAddress, registeredAt))
  {
    hide Match;
    assert library.keyHash(library.publicKey(key)).Some?;
    assert library.verify(Payload(PidOf(library, key), selector, name, registeredAt),
                          library.sign(key, Payload(PidOf(library, key), selector, name, registeredAt)),
                          library.publicKey(key));
  }

  predicate ColonFree(t: string) {
    Lacks(t, ':')
  }

  /** A signed payload names one record when its PID, selector and date have no colon; its name may. */
  lemma PayloadInjective(
      pid: string, selector: string, name: string, registeredAt: string, pid': string, selector': string,
      name': string, registeredAt': string)
    requires ColonFree(pid) && ColonFree(selector) && ColonFree(registeredAt)
    requires ColonFree(pid') && ColonFree(selector') && ColonFree(registeredAt')
    requires Payload(pid, selector, name, registeredAt) == Payload(pid', selector', name', registeredAt')
    ensures pid == pid' && selector == selector' && name == name' && registeredAt == registeredAt'
  {
    SplitAtLast(':', pid + ":" + selector + ":" + name, pid' + ":" + selector' + ":" + name', registeredAt,
                registeredAt');
    assert pid + ":" + selector + ":" + name == pid + ":" + (selector + ":" + name);
    assert pid' + ":" + selector' + ":" + name' == pid' + ":" + (selector' + ":" + name');
    SplitAtFirst(':', pid, pid', selector + ":" + name, selector' + ":" + name');
    SplitAtFirst(':', selector, selector', name, name');
  }

  /** A selector that matches the pattern has no colon. */
  lemma MatchedIsColonFree(selector: string)
    requires Match(selector).Some?
    ensures ColonFree(selector)
  {
    var s := if selector[|selector| - 1] == '\n' then selector[..|selector| - 1] else selector;
    forall i | 0 <= i < |s|
      ensures s[i] != ':'
    {
      if i < 7 {
        assert s[i] == HOLES[i];
      } else if IsSlug(s[7..]) {
        assert s[i] in s[7..];
      } else if i < 23 {
        assert s[i] in s[7..23];
      } else if i > 23 {
        assert s[i] in s[24..];
      }
    }
  }

  // ----- the registry

  predicate Has(rows: seq<Row>, pid: string, selector: string) {
    exists i :: 0 <= i < |rows| && rows[i].record.pid == pid && rows[i].record.selector == selector
  }

  /** UNIQUE(pid, selector). */
  predicate Unique(rows: seq<Row>) {
    forall i, j :: 0 <= i < j < |rows| ==>
      rows[i].record.pid != rows[j].record.pid || rows[i].record.selector != rows[j].record.selector
  }

  predicate Holds(rows: seq<Row>, record: Record) {
    exists i :: 0 <= i < |rows| && rows[i].record == record
  }

  function Dated(record: Record, today: string): Record {
    if record.registeredAt == "" then record.(registeredAt := today) else record
  }

  function RowOf(tools: Tools, record: Record, source: string, today: string): Row {
    var dated := Dated(record, today);
    Row(dated, source, tools.digest(dated, source))
  }

  /** The record an accepted listing entry is registered as; a date that Python takes for false is left empty. */
  function Taken(hole: Hole): Record {
    Record(hole.pid.GetOr(""), hole.selector.GetOr(""), hole.name.Kept().GetOr(""), hole.description.GetOr(""),
           hole.ownerAddress.GetOr(""), hole.pubkeyHex.GetOr(""), hole.signature.GetOr(""),
           if hole.registeredAt.IsFalse() then "" else hole.registeredAt.Kept().GetOr(""))
  }

  /** The table takes the entry's values. */
  predicate Storable(hole: Hole) {
    hole.name.Kept().Some? && (hole.registeredAt.IsFalse() || hole.registeredAt.Kept().Some?)
  }

  /** The entry verifies and can be stored. */
  predicate Acceptable(library: Library, hole: Hole) {
    VerifySignature(library, hole) == Some(true) && Storable(hole)
  }

  /** Whether an import takes the entry. */
  predicate Takes(library: Library, rows: seq<Row>, hole: Hole) {
    !Has(rows, hole.pid.GetOr(""), hole.selector.GetOr("")) && Acceptable(library, hole)
  }

  function ImportOne(tools: Tools, rows: seq<Row>, hole: Hole, source: string, today: string): seq<Row> {
    if Takes(tools.library, rows, hole) then rows + [RowOf(tools, Taken(hole), source, today)] else rows
  }

  /** The registry after importing a listing. */
  function Import(tools: Tools, rows: seq<Row>, holes: seq<Hole>, source: string, today: string): seq<Row> {
    if holes == [] then rows
    else ImportOne(tools, Import(tools, rows, holes[..|holes| - 1], source, today), holes[|holes| - 1], source, today)
  }

  /** No entry under a foreign namespace is acceptable. */
  lemma NoForeignRow(tools: Tools, hole: Hole, source: string, today: string)
    requires Acceptable(tools.library, hole)
    ensures var row := RowOf(tools, Taken(hole), source, today); !Foreign(row.record.selector, row.record.pid)
  {
    hide Match, NamespaceFits, Foreign;
    FitsUnlessForeign(hole.selector.value, hole.pid.value);
  }

  /** A listed record is taken as it is. */
  lemma ListedIsTaken(record: Record)
    ensures Taken(Listed(record)) == record
    ensures Listed(record).pid.GetOr("") == record.pid && Listed(record).selector.GetOr("") == record.selector
  {
  }

  lemma ListedIsAcceptable(library: Library, record: Record)
    requires Verifies(library, record)
    ensures Acceptable(library, Listed(record))
  {
    hide VerifySignature;
  }

  lemma ImportStep(tools: Tools, rows: seq<Row>, holes: seq<Hole>, i: nat, source: string, today: string)
    requires i < |holes|
    ensures Import(tools, rows, holes[..i + 1], source, today)
            == ImportOne(tools, Import(tools, rows, holes[..i], source, today), holes[i], source, today)
  {
    assert holes[..i + 1][..i] == holes[..i];
  }

  lemma HasAppended(rows: seq<Row>, row: Row, pid: string, selector: string)
    ensures Has(rows + [row], pid, selector)
            <==> Has(rows, pid, selector) || (row.record.pid == pid && row.record.selector == selector)
  {
    var more := rows + [row];
    if Has(rows, pid, selector) {
      var i :| 0 <= i < |rows| && rows[i].record.pid == pid && rows[i].record.selector == selector;
      assert more[i] == rows[i];
    }
    assert more[|rows|] == row;
  }

  lemma HasInLonger(rows: seq<Row>, more: seq<Row>, pid: string, selector: string)
    requires rows <= more && Has(rows, pid, selector)
    ensures Has(more, pid, selector)
  {
    var i :| 0 <= i < |rows| && rows[i].record.pid == pid && rows[i].record.selector == selector;
    assert more[i] == rows[i];
  }

  lemma UniqueAppended(rows: seq<Row>, row: Row)
    requires Unique(rows) && !Has(rows, row.record.pid, row.record.selector)
    ensures Unique(rows + [row])
  {
  }

  /** Importing any listing only appends, keeps keys unique, and afterwards has every entry that verifies and fits. */
  lemma {:induction false} ImportGrows(tools: Tools, rows: seq<Row>, holes: seq<Hole>, source: string, today: string)
    requires Unique(rows)
    ensures rows <= Import(tools, rows, holes, source, today)
    ensures Unique(Import(tools, rows, holes, source, today))
    ensures forall j :: 0 <= j < |holes| && Acceptable(tools.library, holes[j]) ==>
      Has(Import(tools, rows, holes, source, today), holes[j].pid.GetOr(""), holes[j].selector.GetOr(""))
  {
    hide Acceptable, Has, Unique;
    if holes != [] {
      var init, last := holes[..|holes| - 1], holes[|holes| - 1];
      ImportGrows(tools, rows, init, source, today);
      var before := Import(tools, rows, init, source, today);
      var after := Import(tools, rows, holes, source, today);
      var row := RowOf(tools, Taken(last), source, today);
      if Takes(tools.library, before, last) {
        UniqueAppended(before, row);
        HasAppended(before, row, row.record.pid, row.record.selector);
      }
      forall j | 0 <= j < |holes| && Acceptable(tools.library, holes[j])
        ensures Has(after, holes[j].pid.GetOr(""), holes[j].selector.GetOr(""))
      {
        if j < |init| {
          assert holes[j] == init[j];
          HasInLonger(before, after, holes[j].pid.GetOr(""), holes[j].selector.GetOr(""));
        }
      }
    }
  }

  /** Every row an import adds is an acceptable entry of the listing, dated today if it had no date. */
  lemma {:induction false} ImportAdds(
      tools: Tools, rows: seq<Row>, holes: seq<Hole>, source: string, today: string, i: nat)
    requires |rows| <= i < |Import(tools, rows, holes, source, today)|
    ensures exists j :: 0 <= j < |holes| && Acceptable(tools.library, holes[j]) &&
                        Import(tools, rows, holes, source, today)[i] == RowOf(tools, Taken(holes[j]), source, today)
  {
    hide Acceptable, Has, RowOf, Taken;
    var init, last := holes[..|holes| - 1], holes[|holes| - 1];
    var before := Import(tools, rows, init, source, today);
    if i < |before| {
      ImportAdds(tools, rows, init, source, today, i);
      var j :| 0 <= j < |init| && Acceptable(tools.library, init[j])
        && before[i] == RowOf(tools, Taken(init[j]), source, today);
      assert holes[j] == init[j];
    }
  }

  // ----- dates

  /** A signature fits one message only. */
  ghost predicate OneMessage(library: Library) {
    forall message, message', signature, publicKey ::
      library.verify(message, signature, publicKey) && library.verify(message', signature, publicKey) ==>
        message == message'
  }

  /** The value is one that JSON can carry. */
  predicate Lawful(v: Value) {
    v.Other? ==>
      && (v.falsy ==> v.shown in FALSY)
      && (v.kept.Some? ==> ColonFree(v.shown) && ColonFree(v.kept.value) && v.kept.value != "")
  }

  predicate LawfulHole(hole: Hole) {
    Lawful(hole.name) && Lawful(hole.registeredAt)
  }

  /** Name and date are stored as they were signed. */
  predicate AsSigned(hole: Hole) {
    hole.name.KeptAsShown() && !hole.registeredAt.IsFalse() && hole.registeredAt.KeptAsShown()
  }

  lemma PayloadRest(pid: string, selector: string, name: string, date: string, name': string, date': string)
    ensures Payload(pid, selector, name, date) == Payload(pid, selector, name', date')
            <==> name + ":" + date == name' + ":" + date'
  {
    var start := pid + ":" + selector + ":";
    assert Payload(pid, selector, name, date) == start + (name + ":" + date);
    assert Payload(pid, selector, name', date') == start + (name' + ":" + date');
    assert Payload(pid, selector, name, date)[|start|..] == name + ":" + date;
    assert Payload(pid, selector, name', date')[|start|..] == name' + ":" + date';
  }

  /** The same name, or two without a colon: the texts are the same exactly when name and date are. */
  lemma NameAndDate(name: string, date: string, name': string, date': string)
    requires name == name' || (ColonFree(name) && ColonFree(name'))
    ensures name + ":" + date == name' + ":" + date' <==> name == name' && date == date'
  {
    if name + ":" + date == name' + ":" + date' {
      if name == name' {
        assert (name + ":" + date)[|name| + 1..] == date && (name' + ":" + date')[|name| + 1..] == date';
      } else {
        SplitAtFirst(':', name, name', date, date');
      }
    }
  }

  /** The stored name and date, against the shown ones. */
  lemma StoredIsShownIff(hole: Hole, today: string)
    requires LawfulHole(hole) && Storable(hole) && today !in FALSY
    requires !hole.name.Missing? && !hole.registeredAt.Missing?
    ensures var stored := Dated(Taken(hole), today);
      hole.name.Shown() + ":" + hole.registeredAt.Shown() == stored.name + ":" + stored.registeredAt <==> AsSigned(hole)
  {
    var stored := Dated(Taken(hole), today);
    assert FALSY[0] == "";
    NameAndDate(hole.name.Shown(), hole.registeredAt.Shown(), stored.name, stored.registeredAt);
  }

  /** A verifying entry is stored in a form that verifies exactly when it is stored as signed. */
  lemma StoredVerifiesIff(library: Library, hole: Hole, today: string)
    requires OneMessage(library) && Acceptable(library, hole) && LawfulHole(hole) && today !in FALSY
    ensures Verifies(library, Dated(Taken(hole), today)) <==> AsSigned(hole)
  {
    hide Match, NamespaceFits, Payload, AsSigned, LawfulHole, Storable;
    var stored := Dated(Taken(hole), today);
    StoredIsShownIff(hole, today);
    PayloadRest(stored.pid, stored.selector, hole.name.Shown(), hole.registeredAt.Shown(), stored.name,
                stored.registeredAt);
  }

  ghost predicate AllVerify(library: Library, rows: seq<Row>) {
    forall i :: 0 <= i < |rows| ==> Verifies(library, rows[i].record)
  }

  lemma AllVerifyAppended(library: Library, rows: seq<Row>, row: Row)
    ensures AllVerify(library, rows + [row]) <==> AllVerify(library, rows) && Verifies(library, row.record)
  {
    hide Verifies;
    assert (rows + [row])[|rows|] == row;
    assert forall i :: 0 <= i < |rows| ==> (rows + [row])[i] == rows[i];
  }

  /** The entry is taken at its turn in the listing, and is not stored as signed. */
  predicate TakesAltered(tools: Tools, rows: seq<Row>, holes: seq<Hole>, j: nat, source: string, today: string)
    requires j < |holes|
  {
    Takes(tools.library, Import(tools, rows, holes[..j], source, today), holes[j]) && !AsSigned(holes[j])
  }

  /** Importing any listing leaves a registry of verifying rows exactly when it takes no entry that it alters. */
  lemma {:induction false} ImportVerifiesIff(
      tools: Tools, rows: seq<Row>, holes: seq<Hole>, source: string, today: string)
    requires OneMessage(tools.library) && today !in FALSY && AllVerify(tools.library, rows)
    requires forall j :: 0 <= j < |holes| ==> LawfulHole(holes[j])
    ensures AllVerify(tools.library, Import(tools, rows, holes, source, today)) <==>
      forall j :: 0 <= j < |holes| ==> !TakesAltered(tools, rows, holes, j, source, today)
  {
    hide Verifies, Acceptable, AllVerify, Has, OneMessage, Taken, LawfulHole, AsSigned;
    if holes != [] {
      var n := |holes| - 1;
      var init := holes[..n];
      var before := Import(tools, rows, init, source, today);
      ImportVerifiesIff(tools, rows, init, source, today);
      forall j | 0 <= j < n
        ensures TakesAltered(tools, rows, init, j, source, today) == TakesAltered(tools, rows, holes, j, source, today)
      {
        assert init[..j] == holes[..j] && init[j] == holes[j];
      }
      var after := Import(tools, rows, holes, source, today);
      if Takes(tools.library, before, holes[n]) {
        StoredVerifiesIff(tools.library, holes[n], today);
        AllVerifyAppended(tools.library, before, RowOf(tools, Taken(holes[n]), source, today));
        assert TakesAltered(tools, rows, holes, n, source, today) <==> !AsSigned(holes[n]);
      } else {
        assert after == before && !TakesAltered(tools, rows, holes, n, source, today);
      }
    }
  }

  /** An entry that its signer signed as it shows, and that the table alters, is taken and leaves a row that fails. */
  lemma AlteredIsTaken(
      tools: Tools, key: string, selector: string, name: Value, date: Value, source: string, today: string)
    requires tools.library.Ideal() && OneMessage(tools.library) && today !in FALSY
    requires ValidSelector(selector, PidOf(tools.library, key)) && !name.Missing? && !date.Missing?
    requires var hole := ShownBy(tools.library, key, selector, name, date);
      LawfulHole(hole) && Storable(hole) && !AsSigned(hole)
    ensures var rows := Import(tools, [], [ShownBy(tools.library, key, selector, name, date)], source, today);
      |rows| == 1 && !Verifies(tools.library, rows[0].record)
  {
    hide Match, ValidSelector, Payload, NamespaceFits, Library.Ideal, OneMessage, Verifies, VerifySignature, LawfulHole,
         Storable, AsSigned;
    var hole := ShownBy(tools.library, key, selector, name, date);
    ShownVerifies(tools.library, key, selector, name, date);
    StoredVerifiesIff(tools.library, hole, today);
    assert [hole][..0] == [];
    ImportNothing(tools, [], source, today);
    assert !Has([], hole.pid.GetOr(""), hole.selector.GetOr(""));
  }

  /** An entry with these values, signed as they show. */
  function ShownBy(library: Library, key: string, selector: string, name: Value, date: Value): Hole {
    Listed(Signed(library, key, selector, name.Shown(), "", "", date.Shown())).(name := name, registeredAt := date)
  }

  lemma ShownVerifies(library: Library, key: string, selector: string, name: Value, date: Value)
    requires library.Ideal() && ValidSelector(selector, PidOf(library, key)) && !name.Missing? && !date.Missing?
    ensures VerifySignature(library, ShownBy(library, key, selector, name, date)) == Some(true)
  {
    hide Match, Payload;
    SignedVerifies(library, key, selector, name.Shown(), "", "", date.Shown());
  }

  /** Dates that are altered: the empty text, null, true and 1e22. */
  lemma AlteredDates(date: Value)
    requires date in [Text(""), Other("None", true, None), Other("True", false, Some("1")),
                      Other("1e+22", false, Some("1.0e+22"))]
    ensures Lawful(date) && !date.Missing? && (date.IsFalse() || date.Kept().Some?)
    ensures date.IsFalse() || !date.KeptAsShown()
  {
    assert FALSY[1] == "None";
    assert "True"[0] != "1"[0] && |"1e+22"| != |"1.0e+22"|;
  }

  /** The directories once a gopherhole's has been made with its parents. */
  function Made(directories: set<string>, selector: string): set<string> {
    directories + {selector} + set i | 0 <= i < |selector| && selector[i] == '/' :: selector[..i]
  }

  datatype Error = AlreadyExists | InvalidSelector | DirectoryExists

  /** One Pillar's registry, with the directories under its Gopher root. */
  class Registry {
    const tools: Tools
    var rows: seq<Row>
    var directories: set<string>

    constructor (tools: Tools)
      ensures this.tools == tools && rows == [] && directories == {}
    {
      this.tools := tools;
      rows, directories := [], {};
    }

    /** gopherhole_exists. */
    method Exists(pid: string, selector: string) returns (found: bool)
      ensures found <==> Has(rows, pid, selector)
    {
      found := false;
      for i := 0 to |rows|
        invariant found <==> Has(rows[..i], pid, selector)
      {
        assert rows[..i + 1] == rows[..i] + [rows[i]];
        HasAppended(rows[..i], rows[i], pid, selector);
        if rows[i].record.pid == pid && rows[i].record.selector == selector {
          found := true;
        }
      }
      assert rows[..|rows|] == rows;
    }

    /** register_gopherhole. */
    method Register(record: Record, source: string, today: string) returns (r: Result<string, Error>)
      modifies this`rows
      ensures Has(old(rows), record.pid, record.selector) ==> r == Err(AlreadyExists) && rows == old(rows)
      ensures !Has(old(rows), record.pid, record.selector) ==>
        var row := RowOf(tools, record, source, today); rows == old(rows) + [row] && r == Ok(row.txHash)
    {
      var row := RowOf(tools, record, source, today);
      var found := Exists(record.pid, record.selector);
      if found {
        return Err(AlreadyExists);
      }
      rows := rows + [row];
      r := Ok(row.txHash);
    }

    /** create_gopherhole; today is the accounting date. */
    method Create(
        key: string, selector: string, name: string, description: string, ownerAddress: string, today: string)
      returns (r: Result<Record, Error>)
      requires today != "" && Unique(rows) && tools.library.Ideal()
      modifies this
      ensures var pid := PidOf(tools.library, key);
        var record := Signed(tools.library, key, selector, name, description, ownerAddress, today);
        r == if !ValidSelector(selector, pid) then Err(InvalidSelector)
             else if selector in old(directories) then Err(DirectoryExists)
             else if Has(old(rows), pid, selector) then Err(AlreadyExists)
             else Ok(record)
      ensures Foreign(selector, PidOf(tools.library, key)) ==> r == Err(InvalidSelector)
      ensures r.Err? ==> rows == old(rows) && directories == old(directories)
      ensures r.Ok? ==>
        rows == old(rows) + [RowOf(tools, r.value, "local", today)] && directories == Made(old(directories), selector)
      ensures r.Ok? ==> Unique(rows) && r.value.registeredAt == today && Verifies(tools.library, r.value)
    {
      hide Match, Unique, Made, Foreign;
      var pid := PidOf(tools.library, key);
      FitsUnlessForeign(selector, pid);
      if !ValidSelector(selector, pid) {
        return Err(InvalidSelector);
      }
      if selector in directories {
        return Err(DirectoryExists);
      }
      var found := Exists(pid, selector);
      if found {
        return Err(AlreadyExists);
      }
      var record := Signed(tools.library, key, selector, name, description, ownerAddress, today);
      directories := Made(directories, selector);
      SignedVerifies(tools.library, key, selector, name, description, ownerAddress, today);
      UniqueAppended(rows, RowOf(tools, record, "local", today));
      var _ := Register(record, "local", today);
      r := Ok(record);
    }

    /** The import loop of sync_peer_registry. */
    method ImportListing(holes: seq<Hole>, peerPid: string, today: string) returns (imported: nat)
      requires Unique(rows)
      modifies this`rows
      ensures rows == Import(tools, old(rows), holes, peerPid, today)
      ensures Unique(rows) && old(rows) <= rows && imported == |rows| - |old(rows)|
      ensures forall i :: |old(rows)| <= i < |rows| ==> !Foreign(rows[i].record.selector, rows[i].record.pid)
    {
      hide Unique, Has, VerifySignature, Storable, RowOf, Import, Foreign;
      imported := 0;
      assert holes[..0] == [];
      ImportNothing(tools, rows, peerPid, today);
      for i := 0 to |holes|
        invariant rows == Import(tools, old(rows), holes[..i], peerPid, today)
        invariant imported == |rows| - |old(rows)|
      {
        ImportStep(tools, old(rows), holes, i, peerPid, today);
        var hole := holes[i];
        var exists_ := Exists(hole.pid.GetOr(""), hole.selector.GetOr(""));
        if exists_ {
          continue;
        }
        var valid := VerifySignature(tools.library, hole);
        if valid != Some(true) {
          continue;
        }
        if !Storable(hole) {
          continue;
        }
        var r := Register(Taken(hole), peerPid, today);
        if r.Ok? {
          imported := imported + 1;
        }
      }
      assert holes[..|holes|] == holes;
      ImportGrows(tools, old(rows), holes, peerPid, today);
      forall i | |old(rows)| <= i < |rows|
        ensures !Foreign(rows[i].record.selector, rows[i].record.pid)
      {
        ImportAdds(tools, old(rows), holes, peerPid, today, i);
        var j :| 0 <= j < |holes| && Acceptable(tools.library, holes[j])
          && rows[i] == RowOf(tools, Taken(holes[j]), peerPid, today);
        NoForeignRow(tools, holes[j], peerPid, today);
      }
    }
  }

  lemma ImportNothing(tools: Tools, rows: seq<Row>, source: string, today: string)
    ensures Import(tools, rows, [], source, today) == rows
  {
  }
}
