/** What signatures and listings of gopherholes say, in terms of their texts (core/gopherhole.py). */
module ListingLaws {
  import opened Wrappers
  import opened Envelopes
  import opened Selectors
  import opened Gopherholes

  // ----- signatures

  /**
   An entry verifies exactly when its key hashes to its PID, its selector is in
   no foreign namespace, no signed field is missing and the signature is the
   key's on PID, selector, name and date.
   */
  lemma VerifyMeans(library: Library, hole: Hole)
    ensures VerifySignature(library, hole) == Some(true) <==>
      && hole.pid.Some? && hole.selector.Some? && hole.pubkeyHex.Some? && hole.signature.Some?
      && !hole.name.Missing? && !hole.registeredAt.Missing?
      && library.keyHash(hole.pubkeyHex.value) == Some(hole.pid.value)
      && !Foreign(hole.selector.value, hole.pid.value)
      && library.verify(
           hole.pid.value + ":" + hole.selector.value + ":" + hole.name.Shown() + ":" + hole.registeredAt.Shown(),
           hole.signature.value, hole.pubkeyHex.value)
  {
    hide NamespaceFits, Foreign;
    if hole.pid.Some? && hole.selector.Some? {
      FitsUnlessForeign(hole.selector.value, hole.pid.value);
    }
  }

  /** It raises exactly when a field is missing that the checks come to. */
  lemma VerifyRaises(library: Library, hole: Hole)
    ensures VerifySignature(library, hole) == None <==>
      || hole.pid == None || hole.pubkeyHex == None
      || (library.keyHash(hole.pubkeyHex.value) == Some(hole.pid.value) && hole.selector == None)
      || (library.keyHash(hole.pubkeyHex.value) == Some(hole.pid.value)
          && !Foreign(hole.selector.value, hole.pid.value)
          && (hole.signature == None || hole.name.Missing? || hole.registeredAt.Missing?))
  {
    hide NamespaceFits, Foreign;
    if hole.pid.Some? && hole.selector.Some? {
      FitsUnlessForeign(hole.selector.value, hole.pid.value);
    }
  }

  lemma RecordVerifies(library: Library, record: Record)
    ensures Verifies(library, record) <==>
      && library.keyHash(record.pubkeyHex) == Some(record.pid) && !Foreign(record.selector, record.pid)
      && library.verify(record.pid + ":" + record.selector + ":" + record.name + ":" + record.registeredAt,
                        record.signature, record.pubkeyHex)
  {
    hide VerifySignature, Foreign;
    VerifyMeans(library, Listed(record));
  }

  /** What create_gopherhole records and signs. */
  lemma SignedMeans(
      library: Library, key: string, selector: string, name: string, description: string, ownerAddress: string,
      registeredAt: string)
    requires library.Ideal()
    ensures var record := Signed(library, key, selector, name, description, ownerAddress, registeredAt);
      && library.keyHash(library.publicKey(key)) == Some(record.pid)
      && record.selector == selector && record.name == name && record.description == description
      && record.ownerAddress == ownerAddress && record.pubkeyHex == library.publicKey(key)
      && record.registeredAt == registeredAt
      && record.signature == library.sign(key, record.pid + ":" + selector + ":" + name + ":" + registeredAt)
  {
  }

  // ----- listings

  /** What an imported row has from its entry, from the peer and from the day. */
  ghost predicate From(tools: Tools, row: Row, hole: Hole, source: string, today: string) {
    && hole.pid == Some(row.record.pid) && hole.selector == Some(row.record.selector)
    && hole.pubkeyHex == Some(row.record.pubkeyHex) && hole.signature == Some(row.record.signature)
    && hole.name.Kept() == Some(row.record.name)
    && row.record.description == hole.description.GetOr("")
    && row.record.ownerAddress == hole.ownerAddress.GetOr("")
    && (if hole.registeredAt.IsFalse() || hole.registeredAt.Kept() == Some("") then row.record.registeredAt == today
        else hole.registeredAt.Kept() == Some(row.record.registeredAt))
    && row.source == source && row.txHash == tools.digest(row.record, source)
  }

  /** The entry carries its signer's signature on what it shows, outside foreign namespaces. */
  ghost predicate Genuine(library: Library, hole: Hole, record: Record) {
    && library.keyHash(record.pubkeyHex) == Some(record.pid) && !Foreign(record.selector, record.pid)
    && library.verify(record.pid + ":" + record.selector + ":" + hole.name.Shown() + ":" + hole.registeredAt.Shown(),
                      record.signature, record.pubkeyHex)
  }

  /** Each row that an import adds comes from a genuine entry of the listing; nothing foreign is taken. */
  lemma ImportedMeans(tools: Tools, rows: seq<Row>, holes: seq<Hole>, source: string, today: string, i: nat)
    requires Unique(rows) && |rows| <= i < |Import(tools, rows, holes, source, today)|
    ensures var row := Import(tools, rows, holes, source, today)[i];
      && !Foreign(row.record.selector, row.record.pid) && !Has(rows, row.record.pid, row.record.selector)
      && exists hole :: hole in holes && From(tools, row, hole, source, today)
                        && Genuine(tools.library, hole, row.record)
  {
    hide Import, VerifySignature, Foreign, Unique, Has, Storable;
    ImportAdds(tools, rows, holes, source, today, i);
    ImportGrows(tools, rows, holes, source, today);
    NotBefore(rows, Import(tools, rows, holes, source, today), i);
    var row := Import(tools, rows, holes, source, today)[i];
    var j :| 0 <= j < |holes| && Acceptable(tools.library, holes[j])
      && row == RowOf(tools, Taken(holes[j]), source, today);
    TakenMeans(tools, holes[j], source, today);
  }

  lemma NotBefore(rows: seq<Row>, more: seq<Row>, i: nat)
    requires rows <= more && Unique(more) && |rows| <= i < |more|
    ensures !Has(rows, more[i].record.pid, more[i].record.selector)
  {
  }

  lemma TakenMeans(tools: Tools, hole: Hole, source: string, today: string)
    requires Acceptable(tools.library, hole)
    ensures var row := RowOf(tools, Taken(hole), source, today);
      From(tools, row, hole, source, today) && Genuine(tools.library, hole, row.record)
  {
    hide VerifySignature, Foreign;
    VerifyMeans(tools.library, hole);
  }

  /** Which entries can be stored: those whose name and date the table takes, or whose date is left to the day. */
  lemma StorableMeans(hole: Hole)
    ensures Storable(hole) <==>
      && (hole.name.Text? || (hole.name.Other? && hole.name.kept.Some?))
      && (hole.registeredAt.Missing? || hole.registeredAt.Text? || hole.registeredAt.falsy
          || hole.registeredAt.kept.Some?)
  {
  }

  /** After an import the registry has exactly the keys it had and those of the listing's acceptable entries. */
  lemma ImportHolds(
      tools: Tools, rows: seq<Row>, holes: seq<Hole>, source: string, today: string, pid: string, selector: string)
    requires Unique(rows)
    ensures Has(Import(tools, rows, holes, source, today), pid, selector) <==>
      || Has(rows, pid, selector)
      || exists j :: 0 <= j < |holes| && VerifySignature(tools.library, holes[j]) == Some(true) && Storable(holes[j])
                     && holes[j].pid == Some(pid) && holes[j].selector == Some(selector)
  {
    hide VerifySignature, Storable, Unique, Import;
    var after := Import(tools, rows, holes, source, today);
    ImportGrows(tools, rows, holes, source, today);
    if Has(rows, pid, selector) {
      HasInLonger(rows, after, pid, selector);
    }
    if Has(after, pid, selector) {
      var i :| 0 <= i < |after| && after[i].record.pid == pid && after[i].record.selector == selector;
      if i < |rows| {
        assert rows[i] == after[i];
      } else {
        ImportAdds(tools, rows, holes, source, today, i);
        var j :| 0 <= j < |holes| && Acceptable(tools.library, holes[j])
          && after[i] == RowOf(tools, Taken(holes[j]), source, today);
        TakenMeans(tools, holes[j], source, today);
      }
    }
  }

  // ----- directories

  /** Making a directory makes those above it. */
  lemma MadeMeans(directories: set<string>, selector: string, path: string)
    ensures path in Made(directories, selector) <==>
      path in directories || path == selector || path + "/" <= selector
  {
    if path + "/" <= selector {
      assert selector[|path|] == '/' && selector[..|path|] == path;
    }
    if i :| 0 <= i < |selector| && selector[i] == '/' && selector[..i] == path {
      assert path + "/" == selector[..i + 1];
    }
  }
}
