/** A mesh of Pillars that create gopherholes and copy them from one another (mesh/replication.py). */
module GossipMesh {
  import opened Envelopes
  import opened Selectors
  import opened Gopherholes

  /** A fetched listing on its way to a Pillar's import loop. */
  datatype Fetched = Fetched(to: nat, listing: seq<Row>, peerPid: string)

  /** The registries, every listing fetched so far, and every record ever signed, by PID and selector. */
  datatype Mesh = Mesh(registries: seq<seq<Row>>, fetched: seq<Fetched>, ghost signed: map<(string, string), Record>)

  datatype Step =
    | Create(node: nat, selector: string, name: string, description: string, ownerAddress: string, today: string)
    | Fetch(node: nat, peer: nat, listing: seq<Row>, peerPid: string)
    | Deliver(index: nat, today: string)

  /** The library and the private key of each Pillar. */
  datatype World = World(tools: Tools, keys: seq<string>)
  {
    ghost predicate Ideal() {
      && tools.library.Ideal()
      && forall i, j :: 0 <= i < j < |keys| ==> PidOf(tools.library, keys[i]) != PidOf(tools.library, keys[j])
    }
  }

  function Listing(rows: seq<Row>): (holes: seq<Hole>)
    ensures |holes| == |rows| && forall i :: 0 <= i < |rows| ==> holes[i] == Listed(rows[i].record)
  {
    seq(|rows|, i requires 0 <= i < |rows| => Listed(rows[i].record))
  }

  /** What a step may do: create a record the checks let through, list a registry in any order, import a listing. */
  ghost predicate Legal(w: World, mesh: Mesh, step: Step) {
    match step
    case Create(n, selector, _, _, _, today) =>
      && n < |w.keys| && n < |mesh.registries| && today != ""
      && ValidSelector(selector, PidOf(w.tools.library, w.keys[n]))
      && !Has(mesh.registries[n], PidOf(w.tools.library, w.keys[n]), selector)
    case Fetch(n, m, listing, _) =>
      n < |mesh.registries| && m < |mesh.registries| && multiset(listing) == multiset(mesh.registries[m])
    case Deliver(i, _) =>
      i < |mesh.fetched| && mesh.fetched[i].to < |mesh.registries|
  }

  ghost function Apply(w: World, mesh: Mesh, step: Step): Mesh
    requires Legal(w, mesh, step)
  {
    match step
    case Create(n, selector, name, description, owner, today) =>
      var record := Signed(w.tools.library, w.keys[n], selector, name, description, owner, today);
      Mesh(mesh.registries[n := mesh.registries[n] + [RowOf(w.tools, record, "local", today)]],
           mesh.fetched, mesh.signed[(record.pid, record.selector) := record])
    case Fetch(n, m, listing, peerPid) =>
      Mesh(mesh.registries, mesh.fetched + [Fetched(n, listing, peerPid)], mesh.signed)
    case Deliver(i, today) =>
      var f := mesh.fetched[i];
      Mesh(mesh.registries[f.to := Import(w.tools, mesh.registries[f.to], Listing(f.listing), f.peerPid, today)],
           mesh.fetched, mesh.signed)
  }

  ghost predicate LegalRun(w: World, mesh: Mesh, steps: seq<Step>)
    decreases |steps|
  {
    steps == [] ||
    (Legal(w, mesh, steps[0]) && LegalRun(w, Apply(w, mesh, steps[0]), steps[1..]))
  }

  ghost function Run(w: World, mesh: Mesh, steps: seq<Step>): Mesh
    requires LegalRun(w, mesh, steps)
    decreases |steps|
  {
    if steps == [] then mesh else Run(w, Apply(w, mesh, steps[0]), steps[1..])
  }

  function Start(w: World): Mesh {
    Mesh(seq(|w.keys|, _ => []), [], map[])
  }

  // ----- what every step keeps

  /** Every row is a signed record. */
  ghost predicate FromBook(rows: seq<Row>, signed: map<(string, string), Record>) {
    forall i :: 0 <= i < |rows| ==> InBook(rows[i].record, signed)
  }

  predicate InBook(record: Record, signed: map<(string, string), Record>) {
    (record.pid, record.selector) in signed && signed[(record.pid, record.selector)] == record
  }

  /** A signed record verifies, carries a date, and stands in its author's registry. */
  ghost predicate GoodEntry(w: World, mesh: Mesh, record: Record) {
    && Verifies(w.tools.library, record) && record.registeredAt != ""
    && exists a :: 0 <= a < |w.keys| && a < |mesh.registries| && PidOf(w.tools.library, w.keys[a]) == record.pid
                   && Has(mesh.registries[a], record.pid, record.selector)
  }

  ghost predicate Valid(w: World, mesh: Mesh) {
    && |mesh.registries| == |w.keys|
    && (forall n :: 0 <= n < |mesh.registries| ==>
          FromBook(mesh.registries[n], mesh.signed) && Unique(mesh.registries[n]))
    && (forall i :: 0 <= i < |mesh.fetched| ==> FromBook(mesh.fetched[i].listing, mesh.signed))
    && (forall key :: key in mesh.signed ==>
          key == (mesh.signed[key].pid, mesh.signed[key].selector) && GoodEntry(w, mesh, mesh.signed[key]))
  }

  /** Registries only grow, and so does the book of signed records. */
  ghost predicate Grown(mesh: Mesh, mesh': Mesh) {
    && |mesh'.registries| == |mesh.registries|
    && (forall n :: 0 <= n < |mesh.registries| ==> mesh.registries[n] <= mesh'.registries[n])
    && (forall key :: key in mesh.signed ==> key in mesh'.signed && mesh'.signed[key] == mesh.signed[key])
    && mesh.fetched <= mesh'.fetched
  }

  lemma GoodEntryLater(w: World, mesh: Mesh, mesh': Mesh, record: Record)
    requires GoodEntry(w, mesh, record) && Grown(mesh, mesh')
    ensures GoodEntry(w, mesh', record)
  {
    hide Verifies, Has;
    var a :| 0 <= a < |w.keys| && a < |mesh.registries| && PidOf(w.tools.library, w.keys[a]) == record.pid
             && Has(mesh.registries[a], record.pid, record.selector);
    HasInLonger(mesh.registries[a], mesh'.registries[a], record.pid, record.selector);
  }

  lemma FromBookLater(rows: seq<Row>, signed: map<(string, string), Record>, signed': map<(string, string), Record>)
    requires FromBook(rows, signed)
    requires forall key :: key in signed ==> key in signed' && signed'[key] == signed[key]
    ensures FromBook(rows, signed')
  {
  }

  lemma HasInBook(rows: seq<Row>, signed: map<(string, string), Record>, pid: string, selector: string)
    requires FromBook(rows, signed) && Has(rows, pid, selector)
    ensures (pid, selector) in signed
  {
  }

  /** Only a Pillar with this PID could have signed the key, and it holds what it signed. */
  lemma AuthorHolds(w: World, mesh: Mesh, n: nat, selector: string)
    requires w.Ideal() && Valid(w, mesh) && n < |w.keys|
    requires (PidOf(w.tools.library, w.keys[n]), selector) in mesh.signed
    ensures Has(mesh.registries[n], PidOf(w.tools.library, w.keys[n]), selector)
  {
    hide PidOf, Has, FromBook, Unique, Verifies, Library.Ideal;
    var pid := PidOf(w.tools.library, w.keys[n]);
    var record := mesh.signed[(pid, selector)];
    assert GoodEntry(w, mesh, record);
    var a :| 0 <= a < |w.keys| && a < |mesh.registries| && PidOf(w.tools.library, w.keys[a]) == record.pid
             && Has(mesh.registries[a], record.pid, record.selector);
    assert a == n;
  }

  lemma CreateKeepsValid(w: World, mesh: Mesh, step: Step)
    requires w.Ideal() && Valid(w, mesh) && step.Create? && Legal(w, mesh, step)
    ensures Valid(w, Apply(w, mesh, step)) && Grown(mesh, Apply(w, mesh, step))
  {
    hide Has, PidOf, Unique, Verifies, GoodEntry, ValidSelector, FromBook, Payload;
    var n := step.node;
    var mesh' := Apply(w, mesh, step);
    var rows := mesh.registries[n];
    var record := Signed(w.tools.library, w.keys[n], step.selector, step.name, step.description,
                         step.ownerAddress, step.today);
    var row := RowOf(w.tools, record, "local", step.today);
    var key := (record.pid, record.selector);
    if key in mesh.signed {
      AuthorHolds(w, mesh, n, step.selector);
      assert false;
    }
    assert row.record == record;
    assert Grown(mesh, mesh');
    SignedVerifies(w.tools.library, w.keys[n], step.selector, step.name, step.description, step.ownerAddress,
                   step.today);
    AppendSigned(rows, row, mesh.signed, mesh'.signed);
    HasAppended(rows, row, record.pid, record.selector);
    GoodHere(w, mesh', record, n);
    forall k | 0 <= k < |mesh.registries| && k != n
      ensures FromBook(mesh'.registries[k], mesh'.signed) && Unique(mesh'.registries[k])
    {
      FromBookLater(mesh.registries[k], mesh.signed, mesh'.signed);
    }
    forall i | 0 <= i < |mesh'.fetched|
      ensures FromBook(mesh'.fetched[i].listing, mesh'.signed)
    {
      FromBookLater(mesh.fetched[i].listing, mesh.signed, mesh'.signed);
    }
    forall k | k in mesh'.signed
      ensures k == (mesh'.signed[k].pid, mesh'.signed[k].selector) && GoodEntry(w, mesh', mesh'.signed[k])
    {
      if k != key {
        GoodEntryLater(w, mesh, mesh', mesh.signed[k]);
      }
    }
  }

  lemma GoodHere(w: World, mesh: Mesh, record: Record, a: nat)
    requires Verifies(w.tools.library, record) && record.registeredAt != ""
    requires a < |w.keys| && a < |mesh.registries| && PidOf(w.tools.library, w.keys[a]) == record.pid
    requires Has(mesh.registries[a], record.pid, record.selector)
    ensures GoodEntry(w, mesh, record)
  {
    hide Verifies, Has, PidOf;
  }

  lemma AppendSigned(
      rows: seq<Row>, row: Row, signed: map<(string, string), Record>, signed': map<(string, string), Record>)
    requires FromBook(rows, signed) && Unique(rows)
    requires signed' == signed[(row.record.pid, row.record.selector) := row.record]
    requires (row.record.pid, row.record.selector) !in signed
    ensures FromBook(rows + [row], signed') && Unique(rows + [row])
  {
    if Has(rows, row.record.pid, row.record.selector) {
      HasInBook(rows, signed, row.record.pid, row.record.selector);
      assert false;
    }
    UniqueAppended(rows, row);
  }

  lemma Permuted(rows: seq<Row>, listing: seq<Row>, signed: map<(string, string), Record>)
    requires multiset(listing) == multiset(rows) && FromBook(rows, signed)
    ensures FromBook(listing, signed)
    ensures forall pid, selector :: Has(rows, pid, selector) ==> Has(listing, pid, selector)
  {
    hide InBook;
    forall i | 0 <= i < |listing|
      ensures InBook(listing[i].record, signed)
    {
      assert listing[i] in multiset(rows);
      var j :| 0 <= j < |rows| && rows[j] == listing[i];
    }
    forall pid, selector | Has(rows, pid, selector)
      ensures Has(listing, pid, selector)
    {
      var i :| 0 <= i < |rows| && rows[i].record.pid == pid && rows[i].record.selector == selector;
      assert rows[i] in multiset(listing);
      var j :| 0 <= j < |listing| && listing[j] == rows[i];
    }
  }

  /** Importing a listing of signed records adds only signed records, unchanged. */
  lemma ImportFromBook(w: World, mesh: Mesh, rows: seq<Row>, listing: seq<Row>, peerPid: string, today: string)
    requires Valid(w, mesh) && FromBook(rows, mesh.signed) && Unique(rows) && FromBook(listing, mesh.signed)
    ensures FromBook(Import(w.tools, rows, Listing(listing), peerPid, today), mesh.signed)
    ensures forall pid, selector :: Has(listing, pid, selector) ==>
      Has(Import(w.tools, rows, Listing(listing), peerPid, today), pid, selector)
  {
    hide VerifySignature, Acceptable, Verifies, Unique, Taken, Listed;
    var holes := Listing(listing);
    var after := Import(w.tools, rows, holes, peerPid, today);
    ImportGrows(w.tools, rows, holes, peerPid, today);
    forall i | 0 <= i < |after|
      ensures InBook(after[i].record, mesh.signed)
    {
      if i < |rows| {
        assert after[i] == rows[i];
      } else {
        ImportAdds(w.tools, rows, holes, peerPid, today, i);
        var j :| 0 <= j < |holes| && Acceptable(w.tools.library, holes[j])
                 && after[i] == RowOf(w.tools, Taken(holes[j]), peerPid, today);
        assert InBook(listing[j].record, mesh.signed);
        assert GoodEntry(w, mesh, listing[j].record);
        ListedIsTaken(listing[j].record);
      }
    }
    forall pid, selector | Has(listing, pid, selector)
      ensures Has(after, pid, selector)
    {
      var j :| 0 <= j < |listing| && listing[j].record.pid == pid && listing[j].record.selector == selector;
      assert InBook(listing[j].record, mesh.signed);
      assert GoodEntry(w, mesh, listing[j].record);
      ListedIsTaken(listing[j].record);
      ListedIsAcceptable(w.tools.library, listing[j].record);
    }
  }

  lemma StepKeepsValid(w: World, mesh: Mesh, step: Step)
    requires w.Ideal() && Valid(w, mesh) && Legal(w, mesh, step)
    ensures Valid(w, Apply(w, mesh, step)) && Grown(mesh, Apply(w, mesh, step))
  {
    hide Has, FromBook, Unique, GoodEntry, Import, World.Ideal;
    var mesh' := Apply(w, mesh, step);
    match step
    case Create(_, _, _, _, _, _) => CreateKeepsValid(w, mesh, step);
    case Fetch(_, m, listing, _) =>
      Permuted(mesh.registries[m], listing, mesh.signed);
      forall key | key in mesh'.signed
        ensures GoodEntry(w, mesh', mesh'.signed[key])
      {
        GoodEntryLater(w, mesh, mesh', mesh.signed[key]);
      }
    case Deliver(i, today) =>
      var f := mesh.fetched[i];
      ImportFromBook(w, mesh, mesh.registries[f.to], f.listing, f.peerPid, today);
      ImportGrows(w.tools, mesh.registries[f.to], Listing(f.listing), f.peerPid, today);
      forall key | key in mesh'.signed
        ensures GoodEntry(w, mesh', mesh'.signed[key])
      {
        GoodEntryLater(w, mesh, mesh', mesh.signed[key]);
      }
  }

  /** In every run, registries only grow and the invariant holds. */
  lemma {:induction false} RunKeepsValid(w: World, mesh: Mesh, steps: seq<Step>)
    requires w.Ideal() && Valid(w, mesh) && LegalRun(w, mesh, steps)
    ensures Valid(w, Run(w, mesh, steps)) && Grown(mesh, Run(w, mesh, steps))
    decreases |steps|
  {
    hide Valid, World.Ideal, Legal, Apply;
    if steps != [] {
      StepKeepsValid(w, mesh, steps[0]);
      RunKeepsValid(w, Apply(w, mesh, steps[0]), steps[1..]);
    }
  }

  lemma StartIsValid(w: World)
    ensures Valid(w, Start(w))
  {
  }

  /** In every run, every row of every registry verifies. */
  lemma EveryRowVerifies(w: World, steps: seq<Step>, n: nat)
    requires w.Ideal() && LegalRun(w, Start(w), steps) && n < |w.keys|
    ensures n < |Run(w, Start(w), steps).registries|
    ensures AllVerify(w.tools.library, Run(w, Start(w), steps).registries[n])
  {
    hide World.Ideal, Run, LegalRun, Verifies, Unique, Start, Has;
    StartIsValid(w);
    RunKeepsValid(w, Start(w), steps);
    var mesh := Run(w, Start(w), steps);
    forall i | 0 <= i < |mesh.registries[n]|
      ensures Verifies(w.tools.library, mesh.registries[n][i].record)
    {
      var record := mesh.registries[n][i].record;
      assert InBook(record, mesh.signed);
      assert GoodEntry(w, mesh, record);
    }
  }

  /** In every run, two rows anywhere with the same PID and selector differ at most in source and tx_hash. */
  lemma Agreement(w: World, steps: seq<Step>, n: nat, i: nat, m: nat, j: nat)
    requires w.Ideal() && LegalRun(w, Start(w), steps)
    requires n < |Run(w, Start(w), steps).registries| && m < |Run(w, Start(w), steps).registries|
    requires i < |Run(w, Start(w), steps).registries[n]| && j < |Run(w, Start(w), steps).registries[m]|
    requires var r := Run(w, Start(w), steps).registries[n][i].record;
             var r' := Run(w, Start(w), steps).registries[m][j].record;
             r.pid == r'.pid && r.selector == r'.selector
    ensures Run(w, Start(w), steps).registries[n][i].record == Run(w, Start(w), steps).registries[m][j].record
  {
    hide World.Ideal, Run, LegalRun, Unique, Start, GoodEntry;
    StartIsValid(w);
    RunKeepsValid(w, Start(w), steps);
    var mesh := Run(w, Start(w), steps);
    assert InBook(mesh.registries[n][i].record, mesh.signed);
    assert InBook(mesh.registries[m][j].record, mesh.signed);
  }

  // ----- convergence

  /** The legal run visits a state before each step. */
  ghost function StateAt(w: World, mesh: Mesh, steps: seq<Step>, k: nat): Mesh
    requires LegalRun(w, mesh, steps) && k <= |steps|
    decreases k
  {
    if k == 0 then mesh else StateAt(w, Apply(w, mesh, steps[0]), steps[1..], k - 1)
  }

  lemma {:induction false} StateAtIs(w: World, mesh: Mesh, steps: seq<Step>, k: nat)
    requires w.Ideal() && Valid(w, mesh) && LegalRun(w, mesh, steps) && k <= |steps|
    ensures var at := StateAt(w, mesh, steps, k);
      && Valid(w, at) && Grown(mesh, at)
      && LegalRun(w, at, steps[k..]) && Run(w, at, steps[k..]) == Run(w, mesh, steps)
    decreases k
  {
    hide Valid, World.Ideal, Legal, Apply;
    if k > 0 {
      StepKeepsValid(w, mesh, steps[0]);
      StateAtIs(w, Apply(w, mesh, steps[0]), steps[1..], k - 1);
      assert steps[1..][k - 1..] == steps[k..];
    } else {
      assert steps[0..] == steps;
    }
  }

  lemma {:induction false} StateAtFrom(w: World, mesh: Mesh, steps: seq<Step>, j: nat, i: nat)
    requires w.Ideal() && Valid(w, mesh) && LegalRun(w, mesh, steps) && j + i <= |steps|
    ensures LegalRun(w, StateAt(w, mesh, steps, j), steps[j..])
    ensures StateAt(w, mesh, steps, j + i) == StateAt(w, StateAt(w, mesh, steps, j), steps[j..], i)
    decreases j
  {
    hide Valid, World.Ideal, Legal, Apply;
    if j > 0 {
      StepKeepsValid(w, mesh, steps[0]);
      StateAtFrom(w, Apply(w, mesh, steps[0]), steps[1..], j - 1, i);
      assert steps[1..][j - 1..] == steps[j..];
    } else {
      assert steps[0..] == steps;
    }
  }

  lemma {:induction false} StateAtNext(w: World, mesh: Mesh, steps: seq<Step>, j: nat)
    requires w.Ideal() && Valid(w, mesh) && LegalRun(w, mesh, steps) && j < |steps|
    ensures Legal(w, StateAt(w, mesh, steps, j), steps[j])
    ensures StateAt(w, mesh, steps, j + 1) == Apply(w, StateAt(w, mesh, steps, j), steps[j])
    decreases j
  {
    hide Valid, World.Ideal, Legal, Apply;
    if j > 0 {
      StepKeepsValid(w, mesh, steps[0]);
      StateAtNext(w, Apply(w, mesh, steps[0]), steps[1..], j - 1);
    }
  }

  /** Of two visited states, the later has grown from the earlier. */
  lemma StatesGrow(w: World, mesh: Mesh, steps: seq<Step>, j: nat, k: nat)
    requires w.Ideal() && Valid(w, mesh) && LegalRun(w, mesh, steps) && j <= k <= |steps|
    ensures Valid(w, StateAt(w, mesh, steps, j)) && Valid(w, StateAt(w, mesh, steps, k))
    ensures Grown(StateAt(w, mesh, steps, j), StateAt(w, mesh, steps, k))
  {
    hide Valid, World.Ideal, Legal, Apply, Grown;
    StateAtIs(w, mesh, steps, j);
    StateAtIs(w, mesh, steps, k);
    StateAtFrom(w, mesh, steps, j, k - j);
    StateAtIs(w, StateAt(w, mesh, steps, j), steps[j..], k - j);
  }

  /** In these steps node fetches peer's listing and then imports it. */
  ghost predicate Synced(w: World, mesh: Mesh, steps: seq<Step>, node: nat, peer: nat)
    requires LegalRun(w, mesh, steps)
  {
    exists j, k :: 0 <= j < k < |steps|
      && steps[j].Fetch? && steps[j].node == node && steps[j].peer == peer
      && steps[k].Deliver? && steps[k].index == |StateAt(w, mesh, steps, j).fetched|
  }

  /** Every Pillar syncs with each of its peers, in any interleaving, and nobody creates anything. */
  ghost predicate Round(w: World, mesh: Mesh, steps: seq<Step>, edges: set<(nat, nat)>) {
    && LegalRun(w, mesh, steps)
    && (forall k :: 0 <= k < |steps| ==> !steps[k].Create?)
    && (forall e :: e in edges ==> Synced(w, mesh, steps, e.0, e.1))
  }

  ghost predicate Rounds(w: World, mesh: Mesh, rounds: seq<seq<Step>>, edges: set<(nat, nat)>)
    decreases |rounds|
  {
    rounds == [] ||
    (Round(w, mesh, rounds[0], edges) && Rounds(w, Run(w, mesh, rounds[0]), rounds[1..], edges))
  }

  ghost function RunRounds(w: World, mesh: Mesh, rounds: seq<seq<Step>>, edges: set<(nat, nat)>): Mesh
    requires Rounds(w, mesh, rounds, edges)
    decreases |rounds|
  {
    if rounds == [] then mesh else RunRounds(w, Run(w, mesh, rounds[0]), rounds[1..], edges)
  }

  /** y can be reached from x along at most d edges. */
  ghost predicate Within(edges: set<(nat, nat)>, x: nat, y: nat, d: nat)
    decreases d
  {
    if d == 0 then x == y
    else Within(edges, x, y, d - 1) || exists m: nat :: (m, y) in edges && Within(edges, x, m, d - 1)
  }

  lemma {:induction false} WithinLater(edges: set<(nat, nat)>, x: nat, y: nat, d: nat, d': nat)
    requires Within(edges, x, y, d) && d <= d'
    ensures Within(edges, x, y, d')
    decreases d'
  {
    if d < d' {
      WithinLater(edges, x, y, d, d' - 1);
    }
  }

  ghost predicate Joined(edges: set<(nat, nat)>, x: nat, y: nat) {
    exists d: nat :: Within(edges, x, y, d)
  }

  /** Some path leads from each Pillar to each. */
  ghost predicate Connected(edges: set<(nat, nat)>, n: nat) {
    forall x: nat, y: nat :: x < n && y < n ==> Joined(edges, x, y)
  }

  lemma {:induction false} Farthest(edges: set<(nat, nat)>, n: nat, x: nat, count: nat) returns (d: nat)
    requires Connected(edges, n) && x < n && count <= n
    ensures forall y: nat, k: nat :: y < count && d <= k ==> Within(edges, x, y, k)
  {
    d := 0;
    if count > 0 {
      var before := Farthest(edges, n, x, count - 1);
      var z := count - 1;
      assert Joined(edges, x, z);
      var last: nat :| Within(edges, x, z, last);
      d := if before < last then last else before;
      forall y: nat, k: nat | y < count && d <= k
        ensures Within(edges, x, y, k)
      {
        if y == z {
          WithinLater(edges, x, y, last, k);
        }
      }
    }
  }

  /** In a connected mesh some number of edges joins every pair, and so does every larger number. */
  lemma {:induction false} ConnectedWithin(edges: set<(nat, nat)>, n: nat, count: nat) returns (d: nat)
    requires Connected(edges, n) && count <= n
    ensures forall x: nat, y: nat, k: nat :: x < count && y < n && d <= k ==> Within(edges, x, y, k)
  {
    hide Within, Connected;
    d := 0;
    if count > 0 {
      var before := ConnectedWithin(edges, n, count - 1);
      var last := Farthest(edges, n, count - 1, n);
      d := if before < last then last else before;
    }
  }

  /** One fetch and its import, made before other steps. */
  lemma SyncFirst(w: World, mesh: Mesh, fetch: Step, deliver: Step, rest: seq<Step>)
    requires fetch.Fetch? && deliver.Deliver? && deliver.index == |mesh.fetched| && Legal(w, mesh, fetch)
    requires Legal(w, Apply(w, mesh, fetch), deliver)
    requires LegalRun(w, Apply(w, Apply(w, mesh, fetch), deliver), rest)
    ensures var after, steps := Apply(w, Apply(w, mesh, fetch), deliver), [fetch, deliver] + rest;
      && LegalRun(w, mesh, steps) && Synced(w, mesh, steps, fetch.node, fetch.peer)
      && forall e: (nat, nat) :: Synced(w, after, rest, e.0, e.1) ==> Synced(w, mesh, steps, e.0, e.1)
  {
    hide Legal, Apply;
    var fetched := Apply(w, mesh, fetch);
    var after, steps := Apply(w, fetched, deliver), [fetch, deliver] + rest;
    assert steps[1..] == [deliver] + rest && steps[1..][1..] == rest;
    assert LegalRun(w, fetched, steps[1..]);
    assert StateAt(w, mesh, steps, 0) == mesh;
    assert steps[0].Fetch? && steps[1].Deliver? && steps[1].index == |StateAt(w, mesh, steps, 0).fetched|;
    forall e: (nat, nat) | Synced(w, after, rest, e.0, e.1)
      ensures Synced(w, mesh, steps, e.0, e.1)
    {
      var j, k :| 0 <= j < k < |rest|
        && rest[j].Fetch? && rest[j].node == e.0 && rest[j].peer == e.1
        && rest[k].Deliver? && rest[k].index == |StateAt(w, after, rest, j).fetched|;
      assert StateAt(w, fetched, steps[1..], j + 1) == StateAt(w, after, rest, j);
      assert StateAt(w, mesh, steps, j + 2) == StateAt(w, after, rest, j);
      assert steps[j + 2] == rest[j] && steps[k + 2] == rest[k];
    }
  }

  /** From every mesh on there are successful rounds: nothing stands in the way of a fetch or an import. */
  lemma {:induction false} RoundExists(w: World, mesh: Mesh, edges: set<(nat, nat)>, today: string)
    returns (steps: seq<Step>)
    requires w.Ideal() && Valid(w, mesh)
    requires forall e :: e in edges ==> e.0 < |w.keys| && e.1 < |w.keys|
    ensures Round(w, mesh, steps, edges)
    decreases edges
  {
    hide World.Ideal, Valid, Synced;
    steps := [];
    if edges != {} {
      var e :| e in edges;
      ValidSize(w, mesh);
      var fetch := Fetch(e.0, e.1, mesh.registries[e.1], "");
      var fetched := Apply(w, mesh, fetch);
      var deliver := Deliver(|mesh.fetched|, today);
      StepKeepsValid(w, mesh, fetch);
      StepKeepsValid(w, fetched, deliver);
      var rest := RoundExists(w, Apply(w, fetched, deliver), edges - {e}, today);
      steps := [fetch, deliver] + rest;
      SyncFirst(w, mesh, fetch, deliver, rest);
    }
  }

  lemma ValidSize(w: World, mesh: Mesh)
    requires Valid(w, mesh)
    ensures |mesh.registries| == |w.keys|
  {
  }

  /** And any number of them, so convergence is not a promise about nothing. */
  lemma {:induction false} RoundsExist(w: World, mesh: Mesh, edges: set<(nat, nat)>, d: nat, today: string)
    returns (rounds: seq<seq<Step>>)
    requires w.Ideal() && Valid(w, mesh)
    requires forall e :: e in edges ==> e.0 < |w.keys| && e.1 < |w.keys|
    ensures |rounds| == d && Rounds(w, mesh, rounds, edges)
    decreases d
  {
    hide World.Ideal, Valid, Round, LegalRun;
    rounds := [];
    if d > 0 {
      var steps := RoundExists(w, mesh, edges, today);
      assert LegalRun(w, mesh, steps) by {
        RoundIsLegal(w, mesh, steps, edges);
      }
      RunKeepsValid(w, mesh, steps);
      var rest := RoundsExist(w, Run(w, mesh, steps), edges, d - 1, today);
      rounds := [steps] + rest;
      assert rounds[1..] == rest;
    }
  }

  lemma RoundIsLegal(w: World, mesh: Mesh, steps: seq<Step>, edges: set<(nat, nat)>)
    requires Round(w, mesh, steps, edges)
    ensures LegalRun(w, mesh, steps)
  {
  }

  lemma {:induction false} QuietBook(w: World, mesh: Mesh, steps: seq<Step>)
    requires LegalRun(w, mesh, steps) && forall k :: 0 <= k < |steps| ==> !steps[k].Create?
    ensures Run(w, mesh, steps).signed == mesh.signed
    decreases |steps|
  {
    hide Legal;
    if steps != [] {
      QuietBook(w, Apply(w, mesh, steps[0]), steps[1..]);
    }
  }

  /** After importing what it fetched, a Pillar has every key that its peer had. */
  lemma DeliverHas(w: World, mesh: Mesh, step: Step, pid: string, selector: string)
    requires Valid(w, mesh) && step.Deliver? && Legal(w, mesh, step)
    requires step.index < |mesh.fetched| && Has(mesh.fetched[step.index].listing, pid, selector)
    ensures mesh.fetched[step.index].to < |Apply(w, mesh, step).registries|
    ensures Has(Apply(w, mesh, step).registries[mesh.fetched[step.index].to], pid, selector)
  {
    hide Has, FromBook, Unique, GoodEntry, Import;
    var f := mesh.fetched[step.index];
    ImportFromBook(w, mesh, mesh.registries[f.to], f.listing, f.peerPid, step.today);
  }

  /** A successful sync carries every key the peer had when the round began. */
  lemma SyncSpreads(w: World, mesh: Mesh, steps: seq<Step>, node: nat, peer: nat, pid: string, selector: string)
    requires w.Ideal() && Valid(w, mesh) && LegalRun(w, mesh, steps) && Synced(w, mesh, steps, node, peer)
    requires peer < |mesh.registries| && Has(mesh.registries[peer], pid, selector)
    ensures node < |Run(w, mesh, steps).registries| && Has(Run(w, mesh, steps).registries[node], pid, selector)
  {
    hide Valid, World.Ideal, Has, StateAt, LegalRun, Run, Legal, Apply;
    var j, k :| 0 <= j < k < |steps|
      && steps[j].Fetch? && steps[j].node == node && steps[j].peer == peer
      && steps[k].Deliver? && steps[k].index == |StateAt(w, mesh, steps, j).fetched|;
    var before, fetched := StateAt(w, mesh, steps, j), StateAt(w, mesh, steps, j + 1);
    var arrived, after := StateAt(w, mesh, steps, k), StateAt(w, mesh, steps, k + 1);
    StateAtIs(w, mesh, steps, j);
    HasInLonger(mesh.registries[peer], before.registries[peer], pid, selector);
    StateAtNext(w, mesh, steps, j);
    ListingHas(w, before, steps[j], pid, selector);
    StatesGrow(w, mesh, steps, j + 1, k);
    assert arrived.fetched[steps[k].index] == fetched.fetched[|before.fetched|];
    StateAtNext(w, mesh, steps, k);
    DeliverHas(w, arrived, steps[k], pid, selector);
    StateAtIs(w, mesh, steps, k + 1);
    RunKeepsValid(w, after, steps[k + 1..]);
    HasInLonger(after.registries[node], Run(w, mesh, steps).registries[node], pid, selector);
  }

  lemma ListingHas(w: World, mesh: Mesh, step: Step, pid: string, selector: string)
    requires Valid(w, mesh) && step.Fetch? && Legal(w, mesh, step) && Has(mesh.registries[step.peer], pid, selector)
    ensures Apply(w, mesh, step).fetched == mesh.fetched + [Fetched(step.node, step.listing, step.peerPid)]
    ensures Has(step.listing, pid, selector)
  {
    hide Has, Unique, GoodEntry;
    Permuted(mesh.registries[step.peer], step.listing, mesh.signed);
  }

  /** d successful rounds carry every key to everyone within d edges. */
  lemma {:induction false} RoundsSpread(
      w: World, mesh: Mesh, rounds: seq<seq<Step>>, edges: set<(nat, nat)>, node: nat, origin: nat,
      pid: string, selector: string)
    requires w.Ideal() && Valid(w, mesh) && Rounds(w, mesh, rounds, edges) && Within(edges, node, origin, |rounds|)
    requires node < |mesh.registries| && origin < |mesh.registries| && Has(mesh.registries[origin], pid, selector)
    requires forall e :: e in edges ==> e.0 < |mesh.registries| && e.1 < |mesh.registries|
    ensures var end := RunRounds(w, mesh, rounds, edges);
      Valid(w, end) && |end.registries| == |mesh.registries| && end.signed == mesh.signed
      && Has(end.registries[node], pid, selector)
    decreases |rounds|
  {
    hide Valid, World.Ideal, Has, LegalRun, Run, Synced;
    if rounds != [] {
      var next := Run(w, mesh, rounds[0]);
      RunKeepsValid(w, mesh, rounds[0]);
      QuietBook(w, mesh, rounds[0]);
      if Within(edges, node, origin, |rounds| - 1) {
        HasInLonger(mesh.registries[origin], next.registries[origin], pid, selector);
        RoundsSpread(w, next, rounds[1..], edges, node, origin, pid, selector);
      } else {
        var m: nat :| (m, origin) in edges && Within(edges, node, m, |rounds| - 1);
        assert Synced(w, mesh, rounds[0], (m, origin).0, (m, origin).1);
        SyncSpreads(w, mesh, rounds[0], m, origin, pid, selector);
        RoundsSpread(w, next, rounds[1..], edges, node, m, pid, selector);
      }
    }
  }

  lemma {:induction false} RoundsKeepValid(w: World, mesh: Mesh, rounds: seq<seq<Step>>, edges: set<(nat, nat)>)
    requires w.Ideal() && Valid(w, mesh) && Rounds(w, mesh, rounds, edges)
    ensures var end := RunRounds(w, mesh, rounds, edges);
      Valid(w, end) && |end.registries| == |mesh.registries| && end.signed == mesh.signed
    decreases |rounds|
  {
    hide Valid, World.Ideal, LegalRun, Run, Synced;
    if rounds != [] {
      RunKeepsValid(w, mesh, rounds[0]);
      QuietBook(w, mesh, rounds[0]);
      RoundsKeepValid(w, Run(w, mesh, rounds[0]), rounds[1..], edges);
    }
  }

  lemma HoldsInBook(w: World, mesh: Mesh, n: nat, record: Record)
    requires Valid(w, mesh) && n < |mesh.registries| && Holds(mesh.registries[n], record)
    ensures InBook(record, mesh.signed)
  {
    hide Unique, GoodEntry;
  }

  lemma HasIsHolds(w: World, mesh: Mesh, n: nat, record: Record)
    requires Valid(w, mesh) && n < |mesh.registries| && Has(mesh.registries[n], record.pid, record.selector)
    requires InBook(record, mesh.signed)
    ensures Holds(mesh.registries[n], record)
  {
    hide Unique, GoodEntry;
  }

  /**
   After any legal run and then d successful rounds without new records, in a
   mesh where d edges join every pair of Pillars, every registry holds exactly
   the records signed so far.
   */
  lemma Convergence(
      w: World, steps: seq<Step>, rounds: seq<seq<Step>>, edges: set<(nat, nat)>, node: nat, record: Record)
    requires w.Ideal() && LegalRun(w, Start(w), steps) && Rounds(w, Run(w, Start(w), steps), rounds, edges)
    requires forall e :: e in edges ==> e.0 < |w.keys| && e.1 < |w.keys|
    requires forall x: nat, y: nat :: x < |w.keys| && y < |w.keys| ==> Within(edges, x, y, |rounds|)
    requires node < |w.keys|
    ensures var end := RunRounds(w, Run(w, Start(w), steps), rounds, edges);
      && node < |end.registries|
      && (Holds(end.registries[node], record) <==> InBook(record, Run(w, Start(w), steps).signed))
  {
    hide World.Ideal, LegalRun, Run, Rounds, RunRounds, Start, Verifies, FromBook, Unique, Has, Within, Holds,
         InBook;
    StartIsValid(w);
    RunKeepsValid(w, Start(w), steps);
    var mesh := Run(w, Start(w), steps);
    var end := RunRounds(w, mesh, rounds, edges);
    RoundsKeepValid(w, mesh, rounds, edges);
    if Holds(end.registries[node], record) {
      HoldsInBook(w, end, node, record);
    }
    if InBook(record, mesh.signed) {
      var a := SignedBy(w, mesh, record);
      RoundsSpread(w, mesh, rounds, edges, node, a, record.pid, record.selector);
      HasIsHolds(w, end, node, record);
    }
  }

  lemma SignedBy(w: World, mesh: Mesh, record: Record) returns (a: nat)
    requires Valid(w, mesh) && InBook(record, mesh.signed)
    ensures a < |w.keys| && a < |mesh.registries| && Has(mesh.registries[a], record.pid, record.selector)
  {
    hide Has, Verifies, FromBook, Unique;
    assert GoodEntry(w, mesh, mesh.signed[(record.pid, record.selector)]);
    a :| 0 <= a < |w.keys| && a < |mesh.registries| && PidOf(w.tools.library, w.keys[a]) == record.pid
         && Has(mesh.registries[a], record.pid, record.selector);
  }
}
