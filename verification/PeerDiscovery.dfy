/** Announcements on the local network, and the replay guard that decides which peers may move (mesh/discovery.py). */
module PeerDiscovery {
  import opened Collections
  import opened Wrappers
  import opened JsonText
  import opened Envelopes

  const MAX_SKEW := 60
  const DEFAULT_PORT := 7070
  const ANNOUNCE := "REFINET-ANNOUNCE-v1"

  /** A parsed announcement, any field of which may be missing; timestamp is its text. */
  datatype Announcement = Announcement(
    pid: Option<string>, publicKey: Option<string>, hostname: Option<string>, port: Option<int>,
    timestamp: Option<string>, sig: Option<string>, name: Option<string>, version: Option<string>,
    onion: Option<string>)

  datatype Reason = Fresh | NotSigned | NoTimestamp | Stale | BadSignature | Raises

  /** announce_preimage_fields, as text; None where a missing field raises. */
  function PreimageFields(msg: Announcement): Option<seq<string>> {
    match (msg.pid, msg.hostname, msg.port, msg.timestamp)
    case (Some(pid), Some(hostname), Some(port), Some(timestamp)) => Some([pid, hostname, PrintInt(port), timestamp])
    case _ => None
  }

  function Timestamp(lib: Library, msg: Announcement): Option<int> {
    match msg.timestamp
    case None => None
    case Some(text) => lib.readInt(text)
  }

  /** verify_announce_signature. */
  function VerifyAnnouncement(lib: Library, msg: Announcement, now: int): Reason {
    if msg.sig.None? then NotSigned
    else
      match Timestamp(lib, msg)
      case None => NoTimestamp
      case Some(ts) =>
        if now - ts > MAX_SKEW || ts - now > MAX_SKEW then Stale
        else
          match PreimageFields(msg)
          case None => Raises
          case Some(fields) =>
            if lib.verify(Preimage(ANNOUNCE, fields), msg.sig.value, msg.publicKey.GetOr("")) then Fresh
            else BadSignature
  }

  /** A peer's row. */
  datatype Peer = Peer(publicKey: string, hostname: string, port: int, name: Option<string>, version: Option<string>,
                       onion: Option<string>)

  /** Where a peer is reached. */
  datatype Address = Address(hostname: string, port: int, onion: Option<string>)

  function AddressOf(p: Peer): Address {
    Address(p.hostname, p.port, p.onion)
  }

  datatype Decision = Decision(accept: bool, mayMove: bool)

  predicate IsLocal(hostname: string) {
    hostname in ["localhost", "0.0.0.0", "127.0.0.1"]
  }

  /** upsert_peer keeps the onion address it does not name. */
  function Upsert(
      peers: map<string, Peer>, pid: string, publicKey: string, hostname: string, port: int,
      name: Option<string>, version: Option<string>): map<string, Peer> {
    if pid in peers then peers[pid := peers[pid].(hostname := hostname, port := port, name := name, version := version)]
    else peers[pid := Peer(publicKey, hostname, port, name, version, None)]
  }

  /** The peers table once an accepted announcement has said where its Pillar is. */
  function Stored(peers: map<string, Peer>, msg: Announcement, pid: string, publicKey: string, sender: string)
    : map<string, Peer> {
    var announced := msg.hostname.GetOr(sender);
    var upserted := Upsert(peers, pid, publicKey, if IsLocal(announced) then sender else announced,
                           msg.port.GetOr(DEFAULT_PORT), msg.name, msg.version);
    if msg.onion.GetOr("") != "" then upserted[pid := upserted[pid].(onion := msg.onion)] else upserted
  }

  /** What accept_announcement decides; None where it raises. */
  function Decide(lib: Library, last: map<string, int>, requireSigned: bool, msg: Announcement, pid: string, now: int)
    : Option<Decision> {
    var v := VerifyAnnouncement(lib, msg, now);
    if v == Raises then None
    else if v == Fresh then
      var replayed := pid in last && Timestamp(lib, msg).Some? && Timestamp(lib, msg).value <= last[pid];
      Some(Decision(!replayed, !replayed))
    else Some(Decision(!requireSigned, false))
  }

  /** The message names another Pillar with the key that hashes to its PID. */
  predicate Concerns(lib: Library, ownPid: string, msg: Announcement) {
    var pid, publicKey := msg.pid.GetOr(""), msg.publicKey.GetOr("");
    pid != "" && publicKey != "" && pid != ownPid && lib.PidMatchesKey(pid, publicKey)
  }

  /** An accepted signed announcement, with who sent it and when. */
  datatype Move = Move(pid: string, ts: int, now: int, sender: string, msg: Announcement)

  /** It verified under the key that hashes to its PID, and was fresh. */
  ghost predicate Genuine(lib: Library, m: Move) {
    && m.msg.pid == Some(m.pid) && m.msg.publicKey.Some? && lib.PidMatchesKey(m.pid, m.msg.publicKey.value)
    && Timestamp(lib, m.msg) == Some(m.ts) && m.now - MAX_SKEW <= m.ts <= m.now + MAX_SKEW
    && m.msg.sig.Some? && PreimageFields(m.msg).Some?
    && lib.verify(Preimage(ANNOUNCE, PreimageFields(m.msg).value), m.msg.sig.value, m.msg.publicKey.value)
  }

  lemma VerifiedIsGenuine(lib: Library, msg: Announcement, pid: string, publicKey: string, now: int, sender: string)
    requires msg.pid == Some(pid) && msg.publicKey == Some(publicKey) && lib.PidMatchesKey(pid, publicKey)
    ensures VerifyAnnouncement(lib, msg, now) == Fresh <==>
      Timestamp(lib, msg).Some? && Genuine(lib, Move(pid, Timestamp(lib, msg).value, now, sender, msg))
  {
    hide Preimage;
  }

  // ----- where a move takes a peer

  /** The address that an announcement from sender gives; it keeps an onion address that it does not name. */
  function Destination(msg: Announcement, sender: string, a: Address): Address {
    var announced := msg.hostname.GetOr(sender);
    Address(if IsLocal(announced) then sender else announced, msg.port.GetOr(DEFAULT_PORT),
            if msg.onion.GetOr("") != "" then msg.onion else a.onion)
  }

  /** Where pid is after the moves, having been at a. */
  function AddressAfter(a: Address, pid: string, moves: seq<Move>): Address {
    if moves == [] then a
    else
      var before, m := AddressAfter(a, pid, moves[..|moves| - 1]), moves[|moves| - 1];
      if m.pid == pid then Destination(m.msg, m.sender, before) else before
  }

  /** A peer without a move is where it was. */
  lemma {:induction false} NeverMoved(a: Address, pid: string, moves: seq<Move>)
    requires forall i :: 0 <= i < |moves| ==> moves[i].pid != pid
    ensures AddressAfter(a, pid, moves) == a
  {
    if moves != [] {
      NeverMoved(a, pid, moves[..|moves| - 1]);
    }
  }

  /** A peer that has moved is where its last move took it. */
  lemma {:induction false} LastMoveDecides(a: Address, pid: string, moves: seq<Move>, i: nat)
    requires i < |moves| && moves[i].pid == pid && forall j :: i < j < |moves| ==> moves[j].pid != pid
    ensures AddressAfter(a, pid, moves) == Destination(moves[i].msg, moves[i].sender, AddressAfter(a, pid, moves[..i]))
    decreases |moves|
  {
    hide Destination;
    if i < |moves| - 1 {
      var init := moves[..|moves| - 1];
      LastMoveDecides(a, pid, init, i);
      assert init[..i] == moves[..i];
    }
  }

  /** The stored hostname is the signed one exactly when that is no local name, or is the sender's own. */
  lemma SignedHostname(lib: Library, m: Move, a: Address)
    requires Genuine(lib, m)
    ensures m.msg.hostname.Some? && m.msg.port.Some? && Destination(m.msg, m.sender, a).port == m.msg.port.value
    ensures var signed := m.msg.hostname.value;
      Destination(m.msg, m.sender, a).hostname == signed <==> !IsLocal(signed) || m.sender == signed
  {
    hide IsLocal, Preimage;
  }

  /** The onion address is not signed: changing it does not change the verdict. */
  lemma OnionUnsigned(lib: Library, msg: Announcement, onion: Option<string>, now: int)
    ensures VerifyAnnouncement(lib, msg.(onion := onion), now) == VerifyAnnouncement(lib, msg, now)
  {
    hide Preimage;
  }

  // ----- the listener's state and its steps

  datatype Config = Config(lib: Library, ownPid: string, requireSigned: bool, maxTracked: nat)

  /** The last accepted timestamp of each tracked PID, oldest entry first, and the peers table. */
  datatype State = State(order: seq<string>, last: map<string, int>, peers: map<string, Peer>)

  /** What reached the listener: a message, its sender and the time. */
  datatype Datagram = Datagram(msg: Announcement, sender: string, now: int)

  /** The PID that the datagram's message gives. */
  function PidOf(d: Datagram): string {
    d.msg.pid.GetOr("")
  }

  /** The datagram lets its Pillar move. */
  predicate Moves(cfg: Config, s: State, d: Datagram) {
    && Concerns(cfg.lib, cfg.ownPid, d.msg)
    && Decide(cfg.lib, s.last, cfg.requireSigned, d.msg, PidOf(d), d.now) == Some(Decision(true, true))
  }

  lemma MovesIsGenuine(cfg: Config, s: State, d: Datagram)
    requires Moves(cfg, s, d)
    ensures Timestamp(cfg.lib, d.msg).Some? && d.msg.pid == Some(PidOf(d)) && Genuine(cfg.lib, MoveOf(cfg, d))
    ensures PidOf(d) in s.last ==> s.last[PidOf(d)] < MoveOf(cfg, d).ts
  {
    hide VerifyAnnouncement, Genuine, Timestamp;
    VerifiedIsGenuine(cfg.lib, d.msg, PidOf(d), d.msg.publicKey.GetOr(""), d.now, d.sender);
  }

  function MoveOf(cfg: Config, d: Datagram): Move {
    Move(PidOf(d), Timestamp(cfg.lib, d.msg).GetOr(0), d.now, d.sender, d.msg)
  }

  /** The table's order once pid's timestamp is accepted: the oldest entry makes room for a new one. */
  function OrderAfter(max: nat, s: State, pid: string): seq<string> {
    if pid in s.last then s.order
    else if |s.order| < max || s.order == [] then s.order + [pid]
    else s.order[1..] + [pid]
  }

  function LastAfter(max: nat, s: State, pid: string, ts: int): map<string, int> {
    if pid in s.last || |s.order| < max || s.order == [] then s.last[pid := ts]
    else (s.last - {s.order[0]})[pid := ts]
  }

  function PeersAfter(cfg: Config, s: State, d: Datagram): map<string, Peer> {
    var pid, publicKey := PidOf(d), d.msg.publicKey.GetOr("");
    if !Concerns(cfg.lib, cfg.ownPid, d.msg) then s.peers
    else
      match Decide(cfg.lib, s.last, cfg.requireSigned, d.msg, pid, d.now)
      case None => s.peers
      case Some(decision) =>
        if !decision.accept then s.peers
        else if pid in s.peers && !decision.mayMove then
          Upsert(s.peers, pid, publicKey, s.peers[pid].hostname, s.peers[pid].port, d.msg.name, d.msg.version)
        else Stored(s.peers, d.msg, pid, publicKey, d.sender)
  }

  /** The state after a datagram. */
  function After(cfg: Config, s: State, d: Datagram): State {
    if Moves(cfg, s, d) then
      State(OrderAfter(cfg.maxTracked, s, PidOf(d)),
            LastAfter(cfg.maxTracked, s, PidOf(d), MoveOf(cfg, d).ts), PeersAfter(cfg, s, d))
    else s.(peers := PeersAfter(cfg, s, d))
  }

  /** The state after the datagrams, in order. */
  function Run(cfg: Config, s: State, ds: seq<Datagram>): State {
    if ds == [] then s else After(cfg, Run(cfg, s, ds[..|ds| - 1]), ds[|ds| - 1])
  }

  /** The moves that the datagrams make, in order. */
  function MovesOf(cfg: Config, s: State, ds: seq<Datagram>): seq<Move> {
    if ds == [] then []
    else
      var init, d := ds[..|ds| - 1], ds[|ds| - 1];
      MovesOf(cfg, s, init) + (if Moves(cfg, Run(cfg, s, init), d) then [MoveOf(cfg, d)] else [])
  }

  /** A run can be taken up at any point. */
  lemma {:induction false} RunsCompose(cfg: Config, s: State, ds: seq<Datagram>, more: seq<Datagram>)
    ensures Run(cfg, s, ds + more) == Run(cfg, Run(cfg, s, ds), more)
    ensures MovesOf(cfg, s, ds + more) == MovesOf(cfg, s, ds) + MovesOf(cfg, Run(cfg, s, ds), more)
  {
    hide After, Moves, MoveOf;
    if more == [] {
      assert ds + more == ds;
    } else {
      var init := more[..|more| - 1];
      RunsCompose(cfg, s, ds, init);
      assert (ds + more)[..|ds + more| - 1] == ds + init;
    }
  }

  // ----- the table of timestamps

  /** The table is bounded, and its order lists each tracked PID once. */
  predicate Valid(max: nat, s: State) {
    && 1 <= max && |s.order| <= max && Distinct(s.order)
    && (forall pid :: pid in s.order ==> pid in s.last)
    && (forall pid :: pid in s.last ==> pid in s.order)
  }

  lemma OldestDropped(s: State)
    requires Distinct(s.order) && s.order != []
    requires forall pid :: pid in s.order <==> pid in s.last
    ensures Distinct(s.order[1..]) && s.order[0] !in s.order[1..]
    ensures forall pid :: pid in s.order[1..] <==> pid in s.last && pid != s.order[0]
  {
    forall pid | pid in s.order && pid != s.order[0]
      ensures pid in s.order[1..]
    {
      var i :| 0 <= i < |s.order| && s.order[i] == pid;
      assert s.order[1..][i - 1] == pid;
    }
  }

  lemma TrackKeepsValid(max: nat, s: State, pid: string, ts: int)
    requires Valid(max, s)
    ensures Valid(max, s.(order := OrderAfter(max, s, pid), last := LastAfter(max, s, pid, ts)))
  {
    hide Distinct;
    if pid !in s.last {
      DistinctSnoc(s.order, pid);
      if s.order != [] {
        OldestDropped(s);
        DistinctSnoc(s.order[1..], pid);
      }
    }
  }

  /** In every run the table stays within its bound. */
  lemma {:induction false} RunKeepsValid(cfg: Config, s: State, ds: seq<Datagram>)
    requires Valid(cfg.maxTracked, s)
    ensures Valid(cfg.maxTracked, Run(cfg, s, ds))
  {
    hide Valid, OrderAfter, LastAfter, Moves, PeersAfter;
    if ds != [] {
      var init, d := ds[..|ds| - 1], ds[|ds| - 1];
      RunKeepsValid(cfg, s, init);
      var before := Run(cfg, s, init);
      TrackKeepsValid(cfg.maxTracked, before, PidOf(d), MoveOf(cfg, d).ts);
      PeersDoNotMatter(cfg.maxTracked, before, PeersAfter(cfg, before, d));
      var after := before.(order := OrderAfter(cfg.maxTracked, before, PidOf(d)),
                           last := LastAfter(cfg.maxTracked, before, PidOf(d), MoveOf(cfg, d).ts));
      PeersDoNotMatter(cfg.maxTracked, after, PeersAfter(cfg, before, d));
    }
  }

  lemma PeersDoNotMatter(max: nat, s: State, peers: map<string, Peer>)
    ensures Valid(max, s.(peers := peers)) == Valid(max, s)
  {
  }

  /** A PID stops being tracked only when it is the oldest, the table is full, and a new PID is accepted. */
  lemma EvictedIsOldest(cfg: Config, s: State, d: Datagram, pid: string)
    requires Valid(cfg.maxTracked, s) && pid in s.last && pid !in After(cfg, s, d).last
    ensures Moves(cfg, s, d) && PidOf(d) !in s.last && |s.order| == cfg.maxTracked && s.order[0] == pid
  {
    hide Moves, PeersAfter;
  }

  /** While a PID stays tracked its timestamp does not fall, and a move of it raises it. */
  lemma {:induction false} TimestampsRise(cfg: Config, s: State, ds: seq<Datagram>, pid: string)
    requires pid in s.last && forall k :: 0 <= k <= |ds| ==> pid in Run(cfg, s, ds[..k]).last
    ensures pid in Run(cfg, s, ds).last && s.last[pid] <= Run(cfg, s, ds).last[pid]
  {
    hide Moves, PeersAfter, MoveOf;
    assert ds[..|ds|] == ds;
    if ds != [] {
      var init, d := ds[..|ds| - 1], ds[|ds| - 1];
      forall k | 0 <= k <= |init|
        ensures pid in Run(cfg, s, init[..k]).last
      {
        assert init[..k] == ds[..k];
      }
      TimestampsRise(cfg, s, init, pid);
      var before := Run(cfg, s, init);
      assert ds[..|init|] == init;
      if Moves(cfg, before, d) {
        MovesIsGenuine(cfg, before, d);
      }
    }
  }

  /** Two moves of a PID that is not evicted between them have increasing timestamps. */
  lemma MovesIncrease(cfg: Config, s: State, ds: seq<Datagram>, i: nat, j: nat)
    requires i < j < |ds| && PidOf(ds[i]) == PidOf(ds[j])
    requires Moves(cfg, Run(cfg, s, ds[..i]), ds[i]) && Moves(cfg, Run(cfg, s, ds[..j]), ds[j])
    requires forall k :: i < k <= j ==> PidOf(ds[i]) in Run(cfg, s, ds[..k]).last
    ensures MoveOf(cfg, ds[i]).ts < MoveOf(cfg, ds[j]).ts
  {
    hide Moves, PeersAfter, MoveOf, Run, PidOf;
    var pid, start, between := PidOf(ds[i]), Run(cfg, s, ds[..i + 1]), ds[i + 1..j];
    RunNext(cfg, s, ds, i);
    forall k | 0 <= k <= |between|
      ensures pid in Run(cfg, start, between[..k]).last
    {
      var upTo := i + 1 + k;
      assert ds[..i + 1] + between[..k] == ds[..upTo];
      RunsCompose(cfg, s, ds[..i + 1], between[..k]);
      assert pid in Run(cfg, s, ds[..upTo]).last;
    }
    assert between[..0] == [];
    RunNone(cfg, start);
    TimestampsRise(cfg, start, between, pid);
    assert ds[..i + 1] + between == ds[..j];
    RunsCompose(cfg, s, ds[..i + 1], between);
    MovesIsGenuine(cfg, Run(cfg, s, ds[..j]), ds[j]);
  }

  lemma RunNone(cfg: Config, s: State)
    ensures Run(cfg, s, []) == s
  {
  }

  lemma RunNext(cfg: Config, s: State, ds: seq<Datagram>, i: nat)
    requires i < |ds|
    ensures Run(cfg, s, ds[..i + 1]) == After(cfg, Run(cfg, s, ds[..i]), ds[i])
  {
    assert ds[..i + 1][..i] == ds[..i];
  }

  // ----- the peers

  /** A datagram drops no peer, and changes the address of none but the one that it lets move. */
  lemma AddressesAfter(cfg: Config, s: State, d: Datagram)
    ensures var after := PeersAfter(cfg, s, d);
      forall pid :: pid in s.peers ==>
        && pid in after && after[pid].publicKey == s.peers[pid].publicKey
        && AddressOf(after[pid]) ==
           if Moves(cfg, s, d) && PidOf(d) == pid then Destination(d.msg, d.sender, AddressOf(s.peers[pid]))
           else AddressOf(s.peers[pid])
  {
    hide VerifyAnnouncement, Timestamp, IsLocal;
  }

  /** A new peer is one that its datagram names, with the key that hashes to its PID. */
  lemma NewPeers(cfg: Config, s: State, d: Datagram, pid: string)
    requires pid in PeersAfter(cfg, s, d) && pid !in s.peers
    ensures d.msg.pid == Some(pid) && pid != cfg.ownPid
    ensures cfg.lib.PidMatchesKey(pid, PeersAfter(cfg, s, d)[pid].publicKey)
    ensures AddressOf(PeersAfter(cfg, s, d)[pid]) == Destination(d.msg, d.sender, Address("", 0, None))
  {
    hide VerifyAnnouncement, Timestamp, IsLocal;
  }

  /**
   From any state of a run on, a peer known there is where its own moves, in
   order, have taken it.
   */
  lemma {:induction false} Tracked(cfg: Config, s: State, ds: seq<Datagram>, pid: string)
    requires pid in s.peers
    ensures pid in Run(cfg, s, ds).peers && Run(cfg, s, ds).peers[pid].publicKey == s.peers[pid].publicKey
    ensures AddressOf(Run(cfg, s, ds).peers[pid]) == AddressAfter(AddressOf(s.peers[pid]), pid, MovesOf(cfg, s, ds))
  {
    hide PeersAfter, Moves, Destination, AddressOf;
    if ds != [] {
      var init, d := ds[..|ds| - 1], ds[|ds| - 1];
      Tracked(cfg, s, init, pid);
      AddressesAfter(cfg, Run(cfg, s, init), d);
      var moves := MovesOf(cfg, s, init);
      assert (moves + [MoveOf(cfg, d)])[..|moves|] == moves;
      assert moves + [] == moves;
    }
  }

  /** Every move of a run is genuine. */
  lemma {:induction false} MovesAreGenuine(cfg: Config, s: State, ds: seq<Datagram>)
    ensures forall m :: m in MovesOf(cfg, s, ds) ==> Genuine(cfg.lib, m)
  {
    hide Genuine, Moves;
    if ds != [] {
      var init, d := ds[..|ds| - 1], ds[|ds| - 1];
      MovesAreGenuine(cfg, s, init);
      if Moves(cfg, Run(cfg, s, init), d) {
        MovesIsGenuine(cfg, Run(cfg, s, init), d);
      }
    }
  }

  // ----- the listener

  class Listener {
    const cfg: Config
    var order: seq<string>
    var last: map<string, int>
    var peers: map<string, Peer>

    ghost function Now(): State
      reads this
    {
      State(order, last, peers)
    }

    constructor (cfg: Config, peers: map<string, Peer>)
      ensures this.cfg == cfg && Now() == State([], map[], peers)
      ensures cfg.maxTracked >= 1 ==> Valid(cfg.maxTracked, Now())
    {
      this.cfg, this.peers := cfg, peers;
      order, last := [], map[];
    }

    /** accept_announcement of a message whose PID matches its key; None where it raises. */
    method Accept(d: Datagram) returns (decision: Option<Decision>)
      requires Valid(cfg.maxTracked, Now()) && Concerns(cfg.lib, cfg.ownPid, d.msg)
      modifies this`order, this`last
      ensures decision == Decide(cfg.lib, old(last), cfg.requireSigned, d.msg, PidOf(d), d.now)
      ensures Now() == After(cfg, old(Now()), d).(peers := peers)
    {
      hide VerifyAnnouncement, Timestamp, Concerns;
      var v := VerifyAnnouncement(cfg.lib, d.msg, d.now);
      if v == Raises {
        return None;
      }
      if v == Fresh {
        var pid := PidOf(d);
        FreshHasTimestamp(cfg.lib, d.msg, d.now);
        var ts := Timestamp(cfg.lib, d.msg).value;
        if pid in last && ts <= last[pid] {
          return Some(Decision(false, false));
        }
        if pid !in last && |order| >= cfg.maxTracked {
          last := last - {order[0]};
          order := order[1..];
        }
        order := if pid in last then order else order + [pid];
        last := last[pid := ts];
        return Some(Decision(true, true));
      }
      decision := Some(Decision(!cfg.requireSigned, false));
    }

    /** The listener's handling of one datagram. */
    method Receive(d: Datagram)
      requires Valid(cfg.maxTracked, Now())
      modifies this`order, this`last, this`peers
      ensures Now() == After(cfg, old(Now()), d)
    {
      hide Decide, Stored, Valid, OrderAfter, LastAfter;
      var pid, publicKey := PidOf(d), d.msg.publicKey.GetOr("");
      if pid == "" || publicKey == "" || pid == cfg.ownPid {
        return;
      }
      if !cfg.lib.PidMatchesKey(pid, publicKey) {
        return;
      }
      var isNew := pid !in peers;
      var decision := Accept(d);
      if decision.None? || !decision.value.accept {
        return;
      }
      if !isNew && !decision.value.mayMove {
        peers := Upsert(peers, pid, publicKey, peers[pid].hostname, peers[pid].port, d.msg.name, d.msg.version);
        return;
      }
      Store(d.msg, pid, publicKey, d.sender);
    }

    /** The rest of the handling: store where an accepted announcement says its Pillar is. */
    method Store(msg: Announcement, pid: string, publicKey: string, sender: string)
      modifies this`peers
      ensures peers == Stored(old(peers), msg, pid, publicKey, sender)
      ensures AddressOf(peers[pid]) == Destination(msg, sender,
        if pid in old(peers) then AddressOf(old(peers)[pid]) else Address("", 0, None))
      ensures peers - {pid} == old(peers) - {pid}
    {
      hide IsLocal;
      var hostname := msg.hostname.GetOr(sender);
      if IsLocal(hostname) {
        hostname := sender;
      }
      peers := Upsert(peers, pid, publicKey, hostname, msg.port.GetOr(DEFAULT_PORT), msg.name, msg.version);
      if msg.onion.GetOr("") != "" {
        peers := peers[pid := peers[pid].(onion := msg.onion)];
      }
    }

    /** run: every datagram in order. */
    method Listen(ds: seq<Datagram>)
      requires Valid(cfg.maxTracked, Now())
      modifies this`order, this`last, this`peers
      ensures Now() == Run(cfg, old(Now()), ds) && Valid(cfg.maxTracked, Now())
    {
      hide After, Valid, Run;
      RunNone(cfg, Now());
      assert ds[..0] == [];
      for i := 0 to |ds|
        invariant Now() == Run(cfg, old(Now()), ds[..i])
      {
        RunKeepsValid(cfg, old(Now()), ds[..i]);
        RunNext(cfg, old(Now()), ds, i);
        Receive(ds[i]);
      }
      assert ds[..|ds|] == ds;
      RunKeepsValid(cfg, old(Now()), ds);
    }
  }

  lemma FreshHasTimestamp(lib: Library, msg: Announcement, now: int)
    requires VerifyAnnouncement(lib, msg, now) == Fresh
    ensures Timestamp(lib, msg).Some?
  {
  }
}
