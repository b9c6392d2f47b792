/** What an announcement must carry to be believed, and all that a datagram changes (mesh/discovery.py). */
module AnnouncementLaws {
  import opened Wrappers
  import opened JsonText
  import opened Envelopes
  import opened EnvelopeLaws
  import opened PeerDiscovery

  /** The announcement is signed over its PID, host name, port and timestamp, and is at most a minute off. */
  predicate Authentic(lib: Library, msg: Announcement, now: int) {
    && msg.pid.Some? && msg.hostname.Some? && msg.port.Some? && msg.timestamp.Some? && msg.sig.Some?
    && lib.readInt(msg.timestamp.value).Some? && now - 60 <= lib.readInt(msg.timestamp.value).value <= now + 60
    && lib.verify(
         "REFINET-ANNOUNCE-v1" + msg.pid.value + "\n" + msg.hostname.value + "\n" + PrintInt(msg.port.value) + "\n"
         + msg.timestamp.value, msg.sig.value, msg.publicKey.GetOr(""))
  }

  /** It is signed and fresh, but misses something that the signature covers. */
  predicate Incomplete(lib: Library, msg: Announcement, now: int) {
    && msg.timestamp.Some? && msg.sig.Some? && lib.readInt(msg.timestamp.value).Some?
    && now - 60 <= lib.readInt(msg.timestamp.value).value <= now + 60
    && (msg.pid.None? || msg.hostname.None? || msg.port.None?)
  }

  lemma VerifyMeans(lib: Library, msg: Announcement, now: int)
    ensures VerifyAnnouncement(lib, msg, now) == Fresh <==> Authentic(lib, msg, now)
    ensures VerifyAnnouncement(lib, msg, now) == Raises <==> Incomplete(lib, msg, now)
  {
    hide Preimage, PrintInt;
    if msg.pid.Some? && msg.hostname.Some? && msg.port.Some? && msg.timestamp.Some? {
      FourFields("REFINET-ANNOUNCE-v1", msg.pid.value, msg.hostname.value, PrintInt(msg.port.value),
                 msg.timestamp.value);
    }
  }

  /** The datagram names another Pillar with the key that hashes to its PID. */
  predicate Identified(cfg: Config, d: Datagram, pid: string, publicKey: string) {
    && d.msg.pid == Some(pid) && d.msg.publicKey == Some(publicKey) && pid != "" && publicKey != ""
    && pid != cfg.ownPid && cfg.lib.keyHash(publicKey) == Some(pid)
  }

  /** Its timestamp is later than the last one accepted for that Pillar. */
  predicate Newer(cfg: Config, s: State, d: Datagram, pid: string) {
    pid in s.last && d.msg.timestamp.Some? && cfg.lib.readInt(d.msg.timestamp.value).Some? ==>
      s.last[pid] < cfg.lib.readInt(d.msg.timestamp.value).value
  }

  /** The row of pid says where the datagram says it is. */
  predicate IsAt(peers: map<string, Peer>, pid: string, d: Datagram) {
    && pid in peers
    && peers[pid].hostname == (
         if d.msg.hostname in {None, Some("localhost"), Some("0.0.0.0"), Some("127.0.0.1")} then d.sender
         else d.msg.hostname.value)
    && peers[pid].port == (if d.msg.port.Some? then d.msg.port.value else 7070)
    && peers[pid].name == d.msg.name && peers[pid].version == d.msg.version
  }

  /** Its key and onion address are those it had, or the datagram's if it had none or that names one. */
  predicate KeepsIdentity(before: map<string, Peer>, after: map<string, Peer>, pid: string, d: Datagram) {
    && pid in after
    && Some(after[pid].publicKey) == (if pid in before then Some(before[pid].publicKey) else d.msg.publicKey)
    && after[pid].onion == (
         if d.msg.onion.Some? && d.msg.onion != Some("") then d.msg.onion
         else if pid in before then before[pid].onion else None)
  }

  /** A datagram that does not identify another Pillar changes nothing, nor does an incomplete or replayed one. */
  lemma Ignored(cfg: Config, s: State, d: Datagram)
    requires
      || (forall pid, publicKey :: !Identified(cfg, d, pid, publicKey))
      || Incomplete(cfg.lib, d.msg, d.now)
      || (Authentic(cfg.lib, d.msg, d.now) && !Newer(cfg, s, d, d.msg.pid.value))
      || (!Authentic(cfg.lib, d.msg, d.now) && cfg.requireSigned)
    ensures After(cfg, s, d) == s
  {
    hide VerifyAnnouncement, Authentic, Stored, Upsert;
    VerifyMeans(cfg.lib, d.msg, d.now);
    AuthenticParts(cfg.lib, d.msg, d.now);
    assert Concerns(cfg.lib, cfg.ownPid, d.msg) ==> Identified(cfg, d, d.msg.pid.value, d.msg.publicKey.value);
  }

  lemma AuthenticParts(lib: Library, msg: Announcement, now: int)
    ensures Authentic(lib, msg, now) ==> msg.pid.Some? && msg.timestamp.Some? && lib.readInt(msg.timestamp.value).Some?
    ensures Authentic(lib, msg, now) ==> !Incomplete(lib, msg, now)
  {
  }

  /**
   An authentic, newer announcement of another Pillar is always accepted: the
   Pillar is where it says, its timestamp is kept, and of the other Pillars
   nothing changes but that the oldest of a full table stops being tracked.
   */
  lemma AuthenticMoves(cfg: Config, s: State, d: Datagram, pid: string, publicKey: string)
    requires Identified(cfg, d, pid, publicKey) && Authentic(cfg.lib, d.msg, d.now) && Newer(cfg, s, d, pid)
    ensures Moves(cfg, s, d)
    ensures var after := After(cfg, s, d);
      && IsAt(after.peers, pid, d) && KeepsIdentity(s.peers, after.peers, pid, d)
      && after.peers - {pid} == s.peers - {pid}
      && pid in after.last && Some(after.last[pid]) == cfg.lib.readInt(d.msg.timestamp.value)
    ensures pid in s.last || |s.order| < cfg.maxTracked ==> After(cfg, s, d).last - {pid} == s.last - {pid}
    ensures pid in s.last ==> After(cfg, s, d).order == s.order
    ensures pid !in s.last && |s.order| < cfg.maxTracked ==> After(cfg, s, d).order == s.order + [pid]
    ensures pid !in s.last && |s.order| >= cfg.maxTracked > 0 ==>
      && After(cfg, s, d).order == s.order[1..] + [pid]
      && After(cfg, s, d).last - {pid} == s.last - {s.order[0], pid}
  {
    hide VerifyAnnouncement, Authentic;
    VerifyMeans(cfg.lib, d.msg, d.now);
    AuthenticParts(cfg.lib, d.msg, d.now);
  }

  /** An unsigned or unverifiable one introduces a Pillar that is not known, when such are let in. */
  lemma UnsignedIntroduces(cfg: Config, s: State, d: Datagram, pid: string, publicKey: string)
    requires Identified(cfg, d, pid, publicKey) && !cfg.requireSigned && pid !in s.peers
    requires !Authentic(cfg.lib, d.msg, d.now) && !Incomplete(cfg.lib, d.msg, d.now)
    ensures var after := After(cfg, s, d);
      && IsAt(after.peers, pid, d) && KeepsIdentity(s.peers, after.peers, pid, d)
      && after.peers - {pid} == s.peers - {pid} && after.last == s.last && after.order == s.order
  {
    hide VerifyAnnouncement, Authentic, Incomplete;
    VerifyMeans(cfg.lib, d.msg, d.now);
  }

  /** It never moves one that is known: only name and version are taken from it. */
  lemma UnsignedStays(cfg: Config, s: State, d: Datagram, pid: string, publicKey: string)
    requires Identified(cfg, d, pid, publicKey) && !cfg.requireSigned && pid in s.peers
    requires !Authentic(cfg.lib, d.msg, d.now) && !Incomplete(cfg.lib, d.msg, d.now)
    ensures After(cfg, s, d) == s.(peers :=
      s.peers[pid := s.peers[pid].(name := d.msg.name, version := d.msg.version)])
  {
    hide VerifyAnnouncement, Authentic, Incomplete;
    VerifyMeans(cfg.lib, d.msg, d.now);
  }
}
