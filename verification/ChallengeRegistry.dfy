/**
 The challenge registry, the sessions and bindings it lets through, and what
 becomes of them (db/live_db.py, auth/session.py, crypto/binding.py).
 */
module ChallengeRegistry {
  import opened Collections
  import opened Wrappers
  import opened SiweMessages
  import opened Envelopes

  const LOGIN_TTL := 900
  const BINDING_TTL := 600
  const SESSION_SECONDS := 86400
  const SECONDS_PER_DAY := 86400

  /** The library calls: ecrecover and str.lower beside those of the other modules. */
  datatype Crypto = Crypto(library: Library, clockwork: Clockwork,
                           recovers: (string, string, string) -> bool, lower: string -> string)

  /** A row of siwe_nonces. */
  datatype Nonce = Nonce(purpose: Purpose, pid: string, address: string, chainId: int,
                         issuedAt: int, expiresAt: int, spentAt: Option<int>)

  /** A row of siwe_sessions. */
  datatype Session = Session(id: string, address: string, nonce: string, issuedAt: int, expiresAt: int,
                             signature: string, pid: string, revoked: bool)

  /** A row of pid_bindings. */
  datatype Binding = Binding(id: string, pid: string, publicKey: string, address: string, chainId: int,
                             message: string, signature: string, pidSignature: string, role: string)

  // ----- nonces

  datatype Outcome = Accepted | NoNonce | NotIssued | AlreadyUsed | OtherPillar | OtherPurpose | Expired

  /** What consume_siwe_nonce answers. */
  function Ruling(nonces: map<string, Nonce>, nonce: string, purpose: Purpose, pid: string, now: int): Outcome {
    if nonce == "" then NoNonce
    else if nonce !in nonces then NotIssued
    else
      var row := nonces[nonce];
      if row.spentAt.Some? then AlreadyUsed
      else if row.pid != pid then OtherPillar
      else if row.purpose != purpose then OtherPurpose
      else if now > row.expiresAt then Expired
      else Accepted
  }

  /** The registry once it has answered: the nonce is spent whatever the answer. */
  function Spend(nonces: map<string, Nonce>, nonce: string, now: int): map<string, Nonce> {
    if nonce != "" && nonce in nonces && nonces[nonce].spentAt.None?
    then nonces[nonce := nonces[nonce].(spentAt := Some(now))]
    else nonces
  }

  /** What became of a challenge when it was issued, and when it was accepted. */
  datatype Issue = Issue(purpose: Purpose, pid: string, issuedAt: int, expiresAt: int)

  predicate Matches(row: Nonce, issue: Issue) {
    && row.purpose == issue.purpose && row.pid == issue.pid
    && row.issuedAt == issue.issuedAt && row.expiresAt == issue.expiresAt
  }

  /** Every row is a challenge as it was issued. */
  ghost predicate Rows(nonces: map<string, Nonce>, issued: map<string, Issue>) {
    forall n :: n in nonces ==> n in issued && Matches(nonces[n], issued[n])
  }

  /** The nonce can not be accepted any more. */
  predicate Used(nonces: map<string, Nonce>, n: string) {
    n in nonces ==> nonces[n].spentAt.Some?
  }

  /** Every accepted nonce was issued, was in its lifetime when accepted, and can not be accepted again. */
  ghost predicate Redemptions(
      redeemed: map<string, int>, attempted: set<string>, nonces: map<string, Nonce>,
      issued: map<string, Issue>) {
    && (forall n :: n in redeemed ==>
          n in issued && n in attempted && issued[n].issuedAt <= redeemed[n] <= issued[n].expiresAt)
    && (forall n :: n in attempted ==> n in issued && Used(nonces, n))
  }

  // ----- sessions and bindings

  /** The nonces of the sessions are accepted login challenges of the session's Pillar, each used once. */
  ghost predicate SessionsRedeem(sessions: seq<Session>, redeemed: map<string, int>, issued: map<string, Issue>) {
    && (forall i :: 0 <= i < |sessions| ==>
          sessions[i].nonce in redeemed && sessions[i].nonce in issued
          && issued[sessions[i].nonce].purpose == ForLogin && issued[sessions[i].nonce].pid == sessions[i].pid)
    && (forall i, j :: 0 <= i < j < |sessions| ==>
          sessions[i].nonce != sessions[j].nonce && sessions[i].id != sessions[j].id)
  }

  /** The same of the bindings, whose challenges were binding challenges. */
  ghost predicate BindingsRedeem(bindings: seq<Binding>, redeemed: map<string, int>, issued: map<string, Issue>) {
    && (forall i :: 0 <= i < |bindings| ==>
          var n := ParseNonce(bindings[i].message);
          n in redeemed && n in issued && issued[n].purpose == ForBinding && issued[n].pid == bindings[i].pid)
    && (forall i, j :: 0 <= i < j < |bindings| ==>
          ParseNonce(bindings[i].message) != ParseNonce(bindings[j].message) && bindings[i].id != bindings[j].id)
  }

  /** Every binding states its own Pillar and role, and both of its signatures were checked or made. */
  ghost predicate BindingsStated(c: Crypto, bindings: seq<Binding>) {
    forall i :: 0 <= i < |bindings| ==> Stated(c, bindings[i])
  }

  /** compute_binding_id. */
  function BindingId(c: Crypto, pid: string, address: string, nonce: string): string {
    c.library.sha256(pid + c.lower(address) + nonce)
  }

  const BINDING_DOMAIN := "REFINET-BINDING-v1"

  ghost predicate Stated(c: Crypto, b: Binding) {
    && ParseBinding(b.message) == Some((b.pid, b.role)) && NamesPid(b.message, b.pid)
    && b.id == BindingId(c, b.pid, b.address, ParseNonce(b.message))
    && c.library.verify(Preimage(BINDING_DOMAIN, [b.id]), b.pidSignature, b.publicKey)
  }

  /** is_legacy_binding. */
  predicate Legacy(b: Binding) {
    ParseBinding(b.message).None?
  }

  datatype BindingVerdict =
    | Valid
    | ValidLegacy
    | IdMismatch
    | OtherPid
    | OtherRole
    | WalletMismatch
    | BadCounterSignature

  /** verify_binding, which never asks a contract. */
  function VerifyBinding(c: Crypto, b: Binding): BindingVerdict {
    if BindingId(c, b.pid, b.address, ParseNonce(b.message)) != b.id then IdMismatch
    else
      var stated := ParseBinding(b.message);
      if stated.Some? && stated.value.0 != b.pid then OtherPid
      else if stated.Some? && stated.value.1 != b.role then OtherRole
      else if !c.recovers(b.message, b.signature, b.address) then WalletMismatch
      else if !c.library.verify(
                 if stated.None? then b.id else Preimage(BINDING_DOMAIN, [b.id]), b.pidSignature, b.publicKey)
      then BadCounterSignature
      else if stated.None? then ValidLegacy else Valid
  }

  /** A stored binding verifies exactly when ecrecover answers for its wallet; a contract wallet's does not. */
  lemma StatedVerifiesIff(c: Crypto, b: Binding)
    requires Stated(c, b)
    ensures VerifyBinding(c, b) == (if c.recovers(b.message, b.signature, b.address) then Valid else WalletMismatch)
  {
    hide ParseBinding, ParseNonce, NamesPid, Preimage;
  }

  function First(bindings: seq<Binding>, pid: string, legacyToo: bool): Option<Binding> {
    if bindings == [] then None
    else if bindings[0].pid == pid && bindings[0].role == "deployer" && (legacyToo || !Legacy(bindings[0]))
    then Some(bindings[0])
    else First(bindings[1..], pid, legacyToo)
  }

  /** get_deployer_binding. */
  function DeployerBinding(bindings: seq<Binding>, pid: string): Option<Binding> {
    var stated := First(bindings, pid, false);
    if stated.Some? then stated else First(bindings, pid, true)
  }

  lemma {:induction false} FirstStays(bindings: seq<Binding>, more: seq<Binding>, pid: string, legacyToo: bool)
    requires bindings <= more && First(bindings, pid, legacyToo).Some?
    ensures First(more, pid, legacyToo) == First(bindings, pid, legacyToo)
  {
    hide Legacy;
    assert more[0] == bindings[0];
    if First(bindings[1..], pid, legacyToo).Some? {
      FirstStays(bindings[1..], more[1..], pid, legacyToo);
    }
  }

  /** Once a Pillar has a binding that states its deployer, that one is canonical for ever. */
  lemma DeployerStays(bindings: seq<Binding>, more: seq<Binding>, pid: string)
    requires bindings <= more && First(bindings, pid, false).Some?
    ensures DeployerBinding(more, pid) == DeployerBinding(bindings, pid) == First(bindings, pid, false)
  {
    FirstStays(bindings, more, pid, false);
  }

  /** validate_session. */
  function Validate(sessions: seq<Session>, id: string, now: int): Option<Session> {
    if sessions == [] then None
    else if sessions[0].id == id && !sessions[0].revoked then
      if now > sessions[0].expiresAt then None else Some(sessions[0])
    else Validate(sessions[1..], id, now)
  }

  /** Sessions are added and revoked, and otherwise unchanged. */
  predicate Continues(before: seq<Session>, after: seq<Session>) {
    && |before| <= |after|
    && forall i :: 0 <= i < |before| ==> after[i] == before[i] || after[i] == before[i].(revoked := true)
  }

  predicate UniqueIds(sessions: seq<Session>) {
    forall i, j :: 0 <= i < j < |sessions| ==> sessions[i].id != sessions[j].id
  }

  lemma {:induction false} ValidateMeans(sessions: seq<Session>, i: nat, now: int)
    requires UniqueIds(sessions) && i < |sessions|
    ensures Validate(sessions, sessions[i].id, now)
            == if !sessions[i].revoked && now <= sessions[i].expiresAt then Some(sessions[i]) else None
    decreases i
  {
    if i > 0 {
      ValidateMeans(sessions[1..], i - 1, now);
    } else {
      ValidateOther(sessions[1..], sessions[0].id, now);
    }
  }

  lemma {:induction false} ValidateOther(sessions: seq<Session>, id: string, now: int)
    requires forall i :: 0 <= i < |sessions| ==> sessions[i].id != id
    ensures Validate(sessions, id, now) == None
  {
    if sessions != [] {
      ValidateOther(sessions[1..], id, now);
    }
  }

  /** A session refused once is refused for ever. */
  lemma RefusedForEver(before: seq<Session>, after: seq<Session>, i: nat, now: int, later: int)
    requires Continues(before, after) && UniqueIds(before) && UniqueIds(after) && i < |before| && now <= later
    requires Validate(before, before[i].id, now) == None
    ensures Validate(after, before[i].id, later) == None
  {
    hide Validate;
    ValidateMeans(before, i, now);
    ValidateMeans(after, i, later);
  }

  lemma ContinuesFurther(a: seq<Session>, b: seq<Session>, c: seq<Session>)
    requires Continues(a, b) && Continues(b, c)
    ensures Continues(a, c)
  {
  }

  // ----- how the tables change

  lemma AfterSpend(
      nonces: map<string, Nonce>, nonce: string, purpose: Purpose, pid: string, now: int, clock: int,
      issued: map<string, Issue>, redeemed: map<string, int>, attempted: set<string>)
    requires Rows(nonces, issued) && Redemptions(redeemed, attempted, nonces, issued)
    requires forall n :: n in issued ==> issued[n].issuedAt <= clock
    requires clock <= now
    ensures var ok := Ruling(nonces, nonce, purpose, pid, now) == Accepted;
      var attempted' := if nonce != "" && nonce in nonces then attempted + {nonce} else attempted;
      && Rows(Spend(nonces, nonce, now), issued)
      && Redemptions(if ok then redeemed[nonce := now] else redeemed, attempted', Spend(nonces, nonce, now), issued)
      && (ok ==>
            && nonce !in attempted && nonce !in redeemed && nonce in issued
            && issued[nonce].purpose == purpose && issued[nonce].pid == pid && now <= issued[nonce].expiresAt)
  {
  }

  lemma AfterIssue(
      nonces: map<string, Nonce>, nonce: string, row: Nonce, issue: Issue, issued: map<string, Issue>,
      redeemed: map<string, int>, attempted: set<string>)
    requires Rows(nonces, issued) && Redemptions(redeemed, attempted, nonces, issued)
    requires nonce !in issued && Matches(row, issue)
    ensures Rows(nonces[nonce := row], issued[nonce := issue])
    ensures Redemptions(redeemed, attempted, nonces[nonce := row], issued[nonce := issue])
  {
  }

  lemma MoreIssued(
      sessions: seq<Session>, bindings: seq<Binding>, redeemed: map<string, int>, redeemed': map<string, int>,
      issued: map<string, Issue>, issued': map<string, Issue>)
    requires SessionsRedeem(sessions, redeemed, issued) && BindingsRedeem(bindings, redeemed, issued)
    requires forall n :: n in redeemed ==> n in redeemed'
    requires forall n :: n in issued ==> n in issued' && issued'[n] == issued[n]
    ensures SessionsRedeem(sessions, redeemed', issued') && BindingsRedeem(bindings, redeemed', issued')
  {
    hide ParseNonce;
  }

  /** A session for a nonce that no session has yet. */
  lemma AddSession(
      sessions: seq<Session>, s: Session, redeemed: map<string, int>, issued: map<string, Issue>, now: int)
    requires SessionsRedeem(sessions, redeemed, issued)
    requires s.nonce !in redeemed && s.nonce in issued && issued[s.nonce].purpose == ForLogin
    requires issued[s.nonce].pid == s.pid
    requires forall i :: 0 <= i < |sessions| ==> sessions[i].id != s.id
    ensures SessionsRedeem(sessions + [s], redeemed[s.nonce := now], issued)
  {
  }

  lemma AddBinding(
      bindings: seq<Binding>, b: Binding, redeemed: map<string, int>, issued: map<string, Issue>, now: int)
    requires BindingsRedeem(bindings, redeemed, issued)
    requires var n := ParseNonce(b.message);
      n !in redeemed && n in issued && issued[n].purpose == ForBinding && issued[n].pid == b.pid
    requires forall i :: 0 <= i < |bindings| ==> bindings[i].id != b.id
    ensures BindingsRedeem(bindings + [b], redeemed[ParseNonce(b.message) := now], issued)
  {
    hide ParseNonce;
  }

  predicate HasId(sessions: seq<Session>, id: string) {
    exists i :: 0 <= i < |sessions| && sessions[i].id == id
  }

  predicate HasNonce(sessions: seq<Session>, nonce: string) {
    exists i :: 0 <= i < |sessions| && sessions[i].nonce == nonce
  }

  predicate HasBinding(bindings: seq<Binding>, id: string) {
    exists i :: 0 <= i < |bindings| && bindings[i].id == id
  }

  datatype Refusal =
    | IsBinding
    | NotBinding
    | NamesOtherPillar
    | NamesOtherRole
    | Rejected(why: Outcome)
    | BadSignature
    | NoExpiry
    | MessageExpired
    | Replayed
    | Duplicate

  /** Why establish_session refuses, if it does; nonce errors come before the rest. */
  function SessionRefusal(
      c: Crypto, nonces: map<string, Nonce>, sessions: seq<Session>, pid: string, address: string,
      text: string, signature: string, contract: bool, id: string, now: int, later: int): Option<Refusal>
  {
    var nonce := ParseNonce(text);
    var judged := Ruling(nonces, nonce, ForLogin, pid, now);
    var expiry := ParseExpiry(c.clockwork, text);
    if IsBindingMessage(text) then Some(IsBinding)
    else if !NamesPid(text, pid) then Some(NamesOtherPillar)
    else if judged != Accepted then Some(Rejected(judged))
    else if !c.recovers(text, signature, address) && !contract then Some(BadSignature)
    else if expiry.None? then Some(NoExpiry)
    else if later > expiry.value then Some(MessageExpired)
    else if HasNonce(sessions, nonce) then Some(Replayed)
    else if HasId(sessions, id) then Some(Duplicate)
    else None
  }

  /** Why create_binding refuses, if it does. */
  function BindingRefusal(
      c: Crypto, nonces: map<string, Nonce>, bindings: seq<Binding>, pid: string, address: string,
      text: string, signature: string, contract: bool, role: string, now: int): Option<Refusal>
  {
    var nonce := ParseNonce(text);
    var judged := Ruling(nonces, nonce, ForBinding, pid, now);
    var stated := ParseBinding(text);
    if stated.None? then Some(NotBinding)
    else if stated.value.0 != pid then Some(NamesOtherPillar)
    else if stated.value.1 != role then Some(NamesOtherRole)
    else if !NamesPid(text, pid) then Some(NamesOtherPillar)
    else if judged != Accepted then Some(Rejected(judged))
    else if !c.recovers(text, signature, address) && !contract then Some(BadSignature)
    else if HasBinding(bindings, BindingId(c, pid, address, nonce)) then Some(Duplicate)
    else None
  }

  /** The check for a replayed nonce never has to refuse: the registry already has. */
  lemma NeverReplayed(
      c: Crypto, nonces: map<string, Nonce>, sessions: seq<Session>, pid: string, address: string,
      text: string, signature: string, contract: bool, id: string, now: int, later: int,
      issued: map<string, Issue>, redeemed: map<string, int>, attempted: set<string>)
    requires Redemptions(redeemed, attempted, nonces, issued) && SessionsRedeem(sessions, redeemed, issued)
    ensures SessionRefusal(c, nonces, sessions, pid, address, text, signature, contract, id, now, later)
            != Some(Replayed)
  {
    hide ParseNonce, ParseExpiry, NamesPid, IsBindingMessage;
  }

  /** revoke_session's update. */
  function Revoke(sessions: seq<Session>, id: string): seq<Session> {
    if sessions == [] then []
    else [if sessions[0].id == id then sessions[0].(revoked := true) else sessions[0]] + Revoke(sessions[1..], id)
  }

  lemma {:induction false} RevokeMeans(sessions: seq<Session>, id: string)
    ensures |Revoke(sessions, id)| == |sessions| && Continues(sessions, Revoke(sessions, id))
    ensures forall i :: 0 <= i < |sessions| && sessions[i].id == id ==> Revoke(sessions, id)[i].revoked
  {
    if sessions != [] {
      RevokeMeans(sessions[1..], id);
    }
  }

  lemma RevokeRedeems(sessions: seq<Session>, id: string, redeemed: map<string, int>, issued: map<string, Issue>)
    requires SessionsRedeem(sessions, redeemed, issued)
    ensures SessionsRedeem(Revoke(sessions, id), redeemed, issued)
  {
    RevokeMeans(sessions, id);
    var after := Revoke(sessions, id);
    assert forall i :: 0 <= i < |after| ==>
      after[i].nonce == sessions[i].nonce && after[i].id == sessions[i].id && after[i].pid == sessions[i].pid;
  }

  lemma AddStated(c: Crypto, bindings: seq<Binding>, b: Binding)
    requires BindingsStated(c, bindings) && Stated(c, b)
    ensures BindingsStated(c, bindings + [b])
  {
    hide Stated;
  }

  /** The record create_binding inserts. */
  function NewBinding(
      c: Crypto, key: string, pid: string, address: string, text: string, signature: string, defaultChain: int,
      role: string): Binding {
    var id := BindingId(c, pid, address, ParseNonce(text));
    Binding(id, pid, c.library.publicKey(key), address, ParseChainId(c.clockwork, text, defaultChain),
            text, signature, c.library.sign(key, Preimage(BINDING_DOMAIN, [id])), role)
  }

  lemma NewBindingStated(
      c: Crypto, key: string, pid: string, address: string, text: string, signature: string, defaultChain: int,
      role: string)
    requires c.library.Ideal() && ParseBinding(text) == Some((pid, role)) && NamesPid(text, pid)
    ensures Stated(c, NewBinding(c, key, pid, address, text, signature, defaultChain, role))
  {
    hide ParseBinding, ParseNonce, ParseChainId, NamesPid, Preimage;
  }

  /** No nonce has both a session and a binding. */
  lemma OneUse(
      sessions: seq<Session>, bindings: seq<Binding>, redeemed: map<string, int>, issued: map<string, Issue>,
      i: nat, j: nat)
    requires SessionsRedeem(sessions, redeemed, issued) && BindingsRedeem(bindings, redeemed, issued)
    requires i < |sessions| && j < |bindings|
    ensures sessions[i].nonce != ParseNonce(bindings[j].message)
  {
    hide ParseNonce;
  }

  /** A challenge that was put to the registry once, whatever came of it, is never accepted afterwards. */
  lemma OneAttempt(
      nonces: map<string, Nonce>, issued: map<string, Issue>, redeemed: map<string, int>,
      attempted: set<string>, nonce: string, purpose: Purpose, pid: string, now: int)
    requires Redemptions(redeemed, attempted, nonces, issued) && nonce in attempted
    ensures Ruling(nonces, nonce, purpose, pid, now) != Accepted
  {
    assert Used(nonces, nonce);
  }

  /** One call on the registry. */
  datatype Call =
    | Issuing(address: string, chainId: int, purpose: Purpose, role: string, companyUrl: string, authority: string,
              pid: string, nonce: string, now: int)
    | Redeeming(pid: string, address: string, text: string, signature: string, contract: bool,
                id: string, now: int, later: int)
    | Stating(key: string, pid: string, address: string, text: string, signature: string, contract: bool,
               defaultChain: int, role: string, now: int)
    | Revoking(id: string, now: int)
    | Purging(days: int, now: int)
  {
    function Start(): int {
      now
    }

    function End(): int {
      if Redeeming? then later else now
    }
  }

  // ----- what a call does, as a function of the tables

  /** The tables. */
  datatype Tables = Tables(nonces: map<string, Nonce>, sessions: seq<Session>, bindings: seq<Binding>)

  /** What a call returns. */
  datatype Reply =
    | Challenged(message: Result<string, Refusal>)
    | Opened(session: Result<Session, Refusal>)
    | Bound(binding: Result<Binding, Refusal>)
    | Done

  /** The call passes the checks of its message, and so puts the message's nonce to the registry. */
  predicate Consumes(call: Call) {
    match call
    case Redeeming(pid, _, text, _, _, _, _, _) => !IsBindingMessage(text) && NamesPid(text, pid)
    case Stating(_, pid, _, text, _, _, _, role, _) => ParseBinding(text) == Some((pid, role)) && NamesPid(text, pid)
    case _ => false
  }

  function NonceOf(call: Call): string {
    if call.Redeeming? || call.Stating? then ParseNonce(call.text) else ""
  }

  predicate WrongRole(purpose: Purpose, role: string) {
    purpose == ForBinding && role !in ROLES
  }

  function Ttl(purpose: Purpose): int {
    if purpose == ForBinding then BINDING_TTL else LOGIN_TTL
  }

  /** The message of a challenge. */
  function MessageFor(c: Crypto, call: Call): string
    requires call.Issuing?
  {
    var binds := call.purpose == ForBinding;
    var statement := if binds then BindingStatement(call.pid, call.role) else LoginStatement(call.pid);
    var end := call.now + (if binds then BINDING_TTL else SESSION_SECONDS);
    Build(c.clockwork,
          Challenge(call.authority, call.address, statement, call.pid, call.chainId, call.nonce, call.now, end),
          [PillarUri(call.pid)] + (if call.companyUrl == "" then [] else [call.companyUrl]))
  }

  function Purged(nonces: map<string, Nonce>, cutoff: int): map<string, Nonce> {
    map n | n in nonces && nonces[n].expiresAt >= cutoff :: nonces[n]
  }

  function ReplyTo(c: Crypto, t: Tables, call: Call): Reply {
    match call
    case Issuing(_, _, purpose, role, _, _, _, _, _) =>
      Challenged(if WrongRole(purpose, role) then Err(NotBinding) else Ok(MessageFor(c, call)))
    case Redeeming(pid, address, text, signature, contract, id, now, later) => (
      match SessionRefusal(c, t.nonces, t.sessions, pid, address, text, signature, contract, id, now, later)
      case Some(why) => Opened(Err(why))
      case None =>
        Opened(Ok(Session(id, address, ParseNonce(text), later, ParseExpiry(c.clockwork, text).GetOr(0),
                          signature, pid, false))))
    case Stating(key, pid, address, text, signature, contract, defaultChain, role, now) => (
      match BindingRefusal(c, t.nonces, t.bindings, pid, address, text, signature, contract, role, now)
      case Some(why) => Bound(Err(why))
      case None => Bound(Ok(NewBinding(c, key, pid, address, text, signature, defaultChain, role))))
    case _ => Done
  }

  /** The call was accepted: it opened a session or made a binding. */
  predicate AcceptedReply(reply: Reply) {
    (reply.Opened? && reply.session.Ok?) || (reply.Bound? && reply.binding.Ok?)
  }

  /** The tables after the call. */
  function AfterCall(c: Crypto, t: Tables, call: Call): Tables {
    match call
    case Issuing(address, chainId, purpose, role, _, _, pid, nonce, now) =>
      if WrongRole(purpose, role) then t
      else t.(nonces := t.nonces[nonce := Nonce(purpose, pid, address, chainId, now, now + Ttl(purpose), None)])
    case Redeeming(_, _, _, _, _, _, now, _) =>
      var reply := ReplyTo(c, t, call);
      t.(nonces := if Consumes(call) then Spend(t.nonces, NonceOf(call), now) else t.nonces,
         sessions := if reply.Opened? && reply.session.Ok? then t.sessions + [reply.session.value] else t.sessions)
    case Stating(_, _, _, _, _, _, _, _, now) =>
      var reply := ReplyTo(c, t, call);
      t.(nonces := if Consumes(call) then Spend(t.nonces, NonceOf(call), now) else t.nonces,
         bindings := if reply.Bound? && reply.binding.Ok? then t.bindings + [reply.binding.value] else t.bindings)
    case Revoking(id, _) => t.(sessions := Revoke(t.sessions, id))
    case Purging(days, now) => t.(nonces := Purged(t.nonces, now - days * SECONDS_PER_DAY))
  }

  /** The tables after the calls, in order. */
  function AfterCalls(c: Crypto, t: Tables, calls: seq<Call>): Tables {
    if calls == [] then t
    else AfterCall(c, AfterCalls(c, t, calls[..|calls| - 1]), calls[|calls| - 1])
  }

  lemma AfterCallsNext(c: Crypto, t: Tables, calls: seq<Call>, i: nat)
    requires i < |calls|
    ensures AfterCalls(c, t, calls[..i + 1]) == AfterCall(c, AfterCalls(c, t, calls[..i]), calls[i])
  {
    assert calls[..i + 1][..i] == calls[..i];
  }

  lemma AfterCallsNone(c: Crypto, t: Tables)
    ensures AfterCalls(c, t, []) == t
  {
  }

  /** The clock does not go back, and no nonce is issued twice. */
  ghost predicate Proper(calls: seq<Call>, clock: int, issued: map<string, Issue>) {
    && (forall i :: 0 <= i < |calls| ==> calls[i].Start() <= calls[i].End() && clock <= calls[i].Start())
    && (forall i, j :: 0 <= i < j < |calls| ==> calls[i].End() <= calls[j].Start())
    && (forall i :: 0 <= i < |calls| && calls[i].Issuing? ==> calls[i].nonce !in issued)
    && (forall i, j :: 0 <= i < j < |calls| && calls[i].Issuing? && calls[j].Issuing? ==>
          calls[i].nonce != calls[j].nonce)
  }

  /** What a run may do to the history. */
  ghost predicate Onward(
      sessions: seq<Session>, sessions': seq<Session>, bindings: seq<Binding>, bindings': seq<Binding>,
      attempted: set<string>, attempted': set<string>) {
    Continues(sessions, sessions') && bindings <= bindings' && attempted <= attempted'
  }

  class Registry {
    const crypto: Crypto
    var nonces: map<string, Nonce>
    var sessions: seq<Session>
    var bindings: seq<Binding>
    /** Every challenge ever issued, when each was accepted, and which were put to the registry. */
    ghost var issued: map<string, Issue>
    ghost var redeemed: map<string, int>
    ghost var attempted: set<string>
    ghost var clock: int

    ghost predicate Valid()
      reads this
    {
      && Rows(nonces, issued)
      && Redemptions(redeemed, attempted, nonces, issued)
      && SessionsRedeem(sessions, redeemed, issued)
      && BindingsRedeem(bindings, redeemed, issued)
      && BindingsStated(crypto, bindings)
      && (forall n :: n in issued ==> issued[n].issuedAt <= clock)
      && crypto.library.Ideal()
    }

    ghost function Now(): Tables
      reads this
    {
      Tables(nonces, sessions, bindings)
    }

    constructor (crypto: Crypto)
      requires crypto.library.Ideal()
      ensures Valid() && this.crypto == crypto && sessions == [] && bindings == [] && issued == map[] && clock == 0
    {
      this.crypto := crypto;
      nonces, sessions, bindings := map[], [], [];
      issued, redeemed, attempted, clock := map[], map[], {}, 0;
    }

    /** create_challenge with a fresh nonce. */
    method CreateChallenge(
        address: string, chainId: int, purpose: Purpose, role: string, companyUrl: string, authority: string,
        pid: string, nonce: string, now: int)
      returns (r: Result<string, Refusal>)
      requires Valid() && clock <= now && nonce !in issued
      modifies this`nonces, this`issued, this`clock
      ensures Valid() && clock == now
      ensures purpose == ForBinding && role !in ROLES ==>
        r == Err(NotBinding) && issued == old(issued) && nonces == old(nonces)
      ensures r.Ok? <==> !(purpose == ForBinding && role !in ROLES)
      ensures r.Ok? ==>
        && var statement := if purpose == ForBinding then BindingStatement(pid, role) else LoginStatement(pid);
           var ttl := if purpose == ForBinding then BINDING_TTL else LOGIN_TTL;
           var end := now + (if purpose == ForBinding then BINDING_TTL else SESSION_SECONDS);
           var challenge := Challenge(authority, address, statement, pid, chainId, nonce, now, end);
        && r.value == Build(crypto.clockwork, challenge,
                            [PillarUri(pid)] + (if companyUrl == "" then [] else [companyUrl]))
        && issued == old(issued)[nonce := Issue(purpose, pid, now, now + ttl)]
        && nonces == old(nonces)[nonce := Nonce(purpose, pid, address, chainId, now, now + ttl, None)]
    {
      hide Rows, Redemptions, SessionsRedeem, BindingsRedeem, BindingsStated, Build, ROLES, BindingStatement,
           LoginStatement, Library.Ideal, PillarUri;
      clock := now;
      if purpose == ForBinding && role !in ROLES {
        return Err(NotBinding);
      }
      var statement := if purpose == ForBinding then BindingStatement(pid, role) else LoginStatement(pid);
      var ttl := if purpose == ForBinding then BINDING_TTL else LOGIN_TTL;
      var end := now + (if purpose == ForBinding then BINDING_TTL else SESSION_SECONDS);
      var challenge := Challenge(authority, address, statement, pid, chainId, nonce, now, end);
      var row := Nonce(purpose, pid, address, chainId, now, now + ttl, None);
      var issue := Issue(purpose, pid, now, now + ttl);
      AfterIssue(nonces, nonce, row, issue, issued, redeemed, attempted);
      MoreIssued(sessions, bindings, redeemed, redeemed, issued, issued[nonce := issue]);
      nonces := nonces[nonce := row];
      issued := issued[nonce := issue];
      r := Ok(Build(crypto.clockwork, challenge, [PillarUri(pid)] + (if companyUrl == "" then [] else [companyUrl])));
    }

    /** consume_siwe_nonce. */
    method ConsumeNonce(nonce: string, purpose: Purpose, pid: string, now: int) returns (outcome: Outcome)
      requires Valid() && clock <= now
      modifies this`nonces, this`redeemed, this`attempted, this`clock
      ensures Valid() && clock == now
      ensures outcome == Ruling(old(nonces), nonce, purpose, pid, now) && nonces == Spend(old(nonces), nonce, now)
      ensures nonce in old(nonces) && nonce != "" ==> nonce in attempted
      ensures old(attempted) <= attempted
      ensures redeemed == if outcome == Accepted then old(redeemed)[nonce := now] else old(redeemed)
      ensures outcome == Accepted ==> nonce !in old(attempted) && nonce !in old(redeemed) && nonce in issued
      ensures outcome == Accepted ==>
        issued[nonce].purpose == purpose && issued[nonce].pid == pid && now <= issued[nonce].expiresAt
    {
      hide Rows, Redemptions, SessionsRedeem, BindingsRedeem, BindingsStated, Library.Ideal;
      AfterSpend(nonces, nonce, purpose, pid, now, clock, issued, redeemed, attempted);
      MoreIssued(sessions, bindings, redeemed, redeemed[nonce := now], issued, issued);
      clock := now;
      if nonce == "" {
        return NoNonce;
      }
      if nonce !in nonces {
        return NotIssued;
      }
      var row := nonces[nonce];
      attempted := attempted + {nonce};
      if row.spentAt.None? {
        nonces := nonces[nonce := row.(spentAt := Some(now))];
      }
      if row.spentAt.Some? {
        return AlreadyUsed;
      }
      if row.pid != pid {
        return OtherPillar;
      }
      if row.purpose != purpose {
        return OtherPurpose;
      }
      if now > row.expiresAt {
        return Expired;
      }
      redeemed := redeemed[nonce := now];
      outcome := Accepted;
    }

    /** establish_session; contract is what a contract wallet answers, id the fresh session id. */
    method EstablishSession(
        pid: string, address: string, text: string, signature: string, contract: bool, id: string, now: int,
        later: int)
      returns (r: Result<Session, Refusal>)
      requires Valid() && clock <= now <= later
      modifies this`nonces, this`sessions, this`redeemed, this`attempted, this`clock
      ensures Valid() && clock == later
      ensures var nonce := ParseNonce(text);
        match SessionRefusal(
                crypto, old(nonces), old(sessions), pid, address, text, signature, contract, id, now, later)
        case Some(why) => r == Err(why) && why != Replayed && sessions == old(sessions)
        case None =>
          && ParseExpiry(crypto.clockwork, text).Some?
          && r == Ok(Session(id, address, nonce, later, ParseExpiry(crypto.clockwork, text).value,
                             signature, pid, false))
          && sessions == old(sessions) + [r.value]
          && nonce !in old(attempted) && nonce in redeemed && nonce in issued && issued[nonce].purpose == ForLogin
      ensures nonces == (if IsBindingMessage(text) || !NamesPid(text, pid) then old(nonces)
                         else Spend(old(nonces), ParseNonce(text), now))
      ensures old(attempted) <= attempted
      ensures !IsBindingMessage(text) && NamesPid(text, pid) ==>
        ParseNonce(text) != "" && ParseNonce(text) in old(nonces) ==> ParseNonce(text) in attempted
    {
      hide Rows, Redemptions, SessionsRedeem, BindingsRedeem, BindingsStated, ParseNonce, ParseExpiry,
           NamesPid, IsBindingMessage, Ruling, Spend, Library.Ideal;
      NeverReplayed(crypto, nonces, sessions, pid, address, text, signature, contract, id, now, later, issued,
                    redeemed, attempted);
      ghost var redeemed0 := redeemed;
      clock := later;
      if IsBindingMessage(text) {
        return Err(IsBinding);
      }
      if !NamesPid(text, pid) {
        return Err(NamesOtherPillar);
      }
      clock := now;
      var nonce := ParseNonce(text);
      var outcome := ConsumeNonce(nonce, ForLogin, pid, now);
      clock := later;
      if outcome != Accepted {
        return Err(Rejected(outcome));
      }
      if !crypto.recovers(text, signature, address) && !contract {
        return Err(BadSignature);
      }
      var expiry := ParseExpiry(crypto.clockwork, text);
      if expiry.None? {
        return Err(NoExpiry);
      }
      if later > expiry.value {
        return Err(MessageExpired);
      }
      if HasNonce(sessions, nonce) {
        return Err(Replayed);
      }
      if HasId(sessions, id) {
        return Err(Duplicate);
      }
      var s := Session(id, address, nonce, later, expiry.value, signature, pid, false);
      AddSession(sessions, s, redeemed0, issued, now);
      sessions := sessions + [s];
      r := Ok(s);
    }

    /** create_binding. */
    method CreateBinding(
        key: string, pid: string, address: string, text: string, signature: string, contract: bool,
        defaultChain: int, role: string, now: int)
      returns (r: Result<Binding, Refusal>)
      requires Valid() && clock <= now
      modifies this`nonces, this`bindings, this`redeemed, this`attempted, this`clock
      ensures Valid() && clock == now
      ensures match BindingRefusal(
                      crypto, old(nonces), old(bindings), pid, address, text, signature, contract, role, now)
        case Some(why) => r == Err(why) && bindings == old(bindings)
        case None =>
          && r == Ok(NewBinding(crypto, key, pid, address, text, signature, defaultChain, role))
          && bindings == old(bindings) + [r.value]
          && ParseNonce(text) !in old(attempted) && ParseNonce(text) in redeemed && ParseNonce(text) in issued
          && issued[ParseNonce(text)].purpose == ForBinding
      ensures nonces == (if ParseBinding(text) != Some((pid, role)) || !NamesPid(text, pid) then old(nonces)
                         else Spend(old(nonces), ParseNonce(text), now))
      ensures old(attempted) <= attempted
      ensures ParseBinding(text) == Some((pid, role)) && NamesPid(text, pid) ==>
        ParseNonce(text) != "" && ParseNonce(text) in old(nonces) ==> ParseNonce(text) in attempted
    {
      hide Rows, Redemptions, SessionsRedeem, BindingsRedeem, BindingsStated, ParseNonce, ParseBinding,
           NamesPid, Ruling, Spend, Library.Ideal;
      ghost var redeemed0 := redeemed;
      clock := now;
      var stated := ParseBinding(text);
      if stated.None? {
        return Err(NotBinding);
      }
      if stated.value.0 != pid {
        return Err(NamesOtherPillar);
      }
      if stated.value.1 != role {
        return Err(NamesOtherRole);
      }
      if !NamesPid(text, pid) {
        return Err(NamesOtherPillar);
      }
      var nonce := ParseNonce(text);
      var outcome := ConsumeNonce(nonce, ForBinding, pid, now);
      if outcome != Accepted {
        return Err(Rejected(outcome));
      }
      if !crypto.recovers(text, signature, address) && !contract {
        return Err(BadSignature);
      }
      var b := NewBinding(crypto, key, pid, address, text, signature, defaultChain, role);
      if HasBinding(bindings, b.id) {
        return Err(Duplicate);
      }
      NewBindingStated(crypto, key, pid, address, text, signature, defaultChain, role);
      AddBinding(bindings, b, redeemed0, issued, now);
      AddStated(crypto, bindings, b);
      bindings := bindings + [b];
      r := Ok(b);
    }

    /** revoke_session. */
    method RevokeSession(id: string)
      requires Valid()
      modifies this`sessions
      ensures Valid() && sessions == Revoke(old(sessions), id)
    {
      hide Rows, Redemptions, SessionsRedeem, BindingsRedeem, BindingsStated, Library.Ideal;
      RevokeRedeems(sessions, id, redeemed, issued);
      sessions := Revoke(sessions, id);
    }

    /** purge_expired_siwe_nonces. */
    method Purge(days: int, now: int) returns (dropped: nat)
      requires Valid() && clock <= now
      modifies this`nonces, this`clock
      ensures Valid() && clock == now
      ensures nonces
             == map n | n in old(nonces) && old(nonces)[n].expiresAt >= now - days * SECONDS_PER_DAY :: old(nonces)[n]
      ensures dropped == |old(nonces)| - |nonces|
    {
      hide SessionsRedeem, BindingsRedeem, BindingsStated;
      var kept := map n | n in nonces && nonces[n].expiresAt >= now - days * SECONDS_PER_DAY :: nonces[n];
      SmallerMap(nonces, kept);
      dropped := |nonces| - |kept|;
      nonces := kept;
      clock := now;
    }

    /** Any one call. */
    method Serve(call: Call) returns (reply: Reply)
      requires Valid() && clock <= call.Start() <= call.End()
      requires call.Issuing? ==> call.nonce !in issued
      modifies this
      ensures Valid() && clock == call.End()
      ensures reply == ReplyTo(crypto, old(Now()), call) && Now() == AfterCall(crypto, old(Now()), call)
      ensures Onward(old(sessions), sessions, old(bindings), bindings, old(attempted), attempted)
      ensures Consumes(call) && NonceOf(call) != "" && NonceOf(call) in old(nonces) ==> NonceOf(call) in attempted
      ensures forall n :: n in issued ==> n in old(issued) || (call.Issuing? && n == call.nonce)
    {
      hide Rows, Redemptions, SessionsRedeem, BindingsRedeem, BindingsStated, Library.Ideal, SessionRefusal,
           BindingRefusal, ParseNonce, ParseExpiry, NewBinding, Ruling, Spend, NamesPid, Build, ROLES, IsBindingMessage,
           ParseBinding, BindingStatement, LoginStatement, PillarUri;
      match call
      case Issuing(address, chainId, purpose, role, companyUrl, authority, pid, nonce, now) =>
        var message := CreateChallenge(address, chainId, purpose, role, companyUrl, authority, pid, nonce, now);
        reply := Challenged(message);
      case Redeeming(pid, address, text, signature, contract, id, now, later) =>
        var session := EstablishSession(pid, address, text, signature, contract, id, now, later);
        reply := Opened(session);
      case Stating(key, pid, address, text, signature, contract, defaultChain, role, now) =>
        var binding := CreateBinding(key, pid, address, text, signature, contract, defaultChain, role, now);
        reply := Bound(binding);
      case Revoking(id, now) =>
        clock := now;
        RevokeMeans(sessions, id);
        RevokeSession(id);
        reply := Done;
      case Purging(days, now) =>
        var _ := Purge(days, now);
        reply := Done;
    }

    /** Any run. */
    method Operate(calls: seq<Call>) returns (replies: seq<Reply>)
      requires Valid() && Proper(calls, clock, issued)
      modifies this
      ensures Valid() && Now() == AfterCalls(crypto, old(Now()), calls)
      ensures |replies| == |calls| && forall i :: 0 <= i < |calls| ==>
        replies[i] == ReplyTo(crypto, AfterCalls(crypto, old(Now()), calls[..i]), calls[i])
      ensures Onward(old(sessions), sessions, old(bindings), bindings, old(attempted), attempted)
    {
      hide Rows, Redemptions, SessionsRedeem, BindingsRedeem, BindingsStated, Library.Ideal, Onward, ReplyTo, AfterCall,
           AfterCalls;
      StayOnward(sessions, bindings, attempted);
      replies := [];
      AfterCallsNone(crypto, Now());
      assert calls[..0] == [];
      for i := 0 to |calls|
        invariant Valid() && Now() == AfterCalls(crypto, old(Now()), calls[..i])
        invariant |replies| == i && forall k :: 0 <= k < i ==>
          replies[k] == ReplyTo(crypto, AfterCalls(crypto, old(Now()), calls[..k]), calls[k])
        invariant clock == if i == 0 then old(clock) else calls[i - 1].End()
        invariant forall n :: n in issued ==>
          n in old(issued) || exists j :: 0 <= j < i && calls[j].Issuing? && calls[j].nonce == n
        invariant Onward(old(sessions), sessions, old(bindings), bindings, old(attempted), attempted)
      {
        ghost var s, b, a := sessions, bindings, attempted;
        AfterCallsNext(crypto, old(Now()), calls, i);
        var reply := Serve(calls[i]);
        replies := replies + [reply];
        MoveOnward(old(sessions), s, sessions, old(bindings), b, bindings, old(attempted), a, attempted);
      }
      assert calls[..|calls|] == calls;
    }
  }

  lemma StayOnward(sessions: seq<Session>, bindings: seq<Binding>, attempted: set<string>)
    ensures Onward(sessions, sessions, bindings, bindings, attempted, attempted)
  {
  }

  lemma MoveOnward(
      s: seq<Session>, s': seq<Session>, s'': seq<Session>, b: seq<Binding>, b': seq<Binding>,
      b'': seq<Binding>, a: set<string>, a': set<string>, a'': set<string>)
    requires Onward(s, s', b, b', a, a') && Onward(s', s'', b', b'', a', a'')
    ensures Onward(s, s'', b, b'', a, a'')
  {
    ContinuesFurther(s, s', s'');
  }

  lemma SmallerMap<K, V>(big: map<K, V>, small: map<K, V>)
    requires small.Keys <= big.Keys
    ensures |small| <= |big|
  {
    SmallerSet(small.Keys, big.Keys);
  }
}
