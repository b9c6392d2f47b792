/**
 When a challenge is accepted, what a session or binding records, and when a
 binding verifies, spelled out (db/live_db.py, auth/session.py, crypto/binding.py).
 */
module ChallengeLaws {
  import opened Wrappers
  import opened SiweMessages
  import opened SiweLaws
  import opened Envelopes
  import opened ChallengeRegistry

  // ----- nonces

  /** The nonce was issued to this Pillar for this purpose, was never put to the registry, and has not expired. */
  predicate Redeemable(nonces: map<string, Nonce>, nonce: string, purpose: Purpose, pid: string, now: int) {
    && nonce != "" && nonce in nonces
    && nonces[nonce].spentAt == None && nonces[nonce].pid == pid && nonces[nonce].purpose == purpose
    && now <= nonces[nonce].expiresAt
  }

  /** Which nonces are accepted, and which of several reasons a refusal gives. */
  lemma RulingMeans(nonces: map<string, Nonce>, nonce: string, purpose: Purpose, pid: string, now: int)
    ensures var ruling := Ruling(nonces, nonce, purpose, pid, now);
      && (ruling == Accepted <==> Redeemable(nonces, nonce, purpose, pid, now))
      && (ruling == NoNonce <==> nonce == "")
      && (ruling == NotIssued <==> nonce != "" && nonce !in nonces)
      && (ruling == AlreadyUsed <==> nonce != "" && nonce in nonces && nonces[nonce].spentAt.Some?)
      && (ruling == OtherPillar <==>
            nonce != "" && nonce in nonces && nonces[nonce].spentAt == None && nonces[nonce].pid != pid)
      && (ruling == OtherPurpose <==>
            && nonce != "" && nonce in nonces && nonces[nonce].spentAt == None && nonces[nonce].pid == pid
            && nonces[nonce].purpose != purpose)
  {
  }

  /** The attempt is noted on the nonce's own row, if it is the first, and nowhere else. */
  lemma SpendMeans(nonces: map<string, Nonce>, nonce: string, now: int, n: string)
    ensures var after := Spend(nonces, nonce, now);
      && (n in after <==> n in nonces)
      && (n in nonces ==> after[n] == if n == nonce && n != "" && nonces[n].spentAt == None
                                      then nonces[n].(spentAt := Some(now)) else nonces[n])
  {
  }

  /** What an issued nonce is good for: fifteen minutes for a login, ten for a binding. */
  lemma IssuedMeans(c: Crypto, t: Tables, call: Call)
    requires call.Issuing? && !(call.purpose == ForBinding && call.role != "deployer" && call.role != "operator")
    ensures AfterCall(c, t, call).sessions == t.sessions && AfterCall(c, t, call).bindings == t.bindings
    ensures AfterCall(c, t, call).nonces == t.nonces[call.nonce := Nonce(
      call.purpose, call.pid, call.address, call.chainId, call.now,
      if call.purpose == ForBinding then call.now + 600 else call.now + 900, None)]
  {
    StatementsMean(call.pid, call.role);
  }

  /** A binding challenge for any other role is refused, and changes nothing. */
  lemma NotIssuedMeans(c: Crypto, t: Tables, call: Call)
    requires call.Issuing? && call.purpose == ForBinding && call.role != "deployer" && call.role != "operator"
    ensures AfterCall(c, t, call) == t && ReplyTo(c, t, call) == Challenged(Err(NotBinding))
  {
    StatementsMean(call.pid, call.role);
  }

  /**
   The message of a challenge: a login's expires with the session that it opens,
   after a day, a binding's after ten minutes; it names the Pillar, and the
   company if there is one.
   */
  lemma MessageMeans(c: Crypto, t: Tables, call: Call)
    requires call.Issuing? && !(call.purpose == ForBinding && call.role != "deployer" && call.role != "operator")
    ensures ReplyTo(c, t, call) == Challenged(Ok(Build(
      c.clockwork,
      Challenge(
        call.authority, call.address,
        if call.purpose == ForBinding
        then "I bind this wallet to REFINET Pillar " + call.pid + " as its " + call.role
        else "Sign in to REFInet Pillar " + call.pid,
        call.pid, call.chainId, call.nonce, call.now,
        if call.purpose == ForBinding then call.now + 600 else call.now + 86400),
      if call.companyUrl == "" then ["refinet://pillar/" + call.pid]
      else ["refinet://pillar/" + call.pid, call.companyUrl])))
  {
    hide Build, PillarUri, BindingStatement, LoginStatement;
    StatementsMean(call.pid, call.role);
    var own := PillarUri(call.pid);
    assert [own] + [] == [own] && [own] + [call.companyUrl] == [own, call.companyUrl];
  }

  /** A purge keeps the nonces that expired less than the given number of days ago, or not yet. */
  lemma PurgedMeans(c: Crypto, t: Tables, days: int, now: int, n: string)
    ensures var after := AfterCall(c, t, Purging(days, now));
      && (n in after.nonces <==> n in t.nonces && t.nonces[n].expiresAt >= now - days * 86400)
      && (n in after.nonces ==> after.nonces[n] == t.nonces[n])
      && after.sessions == t.sessions && after.bindings == t.bindings
  {
  }

  // ----- refusals

  /** The first of the checks that fails, in their order. */
  function FirstFailing(checks: seq<(bool, Refusal)>): Option<Refusal> {
    if checks == [] then None else if checks[0].0 then Some(checks[0].1) else FirstFailing(checks[1..])
  }

  /** A session is opened exactly when all of this holds. */
  lemma SessionAccepted(
      c: Crypto, nonces: map<string, Nonce>, sessions: seq<Session>, pid: string, address: string,
      text: string, signature: string, contract: bool, id: string, now: int, later: int)
    ensures
      SessionRefusal(c, nonces, sessions, pid, address, text, signature, contract, id, now, later) == None <==>
        && !IsBindingMessage(text) && NamesPid(text, pid)
        && Redeemable(nonces, ParseNonce(text), ForLogin, pid, now)
        && (c.recovers(text, signature, address) || contract)
        && ParseExpiry(c.clockwork, text).Some? && later <= ParseExpiry(c.clockwork, text).value
        && (forall i :: 0 <= i < |sessions| ==> sessions[i].nonce != ParseNonce(text) && sessions[i].id != id)
  {
    hide IsBindingMessage, NamesPid, ParseNonce, ParseExpiry, Ruling, Redeemable;
    RulingMeans(nonces, ParseNonce(text), ForLogin, pid, now);
  }

  /** A login is refused for the first of these reasons. */
  lemma SessionRefused(
      c: Crypto, nonces: map<string, Nonce>, sessions: seq<Session>, pid: string, address: string,
      text: string, signature: string, contract: bool, id: string, now: int, later: int)
    ensures var nonce, expiry := ParseNonce(text), ParseExpiry(c.clockwork, text);
      var ruling := Ruling(nonces, nonce, ForLogin, pid, now);
      SessionRefusal(c, nonces, sessions, pid, address, text, signature, contract, id, now, later) ==
        FirstFailing([
          (IsBindingMessage(text), IsBinding),
          (!NamesPid(text, pid), NamesOtherPillar),
          (ruling != Accepted, Rejected(ruling)),
          (!(c.recovers(text, signature, address) || contract), BadSignature),
          (expiry == None, NoExpiry),
          (expiry.Some? && expiry.value < later, MessageExpired),
          (exists i :: 0 <= i < |sessions| && sessions[i].nonce == nonce, Replayed),
          (exists i :: 0 <= i < |sessions| && sessions[i].id == id, Duplicate)])
  {
    hide IsBindingMessage, NamesPid, ParseNonce, ParseExpiry, Ruling, FirstFailing;
    EightChecks([
      (IsBindingMessage(text), IsBinding),
      (!NamesPid(text, pid), NamesOtherPillar),
      (Ruling(nonces, ParseNonce(text), ForLogin, pid, now) != Accepted,
       Rejected(Ruling(nonces, ParseNonce(text), ForLogin, pid, now))),
      (!(c.recovers(text, signature, address) || contract), BadSignature),
      (ParseExpiry(c.clockwork, text) == None, NoExpiry),
      (ParseExpiry(c.clockwork, text).Some? && ParseExpiry(c.clockwork, text).value < later, MessageExpired),
      (exists i :: 0 <= i < |sessions| && sessions[i].nonce == ParseNonce(text), Replayed),
      (exists i :: 0 <= i < |sessions| && sessions[i].id == id, Duplicate)]);
  }

  lemma EightChecks(k: seq<(bool, Refusal)>)
    requires |k| == 8
    ensures FirstFailing(k) ==
      if k[0].0 then Some(k[0].1) else if k[1].0 then Some(k[1].1) else if k[2].0 then Some(k[2].1)
      else if k[3].0 then Some(k[3].1) else if k[4].0 then Some(k[4].1) else if k[5].0 then Some(k[5].1)
      else if k[6].0 then Some(k[6].1) else if k[7].0 then Some(k[7].1) else None
  {
    assert k[1..][1..] == k[2..] && k[2..][1..] == k[3..] && k[3..][1..] == k[4..];
    assert k[4..][1..] == k[5..] && k[5..][1..] == k[6..] && k[6..][1..] == k[7..] && k[7..][1..] == [];
    assert FirstFailing(k[7..]) == if k[7].0 then Some(k[7].1) else None;
    assert FirstFailing(k[6..]) == if k[6].0 then Some(k[6].1) else FirstFailing(k[7..]);
    assert FirstFailing(k[5..]) == if k[5].0 then Some(k[5].1) else FirstFailing(k[6..]);
    assert FirstFailing(k[4..]) == if k[4].0 then Some(k[4].1) else FirstFailing(k[5..]);
    assert FirstFailing(k[3..]) == if k[3].0 then Some(k[3].1) else FirstFailing(k[4..]);
    assert FirstFailing(k[2..]) == if k[2].0 then Some(k[2].1) else FirstFailing(k[3..]);
    assert FirstFailing(k[1..]) == if k[1].0 then Some(k[1].1) else FirstFailing(k[2..]);
  }

  /** A binding is made exactly when all of this holds. */
  lemma BindingAccepted(
      c: Crypto, nonces: map<string, Nonce>, bindings: seq<Binding>, pid: string, address: string,
      text: string, signature: string, contract: bool, role: string, now: int)
    ensures BindingRefusal(c, nonces, bindings, pid, address, text, signature, contract, role, now) == None <==>
      && ParseBinding(text) == Some((pid, role)) && NamesPid(text, pid)
      && Redeemable(nonces, ParseNonce(text), ForBinding, pid, now)
      && (c.recovers(text, signature, address) || contract)
      && (forall i :: 0 <= i < |bindings| ==>
            bindings[i].id != c.library.sha256(pid + c.lower(address) + ParseNonce(text)))
  {
    hide ParseBinding, NamesPid, ParseNonce, Ruling, Redeemable;
    RulingMeans(nonces, ParseNonce(text), ForBinding, pid, now);
  }

  /** It is refused for the first of these reasons. */
  lemma BindingRefused(
      c: Crypto, nonces: map<string, Nonce>, bindings: seq<Binding>, pid: string, address: string,
      text: string, signature: string, contract: bool, role: string, now: int)
    ensures var stated := ParseBinding(text);
      var ruling := Ruling(nonces, ParseNonce(text), ForBinding, pid, now);
      BindingRefusal(c, nonces, bindings, pid, address, text, signature, contract, role, now) ==
        FirstFailing([
          (stated == None, NotBinding),
          (stated.Some? && stated.value.0 != pid, NamesOtherPillar),
          (stated.Some? && stated.value.1 != role, NamesOtherRole),
          (!NamesPid(text, pid), NamesOtherPillar),
          (ruling != Accepted, Rejected(ruling)),
          (!(c.recovers(text, signature, address) || contract), BadSignature),
          (exists i :: 0 <= i < |bindings|
             && bindings[i].id == c.library.sha256(pid + c.lower(address) + ParseNonce(text)), Duplicate),
          (false, Duplicate)])
  {
    hide ParseBinding, NamesPid, ParseNonce, Ruling, FirstFailing;
    EightChecks([
      (ParseBinding(text) == None, NotBinding),
      (ParseBinding(text).Some? && ParseBinding(text).value.0 != pid, NamesOtherPillar),
      (ParseBinding(text).Some? && ParseBinding(text).value.1 != role, NamesOtherRole),
      (!NamesPid(text, pid), NamesOtherPillar),
      (Ruling(nonces, ParseNonce(text), ForBinding, pid, now) != Accepted,
       Rejected(Ruling(nonces, ParseNonce(text), ForBinding, pid, now))),
      (!(c.recovers(text, signature, address) || contract), BadSignature),
      (exists i :: 0 <= i < |bindings|
         && bindings[i].id == c.library.sha256(pid + c.lower(address) + ParseNonce(text)), Duplicate),
      (false, Duplicate)]);
  }

  // ----- sessions

  /** A revocation marks the sessions with the id, and changes nothing else. */
  lemma {:induction false} RevokedMeans(sessions: seq<Session>, id: string)
    ensures |Revoke(sessions, id)| == |sessions|
    ensures forall i :: 0 <= i < |sessions| ==>
      Revoke(sessions, id)[i] == if sessions[i].id == id then sessions[i].(revoked := true) else sessions[i]
  {
    if sessions != [] {
      RevokedMeans(sessions[1..], id);
    }
  }

  /**
   What redeeming a login does: a text that passes the checks of its message has
   its nonce spent, and a session is opened exactly when nothing refuses it, from
   now until the message expires.
   */
  lemma RedeemingMeans(c: Crypto, t: Tables, call: Call)
    requires call.Redeeming?
    ensures var after, reply := AfterCall(c, t, call), ReplyTo(c, t, call);
      var refusal := SessionRefusal(c, t.nonces, t.sessions, call.pid, call.address, call.text, call.signature,
                                    call.contract, call.id, call.now, call.later);
      && after.bindings == t.bindings
      && after.nonces == (
           if !IsBindingMessage(call.text) && NamesPid(call.text, call.pid)
           then Spend(t.nonces, ParseNonce(call.text), call.now) else t.nonces)
      && (refusal.Some? ==> reply == Opened(Err(refusal.value)) && after.sessions == t.sessions)
      && (refusal == None ==>
            && ParseExpiry(c.clockwork, call.text).Some?
            && var s := Session(call.id, call.address, ParseNonce(call.text), call.later,
                                ParseExpiry(c.clockwork, call.text).value, call.signature, call.pid, false);
            reply == Opened(Ok(s)) && after.sessions == t.sessions + [s])
  {
    hide IsBindingMessage, NamesPid, ParseNonce, ParseExpiry, Ruling, Spend;
  }

  // ----- bindings

  /** What stating a binding does, likewise. */
  lemma StatingMeans(c: Crypto, t: Tables, call: Call)
    requires call.Stating?
    ensures var after, reply := AfterCall(c, t, call), ReplyTo(c, t, call);
      var refusal := BindingRefusal(c, t.nonces, t.bindings, call.pid, call.address, call.text, call.signature,
                                    call.contract, call.role, call.now);
      && after.sessions == t.sessions
      && after.nonces == (
           if ParseBinding(call.text) == Some((call.pid, call.role)) && NamesPid(call.text, call.pid)
           then Spend(t.nonces, ParseNonce(call.text), call.now) else t.nonces)
      && (refusal.Some? ==> reply == Bound(Err(refusal.value)) && after.bindings == t.bindings)
      && (refusal == None ==>
            var b := NewBinding(c, call.key, call.pid, call.address, call.text, call.signature, call.defaultChain,
                                call.role);
            reply == Bound(Ok(b)) && after.bindings == t.bindings + [b])
  {
    hide ParseBinding, NamesPid, ParseNonce, Ruling, Spend, NewBinding;
  }

  lemma DomainOf(id: string)
    ensures Preimage(BINDING_DOMAIN, [id]) == "REFINET-BINDING-v1" + id
  {
  }

  /** What a new binding records and signs. */
  lemma NewBindingMeans(
      c: Crypto, key: string, pid: string, address: string, text: string, signature: string, defaultChain: int,
      role: string)
    ensures var id := c.library.sha256(pid + c.lower(address) + ParseNonce(text));
      NewBinding(c, key, pid, address, text, signature, defaultChain, role) == Binding(
        id, pid, c.library.publicKey(key), address, ParseChainId(c.clockwork, text, defaultChain), text, signature,
        c.library.sign(key, "REFINET-BINDING-v1" + id), role)
  {
    hide ParseNonce, ParseChainId, Preimage;
    DomainOf(c.library.sha256(pid + c.lower(address) + ParseNonce(text)));
  }

  /**
   A binding verifies exactly when its id is the hash of PID, wallet and nonce,
   its message states its Pillar and role, the wallet signed the message and the
   Pillar's key signed the id under the binding domain; one that states neither
   verifies as legacy when the key signed the bare id.
   */
  lemma VerifyMeans(c: Crypto, b: Binding)
    ensures var verdict := VerifyBinding(c, b);
      var own := b.id == c.library.sha256(b.pid + c.lower(b.address) + ParseNonce(b.message));
      var signed := c.recovers(b.message, b.signature, b.address);
      && (verdict == Valid <==>
            && own && ParseBinding(b.message) == Some((b.pid, b.role)) && signed
            && c.library.verify("REFINET-BINDING-v1" + b.id, b.pidSignature, b.publicKey))
      && (verdict == ValidLegacy <==>
            && own && ParseBinding(b.message) == None && signed
            && c.library.verify(b.id, b.pidSignature, b.publicKey))
      && (verdict == IdMismatch <==> !own)
      && (verdict == OtherPid <==>
            own && ParseBinding(b.message).Some? && ParseBinding(b.message).value.0 != b.pid)
      && (verdict == OtherRole <==>
            && own && ParseBinding(b.message).Some? && ParseBinding(b.message).value.0 == b.pid
            && ParseBinding(b.message).value.1 != b.role)
      && (verdict == WalletMismatch <==>
            own && ParseBinding(b.message) in {None, Some((b.pid, b.role))} && !signed)
  {
    hide ParseBinding, ParseNonce, Preimage;
    DomainOf(b.id);
  }

  /** The binding makes the wallet the Pillar's deployer; a legacy one does so without saying it. */
  predicate Deploys(b: Binding, pid: string, legacy: bool) {
    b.pid == pid && b.role == "deployer" && (legacy <==> ParseBinding(b.message) == None)
  }

  /** Binding i is the first that states the Pillar's deployer. */
  predicate FirstStated(bindings: seq<Binding>, pid: string, i: int) {
    0 <= i < |bindings| && Deploys(bindings[i], pid, false) && NoneStated(bindings[..i], pid)
  }

  predicate NoneStated(bindings: seq<Binding>, pid: string) {
    forall j :: 0 <= j < |bindings| ==> !Deploys(bindings[j], pid, false)
  }

  /** The same with legacy bindings, when no binding states it. */
  predicate FirstLegacy(bindings: seq<Binding>, pid: string, i: int) {
    0 <= i < |bindings| && Deploys(bindings[i], pid, true) && NoneLegacy(bindings[..i], pid)
  }

  predicate NoneLegacy(bindings: seq<Binding>, pid: string) {
    forall j :: 0 <= j < |bindings| ==> !Deploys(bindings[j], pid, true)
  }

  lemma {:induction false} FirstMeans(bindings: seq<Binding>, pid: string, i: int)
    ensures NoneStated(bindings, pid) ==> First(bindings, pid, false) == None
    ensures FirstStated(bindings, pid, i) ==> First(bindings, pid, false) == Some(bindings[i])
    ensures NoneStated(bindings, pid) && NoneLegacy(bindings, pid) ==> First(bindings, pid, true) == None
    ensures NoneStated(bindings, pid) && FirstLegacy(bindings, pid, i) ==>
      First(bindings, pid, true) == Some(bindings[i])
  {
    hide ParseBinding;
    if bindings != [] {
      var rest := bindings[1..];
      FirstMeans(rest, pid, i - 1);
      if i > 0 && i < |bindings| {
        assert rest[..i - 1] == bindings[..i][1..];
      }
    }
  }

  /** The canonical deployer is the first that is stated, else the first legacy one, else there is none. */
  lemma DeployerMeans(bindings: seq<Binding>, pid: string, i: int)
    ensures FirstStated(bindings, pid, i) ==> DeployerBinding(bindings, pid) == Some(bindings[i])
    ensures NoneStated(bindings, pid) && FirstLegacy(bindings, pid, i) ==>
      DeployerBinding(bindings, pid) == Some(bindings[i])
    ensures NoneStated(bindings, pid) && NoneLegacy(bindings, pid) ==> DeployerBinding(bindings, pid) == None
  {
    hide First, Deploys, FirstStated, NoneStated, FirstLegacy, NoneLegacy;
    FirstMeans(bindings, pid, i);
  }
}
