/** Challenges from issue to use: signing in and binding a wallet (auth/session.py, crypto/binding.py). */
module ChallengeFlows {
  import opened Wrappers
  import opened PythonText
  import opened SiweMessages
  import opened Envelopes
  import opened ChallengeRegistry

  /** An unspent row of the challenge, still in its lifetime. */
  predicate Waiting(nonces: map<string, Nonce>, nonce: string, purpose: Purpose, pid: string, now: int) {
    && nonce != "" && nonce in nonces
    && var row := nonces[nonce];
    && row.purpose == purpose && row.pid == pid && row.spentAt == None && now <= row.expiresAt
  }

  /** An issued login message with a verifying wallet opens a session until the message expires. */
  lemma LoginAccepted(
      c: Crypto, m: Challenge, resources: seq<string>, nonces: map<string, Nonce>, sessions: seq<Session>,
      signature: string, contract: bool, id: string, now: int, later: int)
    requires c.clockwork.Ideal() && Issued(m) && m.statement == LoginStatement(m.pid)
    requires Waiting(nonces, m.nonce, ForLogin, m.pid, now)
    requires c.recovers(Build(c.clockwork, m, resources), signature, m.address) || contract
    requires !HasNonce(sessions, m.nonce) && !HasId(sessions, id)
    ensures var text := Build(c.clockwork, m, resources);
      && ParseNonce(text) == m.nonce && ParseExpiry(c.clockwork, text) == Some(m.expiresAt)
      && SessionRefusal(c, nonces, sessions, m.pid, m.address, text, signature, contract, id, now, later)
         == if later <= m.expiresAt then None else Some(MessageExpired)
  {
    hide Build, ParseNonce, ParseExpiry, NamesPid, IsBindingMessage, ParseBinding, Issued, LoginStatement,
         HasNonce, HasId;
    LoginReadsBack(c.clockwork, m, resources, m.pid);
  }

  /** An issued binding message with a verifying wallet makes a binding. */
  lemma BindingAccepted(
      c: Crypto, m: Challenge, role: string, resources: seq<string>, nonces: map<string, Nonce>,
      bindings: seq<Binding>, signature: string, contract: bool, now: int)
    requires c.clockwork.Ideal() && Issued(m) && role in ROLES && m.statement == BindingStatement(m.pid, role)
    requires Waiting(nonces, m.nonce, ForBinding, m.pid, now)
    requires c.recovers(Build(c.clockwork, m, resources), signature, m.address) || contract
    requires !HasBinding(bindings, BindingId(c, m.pid, m.address, m.nonce))
    ensures var text := Build(c.clockwork, m, resources);
      BindingRefusal(c, nonces, bindings, m.pid, m.address, text, signature, contract, role, now) == None
  {
    hide Build, ParseNonce, ParseExpiry, NamesPid, IsBindingMessage, ParseBinding, Issued, BindingStatement,
         HasBinding, ROLES;
    BindingReadsBack(c.clockwork, m, role, resources, m.pid);
  }

  lemma FreshNonce(sessions: seq<Session>, redeemed: map<string, int>, issued: map<string, Issue>, nonce: string)
    requires SessionsRedeem(sessions, redeemed, issued) && nonce !in issued
    ensures !HasNonce(sessions, nonce)
  {
  }

  /** What a caller of create_challenge chooses, and the nonce and the time. */
  datatype Request = Request(address: string, chainId: int, companyUrl: string, authority: string,
                             pid: string, nonce: string, now: int)
  {
    /** The authority and address are lines that begin with no field label; the PID and nonce have no space. */
    ghost predicate Plain() {
      && OneLine(authority) && OneLine(address) && Unlabelled(FirstLine(authority)) && Unlabelled(address)
      && Token(pid) && pid != "" && Token(nonce) && nonce != ""
    }
  }

  /** A wallet that signs a login challenge in time signs in. */
  method SignIn(
      registry: Registry, q: Request,
      wallet: string -> string, contract: bool, id: string, now: int, later: int)
    returns (session: Session)
    requires registry.Valid() && registry.crypto.clockwork.Ideal() && q.Plain() && q.nonce !in registry.issued
    requires registry.clock <= q.now <= now <= later && now <= q.now + LOGIN_TTL && later <= q.now + SESSION_SECONDS
    requires contract || forall text :: registry.crypto.recovers(text, wallet(text), q.address)
    requires !HasId(registry.sessions, id)
    modifies registry
    ensures registry.Valid() && registry.sessions == old(registry.sessions) + [session]
    ensures session.id == id && session.address == q.address && session.nonce == q.nonce && session.pid == q.pid
    ensures session.expiresAt == q.now + SESSION_SECONDS && !session.revoked
  {
    hide Rows, Redemptions, SessionsRedeem, BindingsRedeem, BindingsStated, Library.Ideal, Clockwork.Ideal,
         Build, ParseNonce, ParseExpiry, SessionRefusal, Unlabelled, OneLine, Token, FirstLine, LoginStatement,
         NamesPid, IsBindingMessage, HasNonce, HasId;
    FreshNonce(registry.sessions, registry.redeemed, registry.issued, q.nonce);
    var text := registry.CreateChallenge(q.address, q.chainId, ForLogin, "", q.companyUrl, q.authority, q.pid,
                                         q.nonce, q.now);
    ghost var m := Challenge(q.authority, q.address, LoginStatement(q.pid), q.pid, q.chainId, q.nonce, q.now,
                             q.now + SESSION_SECONDS);
    ghost var resources := [PillarUri(q.pid)] + (if q.companyUrl == "" then [] else [q.companyUrl]);
    assert text.value == Build(registry.crypto.clockwork, m, resources);
    LoginAccepted(registry.crypto, m, resources, registry.nonces, registry.sessions, wallet(text.value),
                  contract, id, now, later);
    var r := registry.EstablishSession(q.pid, q.address, text.value, wallet(text.value), contract, id, now, later);
    session := r.value;
  }

  /**
   A wallet that signs a binding challenge in time is bound; the stored record
   verifies if ecrecover answers for the wallet, and not if only a contract does.
   */
  method BindWallet(
      registry: Registry, q: Request, role: string, key: string,
      wallet: string -> string, contract: bool, defaultChain: int, now: int)
    returns (binding: Binding)
    requires registry.Valid() && registry.crypto.clockwork.Ideal() && q.Plain() && q.nonce !in registry.issued
    requires role in ROLES
    requires registry.clock <= q.now <= now <= q.now + BINDING_TTL
    requires contract || forall text :: registry.crypto.recovers(text, wallet(text), q.address)
    requires !HasBinding(registry.bindings, BindingId(registry.crypto, q.pid, q.address, q.nonce))
    modifies registry
    ensures registry.Valid() && registry.bindings == old(registry.bindings) + [binding]
    ensures binding.pid == q.pid && binding.role == role && binding.address == q.address
    ensures VerifyBinding(registry.crypto, binding)
            == if registry.crypto.recovers(binding.message, binding.signature, q.address)
               then BindingVerdict.Valid else WalletMismatch
  {
    hide Rows, Redemptions, SessionsRedeem, BindingsRedeem, Library.Ideal, Clockwork.Ideal, Build, ParseNonce,
         ParseBinding, ParseChainId, BindingRefusal, Unlabelled, OneLine, Token, FirstLine, BindingStatement,
         NamesPid, HasBinding, ROLES, Stated, VerifyBinding, BindingId, Preimage;
    var text := registry.CreateChallenge(q.address, q.chainId, ForBinding, role, q.companyUrl, q.authority,
                                         q.pid, q.nonce, q.now);
    ghost var m := Challenge(q.authority, q.address, BindingStatement(q.pid, role), q.pid, q.chainId, q.nonce,
                             q.now, q.now + BINDING_TTL);
    ghost var resources := [PillarUri(q.pid)] + (if q.companyUrl == "" then [] else [q.companyUrl]);
    assert text.value == Build(registry.crypto.clockwork, m, resources);
    BindingAccepted(registry.crypto, m, role, resources, registry.nonces, registry.bindings,
                    wallet(text.value), contract, now);
    var r := registry.CreateBinding(key, q.pid, q.address, text.value, wallet(text.value), contract,
                                    defaultChain, role, now);
    binding := r.value;
    assert registry.bindings[|registry.bindings| - 1] == binding;
    StatedVerifiesIff(registry.crypto, binding);
  }

  /** A contract wallet is bound by a run, and its stored record then fails to verify. */
  method ContractWalletMismatch(
      crypto: Crypto, q: Request, role: string, key: string) returns (registry: Registry, binding: Binding)
    requires crypto.library.Ideal() && crypto.clockwork.Ideal() && q.Plain() && q.now >= 0 && role in ROLES
    requires forall text, signature :: !crypto.recovers(text, signature, q.address)
    ensures registry.crypto == crypto && registry.bindings == [binding]
    ensures VerifyBinding(crypto, binding) == WalletMismatch
  {
    hide Rows, Redemptions, SessionsRedeem, BindingsRedeem, BindingsStated, Library.Ideal, Clockwork.Ideal,
         Unlabelled, VerifyBinding, BindingId, ROLES, Request.Plain;
    registry := new Registry(crypto);
    binding := BindWallet(registry, q, role, key, text => "", true, 1, q.now);
  }
}
