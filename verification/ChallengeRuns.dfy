/** What holds of any run of the challenge registry, as a function of its calls (db/live_db.py, auth/session.py). */
module ChallengeRuns {
  import opened SiweMessages
  import opened ChallengeRegistry

  /** A call that does not issue the nonce leaves it used. */
  lemma StaysUsed(c: Crypto, t: Tables, call: Call, nonce: string)
    requires Used(t.nonces, nonce) && !(call.Issuing? && call.nonce == nonce)
    ensures Used(AfterCall(c, t, call).nonces, nonce)
  {
    hide ReplyTo, Consumes, NonceOf;
  }

  /** A call that puts a nonce to the registry leaves it used, whatever the reply. */
  lemma AttemptUses(c: Crypto, t: Tables, call: Call)
    requires Consumes(call) && NonceOf(call) != ""
    ensures Used(AfterCall(c, t, call).nonces, NonceOf(call))
  {
    hide ReplyTo, ParseNonce, IsBindingMessage, ParseBinding, NamesPid;
  }

  /** A call whose nonce is used, or empty, is not accepted. */
  lemma UsedIsRefused(c: Crypto, t: Tables, call: Call)
    requires Used(t.nonces, NonceOf(call)) || NonceOf(call) == ""
    ensures !AcceptedReply(ReplyTo(c, t, call))
  {
    hide ParseNonce, IsBindingMessage, ParseBinding, NamesPid, ParseExpiry, NewBinding, MessageFor;
  }

  /** An accepted call put its nonce to the registry. */
  lemma AcceptedConsumes(c: Crypto, t: Tables, call: Call)
    requires AcceptedReply(ReplyTo(c, t, call))
    ensures Consumes(call) && NonceOf(call) != ""
  {
    hide ParseNonce, IsBindingMessage, ParseBinding, NamesPid, ParseExpiry, NewBinding, MessageFor;
  }

  /** None of the calls issues the nonce. */
  predicate NeverIssued(calls: seq<Call>, nonce: string) {
    forall k :: 0 <= k < |calls| ==> !(calls[k].Issuing? && calls[k].nonce == nonce)
  }

  lemma {:induction false} RunStaysUsed(c: Crypto, t: Tables, calls: seq<Call>, nonce: string)
    requires Used(t.nonces, nonce) && NeverIssued(calls, nonce)
    ensures Used(AfterCalls(c, t, calls).nonces, nonce)
  {
    hide Used, AfterCall;
    if calls != [] {
      RunStaysUsed(c, t, calls[..|calls| - 1], nonce);
      StaysUsed(c, AfterCalls(c, t, calls[..|calls| - 1]), calls[|calls| - 1], nonce);
    }
  }

  lemma {:induction false} CallsCompose(c: Crypto, t: Tables, calls: seq<Call>, more: seq<Call>)
    ensures AfterCalls(c, t, calls + more) == AfterCalls(c, AfterCalls(c, t, calls), more)
  {
    hide AfterCall;
    if more == [] {
      assert calls + more == calls;
    } else {
      CallsCompose(c, t, calls, more[..|more| - 1]);
      assert (calls + more)[..|calls + more| - 1] == calls + more[..|more| - 1];
    }
  }

  /**
   Once a call of a run has put a nonce to the registry, whatever came of it,
   no later call of the run is accepted with that nonce, unless it is issued
   again.
   */
  lemma OneAttemptSpends(c: Crypto, t: Tables, calls: seq<Call>, i: nat, j: nat)
    requires i < j < |calls| && Consumes(calls[i]) && NonceOf(calls[i]) == NonceOf(calls[j]) != ""
    requires NeverIssued(calls[i + 1..j], NonceOf(calls[i]))
    ensures !AcceptedReply(ReplyTo(c, AfterCalls(c, t, calls[..j]), calls[j]))
  {
    hide Used, AfterCall, AfterCalls, ReplyTo, Consumes, NonceOf, NeverIssued, AcceptedReply;
    var nonce, between := NonceOf(calls[i]), calls[i + 1..j];
    var before := AfterCalls(c, t, calls[..i]);
    AttemptUses(c, before, calls[i]);
    AfterCallsNext(c, t, calls, i);
    RunStaysUsed(c, AfterCalls(c, t, calls[..i + 1]), between, nonce);
    CallsCompose(c, t, calls[..i + 1], between);
    assert calls[..i + 1] + between == calls[..j];
    UsedIsRefused(c, AfterCalls(c, t, calls[..j]), calls[j]);
  }

  /** So of two calls with one nonce, not issued again between them, at most one is accepted. */
  lemma AtMostOneAccepted(c: Crypto, t: Tables, calls: seq<Call>, i: nat, j: nat)
    requires i < j < |calls| && NonceOf(calls[i]) == NonceOf(calls[j])
    requires NeverIssued(calls[i + 1..j], NonceOf(calls[i]))
    ensures !(AcceptedReply(ReplyTo(c, AfterCalls(c, t, calls[..i]), calls[i])) &&
              AcceptedReply(ReplyTo(c, AfterCalls(c, t, calls[..j]), calls[j])))
  {
    hide AfterCall, AfterCalls, ReplyTo, Consumes, NonceOf, NeverIssued, AcceptedReply;
    if AcceptedReply(ReplyTo(c, AfterCalls(c, t, calls[..i]), calls[i])) {
      AcceptedConsumes(c, AfterCalls(c, t, calls[..i]), calls[i]);
      OneAttemptSpends(c, t, calls, i, j);
    }
  }

  /** No text is accepted as a session by one Pillar's tables and as a binding by any, whatever the rest. */
  lemma NotBoth(c: Crypto, t: Tables, t': Tables, opening: Call, stating: Call)
    requires opening.Redeeming? && stating.Stating? && opening.text == stating.text
    ensures !(AcceptedReply(ReplyTo(c, t, opening)) && AcceptedReply(ReplyTo(c, t', stating)))
  {
    hide ParseNonce, ParseStatement, NamesPid, ParseExpiry, NewBinding, MessageFor, Ruling;
    GatesDisjoint(opening.text);
  }
}
