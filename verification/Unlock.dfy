/** The arms of handle_stream that wait for nobody. */
module Handlers {
  import opened Wrappers
  import opened Hex
  import opened Timestamps
  import opened DaemonCrypto
  import opened PendingMap
  import opened SharedMap
  import opened Daemon
  import opened Json
  import opened ReadBack
  import KS = KeyStore
  import R = Response

  /** The Pair arm; `store` is None where the vault could not be opened. Accepted means that the vault now
      loads to the keys it loaded to and this one; every other answer leaves it as it was. */
  method HandlePair(store: Option<KS.KeyStore>, publicKey: string, code: string, readable: bool, writable: bool)
    returns (response: R.Response)
    modifies if store.Some? then {store.value} else {}
    ensures response ==
            if code == "" then R.Error("pairing code is required")
            else if store == None || Decode(publicKey).Err? then
              R.Error("pairing key is invalid or vault is unavailable")
            else if |Decode(publicKey).value| != 32 then R.Error("public key must be 32 bytes")
            else R.Paired(KS.Load(if readable then old(store.value.entry) else None).Ok? && writable)
    ensures response == R.Paired(true) ==>
              && Presentable(code, publicKey, DecodeOrEmpty(publicKey))
              && store.value.entry == KS.AfterAdd(old(store.value.entry), DecodeOrEmpty(publicKey), readable)
              && KS.Load(store.value.entry) ==
                 Ok(KS.Added(KS.Load(if readable then old(store.value.entry) else None).value,
                             DecodeOrEmpty(publicKey)))
    ensures response != R.Paired(true) && store.Some? ==> store.value.entry == old(store.value.entry)
  {
    if code == "" { return R.Error("pairing code is required"); }
    var bytes := Decode(publicKey);
    if store == None || bytes.Err? { return R.Error("pairing key is invalid or vault is unavailable"); }
    if |bytes.value| != 32 { return R.Error("public key must be 32 bytes"); }
    var added := store.value.AddPublicKey(bytes.value, readable, writable);
    response := R.Paired(added.Ok?);
  }

  /** What a Challenge call is answered with, from the entry it found. */
  function ChallengeAnswer(first: Option<(Id, seq<byte>, nat)>): R.Response {
    match first
    case None => R.Error("no workstation authentication request is pending")
    case Some((id, nonce, timestamp)) => R.Challenge(id, Encode(nonce), timestamp)
  }

  method HandleChallenge(state: SharedState) returns (response: R.Response)
    ensures state.pending == map[] ==> response == R.Error("no workstation authentication request is pending")
    ensures state.pending != map[] ==>
              && response.Challenge? && response.challengeId in state.pending
              && Decode(response.nonce) == Ok(state.pending[response.challengeId].nonce)
              && response.timestamp == state.pending[response.challengeId].timestamp
  {
    var first := state.First();
    response := ChallengeAnswer(first);
    if first.Some? { Hex.RoundTrip(first.value.1); }
  }

  /** From the printed challenge to the commit: a phone that reads the answer by its field names and sends the
      identifier, the nonce and the timestamp back names exactly the entry that was handed out; so the commit
      of its Verify call matches, as long as the entry stays and is not flagged. */
  lemma ChallengeReadsBack(pending: map<Id, PendingAuth<nat>>, id: Id) returns (fields: map<string, JsonValue>)
    requires id in pending
    ensures ReadObject(R.Print(ChallengeAnswer(Some((id, pending[id].nonce, pending[id].timestamp))))) == Some(fields)
    ensures "type" in fields && fields["type"] == Text("challenge")
    ensures "challenge_id" in fields && fields["challenge_id"] == Text(id)
    ensures "nonce" in fields && fields["nonce"].Text? && DecodeOrEmpty(fields["nonce"].text) == pending[id].nonce
    ensures "timestamp" in fields && fields["timestamp"] == Number(pending[id].timestamp)
    ensures Matches(pending, id, DecodeOrEmpty(fields["nonce"].text), fields["timestamp"].number) <==>
            !pending[id].authorized
  {
    var answer := ChallengeAnswer(Some((id, pending[id].nonce, pending[id].timestamp)));
    PrintReadsBack(answer);
    fields := Fields(answer);
    Hex.RoundTrip(pending[id].nonce);
  }

  /** The keys are tried in order, each with its own clock reading, until one verifies. */
  method TryKeys(ed: Ed25519, keys: seq<seq<byte>>, times: nat -> nat, nonce: seq<byte>, timestamp: nat,
                 signature: seq<byte>) returns (evidence: Option<Evidence>)
    requires timestamp < TWO_64
    ensures evidence == FindEvidence(ed, keys, 0, times, nonce, timestamp, signature)
  {
    var i := 0;
    while i < |keys|
      invariant 0 <= i <= |keys|
      invariant FindEvidence(ed, keys, 0, times, nonce, timestamp, signature) ==
                FindEvidence(ed, keys, i, times, nonce, timestamp, signature)
    {
      var now := times(i);
      var r := Verify(ed, keys[i], nonce, timestamp, signature, now);
      if r.Ok? { return Some(Evidence(keys[i], now)); }
      i := i + 1;
    }
    evidence := None;
  }
}

/** From the phone's key to the workstation's PAM module. */
module Unlock {
  import opened Wrappers
  import opened DaemonCrypto
  import opened Daemon
  import opened DaemonSafety
  import opened DaemonWaits
  import Pam
  import Response

  /** What handle_stream writes back for an Authorize call. */
  function AnswerLine(answer: bool): string {
    Response.Print(Response.Authorized(answer)) + "\n"
  }

  /** If PAM grants on the line the daemon answered a request with, then in the daemon's history some
      Verify approved that very request: its nonce and timestamp were signed, within 30 seconds, under a
      key that the vault held when that Verify read it, and that was there from the start or had been
      stored by then for a Pair request with a code. */
  lemma GrantNeedsApproval(ed: Ed25519, vault: Option<string>, es: seq<Event>, n: nat, r: nat, rest: string)
    requires n <= |es| && r in At(ed, vault, es, n).requests && At(ed, vault, es, n).requests[r].phase.Answered?
    requires Pam.Grants(AnswerLine(At(ed, vault, es, n).requests[r].phase.answer) + rest)
    ensures exists v: nat :: Approves(ed, vault, es, n, v, r)
  {
    var s := At(ed, vault, es, n);
    Pam.GrantsExactly(Response.Authorized(s.requests[r].phase.answer), rest);
    EveryGrantWasApproved(ed, vault, es, n);
    var m :| ApprovalMatch(ed, vault, es, n, m);
    assert r in m <==> AnsweredTrue(s, r);
    assert Approves(ed, vault, es, n, m[r], r);
  }

  /** In every run the module grants exactly when the request's entry was flagged while its waiter was armed
      and the request then found the flag, before the timeout; with fresh identifiers, exactly when it then
      read the flag at all. */
  lemma GrantedExactly(ed: Ed25519, vault: Option<string>, es: seq<Event>, n: nat, r: nat, rest: string)
    requires n <= |es| && r in At(ed, vault, es, n).requests && At(ed, vault, es, n).requests[r].phase.Answered?
    ensures Pam.Grants(AnswerLine(At(ed, vault, es, n).requests[r].phase.answer) + rest) <==>
            FlaggedThenFound(ed, vault, es, n, r)
    ensures FreshIds(ed, vault, es) ==>
              (Pam.Grants(AnswerLine(At(ed, vault, es, n).requests[r].phase.answer) + rest) <==>
               FlaggedThenRead(ed, vault, es, n, r))
  {
    Pam.GrantsExactly(Response.Authorized(At(ed, vault, es, n).requests[r].phase.answer), rest);
    AnsweredTrueInAnyRun(ed, vault, es, n, r);
    if FreshIds(ed, vault, es) { AnsweredTrueExactly(ed, vault, es, n, r); }
  }
}
