/** Signature checking in the daemon. Ed25519 itself (section 5.1 of RFC 8032) is a parameter. */
module DaemonCrypto {
  import opened Wrappers
  import opened Hex
  import opened Timestamps

  const NONCE_LEN: nat := 32
  const FRESHNESS_WINDOW_SECONDS: nat := 30

  /** The curve operations: which 32 bytes are a public key, and which signatures are valid. */
  datatype Ed25519 = Ed25519(isPoint: seq<byte> -> bool, verify: (seq<byte>, seq<byte>, seq<byte>) -> bool)

  datatype CryptoError = InvalidPublicKey | InvalidSignature | StaleTimestamp

  predicate IsFresh(timestamp: nat, now: nat) {
    (if timestamp < now then now - timestamp else timestamp - now) <= FRESHNESS_WINDOW_SECONDS
  }

  function VerifySignature(ed: Ed25519, key: seq<byte>, nonce: seq<byte>, timestamp: nat,
                           signature: seq<byte>, now: nat): Result<(), CryptoError>
  {
    if |nonce| != NONCE_LEN || !IsFresh(timestamp, now) then Err(StaleTimestamp)
    else if |key| != 32 || !ed.isPoint(key) then Err(InvalidPublicKey)
    else if |signature| != 64 then Err(InvalidSignature)
    else if ed.verify(key, nonce + BigEndian(timestamp, 8), signature) then Ok(())
    else Err(InvalidSignature)
  }

  /** The 40-byte payload is filled in place: the nonce, then the timestamp's bytes. */
  method Verify(ed: Ed25519, key: seq<byte>, nonce: seq<byte>, timestamp: nat,
                signature: seq<byte>, now: nat) returns (r: Result<(), CryptoError>)
    requires timestamp < TWO_64
    ensures r == VerifySignature(ed, key, nonce, timestamp, signature, now)
  {
    if |nonce| != NONCE_LEN || !IsFresh(timestamp, now) { return Err(StaleTimestamp); }
    if |key| != 32 || !ed.isPoint(key) { return Err(InvalidPublicKey); }
    if |signature| != 64 { return Err(InvalidSignature); }
    var payload := new byte[40](_ => 0);
    CopyInto(payload, 0, nonce);
    CopyInto(payload, NONCE_LEN, BigEndian(timestamp, 8));
    assert payload[..] == nonce + BigEndian(timestamp, 8);
    r := if ed.verify(key, payload[..], signature) then Ok(()) else Err(InvalidSignature);
  }

  /** `copy_from_slice` on a part of the payload. */
  method CopyInto(payload: array<byte>, start: nat, source: seq<byte>)
    requires start + |source| <= payload.Length
    modifies payload
    ensures payload[start..start + |source|] == source
    ensures payload[..start] == old(payload[..start])
    ensures payload[start + |source|..] == old(payload[start + |source|..])
  {
    for i := 0 to |source|
      invariant forall j :: 0 <= j < i ==> payload[start + j] == source[j]
      invariant forall j :: 0 <= j < payload.Length && !(start <= j < start + i) ==> payload[j] == old(payload[j])
    {
      payload[start + i] := source[i];
    }
  }

  /** Which signatures are found valid, in numbers. */
  lemma VerifiesExactly(ed: Ed25519, key: seq<byte>, nonce: seq<byte>, timestamp: nat, signature: seq<byte>, now: nat)
    ensures VerifySignature(ed, key, nonce, timestamp, signature, now).Ok? <==>
            && |nonce| == 32 && timestamp - 30 <= now <= timestamp + 30
            && |key| == 32 && ed.isPoint(key) && |signature| == 64
            && ed.verify(key, nonce + BigEndian(timestamp, 8), signature)
    ensures VerifySignature(ed, key, nonce, timestamp, signature, now) == Err(StaleTimestamp) <==>
            |nonce| != 32 || now < timestamp - 30 || timestamp + 30 < now
  {}

  /** What a valid signature says: it was checked inside the window, over exactly this nonce and
      timestamp. A signature that also checks for another challenge is a signature on other bytes. */
  lemma ValidSignatureBinds(ed: Ed25519, key: seq<byte>, n1: seq<byte>, t1: nat, n2: seq<byte>, t2: nat,
                            signature: seq<byte>, now: nat)
    requires t1 < TWO_64 && t2 < TWO_64
    requires VerifySignature(ed, key, n1, t1, signature, now).Ok?
    ensures t1 - 30 <= now <= t1 + 30 && |n1| == 32 && |key| == 32 && |signature| == 64
    ensures ed.verify(key, n1 + BigEndian(t1, 8), signature)
    ensures n1 + BigEndian(t1, 8) == n2 + BigEndian(t2, 8) ==> n1 == n2 && t1 == t2
  {
    if n1 + BigEndian(t1, 8) == n2 + BigEndian(t2, 8) { UnsignedPayloadInjective(n1, t1, n2, t2); }
  }
}

/** The critical sections on the daemon's map of pending requests, as functions of the map. */
module PendingMap {
  import opened Hex

  type Id = string

  /** N stands for the identity of the Notify that the request allocated. */
  datatype PendingAuth<N> = PendingAuth(nonce: seq<byte>, timestamp: nat, authorized: bool, notify: N)

  predicate IsAuthorized<N>(pending: map<Id, PendingAuth<N>>, id: Id) {
    id in pending && pending[id].authorized
  }

  predicate Matches<N>(pending: map<Id, PendingAuth<N>>, id: Id, nonce: seq<byte>, timestamp: nat) {
    id in pending && pending[id].nonce == nonce && pending[id].timestamp == timestamp && !pending[id].authorized
  }

  function Flagged<N>(pending: map<Id, PendingAuth<N>>, id: Id): map<Id, PendingAuth<N>>
    requires id in pending
  {
    pending[id := pending[id].(authorized := true)]
  }
}

/** The same critical sections on the shared objects. */
module SharedMap {
  import opened Wrappers
  import opened Hex
  import opened PendingMap

  /** tokio's Notify as one request uses it: it has at most one waiter, and `notify_waiters` stores
      no permit, so a notification that finds no waiter is lost. */
  class Notify {
    var waiting: bool
    var woken: bool

    constructor ()
      ensures !waiting && !woken
    {
      waiting, woken := false, false;
    }

    method Notified()
      modifies this
      ensures waiting && !woken
    {
      waiting, woken := true, false;
    }

    method NotifyWaiters()
      modifies this
      ensures !waiting && woken == (old(waiting) || old(woken))
    {
      if waiting { woken := true; }
      waiting := false;
    }
  }

  class SharedState {
    var pending: map<Id, PendingAuth<Notify>>

    constructor ()
      ensures pending == map[]
    {
      pending := map[];
    }

    /** A second request with the same identifier replaces the first. */
    method Insert(id: Id, nonce: seq<byte>, timestamp: nat) returns (notify: Notify)
      modifies this
      ensures fresh(notify) && !notify.waiting && !notify.woken
      ensures pending == old(pending)[id := PendingAuth(nonce, timestamp, false, notify)]
    {
      notify := new Notify();
      pending := pending[id := PendingAuth(nonce, timestamp, false, notify)];
    }

    method ReadFlag(id: Id) returns (authorized: bool)
      ensures authorized <==> IsAuthorized(pending, id)
    {
      authorized := if id in pending then pending[id].authorized else false;
    }

    method Remove(id: Id)
      modifies this
      ensures pending == old(pending) - {id}
    {
      pending := pending - {id};
    }

    /** Any entry may come first. */
    method First() returns (r: Option<(Id, seq<byte>, nat)>)
      ensures r == None <==> pending == map[]
      ensures r.Some? ==> r.value.0 in pending && r.value.1 == pending[r.value.0].nonce &&
                          r.value.2 == pending[r.value.0].timestamp
    {
      if pending == map[] { return None; }
      assert pending.Keys != {};
      var id :| id in pending.Keys;
      r := Some((id, pending[id].nonce, pending[id].timestamp));
    }

    /** The entry is flagged and its own request is woken, if that request waits at this moment. */
    method Commit(id: Id, nonce: seq<byte>, timestamp: nat) returns (matches: bool)
      modifies this, if id in pending then {pending[id].notify} else {}
      ensures matches <==> Matches(old(pending), id, nonce, timestamp)
      ensures matches ==> pending == Flagged(old(pending), id)
      ensures matches ==> var n := pending[id].notify;
                          !n.waiting && n.woken == (old(n.waiting) || old(n.woken))
      ensures !matches ==> pending == old(pending)
      ensures !matches && id in pending ==> unchanged(pending[id].notify)
    {
      if id !in pending { return false; }
      var entry := pending[id];
      matches := entry.nonce == nonce && entry.timestamp == timestamp && !entry.authorized;
      if matches {
        pending := pending[id := entry.(authorized := true)];
        entry.notify.NotifyWaiters();
      }
    }
  }
}

/** The state machine below numbers the requests where the shared map holds Notify objects. Renaming one
    into the other commutes with every critical section. */
module Numbering {
  import opened Hex
  import opened PendingMap

  function Renamed<M, N>(pending: map<Id, PendingAuth<M>>, number: M -> N): map<Id, PendingAuth<N>> {
    map id | id in pending ::
      PendingAuth(pending[id].nonce, pending[id].timestamp, pending[id].authorized, number(pending[id].notify))
  }

  lemma SectionsCommute<M, N>(pending: map<Id, PendingAuth<M>>, number: M -> N, id: Id, nonce: seq<byte>,
                              timestamp: nat, notify: M)
    ensures Renamed(pending[id := PendingAuth(nonce, timestamp, false, notify)], number) ==
            Renamed(pending, number)[id := PendingAuth(nonce, timestamp, false, number(notify))]
    ensures Renamed(pending - {id}, number) == Renamed(pending, number) - {id}
    ensures IsAuthorized(Renamed(pending, number), id) <==> IsAuthorized(pending, id)
    ensures Matches(Renamed(pending, number), id, nonce, timestamp) <==> Matches(pending, id, nonce, timestamp)
    ensures id in pending ==> Renamed(Flagged(pending, id), number) == Flagged(Renamed(pending, number), id)
  {
    assert Renamed(pending - {id}, number).Keys == Renamed(pending, number).Keys - {id};
  }
}

/** The approval protocol: any number of Pair, Authorize, Challenge and Verify calls interleave
    over one locked map and one vault. Calls are numbered; a number stands for the call's task and,
    for an Authorize, for the Notify it allocated. Identifiers, nonces and clock readings are
    inputs of the steps, so identifiers may collide and the clock may jump. */
module Daemon {
  import opened Wrappers
  import opened Hex
  import opened DaemonCrypto
  import opened PendingMap
  import KS = KeyStore

  datatype AuthPhase =
    | Inserted                  // the entry is in the map, no waiter is armed
    | Armed                     // waiting on its Notify
    | Woken                     // about to read the flag
    | Leaving(answer: bool)     // the wait is over, the entry not yet removed
    | Answered(answer: bool)

  datatype AuthCall = AuthCall(id: Id, nonce: seq<byte>, timestamp: nat, phase: AuthPhase)

  /** The key and the clock reading with which a signature was found valid. */
  datatype Evidence = Evidence(key: seq<byte>, checkedAt: nat)

  datatype VerifyPhase =
    | Checked(evidence: Evidence)                      // a signature held; the lock is not yet taken
    | Committed(evidence: Evidence, request: nat)      // answered true, having flagged this request's entry
    | Refused                                          // answered false

  datatype VerifyCall = VerifyCall(id: Id, nonce: seq<byte>, timestamp: nat, signature: seq<byte>, phase: VerifyPhase)

  datatype PairPhase = Loaded(keys: seq<seq<byte>>) | Paired | Failed

  datatype PairCall = PairCall(code: string, publicKey: string, key: seq<byte>, phase: PairPhase)

  datatype State = State(
    pending: map<Id, PendingAuth<nat>>,
    requests: map<nat, AuthCall>,
    verifies: map<nat, VerifyCall>,
    pairs: map<nat, PairCall>,
    vault: Option<string>,
    flaggedBy: map<nat, nat>)   // history: which Verify flagged a request's own entry

  datatype Event =
    | Pair(p: nat, code: string, publicKey: string, readable: bool)
    | StoreKeys(p: nat, writable: bool)
    | Insert(r: nat, id: Id, nonce: seq<byte>, timestamp: nat)
    | Arm(r: nat)
    | ReadFlag(r: nat)
    | TimeOut(r: nat)
    | Remove(r: nat)
    | Challenge(id: Id)
    | Check(v: nat, id: Id, nonceText: string, timestamp: nat, signatureText: string, readable: bool, times: nat -> nat)
    | Commit(v: nat)

  function Initial(vault: Option<string>): State {
    State(map[], map[], map[], map[], vault, map[])
  }

  /** `load_public_keys().ok()`, defaulting to no keys. */
  function LoadedKeys(vault: Option<string>): seq<seq<byte>> {
    match KS.Load(vault) case Ok(keys) => keys case Err(_) => []
  }

  /** `keys.iter().any(..)` on the keys from the i-th on, which reads the clock once per key it tries. */
  function FindEvidence(ed: Ed25519, keys: seq<seq<byte>>, i: nat, times: nat -> nat, nonce: seq<byte>,
                        timestamp: nat, signature: seq<byte>): (e: Option<Evidence>)
    requires i <= |keys|
    ensures e.Some? ==> e.value.key in keys &&
                        VerifySignature(ed, e.value.key, nonce, timestamp, signature, e.value.checkedAt).Ok?
    ensures e.Some? ==> exists j :: i <= j < |keys| && e.value == Evidence(keys[j], times(j)) &&
                          forall k :: i <= k < j ==>
                            VerifySignature(ed, keys[k], nonce, timestamp, signature, times(k)).Err?
    ensures e == None ==> forall j :: i <= j < |keys| ==>
                            VerifySignature(ed, keys[j], nonce, timestamp, signature, times(j)).Err?
    decreases |keys| - i
  {
    if i == |keys| then None
    else if VerifySignature(ed, keys[i], nonce, timestamp, signature, times(i)).Ok? then
      Some(Evidence(keys[i], times(i)))
    else FindEvidence(ed, keys, i + 1, times, nonce, timestamp, signature)
  }

  function CheckPhase(ed: Ed25519, keys: seq<seq<byte>>, times: nat -> nat, nonce: seq<byte>, timestamp: nat,
                      signature: seq<byte>): VerifyPhase
  {
    match FindEvidence(ed, keys, 0, times, nonce, timestamp, signature)
    case Some(evidence) => Checked(evidence)
    case None => Refused
  }

  /** A Pair request reaches the store only with a non-empty code and 32 bytes of hex. */
  predicate Presentable(code: string, publicKey: string, key: seq<byte>) {
    code != "" && Decode(publicKey) == Ok(key) && KS.IsKey(key)
  }

  predicate Enabled(s: State, e: Event) {
    match e
    case Pair(p, code, publicKey, _) => p !in s.pairs && Presentable(code, publicKey, DecodeOrEmpty(publicKey))
    case StoreKeys(p, _) => p in s.pairs && s.pairs[p].phase.Loaded?
    case Insert(r, _, nonce, _) => r !in s.requests && |nonce| == NONCE_LEN
    case Arm(r) => r in s.requests && s.requests[r].phase == Inserted
    case ReadFlag(r) => r in s.requests && s.requests[r].phase == Woken
    case TimeOut(r) => r in s.requests && s.requests[r].phase in {Armed, Woken}
    case Remove(r) => r in s.requests && s.requests[r].phase.Leaving?
    case Challenge(id) => id in s.pending
    case Check(v, _, _, _, _, _, _) => v !in s.verifies
    case Commit(v) => v in s.verifies && s.verifies[v].phase.Checked?
  }

  function SetPhase(s: State, r: nat, phase: AuthPhase): State
    requires r in s.requests
  {
    s.(requests := s.requests[r := s.requests[r].(phase := phase)])
  }

  /** Only the request whose Notify is signalled wakes, and only if it waits. */
  function Wake(requests: map<nat, AuthCall>, r: nat): map<nat, AuthCall> {
    if r in requests && requests[r].phase == Armed then requests[r := requests[r].(phase := Woken)] else requests
  }

  function PairStep(s: State, e: Event): State
    requires e.Pair? && Enabled(s, e)
  {
    var key := DecodeOrEmpty(e.publicKey);
    var phase := match KS.Load(if e.readable then s.vault else None)
                 case Ok(keys) => Loaded(keys)
                 case Err(_) => Failed;
    s.(pairs := s.pairs[e.p := PairCall(e.code, e.publicKey, key, phase)])
  }

  function StoreStep(s: State, e: Event): State
    requires e.StoreKeys? && Enabled(s, e)
  {
    var call := s.pairs[e.p];
    if e.writable then
      s.(pairs := s.pairs[e.p := call.(phase := Paired)], vault := Some(KS.Text(KS.Added(call.phase.keys, call.key))))
    else s.(pairs := s.pairs[e.p := call.(phase := Failed)])
  }

  function CheckStep(ed: Ed25519, s: State, e: Event): State
    requires e.Check? && Enabled(s, e)
  {
    var keys := LoadedKeys(if e.readable then s.vault else None);
    var nonce, signature := DecodeOrEmpty(e.nonceText), DecodeOrEmpty(e.signatureText);
    var phase := CheckPhase(ed, keys, e.times, nonce, e.timestamp, signature);
    s.(verifies := s.verifies[e.v := VerifyCall(e.id, nonce, e.timestamp, signature, phase)])
  }

  function CommitStep(s: State, e: Event): State
    requires e.Commit? && Enabled(s, e)
  {
    var call := s.verifies[e.v];
    if Matches(s.pending, call.id, call.nonce, call.timestamp) then
      var owner := s.pending[call.id].notify;
      s.(pending := Flagged(s.pending, call.id),
         requests := Wake(s.requests, owner),
         verifies := s.verifies[e.v := call.(phase := Committed(call.phase.evidence, owner))],
         flaggedBy := s.flaggedBy[owner := e.v])
    else s.(verifies := s.verifies[e.v := call.(phase := Refused)])
  }

  function Next(ed: Ed25519, s: State, e: Event): State
    requires Enabled(s, e)
  {
    match e
    case Pair(_, _, _, _) => PairStep(s, e)
    case StoreKeys(_, _) => StoreStep(s, e)
    case Insert(r, id, nonce, timestamp) =>
      s.(pending := s.pending[id := PendingAuth(nonce, timestamp, false, r)],
         requests := s.requests[r := AuthCall(id, nonce, timestamp, Inserted)])
    case Arm(r) => SetPhase(s, r, Armed)
    case ReadFlag(r) => SetPhase(s, r, if IsAuthorized(s.pending, s.requests[r].id) then Leaving(true) else Inserted)
    case TimeOut(r) => SetPhase(s, r, Leaving(false))
    case Remove(r) =>
      SetPhase(s, r, Answered(s.requests[r].phase.answer)).(pending := s.pending - {s.requests[r].id})
    case Challenge(_) => s
    case Check(_, _, _, _, _, _, _) => CheckStep(ed, s, e)
    case Commit(_) => CommitStep(s, e)
  }

  /** An event that is not enabled has no effect. */
  function Step(ed: Ed25519, s: State, e: Event): State {
    if Enabled(s, e) then Next(ed, s, e) else s
  }

  /** The state after the first n events. */
  function At(ed: Ed25519, vault: Option<string>, es: seq<Event>, n: nat): State
    requires n <= |es|
  {
    if n == 0 then Initial(vault) else Step(ed, At(ed, vault, es, n - 1), es[n - 1])
  }

  /** What holds at the start and is kept by every step holds in every reachable state. */
  lemma {:induction false} Invariance(inv: State -> bool, ed: Ed25519, vault: Option<string>, es: seq<Event>, n: nat)
    requires n <= |es| && inv(Initial(vault))
    requires forall s, e :: inv(s) ==> inv(Step(ed, s, e))
    ensures inv(At(ed, vault, es, n))
  {
    if n > 0 { Invariance(inv, ed, vault, es, n - 1); }
  }
}
