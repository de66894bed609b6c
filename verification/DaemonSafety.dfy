/** What every interleaving of the approval protocol keeps, whatever identifiers are drawn. */
module DaemonSafety {
  import opened Wrappers
  import opened Hex
  import opened DaemonCrypto
  import opened PendingMap
  import opened Daemon
  import KS = KeyStore

  /** A Pair call that presented this key with a code, stored it, and is answered true. */
  predicate Stored(call: PairCall, key: seq<byte>) {
    call.phase.Paired? && call.code != "" && Decode(call.publicKey) == Ok(key) && |key| == 32
  }

  /** A key the vault held at the start, or one that a Pair call has stored. */
  ghost predicate Known(s: State, vault: Option<string>, key: seq<byte>) {
    key in LoadedKeys(vault) || exists p :: p in s.pairs && Stored(s.pairs[p], key)
  }

  ghost predicate AllKnown(s: State, vault: Option<string>, keys: seq<seq<byte>>) {
    forall k :: k in keys ==> Known(s, vault, k)
  }

  /** An entry belongs to the request that inserted it, for as long as it is in the map. */
  ghost predicate EntriesOwned(s: State) {
    forall id :: id in s.pending ==>
      var e := s.pending[id];
      && e.notify in s.requests
      && !s.requests[e.notify].phase.Answered?
      && s.requests[e.notify].id == id
      && s.requests[e.notify].nonce == e.nonce
      && s.requests[e.notify].timestamp == e.timestamp
      && (e.authorized <==> e.notify in s.flaggedBy)
  }

  predicate NeedsFlag(phase: AuthPhase) {
    phase in {Woken, Leaving(true), Answered(true)}
  }

  ghost predicate WakesJustified(s: State) {
    forall r :: r in s.requests && NeedsFlag(s.requests[r].phase) ==> r in s.flaggedBy
  }

  ghost predicate FlagsJustified(s: State) {
    forall r :: r in s.flaggedBy ==>
      var v := s.flaggedBy[r];
      && r in s.requests && v in s.verifies
      && s.verifies[v].phase.Committed? && s.verifies[v].phase.request == r
      && s.verifies[v].id == s.requests[r].id
      && s.verifies[v].nonce == s.requests[r].nonce
      && s.verifies[v].timestamp == s.requests[r].timestamp
  }

  /** No two Verify calls are answered true for one request. */
  ghost predicate CommitsRecorded(s: State) {
    forall v :: v in s.verifies && s.verifies[v].phase.Committed? ==>
      var r := s.verifies[v].phase.request;
      r in s.flaggedBy && s.flaggedBy[r] == v
  }

  /** Where the vault's keys come from. */
  ghost predicate Provenance(s: State, vault: Option<string>) {
    AllKnown(s, vault, LoadedKeys(s.vault)) && PairsPresented(s) && PairsKnown(s, vault)
  }

  /** Every Pair call holds the key it presented. */
  ghost predicate PairsPresented(s: State) {
    forall p :: p in s.pairs ==> Presentable(s.pairs[p].code, s.pairs[p].publicKey, s.pairs[p].key)
  }

  /** What a Pair call has loaded and not yet stored again is known. */
  ghost predicate PairsKnown(s: State, vault: Option<string>) {
    forall p :: p in s.pairs && s.pairs[p].phase.Loaded? ==>
      KS.AreKeys(s.pairs[p].phase.keys) && AllKnown(s, vault, s.pairs[p].phase.keys)
  }

  /** Who may be woken, and on whose authority. */
  ghost predicate Approvals(s: State) {
    EntriesOwned(s) && WakesJustified(s) && FlagsJustified(s) && CommitsRecorded(s)
  }

  ghost predicate Inv(s: State, vault: Option<string>) {
    Approvals(s) && Provenance(s, vault)
  }

  // ---- Provenance ----

  lemma KnownGrows(s: State, t: State, vault: Option<string>)
    requires forall p :: p in s.pairs && s.pairs[p].phase.Paired? ==> p in t.pairs && t.pairs[p] == s.pairs[p]
    ensures forall k :: Known(s, vault, k) ==> Known(t, vault, k)
  {
    forall k | Known(s, vault, k) ensures Known(t, vault, k) {
      if k !in LoadedKeys(vault) {
        var p :| p in s.pairs && Stored(s.pairs[p], k);
        assert p in t.pairs && Stored(t.pairs[p], k);
      }
    }
  }

  lemma ProvenanceUntouched(s: State, t: State, vault: Option<string>)
    requires Provenance(s, vault) && t.pairs == s.pairs && t.vault == s.vault
    ensures Provenance(t, vault)
  {
    KnownGrows(s, t, vault);
  }

  lemma PairProvenance(s: State, vault: Option<string>, e: Event)
    requires Provenance(s, vault) && e.Pair? && Enabled(s, e)
    ensures Provenance(PairStep(s, e), vault)
  {
    KnownGrows(s, PairStep(s, e), vault);
  }

  lemma LoadedText(keys: seq<seq<byte>>)
    requires KS.AreKeys(keys)
    ensures LoadedKeys(Some(KS.Text(keys))) == keys
  {
    KS.TextRoundTrip(keys);
  }

  lemma StoreProvenance(s: State, vault: Option<string>, e: Event)
    requires Provenance(s, vault) && e.StoreKeys? && Enabled(s, e)
    ensures Provenance(StoreStep(s, e), vault)
  {
    StoredKeysKnown(s, vault, e);
    StoredPairsKnown(s, vault, e);
    StoredPairsPresented(s, e);
  }

  lemma StoredPairsKnown(s: State, vault: Option<string>, e: Event)
    requires PairsKnown(s, vault) && e.StoreKeys? && Enabled(s, e)
    ensures PairsKnown(StoreStep(s, e), vault)
  {
    var t := StoreStep(s, e);
    KnownGrows(s, t, vault);
    forall p | p in t.pairs && t.pairs[p].phase.Loaded? ensures AllKnown(t, vault, t.pairs[p].phase.keys) {
      assert AllKnown(s, vault, s.pairs[p].phase.keys);
    }
  }

  lemma StoredPairsPresented(s: State, e: Event)
    requires PairsPresented(s) && e.StoreKeys? && Enabled(s, e)
    ensures PairsPresented(StoreStep(s, e))
  {}

  /** A key enters the vault together with the Pair call that is then answered true. */
  lemma StoredKeysKnown(s: State, vault: Option<string>, e: Event)
    requires Provenance(s, vault) && e.StoreKeys? && Enabled(s, e)
    ensures AllKnown(StoreStep(s, e), vault, LoadedKeys(StoreStep(s, e).vault))
  {
    var t, call := StoreStep(s, e), s.pairs[e.p];
    KnownGrows(s, t, vault);
    if e.writable {
      var keys := KS.Added(call.phase.keys, call.key);
      LoadedText(keys);
      assert AllKnown(s, vault, call.phase.keys);
      assert Stored(t.pairs[e.p], call.key);
    }
  }

  // ---- Approvals ----

  /** The event is a Commit that flags r's entry. */
  ghost predicate Hits(s: State, e: Event, r: nat) {
    && e.Commit? && Enabled(s, e)
    && var call := s.verifies[e.v];
       Matches(s.pending, call.id, call.nonce, call.timestamp) && s.pending[call.id].notify == r
  }

  /** A commit that flags an entry is the first to flag that entry's request, and wakes no other one. */
  lemma CommitApprovals(s: State, e: Event)
    requires Approvals(s) && e.Commit? && Enabled(s, e)
    ensures Approvals(CommitStep(s, e))
    ensures forall r :: Hits(s, e, r) ==>
              var t := CommitStep(s, e);
              && r in s.requests && r !in s.flaggedBy && t.flaggedBy == s.flaggedBy[r := e.v]
              && t.requests == s.requests[r := t.requests[r]]
              && t.requests[r].phase == if s.requests[r].phase == Armed then Woken else s.requests[r].phase
    ensures (forall r :: !Hits(s, e, r)) ==> CommitStep(s, e).requests == s.requests
  {
    var call := s.verifies[e.v];
    if Matches(s.pending, call.id, call.nonce, call.timestamp) {
      assert Hits(s, e, s.pending[call.id].notify);
      CommitKeepsOwners(s, e);
    }
    CommitKeepsFlags(s, e);
    CommitIsRecorded(s, e);
  }

  lemma CommitKeepsOwners(s: State, e: Event)
    requires EntriesOwned(s) && e.Commit? && Enabled(s, e)
    ensures EntriesOwned(CommitStep(s, e))
  {
    var t, call := CommitStep(s, e), s.verifies[e.v];
    if Matches(s.pending, call.id, call.nonce, call.timestamp) {
      forall id | id in t.pending && id != call.id ensures t.pending[id].notify != s.pending[call.id].notify {
        assert s.requests[s.pending[id].notify].id == id;
      }
    }
  }

  lemma CommitKeepsFlags(s: State, e: Event)
    requires Approvals(s) && e.Commit? && Enabled(s, e)
    ensures WakesJustified(CommitStep(s, e)) && FlagsJustified(CommitStep(s, e))
  {
    forall r | r in s.flaggedBy ensures s.flaggedBy[r] != e.v {
      assert s.verifies[s.flaggedBy[r]].phase.Committed?;
    }
  }

  lemma CommitIsRecorded(s: State, e: Event)
    requires EntriesOwned(s) && CommitsRecorded(s) && e.Commit? && Enabled(s, e)
    ensures CommitsRecorded(CommitStep(s, e))
  {}

  lemma PhaseApprovals(s: State, r: nat, phase: AuthPhase)
    requires Approvals(s) && r in s.requests
    requires NeedsFlag(phase) ==> r in s.flaggedBy
    requires phase.Answered? ==> forall id :: id in s.pending ==> s.pending[id].notify != r
    ensures Approvals(SetPhase(s, r, phase))
  {
    var t := SetPhase(s, r, phase);
    assert EntriesOwned(t);
    assert FlagsJustified(t);
  }

  /** A removal may drop another request's entry, but never leaves the leaving request's own. */
  lemma RemoveApprovals(s: State, r: nat)
    requires Approvals(s) && r in s.requests && s.requests[r].phase.Leaving?
    ensures Approvals(SetPhase(s, r, Answered(s.requests[r].phase.answer)).(pending := s.pending - {s.requests[r].id}))
  {
    var t := s.(pending := s.pending - {s.requests[r].id});
    assert Approvals(t);
    PhaseApprovals(t, r, Answered(s.requests[r].phase.answer));
  }

  lemma InsertApprovals(s: State, r: nat, id: Id, nonce: seq<byte>, timestamp: nat)
    requires Approvals(s) && r !in s.requests
    ensures Approvals(s.(pending := s.pending[id := PendingAuth(nonce, timestamp, false, r)],
                         requests := s.requests[r := AuthCall(id, nonce, timestamp, Inserted)]))
  {
    var t := s.(pending := s.pending[id := PendingAuth(nonce, timestamp, false, r)],
                requests := s.requests[r := AuthCall(id, nonce, timestamp, Inserted)]);
    assert EntriesOwned(t);
    assert FlagsJustified(t);
  }

  // ---- Every step, every run ----

  lemma StepKeeps(ed: Ed25519, s: State, vault: Option<string>, e: Event)
    requires Inv(s, vault)
    ensures Inv(Step(ed, s, e), vault)
  {
    if Enabled(s, e) {
      NextKeepsApprovals(ed, s, e);
      NextKeepsProvenance(ed, s, vault, e);
    }
  }

  lemma NextKeepsApprovals(ed: Ed25519, s: State, e: Event)
    requires Approvals(s) && Enabled(s, e)
    ensures Approvals(Next(ed, s, e))
  {
    match e
    case Pair(_, _, _, _) =>
    case StoreKeys(_, _) =>
    case Check(_, _, _, _, _, _, _) => CheckApprovals(ed, s, e);
    case Commit(_) => CommitApprovals(s, e);
    case _ => RequestStepApprovals(ed, s, e);
  }

  lemma NextKeepsProvenance(ed: Ed25519, s: State, vault: Option<string>, e: Event)
    requires Provenance(s, vault) && Enabled(s, e)
    ensures Provenance(Next(ed, s, e), vault)
  {
    match e
    case Pair(_, _, _, _) => PairProvenance(s, vault, e);
    case StoreKeys(_, _) => StoreProvenance(s, vault, e);
    case _ => ProvenanceUntouched(s, Next(ed, s, e), vault);
  }

  lemma CheckApprovals(ed: Ed25519, s: State, e: Event)
    requires Approvals(s) && e.Check? && Enabled(s, e)
    ensures Approvals(CheckStep(ed, s, e))
  {}

  lemma RequestStepApprovals(ed: Ed25519, s: State, e: Event)
    requires Approvals(s) && Enabled(s, e)
    requires e.Insert? || e.Arm? || e.ReadFlag? || e.TimeOut? || e.Remove? || e.Challenge?
    ensures Approvals(Next(ed, s, e))
  {
    match e
    case Insert(r, id, nonce, timestamp) => InsertApprovals(s, r, id, nonce, timestamp);
    case Arm(r) => PhaseApprovals(s, r, Armed);
    case ReadFlag(r) =>
      PhaseApprovals(s, r, if IsAuthorized(s.pending, s.requests[r].id) then Leaving(true) else Inserted);
    case TimeOut(r) => PhaseApprovals(s, r, Leaving(false));
    case Remove(r) => RemoveApprovals(s, r);
    case _ =>
  }

  lemma RunKeeps(ed: Ed25519, vault: Option<string>, es: seq<Event>, n: nat)
    requires n <= |es|
    ensures Inv(At(ed, vault, es, n), vault)
  {
    var inv: State -> bool := s => Inv(s, vault);
    forall s, e | inv(s) ensures inv(Step(ed, s, e)) { StepKeeps(ed, s, vault, e); }
    Invariance(inv, ed, vault, es, n);
  }

  // ---- The history of a Verify call ----

  /** Event i is the check of this call: the vault was read, and of the keys it held then, tried in order,
      each at its own clock reading, this one was the first to verify. */
  ghost predicate CheckedAt(ed: Ed25519, vault: Option<string>, es: seq<Event>, i: nat, v: nat, call: VerifyCall)
    requires i < |es| && !call.phase.Refused?
  {
    var s, e := At(ed, vault, es, i), es[i];
    && e.Check? && e.v == v && Enabled(s, e) && e.readable
    && call.id == e.id && call.nonce == DecodeOrEmpty(e.nonceText) && call.timestamp == e.timestamp
    && call.signature == DecodeOrEmpty(e.signatureText)
    && FindEvidence(ed, LoadedKeys(s.vault), 0, e.times, call.nonce, call.timestamp, call.signature) ==
       Some(call.phase.evidence)
  }

  /** Event j committed this call, by flagging r's entry. */
  ghost predicate CommittedAt(ed: Ed25519, vault: Option<string>, es: seq<Event>, j: nat, v: nat, call: VerifyCall,
                              r: nat)
    requires j < |es| && !call.phase.Refused?
  {
    var s := At(ed, vault, es, j);
    && es[j] == Commit(v) && Hits(s, es[j], r)
    && s.verifies[v] == call.(phase := Checked(call.phase.evidence))
  }

  /** What a check found does not change when the call commits. */
  lemma SameCheck(ed: Ed25519, vault: Option<string>, es: seq<Event>, i: nat, v: nat, before: VerifyCall,
                  after: VerifyCall)
    requires i < |es| && !before.phase.Refused? && !after.phase.Refused? && CheckedAt(ed, vault, es, i, v, before)
    requires after == before.(phase := after.phase) && after.phase.evidence == before.phase.evidence
    ensures CheckedAt(ed, vault, es, i, v, after)
  {}

  /** A Verify call whose signature held was checked at some step. */
  lemma {:induction false} CheckOf(ed: Ed25519, vault: Option<string>, es: seq<Event>, n: nat, v: nat) returns (i: nat)
    requires n <= |es|
    requires v in At(ed, vault, es, n).verifies && !At(ed, vault, es, n).verifies[v].phase.Refused?
    ensures i < n && CheckedAt(ed, vault, es, i, v, At(ed, vault, es, n).verifies[v])
  {
    var s, e := At(ed, vault, es, n - 1), es[n - 1];
    if v in s.verifies {
      VerifyMoves(ed, s, e, v);
      i := CheckOf(ed, vault, es, n - 1, v);
      SameCheck(ed, vault, es, i, v, s.verifies[v], At(ed, vault, es, n).verifies[v]);
    } else {
      i := n - 1;
      CheckEnters(ed, s, e, v);
    }
  }

  /** Only its own Commit changes a Verify call, and only once. */
  lemma VerifyMoves(ed: Ed25519, s: State, e: Event, v: nat)
    requires v in s.verifies
    ensures v in Step(ed, s, e).verifies
    ensures var before, after := s.verifies[v], Step(ed, s, e).verifies[v];
            && (e == Commit(v) && before.phase.Checked? ==>
                  after.phase.Refused? ||
                  exists r :: Hits(s, e, r) && after == before.(phase := Committed(before.phase.evidence, r)))
            && (e != Commit(v) || !before.phase.Checked? ==> after == before)
  {
    if e == Commit(v) && s.verifies[v].phase.Checked? && !Step(ed, s, e).verifies[v].phase.Refused? {
      assert Hits(s, e, s.pending[s.verifies[v].id].notify);
    }
  }

  lemma CheckEnters(ed: Ed25519, s: State, e: Event, v: nat)
    requires v !in s.verifies && v in Step(ed, s, e).verifies
    ensures e.Check? && e.v == v && Enabled(s, e) && Step(ed, s, e) == CheckStep(ed, s, e)
  {}

  /** The call's signature is valid, was found so within 30 seconds of its timestamp, under a key that the
      vault held at step i and that was there from the start or had been stored by then for a Pair call. */
  ghost predicate Justified(ed: Ed25519, vault: Option<string>, es: seq<Event>, i: nat, call: VerifyCall)
    requires i < |es| && !call.phase.Refused?
  {
    var e := call.phase.evidence;
    && VerifySignature(ed, e.key, call.nonce, call.timestamp, call.signature, e.checkedAt).Ok?
    && call.timestamp - 30 <= e.checkedAt <= call.timestamp + 30
    && e.key in LoadedKeys(At(ed, vault, es, i).vault)
    && Known(At(ed, vault, es, i), vault, e.key)
  }

  lemma CheckJustifies(ed: Ed25519, vault: Option<string>, es: seq<Event>, i: nat, v: nat, call: VerifyCall)
    requires i < |es| && !call.phase.Refused? && CheckedAt(ed, vault, es, i, v, call)
    ensures Justified(ed, vault, es, i, call)
  {
    RunKeeps(ed, vault, es, i);
    var s := At(ed, vault, es, i);
    var found := FindEvidence(ed, LoadedKeys(s.vault), 0, es[i].times, call.nonce, call.timestamp, call.signature);
    assert found == Some(call.phase.evidence);
    assert AllKnown(s, vault, LoadedKeys(s.vault));
  }

  /** Which Verify calls get past their check: those for which the vault could be read and some key in it
      verifies, at the clock reading made for that key. The others are answered false. */
  lemma CheckAnswersExactly(ed: Ed25519, s: State, e: Event)
    requires e.Check? && Enabled(s, e)
    ensures var call, keys := CheckStep(ed, s, e).verifies[e.v], LoadedKeys(s.vault);
            && call.id == e.id && call.nonce == DecodeOrEmpty(e.nonceText) && call.timestamp == e.timestamp
            && (call.phase.Checked? || call.phase.Refused?)
            && (call.phase.Checked? <==>
                  e.readable &&
                  exists k :: 0 <= k < |keys| && VerifySignature(ed, keys[k], call.nonce, e.timestamp,
                                                                 DecodeOrEmpty(e.signatureText), e.times(k)).Ok?)
  {}

  /** A Verify call answered true committed at some step, having been checked before. */
  lemma {:induction false} CommitOf(ed: Ed25519, vault: Option<string>, es: seq<Event>, n: nat, v: nat) returns (j: nat)
    requires n <= |es| && VerifiedTrue(At(ed, vault, es, n), v)
    ensures var call := At(ed, vault, es, n).verifies[v];
            j < n && CommittedAt(ed, vault, es, j, v, call, call.phase.request)
  {
    var s, e := At(ed, vault, es, n - 1), es[n - 1];
    if v !in s.verifies {
      CheckEnters(ed, s, e, v);
      assert false;
    }
    VerifyMoves(ed, s, e, v);
    if VerifiedTrue(s, v) { j := CommitOf(ed, vault, es, n - 1, v); } else { j := n - 1; }
  }

  // ---- The approvals behind the answers ----

  ghost predicate AnsweredTrue(s: State, r: nat) {
    r in s.requests && s.requests[r].phase == Answered(true)
  }

  ghost predicate VerifiedTrue(s: State, v: nat) {
    v in s.verifies && s.verifies[v].phase.Committed?
  }

  /** v was checked at step i and committed at step j, and approves exactly what r asked: the nonce and
      timestamp that its check justified are r's. */
  ghost predicate ApprovedAt(ed: Ed25519, vault: Option<string>, es: seq<Event>, n: nat, i: nat, j: nat, v: nat, r: nat)
    requires i < j < n <= |es|
  {
    var s := At(ed, vault, es, n);
    && r in s.requests && VerifiedTrue(s, v)
    && var call, request := s.verifies[v], s.requests[r];
       && CheckedAt(ed, vault, es, i, v, call) && CommittedAt(ed, vault, es, j, v, call, r)
       && call.nonce == request.nonce && call.timestamp == request.timestamp
       && Justified(ed, vault, es, i, call)
  }

  ghost predicate Approves(ed: Ed25519, vault: Option<string>, es: seq<Event>, n: nat, v: nat, r: nat)
    requires n <= |es|
  {
    exists i, j :: 0 <= i < j < n && ApprovedAt(ed, vault, es, n, i, j, v, r)
  }

  ghost predicate ApprovalMatch(ed: Ed25519, vault: Option<string>, es: seq<Event>, n: nat, m: map<nat, nat>)
    requires n <= |es|
  {
    && (forall r :: r in m <==> AnsweredTrue(At(ed, vault, es, n), r))
    && (forall r :: r in m ==> Approves(ed, vault, es, n, m[r], r))
    && forall r1, r2 :: r1 in m && r2 in m && r1 != r2 ==> m[r1] != m[r2]
  }

  /** A Verify call answered true was checked and later committed. */
  lemma HistoryOf(ed: Ed25519, vault: Option<string>, es: seq<Event>, n: nat, v: nat) returns (i: nat, j: nat)
    requires n <= |es| && VerifiedTrue(At(ed, vault, es, n), v)
    ensures var call := At(ed, vault, es, n).verifies[v];
            && i < j < n && CheckedAt(ed, vault, es, i, v, call)
            && CommittedAt(ed, vault, es, j, v, call, call.phase.request)
  {
    j := CommitOf(ed, vault, es, n, v);
    i := CheckOf(ed, vault, es, j, v);
    SameCheck(ed, vault, es, i, v, At(ed, vault, es, j).verifies[v], At(ed, vault, es, n).verifies[v]);
  }

  lemma FlagWasApproved(ed: Ed25519, vault: Option<string>, es: seq<Event>, n: nat, r: nat)
    requires n <= |es| && r in At(ed, vault, es, n).flaggedBy && Approvals(At(ed, vault, es, n))
    ensures Approves(ed, vault, es, n, At(ed, vault, es, n).flaggedBy[r], r)
  {
    var s := At(ed, vault, es, n);
    var v := s.flaggedBy[r];
    var i, j := HistoryOf(ed, vault, es, n, v);
    CheckJustifies(ed, vault, es, i, v, s.verifies[v]);
    assert ApprovedAt(ed, vault, es, n, i, j, v, r);
  }

  /** In every reachable state, whatever the interleaving and whatever identifiers collide, the
      Authorize calls answered true map injectively to Verify calls answered true, each of which
      approved that very request. */
  lemma EveryGrantWasApproved(ed: Ed25519, vault: Option<string>, es: seq<Event>, n: nat)
    requires n <= |es|
    ensures exists m :: ApprovalMatch(ed, vault, es, n, m)
  {
    RunKeeps(ed, vault, es, n);
    var s := At(ed, vault, es, n);
    var m := map r | r in s.requests && s.requests[r].phase == Answered(true) :: s.flaggedBy[r];
    forall r | r in m ensures Approves(ed, vault, es, n, m[r], r) {
      FlagWasApproved(ed, vault, es, n, r);
    }
    assert ApprovalMatch(ed, vault, es, n, m);
  }

  /** No request is approved twice: two Verify calls answered true flagged different requests. */
  lemma ApprovalsAreDistinct(ed: Ed25519, vault: Option<string>, es: seq<Event>, n: nat, v1: nat, v2: nat)
    requires n <= |es| && VerifiedTrue(At(ed, vault, es, n), v1) && VerifiedTrue(At(ed, vault, es, n), v2)
    requires At(ed, vault, es, n).verifies[v1].phase.request == At(ed, vault, es, n).verifies[v2].phase.request
    ensures v1 == v2
  {
    RunKeeps(ed, vault, es, n);
  }

  lemma {:induction false} InjectionBounds(m: map<nat, nat>, target: set<nat>)
    requires forall r :: r in m ==> m[r] in target
    requires forall r1, r2 :: r1 in m && r2 in m && r1 != r2 ==> m[r1] != m[r2]
    ensures |m.Keys| <= |target|
    decreases |m|
  {
    if r :| r in m {
      InjectionBounds(m - {r}, target - {m[r]});
      assert (m - {r}).Keys == m.Keys - {r};
    }
  }

  function TrueRequests(s: State): set<nat> {
    set r | r in s.requests && s.requests[r].phase == Answered(true)
  }

  function TrueVerifies(s: State): set<nat> {
    set v | v in s.verifies && s.verifies[v].phase.Committed?
  }

  /** Never more grants than approvals. */
  lemma GrantsAreBounded(ed: Ed25519, vault: Option<string>, es: seq<Event>, n: nat)
    requires n <= |es|
    ensures |TrueRequests(At(ed, vault, es, n))| <= |TrueVerifies(At(ed, vault, es, n))|
  {
    EveryGrantWasApproved(ed, vault, es, n);
    var m :| ApprovalMatch(ed, vault, es, n, m);
    forall r | r in m ensures VerifiedTrue(At(ed, vault, es, n), m[r]) {
      assert Approves(ed, vault, es, n, m[r], r);
    }
    MatchBounds(At(ed, vault, es, n), m);
  }

  lemma MatchBounds(s: State, m: map<nat, nat>)
    requires forall r :: r in m <==> AnsweredTrue(s, r)
    requires forall r :: r in m ==> VerifiedTrue(s, m[r])
    requires forall r1, r2 :: r1 in m && r2 in m && r1 != r2 ==> m[r1] != m[r2]
    ensures |TrueRequests(s)| <= |TrueVerifies(s)|
  {
    assert m.Keys == TrueRequests(s) by {
      forall r ensures r in m <==> r in TrueRequests(s) { assert r in m <==> AnsweredTrue(s, r); }
    }
    InjectionBounds(m, TrueVerifies(s));
  }

  /** r is not yet answered, and what the map holds under id is its nonce and timestamp. */
  ghost predicate HandedOut(s: State, r: nat, id: Id) {
    && r in s.requests && !s.requests[r].phase.Answered? && s.requests[r].id == id
    && id in s.pending && s.pending[id].nonce == s.requests[r].nonce
    && s.pending[id].timestamp == s.requests[r].timestamp
  }

  /** What a Challenge hands out is the nonce and timestamp of a request not yet answered. */
  lemma ChallengesAreLive(ed: Ed25519, vault: Option<string>, es: seq<Event>, n: nat, id: Id)
    requires n <= |es|
    requires Enabled(At(ed, vault, es, n), Challenge(id))
    ensures exists r: nat :: HandedOut(At(ed, vault, es, n), r, id)
  {
    RunKeeps(ed, vault, es, n);
    var s := At(ed, vault, es, n);
    var r := s.pending[id].notify;
    assert HandedOut(s, r, id);
  }
}
