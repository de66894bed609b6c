/** What the protocol adds when no identifier is drawn while it is still pending: the map is exactly
    the requests in flight, and an answer of true is decided by when the flag was set and read. */
module DaemonWaits {
  import opened Wrappers
  import opened Hex
  import opened DaemonCrypto
  import opened PendingMap
  import opened Daemon
  import opened DaemonSafety

  /** No request draws an identifier that is in the map. */
  ghost predicate FreshIds(ed: Ed25519, vault: Option<string>, es: seq<Event>) {
    forall i :: 0 <= i < |es| && es[i].Insert? ==> es[i].id !in At(ed, vault, es, i).pending
  }

  /** Every request in flight has its own entry. */
  ghost predicate EntriesKept(s: State) {
    forall r :: r in s.requests && !s.requests[r].phase.Answered? ==>
      s.requests[r].id in s.pending && s.pending[s.requests[r].id].notify == r
  }

  lemma StepKeepsEntries(ed: Ed25519, s: State, e: Event)
    requires Approvals(s) && EntriesKept(s)
    requires e.Insert? ==> e.id !in s.pending
    ensures EntriesKept(Step(ed, s, e))
  {
    if Enabled(s, e) {
      match e
      case Commit(_) => CommitKeepsEntries(s, e);
      case Remove(_) => RemoveKeepsEntries(ed, s, e);
      case _ =>
    }
  }

  lemma CommitKeepsEntries(s: State, e: Event)
    requires EntriesKept(s) && e.Commit? && Enabled(s, e)
    ensures EntriesKept(CommitStep(s, e))
  {
    var t := CommitStep(s, e);
    forall r | r in t.requests && !t.requests[r].phase.Answered?
      ensures t.requests[r].id in t.pending && t.pending[t.requests[r].id].notify == r
    {
      assert t.requests[r].id == s.requests[r].id && !s.requests[r].phase.Answered?;
    }
  }

  lemma RemoveKeepsEntries(ed: Ed25519, s: State, e: Event)
    requires EntriesKept(s) && e.Remove? && Enabled(s, e)
    ensures EntriesKept(Next(ed, s, e))
  {}

  lemma RunKeepsApprovals(ed: Ed25519, vault: Option<string>, es: seq<Event>, n: nat)
    requires n <= |es|
    ensures Approvals(At(ed, vault, es, n))
  {
    RunKeeps(ed, vault, es, n);
  }

  lemma {:induction false} RunKeepsEntries(ed: Ed25519, vault: Option<string>, es: seq<Event>, n: nat)
    requires n <= |es| && FreshIds(ed, vault, es)
    ensures Approvals(At(ed, vault, es, n)) && EntriesKept(At(ed, vault, es, n))
  {
    if n > 0 {
      RunKeepsEntries(ed, vault, es, n - 1);
      StepKeepsEntries(ed, At(ed, vault, es, n - 1), es[n - 1]);
    }
    RunKeepsApprovals(ed, vault, es, n);
  }

  predicate InFlight(s: State, r: nat) {
    r in s.requests && !s.requests[r].phase.Answered?
  }

  function InFlightIds(s: State): set<Id> {
    set r | r in s.requests && !s.requests[r].phase.Answered? :: s.requests[r].id
  }

  /** The map's domain is exactly the identifiers of the requests inserted and not yet removed, no
      two of them share one, and whoever has been woken finds its own entry flagged. */
  lemma PendingIsExact(ed: Ed25519, vault: Option<string>, es: seq<Event>, n: nat)
    requires n <= |es| && FreshIds(ed, vault, es)
    ensures var s := At(ed, vault, es, n);
            && s.pending.Keys == InFlightIds(s)
            && (forall r1, r2 :: InFlight(s, r1) && InFlight(s, r2) && r1 != r2 ==>
                  s.requests[r1].id != s.requests[r2].id)
            && (forall r :: r in s.requests && s.requests[r].phase == Woken ==>
                  IsAuthorized(s.pending, s.requests[r].id))
  {
    RunKeepsEntries(ed, vault, es, n);
    var s := At(ed, vault, es, n);
    forall id | id in s.pending ensures id in InFlightIds(s) {
      assert s.pending[id].notify in s.requests;
    }
  }

  /** A flag is never taken back: a request whose entry was flagged finds every later entry of its
      own flagged. This needs no freshness. */
  lemma {:induction false} FlagIsPermanent(ed: Ed25519, vault: Option<string>, es: seq<Event>, i: nat, j: nat, id: Id)
    requires i <= j <= |es|
    requires IsAuthorized(At(ed, vault, es, i).pending, id) && id in At(ed, vault, es, j).pending
    requires At(ed, vault, es, j).pending[id].notify == At(ed, vault, es, i).pending[id].notify
    ensures At(ed, vault, es, j).pending[id].authorized
  {
    RunKeeps(ed, vault, es, i);
    RunKeeps(ed, vault, es, j);
    FlaggedByGrows(ed, vault, es, i, j);
  }

  lemma StepGrows(ed: Ed25519, s: State, e: Event)
    ensures s.flaggedBy.Keys <= Step(ed, s, e).flaggedBy.Keys
    ensures s.requests.Keys <= Step(ed, s, e).requests.Keys
  {}

  lemma {:induction false} FlaggedByGrows(ed: Ed25519, vault: Option<string>, es: seq<Event>, i: nat, j: nat)
    requires i <= j <= |es|
    ensures At(ed, vault, es, i).flaggedBy.Keys <= At(ed, vault, es, j).flaggedBy.Keys
  {
    if i < j {
      FlaggedByGrows(ed, vault, es, i, j - 1);
      StepGrows(ed, At(ed, vault, es, j - 1), es[j - 1]);
    }
  }

  // ---- Which requests are answered true ----

  /** How a request's phase moves. */
  ghost function PhaseAfter(s: State, e: Event, r: nat): AuthPhase
    requires Enabled(s, e) && r in s.requests
  {
    if e == Arm(r) then Armed
    else if e == ReadFlag(r) then if IsAuthorized(s.pending, s.requests[r].id) then Leaving(true) else Inserted
    else if e == TimeOut(r) then Leaving(false)
    else if e == Remove(r) then Answered(s.requests[r].phase.answer)
    else if Hits(s, e, r) && s.requests[r].phase == Armed then Woken
    else s.requests[r].phase
  }

  lemma PhaseMoves(ed: Ed25519, s: State, e: Event, r: nat)
    requires Enabled(s, e) && r in s.requests
    ensures r in Next(ed, s, e).requests && Next(ed, s, e).requests[r].phase == PhaseAfter(s, e, r)
  {
    match e
    case Commit(_) => CommitMoves(s, e, r);
    case Pair(_, _, _, _) =>
    case StoreKeys(_, _) =>
    case Check(_, _, _, _, _, _, _) =>
    case _ => RequestMoves(ed, s, e, r);
  }

  lemma RequestMoves(ed: Ed25519, s: State, e: Event, r: nat)
    requires Enabled(s, e) && r in s.requests
    requires e.Insert? || e.Arm? || e.ReadFlag? || e.TimeOut? || e.Remove? || e.Challenge?
    ensures r in Next(ed, s, e).requests && Next(ed, s, e).requests[r].phase == PhaseAfter(s, e, r)
  {}

  lemma CommitMoves(s: State, e: Event, r: nat)
    requires e.Commit? && Enabled(s, e) && r in s.requests
    ensures var t := CommitStep(s, e);
            && r in t.requests
            && t.requests[r].phase ==
               if Hits(s, e, r) && s.requests[r].phase == Armed then Woken else s.requests[r].phase
  {}

  /** Step i flags r's entry while r's waiter is armed. */
  ghost predicate FlaggedWhileArmed(ed: Ed25519, vault: Option<string>, es: seq<Event>, i: nat, r: nat) {
    && i < |es|
    && var s := At(ed, vault, es, i);
       Hits(s, es[i], r) && r in s.requests && s.requests[r].phase == Armed
  }

  /** Step j is r's read of the flag. */
  ghost predicate Reads(ed: Ed25519, vault: Option<string>, es: seq<Event>, j: nat, r: nat) {
    j < |es| && es[j] == ReadFlag(r) && Enabled(At(ed, vault, es, j), es[j])
  }

  /** Step j is r's read of the flag, and the entry it finds under its identifier is flagged. */
  ghost predicate ReadsTrue(ed: Ed25519, vault: Option<string>, es: seq<Event>, j: nat, r: nat) {
    && Reads(ed, vault, es, j, r)
    && IsAuthorized(At(ed, vault, es, j).pending, At(ed, vault, es, j).requests[r].id)
  }

  ghost predicate EverFlagged(ed: Ed25519, vault: Option<string>, es: seq<Event>, n: nat, r: nat) {
    exists i :: 0 <= i < n && FlaggedWhileArmed(ed, vault, es, i, r)
  }

  ghost predicate FlaggedThenFound(ed: Ed25519, vault: Option<string>, es: seq<Event>, n: nat, r: nat) {
    exists i, j :: 0 <= i < j < n && FlaggedWhileArmed(ed, vault, es, i, r) && ReadsTrue(ed, vault, es, j, r)
  }

  /** A request's phase says which of the decisive steps have happened. */
  predicate Story(phase: AuthPhase, flagged: bool, found: bool) {
    match phase
    case Inserted => !found
    case Armed => !found
    case Woken => flagged && !found
    case Leaving(answer) => answer == found
    case Answered(answer) => answer == found
  }

  lemma StoryMoves(ed: Ed25519, s: State, e: Event, r: nat, flagged: bool, found: bool)
    requires r in s.requests && Story(s.requests[r].phase, flagged, found)
    ensures var t := Step(ed, s, e);
            r in t.requests &&
            Story(t.requests[r].phase, flagged || (Hits(s, e, r) && s.requests[r].phase == Armed),
                  found || (flagged && e == ReadFlag(r) && Enabled(s, e) && IsAuthorized(s.pending, s.requests[r].id)))
  {
    if Enabled(s, e) { PhaseMoves(ed, s, e, r); }
  }

  lemma EverFlaggedGrows(ed: Ed25519, vault: Option<string>, es: seq<Event>, n: nat, r: nat)
    requires n < |es|
    ensures EverFlagged(ed, vault, es, n + 1, r) <==>
            EverFlagged(ed, vault, es, n, r) || FlaggedWhileArmed(ed, vault, es, n, r)
  {}

  lemma FoundAfterFlag(ed: Ed25519, vault: Option<string>, es: seq<Event>, n: nat, r: nat)
    requires n < |es| && EverFlagged(ed, vault, es, n, r) && ReadsTrue(ed, vault, es, n, r)
    ensures FlaggedThenFound(ed, vault, es, n + 1, r)
  {
    var i :| 0 <= i < n && FlaggedWhileArmed(ed, vault, es, i, r);
    assert 0 <= i < n < n + 1 && FlaggedWhileArmed(ed, vault, es, i, r) && ReadsTrue(ed, vault, es, n, r);
  }

  lemma FlaggedThenFoundGrows(ed: Ed25519, vault: Option<string>, es: seq<Event>, n: nat, r: nat)
    requires n < |es|
    ensures FlaggedThenFound(ed, vault, es, n + 1, r) <==>
            FlaggedThenFound(ed, vault, es, n, r) ||
            (EverFlagged(ed, vault, es, n, r) && ReadsTrue(ed, vault, es, n, r))
  {
    if EverFlagged(ed, vault, es, n, r) && ReadsTrue(ed, vault, es, n, r) { FoundAfterFlag(ed, vault, es, n, r); }
    if FlaggedThenFound(ed, vault, es, n + 1, r) {
      var i, j :| 0 <= i < j < n + 1 && FlaggedWhileArmed(ed, vault, es, i, r) && ReadsTrue(ed, vault, es, j, r);
      assert j == n ==> EverFlagged(ed, vault, es, n, r);
    }
  }

  lemma NothingBeforeInsertion(ed: Ed25519, vault: Option<string>, es: seq<Event>, n: nat, r: nat)
    requires n <= |es| && r !in At(ed, vault, es, n).requests
    ensures !EverFlagged(ed, vault, es, n, r)
    ensures forall j :: 0 <= j < n ==> !Reads(ed, vault, es, j, r)
  {
    forall i | 0 <= i < n ensures r !in At(ed, vault, es, i).requests {
      RequestsGrow(ed, vault, es, i, n);
    }
  }

  lemma {:induction false} RequestsGrow(ed: Ed25519, vault: Option<string>, es: seq<Event>, i: nat, j: nat)
    requires i <= j <= |es|
    ensures At(ed, vault, es, i).requests.Keys <= At(ed, vault, es, j).requests.Keys
  {
    if i < j {
      RequestsGrow(ed, vault, es, i, j - 1);
      StepGrows(ed, At(ed, vault, es, j - 1), es[j - 1]);
    }
  }

  /** This needs no freshness: it holds of colliding identifiers too. */
  lemma {:induction false} StoryHolds(ed: Ed25519, vault: Option<string>, es: seq<Event>, n: nat, r: nat)
    requires n <= |es| && r in At(ed, vault, es, n).requests
    ensures Story(At(ed, vault, es, n).requests[r].phase, EverFlagged(ed, vault, es, n, r),
                  FlaggedThenFound(ed, vault, es, n, r))
  {
    if r in At(ed, vault, es, n - 1).requests {
      StoryHolds(ed, vault, es, n - 1, r);
      StoryContinues(ed, vault, es, n - 1, r);
    } else {
      StoryBegins(ed, vault, es, n, r);
    }
  }

  lemma StoryContinues(ed: Ed25519, vault: Option<string>, es: seq<Event>, n: nat, r: nat)
    requires n < |es| && r in At(ed, vault, es, n).requests
    requires Story(At(ed, vault, es, n).requests[r].phase, EverFlagged(ed, vault, es, n, r),
                   FlaggedThenFound(ed, vault, es, n, r))
    ensures r in At(ed, vault, es, n + 1).requests
    ensures Story(At(ed, vault, es, n + 1).requests[r].phase, EverFlagged(ed, vault, es, n + 1, r),
                  FlaggedThenFound(ed, vault, es, n + 1, r))
  {
    EverFlaggedGrows(ed, vault, es, n, r);
    FlaggedThenFoundGrows(ed, vault, es, n, r);
    StoryMoves(ed, At(ed, vault, es, n), es[n], r, EverFlagged(ed, vault, es, n, r),
               FlaggedThenFound(ed, vault, es, n, r));
  }

  lemma StoryBegins(ed: Ed25519, vault: Option<string>, es: seq<Event>, n: nat, r: nat)
    requires 0 < n <= |es| && r !in At(ed, vault, es, n - 1).requests && r in At(ed, vault, es, n).requests
    ensures At(ed, vault, es, n).requests[r].phase == Inserted && !FlaggedThenFound(ed, vault, es, n, r)
  {
    NothingBeforeInsertion(ed, vault, es, n - 1, r);
    EntersInserted(ed, At(ed, vault, es, n - 1), es[n - 1], r);
  }

  lemma EntersInserted(ed: Ed25519, s: State, e: Event, r: nat)
    requires r !in s.requests && r in Step(ed, s, e).requests
    ensures Step(ed, s, e).requests[r].phase == Inserted
  {}

  /** In every run, whatever identifiers collide: an Authorize is answered true exactly when its entry was
      flagged while its waiter was armed, and it then, before the timeout, found a flagged entry under its
      identifier; otherwise it is answered false. */
  lemma AnsweredTrueInAnyRun(ed: Ed25519, vault: Option<string>, es: seq<Event>, n: nat, r: nat)
    requires n <= |es| && r in At(ed, vault, es, n).requests
    requires At(ed, vault, es, n).requests[r].phase.Answered?
    ensures At(ed, vault, es, n).requests[r].phase.answer <==> FlaggedThenFound(ed, vault, es, n, r)
  {
    StoryHolds(ed, vault, es, n, r);
  }

  /** r's entry was flagged while its waiter was armed, and r then read the flag. */
  ghost predicate FlaggedThenRead(ed: Ed25519, vault: Option<string>, es: seq<Event>, n: nat, r: nat) {
    exists i, j :: 0 <= i < j < n && FlaggedWhileArmed(ed, vault, es, i, r) && Reads(ed, vault, es, j, r)
  }

  lemma ReadsFind(ed: Ed25519, vault: Option<string>, es: seq<Event>, j: nat, r: nat)
    requires FreshIds(ed, vault, es) && Reads(ed, vault, es, j, r)
    ensures ReadsTrue(ed, vault, es, j, r)
  {
    PendingIsExact(ed, vault, es, j);
  }

  /** With fresh identifiers every read finds the flag: an Authorize is answered true exactly when its entry
      was flagged while its waiter was armed and the flag was then read, before the timeout. */
  lemma AnsweredTrueExactly(ed: Ed25519, vault: Option<string>, es: seq<Event>, n: nat, r: nat)
    requires n <= |es| && FreshIds(ed, vault, es) && r in At(ed, vault, es, n).requests
    requires At(ed, vault, es, n).requests[r].phase.Answered?
    ensures At(ed, vault, es, n).requests[r].phase.answer <==> FlaggedThenRead(ed, vault, es, n, r)
  {
    AnsweredTrueInAnyRun(ed, vault, es, n, r);
    forall j: nat | Reads(ed, vault, es, j, r) ensures ReadsTrue(ed, vault, es, j, r) {
      ReadsFind(ed, vault, es, j, r);
    }
  }

  ghost predicate Left(s: State, r: nat) {
    r in s.requests && (s.requests[r].phase.Leaving? || s.requests[r].phase.Answered?)
  }

  lemma {:induction false} LeavesForGood(ed: Ed25519, vault: Option<string>, es: seq<Event>, i: nat, j: nat, r: nat)
    requires i <= j <= |es| && Left(At(ed, vault, es, i), r)
    ensures Left(At(ed, vault, es, j), r)
  {
    if i < j {
      LeavesForGood(ed, vault, es, i, j - 1, r);
      var s, e := At(ed, vault, es, j - 1), es[j - 1];
      if Enabled(s, e) { PhaseMoves(ed, s, e, r); }
    }
  }

  /** The wait loop reads the flag at most once. */
  lemma ReadsOnce(ed: Ed25519, vault: Option<string>, es: seq<Event>, i: nat, j: nat, r: nat)
    requires FreshIds(ed, vault, es) && i <= j
    requires Reads(ed, vault, es, i, r) && Reads(ed, vault, es, j, r)
    ensures i == j
  {
    if i < j {
      ReadsFind(ed, vault, es, i, r);
      PhaseMoves(ed, At(ed, vault, es, i), es[i], r);
      LeavesForGood(ed, vault, es, i + 1, j, r);
    }
  }

  // ---- Which approvals reach their request ----

  /** Step i commits v, and flags r's entry while r's waiter is armed. */
  ghost predicate CommitsWhileArmed(ed: Ed25519, vault: Option<string>, es: seq<Event>, i: nat, v: nat, r: nat) {
    FlaggedWhileArmed(ed, vault, es, i, r) && es[i] == Commit(v)
  }

  lemma {:induction false} CommitStays(ed: Ed25519, vault: Option<string>, es: seq<Event>, i: nat, n: nat, v: nat)
    requires i <= n <= |es| && VerifiedTrue(At(ed, vault, es, i), v)
    ensures VerifiedTrue(At(ed, vault, es, n), v)
    ensures At(ed, vault, es, n).verifies[v] == At(ed, vault, es, i).verifies[v]
  {
    if i < n {
      CommitStays(ed, vault, es, i, n - 1, v);
      VerifyMoves(ed, At(ed, vault, es, n - 1), es[n - 1], v);
    }
  }

  /** The commit of v finds an entry under the identifier that v names, with v's nonce and timestamp, not yet
      flagged. */
  ghost predicate CommitFinds(ed: Ed25519, vault: Option<string>, es: seq<Event>, j: nat, v: nat)
    requires j < |es|
  {
    var s := At(ed, vault, es, j);
    && es[j] == Commit(v) && v in s.verifies && s.verifies[v].phase.Checked?
    && var call := s.verifies[v];
       exists nonce, timestamp, notify :: call.id in s.pending &&
         s.pending[call.id] == PendingAuth(nonce, timestamp, false, notify) &&
         nonce == call.nonce && timestamp == call.timestamp
  }

  /** A Verify call is answered true exactly if, after its check, its commit finds such an entry. */
  lemma VerifiedTrueExactly(ed: Ed25519, vault: Option<string>, es: seq<Event>, n: nat, v: nat)
    requires n <= |es|
    ensures VerifiedTrue(At(ed, vault, es, n), v) <==> exists j :: 0 <= j < n && CommitFinds(ed, vault, es, j, v)
  {
    if VerifiedTrue(At(ed, vault, es, n), v) { var j := FoundEntry(ed, vault, es, n, v); }
    if j: nat :| j < n && CommitFinds(ed, vault, es, j, v) {
      FindingCommits(ed, vault, es, j, v);
      CommitStays(ed, vault, es, j + 1, n, v);
    }
  }

  lemma FoundEntry(ed: Ed25519, vault: Option<string>, es: seq<Event>, n: nat, v: nat) returns (j: nat)
    requires n <= |es| && VerifiedTrue(At(ed, vault, es, n), v)
    ensures j < n && CommitFinds(ed, vault, es, j, v)
  {
    j := CommitOf(ed, vault, es, n, v);
    CommittedFinds(ed, vault, es, j, v, At(ed, vault, es, n).verifies[v]);
  }

  lemma CommittedFinds(ed: Ed25519, vault: Option<string>, es: seq<Event>, j: nat, v: nat, call: VerifyCall)
    requires j < |es| && call.phase.Committed? && CommittedAt(ed, vault, es, j, v, call, call.phase.request)
    ensures CommitFinds(ed, vault, es, j, v)
  {
    var s := At(ed, vault, es, j);
    var entry := s.pending[s.verifies[v].id];
    assert entry == PendingAuth(entry.nonce, entry.timestamp, false, entry.notify);
  }

  lemma FindingCommits(ed: Ed25519, vault: Option<string>, es: seq<Event>, j: nat, v: nat)
    requires j < |es| && CommitFinds(ed, vault, es, j, v)
    ensures VerifiedTrue(At(ed, vault, es, j + 1), v)
  {
    assert At(ed, vault, es, j + 1) == CommitStep(At(ed, vault, es, j), es[j]);
  }

  /** Whoever flagged r's entry is the Verify call that stands committed for r. */
  lemma FlaggedByCommit(ed: Ed25519, vault: Option<string>, es: seq<Event>, i: nat, n: nat, v: nat, r: nat)
    requires i < n <= |es| && FlaggedWhileArmed(ed, vault, es, i, r)
    requires VerifiedTrue(At(ed, vault, es, n), v) && At(ed, vault, es, n).verifies[v].phase.request == r
    ensures CommitsWhileArmed(ed, vault, es, i, v, r)
  {
    var w := es[i].v;
    assert VerifiedTrue(At(ed, vault, es, i + 1), w) && At(ed, vault, es, i + 1).verifies[w].phase.request == r;
    CommitStays(ed, vault, es, i + 1, n, w);
    ApprovalsAreDistinct(ed, vault, es, n, v, w);
  }

  /** When the phone's approval reaches the workstation: a Verify answered true for a request that has its
      answer granted it exactly if it committed while that request's waiter was armed and the request then
      found the flag; with fresh identifiers, exactly if the request then read the flag at all. */
  lemma ApprovalReachesExactly(ed: Ed25519, vault: Option<string>, es: seq<Event>, n: nat, v: nat)
    requires n <= |es| && VerifiedTrue(At(ed, vault, es, n), v)
    requires var r := At(ed, vault, es, n).verifies[v].phase.request;
             r in At(ed, vault, es, n).requests && At(ed, vault, es, n).requests[r].phase.Answered?
    ensures var r := At(ed, vault, es, n).verifies[v].phase.request;
            At(ed, vault, es, n).requests[r].phase.answer <==>
            exists i, j :: 0 <= i < j < n && CommitsWhileArmed(ed, vault, es, i, v, r) && ReadsTrue(ed, vault, es, j, r)
    ensures var r := At(ed, vault, es, n).verifies[v].phase.request;
            FreshIds(ed, vault, es) ==>
              (At(ed, vault, es, n).requests[r].phase.answer <==>
               exists i, j :: 0 <= i < j < n && CommitsWhileArmed(ed, vault, es, i, v, r) && Reads(ed, vault, es, j, r))
  {
    var r := At(ed, vault, es, n).verifies[v].phase.request;
    AnsweredTrueInAnyRun(ed, vault, es, n, r);
    forall i: nat | i < n && FlaggedWhileArmed(ed, vault, es, i, r) ensures CommitsWhileArmed(ed, vault, es, i, v, r) {
      FlaggedByCommit(ed, vault, es, i, n, v, r);
    }
    if FreshIds(ed, vault, es) {
      forall j: nat | Reads(ed, vault, es, j, r) ensures ReadsTrue(ed, vault, es, j, r) {
        ReadsFind(ed, vault, es, j, r);
      }
    }
  }

  // ---- A lost approval ----

  /** Request 0 is inserted under id; verify 0 carries its nonce and timestamp. */
  function Approval(id: Id, nonce: seq<byte>, timestamp: nat, signature: seq<byte>, times: nat -> nat): Event {
    Check(0, id, Encode(nonce), timestamp, Encode(signature), true, times)
  }

  /** Six events from the n-th on: the commit comes before the waiter is armed. */
  ghost predicate EarlyRun(es: seq<Event>, n: nat, id: Id, nonce: seq<byte>, timestamp: nat, signature: seq<byte>,
                           times: nat -> nat)
  {
    && |es| == n + 6
    && es[n] == Insert(0, id, nonce, timestamp) && es[n + 1] == Approval(id, nonce, timestamp, signature, times)
    && es[n + 2] == Commit(0) && es[n + 3] == Arm(0) && es[n + 4] == TimeOut(0) && es[n + 5] == Remove(0)
  }

  /** Verify 0 is answered true, request 0, the only one, false. */
  ghost predicate Lost(s: State) {
    && TrueVerifies(s) == {0} && TrueRequests(s) == {}
    && s.requests.Keys == {0} && s.requests[0].phase == Answered(false)
  }

  /** A signature that arrives between the insertion and the arming of the waiter is lost: the phone
      is told true, the workstation false. So the grants can be strictly fewer than the approvals. */
  lemma EarlyApprovalIsLost(ed: Ed25519, vault: Option<string>, es: seq<Event>, id: Id, nonce: seq<byte>,
                            timestamp: nat, signature: seq<byte>, times: nat -> nat, i: nat)
    requires EarlyRun(es, 0, id, nonce, timestamp, signature, times)
    requires i < |LoadedKeys(vault)|
    requires VerifySignature(ed, LoadedKeys(vault)[i], nonce, timestamp, signature, times(i)).Ok?
    ensures FreshIds(ed, vault, es)
    ensures Lost(At(ed, vault, es, |es|))
  {
    OneInsertionIsFresh(ed, vault, es, id, nonce, timestamp, signature, times);
    LosesFrom(ed, vault, es, 0, id, nonce, timestamp, signature, times, i);
  }

  lemma LosesFrom(ed: Ed25519, vault: Option<string>, es: seq<Event>, n: nat, id: Id, nonce: seq<byte>,
                  timestamp: nat, signature: seq<byte>, times: nat -> nat, i: nat)
    requires n == 0 && EarlyRun(es, n, id, nonce, timestamp, signature, times)
    requires i < |LoadedKeys(vault)|
    requires VerifySignature(ed, LoadedKeys(vault)[i], nonce, timestamp, signature, times(i)).Ok?
    ensures Lost(At(ed, vault, es, |es|))
  {
    assert |nonce| == NONCE_LEN;
    Inserts(ed, vault, es, n, id, nonce, timestamp);
    Checks(ed, vault, es, n + 1, id, nonce, timestamp, signature, times, i);
    LostFrom(ed, vault, es, n + 2, id);
  }

  lemma LostFrom(ed: Ed25519, vault: Option<string>, es: seq<Event>, n: nat, id: Id)
    requires n + 4 == |es| && es[n] == Commit(0) && es[n + 1] == Arm(0)
    requires es[n + 2] == TimeOut(0) && es[n + 3] == Remove(0)
    requires Waits(At(ed, vault, es, n), id)
    ensures Lost(At(ed, vault, es, |es|))
  {
    CommitsUnarmed(ed, vault, es, n, id);
    LeavesFalse(ed, vault, es, n + 1);
  }

  /** Request 0 has its entry and no armed waiter; verify 0 is about to flag that entry. */
  ghost predicate Waits(s: State, id: Id) {
    && s.verifies.Keys == {0} && s.requests.Keys == {0} && s.requests[0].phase == Inserted
    && s.verifies[0].phase.Checked? && id in s.pending && s.pending[id].notify == 0
    && Matches(s.pending, id, s.verifies[0].nonce, s.verifies[0].timestamp) && s.verifies[0].id == id
  }

  lemma OneInsertionIsFresh(ed: Ed25519, vault: Option<string>, es: seq<Event>, id: Id, nonce: seq<byte>,
                            timestamp: nat, signature: seq<byte>, times: nat -> nat)
    requires EarlyRun(es, 0, id, nonce, timestamp, signature, times)
    ensures FreshIds(ed, vault, es)
  {
    assert forall i :: 0 < i < |es| ==> !es[i].Insert?;
  }

  /** A Commit on an entry whose waiter is not armed flags it and wakes nobody. */
  lemma CommitsUnarmed(ed: Ed25519, vault: Option<string>, es: seq<Event>, n: nat, id: Id)
    requires n < |es| && es[n] == Commit(0)
    requires Waits(At(ed, vault, es, n), id)
    ensures var s, t := At(ed, vault, es, n), At(ed, vault, es, n + 1);
            t.requests == s.requests && t.verifies.Keys == {0} && t.verifies[0].phase.Committed?
  {
    assert At(ed, vault, es, n + 1) == CommitStep(At(ed, vault, es, n), es[n]);
  }

  /** Whatever its flag says, a request that times out answers false. */
  lemma LeavesFalse(ed: Ed25519, vault: Option<string>, es: seq<Event>, n: nat)
    requires n + 3 == |es| && es[n] == Arm(0) && es[n + 1] == TimeOut(0) && es[n + 2] == Remove(0)
    requires 0 in At(ed, vault, es, n).requests && At(ed, vault, es, n).requests[0].phase == Inserted
    ensures var s, t := At(ed, vault, es, n), At(ed, vault, es, |es|);
            t.verifies == s.verifies && t.requests == s.requests[0 := s.requests[0].(phase := Answered(false))]
  {
    var s := At(ed, vault, es, n);
    assert At(ed, vault, es, n + 1) == SetPhase(s, 0, Armed);
    assert At(ed, vault, es, n + 2) == SetPhase(SetPhase(s, 0, Armed), 0, Leaving(false));
  }

  /** The state after the first insertion. */
  function AfterInsert(vault: Option<string>, id: Id, nonce: seq<byte>, timestamp: nat): State {
    Initial(vault).(pending := map[id := PendingAuth(nonce, timestamp, false, 0)],
                    requests := map[0 := AuthCall(id, nonce, timestamp, Inserted)])
  }

  lemma Inserts(ed: Ed25519, vault: Option<string>, es: seq<Event>, n: nat, id: Id, nonce: seq<byte>, timestamp: nat)
    requires n < |es| && es[n] == Insert(0, id, nonce, timestamp) && |nonce| == NONCE_LEN
    requires n == 0
    ensures At(ed, vault, es, n + 1) == AfterInsert(vault, id, nonce, timestamp)
  {}

  lemma Checks(ed: Ed25519, vault: Option<string>, es: seq<Event>, n: nat, id: Id, nonce: seq<byte>, timestamp: nat,
               signature: seq<byte>, times: nat -> nat, i: nat)
    requires n < |es| && es[n] == Approval(id, nonce, timestamp, signature, times)
    requires At(ed, vault, es, n) == AfterInsert(vault, id, nonce, timestamp)
    requires i < |LoadedKeys(vault)|
    requires VerifySignature(ed, LoadedKeys(vault)[i], nonce, timestamp, signature, times(i)).Ok?
    ensures Waits(At(ed, vault, es, n + 1), id)
  {
    CheckSucceeds(ed, AfterInsert(vault, id, nonce, timestamp), vault, id, nonce, timestamp, signature, times, i);
  }

  lemma CheckSucceeds(ed: Ed25519, s: State, vault: Option<string>, id: Id, nonce: seq<byte>, timestamp: nat,
                      signature: seq<byte>, times: nat -> nat, i: nat)
    requires s == AfterInsert(vault, id, nonce, timestamp)
    requires i < |LoadedKeys(vault)|
    requires VerifySignature(ed, LoadedKeys(vault)[i], nonce, timestamp, signature, times(i)).Ok?
    ensures Waits(Step(ed, s, Approval(id, nonce, timestamp, signature, times)), id)
  {
    var e, keys := Approval(id, nonce, timestamp, signature, times), LoadedKeys(vault);
    var phase := CheckPhase(ed, keys, times, nonce, timestamp, signature);
    assert phase.Checked?;
    assert CheckStep(ed, s, e).verifies == map[0 := VerifyCall(id, nonce, timestamp, signature, phase)] by {
      DecodesBack(nonce);
      DecodesBack(signature);
    }
  }
}
