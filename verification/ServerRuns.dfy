/** What the desktop server keeps over every run. */
module ServerRuns {
  import opened Wrappers
  import opened Hex
  import opened Timestamps
  import opened Crypto
  import opened Replay
  import opened Server
  import opened Phone

  datatype Event =
    | Start(random: uint64, now: int, listens: bool)
    | Stop
    | Show(random: uint64, now: int, createdNow: int)
    | Line(request: Request, inputs: Inputs)

  function Next(lib: Library, s: State, e: Event): State {
    match e
    case Start(random, now, listens) => Started(s, random, now, listens)
    case Stop => s.(running := false)
    case Show(random, now, createdNow) => Shown(s, random, now, createdNow)
    case Line(r, x) => LineOutcome(lib, s, r, x).1
  }

  /** The state before the n-th event. */
  function StateAt(lib: Library, s: State, es: seq<Event>, n: nat): State
    requires n <= |es|
  {
    if n == 0 then s else Next(lib, StateAt(lib, s, es, n - 1), es[n - 1])
  }

  // ---- The key tables ----

  predicate TablesMatch(s: State) {
    && s.paired.Keys == s.sessions.Keys
    && (forall id :: id in s.paired ==> |s.paired[id]| == 32 && |s.sessions[id]| == 32)
  }

  /** In every reachable state a device has a signing key exactly when it has a session key, and both
      have 32 bytes. */
  lemma {:induction false} TablesAlwaysMatch(lib: Library, s: State, es: seq<Event>, n: nat)
    requires TablesMatch(s) && n <= |es|
    ensures TablesMatch(StateAt(lib, s, es, n))
  {
    if n > 0 {
      TablesAlwaysMatch(lib, s, es, n - 1);
      var before, e := StateAt(lib, s, es, n - 1), es[n - 1];
      if e.Line? { LineKeepsTables(lib, before, e.request, e.inputs); }
    }
  }

  lemma LineKeepsTables(lib: Library, s: State, r: Request, x: Inputs)
    requires TablesMatch(s)
    ensures TablesMatch(LineOutcome(lib, s, r, x).1)
  {
    if r.PairRequest? {
      var t := PairReply(lib, s, r, x.now).1;
      assert t != s ==> t.paired.Keys == s.paired.Keys + {r.deviceId};
      assert t != s ==> t.sessions.Keys == s.sessions.Keys + {r.deviceId};
    }
  }

  // ---- Pairing codes ----

  predicate Issues(s: State, e: Event) {
    match e
    case Start(_, _, _) => !s.running && |s.publicKey| == 32
    case Show(_, now, _) => NeedsCode(s, now)
    case _ => false
  }

  function IssuedCode(e: Event): string
    requires e.Start? || e.Show?
  {
    CodeText(e.random)
  }

  function IssueTime(e: Event): int
    requires e.Start? || e.Show?
  {
    if e.Start? then e.now else e.createdNow
  }

  predicate AcceptsPairing(lib: Library, s: State, e: Event) {
    e.Line? && e.request.PairRequest? && PairReply(lib, s, e.request, e.inputs.now).0.Paired?
  }

  /** A pair request is accepted exactly if it names a device, brings two 32-byte keys and the current code
      within 300 seconds, and the key agreement succeeds. A rejected one changes nothing; an accepted one
      spends the code and writes exactly the requesting device's two keys. */
  lemma PairingEffect(lib: Library, s: State, e: Event)
    requires e.Line? && e.request.PairRequest?
    ensures AcceptsPairing(lib, s, e) <==>
            var r := e.request;
            && r.deviceId != "" && |QtFromHex(r.publicKey)| == 32 && |QtFromHex(r.exchangeKey)| == 32
            && r.code == s.code && e.inputs.now - s.createdAt <= 300
            && |s.privateKey| == 32 && lib.agree(s.privateKey, QtFromHex(r.exchangeKey)).Some?
    ensures !AcceptsPairing(lib, s, e) ==> Next(lib, s, e) == s
    ensures AcceptsPairing(lib, s, e) ==>
              var r, t := e.request, Next(lib, s, e);
              && t.code == ""
              && t.paired == s.paired[r.deviceId := QtFromHex(r.publicKey)]
              && |s.privateKey| == 32 && |QtFromHex(r.exchangeKey)| == 32
              && t.sessions == s.sessions[r.deviceId := lib.agree(s.privateKey, QtFromHex(r.exchangeKey)).value]
              && t.guard == s.guard
  {}

  /** Event k neither issues a code nor spends one. */
  ghost predicate Quiet(lib: Library, s: State, es: seq<Event>, k: nat)
    requires k < |es|
  {
    !Issues(StateAt(lib, s, es, k), es[k]) && !AcceptsPairing(lib, StateAt(lib, s, es, k), es[k])
  }

  /** Event j issued the code that is current before event n, and nothing has issued or spent one since. */
  ghost predicate Outstanding(lib: Library, s: State, es: seq<Event>, j: nat, n: nat)
    requires n <= |es|
  {
    && j < n
    && Issues(StateAt(lib, s, es, j), es[j])
    && forall k :: j < k < n ==> Quiet(lib, s, es, k)
  }

  /** Only issuing and spending touch the code. */
  lemma CodeMoves(lib: Library, s: State, e: Event)
    ensures Issues(s, e) ==> Next(lib, s, e).code == IssuedCode(e) != "" && Next(lib, s, e).createdAt == IssueTime(e)
    ensures AcceptsPairing(lib, s, e) ==> Next(lib, s, e).code == ""
    ensures !Issues(s, e) && !AcceptsPairing(lib, s, e) ==>
              Next(lib, s, e).code == s.code && Next(lib, s, e).createdAt == s.createdAt
  {
    if e.Line? { LineMovesCode(lib, s, e.request, e.inputs); }
  }

  lemma LineMovesCode(lib: Library, s: State, r: Request, x: Inputs)
    ensures var t := LineOutcome(lib, s, r, x).1;
            && t.createdAt == s.createdAt
            && t.code == if r.PairRequest? && PairReply(lib, s, r, x.now).0.Paired? then "" else s.code
  {}

  lemma {:induction false} OutstandingIsCurrent(lib: Library, s: State, es: seq<Event>, j: nat, n: nat)
    requires n <= |es| && Outstanding(lib, s, es, j, n)
    ensures var t := StateAt(lib, s, es, n);
            t.code == IssuedCode(es[j]) != "" && t.createdAt == IssueTime(es[j])
  {
    if j < n - 1 {
      OutstandingIsCurrent(lib, s, es, j, n - 1);
      assert Quiet(lib, s, es, n - 1);
      QuietStep(lib, s, es, n - 1);
    } else {
      CodeMoves(lib, StateAt(lib, s, es, j), es[j]);
    }
  }

  lemma QuietStep(lib: Library, s: State, es: seq<Event>, n: nat)
    requires n < |es| && Quiet(lib, s, es, n)
    ensures StateAt(lib, s, es, n + 1).code == StateAt(lib, s, es, n).code
    ensures StateAt(lib, s, es, n + 1).createdAt == StateAt(lib, s, es, n).createdAt
  {
    CodeMoves(lib, StateAt(lib, s, es, n), es[n]);
  }

  lemma CodeKeptOrIssued(lib: Library, s: State, es: seq<Event>, n: nat)
    requires n < |es| && StateAt(lib, s, es, n + 1).code != ""
    ensures Issues(StateAt(lib, s, es, n), es[n]) || (Quiet(lib, s, es, n) && StateAt(lib, s, es, n).code != "")
  {
    CodeMoves(lib, StateAt(lib, s, es, n), es[n]);
  }

  /** A code that is current before event n was issued by an event that is still outstanding. */
  lemma {:induction false} CodeWasIssued(lib: Library, s: State, es: seq<Event>, n: nat)
    requires n <= |es| && s.code == "" && StateAt(lib, s, es, n).code != ""
    ensures exists j :: Outstanding(lib, s, es, j, n)
  {
    CodeKeptOrIssued(lib, s, es, n - 1);
    if Issues(StateAt(lib, s, es, n - 1), es[n - 1]) {
      assert Outstanding(lib, s, es, n - 1, n);
    } else {
      CodeWasIssued(lib, s, es, n - 1);
      var j :| Outstanding(lib, s, es, j, n - 1);
      OutstandingExtends(lib, s, es, j, n - 1);
    }
  }

  ghost function IssueOf(lib: Library, s: State, es: seq<Event>, n: nat): (j: nat)
    requires n <= |es| && s.code == "" && StateAt(lib, s, es, n).code != ""
    ensures Outstanding(lib, s, es, j, n)
  {
    CodeWasIssued(lib, s, es, n);
    var j :| Outstanding(lib, s, es, j, n);
    j
  }

  lemma OutstandingExtends(lib: Library, s: State, es: seq<Event>, j: nat, n: nat)
    requires n < |es| && Outstanding(lib, s, es, j, n)
    requires Quiet(lib, s, es, n)
    ensures Outstanding(lib, s, es, j, n + 1)
  {}

  ghost predicate PairsWithCode(lib: Library, s: State, es: seq<Event>, i: nat) {
    i < |es| && AcceptsPairing(lib, StateAt(lib, s, es, i), es[i]) && es[i].request.code != ""
  }

  /** Event j issued the code that event i presents, at most five minutes before. */
  ghost predicate IssuedFor(lib: Library, s: State, es: seq<Event>, j: nat, i: nat) {
    && j < i < |es| && Issues(StateAt(lib, s, es, j), es[j])
    && es[i].Line? && es[i].request.PairRequest? && es[i].request.code == IssuedCode(es[j])
    && es[i].inputs.now - IssueTime(es[j]) <= 300
  }

  /** m sends accepted pairings to the events that issued their codes, no two to the same one. */
  ghost predicate IssueMatch(lib: Library, s: State, es: seq<Event>, m: map<nat, nat>) {
    && (forall i :: i in m <==> PairsWithCode(lib, s, es, i))
    && (forall i :: i in m ==> IssuedFor(lib, s, es, m[i], i))
    && forall i1, i2 :: i1 in m && i2 in m && i1 != i2 ==> m[i1] != m[i2]
  }

  lemma PairingUsesCurrentCode(lib: Library, s: State, es: seq<Event>, i: nat)
    requires i < |es| && AcceptsPairing(lib, StateAt(lib, s, es, i), es[i])
    ensures es[i].request.code == StateAt(lib, s, es, i).code
    ensures es[i].inputs.now - StateAt(lib, s, es, i).createdAt <= PAIRING_SECONDS
  {}

  lemma IssueIsSound(lib: Library, s: State, es: seq<Event>, i: nat, j: nat)
    requires PairsWithCode(lib, s, es, i) && Outstanding(lib, s, es, j, i)
    ensures IssuedFor(lib, s, es, j, i)
  {
    PairingUsesCurrentCode(lib, s, es, i);
    OutstandingIsCurrent(lib, s, es, j, i);
  }

  lemma IssuesDiffer(lib: Library, s: State, es: seq<Event>, i1: nat, j1: nat, i2: nat, j2: nat)
    requires PairsWithCode(lib, s, es, i1) && PairsWithCode(lib, s, es, i2) && i1 < i2
    requires Outstanding(lib, s, es, j1, i1) && Outstanding(lib, s, es, j2, i2)
    ensures j1 != j2
  {
    assert !Quiet(lib, s, es, i1);
  }

  /** Accepted pairings that present a code map injectively to the events that issued those codes, each
      at most five minutes before. */
  lemma EachCodePairsOnce(lib: Library, s: State, es: seq<Event>)
    requires s.code == ""
    ensures exists m :: IssueMatch(lib, s, es, m)
  {
    forall i | PairsWithCode(lib, s, es, i) ensures StateAt(lib, s, es, i).code != "" {
      PairingUsesCurrentCode(lib, s, es, i);
    }
    var m := map i: nat | i < |es| && PairsWithCode(lib, s, es, i) :: IssueOf(lib, s, es, i);
    forall i | i in m ensures IssuedFor(lib, s, es, m[i], i) {
      IssueIsSound(lib, s, es, i, m[i]);
    }
    forall i1, i2 | i1 in m && i2 in m && i1 != i2 ensures m[i1] != m[i2] {
      if i1 < i2 { IssuesDiffer(lib, s, es, i1, m[i1], i2, m[i2]); }
      else { IssuesDiffer(lib, s, es, i2, m[i2], i1, m[i1]); }
    }
    assert IssueMatch(lib, s, es, m);
  }

  // ---- A code that another one has replaced ----

  /** Event i issues no code. */
  ghost predicate Silent(lib: Library, s: State, es: seq<Event>, i: nat)
    requires i < |es|
  {
    !Issues(StateAt(lib, s, es, i), es[i])
  }

  predicate CodeOrNone(s: State, code: string) {
    s.code == "" || s.code == code
  }

  lemma SilentStep(lib: Library, s: State, e: Event, code: string)
    requires CodeOrNone(s, code) && !Issues(s, e)
    ensures CodeOrNone(Next(lib, s, e), code)
  {
    CodeMoves(lib, s, e);
  }

  lemma {:induction false} StaysOrSpent(lib: Library, s: State, es: seq<Event>, n: nat, code: string)
    requires n <= |es| && CodeOrNone(s, code) && forall i :: 0 <= i < n ==> Silent(lib, s, es, i)
    ensures CodeOrNone(StateAt(lib, s, es, n), code)
  {
    if n > 0 {
      StaysOrSpent(lib, s, es, n - 1, code);
      assert Silent(lib, s, es, n - 1);
      SilentStep(lib, StateAt(lib, s, es, n - 1), es[n - 1], code);
    }
  }

  /** Only the code drawn last pairs. Once an event in any state has issued a code, and until another one is
      issued, a request with the code of another draw, issued before or never, is rejected and changes
      nothing. */
  lemma OldCodeIsRefused(lib: Library, s: State, e: Event, es: seq<Event>, n: nat, draw: uint64)
    requires Issues(s, e) && n < |es| && forall i :: 0 <= i < n ==> Silent(lib, Next(lib, s, e), es, i)
    requires es[n].Line? && es[n].request.PairRequest?
    requires es[n].request.code == CodeText(draw) && draw != e.random
    ensures var t := StateAt(lib, Next(lib, s, e), es, n);
            !AcceptsPairing(lib, t, es[n]) && Next(lib, t, es[n]) == t
  {
    CodeMoves(lib, s, e);
    StaysOrSpent(lib, Next(lib, s, e), es, n, IssuedCode(e));
    CodesDiffer(draw, e.random);
    PairingEffect(lib, StateAt(lib, Next(lib, s, e), es, n), es[n]);
  }

  /** Once a code is spent, the current code is the empty string, and line 36 compares it like any
      other. So an accepted pairing spends an issued code exactly when it presents one. */
  lemma SpendsCodeExactly(lib: Library, s: State, es: seq<Event>, i: nat)
    requires s.code == "" && i < |es| && AcceptsPairing(lib, StateAt(lib, s, es, i), es[i])
    ensures (exists j :: Outstanding(lib, s, es, j, i)) <==> es[i].request.code != ""
  {
    PairingUsesCurrentCode(lib, s, es, i);
    if es[i].request.code != "" {
      assert Outstanding(lib, s, es, IssueOf(lib, s, es, i), i);
    }
    if j :| Outstanding(lib, s, es, j, i) { OutstandingIsCurrent(lib, s, es, j, i); }
  }

  /** The one-time code does not stop a second pairing: within five minutes of the code's issue, a
      request with no code follows the first device's. */
  lemma SecondPairingWithoutCode(lib: Library, s: State, random: uint64, now: int64, first: Request, second: Request,
                                 x: Inputs) returns (es: seq<Event>)
    requires !s.running && |s.publicKey| == 32 && s.code == "" && x.now == now
    requires first.PairRequest? && first.deviceId != "" && first.code == CodeText(random)
    requires second.PairRequest? && second.deviceId != "" && second.code == ""
    requires |QtFromHex(first.publicKey)| == 32 && |QtFromHex(second.publicKey)| == 32
    requires X25519SharedSecret(lib, s.privateKey, QtFromHex(first.exchangeKey)).Ok?
    requires X25519SharedSecret(lib, s.privateKey, QtFromHex(second.exchangeKey)).Ok?
    ensures |es| == 3 && (forall i :: 0 < i < 3 ==> AcceptsPairing(lib, StateAt(lib, s, es, i), es[i]))
    ensures second.deviceId in StateAt(lib, s, es, 3).paired
  {
    es := [Start(random, now, true), Line(first, x), Line(second, x)];
    var s1, s2 := StateAt(lib, s, es, 1), StateAt(lib, s, es, 2);
    assert StateAt(lib, s, es, 0) == s;
    assert s1 == Next(lib, s, es[0]);
    assert s1 == WithCode(s, random, now).(running := true);
    assert s2 == PairReply(lib, s1, first, now).1;
  }

  // ---- Authorization ----

  /** The payload of an accepted envelope. */
  function Opened(lib: Library, s: State, e: Event): Option<Payload> {
    if !e.Line? then None
    else match DecryptRequest(lib, s, e.request)
      case Ok(p) => Some(p)
      case Err(_) => None
  }

  predicate Verifies(lib: Library, s: State, e: Event) {
    Opened(lib, s, e).Some? && Opened(lib, s, e).value.VerifyRequest?
  }

  /** The event authorizes its device for this nonce and timestamp. */
  predicate Grants(lib: Library, s: State, e: Event, nonce: seq<byte>, timestamp: int) {
    && Verifies(lib, s, e)
    && var p := Opened(lib, s, e).value;
       QtFromHex(p.nonce) == nonce && p.timestamp == timestamp && Authorizes(lib, s, e.request.deviceId, p, e.inputs)
  }

  /** What stands behind a reply that the device reads as authorized: its line was an envelope that opens
      under the device's current session key with its own identifier as associated data, the envelope held
      a verify request whose signature is valid on nonce and timestamp under the device's current signing
      key, and the replay cache accepted the pair. */
  lemma AuthorizedReplyMeans(lib: Library, s: State, r: Request, x: Inputs, deviceId: string)
    requires Lawful(lib) && TablesMatch(s) && x.envelope != [] && deviceId in s.sessions
    requires r.SecureRequest? && r.deviceId == deviceId
    requires OpenEnvelope(lib, s.sessions[deviceId], deviceId, LineOutcome(lib, s, r, x).0) == Ok(AuthorizedReply(true))
    ensures exists p: Payload, text: seq<byte> ::
              && DecryptAes256Gcm(lib, s.sessions[deviceId], QtFromHex(r.nonce), QtFromHex(r.ciphertext),
                                  QtFromHex(r.tag), deviceId) == Ok(text)
              && lib.parse(text) == Some(p) && p.VerifyRequest?
              && VerifyEd25519(lib, s.paired[deviceId], QtFromHex(p.nonce) + BigEndian(p.timestamp, 8),
                               QtFromHex(p.signature))
              && Accepts(s.guard, GuardCall(p, x), DESKTOP)
  {
    var e, key := Line(r, x), s.sessions[deviceId];
    var text := DecryptAes256Gcm(lib, key, QtFromHex(r.nonce), QtFromHex(r.ciphertext), QtFromHex(r.tag), deviceId);
    assert Opened(lib, s, e).Some? && text.Ok?;
    var p := Opened(lib, s, e).value;
    assert lib.parse(text.value) == Some(p);
    var t := LineOutcome(lib, s, r, x).1;
    assert t.sessions == s.sessions;
    match p {
      case ChallengeRequest =>
        PhoneOpens(lib, t, key, deviceId, ChallengeReply(Encode(x.challenge), Encode(x.challenge), x.now), x.envelope);
      case VerifyRequest(_, _, _) =>
        PhoneOpens(lib, t, key, deviceId, AuthorizedReply(Authorizes(lib, s, deviceId, p, x)), x.envelope);
      case _ =>
        PhoneOpens(lib, t, key, deviceId, ErrorReply("unsupported request type"), x.envelope);
    }
  }

  // ---- At most two authorizations ----

  function Authorizations(lib: Library, s: State, es: seq<Event>, nonce: seq<byte>, timestamp: int): nat
    decreases es
  {
    if es == [] then 0
    else (if Grants(lib, s, es[0], nonce, timestamp) then 1 else 0) +
         Authorizations(lib, Next(lib, s, es[0]), es[1..], nonce, timestamp)
  }

  /** The event's call of the replay cache, if it makes one. */
  function CallOf(lib: Library, s: State, e: Event): seq<Call> {
    if Verifies(lib, s, e) && e.request.deviceId in s.paired then [GuardCall(Opened(lib, s, e).value, e.inputs)] else []
  }

  function CallsOf(lib: Library, s: State, es: seq<Event>): seq<Call>
    decreases es
  {
    if es == [] then [] else CallOf(lib, s, es[0]) + CallsOf(lib, Next(lib, s, es[0]), es[1..])
  }

  /** A clock that does not run backwards, read twice per call within `delay` seconds. */
  ghost predicate ClockedEvents(es: seq<Event>, start: int, delay: nat)
    decreases es
  {
    es == [] ||
    if es[0].Line? then
      var x := es[0].inputs;
      && IsClock(x.freshAt) && IsClock(x.guardNow)
      && start <= x.guardNow && x.freshAt <= x.guardNow <= x.freshAt + delay
      && ClockedEvents(es[1..], x.guardNow, delay)
    else ClockedEvents(es[1..], start, delay)
  }

  lemma ClockedLater(calls: seq<Call>, start: int, later: int, delay: nat)
    requires Clocked(calls, later, delay) && start <= later
    ensures Clocked(calls, start, delay)
  {}

  lemma GuardMoves(lib: Library, s: State, e: Event)
    ensures CallOf(lib, s, e) == [] ==> Next(lib, s, e).guard == s.guard
    ensures CallOf(lib, s, e) != [] ==> Next(lib, s, e).guard == After(s.guard, CallOf(lib, s, e)[0], DESKTOP)
  {}

  lemma {:induction false} CallsAreClocked(lib: Library, s: State, es: seq<Event>, start: int, delay: nat)
    requires ClockedEvents(es, start, delay)
    ensures Clocked(CallsOf(lib, s, es), start, delay)
    decreases es
  {
    if es != [] {
      var t, rest := Next(lib, s, es[0]), CallsOf(lib, Next(lib, s, es[0]), es[1..]);
      if es[0].Line? {
        CallsAreClocked(lib, t, es[1..], es[0].inputs.guardNow, delay);
        ClockedLater(rest, start, es[0].inputs.guardNow, delay);
      } else {
        CallsAreClocked(lib, t, es[1..], start, delay);
      }
      if CallOf(lib, s, es[0]) == [] {
        assert CallsOf(lib, s, es) == rest;
      } else {
        assert CallsOf(lib, s, es)[1..] == rest;
      }
    }
  }

  lemma {:induction false} GrantsAreAcceptances(lib: Library, s: State, es: seq<Event>, nonce: seq<byte>,
                                                timestamp: int)
    ensures Authorizations(lib, s, es, nonce, timestamp) <=
            Acceptances(s.guard, CallsOf(lib, s, es), nonce, timestamp, DESKTOP)
    decreases es
  {
    if es != [] {
      var t, rest := Next(lib, s, es[0]), CallsOf(lib, Next(lib, s, es[0]), es[1..]);
      GrantsAreAcceptances(lib, t, es[1..], nonce, timestamp);
      GuardMoves(lib, s, es[0]);
      if CallOf(lib, s, es[0]) == [] {
        assert CallsOf(lib, s, es) == rest;
      } else {
        assert CallsOf(lib, s, es)[0] == CallOf(lib, s, es[0])[0] && CallsOf(lib, s, es)[1..] == rest;
      }
    }
  }

  /** Over any run of the server, one nonce and timestamp authorizes at most twice, all devices together,
      while no call's second clock reading is more than a second late. */
  lemma AuthorizesAtMostTwice(lib: Library, s: State, es: seq<Event>, start: int, delay: nat,
                              nonce: seq<byte>, timestamp: int)
    requires delay <= 1 && ClockedEvents(es, start, delay) && s.guard.lastCleanup <= start
    ensures Authorizations(lib, s, es, nonce, timestamp) <= 2
  {
    GrantsAreAcceptances(lib, s, es, nonce, timestamp);
    CallsAreClocked(lib, s, es, start, delay);
    AcceptedAtMostTwice(s.guard, CallsOf(lib, s, es), start, nonce, timestamp, delay);
  }

  // ---- A wrong signature spends the nonce ----

  /** The event is a verify request of a paired device that the cache remembers, or remembered before: fresh,
      with this nonce and timestamp and any signature. */
  predicate Spends(lib: Library, s: State, e: Event, nonce: seq<byte>, timestamp: int) {
    && Verifies(lib, s, e) && e.request.deviceId in s.paired
    && var p := Opened(lib, s, e).value;
       QtFromHex(p.nonce) == nonce && p.timestamp == timestamp && Considered(GuardCall(p, e.inputs), DESKTOP)
  }

  /** The cache was last wiped after this time, or at this time and still holds the token. */
  predicate Remembers(g: Guard, lastCleanup: int, token: seq<byte>) {
    lastCleanup < g.lastCleanup || (lastCleanup == g.lastCleanup && token in g.seen)
  }

  lemma SpendingIsRemembered(lib: Library, s: State, e: Event, nonce: seq<byte>, timestamp: int)
    requires Spends(lib, s, e, nonce, timestamp)
    ensures var g := Next(lib, s, e).guard; Remembers(g, g.lastCleanup, Token(nonce, timestamp))
  {
    GuardMoves(lib, s, e);
  }

  /** A wipe moves the time of the last wipe forward, whatever the clock does; without one the cache grows. */
  lemma EventKeepsMemory(lib: Library, s: State, e: Event, lastCleanup: int, token: seq<byte>)
    requires Remembers(s.guard, lastCleanup, token)
    ensures Remembers(Next(lib, s, e).guard, lastCleanup, token)
  {
    GuardMoves(lib, s, e);
  }

  lemma {:induction false} StaysRemembered(lib: Library, s: State, es: seq<Event>, k: nat, n: nat, lastCleanup: int,
                                           token: seq<byte>)
    requires k <= n <= |es| && Remembers(StateAt(lib, s, es, k).guard, lastCleanup, token)
    ensures Remembers(StateAt(lib, s, es, n).guard, lastCleanup, token)
  {
    if k < n {
      StaysRemembered(lib, s, es, k, n - 1, lastCleanup, token);
      EventKeepsMemory(lib, StateAt(lib, s, es, n - 1), es[n - 1], lastCleanup, token);
    }
  }

  /** The signature is valid under the device's current signing key. */
  predicate SignatureHolds(lib: Library, s: State, e: Event)
    requires Verifies(lib, s, e) && e.request.deviceId in s.paired
  {
    var p := Opened(lib, s, e).value;
    VerifyEd25519(lib, s.paired[e.request.deviceId], QtFromHex(p.nonce) + BigEndian(p.timestamp, 8),
                  QtFromHex(p.signature))
  }

  /** The event is authorized for the pair only if the last wipe is then later than this one; and if the cache
      was not wiped before the event, exactly if it is fresh, its signature is right, and it wipes the cache. */
  predicate OnlyAfterWipe(lib: Library, s: State, e: Event, lastCleanup: int, nonce: seq<byte>, timestamp: int) {
    && (Grants(lib, s, e, nonce, timestamp) ==> Next(lib, s, e).guard.lastCleanup > lastCleanup)
    && (s.guard.lastCleanup == lastCleanup ==>
          (Grants(lib, s, e, nonce, timestamp) <==>
           Spends(lib, s, e, nonce, timestamp) && SignatureHolds(lib, s, e) &&
           e.inputs.guardNow - lastCleanup > 60))
  }

  lemma GrantsIfRemembered(lib: Library, s: State, e: Event, lastCleanup: int, nonce: seq<byte>, timestamp: int)
    requires Remembers(s.guard, lastCleanup, Token(nonce, timestamp))
    ensures OnlyAfterWipe(lib, s, e, lastCleanup, nonce, timestamp)
  {
    GuardMoves(lib, s, e);
  }

  predicate RemembersOwn(s: State, token: seq<byte>) {
    Remembers(s.guard, s.guard.lastCleanup, token)
  }

  lemma RememberedGrants(lib: Library, s: State, es: seq<Event>, n: nat, nonce: seq<byte>, timestamp: int)
    requires n < |es| && RemembersOwn(s, Token(nonce, timestamp))
    ensures OnlyAfterWipe(lib, StateAt(lib, s, es, n), es[n], s.guard.lastCleanup, nonce, timestamp)
  {
    StaysRemembered(lib, s, es, 0, n, s.guard.lastCleanup, Token(nonce, timestamp));
    GrantsIfRemembered(lib, StateAt(lib, s, es, n), es[n], s.guard.lastCleanup, nonce, timestamp);
  }

  /** The cache remembers before the signature is checked: once an event in any state has presented a fresh
      nonce and timestamp, with any signature, no event of the run that follows, of any device, is authorized
      for them before the cache is wiped. While it has not been wiped, one is authorized exactly if it is
      fresh, its signature is right, and it wipes the cache itself. */
  lemma WrongSignatureSpendsTheNonce(lib: Library, s: State, e: Event, es: seq<Event>, n: nat, nonce: seq<byte>,
                                     timestamp: int)
    requires Spends(lib, s, e, nonce, timestamp) && n < |es|
    ensures var t := Next(lib, s, e);
            OnlyAfterWipe(lib, StateAt(lib, t, es, n), es[n], t.guard.lastCleanup, nonce, timestamp)
  {
    SpendingIsRemembered(lib, s, e, nonce, timestamp);
    RememberedGrants(lib, Next(lib, s, e), es, n, nonce, timestamp);
  }
}
