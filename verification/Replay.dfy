/** The desktop's replay cache: fresh pairs are remembered in a set that is wiped as a whole when a
    fresh call finds the last wipe more than a minute old. What it guarantees is a bound on how often
    one pair is accepted, and the bound depends on the window, on the wipe period, and on how late
    the second clock reading of a call may be. */
module Replay {
  import opened Hex
  import opened Timestamps

  /** Signatures are fresh within `window` seconds; the cache is wiped after more than `period`. */
  datatype Policy = Policy(window: nat, period: nat)

  const DESKTOP := Policy(30, 60)

  // ---- qint64 arithmetic ----

  function Wrap64(x: int): int { (x + TWO_63) % TWO_64 - TWO_63 }

  /** qAbs has no positive value to return for the least qint64. C++ leaves that negation undefined, and so
      it does the subtraction below for timestamps under now - 2^63; here both wrap, as two's complement
      does. */
  function QAbs(x: int): int { if x >= 0 then x else Wrap64(-x) }

  predicate Fresh(timestamp: int, now: int, window: nat) { QAbs(Wrap64(timestamp - now)) <= window }

  predicate IsFreshTimestamp(timestamp: int, now: int) { Fresh(timestamp, now, DESKTOP.window) }

  /** Clock readings this model covers: the seconds of the next 146 billion years. */
  predicate IsClock(now: int) { 0 <= now < TWO_62 }

  function FirstFresh(timestamp: int, window: nat): int {
    if timestamp >= -TWO_62 then timestamp - window else timestamp + TWO_63
  }

  function LastFresh(timestamp: int, window: nat): int {
    if timestamp >= -TWO_62 then timestamp + window else timestamp + TWO_63
  }

  /** Freshness is membership in an interval: the expected one around every timestamp a clock can
      show, and a single wrapped instant for the timestamps far below zero. */
  lemma FreshExactly(timestamp: int, now: int, window: nat)
    requires IsInt64(timestamp) && IsClock(now) && window < TWO_62 / 2
    ensures Fresh(timestamp, now, window) <==> FirstFresh(timestamp, window) <= now <= LastFresh(timestamp, window)
  {
    var d := timestamp - now;
    if d >= -TWO_63 {
      QuotientIs(d + TWO_63, TWO_64, 0, d + TWO_63);
    } else {
      QuotientIs(d + TWO_63, TWO_64, -1, d + TWO_63 + TWO_64);
    }
    if d == -TWO_63 { QuotientIs(TWO_64, TWO_64, 1, 0); }
    if -TWO_63 < d < 0 { QuotientIs(-d + TWO_63, TWO_64, 0, -d + TWO_63); }
  }

  /** The desktop's window in numbers, for every timestamp that a clock can come near. */
  lemma DesktopFreshness(timestamp: int, now: int)
    requires -TWO_62 <= timestamp < TWO_63 && IsClock(now)
    ensures IsFreshTimestamp(timestamp, now) <==> timestamp - 30 <= now <= timestamp + 30
  {
    FreshExactly(timestamp, now, 30);
  }

  // ---- The cache ----

  datatype Guard = Guard(seen: set<seq<byte>>, lastCleanup: int)

  const EMPTY := Guard({}, 0)

  /** One call. The freshness test reads the clock before the lock is taken, the wipe test after. */
  datatype Call = Call(nonce: seq<byte>, timestamp: int, freshAt: int, now: int)

  predicate Considered(c: Call, p: Policy) {
    c.nonce != [] && Fresh(c.timestamp, c.freshAt, p.window)
  }

  predicate Wipes(g: Guard, c: Call, p: Policy) {
    Considered(c, p) && c.now - g.lastCleanup > p.period
  }

  predicate Accepts(g: Guard, c: Call, p: Policy) {
    Considered(c, p) && (Wipes(g, c, p) || Token(c.nonce, c.timestamp) !in g.seen)
  }

  function After(g: Guard, c: Call, p: Policy): Guard {
    var wiped := if Wipes(g, c, p) then Guard({}, c.now) else g;
    if Considered(c, p) then wiped.(seen := wiped.seen + {Token(c.nonce, c.timestamp)}) else wiped
  }

  /** The desktop's cache in numbers: a pair whose token is not remembered is accepted exactly if its nonce is
      not empty and it is fresh; a remembered one exactly if, besides, the last wipe is more than 60 seconds
      ago. That wipes the cache and leaves only this token. */
  lemma DesktopAcceptsExactly(g: Guard, c: Call)
    requires -TWO_62 <= c.timestamp < TWO_63 && IsClock(c.freshAt)
    ensures var timely, token := c.timestamp - 30 <= c.freshAt <= c.timestamp + 30, Token(c.nonce, c.timestamp);
            && (Accepts(g, c, DESKTOP) <==>
                  c.nonce != [] && timely && (token in g.seen ==> c.now - g.lastCleanup > 60))
            && (c.nonce != [] && timely && c.now - g.lastCleanup > 60 ==>
                  After(g, c, DESKTOP) == Guard({token}, c.now))
            && (c.nonce != [] && timely && c.now - g.lastCleanup <= 60 ==>
                  After(g, c, DESKTOP) == Guard(g.seen + {token}, g.lastCleanup))
            && (c.nonce == [] || !timely ==> After(g, c, DESKTOP) == g)
  {
    DesktopFreshness(c.timestamp, c.freshAt);
  }

  class ReplayGuard {
    var seen: set<seq<byte>>
    var lastCleanup: int

    function State(): Guard
      reads this
    {
      Guard(seen, lastCleanup)
    }

    constructor ()
      ensures State() == EMPTY
    {
      seen, lastCleanup := {}, 0;
    }

    method Accept(nonce: seq<byte>, timestamp: int, freshAt: int, now: int) returns (accepted: bool)
      modifies this
      ensures accepted <==> Accepts(old(State()), Call(nonce, timestamp, freshAt, now), DESKTOP)
      ensures State() == After(old(State()), Call(nonce, timestamp, freshAt, now), DESKTOP)
    {
      if nonce == [] || !IsFreshTimestamp(timestamp, freshAt) { return false; }
      if now - lastCleanup > 60 { seen := {}; lastCleanup := now; }
      var token := Token(nonce, timestamp);
      if token in seen {
        assert seen + {token} == seen;
        return false;
      }
      seen := seen + {token};
      accepted := true;
    }
  }

  // ---- Runs ----

  /** Calls in the order in which they take the lock: the reading under the lock never decreases, and
      is at most `delay` seconds later than the same call's first reading. */
  ghost predicate Clocked(calls: seq<Call>, start: int, delay: nat) {
    calls == [] ||
    (var c := calls[0];
     && IsInt64(c.timestamp) && IsClock(c.freshAt) && IsClock(c.now)
     && start <= c.now && c.freshAt <= c.now <= c.freshAt + delay
     && Clocked(calls[1..], c.now, delay))
  }

  /** How many of the calls accept this pair. */
  function Acceptances(g: Guard, calls: seq<Call>, nonce: seq<byte>, timestamp: int, p: Policy): nat
    decreases calls
  {
    if calls == [] then 0
    else
      var c := calls[0];
      (if c.nonce == nonce && c.timestamp == timestamp && Accepts(g, c, p) then 1 else 0) +
      Acceptances(After(g, c, p), calls[1..], nonce, timestamp, p)
  }

  predicate Sensible(p: Policy, delay: nat) {
    p.window < TWO_62 / 8 && p.period < TWO_62 / 8 && delay < TWO_62 / 8
  }

  /** 2 + floor((2W - 1 + D) / (P + 1)). */
  function Bound(p: Policy, delay: nat): int {
    2 + (2 * p.window - 1 + delay) / (p.period + 1)
  }

  /** How many wipes fit, a period apart, into the seconds from `from` to `to`. */
  function Wipings(from: int, to: int, period: nat): nat {
    if from > to then 0 else 1 + (to - from) / (period + 1)
  }

  lemma WipingsShrink(from: int, later: int, to: int, period: nat)
    requires from <= later
    ensures Wipings(later, to, period) <= Wipings(from, to, period)
  {
    if later <= to {
      DivMonotone(to - later, to - from, period + 1);
    }
  }

  lemma DivMonotone(a: int, b: int, d: int)
    requires d > 0 && a <= b
    ensures a / d <= b / d
  {
    if a / d > b / d {
      var qa, qb := a / d, b / d;
      assert a == d * qa + a % d && b == d * qb + b % d;
      assert d * qa >= d * (qb + 1) by { MulMonotone(d, qb + 1, qa); }
      assert false;
    }
  }

  lemma MulMonotone(d: int, a: int, b: int)
    requires d > 0 && a <= b
    ensures d * a <= d * b
  {
    assert d * (b - a) >= 0;
  }

  lemma WipingsStep(from: int, to: int, period: nat)
    requires from <= to
    ensures Wipings(from, to, period) == 1 + Wipings(from + period + 1, to, period)
  {
    var d, n := period + 1, to - from;
    if n >= d {
      QuotientIs(n - d, d, n / d - 1, n % d);
    } else {
      QuotientIs(n, d, 0, n);
    }
  }

  /** From a given cache, how often this pair can still be accepted: once per wipe that can still
      come, and once more before the next wipe if it is not remembered now. */
  function Budget(g: Guard, nonce: seq<byte>, timestamp: int, p: Policy, delay: nat): nat {
    var last := LastFresh(timestamp, p.window) + delay;
    if Token(nonce, timestamp) in g.seen then Wipings(g.lastCleanup + p.period + 1, last, p.period)
    else Wipings(g.lastCleanup, last, p.period)
  }

  lemma CallSpendsBudget(g: Guard, c: Call, nonce: seq<byte>, timestamp: int, p: Policy, delay: nat)
    requires Sensible(p, delay) && g.lastCleanup <= c.now && IsInt64(timestamp)
    requires IsClock(c.freshAt) && c.now <= c.freshAt + delay
    ensures (if c.nonce == nonce && c.timestamp == timestamp && Accepts(g, c, p) then 1 else 0) +
            Budget(After(g, c, p), nonce, timestamp, p, delay) <= Budget(g, nonce, timestamp, p, delay)
  {
    var last := LastFresh(timestamp, p.window) + delay;
    if c.nonce == nonce && c.timestamp == timestamp && Accepts(g, c, p) {
      FreshExactly(timestamp, c.freshAt, p.window);
      if Wipes(g, c, p) { WipeSpends(g.lastCleanup, c.now, last, p.period); }
      else { WipingsStep(g.lastCleanup, last, p.period); }
    } else {
      WipingsShrink(g.lastCleanup, g.lastCleanup + p.period + 1, last, p.period);
      if Wipes(g, c, p) {
        WipingsShrink(g.lastCleanup + p.period + 1, c.now, last, p.period);
        WipingsShrink(c.now, c.now + p.period + 1, last, p.period);
      }
    }
  }

  lemma WipeSpends(lastCleanup: int, now: int, last: int, period: nat)
    requires now - lastCleanup > period && now <= last
    ensures 1 + Wipings(now + period + 1, last, period) <= Wipings(lastCleanup + period + 1, last, period)
    ensures Wipings(lastCleanup + period + 1, last, period) <= Wipings(lastCleanup, last, period)
  {
    WipingsStep(now, last, period);
    WipingsShrink(lastCleanup + period + 1, now, last, period);
    WipingsShrink(lastCleanup, lastCleanup + period + 1, last, period);
  }

  lemma {:induction false} WithinBudget(g: Guard, calls: seq<Call>, start: int, nonce: seq<byte>, timestamp: int,
                                        p: Policy, delay: nat)
    requires Sensible(p, delay) && Clocked(calls, start, delay) && g.lastCleanup <= start && IsInt64(timestamp)
    ensures Acceptances(g, calls, nonce, timestamp, p) <= Budget(g, nonce, timestamp, p, delay)
    decreases calls
  {
    if calls != [] {
      CallSpendsBudget(g, calls[0], nonce, timestamp, p, delay);
      WithinBudget(After(g, calls[0], p), calls[1..], calls[0].now, nonce, timestamp, p, delay);
    }
  }

  /** Over any run, from any state of the cache, one pair is accepted at most
      2 + floor((2W - 1 + D) / (P + 1)) times. */
  lemma {:induction false} AcceptedAtMost(g: Guard, calls: seq<Call>, start: int, nonce: seq<byte>, timestamp: int,
                                          p: Policy, delay: nat)
    requires Sensible(p, delay) && Clocked(calls, start, delay) && g.lastCleanup <= start
    ensures Acceptances(g, calls, nonce, timestamp, p) <= Bound(p, delay)
    decreases calls
  {
    if calls == [] {
      DivMonotone(-1, 2 * p.window - 1 + delay, p.period + 1);
    } else {
      var c := calls[0];
      var g' := After(g, c, p);
      if c.nonce == nonce && c.timestamp == timestamp && Accepts(g, c, p) {
        WithinBudget(g', calls[1..], c.now, nonce, timestamp, p, delay);
        FreshExactly(timestamp, c.freshAt, p.window);
        BudgetAfterFirst(g'.lastCleanup + p.period + 1, FirstFresh(timestamp, p.window),
                         LastFresh(timestamp, p.window) + delay, p, delay);
      } else {
        AcceptedAtMost(g', calls[1..], c.now, nonce, timestamp, p, delay);
      }
    }
  }

  lemma BudgetAfterFirst(next: int, first: int, last: int, p: Policy, delay: nat)
    requires first < next && last - first <= 2 * p.window + delay
    ensures 1 + Wipings(next, last, p.period) <= Bound(p, delay)
  {
    WipingsShrink(first + 1, next, last, p.period);
    if first + 1 <= last {
      DivMonotone(last - (first + 1), 2 * p.window - 1 + delay, p.period + 1);
    } else {
      DivMonotone(-1, 2 * p.window - 1 + delay, p.period + 1);
    }
  }

  /** The desktop's bound: at most twice, while the second reading is at most one second late. */
  lemma AcceptedAtMostTwice(g: Guard, calls: seq<Call>, start: int, nonce: seq<byte>, timestamp: int, delay: nat)
    requires delay <= 1 && Clocked(calls, start, delay) && g.lastCleanup <= start
    ensures Acceptances(g, calls, nonce, timestamp, DESKTOP) <= 2
  {
    AcceptedAtMost(g, calls, start, nonce, timestamp, DESKTOP, delay);
  }

  // ---- The bound is reached ----

  function Min(a: int, b: int): int { if a <= b then a else b }

  /** n calls of one pair, a wipe period apart, each as late as its freshness allows. */
  function Replays(n: nat, at: int, nonce: seq<byte>, timestamp: int, p: Policy): seq<Call> {
    if n == 0 then []
    else [Call(nonce, timestamp, Min(at, timestamp + p.window), at)] +
         Replays(n - 1, at + p.period + 1, nonce, timestamp, p)
  }

  lemma {:induction false} ReplaysAccepted(g: Guard, n: nat, at: int, start: int, nonce: seq<byte>, timestamp: int,
                                           p: Policy, delay: nat)
    requires Sensible(p, delay) && nonce != [] && 0 <= start <= at && timestamp - p.window <= at
    requires 0 <= timestamp - p.window && timestamp < TWO_62 / 2
    requires at - g.lastCleanup > p.period
    requires n <= Wipings(at, timestamp + p.window + delay, p.period)
    ensures Clocked(Replays(n, at, nonce, timestamp, p), start, delay)
    ensures Acceptances(g, Replays(n, at, nonce, timestamp, p), nonce, timestamp, p) == n
    decreases n
  {
    if n > 0 {
      var calls := Replays(n, at, nonce, timestamp, p);
      var c := calls[0];
      assert calls[1..] == Replays(n - 1, at + p.period + 1, nonce, timestamp, p);
      assert at <= timestamp + p.window + delay;
      FreshExactly(timestamp, c.freshAt, p.window);
      WipingsStep(at, timestamp + p.window + delay, p.period);
      ReplaysAccepted(After(g, c, p), n - 1, at + p.period + 1, at, nonce, timestamp, p, delay);
    }
  }

  /** From every state of the cache and for every nonce there is a timestamp and a run that accepts
      the pair exactly as often as the bound allows, unless that pair is already remembered. */
  lemma BoundIsReached(g: Guard, nonce: seq<byte>, p: Policy, delay: nat) returns (timestamp: int, calls: seq<Call>)
    requires Sensible(p, delay) && nonce != [] && 0 <= g.lastCleanup < TWO_62 / 8
    requires Token(nonce, g.lastCleanup + p.period + p.window) !in g.seen
    ensures timestamp == g.lastCleanup + p.period + p.window
    ensures Clocked(calls, g.lastCleanup, delay)
    ensures Acceptances(g, calls, nonce, timestamp, p) == Bound(p, delay)
  {
    var first := g.lastCleanup + p.period;
    timestamp := first + p.window;
    var c := Call(nonce, timestamp, first, first);
    FreshExactly(timestamp, first, p.window);
    var n := Bound(p, delay) - 1;
    DivMonotone(-1, 2 * p.window - 1 + delay, p.period + 1);
    QuotientIs(-1, p.period + 1, -1, p.period);
    calls := [c] + Replays(n, first + 1, nonce, timestamp, p);
    ReplaysAccepted(After(g, c, p), n, first + 1, first, nonce, timestamp, p, delay);
    assert calls[1..] == Replays(n, first + 1, nonce, timestamp, p);
  }

  /** A reading two seconds late is already enough for a third acceptance. */
  lemma ThreeWithTwoSeconds(nonce: seq<byte>) returns (timestamp: int, calls: seq<Call>)
    requires nonce != []
    ensures Clocked(calls, 0, 2) && Acceptances(EMPTY, calls, nonce, timestamp, DESKTOP) == 3
  {
    timestamp, calls := BoundIsReached(EMPTY, nonce, DESKTOP, 2);
  }

  /** After an acceptance that left the last wipe at time L, the pair can be accepted again if and
      only if the next wipe can come while a call may still find it fresh. With one clock reading per
      call that is L < t - 30 for the desktop, so L >= t - 30 means never again. */
  lemma AcceptedAgainExactly(g: Guard, c: Call, p: Policy, delay: nat)
    requires Sensible(p, delay) && Accepts(g, c, p) && IsInt64(c.timestamp)
    requires IsClock(c.freshAt) && c.freshAt <= c.now <= c.freshAt + delay && c.now < TWO_62 / 4
    requires g.lastCleanup <= c.now
    ensures (exists calls :: Clocked(calls, c.now, delay) &&
                             Acceptances(After(g, c, p), calls, c.nonce, c.timestamp, p) > 0) <==>
            After(g, c, p).lastCleanup + p.period < LastFresh(c.timestamp, p.window) + delay
  {
    var g' := After(g, c, p);
    var last := LastFresh(c.timestamp, p.window) + delay;
    FreshExactly(c.timestamp, c.freshAt, p.window);
    if g'.lastCleanup + p.period < last {
      var at := g'.lastCleanup + p.period + 1;
      var again := Call(c.nonce, c.timestamp, Min(at, LastFresh(c.timestamp, p.window)), at);
      FreshExactly(c.timestamp, again.freshAt, p.window);
      assert Acceptances(g', [again], c.nonce, c.timestamp, p) == 1;
      assert Clocked([again], c.now, delay);
    } else {
      forall calls | Clocked(calls, c.now, delay)
        ensures Acceptances(g', calls, c.nonce, c.timestamp, p) == 0
      {
        WithinBudget(g', calls, c.now, c.nonce, c.timestamp, p, delay);
      }
    }
  }

  // ---- What the cache remembers ----

  /** The cache after the first n calls. */
  function At(calls: seq<Call>, n: nat, p: Policy): Guard
    requires n <= |calls|
  {
    if n == 0 then EMPTY else After(At(calls, n - 1, p), calls[n - 1], p)
  }

  predicate AcceptedAt(calls: seq<Call>, i: nat, p: Policy)
    requires i < |calls|
  {
    Accepts(At(calls, i, p), calls[i], p)
  }

  predicate WipedAt(calls: seq<Call>, i: nat, p: Policy)
    requires i < |calls|
  {
    Wipes(At(calls, i, p), calls[i], p)
  }

  /** Something good happened before time n, and nothing has been wiped since. */
  ghost predicate Since(good: nat -> bool, wiped: nat -> bool, n: nat) {
    exists i :: 0 <= i < n && good(i) && forall j :: i < j < n ==> !wiped(j)
  }

  lemma SinceStep(good: nat -> bool, wiped: nat -> bool, n: nat)
    ensures Since(good, wiped, n + 1) <==> good(n) || (!wiped(n) && Since(good, wiped, n))
  {
    if !wiped(n) && Since(good, wiped, n) {
      var i :| 0 <= i < n && good(i) && forall j :: i < j < n ==> !wiped(j);
      assert good(i) && forall j :: i < j < n + 1 ==> !wiped(j);
    }
  }

  ghost function AcceptsToken(calls: seq<Call>, token: seq<byte>, p: Policy): nat -> bool {
    (i: nat) => i < |calls| && AcceptedAt(calls, i, p) && Token(calls[i].nonce, calls[i].timestamp) == token
  }

  ghost function WipesCache(calls: seq<Call>, p: Policy): nat -> bool {
    (i: nat) => i < |calls| && WipedAt(calls, i, p)
  }

  /** Some call since the last wipe, or the wiping call itself, accepted this token. */
  ghost predicate AcceptedSinceWipe(calls: seq<Call>, n: nat, token: seq<byte>, p: Policy) {
    Since(AcceptsToken(calls, token, p), WipesCache(calls, p), n)
  }

  lemma RememberedAfter(g: Guard, c: Call, token: seq<byte>, p: Policy)
    ensures token in After(g, c, p).seen <==>
            (Accepts(g, c, p) && Token(c.nonce, c.timestamp) == token) || (!Wipes(g, c, p) && token in g.seen)
  {}

  /** The cache remembers a token exactly when a call since the last wipe accepted it. */
  lemma {:induction false} RemembersExactly(calls: seq<Call>, n: nat, token: seq<byte>, p: Policy)
    requires n <= |calls|
    ensures token in At(calls, n, p).seen <==> AcceptedSinceWipe(calls, n, token, p)
  {
    if n > 0 {
      RemembersExactly(calls, n - 1, token, p);
      RemembersStep(calls, n - 1, token, p);
    }
  }

  lemma RemembersStep(calls: seq<Call>, n: nat, token: seq<byte>, p: Policy)
    requires n < |calls|
    requires token in At(calls, n, p).seen <==> AcceptedSinceWipe(calls, n, token, p)
    ensures token in At(calls, n + 1, p).seen <==> AcceptedSinceWipe(calls, n + 1, token, p)
  {
    RememberedAfter(At(calls, n, p), calls[n], token, p);
    SinceStep(AcceptsToken(calls, token, p), WipesCache(calls, p), n);
  }

  /** A call that wipes nothing is accepted exactly when its nonce is not empty, its timestamp is fresh,
      and no call since the last wipe was accepted with the same token. A wiping call always is. */
  lemma AcceptedExactly(calls: seq<Call>, n: nat, p: Policy)
    requires n < |calls|
    ensures AcceptedAt(calls, n, p) <==>
            && calls[n].nonce != [] && Fresh(calls[n].timestamp, calls[n].freshAt, p.window)
            && (WipedAt(calls, n, p) ||
                !AcceptedSinceWipe(calls, n, Token(calls[n].nonce, calls[n].timestamp), p))
  {
    RemembersExactly(calls, n, Token(calls[n].nonce, calls[n].timestamp), p);
  }

  lemma CallKeepsRecent(g: Guard, c: Call, p: Policy, delay: nat)
    requires Sensible(p, delay) && IsInt64(c.timestamp) && IsClock(c.freshAt) && c.freshAt <= c.now <= c.freshAt + delay
    requires g.lastCleanup <= c.now
    requires forall token :: token in g.seen ==> RecentToken(g.lastCleanup, token, p, delay)
    ensures forall token :: token in After(g, c, p).seen ==> RecentToken(After(g, c, p).lastCleanup, token, p, delay)
  {
    var g' := After(g, c, p);
    FreshExactly(c.timestamp, c.freshAt, p.window);
    forall token | token in g'.seen ensures RecentToken(g'.lastCleanup, token, p, delay) {
      if token == Token(c.nonce, c.timestamp) && Considered(c, p) {
        assert RecentPair(g'.lastCleanup, c.nonce, c.timestamp, p, delay);
      }
    }
  }

  /** Everything remembered carries a timestamp near the last wipe: no more than a window before it,
      no more than a period and a window after it. */
  lemma {:induction false} RemembersRecent(calls: seq<Call>, n: nat, p: Policy, delay: nat)
    requires Sensible(p, delay) && n <= |calls|
    requires forall i :: 0 <= i < |calls| ==>
               IsInt64(calls[i].timestamp) && IsClock(calls[i].freshAt) && IsClock(calls[i].now) &&
               calls[i].freshAt <= calls[i].now <= calls[i].freshAt + delay
    requires forall i, j :: 0 <= i < j < |calls| ==> calls[i].now <= calls[j].now
    ensures var g := At(calls, n, p);
            && 0 <= g.lastCleanup && (forall i :: n <= i < |calls| ==> g.lastCleanup <= calls[i].now)
            && forall token :: token in g.seen ==> RecentToken(g.lastCleanup, token, p, delay)
  {
    if n > 0 {
      RemembersRecent(calls, n - 1, p, delay);
      CallKeepsRecent(At(calls, n - 1, p), calls[n - 1], p, delay);
    }
  }

  /** The pair was fresh at some time between the last wipe, less the delay, and the end of its period;
      a timestamp that a clock can show itself lies within [L - W - D, L + P + W]. */
  ghost predicate RecentPair(lastCleanup: int, nonce: seq<byte>, timestamp: int, p: Policy, delay: nat) {
    && FirstFresh(timestamp, p.window) <= lastCleanup + p.period
    && lastCleanup - delay <= LastFresh(timestamp, p.window)
    && (timestamp >= -TWO_62 ==>
          lastCleanup - p.window - delay <= timestamp <= lastCleanup + p.period + p.window)
  }

  ghost predicate RecentToken(lastCleanup: int, token: seq<byte>, p: Policy, delay: nat) {
    exists nonce, timestamp ::
      token == Token(nonce, timestamp) && RecentPair(lastCleanup, nonce, timestamp, p, delay)
  }
}
