/** What the Pair calls do to the vault, over every interleaving. */
module DaemonKeys {
  import opened Wrappers
  import opened Hex
  import opened DaemonCrypto
  import opened Daemon
  import KS = KeyStore

  /** Event i began this Pair call: it presented a key, and read the vault if it could. */
  ghost predicate LoadedAt(ed: Ed25519, vault: Option<string>, es: seq<Event>, i: nat, p: nat, call: PairCall)
    requires i < |es| && call.phase.Loaded?
  {
    var s, e := At(ed, vault, es, i), es[i];
    && e.Pair? && e.p == p && Enabled(s, e)
    && Decode(e.publicKey) == Ok(call.key) && KS.Load(if e.readable then s.vault else None) == Ok(call.phase.keys)
  }

  lemma PairMoves(ed: Ed25519, s: State, e: Event, p: nat)
    requires p in s.pairs
    ensures p in Step(ed, s, e).pairs
    ensures Step(ed, s, e).pairs[p].phase.Loaded? ==> Step(ed, s, e).pairs[p] == s.pairs[p]
  {}

  lemma PairEnters(ed: Ed25519, s: State, e: Event, p: nat)
    requires p !in s.pairs && p in Step(ed, s, e).pairs
    ensures e.Pair? && e.p == p && Enabled(s, e) && Step(ed, s, e) == PairStep(s, e)
  {}

  lemma {:induction false} LoadOf(ed: Ed25519, vault: Option<string>, es: seq<Event>, n: nat, p: nat) returns (i: nat)
    requires n <= |es| && p in At(ed, vault, es, n).pairs && At(ed, vault, es, n).pairs[p].phase.Loaded?
    ensures i < n && LoadedAt(ed, vault, es, i, p, At(ed, vault, es, n).pairs[p])
  {
    var s, e := At(ed, vault, es, n - 1), es[n - 1];
    if p in s.pairs {
      PairMoves(ed, s, e, p);
      i := LoadOf(ed, vault, es, n - 1, p);
    } else {
      PairEnters(ed, s, e, p);
      i := n - 1;
    }
  }

  /** The event writes the vault. */
  predicate Writes(s: State, e: Event) {
    e.StoreKeys? && e.writable && Enabled(s, e)
  }

  /** A write stores what its own Pair call read at step i, with that call's key: in between others may have
      written, and that is overwritten. The call is then answered true. */
  lemma StoreWrites(ed: Ed25519, vault: Option<string>, es: seq<Event>, k: nat) returns (i: nat)
    requires k < |es| && Writes(At(ed, vault, es, k), es[k])
    ensures i < k && es[i].Pair? && es[i].p == es[k].p && Enabled(At(ed, vault, es, i), es[i])
    ensures KS.Load(if es[i].readable then At(ed, vault, es, i).vault else None).Ok?
    ensures At(ed, vault, es, k + 1).vault ==
            KS.AfterAdd(At(ed, vault, es, i).vault, DecodeOrEmpty(es[i].publicKey), es[i].readable)
    ensures es[k].p in At(ed, vault, es, k + 1).pairs && At(ed, vault, es, k + 1).pairs[es[k].p].phase == Paired
  {
    i := LoadOf(ed, vault, es, k, es[k].p);
    assert At(ed, vault, es, k + 1) == StoreStep(At(ed, vault, es, k), es[k]);
  }

  lemma OnlyWritesChange(ed: Ed25519, s: State, e: Event)
    requires !Writes(s, e)
    ensures Step(ed, s, e).vault == s.vault
  {}

  lemma {:induction false} VaultUntouched(ed: Ed25519, vault: Option<string>, es: seq<Event>, i: nat, k: nat)
    requires i <= k <= |es| && forall j :: i <= j < k ==> !Writes(At(ed, vault, es, j), es[j])
    ensures At(ed, vault, es, k).vault == At(ed, vault, es, i).vault
  {
    if i < k {
      VaultUntouched(ed, vault, es, i, k - 1);
      OnlyWritesChange(ed, At(ed, vault, es, k - 1), es[k - 1]);
    }
  }

  /** What a write keeps, in every run: its own key, and the keys that its Pair call could read at step i. So a
      key that is stored when the write comes is kept if and only if it is one of these. */
  lemma WriteKeepsExactly(ed: Ed25519, vault: Option<string>, es: seq<Event>, k: nat) returns (i: nat)
    requires k < |es| && Writes(At(ed, vault, es, k), es[k])
    ensures i < k && es[i].Pair? && es[i].p == es[k].p && Enabled(At(ed, vault, es, i), es[i])
    ensures forall key :: key in LoadedKeys(At(ed, vault, es, k + 1).vault) <==>
              Decode(es[i].publicKey) == Ok(key) || (es[i].readable && key in LoadedKeys(At(ed, vault, es, i).vault))
    ensures es[i].readable ==>
              LoadedKeys(At(ed, vault, es, k + 1).vault) ==
              KS.Added(LoadedKeys(At(ed, vault, es, i).vault), DecodeOrEmpty(es[i].publicKey))
  {
    i := StoreWrites(ed, vault, es, k);
    var read := KS.Load(if es[i].readable then At(ed, vault, es, i).vault else None).value;
    KS.TextRoundTrip(KS.Added(read, DecodeOrEmpty(es[i].publicKey)));
  }

  /** A Pair call that could read the vault and was not overtaken by another write forgets nothing: afterwards
      the vault loads to what it loaded to at every moment before, and the presented key. */
  lemma NothingIsForgotten(ed: Ed25519, vault: Option<string>, es: seq<Event>, i: nat, k: nat)
    requires i < k < |es| && Writes(At(ed, vault, es, k), es[k])
    requires es[i].Pair? && es[i].p == es[k].p && es[i].readable && Enabled(At(ed, vault, es, i), es[i])
    requires forall j :: i < j < k ==> !Writes(At(ed, vault, es, j), es[j])
    ensures LoadedKeys(At(ed, vault, es, k).vault) == LoadedKeys(At(ed, vault, es, i).vault)
    ensures LoadedKeys(At(ed, vault, es, k + 1).vault) ==
            KS.Added(LoadedKeys(At(ed, vault, es, k).vault), DecodeOrEmpty(es[i].publicKey))
    ensures forall key :: key in LoadedKeys(At(ed, vault, es, k).vault) ==>
              key in LoadedKeys(At(ed, vault, es, k + 1).vault)
    ensures DecodeOrEmpty(es[i].publicKey) in LoadedKeys(At(ed, vault, es, k + 1).vault)
  {
    var begun := WriteKeepsExactly(ed, vault, es, k);
    PairsOnce(ed, vault, es, begun, i);
    VaultUntouched(ed, vault, es, i, k);
  }

  lemma {:induction false} PairsGrow(ed: Ed25519, vault: Option<string>, es: seq<Event>, i: nat, j: nat, p: nat)
    requires i <= j <= |es| && p in At(ed, vault, es, i).pairs
    ensures p in At(ed, vault, es, j).pairs
  {
    if i < j {
      PairsGrow(ed, vault, es, i, j - 1, p);
      PairMoves(ed, At(ed, vault, es, j - 1), es[j - 1], p);
    }
  }

  lemma PairBegins(ed: Ed25519, vault: Option<string>, es: seq<Event>, i: nat)
    requires i < |es| && es[i].Pair? && Enabled(At(ed, vault, es, i), es[i])
    ensures es[i].p !in At(ed, vault, es, i).pairs && es[i].p in At(ed, vault, es, i + 1).pairs
  {}

  lemma LaterPairsDiffer(ed: Ed25519, vault: Option<string>, es: seq<Event>, i: nat, j: nat)
    requires i < j < |es| && es[i].Pair? && Enabled(At(ed, vault, es, i), es[i])
    requires es[j].Pair? && Enabled(At(ed, vault, es, j), es[j])
    ensures es[i].p != es[j].p
  {
    PairBegins(ed, vault, es, i);
    PairsGrow(ed, vault, es, i + 1, j, es[i].p);
  }

  /** A Pair call begins once. */
  lemma PairsOnce(ed: Ed25519, vault: Option<string>, es: seq<Event>, i: nat, j: nat)
    requires i < |es| && es[i].Pair? && Enabled(At(ed, vault, es, i), es[i])
    requires j < |es| && es[j].Pair? && Enabled(At(ed, vault, es, j), es[j]) && es[i].p == es[j].p
    ensures i == j
  {
    if i < j { LaterPairsDiffer(ed, vault, es, i, j); }
    if j < i { LaterPairsDiffer(ed, vault, es, j, i); }
  }

  // ---- A lost update ----

  /** Two Pair calls that both read the vault before either writes it. */
  function Interleaved(code: string, first: seq<byte>, second: seq<byte>): seq<Event> {
    [Pair(0, code, Encode(first), true), Pair(1, code, Encode(second), true), StoreKeys(0, true), StoreKeys(1, true)]
  }

  lemma BothRead(ed: Ed25519, code: string, first: seq<byte>, second: seq<byte>)
    requires code != "" && KS.IsKey(first) && KS.IsKey(second)
    ensures At(ed, None, Interleaved(code, first, second), 2).pairs ==
            map[0 := PairCall(code, Encode(first), first, Loaded([])),
                1 := PairCall(code, Encode(second), second, Loaded([]))]
  {
    Hex.RoundTrip(first);
    Hex.RoundTrip(second);
    var es := Interleaved(code, first, second);
    assert At(ed, None, es, 0) == Initial(None);
    assert At(ed, None, es, 1) == PairStep(Initial(None), es[0]);
    assert At(ed, None, es, 2) == PairStep(At(ed, None, es, 1), es[1]);
  }

  /** Both phones are told that they are paired, and only the second key is stored. */
  lemma BothPairedOneStored(ed: Ed25519, code: string, first: seq<byte>, second: seq<byte>)
    requires code != "" && KS.IsKey(first) && KS.IsKey(second)
    ensures var s := At(ed, None, Interleaved(code, first, second), 4);
            && 0 in s.pairs && 1 in s.pairs && s.pairs[0].phase == s.pairs[1].phase == Paired
            && LoadedKeys(s.vault) == [second]
  {
    var es := Interleaved(code, first, second);
    BothRead(ed, code, first, second);
    var s2, s3 := At(ed, None, es, 2), At(ed, None, es, 3);
    assert s3 == StoreStep(s2, es[2]);
    assert At(ed, None, es, 4) == StoreStep(s3, es[3]);
    KS.TextRoundTrip([second]);
    assert KS.Added([], second) == [second];
  }
}
