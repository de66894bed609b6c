/** The daemon's key store: one vault entry holding the paired public keys as lines of hex. */
module KeyStore {
  import opened Wrappers
  import opened Hex
  import F = Framing

  datatype StoreError = Vault | Encoding(error: HexError)

  predicate IsKey(bs: seq<byte>) { |bs| == 32 }

  predicate AreKeys(keys: seq<seq<byte>>) {
    forall k :: k in keys ==> IsKey(k)
  }

  // ---- Reading: value.lines().filter(..).map(..).collect() ----

  function StripCr(line: string): string {
    if line != "" && line[|line| - 1] == '\r' then line[..|line| - 1] else line
  }

  /** The pieces between newlines; a piece that ends in a newline also loses a carriage return. */
  function Pieces(text: string): (ps: seq<string>)
    ensures ps != []
  {
    if text == "" then [""]
    else
      var n := |text| - 1;
      var front := Pieces(text[..n]);
      var last := front[|front| - 1];
      if text[n] == '\n' then front[..|front| - 1] + [StripCr(last), ""]
      else front[..|front| - 1] + [last + [text[n]]]
  }

  /** `str::lines`: a final newline ends the last line, it does not open another. */
  function Lines(text: string): seq<string> {
    var ps := Pieces(text);
    if ps[|ps| - 1] == "" then ps[..|ps| - 1] else ps
  }

  function DecodeKey(line: string): Result<seq<byte>, StoreError> {
    match Decode(line)
    case Err(e) => Err(Encoding(e))
    case Ok(bs) => if IsKey(bs) then Ok(bs) else Err(Encoding(InvalidStringLength))
  }

  /** Empty lines are skipped; the first bad line fails the whole load. */
  function ParseLines(lines: seq<string>): (r: Result<seq<seq<byte>>, StoreError>)
    ensures r.Ok? ==> AreKeys(r.value)
  {
    if lines == [] then Ok([])
    else
      var n := |lines| - 1;
      match ParseLines(lines[..n])
      case Err(e) => Err(e)
      case Ok(keys) =>
        if lines[n] == "" then Ok(keys)
        else match DecodeKey(lines[n])
          case Err(e) => Err(e)
          case Ok(key) => Ok(keys + [key])
  }

  /** A vault that cannot be read counts as empty. */
  function Load(vault: Option<string>): (r: Result<seq<seq<byte>>, StoreError>)
    ensures r.Ok? ==> AreKeys(r.value)
  {
    match vault
    case None => Ok([])
    case Some(text) => ParseLines(Lines(text))
  }

  // ---- Writing ----

  function Text(keys: seq<seq<byte>>): string {
    if keys == [] then ""
    else if |keys| == 1 then Encode(keys[0])
    else Text(keys[..|keys| - 1]) + "\n" + Encode(keys[|keys| - 1])
  }

  function Added(keys: seq<seq<byte>>, key: seq<byte>): seq<seq<byte>> {
    if key in keys then keys else keys + [key]
  }

  /** The vault after a write that succeeds; a bad line in what was read leaves it as it is. */
  function AfterAdd(vault: Option<string>, key: seq<byte>, readable: bool): Option<string> {
    match Load(if readable then vault else None)
    case Err(_) => vault
    case Ok(known) => Some(Text(Added(known, key)))
  }

  class KeyStore {
    var entry: Option<string>

    constructor (entry: Option<string>)
      ensures this.entry == entry
    {
      this.entry := entry;
    }

    /** `readable` is the outcome of the vault's read. */
    method LoadPublicKeys(readable: bool) returns (r: Result<seq<seq<byte>>, StoreError>)
      ensures r == Load(if readable then entry else None)
      ensures r.Ok? ==> AreKeys(r.value)
    {
      if !readable || entry == None { return Ok([]); }
      r := ParseLines(Lines(entry.value));
    }

    /** On success the vault holds the loaded keys and this one, each once more or as before;
        on failure it is unchanged. */
    method AddPublicKey(key: seq<byte>, readable: bool, writable: bool) returns (r: Result<(), StoreError>)
      requires IsKey(key)
      modifies this
      ensures var before := Load(if readable then old(entry) else None);
              r == if before.Err? then Err(before.error) else if !writable then Err(Vault) else Ok(())
      ensures r.Err? ==> entry == old(entry)
      ensures r.Ok? ==> entry == AfterAdd(old(entry), key, readable) &&
                        Load(entry) == Ok(Added(Load(if readable then old(entry) else None).value, key))
    {
      var loaded := LoadPublicKeys(readable);
      if loaded.Err? { return Err(loaded.error); }
      var keys := loaded.value;
      if key !in keys { keys := keys + [key]; }
      if !writable { return Err(Vault); }
      entry := Some(Text(keys));
      TextRoundTrip(keys);
      r := Ok(());
    }
  }

  // ---- The text form loses nothing ----

  lemma {:induction false} EncodeIsPlain(bs: seq<byte>)
    ensures '\n' !in Encode(bs) && '\r' !in Encode(bs)
  {
    if bs != [] { EncodeIsPlain(bs[..|bs| - 1]); }
  }

  function Extend(ps: seq<string>, c: char): seq<string>
    requires ps != []
  {
    var n := |ps| - 1;
    if c == '\n' then ps[..n] + [StripCr(ps[n]), ""] else ps[..n] + [ps[n] + [c]]
  }

  lemma PiecesStep(text: string, c: char)
    ensures Pieces(text + [c]) == Extend(Pieces(text), c)
  {
    assert (text + [c])[..|text|] == text;
  }

  /** A newline and a text without one add one piece. */
  lemma {:induction false} PiecesAppend(text: string, line: string)
    requires '\n' !in line
    ensures var ps := Pieces(text);
            Pieces(text + "\n" + line) == ps[..|ps| - 1] + [StripCr(ps[|ps| - 1]), line]
  {
    if line == "" {
      PiecesStep(text, '\n');
      assert text + "\n" + line == text + ['\n'];
    } else {
      var n := |line| - 1;
      PiecesAppend(text, line[..n]);
      PiecesStep(text + "\n" + line[..n], line[n]);
      assert line == line[..n] + [line[n]];
      assert text + "\n" + line == text + "\n" + line[..n] + [line[n]];
    }
  }

  lemma {:induction false} PiecesPlain(line: string)
    requires '\n' !in line
    ensures Pieces(line) == [line]
  {
    if line != "" {
      PiecesPlain(line[..|line| - 1]);
      assert line == line[..|line| - 1] + [line[|line| - 1]];
    }
  }

  function Encoded(keys: seq<seq<byte>>): (lines: seq<string>)
    ensures |lines| == |keys|
    ensures forall i :: 0 <= i < |keys| ==> lines[i] == Encode(keys[i])
  {
    seq(|keys|, i requires 0 <= i < |keys| => Encode(keys[i]))
  }

  lemma {:induction false} PiecesOfText(keys: seq<seq<byte>>)
    requires keys != []
    ensures Pieces(Text(keys)) == Encoded(keys)
  {
    var n := |keys| - 1;
    EncodeIsPlain(keys[n]);
    if n == 0 {
      PiecesPlain(Encode(keys[0]));
    } else {
      PiecesOfText(keys[..n]);
      PiecesAppend(Text(keys[..n]), Encode(keys[n]));
      EncodedAppend(keys, n);
    }
  }

  lemma StripsNothing(line: string)
    requires '\r' !in line
    ensures StripCr(line) == line
  {
    if line != "" { assert line[|line| - 1] in line; }
  }

  /** Hex loses nothing to StripCr, so one more key is one more piece. */
  lemma EncodedAppend(keys: seq<seq<byte>>, n: nat)
    requires 0 < n && n + 1 == |keys|
    ensures var ps := Encoded(keys[..n]);
            Encoded(keys) == ps[..n - 1] + [StripCr(ps[n - 1]), Encode(keys[n])]
  {
    var ps := Encoded(keys[..n]);
    assert StripCr(ps[n - 1]) == ps[n - 1] by {
      EncodeIsPlain(keys[n - 1]);
      StripsNothing(Encode(keys[n - 1]));
    }
    assert ps[..n - 1] + [ps[n - 1], Encode(keys[n])] == ps + [Encode(keys[n])];
    assert ps + [Encode(keys[n])] == Encoded(keys);
  }

  lemma {:induction false} ParseEncoded(keys: seq<seq<byte>>)
    requires AreKeys(keys)
    ensures ParseLines(Encoded(keys)) == Ok(keys)
  {
    if keys != [] {
      var n := |keys| - 1;
      ParseEncoded(keys[..n]);
      assert Encoded(keys)[..n] == Encoded(keys[..n]);
      assert keys[n] in keys;
      Hex.RoundTrip(keys[n]);
      assert keys == keys[..n] + [keys[n]];
    }
  }

  /** What the store writes it reads back: every list of 32-byte keys survives the vault text. */
  lemma TextRoundTrip(keys: seq<seq<byte>>)
    requires AreKeys(keys)
    ensures Load(Some(Text(keys))) == Ok(keys)
  {
    if keys == [] {
      assert Lines("") == [];
    } else {
      PiecesOfText(keys);
      ParseEncoded(keys);
      assert keys[|keys| - 1] in keys;
      assert Encoded(keys)[|keys| - 1] != "";
    }
  }

  // ---- Which texts load, and what they load to ----

  function Stripped(lines: seq<string>): seq<string> {
    seq(|lines|, i requires 0 <= i < |lines| => StripCr(lines[i]))
  }

  lemma PiecesAfter(text: string, strips: seq<string>, line: string, last: string)
    requires Pieces(text) == strips + [line] && '\n' !in last
    ensures Pieces(text + "\n" + last) == strips + [StripCr(line)] + [last]
  {
    PiecesAppend(text, last);
  }

  lemma TerminatedAppend(lines: seq<string>, line: string, last: string)
    ensures F.Terminated(lines + [line]) + last == F.Terminated(lines) + line + "\n" + last
  {
    assert (lines + [line])[..|lines|] == lines;
  }

  lemma {:induction false} PiecesOfLines(lines: seq<string>, last: string)
    requires '\n' !in last && forall line :: line in lines ==> '\n' !in line
    ensures Pieces(F.Terminated(lines) + last) == Stripped(lines) + [last]
  {
    if lines == [] {
      assert F.Terminated(lines) + last == last;
      PiecesPlain(last);
    } else {
      var n := |lines| - 1;
      PiecesOfLines(lines[..n], lines[n]);
      PiecesAfter(F.Terminated(lines[..n]) + lines[n], Stripped(lines[..n]), lines[n], last);
      TerminatedAppend(lines[..n], lines[n], last);
      assert lines == lines[..n] + [lines[n]];
      assert Stripped(lines) == Stripped(lines[..n]) + [StripCr(lines[n])];
    }
  }

  /** A vault text is read as its lines, each without one carriage return before its newline; a last line
      without a newline keeps its own. */
  lemma LinesExactly(lines: seq<string>, last: string)
    requires '\n' !in last && forall line :: line in lines ==> '\n' !in line
    ensures var ls := Lines(F.Terminated(lines) + last);
            && |ls| == |lines| + (if last == "" then 0 else 1)
            && (last != "" ==> ls[|lines|] == last)
            && forall i, line :: 0 <= i < |lines| && (lines[i] == line || lines[i] == line + "\r") && '\r' !in line ==>
                 ls[i] == line
  {
    PiecesOfLines(lines, last);
    forall i, line | 0 <= i < |lines| && (lines[i] == line || lines[i] == line + "\r") && '\r' !in line
      ensures StripCr(lines[i]) == line
    {
      StripsNothing(line);
      StripsOne(line);
    }
  }

  lemma StripsOne(line: string)
    ensures StripCr(line + "\r") == line
  {}

  /** A line that load_public_keys accepts. */
  predicate GoodLine(line: string) {
    line == "" || (|line| == 64 && AllDigits(line))
  }

  function NonEmpty(lines: seq<string>): seq<string> {
    if lines == [] then []
    else NonEmpty(lines[..|lines| - 1]) + if lines[|lines| - 1] == "" then [] else [lines[|lines| - 1]]
  }

  lemma DecodeKeyExactly(line: string)
    requires line != ""
    ensures DecodeKey(line).Ok? <==> GoodLine(line)
    ensures DecodeKey(line).Ok? ==> Decode(line) == Ok(DecodeKey(line).value)
  {
    StrictAcceptsExactly(line);
    if Decode(line).Ok? { EncodeDecode(line); }
  }

  /** The text loads exactly if every line is empty or 64 hex digits, to the bytes of the non-empty lines in
      order. Otherwise the first bad line is the error: the good ones do not load without it. */
  lemma {:induction false} ParsesExactly(lines: seq<string>)
    ensures ParseLines(lines).Ok? <==> forall i :: 0 <= i < |lines| ==> GoodLine(lines[i])
    ensures ParseLines(lines).Ok? ==>
              && |ParseLines(lines).value| == |NonEmpty(lines)|
              && forall i :: 0 <= i < |NonEmpty(lines)| ==> Decode(NonEmpty(lines)[i]) == Ok(ParseLines(lines).value[i])
    ensures ParseLines(lines).Err? ==>
              exists i :: 0 <= i < |lines| && !GoodLine(lines[i]) &&
                          DecodeKey(lines[i]) == Err(ParseLines(lines).error) &&
                          forall j :: 0 <= j < i ==> GoodLine(lines[j])
  {
    if lines != [] {
      var n := |lines| - 1;
      ParsesExactly(lines[..n]);
      assert forall i :: 0 <= i < n ==> lines[..n][i] == lines[i];
      if lines[n] != "" { DecodeKeyExactly(lines[n]); }
    }
  }

  // ---- Serial adds ----

  /** The vault after adding the keys one after the other. */
  function AddAll(vault: Option<string>, keys: seq<seq<byte>>): Option<string> {
    if keys == [] then vault
    else AfterAdd(AddAll(vault, keys[..|keys| - 1]), keys[|keys| - 1], true)
  }

  /** The place of the first occurrence. */
  function FirstIndex(keys: seq<seq<byte>>, key: seq<byte>): (i: nat)
    requires key in keys
    ensures i < |keys| && keys[i] == key
    ensures forall j :: 0 <= j < i ==> keys[j] != key
  {
    if keys[0] == key then 0
    else
      assert key in keys[1..];
      var i := FirstIndex(keys[1..], key);
      assert forall j :: 1 <= j < i + 1 ==> keys[j] == keys[1..][j - 1];
      i + 1
  }

  /** The keys without their repetitions, ordered by first occurrence. */
  ghost predicate Deduplicates(loaded: seq<seq<byte>>, keys: seq<seq<byte>>) {
    && (forall k :: k in loaded <==> k in keys)
    && (forall a, b :: 0 <= a < b < |loaded| ==> FirstIndex(keys, loaded[a]) < FirstIndex(keys, loaded[b]))
  }

  lemma FirstIndexStable(keys: seq<seq<byte>>, key: seq<byte>, last: seq<byte>)
    requires key in keys
    ensures FirstIndex(keys + [last], key) == FirstIndex(keys, key)
  {
    var i, j := FirstIndex(keys, key), FirstIndex(keys + [last], key);
    assert (keys + [last])[i] == keys[i];
    assert j < |keys| ==> (keys + [last])[j] == keys[j];
  }

  /** After any serial run of adds into an empty vault, the loaded list is the list of added keys
      without repetitions, in the order in which each was first added. */
  lemma {:induction false} SerialAdds(keys: seq<seq<byte>>)
    requires AreKeys(keys)
    ensures Load(AddAll(None, keys)).Ok?
    ensures Deduplicates(Load(AddAll(None, keys)).value, keys)
  {
    if keys != [] {
      var n := |keys| - 1;
      var front, last := keys[..n], keys[n];
      assert keys == front + [last] && last in keys;
      SerialAdds(front);
      var known := Load(AddAll(None, front)).value;
      TextRoundTrip(Added(known, last));
      AddedDeduplicates(known, front, last);
    }
  }

  lemma AddedDeduplicates(known: seq<seq<byte>>, front: seq<seq<byte>>, last: seq<byte>)
    requires Deduplicates(known, front)
    ensures Deduplicates(Added(known, last), front + [last])
  {
    var loaded, keys := Added(known, last), front + [last];
    forall k ensures k in loaded <==> k in keys {
      assert k in keys <==> k in front || k == last;
    }
    forall a, b | 0 <= a < b < |loaded| ensures FirstIndex(keys, loaded[a]) < FirstIndex(keys, loaded[b]) {
      assert loaded[a] in known;
      FirstIndexStable(front, loaded[a], last);
      if b < |known| {
        assert loaded[b] in known;
        FirstIndexStable(front, loaded[b], last);
      } else {
        assert forall j :: 0 <= j < |front| ==> keys[j] == front[j] && front[j] in known;
      }
    }
  }

  // ---- Adds that cannot read the vault ----

  predicate KeepsAll(before: seq<seq<byte>>, after: seq<seq<byte>>) {
    forall k :: k in before ==> k in after
  }

  /** Which add keeps every stored key: one that can read the vault, and otherwise only one into a vault
      that holds nothing else than the added key. */
  lemma AddKeepsExactly(vault: Option<string>, key: seq<byte>, readable: bool)
    requires IsKey(key) && Load(vault).Ok?
    ensures Load(AfterAdd(vault, key, readable)).Ok?
    ensures KeepsAll(Load(vault).value, Load(AfterAdd(vault, key, readable)).value) <==>
            readable || forall k :: k in Load(vault).value ==> k == key
  {
    var stored := Load(vault).value;
    var known := if readable then stored else [];
    assert Load(if readable then vault else None) == Ok(known);
    TextRoundTrip(Added(known, key));
    assert readable ==> forall k :: k in stored ==> k in Added(stored, key);
  }

  /** A stored key that an add forgets because it could not read the vault. */
  lemma UnreadableVaultForgets() returns (vault: Option<string>, stored: seq<byte>, key: seq<byte>)
    ensures IsKey(key) && Load(vault) == Ok([stored])
    ensures Load(AfterAdd(vault, key, false)) == Ok([key]) && stored != key
  {
    stored, key := seq(32, _ => 0), seq(32, _ => 1);
    vault := Some(Text([stored]));
    TextRoundTrip([stored]);
    TextRoundTrip([key]);
    assert stored[0] != key[0];
  }
}
