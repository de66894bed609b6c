/** The daemon's answers as it prints them: compact JSON with the tag first (serde_json), one char per byte. */
module Response {
  import opened Hex
  import opened Timestamps

  datatype Response =
    | Paired(accepted: bool)
    | Challenge(challengeId: string, nonce: string, timestamp: nat)
    | Authorized(authorized: bool)
    | Error(message: string)

  /** String escapes (section 7 of RFC 8259), in the short forms where there is one. */
  function EscapeChar(c: char): (e: string)
    ensures e != ""
  {
    if c == '\"' then "\\\""
    else if c == '\\' then "\\\\"
    else if c == 8 as char then "\\b"
    else if c == '\t' then "\\t"
    else if c == '\n' then "\\n"
    else if c == 12 as char then "\\f"
    else if c == '\r' then "\\r"
    else if c < ' ' then "\\u00" + [Digit(c as int / 16), Digit(c as int % 16)]
    else [c]
  }

  function Escape(s: string): string {
    if s == "" then "" else Escape(s[..|s| - 1]) + EscapeChar(s[|s| - 1])
  }

  function DecimalText(n: nat): (s: string)
    ensures forall i :: 0 <= i < |s| ==> '0' <= s[i] <= '9'
  {
    var digits := DecimalNat(n);
    seq(|digits|, i requires 0 <= i < |digits| => digits[i] as char)
  }

  function BoolText(b: bool): string { if b then "true" else "false" }

  function TimestampText(timestamp: nat): string {
    "\",\"timestamp\":" + DecimalText(timestamp) + "}"
  }

  function NonceText(nonce: string, timestamp: nat): string {
    "\",\"nonce\":\"" + Escape(nonce) + TimestampText(timestamp)
  }

  function Print(r: Response): string {
    match r
    case Paired(accepted) => "{\"type\":\"paired\",\"accepted\":" + BoolText(accepted) + "}"
    case Challenge(id, nonce, timestamp) =>
      "{\"type\":\"challenge\",\"challenge_id\":\"" + Escape(id) + NonceText(nonce, timestamp)
    case Authorized(authorized) => "{\"type\":\"authorized\",\"authorized\":" + BoolText(authorized) + "}"
    case Error(message) => "{\"type\":\"error\",\"message\":\"" + Escape(message) + "\"}"
  }

  predicate Printable(s: string) {
    forall i :: 0 <= i < |s| ==> s[i] >= ' '
  }

  /** In escaped text every quote follows a backslash, and no byte is a control character. */
  predicate WellEscaped(s: string) {
    && Printable(s)
    && forall i :: 0 <= i < |s| && s[i] == '\"' ==> i > 0 && s[i - 1] == '\\'
  }

  lemma {:induction false} EscapeIsWellEscaped(s: string)
    ensures WellEscaped(Escape(s))
  {
    if s != "" {
      EscapeIsWellEscaped(s[..|s| - 1]);
      var e, f := Escape(s[..|s| - 1]), EscapeChar(s[|s| - 1]);
      assert WellEscaped(f);
      forall i | 0 <= i < |e + f|
        ensures (e + f)[i] >= ' ' && ((e + f)[i] == '\"' ==> i > 0 && (e + f)[i - 1] == '\\')
      {
        if i >= |e| { assert (e + f)[i] == f[i - |e|]; }
      }
    }
  }

  lemma PrintableAppend(a: string, b: string)
    requires Printable(a) && Printable(b)
    ensures Printable(a + b)
  {}

  lemma FieldIsPrintable(before: string, text: string, after: string)
    requires Printable(before) && Printable(after)
    ensures Printable(before + Escape(text) + after)
  {
    EscapeIsWellEscaped(text);
    PrintableAppend(before, Escape(text));
    PrintableAppend(before + Escape(text), after);
  }

  /** No printed response holds a control character, so none holds a newline or a NUL. */
  lemma PrintIsPrintable(r: Response)
    ensures Printable(Print(r))
  {
    match r
    case Paired(accepted) => PairedIsPrintable(accepted);
    case Authorized(authorized) => AuthorizedIsPrintable(authorized);
    case Error(message) => ErrorIsPrintable(message);
    case Challenge(id, nonce, timestamp) =>
      ChallengeIsPrintable(id, nonce, timestamp);
  }

  lemma PairedIsPrintable(accepted: bool)
    ensures Printable(Print(Paired(accepted)))
  {}

  lemma AuthorizedIsPrintable(authorized: bool)
    ensures Printable(Print(Authorized(authorized)))
  {}

  lemma ErrorIsPrintable(message: string)
    ensures Printable(Print(Error(message)))
  {
    FieldIsPrintable("{\"type\":\"error\",\"message\":\"", message, "\"}");
  }

  lemma ChallengeIsPrintable(id: string, nonce: string, timestamp: nat)
    ensures Printable(Print(Challenge(id, nonce, timestamp)))
  {
    NonceTextIsPrintable(nonce, timestamp);
    FieldIsPrintable("{\"type\":\"challenge\",\"challenge_id\":\"", id, NonceText(nonce, timestamp));
  }

  lemma NonceTextIsPrintable(nonce: string, timestamp: nat)
    ensures Printable(NonceText(nonce, timestamp))
  {
    PrintableAppend("\",\"timestamp\":", DecimalText(timestamp));
    PrintableAppend("\",\"timestamp\":" + DecimalText(timestamp), "}");
    FieldIsPrintable("\",\"nonce\":\"", nonce, TimestampText(timestamp));
  }
}

/** What a reader gets from a printed response: every field under its own name. */
module ReadBack {
  import opened Wrappers
  import opened Hex
  import opened Json
  import opened Response

  /** The fields a printed response has, by name. */
  function Fields(r: Response): map<string, JsonValue> {
    match r
    case Paired(accepted) => map["type" := Text("paired"), "accepted" := Truth(accepted)]
    case Challenge(id, nonce, timestamp) =>
      map["type" := Text("challenge"), "challenge_id" := Text(id), "nonce" := Text(nonce),
          "timestamp" := Number(timestamp)]
    case Authorized(authorized) => map["type" := Text("authorized"), "authorized" := Truth(authorized)]
    case Error(message) => map["type" := Text("error"), "message" := Text(message)]
  }

  lemma {:induction false} EscapeFront(s: string)
    requires s != ""
    ensures Escape(s) == EscapeChar(s[0]) + Escape(s[1..])
  {
    var n := |s| - 1;
    if n > 0 {
      EscapeFront(s[..n]);
      assert s[..n][1..] == s[1..][..n - 1];
      assert Escape(s[1..]) == Escape(s[1..][..n - 1]) + EscapeChar(s[n]);
    }
  }

  lemma ControlDigits(c: char)
    requires c < ' '
    ensures Value(Digit(c as int / 16)) == Some(c as int / 16) && Value(Digit(c as int % 16)) == Some(c as int % 16)
  {}

  lemma ReadsEscape(c: char, rest: string)
    requires |EscapeChar(c)| > 1
    ensures ReadEscape(EscapeChar(c) + rest) == Some((c, rest))
  {
    var s := EscapeChar(c) + rest;
    assert s[|EscapeChar(c)|..] == rest;
    if |EscapeChar(c)| == 6 {
      assert s[1..4] == "u00";
      ControlDigits(c);
    }
  }

  lemma ReadsCharacter(c: char, rest: string)
    ensures ReadText(EscapeChar(c) + rest) == After(c, ReadText(rest))
  {
    var s := EscapeChar(c) + rest;
    if |EscapeChar(c)| > 1 {
      ReadsEscape(c, rest);
      EscapedCharacter(s);
    } else {
      assert s[0] == c && s[1..] == rest;
      PlainCharacter(s);
    }
  }

  /** Reading undoes escaping, for every text. */
  lemma {:induction false} ReadsEscaped(text: string, rest: string)
    ensures ReadText(Escape(text) + "\"" + rest) == Some((text, rest))
  {
    if text == "" {
      ReadsPlain(text, rest);
    } else {
      ReadsEscaped(text[1..], rest);
      EscapeFront(text);
      ReadsOneMore(text[0], Escape(text[1..]), text[1..], rest);
      assert [text[0]] + text[1..] == text;
    }
  }

  lemma ReadsOneMore(c: char, escaped: string, text: string, rest: string)
    requires ReadText(escaped + "\"" + rest) == Some((text, rest))
    ensures ReadText(EscapeChar(c) + escaped + "\"" + rest) == Some(([c] + text, rest))
  {
    ReadsCharacter(c, escaped + "\"" + rest);
    assert EscapeChar(c) + escaped + "\"" + rest == EscapeChar(c) + (escaped + "\"" + rest);
  }

  lemma {:induction false} ReadsDecimal(n: nat, rest: string)
    ensures DecimalText(n) != "" && '0' <= DecimalText(n)[0] <= '9'
    ensures ReadDigits((DecimalText(n) + rest)[1..], DecimalText(n)[0] as int - '0' as int) == ReadDigits(rest, n)
  {
    var s := DecimalText(n);
    if n < 10 {
      assert (s + rest)[1..] == rest;
    } else {
      var last := [('0' as int + n % 10) as char];
      ReadsDecimal(n / 10, last + rest);
      assert s == DecimalText(n / 10) + last;
      assert s + rest == DecimalText(n / 10) + (last + rest);
      assert (last + rest)[1..] == rest;
    }
  }

  lemma ReadsNumber(n: nat, rest: string)
    requires rest == "" || !('0' <= rest[0] <= '9')
    ensures ReadValue(DecimalText(n) + rest) == Some((Number(n), rest))
  {
    ReadsDecimal(n, rest);
  }

  lemma ReadsTruth(b: bool, rest: string)
    ensures ReadValue(BoolText(b) + rest) == Some((Truth(b), rest))
  {
    assert (BoolText(b) + rest)[|BoolText(b)|..] == rest;
    assert (BoolText(b) + rest)[..|BoolText(b)|] == BoolText(b);
  }

  lemma ReadsQuoted(text: string, rest: string)
    ensures ReadValue("\"" + Escape(text) + "\"" + rest) == Some((Text(text), rest))
  {
    ReadsEscaped(text, rest);
    QuotedValue(Escape(text), text, rest);
  }

  lemma QuotedValue(quoted: string, text: string, rest: string)
    requires ReadText(quoted + "\"" + rest) == Some((text, rest))
    ensures ReadValue("\"" + quoted + "\"" + rest) == Some((Text(text), rest))
  {
    var s := "\"" + quoted + "\"" + rest;
    assert s[1..] == quoted + "\"" + rest;
    TextValue(s);
  }

  lemma ReadsPlainQuoted(text: string, rest: string)
    requires Plain(text)
    ensures ReadValue("\"" + text + "\"" + rest) == Some((Text(text), rest))
  {
    ReadsPlain(text, rest);
    QuotedValue(text, text, rest);
  }

  /** The last member of an object, and one before others. */
  lemma ReadsLast(name: string, text: string)
    requires Plain(name) && ReadValue(text).Some? && ReadValue(text).value.1 == "}"
    ensures ReadMembers("\"" + name + "\":" + text) == Some(map[name := ReadValue(text).value.0])
  {
    NamedMember(name, text, "");
    LastMember("\"" + name + "\":" + text);
  }

  lemma ReadsNext(name: string, text: string, others: string)
    requires Plain(name) && ReadValue(text).Some? && ReadValue(text).value.1 == "," + others
    ensures ReadMembers("\"" + name + "\":" + text) == With(name, ReadValue(text).value.0, ReadMembers(others))
  {
    NamedMember(name, text, "");
    NextMember("\"" + name + "\":" + text, others);
  }

  /** An object whose first member is its type. */
  lemma ReadsTagged(tag: string, others: string)
    requires Plain(tag)
    ensures ReadObject("{\"type\":\"" + tag + "\"," + others) == With("type", Text(tag), ReadMembers(others))
  {
    ReadsPlainQuoted(tag, "," + others);
    var value := "\"" + tag + "\"" + ("," + others);
    ReadsNext("type", value, others);
    TagText(tag, others);
    ObjectMembers("{\"type\":\"" + tag + "\"," + others, "\"" + "type" + "\":" + value);
  }

  lemma TagText(tag: string, others: string)
    ensures ("{\"type\":\"" + tag + "\"," + others)[1..] ==
            "\"" + "type" + "\":" + ("\"" + tag + "\"" + ("," + others))
  {
    assert "{\"type\":\"" == "{" + ("\"" + "type" + "\":" + "\"");
    assert "\"," + others == "\"" + ("," + others);
  }

  /** `{"type":"tag",` before the other members. */
  function Tagged(tag: string, others: string): string {
    "{\"type\":\"" + tag + "\"," + others
  }

  function Field(name: string, text: string): string {
    "\"" + name + "\":" + text
  }

  function Quoted(text: string): string {
    "\"" + Escape(text) + "\""
  }

  lemma ReadsTruthField(tag: string, name: string, b: bool)
    requires Plain(tag) && Plain(name) && name != "type"
    ensures ReadObject(Tagged(tag, Field(name, BoolText(b) + "}"))) == Some(map["type" := Text(tag), name := Truth(b)])
  {
    ReadsTruth(b, "}");
    ReadsLast(name, BoolText(b) + "}");
    ReadsTagged(tag, Field(name, BoolText(b) + "}"));
    assert map[name := Truth(b)]["type" := Text(tag)] == map["type" := Text(tag), name := Truth(b)];
  }

  lemma ReadsQuotedField(tag: string, name: string, quoted: string, text: string)
    requires Plain(tag) && Plain(name) && name != "type"
    requires ReadValue("\"" + quoted + "\"" + "}") == Some((Text(text), "}"))
    ensures ReadObject(Tagged(tag, Field(name, "\"" + quoted + "\"" + "}"))) ==
            Some(map["type" := Text(tag), name := Text(text)])
  {
    var value := "\"" + quoted + "\"" + "}";
    ReadsLast(name, value);
    ReadsTagged(tag, Field(name, value));
    assert map[name := Text(text)]["type" := Text(tag)] == map["type" := Text(tag), name := Text(text)];
  }

  lemma ReadsTextField(tag: string, name: string, text: string)
    requires Plain(tag) && Plain(name) && name != "type"
    ensures ReadObject(Tagged(tag, Field(name, Quoted(text) + "}"))) ==
            Some(map["type" := Text(tag), name := Text(text)])
  {
    ReadsQuoted(text, "}");
    ReadsQuotedField(tag, name, Escape(text), text);
  }

  // ---- The printed texts, member by member ----

  lemma TaggedAppend(tag: string, name: string, text: string)
    ensures Tagged(tag, Field(name, "")) + text == Tagged(tag, Field(name, text))
  {}

  lemma PairedHead()
    ensures "{\"type\":\"paired\",\"accepted\":" == Tagged("paired", Field("accepted", ""))
  {}

  lemma AuthorizedHead()
    ensures "{\"type\":\"authorized\",\"authorized\":" == Tagged("authorized", Field("authorized", ""))
  {}

  lemma PairedText(accepted: bool)
    ensures Print(Paired(accepted)) == Tagged("paired", Field("accepted", BoolText(accepted) + "}"))
  {
    PairedHead();
    TaggedAppend("paired", "accepted", BoolText(accepted) + "}");
  }

  lemma AuthorizedText(authorized: bool)
    ensures Print(Authorized(authorized)) == Tagged("authorized", Field("authorized", BoolText(authorized) + "}"))
  {
    AuthorizedHead();
    TaggedAppend("authorized", "authorized", BoolText(authorized) + "}");
  }

  /** The quotes around a text are printed with what stands before and after it. */
  lemma QuotesJoin(head: string, text: string, after: string)
    ensures head + "\"" + text + ("\"" + after) == head + ("\"" + text + "\"" + after)
  {}

  lemma ErrorHead()
    ensures "{\"type\":\"error\",\"message\":\"" == Tagged("error", Field("message", "")) + "\""
    ensures "\"}" == "\"" + "}"
  {}

  lemma ErrorText(message: string)
    ensures Print(Error(message)) == Tagged("error", Field("message", Quoted(message) + "}"))
  {
    ErrorHead();
    QuotesJoin(Tagged("error", Field("message", "")), Escape(message), "}");
    TaggedAppend("error", "message", Quoted(message) + "}");
  }

  function TimestampField(timestamp: nat): string {
    Field("timestamp", DecimalText(timestamp) + "}")
  }

  function NonceField(nonce: string, timestamp: nat): string {
    Field("nonce", Quoted(nonce) + ("," + TimestampField(timestamp)))
  }

  lemma ChallengeHead()
    ensures "{\"type\":\"challenge\",\"challenge_id\":\"" == Tagged("challenge", Field("challenge_id", "")) + "\""
  {}

  lemma NonceHead()
    ensures "\",\"nonce\":\"" == "\"" + ("," + Field("nonce", "")) + "\""
  {}

  lemma TimestampHead()
    ensures "\",\"timestamp\":" == "\"" + ("," + Field("timestamp", ""))
  {}

  lemma FieldAppend(name: string, text: string)
    ensures "\"" + ("," + Field(name, "")) + text == "\"" + ("," + Field(name, text))
  {}

  lemma TimestampTextIs(timestamp: nat)
    ensures TimestampText(timestamp) == "\"" + ("," + TimestampField(timestamp))
  {
    TimestampHead();
    FieldAppend("timestamp", DecimalText(timestamp) + "}");
  }

  lemma NonceTextIs(nonce: string, timestamp: nat)
    ensures NonceText(nonce, timestamp) == "\"" + ("," + NonceField(nonce, timestamp))
  {
    NonceHead();
    TimestampTextIs(timestamp);
    QuotesJoin("\"" + ("," + Field("nonce", "")), Escape(nonce), "," + TimestampField(timestamp));
    FieldAppend("nonce", Quoted(nonce) + ("," + TimestampField(timestamp)));
  }

  lemma ChallengeText(id: string, nonce: string, timestamp: nat)
    ensures Print(Challenge(id, nonce, timestamp)) ==
            Tagged("challenge", Field("challenge_id", Quoted(id) + ("," + NonceField(nonce, timestamp))))
  {
    ChallengeHead();
    NonceTextIs(nonce, timestamp);
    QuotesJoin(Tagged("challenge", Field("challenge_id", "")), Escape(id), "," + NonceField(nonce, timestamp));
    TaggedAppend("challenge", "challenge_id", Quoted(id) + ("," + NonceField(nonce, timestamp)));
  }

  lemma ReadsNextText(name: string, text: string, others: string)
    requires Plain(name) && ReadMembers(others).Some? && name !in ReadMembers(others).value
    ensures ReadMembers(Field(name, Quoted(text) + ("," + others))) ==
            Some(ReadMembers(others).value[name := Text(text)])
  {
    ReadsQuoted(text, "," + others);
    ReadsNext(name, Quoted(text) + ("," + others), others);
  }

  lemma ReadsTimestamp(timestamp: nat)
    ensures ReadMembers(TimestampField(timestamp)) == Some(map["timestamp" := Number(timestamp)])
  {
    ReadsNumber(timestamp, "}");
    ReadsLast("timestamp", DecimalText(timestamp) + "}");
  }

  lemma ReadsNonce(nonce: string, timestamp: nat)
    ensures ReadMembers(NonceField(nonce, timestamp)) ==
            Some(map["timestamp" := Number(timestamp)]["nonce" := Text(nonce)])
  {
    ReadsTimestamp(timestamp);
    ReadsNextText("nonce", nonce, TimestampField(timestamp));
  }

  lemma ReadsTaggedText(tag: string, name: string, text: string, others: string)
    requires Plain(tag) && Plain(name) && name != "type" && ReadMembers(others).Some?
    requires name !in ReadMembers(others).value && "type" !in ReadMembers(others).value
    ensures ReadObject(Tagged(tag, Field(name, Quoted(text) + ("," + others)))) ==
            Some(ReadMembers(others).value[name := Text(text)]["type" := Text(tag)])
  {
    ReadsNextText(name, text, others);
    ReadsTagged(tag, Field(name, Quoted(text) + ("," + others)));
  }

  lemma ReadsChallenge(id: string, nonce: string, timestamp: nat)
    ensures ReadObject(Tagged("challenge", Field("challenge_id", Quoted(id) + ("," + NonceField(nonce, timestamp))))) ==
            Some(Fields(Challenge(id, nonce, timestamp)))
  {
    ReadsNonce(nonce, timestamp);
    ReadsTaggedText("challenge", "challenge_id", id, NonceField(nonce, timestamp));
    SameFields(id, nonce, timestamp);
  }

  lemma SameFields(id: string, nonce: string, timestamp: nat)
    ensures map["timestamp" := Number(timestamp)]["nonce" := Text(nonce)]["challenge_id" := Text(id)]
               ["type" := Text("challenge")] == Fields(Challenge(id, nonce, timestamp))
  {}

  /** Every printed response reads back as its own fields, each under its own name, whatever texts an error
      or a challenge carries. */
  lemma PrintReadsBack(r: Response)
    ensures ReadObject(Print(r)) == Some(Fields(r))
  {
    match r
    case Paired(accepted) => ReadsPaired(accepted);
    case Authorized(authorized) => ReadsAuthorized(authorized);
    case Error(message) => ReadsError(message);
    case Challenge(id, nonce, timestamp) =>
      ChallengeText(id, nonce, timestamp);
      ReadsChallenge(id, nonce, timestamp);
  }

  lemma ReadsPaired(accepted: bool)
    ensures ReadObject(Print(Paired(accepted))) == Some(Fields(Paired(accepted)))
  {
    PairedText(accepted);
    ReadsTruthField("paired", "accepted", accepted);
  }

  lemma ReadsAuthorized(authorized: bool)
    ensures ReadObject(Print(Authorized(authorized))) == Some(Fields(Authorized(authorized)))
  {
    AuthorizedText(authorized);
    ReadsTruthField("authorized", "authorized", authorized);
  }

  lemma ReadsError(message: string)
    ensures ReadObject(Print(Error(message))) == Some(Fields(Error(message)))
  {
    ErrorText(message);
    ReadsTextField("error", "message", message);
  }
}
