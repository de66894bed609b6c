/** Reading a printed object back by its field names: one flat JSON object of texts, unsigned numbers and
    booleans (sections 3 to 7 of RFC 8259), without blanks, as serde_json and the PAM module print it. */
module Json {
  import opened Wrappers
  import opened Hex

  datatype JsonValue = Text(text: string) | Number(number: nat) | Truth(truth: bool)

  /** The two-character escapes. */
  function ShortEscape(c: char): Option<char> {
    if c in "\"\\/" then Some(c)
    else if c == 'b' then Some(8 as char)
    else if c == 't' then Some(9 as char)
    else if c == 'n' then Some(10 as char)
    else if c == 'f' then Some(12 as char)
    else if c == 'r' then Some(13 as char)
    else None
  }

  /** The character that an escape stands for, and what follows the escape. A \u escape above 7f stands for
      more than one byte and is not read here. */
  function ReadEscape(s: string): (r: Option<(char, string)>)
    ensures r.Some? ==> |r.value.1| + 1 < |s|
  {
    if |s| < 2 || s[0] != '\\' then None
    else if ShortEscape(s[1]).Some? then Some((ShortEscape(s[1]).value, s[2..]))
    else if |s| < 6 || s[1..4] != "u00" then None
    else match (Value(s[4]), Value(s[5]))
      case (Some(high), Some(low)) => if high < 8 then Some((Byte(high, low) as char, s[6..])) else None
      case _ => None
  }

  /** The text after an opening quote, and what follows its closing quote. */
  function ReadText(s: string): (r: Option<(string, string)>)
    ensures r.Some? ==> |r.value.0| + 1 + |r.value.1| <= |s|
  {
    if s == "" || s[0] < ' ' then None
    else if s[0] == '\"' then Some(("", s[1..]))
    else if s[0] != '\\' then After(s[0], ReadText(s[1..]))
    else match ReadEscape(s)
      case None => None
      case Some((c, rest)) => After(c, ReadText(rest))
  }

  function After(c: char, r: Option<(string, string)>): Option<(string, string)> {
    if r == None then None else Some(([c] + r.value.0, r.value.1))
  }

  function ReadDigits(s: string, n: nat): (r: (nat, string))
    ensures |r.1| <= |s|
  {
    if s != "" && '0' <= s[0] <= '9' then ReadDigits(s[1..], 10 * n + (s[0] as int - '0' as int)) else (n, s)
  }

  function ReadValue(s: string): (r: Option<(JsonValue, string)>)
    ensures r.Some? ==> |r.value.1| < |s|
  {
    if s == "" then None
    else if s[0] == '\"' then
      match ReadText(s[1..])
      case None => None
      case Some((text, rest)) => Some((Text(text), rest))
    else if "true" <= s then Some((Truth(true), s[4..]))
    else if "false" <= s then Some((Truth(false), s[5..]))
    else if '0' <= s[0] <= '9' then
      var (n, rest) := ReadDigits(s[1..], s[0] as int - '0' as int);
      Some((Number(n), rest))
    else None
  }

  datatype Member = Member(name: string, value: JsonValue, rest: string)

  function ReadMember(s: string): (r: Option<Member>)
    ensures r.Some? ==> |r.value.rest| < |s|
  {
    if s == "" || s[0] != '\"' then None
    else match ReadText(s[1..])
      case None => None
      case Some((name, rest)) =>
        if rest == "" || rest[0] != ':' then None
        else match ReadValue(rest[1..])
          case None => None
          case Some((value, rest)) => Some(Member(name, value, rest))
  }

  /** One member or more, up to the brace that ends the text. A name that comes twice is an error. */
  function ReadMembers(s: string): Option<map<string, JsonValue>>
    decreases |s|
  {
    match ReadMember(s)
    case None => None
    case Some(Member(name, value, rest)) =>
      if rest == "}" then Some(map[name := value])
      else if rest == "" || rest[0] != ',' then None
      else With(name, value, ReadMembers(rest[1..]))
  }

  function With(name: string, value: JsonValue, others: Option<map<string, JsonValue>>)
    : Option<map<string, JsonValue>>
  {
    if others == None || name in others.value then None else Some(others.value[name := value])
  }

  function ReadObject(s: string): Option<map<string, JsonValue>> {
    if s == "" || s[0] != '{' then None else ReadMembers(s[1..])
  }

  // ---- What is read from what is written ----

  /** A text that needs no escapes. */
  predicate Plain(text: string) {
    forall i :: 0 <= i < |text| ==> text[i] >= ' ' && text[i] != '\"' && text[i] != '\\'
  }

  lemma {:induction false} ReadsPlain(text: string, rest: string)
    requires Plain(text)
    ensures ReadText(text + "\"" + rest) == Some((text, rest))
  {
    var s := text + "\"" + rest;
    if text == "" {
      assert s[1..] == rest;
    } else {
      ReadsPlain(text[1..], rest);
      assert s[1..] == text[1..] + "\"" + rest;
      assert [text[0]] + text[1..] == text;
    }
  }

  /** Escapes only ever shorten a text, so a reading as long as its source met none. */
  lemma {:induction false} ReadTextIsPlain(s: string)
    requires ReadText(s).Some?
    requires var (text, rest) := ReadText(s).value; |text| + 1 + |rest| == |s|
    ensures Plain(ReadText(s).value.0)
  {
    if s[0] != '\"' && s[0] != '\\' { ReadTextIsPlain(s[1..]); }
  }

  lemma EscapedCharacter(s: string)
    requires ReadEscape(s).Some?
    ensures ReadText(s) == After(ReadEscape(s).value.0, ReadText(ReadEscape(s).value.1))
  {}

  lemma PlainCharacter(s: string)
    requires s != "" && Plain([s[0]])
    ensures ReadText(s) == After(s[0], ReadText(s[1..]))
  {
    assert [s[0]][0] == s[0];
  }

  lemma TextValue(s: string)
    requires s != "" && s[0] == '\"' && ReadText(s[1..]).Some?
    ensures ReadValue(s) == Some((Text(ReadText(s[1..]).value.0), ReadText(s[1..]).value.1))
  {}

  lemma LastMember(s: string)
    requires ReadMember(s).Some? && ReadMember(s).value.rest == "}"
    ensures ReadMembers(s) == Some(map[ReadMember(s).value.name := ReadMember(s).value.value])
  {}

  lemma NextMember(s: string, others: string)
    requires ReadMember(s).Some? && ReadMember(s).value.rest == "," + others
    ensures ReadMembers(s) == With(ReadMember(s).value.name, ReadMember(s).value.value, ReadMembers(others))
  {
    assert ("," + others)[1..] == others;
  }

  lemma ObjectMembers(s: string, members: string)
    requires s != "" && s[0] == '{' && s[1..] == members
    ensures ReadObject(s) == ReadMembers(members)
  {}

  lemma NamedMember(name: string, text: string, rest: string)
    requires Plain(name) && ReadValue(text).Some?
    ensures ReadMember("\"" + name + "\":" + text) ==
            Some(Member(name, ReadValue(text).value.0, ReadValue(text).value.1))
  {
    var s := "\"" + name + "\":" + text;
    ReadsPlain(name, ":" + text);
    assert s[1..] == name + "\"" + (":" + text);
    assert (":" + text)[1..] == text;
  }
}
