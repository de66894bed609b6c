/** The PAM module: blocking byte I/O on a socket, and the two-substring test on the line it reads. */
module Pam {
  import opened Wrappers
  import opened Framing
  import opened Response
  import opened Json
  import opened ReadBack

  // ---- write_all ----

  /** One turn of a loop: poll may fail, poll or the system call may be interrupted, and the call may fail
      or move bytes. */
  datatype WriteTurn = NotReady | Interrupted | Failed | Wrote(count: nat)

  /** Blocked: the kernel has answered no further turn. */
  datatype Status = Success | Failure | Blocked

  /** The bytes the kernel takes before the first turn that makes write_all give up. The loop tests errno
      after a write that moved nothing, and only an interruption sets it: `stale` says that errno still
      holds EINTR from one. */
  function Taken(kernel: seq<WriteTurn>, stale: bool): nat {
    if kernel == [] then 0
    else match kernel[0]
      case Interrupted => Taken(kernel[1..], true)
      case Wrote(count) => if count == 0 && !stale then 0 else count + Taken(kernel[1..], stale)
      case _ => 0
  }

  /** poll fails, or the call moves nothing and errno holds no interruption, this one or an earlier one. */
  predicate StopsWrite(kernel: seq<WriteTurn>, turn: nat, stale: bool)
    requires turn < |kernel|
  {
    kernel[turn] in {NotReady, Failed} || (kernel[turn] == Wrote(0) && !stale && Interrupted !in kernel[..turn])
  }

  /** The kernel never takes more than it is offered. Success comes exactly when the kernel takes enough, and
      has sent exactly the data, in order; anything else has sent exactly the bytes the kernel took. */
  method WriteAll(data: string, kernel: seq<WriteTurn>, stale: bool) returns (status: Status, sent: string)
    ensures status == Success <==> Taken(kernel, stale) >= |data|
    ensures sent == if status == Success then data else data[..Taken(kernel, stale)]
    ensures status == Failure <==>
            Taken(kernel, stale) < |data| && exists i :: 0 <= i < |kernel| && StopsWrite(kernel, i, stale)
  {
    sent := "";
    var offset, turn, errno := 0, 0, stale;
    while offset < |data|
      invariant 0 <= offset <= |data| && 0 <= turn <= |kernel| && sent == data[..offset]
      invariant errno <==> stale || Interrupted in kernel[..turn]
      invariant Taken(kernel, stale) >= offset && forall i :: 0 <= i < turn ==> !StopsWrite(kernel, i, stale)
      invariant offset < |data| ==> Taken(kernel, stale) == offset + Taken(kernel[turn..], errno)
      decreases |kernel| - turn
    {
      if turn == |kernel| { return Blocked, sent; }
      var t := kernel[turn];
      assert kernel[turn..][1..] == kernel[turn + 1..] && kernel[..turn + 1] == kernel[..turn] + [t];
      if t in {NotReady, Failed} || (t == Wrote(0) && !errno) {
        assert StopsWrite(kernel, turn, stale);
        return Failure, sent;
      }
      turn := turn + 1;
      match t {
        case Wrote(count) =>
          var written := if count <= |data| - offset then count else |data| - offset;
          sent := sent + data[offset..offset + written];
          offset := offset + written;
        case _ => errno := true;
      }
    }
    status := Success;
  }

  // ---- read_line ----

  datatype ReadTurn = PollFailed | ReadInterrupted | ReadFailed | EndOfFile | Got(byte: char)

  /** The bytes delivered before the first turn that makes read_line give up. */
  function Delivered(kernel: seq<ReadTurn>): string {
    if kernel == [] then ""
    else match kernel[0]
      case ReadInterrupted => Delivered(kernel[1..])
      case Got(byte) => [byte] + Delivered(kernel[1..])
      case _ => ""
  }

  /** The line of a stream, if it fits a C buffer of this capacity with its terminator. */
  function FittingLine(stream: string, capacity: nat): Option<string> {
    var i := IndexOf(stream);
    if 0 <= i && i + 1 < capacity then Some(stream[..i]) else None
  }

  predicate StopsRead(t: ReadTurn) {
    t in {PollFailed, ReadFailed, EndOfFile}
  }

  /** Succeeds exactly when a newline is delivered at an index of at most capacity - 2; then the buffer
      holds the bytes before it and a NUL, and nothing after the newline has been consumed. */
  method ReadLine(buffer: array<char>, kernel: seq<ReadTurn>) returns (status: Status, length: nat, turns: nat)
    modifies buffer
    ensures turns <= |kernel|
    ensures status == Success <==> FittingLine(Delivered(kernel), buffer.Length).Some?
    ensures status == Failure <==>
            && FittingLine(Delivered(kernel), buffer.Length) == None
            && ((exists t :: t in kernel && StopsRead(t)) || |Delivered(kernel)| + 1 >= buffer.Length)
    ensures status == Success ==>
              && length < buffer.Length && buffer[length] == 0 as char
              && buffer[..length] == FittingLine(Delivered(kernel), buffer.Length).value
              && Delivered(kernel) == buffer[..length] + [NEWLINE] + Delivered(kernel[turns..])
  {
    length, turns := 0, 0;
    ghost var line, all := "", Delivered(kernel);
    while length + 1 < buffer.Length
      invariant turns <= |kernel| && (length == 0 || length < buffer.Length)
      invariant |line| == length <= buffer.Length && line == buffer[..length]
      invariant NEWLINE !in line && all == line + Delivered(kernel[turns..])
      invariant forall i :: 0 <= i < turns ==> !StopsRead(kernel[i])
      decreases |kernel| - turns
    {
      if turns == |kernel| {
        EndsWithoutLine(all, line, Delivered(kernel[turns..]), buffer.Length);
        return Blocked, length, turns;
      }
      var t := kernel[turns];
      DeliveredStep(kernel, turns);
      if StopsRead(t) {
        EndsWithoutLine(all, line, Delivered(kernel[turns..]), buffer.Length);
        return Failure, length, turns;
      }
      turns := turns + 1;
      if t.Got? {
        GotByte(all, line, t.byte, Delivered(kernel[turns..]));
        if t.byte == NEWLINE {
          EndsWithLine(all, line, Delivered(kernel[turns..]), buffer.Length);
          buffer[length] := 0 as char;
          assert buffer[..length] == line;
          return Success, length, turns;
        }
        buffer[length] := t.byte;
        length, line := length + 1, line + [t.byte];
        assert buffer[..length] == line;
      }
    }
    FillsBuffer(all, line, Delivered(kernel[turns..]), buffer.Length);
    status := Failure;
  }

  lemma DeliveredStep(kernel: seq<ReadTurn>, turns: nat)
    requires turns < |kernel|
    ensures Delivered(kernel[turns..]) ==
            match kernel[turns]
            case ReadInterrupted => Delivered(kernel[turns + 1..])
            case Got(byte) => [byte] + Delivered(kernel[turns + 1..])
            case _ => ""
  {
    assert kernel[turns..][1..] == kernel[turns + 1..];
  }

  lemma GotByte(all: string, line: string, byte: char, rest: string)
    requires all == line + ([byte] + rest)
    ensures all == line + [byte] + rest
  {}

  lemma EndsWithoutLine(all: string, line: string, rest: string, capacity: nat)
    requires all == line + rest && NEWLINE !in line && rest == ""
    ensures FittingLine(all, capacity) == None
  {
    assert all == line;
  }

  lemma EndsWithLine(all: string, line: string, rest: string, capacity: nat)
    requires all == line + [NEWLINE] + rest && NEWLINE !in line && |line| + 1 < capacity
    ensures FittingLine(all, capacity) == Some(line)
  {
    IndexOfIs(all, |line|);
    assert all[..|line|] == line;
  }

  lemma FillsBuffer(all: string, line: string, rest: string, capacity: nat)
    requires all == line + rest && NEWLINE !in line && |line| + 1 >= capacity
    ensures FittingLine(all, capacity) == None
  {
    assert forall i :: 0 <= i < |line| ==> all[i] == line[i];
  }

  // ---- response_is_authorized ----

  const TYPE_AUTHORIZED := "\"type\":\"authorized\""
  const GRANT := "\"authorized\":true"

  predicate OccursAt(s: string, pattern: string, k: nat) {
    k + |pattern| <= |s| && forall i :: 0 <= i < |pattern| ==> s[k + i] == pattern[i]
  }

  /** What a C string function sees of a buffer: the bytes before the first NUL. */
  function CString(s: string): string {
    if s == "" || s[0] == 0 as char then "" else [s[0]] + CString(s[1..])
  }

  /** strstr finds something. */
  predicate Contains(s: string, pattern: string) {
    exists k :: 0 <= k <= |s| && OccursAt(s, pattern, k)
  }

  predicate ResponseIsAuthorized(line: string) {
    Contains(CString(line), TYPE_AUTHORIZED) && Contains(CString(line), GRANT)
  }

  /** What strstr finds can be cut out of the text. */
  lemma ContainsExactly(s: string, pattern: string)
    ensures Contains(s, pattern) <==> exists before, after :: s == before + pattern + after
  {
    if Contains(s, pattern) {
      var k :| 0 <= k <= |s| && OccursAt(s, pattern, k);
      assert s == s[..k] + pattern + s[k + |pattern|..];
    }
    if before, after :| s == before + pattern + after { assert OccursAt(s, pattern, |before|); }
  }

  /** A line without a NUL is recognised exactly if it holds both texts, anywhere and in any order. */
  lemma RecognisesLine(line: string)
    requires 0 as char !in line
    ensures ResponseIsAuthorized(line) <==>
            && (exists before, after :: line == before + "\"type\":\"authorized\"" + after)
            && (exists before, after :: line == before + "\"authorized\":true" + after)
  {
    WithoutNul(line);
    ContainsExactly(line, TYPE_AUTHORIZED);
    ContainsExactly(line, GRANT);
  }

  /** What follows the first NUL of a line does not count. */
  lemma {:induction false} StopsAtNul(line: string, rest: string)
    requires 0 as char !in line
    ensures CString(line + [0 as char] + rest) == line
    ensures ResponseIsAuthorized(line + [0 as char] + rest) <==> ResponseIsAuthorized(line)
  {
    WithoutNul(line);
    if line != "" {
      StopsAtNul(line[1..], rest);
      assert (line + [0 as char] + rest)[1..] == line[1..] + [0 as char] + rest;
    }
  }

  lemma {:induction false} WithoutNul(s: string)
    requires 0 as char !in s
    ensures CString(s) == s
  {
    if s != "" { WithoutNul(s[1..]); }
  }

  /** What marks the grant: a d, a bare quote, a colon and a t. */
  predicate MarkAt(s: string, q: nat) {
    0 < q && q + 2 < |s| && s[q - 1] == 'd' && s[q] == '\"' && s[q + 1] == ':' && s[q + 2] == 't'
  }

  lemma GrantHasMark(s: string, k: nat)
    requires OccursAt(s, GRANT, k)
    ensures MarkAt(s, k + 11) && s[k + 8] == 'z'
  {
    assert |GRANT| == 17;
    assert s[k + 8] == GRANT[8] && s[k + 10] == GRANT[10] && s[k + 11] == GRANT[11];
    assert s[k + 12] == GRANT[12] && s[k + 13] == GRANT[13];
  }

  /** A mark around an escaped field begins before the field, or lies in what follows it. */
  lemma MarkAvoidsField(u: string, text: string, v: string, q: nat)
    requires |v| >= 2 && v[0] == '\"' && v[1] != ':'
    requires MarkAt(u + Escape(text) + v, q)
    ensures q < |u| || (q > |u| + |Escape(text)| && MarkAt(v, q - |u| - |Escape(text)|))
  {
    EscapeIsWellEscaped(text);
    var e := Escape(text);
    var s := u + e + v;
    assert forall i :: |u| <= i < |u| + |e| ==> s[i] == e[i - |u|];
    assert forall i :: |u| + |e| <= i < |s| ==> s[i] == v[i - |u| - |e|];
  }

  lemma ErrorHasNoMark(message: string, q: nat)
    ensures !MarkAt(Print(Error(message)), q)
  {
    if MarkAt(Print(Error(message)), q) {
      MarkAvoidsField("{\"type\":\"error\",\"message\":\"", message, "\"}", q);
    }
  }

  lemma NonceHasNoMark(nonce: string, timestamp: nat, q: nat)
    ensures !MarkAt(NonceText(nonce, timestamp), q)
  {
    if MarkAt(NonceText(nonce, timestamp), q) {
      var p := "\",\"nonce\":\"";
      MarkAvoidsField(p, nonce, TimestampText(timestamp), q);
    }
  }

  lemma ChallengeHasNoMark(id: string, nonce: string, timestamp: nat, q: nat)
    ensures !MarkAt(Print(Challenge(id, nonce, timestamp)), q)
  {
    if MarkAt(Print(Challenge(id, nonce, timestamp)), q) {
      var p := "{\"type\":\"challenge\",\"challenge_id\":\"";
      MarkAvoidsField(p, id, NonceText(nonce, timestamp), q);
      if q >= |p| { NonceHasNoMark(nonce, timestamp, q - |p| - |Escape(id)|); }
    }
  }

  lemma PairedHasNoMark(accepted: bool, k: nat)
    ensures !OccursAt(Print(Paired(accepted)), GRANT, k)
  {
    if OccursAt(Print(Paired(accepted)), GRANT, k) { GrantHasMark(Print(Paired(accepted)), k); }
  }

  lemma DenialHasNoMark(q: nat)
    ensures !MarkAt(Print(Authorized(false)), q)
  {}

  lemma OthersLackGrant(r: Response)
    requires r != Authorized(true)
    ensures !Contains(Print(r), GRANT)
  {
    forall k | 0 <= k <= |Print(r)| ensures !OccursAt(Print(r), GRANT, k) {
      if OccursAt(Print(r), GRANT, k) { GrantHasMark(Print(r), k); }
      match r
      case Error(message) => ErrorHasNoMark(message, k + 11);
      case Challenge(id, nonce, timestamp) => ChallengeHasNoMark(id, nonce, timestamp, k + 11);
      case Paired(accepted) => PairedHasNoMark(accepted, k);
      case Authorized(_) => DenialHasNoMark(k + 11);
    }
  }

  /** The two-substring test recognises exactly one response, whatever text an error or a challenge
      carries. */
  lemma RecognisesExactly(r: Response)
    ensures ResponseIsAuthorized(Print(r)) <==> r == Authorized(true)
  {
    PrintIsPrintable(r);
    WithoutNul(Print(r));
    if r == Authorized(true) { GrantIsRecognised(); } else { OthersLackGrant(r); }
  }

  /** The test agrees with reading the printed response: it succeeds exactly if the type that a reader gets is
      "authorized" and the field of that name is true. */
  lemma RecognisesWhatIsRead(r: Response)
    ensures ReadObject(Print(r)).Some? && "type" in ReadObject(Print(r)).value
    ensures var fields := ReadObject(Print(r)).value;
            ResponseIsAuthorized(Print(r)) <==>
            && fields["type"] == Text("authorized")
            && "authorized" in fields && fields["authorized"] == Truth(true)
  {
    PrintReadsBack(r);
    RecognisesExactly(r);
  }

  const GRANTED := "{\"type\":\"authorized\",\"authorized\":true}"

  lemma TypeOccurs()
    ensures OccursAt(GRANTED, TYPE_AUTHORIZED, 1)
  {
    assert |TYPE_AUTHORIZED| == 19 && |GRANTED| == 39;
    forall i | 0 <= i < 19 ensures GRANTED[1 + i] == TYPE_AUTHORIZED[i] {}
  }

  lemma GrantOccurs()
    ensures OccursAt(GRANTED, GRANT, 21)
  {
    assert |GRANT| == 17 && |GRANTED| == 39;
    forall i | 0 <= i < 17 ensures GRANTED[21 + i] == GRANT[i] {}
  }

  lemma PrintsGranted()
    ensures Print(Authorized(true)) == GRANTED
  {}

  lemma GrantIsRecognised()
    ensures Contains(Print(Authorized(true)), TYPE_AUTHORIZED) && Contains(Print(Authorized(true)), GRANT)
  {
    PrintsGranted();
    TypeOccurs();
    GrantOccurs();
    assert |GRANTED| == 39;
  }

  // ---- pam_sm_authenticate ----

  const REQUEST_SIZE: nat := 512
  const RESPONSE_SIZE: nat := 1024

  function AuthorizeRequest(user: string): string {
    "{\"type\":\"authorize\",\"user\":\"" + user + "\"}\n"
  }

  /** The line that the newline of the request ends. */
  function AuthorizeLine(user: string): string {
    AuthorizeRequest(user)[..|AuthorizeRequest(user)| - 1]
  }

  lemma RequestText(user: string)
    ensures AuthorizeRequest(user) == AuthorizeLine(user) + "\n"
    ensures AuthorizeLine(user) == Tagged("authorize", Field("user", "\"" + user + "\"" + "}"))
  {
    assert "{\"type\":\"authorize\",\"user\":\"" == Tagged("authorize", Field("user", "")) + "\"";
    assert AuthorizeLine(user) == "{\"type\":\"authorize\",\"user\":\"" + user + "\"}";
    assert "\"}" == "\"" + "}";
    QuotesJoin(Tagged("authorize", Field("user", "")), user, "}");
    TaggedAppend("authorize", "user", "\"" + user + "\"" + "}");
  }

  lemma PlainRequestReads(user: string)
    requires Plain(user)
    ensures ReadObject(Tagged("authorize", Field("user", "\"" + user + "\"" + "}"))) ==
            Some(map["type" := Text("authorize"), "user" := Text(user)])
  {
    ReadsPlainQuoted(user, "}");
    ReadsQuotedField("authorize", "user", user, user);
  }

  lemma OneLine(line: string)
    requires NEWLINE !in line
    ensures Split(line + "\n") == ([line], "")
  {
    var stream := line + "\n";
    PlainSplit(line);
    assert stream[..|stream| - 1] == line;
    var none: seq<string> := [];
    assert none + [line] == [line];
  }

  lemma PlainRequestIsOneLine(user: string)
    requires Plain(user)
    ensures Split(AuthorizeRequest(user)) == ([AuthorizeLine(user)], "")
  {
    var line := AuthorizeLine(user);
    RequestText(user);
    assert line == "{\"type\":\"authorize\",\"user\":\"" + user + "\"}";
    assert NEWLINE !in line;
    OneLine(line);
  }

  /** If the member "user" is read as the user's name, the name needed no escapes. */
  lemma UserReadsPlain(user: string, members: map<string, JsonValue>)
    requires ReadMembers(Field("user", "\"" + user + "\"" + "}")) == Some(members)
    requires "user" in members && members["user"] == Text(user)
    ensures Plain(user)
  {
    var text := user + "\"" + "}";
    var value := "\"" + user + "\"" + "}";
    assert value[1..] == text;
    UserMember(value, members);
    ReadTextIsPlain(text);
  }

  lemma UserMember(value: string, members: map<string, JsonValue>)
    requires value != "" && value[0] == '\"' && ReadMembers(Field("user", value)) == Some(members)
    ensures ReadText(value[1..]).Some? && ReadText(value[1..]).value.1 != ""
    ensures "user" in members && members["user"] == Text(ReadText(value[1..]).value.0)
  {
    var s := Field("user", value);
    assert ReadMember(s).Some? && ReadMember(s).value.rest != "";
    UserValue(value);
  }

  lemma UserValue(value: string)
    requires value != "" && value[0] == '\"' && ReadMember(Field("user", value)).Some?
    ensures ReadText(value[1..]).Some?
    ensures ReadMember(Field("user", value)) ==
            Some(Member("user", Text(ReadText(value[1..]).value.0), ReadText(value[1..]).value.1))
  {
    ReadsPlain("user", ":" + value);
    assert Field("user", value)[1..] == "user" + "\"" + (":" + value);
    assert (":" + value)[1..] == value;
  }

  lemma WithUser(user: string, members: Option<map<string, JsonValue>>)
    requires With("type", Text("authorize"), members) ==
             Some(map["type" := Text("authorize"), "user" := Text(user)])
    ensures members.Some? && "user" in members.value && members.value["user"] == Text(user)
  {
    var all := With("type", Text("authorize"), members).value;
    assert "user" in all && all["user"] == Text(user);
  }

  /** If the daemon reads the user's name in the request, the name needed no escapes. */
  lemma ReadUserIsPlain(user: string)
    requires ReadObject(Tagged("authorize", Field("user", "\"" + user + "\"" + "}"))) ==
             Some(map["type" := Text("authorize"), "user" := Text(user)])
    ensures Plain(user)
  {
    var others := Field("user", "\"" + user + "\"" + "}");
    ReadsTagged("authorize", others);
    WithUser(user, ReadMembers(others));
    UserReadsPlain(user, ReadMembers(others).value);
  }

  /** The daemon reads the request as an authorize request of this very user, on one line with nothing left
      over, exactly for the names that need no escapes: the module prints the name as it is. */
  lemma RequestReadsBack(user: string)
    ensures ReadObject(AuthorizeLine(user)) == Some(map["type" := Text("authorize"), "user" := Text(user)]) <==>
            Plain(user)
    ensures Plain(user) ==> Split(AuthorizeRequest(user)) == ([AuthorizeLine(user)], "")
  {
    RequestText(user);
    if Plain(user) {
      PlainRequestReads(user);
      PlainRequestIsOneLine(user);
    } else if ReadObject(AuthorizeLine(user)) == Some(map["type" := Text("authorize"), "user" := Text(user)]) {
      ReadUserIsPlain(user);
    }
  }

  /** What the module concludes from the bytes the daemon's side delivers. */
  predicate Grants(stream: string) {
    FittingLine(stream, RESPONSE_SIZE).Some? && ResponseIsAuthorized(FittingLine(stream, RESPONSE_SIZE).value)
  }

  /** PAM_SUCCESS exactly when the user is known, the socket connects, the whole request fits 512 bytes with
      its NUL and is sent, and the first line delivered fits 1024 and is recognised. Success has sent exactly
      the request; anything else a part of it. */
  method Authenticate(user: Option<string>, connected: bool, stale: bool, outgoing: seq<WriteTurn>,
                      incoming: seq<ReadTurn>) returns (ok: bool, sent: string)
    ensures ok <==> && user.Some? && connected && |AuthorizeRequest(user.value)| < 512
                    && Taken(outgoing, stale) >= |AuthorizeRequest(user.value)|
                    && FittingLine(Delivered(incoming), 1024).Some?
                    && ResponseIsAuthorized(FittingLine(Delivered(incoming), 1024).value)
    ensures ok ==> sent == AuthorizeRequest(user.value)
    ensures !ok ==>
              sent == if user == None || !connected || |AuthorizeRequest(user.value)| >= 512 then ""
                      else if Taken(outgoing, stale) >= |AuthorizeRequest(user.value)| then AuthorizeRequest(user.value)
                      else AuthorizeRequest(user.value)[..Taken(outgoing, stale)]
  {
    if user == None || !connected { return false, ""; }
    var request := AuthorizeRequest(user.value);
    if |request| >= REQUEST_SIZE { return false, ""; }
    var written;
    written, sent := WriteAll(request, outgoing, stale);
    if written != Success { return false, sent; }
    var response := new char[RESPONSE_SIZE](_ => 0 as char);
    var status, length, _ := ReadLine(response, incoming);
    if status != Success { return false, sent; }
    ok := ResponseIsAuthorized(response[..length]);
  }

  /** When the daemon prints any response and a newline, PAM grants exactly if the response is
      Authorized(true); what follows on the stream, and how it is cut, does not matter. */
  lemma GrantsExactly(r: Response, rest: string)
    ensures Grants(Print(r) + [NEWLINE] + rest) <==> r == Authorized(true)
  {
    var line, stream := Print(r), Print(r) + [NEWLINE] + rest;
    PrintIsPrintable(r);
    assert forall i :: 0 <= i < |line| ==> stream[i] == line[i];
    IndexOfIs(stream, |line|);
    assert stream[..|line|] == line;
    RecognisesExactly(r);
  }
}
