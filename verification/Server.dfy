/** The foreign operations, as parameters: the desktop's OpenSSL, the phone's Dart library and the two
    JSON libraries meet in their functional laws only. */
module Crypto {
  import opened Wrappers
  import opened Hex
  import opened Timestamps

  type Key32 = k: seq<byte> | |k| == 32 witness seq(32, _ => 0)
  type Signature64 = s: seq<byte> | |s| == 64 witness seq(64, _ => 0)
  type Tag16 = t: seq<byte> | |t| == 16 witness seq(16, _ => 0)

  datatype Sealed = Sealed(ciphertext: seq<byte>, tag: Tag16)

  /** The objects that travel inside envelopes. A missing field reads as "" or 0. */
  datatype Payload =
    | ChallengeRequest
    | VerifyRequest(nonce: string, timestamp: int64, signature: string)
    | ChallengeReply(challengeId: string, nonce: string, timestamp: int64)
    | AuthorizedReply(authorized: bool)
    | ErrorReply(message: string)
    | OtherObject

  datatype Library = Library(
    exchangePublic: Key32 -> Key32,
    agree: (Key32, Key32) -> Option<Key32>,                              // private key, peer's public key
    signPublic: Key32 -> Key32,
    sign: (Key32, seq<byte>) -> Signature64,
    verify: (Key32, seq<byte>, Signature64) -> bool,
    encrypt: (Key32, seq<byte>, seq<byte>, string) -> Option<Sealed>,    // key, nonce, text, associated data
    decrypt: (Key32, seq<byte>, Sealed, string) -> Option<seq<byte>>,
    render: Payload -> seq<byte>,
    parse: seq<byte> -> Option<Payload>)

  /** Section 6.1 of RFC 7748. */
  ghost predicate Agrees(lib: Library) {
    forall a: Key32, b: Key32 ::
      lib.agree(a, lib.exchangePublic(b)).Some? &&
      lib.agree(a, lib.exchangePublic(b)) == lib.agree(b, lib.exchangePublic(a))
  }

  /** Section 5.1 of RFC 8032. */
  ghost predicate Signs(lib: Library) {
    forall seed: Key32, message: seq<byte> :: lib.verify(lib.signPublic(seed), message, lib.sign(seed, message))
  }

  /** Section 7 of NIST SP 800-38D. */
  ghost predicate Encrypts(lib: Library) {
    forall key: Key32, nonce: seq<byte>, text: seq<byte>, aad: string :: nonce != [] ==>
      lib.encrypt(key, nonce, text, aad).Some? &&
      lib.decrypt(key, nonce, lib.encrypt(key, nonce, text, aad).value, aad) == Some(text)
  }

  /** No object is written as the empty text, and every object is read back. */
  ghost predicate Renders(lib: Library) {
    forall p: Payload :: lib.render(p) != [] && lib.parse(lib.render(p)) == Some(p)
  }

  ghost predicate Lawful(lib: Library) {
    Agrees(lib) && Signs(lib) && Encrypts(lib) && Renders(lib)
  }

  // ---- The length guards around the EVP calls; Err is the empty QByteArray with its error text ----

  function Checked<T>(r: Option<T>, error: string): Result<T, string> {
    match r case Some(x) => Ok(x) case None => Err(error)
  }

  function X25519SharedSecret(lib: Library, privateKey: seq<byte>, peer: seq<byte>): Result<Key32, string> {
    if |privateKey| != 32 || |peer| != 32 then Err("X25519 keys must be 32 bytes")
    else Checked(lib.agree(privateKey, peer), "X25519 shared secret derivation failed")
  }

  function EncryptAes256Gcm(lib: Library, key: seq<byte>, nonce: seq<byte>, text: seq<byte>, aad: string)
    : Result<Sealed, string>
  {
    if |key| != 32 || nonce == [] then Err("AES-256-GCM requires a 32-byte key and nonce")
    else Checked(lib.encrypt(key, nonce, text, aad), "AES-256-GCM encryption failed")
  }

  function DecryptAes256Gcm(lib: Library, key: seq<byte>, nonce: seq<byte>, ciphertext: seq<byte>, tag: seq<byte>,
                            aad: string): Result<seq<byte>, string>
  {
    if |key| != 32 || nonce == [] || |tag| != 16 then Err("invalid AES-256-GCM input")
    else Checked(lib.decrypt(key, nonce, Sealed(ciphertext, tag), aad), "AES-256-GCM authentication failed")
  }

  predicate VerifyEd25519(lib: Library, key: seq<byte>, message: seq<byte>, signature: seq<byte>) {
    |key| == 32 && |signature| == 64 && lib.verify(key, message, signature)
  }
}

/** The desktop server: one pairing code at a time, two key tables, one replay cache. */
module Server {
  import opened Wrappers
  import opened Hex
  import opened Timestamps
  import opened Crypto
  import opened Replay

  const PAIRING_SECONDS: int := 300

  /** A parsed line. Missing fields are empty strings. */
  datatype Request =
    | PairRequest(deviceId: string, publicKey: string, exchangeKey: string, code: string)
    | SecureRequest(deviceId: string, nonce: string, ciphertext: string, tag: string)
    | OtherRequest
    | NotJson

  datatype Reply =
    | Error(message: string)
    | Paired(pcId: string)
    | Secure(deviceId: string, nonce: string, ciphertext: string, tag: string)

  /** What one line takes from outside: the clock at line entry, the two readings of the replay cache
      and the random bytes. */
  datatype Inputs = Inputs(now: int64, freshAt: int64, guardNow: int64, challenge: seq<byte>, envelope: seq<byte>)

  datatype State = State(
    pcId: string,
    privateKey: seq<byte>,
    publicKey: seq<byte>,
    running: bool,
    paired: map<string, seq<byte>>,
    sessions: map<string, seq<byte>>,
    code: string,
    createdAt: int,
    guard: Guard)

  function Initial(pcId: string, privateKey: seq<byte>, publicKey: seq<byte>): State {
    State(pcId, privateKey, publicKey, false, map[], map[], "", 0, EMPTY)
  }

  /** 64 random bits as 16 hexadecimal digits, padded with zeros on the left. */
  function CodeText(random: uint64): (code: string)
    ensures |code| == 16
  {
    Encode(BigEndian(random, 8))
  }

  /** The code is the drawn number, written with 16 lower-case hex digits. */
  lemma CodeWritesDraw(random: uint64)
    ensures AllDigits(CodeText(random)) && HexNumber(CodeText(random)) == random
    ensures forall i :: 0 <= i < 16 ==> Lower(CodeText(random)[i]) == CodeText(random)[i]
  {
    var bytes := BigEndian(random, 8);
    Hex.RoundTrip(bytes);
    StrictAcceptsExactly(Encode(bytes));
    HexIsBase16(Encode(bytes));
    EncodeDecode(Encode(bytes));
    BigEndianDecodes(random, 8);
    Pow256Eight();
    QuotientIs(random, TWO_64, 0, random);
  }

  /** So different draws give different codes. */
  lemma CodesDiffer(first: uint64, second: uint64)
    requires first != second
    ensures CodeText(first) != CodeText(second)
  {
    CodeWritesDraw(first);
    CodeWritesDraw(second);
  }

  // ---- Pairing ----

  predicate PairingAllowed(s: State, r: Request, now: int)
    requires r.PairRequest?
  {
    && r.deviceId != "" && |QtFromHex(r.publicKey)| == 32 && |QtFromHex(r.exchangeKey)| == 32
    && r.code == s.code && now - s.createdAt <= PAIRING_SECONDS
  }

  function PairReply(lib: Library, s: State, r: Request, now: int): (Reply, State)
    requires r.PairRequest?
  {
    if !PairingAllowed(s, r, now) then (Error("pairing code, keys, or pairing window is invalid"), s)
    else match X25519SharedSecret(lib, s.privateKey, QtFromHex(r.exchangeKey))
      case Err(e) => (Error(e), s)
      case Ok(secret) =>
        (Paired(s.pcId),
         s.(paired := s.paired[r.deviceId := QtFromHex(r.publicKey)],
            sessions := s.sessions[r.deviceId := secret],
            code := ""))
  }

  // ---- Envelopes ----

  function DecryptRequest(lib: Library, s: State, r: Request): Result<Payload, string> {
    if !r.SecureRequest? then Err("unencrypted requests are not accepted")
    else if r.deviceId !in s.sessions then Err("device is not paired")
    else
      match DecryptAes256Gcm(lib, s.sessions[r.deviceId], QtFromHex(r.nonce), QtFromHex(r.ciphertext),
                             QtFromHex(r.tag), r.deviceId)
      case Err(e) => Err(e)
      case Ok(text) =>
        if text == [] then Err("")
        else match lib.parse(text)
          case None => Err("decrypted payload is invalid")
          case Some(p) => Ok(p)
  }

  /** What the server opens: an envelope of a paired device that decrypts, under the device's session key and
      with its identifier as associated data, to a non-empty text that parses. */
  lemma DecryptsExactly(lib: Library, s: State, r: Request, p: Payload)
    ensures DecryptRequest(lib, s, r) == Ok(p) <==>
            && r.SecureRequest? && r.deviceId in s.sessions && |s.sessions[r.deviceId]| == 32
            && QtFromHex(r.nonce) != [] && |QtFromHex(r.tag)| == 16
            && exists text: seq<byte> ::
                 && lib.decrypt(s.sessions[r.deviceId], QtFromHex(r.nonce),
                                Sealed(QtFromHex(r.ciphertext), QtFromHex(r.tag)), r.deviceId) == Some(text)
                 && text != [] && lib.parse(text) == Some(p)
  {}

  function SessionKey(s: State, deviceId: string): seq<byte> {
    if deviceId in s.sessions then s.sessions[deviceId] else []
  }

  function EncryptedResponse(lib: Library, s: State, deviceId: string, p: Payload, envelope: seq<byte>): Reply {
    match EncryptAes256Gcm(lib, SessionKey(s, deviceId), envelope, lib.render(p), deviceId)
    case Err(e) => Error(e)
    case Ok(sealed) => Secure(deviceId, Encode(envelope), Encode(sealed.ciphertext), Encode(sealed.tag))
  }

  // ---- Verification ----

  function GuardCall(p: Payload, x: Inputs): Call
    requires p.VerifyRequest?
  {
    Call(QtFromHex(p.nonce), p.timestamp, x.freshAt, x.guardNow)
  }

  /** The replay cache is asked, and remembers, before the signature is looked at. */
  predicate Authorizes(lib: Library, s: State, deviceId: string, p: Payload, x: Inputs)
    requires p.VerifyRequest?
  {
    && deviceId in s.paired
    && Accepts(s.guard, GuardCall(p, x), DESKTOP)
    && VerifyEd25519(lib, s.paired[deviceId], QtFromHex(p.nonce) + BigEndian(p.timestamp, 8), QtFromHex(p.signature))
  }

  function GuardAfter(s: State, deviceId: string, p: Payload, x: Inputs): Guard
    requires p.VerifyRequest?
  {
    if deviceId in s.paired then After(s.guard, GuardCall(p, x), DESKTOP) else s.guard
  }

  function SecureReply(lib: Library, s: State, deviceId: string, p: Payload, x: Inputs): (Reply, State) {
    match p
    case ChallengeRequest =>
      var nonce := Encode(x.challenge);
      (EncryptedResponse(lib, s, deviceId, ChallengeReply(nonce, nonce, x.now), x.envelope), s)
    case VerifyRequest(_, _, _) =>
      (EncryptedResponse(lib, s, deviceId, AuthorizedReply(Authorizes(lib, s, deviceId, p, x)), x.envelope),
       s.(guard := GuardAfter(s, deviceId, p, x)))
    case _ => (EncryptedResponse(lib, s, deviceId, ErrorReply("unsupported request type"), x.envelope), s)
  }

  function LineOutcome(lib: Library, s: State, r: Request, x: Inputs): (Reply, State) {
    match r
    case NotJson => (Error("invalid JSON request"), s)
    case PairRequest(_, _, _, _) => PairReply(lib, s, r, x.now)
    case _ =>
      match DecryptRequest(lib, s, r)
      case Err(e) => (Error(e), s)
      case Ok(p) => SecureReply(lib, s, r.deviceId, p, x)
  }

  // ---- Starting, stopping and showing the code ----

  function WithCode(s: State, random: uint64, now: int): State {
    s.(code := CodeText(random), createdAt := now)
  }

  /** A start that fails to listen has already replaced the code. */
  function Started(s: State, random: uint64, now: int, listens: bool): State {
    if s.running || |s.publicKey| != 32 then s else WithCode(s, random, now).(running := listens)
  }

  predicate NeedsCode(s: State, now: int) {
    s.code == "" || now - s.createdAt > PAIRING_SECONDS
  }

  function Shown(s: State, random: uint64, now: int, createdNow: int): State {
    if NeedsCode(s, now) then WithCode(s, random, createdNow) else s
  }

  class Server {
    const pcId: string
    const privateKey: seq<byte>
    const publicKey: seq<byte>
    var running: bool
    var pairedKeys: map<string, seq<byte>>
    var sessionKeys: map<string, seq<byte>>
    var pairingCode: string
    var pairingCreatedAt: int
    const replayGuard: ReplayGuard

    function Contents(): State
      reads this, replayGuard
    {
      State(pcId, privateKey, publicKey, running, pairedKeys, sessionKeys, pairingCode, pairingCreatedAt,
            replayGuard.State())
    }

    constructor (pcId: string, privateKey: seq<byte>, publicKey: seq<byte>)
      ensures Contents() == Initial(pcId, privateKey, publicKey) && fresh(replayGuard)
    {
      this.pcId, this.privateKey, this.publicKey := pcId, privateKey, publicKey;
      running, pairedKeys, sessionKeys, pairingCode, pairingCreatedAt := false, map[], map[], "", 0;
      replayGuard := new ReplayGuard();
    }

    method Start(random: uint64, now: int, tcp: bool, udp: bool) returns (ok: bool)
      modifies this
      ensures Contents() == Started(old(Contents()), random, now, tcp && udp)
      ensures ok <==> running
    {
      if running { return true; }
      if |publicKey| != 32 { return false; }
      pairingCode := CodeText(random);
      pairingCreatedAt := now;
      if !tcp { return false; }
      if !udp { return false; }
      running := true;
      ok := true;
    }

    method Stop()
      modifies this
      ensures Contents() == old(Contents()).(running := false)
    {
      running := false;
    }

    /** The code the QR payload carries. */
    method PairingPayload(random: uint64, now: int, createdNow: int) returns (code: string)
      modifies this
      ensures Contents() == Shown(old(Contents()), random, now, createdNow)
      ensures code == pairingCode && code != ""
      ensures if old(pairingCode) == "" || now - old(pairingCreatedAt) > 300
              then code == CodeText(random) && pairingCreatedAt == createdNow
              else code == old(pairingCode) && now - pairingCreatedAt <= 300
    {
      if pairingCode == "" || now - pairingCreatedAt > PAIRING_SECONDS {
        pairingCode := CodeText(random);
        pairingCreatedAt := createdNow;
      }
      code := pairingCode;
    }

    method Pair(lib: Library, r: Request, now: int) returns (reply: Reply)
      requires r.PairRequest?
      modifies this
      ensures (reply, Contents()) == PairReply(lib, old(Contents()), r, now)
    {
      var signingKey, deviceKey := QtFromHex(r.publicKey), QtFromHex(r.exchangeKey);
      if r.deviceId == "" || |signingKey| != 32 || |deviceKey| != 32 || r.code != pairingCode ||
         now - pairingCreatedAt > PAIRING_SECONDS
      {
        return Error("pairing code, keys, or pairing window is invalid");
      }
      var shared := X25519SharedSecret(lib, privateKey, deviceKey);
      if shared.Err? { return Error(shared.error); }
      pairedKeys := pairedKeys[r.deviceId := signingKey];
      sessionKeys := sessionKeys[r.deviceId := shared.value];
      pairingCode := "";
      reply := Paired(pcId);
    }

    method VerifyChallenge(lib: Library, deviceId: string, p: Payload, x: Inputs) returns (authorized: bool)
      requires p.VerifyRequest?
      modifies replayGuard
      ensures authorized <==> Authorizes(lib, old(Contents()), deviceId, p, x)
      ensures Contents() == old(Contents()).(guard := GuardAfter(old(Contents()), deviceId, p, x))
    {
      if deviceId !in pairedKeys { return false; }
      var nonce := QtFromHex(p.nonce);
      authorized := replayGuard.Accept(nonce, p.timestamp, x.freshAt, x.guardNow);
      if authorized {
        var digits := TimestampBytes(p.timestamp);
        authorized := VerifyEd25519(lib, pairedKeys[deviceId], nonce + digits, QtFromHex(p.signature));
      }
    }

    method ProcessLine(lib: Library, r: Request, x: Inputs) returns (reply: Reply)
      modifies this, replayGuard
      ensures (reply, Contents()) == LineOutcome(lib, old(Contents()), r, x)
    {
      if r == NotJson { return Error("invalid JSON request"); }
      if r.PairRequest? {
        reply := Pair(lib, r, x.now);
        return;
      }
      var decrypted := DecryptRequest(lib, Contents(), r);
      if decrypted.Err? { return Error(decrypted.error); }
      var answer := ErrorReply("unsupported request type");
      match decrypted.value {
        case ChallengeRequest =>
          answer := ChallengeReply(Encode(x.challenge), Encode(x.challenge), x.now);
        case VerifyRequest(_, _, _) =>
          var authorized := VerifyChallenge(lib, r.deviceId, decrypted.value, x);
          answer := AuthorizedReply(authorized);
        case _ =>
      }
      reply := EncryptedResponse(lib, Contents(), r.deviceId, answer, x.envelope);
    }
  }
}
