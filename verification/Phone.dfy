/** The phone's side: its keys, its session with the desktop and its envelopes. */
module Phone {
  import opened Wrappers
  import opened Hex
  import opened Timestamps
  import opened Crypto
  import opened Server

  /** A stored seed, or the generated one where nothing is stored. */
  function SeedFrom(stored: Option<string>, generated: Key32, wrongLength: string): Result<Key32, string> {
    match stored
    case None => Ok(generated)
    case Some(text) =>
      match DartFromHex(text)
      case None => Err("invalid signing key encoding")
      case Some(seed) => if |seed| == 32 then Ok(seed) else Err(wrongLength)
  }

  /** The seeds in secure storage as text, and the key pairs in memory. */
  datatype Keys = Keys(signingText: Option<string>, exchangeText: Option<string>,
                       signing: Option<Key32>, exchange: Option<Key32>)

  function TextOf(stored: Option<string>, seed: Key32): Option<string> {
    if stored == None then Some(Encode(seed)) else stored
  }

  /** A call that finds the signing key in memory does nothing more, even if an earlier call failed
      before it had the exchange key. */
  function Initialized(k: Keys, newSigning: Key32, newExchange: Key32): (Result<(), string>, Keys) {
    if k.signing.Some? then (Ok(()), k)
    else match SeedFrom(k.signingText, newSigning, "stored signing key has invalid length")
      case Err(e) => (Err(e), k)
      case Ok(seed) =>
        var signs := k.(signing := Some(seed), signingText := TextOf(k.signingText, seed));
        match SeedFrom(k.exchangeText, newExchange, "stored exchange key has invalid length")
        case Err(e) => (Err(e), signs)
        case Ok(seed) => (Ok(()), signs.(exchange := Some(seed), exchangeText := TextOf(k.exchangeText, seed)))
  }

  /** What is in memory is what a later service object will load from the same storage. */
  predicate Persisted(k: Keys) {
    && (k.signing.Some? ==> k.signingText.Some? && DartFromHex(k.signingText.value) == Some(k.signing.value))
    && (k.exchange.Some? ==> k.exchangeText.Some? && DartFromHex(k.exchangeText.value) == Some(k.exchange.value))
  }

  function EstablishedKey(lib: Library, exchange: Key32, workstationKey: string): Result<Key32, string> {
    match DartFromHex(workstationKey)
    case None => Err("invalid signing key encoding")
    case Some(bytes) =>
      if |bytes| != 32 then Err("invalid workstation exchange key")
      else Checked(lib.agree(exchange, bytes), "key agreement failed")
  }

  function Envelope(lib: Library, key: Key32, deviceId: string, p: Payload, nonce: seq<byte>): Result<Request, string> {
    match EncryptAes256Gcm(lib, key, nonce, lib.render(p), deviceId)
    case Err(e) => Err(e)
    case Ok(sealed) => Ok(SecureRequest(deviceId, Encode(nonce), Encode(sealed.ciphertext), Encode(sealed.tag)))
  }

  function OpenEnvelope(lib: Library, key: Key32, deviceId: string, reply: Reply): Result<Payload, string> {
    if !reply.Secure? || reply.deviceId != deviceId then Err("invalid secure envelope")
    else match (DartFromHex(reply.nonce), DartFromHex(reply.ciphertext), DartFromHex(reply.tag))
      case (Some(nonce), Some(ciphertext), Some(tag)) =>
        (match DecryptAes256Gcm(lib, key, nonce, ciphertext, tag, deviceId)
         case Err(e) => Err(e)
         case Ok(text) => Checked(lib.parse(text), "invalid decrypted payload"))
      case _ => Err("invalid signing key encoding")
  }

  /** The fingerprint prompt answers `approved`. */
  function Signed(lib: Library, seed: Key32, nonce: seq<byte>, timestamp: int64, approved: bool)
    : Result<Signature64, string>
  {
    if |nonce| != 32 then Err("nonce must be 32 bytes")
    else if !approved then Err("biometric approval denied")
    else Ok(lib.sign(seed, nonce + BigEndian(timestamp, 8)))
  }

  /** Secure storage, which outlives the service object. */
  class Storage {
    var signing: Option<string>
    var exchange: Option<string>

    constructor ()
      ensures signing == None && exchange == None
    {
      signing, exchange := None, None;
    }
  }

  class CryptoService {
    const storage: Storage
    var keyPair: Option<Key32>
    var exchangePair: Option<Key32>
    var sessionKey: Option<Key32>

    constructor (storage: Storage)
      ensures this.storage == storage && keyPair == None && exchangePair == None && sessionKey == None
    {
      this.storage := storage;
      keyPair, exchangePair, sessionKey := None, None, None;
    }

    function Contents(): Keys
      reads this, storage
    {
      Keys(storage.signing, storage.exchange, keyPair, exchangePair)
    }

    /** The new seeds are used where none is stored. */
    method Initialize(newSigning: Key32, newExchange: Key32) returns (r: Result<(), string>)
      modifies this, storage
      ensures (r, Contents()) == Initialized(old(Contents()), newSigning, newExchange)
      ensures sessionKey == old(sessionKey)
    {
      if keyPair.Some? { return Ok(()); }
      if storage.signing == None {
        storage.signing := Some(Encode(newSigning));
        keyPair := Some(newSigning);
      } else {
        var seed := FromHex(storage.signing.value);
        if seed == None { return Err("invalid signing key encoding"); }
        if |seed.value| != 32 { return Err("stored signing key has invalid length"); }
        keyPair := Some(seed.value);
      }
      if storage.exchange == None {
        exchangePair := Some(newExchange);
        storage.exchange := Some(Encode(newExchange));
      } else {
        var seed := FromHex(storage.exchange.value);
        if seed == None { return Err("invalid signing key encoding"); }
        if |seed.value| != 32 { return Err("stored exchange key has invalid length"); }
        exchangePair := Some(seed.value);
      }
      r := Ok(());
    }

    /** The session key changes only when the service can be initialized, has an exchange key and the
        agreement succeeds. After an earlier call that had no exchange key, there is none to use. */
    method EstablishSession(lib: Library, workstationKey: string, newSigning: Key32, newExchange: Key32)
      returns (r: Result<(), string>)
      modifies this, storage
      ensures var (ready, k) := Initialized(old(Contents()), newSigning, newExchange);
              && Contents() == k
              && (ready.Err? ==> r == ready && sessionKey == old(sessionKey))
              && (ready.Ok? && k.exchange == None ==> r.Err? && sessionKey == old(sessionKey))
              && (ready.Ok? && k.exchange.Some? ==>
                    match EstablishedKey(lib, k.exchange.value, workstationKey)
                    case Ok(key) => r == Ok(()) && sessionKey == Some(key)
                    case Err(e) => r == Err(e) && sessionKey == old(sessionKey))
    {
      var ready := Initialize(newSigning, newExchange);
      if ready.Err? { return ready; }
      var bytes := FromHex(workstationKey);
      if bytes == None { return Err("invalid signing key encoding"); }
      if |bytes.value| != 32 { return Err("invalid workstation exchange key"); }
      if exchangePair == None { return Err("null check operator used on a null value"); }
      var secret := lib.agree(exchangePair.value, bytes.value);
      if secret == None { return Err("key agreement failed"); }
      sessionKey := secret;
      r := Ok(());
    }

    /** The nonce is looked at before the keys, the keys before the user is asked. */
    method SignChallenge(lib: Library, nonce: seq<byte>, timestamp: int64, approved: bool, newSigning: Key32,
                         newExchange: Key32) returns (r: Result<Signature64, string>)
      modifies this, storage
      ensures sessionKey == old(sessionKey)
      ensures |nonce| != 32 ==> r.Err? && Contents() == old(Contents())
      ensures |nonce| == 32 ==>
                var (ready, k) := Initialized(old(Contents()), newSigning, newExchange);
                && Contents() == k
                && (ready.Err? ==> r == Err(ready.error))
                && (ready.Ok? ==> k.signing.Some? && r == Signed(lib, k.signing.value, nonce, timestamp, approved))
    {
      if |nonce| != 32 { return Err("nonce must be 32 bytes"); }
      var ready := Initialize(newSigning, newExchange);
      if ready.Err? { return Err(ready.error); }
      if !approved { return Err("biometric approval denied"); }
      var payload := nonce + BigEndian(timestamp, 8);
      r := Ok(lib.sign(keyPair.value, payload));
    }

    method EncryptEnvelope(lib: Library, deviceId: string, p: Payload, nonce: seq<byte>)
      returns (r: Result<Request, string>)
      ensures sessionKey == None ==> r.Err?
      ensures sessionKey.Some? ==> r == Envelope(lib, sessionKey.value, deviceId, p, nonce)
    {
      if sessionKey == None { return Err("secure session has not been established"); }
      var sealed := EncryptAes256Gcm(lib, sessionKey.value, nonce, lib.render(p), deviceId);
      if sealed.Err? { return Err(sealed.error); }
      r := Ok(SecureRequest(deviceId, Encode(nonce), Encode(sealed.value.ciphertext), Encode(sealed.value.tag)));
    }

    method DecryptEnvelope(lib: Library, deviceId: string, reply: Reply) returns (r: Result<Payload, string>)
      ensures sessionKey == None ==> r.Err?
      ensures sessionKey.Some? ==> r == OpenEnvelope(lib, sessionKey.value, deviceId, reply)
    {
      if sessionKey == None || !reply.Secure? || reply.deviceId != deviceId { return Err("invalid secure envelope"); }
      var ciphertext := FromHex(reply.ciphertext);
      var nonce := FromHex(reply.nonce);
      var tag := FromHex(reply.tag);
      if ciphertext == None || nonce == None || tag == None { return Err("invalid signing key encoding"); }
      var text := DecryptAes256Gcm(lib, sessionKey.value, nonce.value, ciphertext.value, tag.value, deviceId);
      if text.Err? { return Err(text.error); }
      r := Checked(lib.parse(text.value), "invalid decrypted payload");
    }
  }

  /** What the server seals for one device, a phone that goes by another identifier refuses. */
  lemma EnvelopesStayWithTheirDevice(lib: Library, s: State, key: Key32, deviceId: string, other: string, p: Payload,
                                     nonce: seq<byte>)
    requires other != deviceId
    ensures OpenEnvelope(lib, key, other, EncryptedResponse(lib, s, deviceId, p, nonce)).Err?
  {}

  /** What a phone opens is an envelope with its own identifier, decrypted under its session key with that
      identifier as associated data. */
  lemma OpensExactly(lib: Library, key: Key32, deviceId: string, reply: Reply, p: Payload)
    ensures OpenEnvelope(lib, key, deviceId, reply) == Ok(p) <==>
            && reply.Secure? && reply.deviceId == deviceId
            && exists nonce: seq<byte>, ciphertext: seq<byte>, tag: Tag16, text: seq<byte> ::
                 && DartFromHex(reply.nonce) == Some(nonce) && nonce != []
                 && DartFromHex(reply.ciphertext) == Some(ciphertext) && DartFromHex(reply.tag) == Some(tag)
                 && lib.decrypt(key, nonce, Sealed(ciphertext, tag), deviceId) == Some(text)
                 && lib.parse(text) == Some(p)
  {
    if OpenEnvelope(lib, key, deviceId, reply) == Ok(p) {
      var nonce, ciphertext := DartFromHex(reply.nonce).value, DartFromHex(reply.ciphertext).value;
      var tag: Tag16 := DartFromHex(reply.tag).value;
      var text := lib.decrypt(key, nonce, Sealed(ciphertext, tag), deviceId).value;
      assert lib.parse(text) == Some(p);
    }
  }

  /** A seed that was stored is loaded, whatever would be generated now. */
  lemma SeedSurvivesRestart(seed: Key32, other: Key32, wrongLength: string)
    ensures SeedFrom(Some(Encode(seed)), other, wrongLength) == Ok(seed)
  {
    Hex.RoundTrip(seed);
  }

  /** A service that initialized keeps its keys over a restart: a new one over the same storage, whatever it
      would generate, has the same. Memory and storage agree even after an initialization that failed
      half-way; but once there is a signing key, no later call makes up for a missing exchange key. */
  lemma RestartLoadsSameKeys(k: Keys, newSigning: Key32, newExchange: Key32, otherSigning: Key32, otherExchange: Key32)
    requires Persisted(k)
    ensures var (r, t) := Initialized(k, newSigning, newExchange);
            && Persisted(t)
            && (t.signing.Some? ==> Initialized(t, otherSigning, otherExchange) == (Ok(()), t))
            && (r.Ok? && t.exchange.Some? ==>
                  Initialized(t.(signing := None, exchange := None), otherSigning, otherExchange) == (Ok(()), t))
  {
    SeedSurvivesRestart(newSigning, otherSigning, "stored signing key has invalid length");
    SeedSurvivesRestart(newExchange, otherExchange, "stored exchange key has invalid length");
  }

  /** What the server seals, the phone opens. */
  lemma PhoneOpens(lib: Library, s: State, key: Key32, deviceId: string, p: Payload, nonce: seq<byte>)
    requires Lawful(lib) && nonce != [] && deviceId in s.sessions && s.sessions[deviceId] == key
    ensures OpenEnvelope(lib, key, deviceId, EncryptedResponse(lib, s, deviceId, p, nonce)) == Ok(p)
  {
    var sealed := lib.encrypt(key, nonce, lib.render(p), deviceId).value;
    var reply := EncryptedResponse(lib, s, deviceId, p, nonce);
    assert reply == Secure(deviceId, Encode(nonce), Encode(sealed.ciphertext), Encode(sealed.tag));
    assert DartFromHex(reply.nonce) == Some(nonce) by { Hex.RoundTrip(nonce); }
    assert DartFromHex(reply.ciphertext) == Some(sealed.ciphertext) by { Hex.RoundTrip(sealed.ciphertext); }
    assert DartFromHex(reply.tag) == Some(sealed.tag) by { Hex.RoundTrip(sealed.tag); }
    assert lib.parse(lib.render(p)) == Some(p);
  }
}

/** The whole conversation between a phone and the desktop server. */
module HonestRun {
  import opened Wrappers
  import opened Hex
  import opened Timestamps
  import opened Crypto
  import opened Replay
  import opened Server
  import opened Phone

  datatype PhoneKeys = PhoneKeys(signing: Key32, exchange: Key32)

  /** What happens around the conversation: server inputs for its three lines, the phone's two random
      envelope nonces, and the user's answer to the biometric prompt. */
  datatype World = World(pair: Inputs, challenge: Inputs, verify: Inputs, n1: seq<byte>, n2: seq<byte>, approved: bool)

  datatype Outcome = PairingFailed | PairingRejected | ChallengeRejected | Verified

  function DeviceId(lib: Library, phone: PhoneKeys): string {
    Encode(lib.signPublic(phone.signing))
  }

  /** The phone's pair request: its public signing key is its identifier. */
  function Introduction(lib: Library, phone: PhoneKeys, code: string): Request {
    var id := DeviceId(lib, phone);
    PairRequest(id, id, Encode(lib.exchangePublic(phone.exchange)), code)
  }

  /** `pairFromQr` from the scanned key and code to the status it shows, the server answering each line. */
  function PairFromQr(lib: Library, phone: PhoneKeys, pcKey: string, code: string, s: State, w: World): Outcome {
    var id := DeviceId(lib, phone);
    match EstablishedKey(lib, phone.exchange, pcKey)
    case Err(_) => PairingFailed
    case Ok(key) =>
      var (reply, s1) := LineOutcome(lib, s, Introduction(lib, phone, code), w.pair);
      if !reply.Paired? then PairingRejected
      else match Envelope(lib, key, id, ChallengeRequest, w.n1)
        case Err(_) => PairingFailed
        case Ok(request) =>
          var (challenge, s2) := LineOutcome(lib, s1, request, w.challenge);
          AnswerChallenge(lib, phone, key, challenge, s2, w)
  }

  function AnswerChallenge(lib: Library, phone: PhoneKeys, key: Key32, challenge: Reply, s: State, w: World): Outcome {
    match OpenEnvelope(lib, key, DeviceId(lib, phone), challenge)
    case Ok(ChallengeReply(_, nonceText, timestamp)) =>
      (match DartFromHex(nonceText)
       case None => PairingFailed
       case Some(nonce) =>
         match Signed(lib, phone.signing, nonce, timestamp, w.approved)
         case Err(_) => PairingFailed
         case Ok(signature) => SendSignature(lib, phone, key, nonceText, timestamp, signature, s, w))
    case _ => PairingFailed
  }

  function SendSignature(lib: Library, phone: PhoneKeys, key: Key32, nonceText: string, timestamp: int64,
                         signature: Signature64, s: State, w: World): Outcome
  {
    var id := DeviceId(lib, phone);
    match Envelope(lib, key, id, VerifyRequest(nonceText, timestamp, Encode(signature)), w.n2)
    case Err(_) => PairingFailed
    case Ok(request) =>
      match OpenEnvelope(lib, key, id, LineOutcome(lib, s, request, w.verify).0)
      case Ok(AuthorizedReply(authorized)) => if authorized then Verified else ChallengeRejected
      case Ok(_) => ChallengeRejected
      case Err(_) => PairingFailed
  }

  // ---- Envelopes pass between the two sides ----

  /** What the phone seals, the server opens. */
  lemma ServerOpens(lib: Library, s: State, key: Key32, deviceId: string, p: Payload, nonce: seq<byte>)
    requires Lawful(lib) && nonce != [] && deviceId in s.sessions && s.sessions[deviceId] == key
    ensures Envelope(lib, key, deviceId, p, nonce).Ok?
    ensures var request := Envelope(lib, key, deviceId, p, nonce).value;
            request.SecureRequest? && request.deviceId == deviceId && DecryptRequest(lib, s, request) == Ok(p)
  {
    var sealed := lib.encrypt(key, nonce, lib.render(p), deviceId).value;
    var request := Envelope(lib, key, deviceId, p, nonce).value;
    assert request == SecureRequest(deviceId, Encode(nonce), Encode(sealed.ciphertext), Encode(sealed.tag));
    assert QtFromHex(request.nonce) == nonce by { Hex.RoundTrip(nonce); }
    assert QtFromHex(request.ciphertext) == sealed.ciphertext by { Hex.RoundTrip(sealed.ciphertext); }
    assert QtFromHex(request.tag) == sealed.tag by { Hex.RoundTrip(sealed.tag); }
    assert lib.parse(lib.render(p)) == Some(p);
  }

  /** The server holds its own key pair, and the device's two keys. */
  ghost predicate Knows(lib: Library, s: State, phone: PhoneKeys, key: Key32) {
    var id := DeviceId(lib, phone);
    && id in s.sessions && s.sessions[id] == key
    && id in s.paired && s.paired[id] == lib.signPublic(phone.signing)
  }

  /** The pairing of the phone that scanned the current code: accepted exactly while the code is at most
      five minutes old, and then both sides hold the same session key. */
  lemma HonestPairing(lib: Library, phone: PhoneKeys, s: State, x: Inputs)
    requires Lawful(lib) && |s.privateKey| == 32 && s.publicKey == lib.exchangePublic(s.privateKey)
    ensures EstablishedKey(lib, phone.exchange, Encode(s.publicKey)).Ok?
    ensures var id := DeviceId(lib, phone);
            var (reply, t) := LineOutcome(lib, s, Introduction(lib, phone, s.code), x);
            && (reply.Paired? <==> x.now - s.createdAt <= 300)
            && (reply.Paired? ==> t.guard == s.guard &&
                                  Knows(lib, t, phone, EstablishedKey(lib, phone.exchange, Encode(s.publicKey)).value))
  {
    var id := DeviceId(lib, phone);
    Hex.RoundTrip(s.publicKey);
    Hex.RoundTrip(lib.signPublic(phone.signing));
    Hex.RoundTrip(lib.exchangePublic(phone.exchange));
    assert |id| == 64;
    var private: Key32 := s.privateKey;
    assert lib.agree(private, lib.exchangePublic(phone.exchange)) ==
           lib.agree(phone.exchange, lib.exchangePublic(private));
  }

  /** The challenge that an honest phone receives is the server's nonce and clock reading. */
  lemma HonestChallenge(lib: Library, phone: PhoneKeys, s: State, key: Key32, w: World)
    requires Lawful(lib) && Knows(lib, s, phone, key) && w.n1 != [] && w.challenge.envelope != []
    ensures var id := DeviceId(lib, phone);
            Envelope(lib, key, id, ChallengeRequest, w.n1).Ok? &&
            var (reply, t) := LineOutcome(lib, s, Envelope(lib, key, id, ChallengeRequest, w.n1).value, w.challenge);
            t == s && OpenEnvelope(lib, key, id, reply) ==
                      Ok(ChallengeReply(Encode(w.challenge.challenge), Encode(w.challenge.challenge), w.challenge.now))
  {
    var id := DeviceId(lib, phone);
    ServerOpens(lib, s, key, id, ChallengeRequest, w.n1);
    var text := Encode(w.challenge.challenge);
    PhoneOpens(lib, s, key, id, ChallengeReply(text, text, w.challenge.now), w.challenge.envelope);
  }

  /** The call the replay cache sees when the phone answers the server's challenge. */
  function HonestCall(w: World): Call {
    Call(w.challenge.challenge, w.challenge.now, w.verify.freshAt, w.verify.guardNow)
  }

  lemma VerifyLine(lib: Library, s: State, r: Request, p: Payload, x: Inputs)
    requires r.SecureRequest? && p.VerifyRequest? && DecryptRequest(lib, s, r) == Ok(p)
    ensures LineOutcome(lib, s, r, x).0 ==
            EncryptedResponse(lib, s, r.deviceId, AuthorizedReply(Authorizes(lib, s, r.deviceId, p, x)), x.envelope)
  {}

  lemma HonestVerdict(lib: Library, phone: PhoneKeys, s: State, key: Key32, w: World, signature: Signature64)
    requires Signs(lib) && Knows(lib, s, phone, key)
    requires signature == lib.sign(phone.signing, w.challenge.challenge + BigEndian(w.challenge.now, 8))
    ensures Authorizes(lib, s, DeviceId(lib, phone),
                       VerifyRequest(Encode(w.challenge.challenge), w.challenge.now, Encode(signature)), w.verify)
            <==> Accepts(s.guard, HonestCall(w), DESKTOP)
  {
    var p := VerifyRequest(Encode(w.challenge.challenge), w.challenge.now, Encode(signature));
    assert QtFromHex(p.nonce) == w.challenge.challenge by { Hex.RoundTrip(w.challenge.challenge); }
    assert QtFromHex(p.signature) == signature by { Hex.RoundTrip(signature); }
    assert GuardCall(p, w.verify) == HonestCall(w);
    SignatureHolds(lib, phone.signing, w.challenge.challenge + BigEndian(w.challenge.now, 8));
  }

  lemma SignatureHolds(lib: Library, seed: Key32, message: seq<byte>)
    requires Signs(lib)
    ensures VerifyEd25519(lib, lib.signPublic(seed), message, lib.sign(seed, message))
  {}

  /** The bytes the phone signs are the bytes the server verifies, so the answer rests with the replay
      cache alone. */
  lemma HonestSignature(lib: Library, phone: PhoneKeys, s: State, key: Key32, w: World)
    requires Lawful(lib) && Knows(lib, s, phone, key) && w.n2 != [] && w.verify.envelope != []
    ensures var text, nonce := Encode(w.challenge.challenge), w.challenge.challenge;
            SendSignature(lib, phone, key, text, w.challenge.now,
                          lib.sign(phone.signing, nonce + BigEndian(w.challenge.now, 8)), s, w) ==
            if Accepts(s.guard, HonestCall(w), DESKTOP) then Verified else ChallengeRejected
  {
    var id, nonce := DeviceId(lib, phone), w.challenge.challenge;
    var signature := lib.sign(phone.signing, nonce + BigEndian(w.challenge.now, 8));
    var p := VerifyRequest(Encode(nonce), w.challenge.now, Encode(signature));
    HonestVerdict(lib, phone, s, key, w, signature);
    ServerOpens(lib, s, key, id, p, w.n2);
    VerifyLine(lib, s, Envelope(lib, key, id, p, w.n2).value, p, w.verify);
    PhoneOpens(lib, s, key, id, AuthorizedReply(Authorizes(lib, s, id, p, w.verify)), w.verify.envelope);
  }

  /** The honest run, exactly: a phone that scanned the current code is rejected when the code is more than
      five minutes old, fails when the user declines, and otherwise ends verified exactly when the replay
      cache takes the challenge: within 30 seconds, and not remembered since the last wipe. */
  lemma HonestRunExactly(lib: Library, phone: PhoneKeys, s: State, w: World)
    requires Lawful(lib) && |s.privateKey| == 32 && s.publicKey == lib.exchangePublic(s.privateKey)
    requires |w.n1| == |w.n2| == |w.challenge.envelope| == |w.verify.envelope| == 12 && |w.challenge.challenge| == 32
    ensures PairFromQr(lib, phone, Encode(s.publicKey), s.code, s, w) ==
            if w.pair.now - s.createdAt > 300 then PairingRejected
            else if !w.approved then PairingFailed
            else if Accepts(s.guard, HonestCall(w), DESKTOP) then Verified
            else ChallengeRejected
  {
    HonestPairing(lib, phone, s, w.pair);
    var id := DeviceId(lib, phone);
    var t := LineOutcome(lib, s, PairRequest(id, id, Encode(lib.exchangePublic(phone.exchange)), s.code), w.pair).1;
    if w.pair.now - s.createdAt <= PAIRING_SECONDS {
      var key := EstablishedKey(lib, phone.exchange, Encode(s.publicKey)).value;
      HonestChallenge(lib, phone, t, key, w);
      Hex.RoundTrip(w.challenge.challenge);
      HonestSignature(lib, phone, t, key, w);
    }
  }

  /** The documented case: paired within five minutes, approved, answered within 30 seconds, and no equal
      token remembered. */
  lemma HonestRunSucceeds(lib: Library, phone: PhoneKeys, s: State, w: World)
    requires Lawful(lib) && |s.privateKey| == 32 && s.publicKey == lib.exchangePublic(s.privateKey)
    requires |w.n1| == |w.n2| == |w.challenge.envelope| == |w.verify.envelope| == 12 && |w.challenge.challenge| == 32
    requires w.pair.now - s.createdAt <= 300 && w.approved
    requires IsClock(w.challenge.now) && w.challenge.now <= w.verify.freshAt <= w.challenge.now + 30
    requires IsClock(w.verify.freshAt)
    requires Token(w.challenge.challenge, w.challenge.now) !in s.guard.seen
    ensures PairFromQr(lib, phone, Encode(s.publicKey), s.code, s, w) == Verified
  {
    HonestRunExactly(lib, phone, s, w);
    FreshExactly(w.challenge.now, w.verify.freshAt, DESKTOP.window);
  }

  // ---- The laws ask for nothing impossible ----

  /** A library in which every law holds (and nothing is secret). */
  function PlainLibrary(toBytes: Payload -> seq<byte>, fromBytes: seq<byte> -> Option<Payload>): Library {
    Library(k => k, (a, b) => Some(seq(32, _ => 0)), k => k, (k, m) => seq(64, _ => 0), (k, m, g) => true,
            (k, n, text, aad) => Some(Sealed(text, seq(16, _ => 0))),
            (k, n, sealed: Sealed, aad) => Some(sealed.ciphertext),
            toBytes, fromBytes)
  }

  lemma LawsAreConsistent(toBytes: Payload -> seq<byte>, fromBytes: seq<byte> -> Option<Payload>)
    requires forall p :: toBytes(p) != [] && fromBytes(toBytes(p)) == Some(p)
    ensures Lawful(PlainLibrary(toBytes, fromBytes))
  {}
}
