# OpenBioUnlock: a verified model

OpenBioUnlock lets a phone approve a login on a workstation. A Rust daemon keeps the pending
login requests and checks the phone's signatures; a PAM module asks the daemon and reads its answer;
a Qt desktop server pairs phones, keeps session keys and a replay cache; a Flutter client signs the
challenges. This project models those parts in Dafny and proves what they keep over every run.

| module | models |
|---|---|
| `Hex`, `Timestamps` (Codec.dfy) | hex in three languages, big-endian timestamps, the replay token |
| `KeyStore` | the daemon's vault text |
| `DaemonCrypto`, `PendingMap`, `SharedMap`, `Numbering`, `Daemon` (Daemon.dfy) | signature checks, the locked map, the protocol as interleaved steps |
| `DaemonSafety`, `DaemonWaits`, `DaemonKeys` | what every interleaving keeps |
| `Replay` | the replay cache |
| `Crypto`, `Server` (Server.dfy), `ServerRuns` | the desktop server and its runs |
| `Phone`, `HonestRun` (Phone.dfy) | the phone and the whole conversation |
| `Framing` | lines over chunked streams |
| `Response`, `ReadBack` (Response.dfy), `Json` | the daemon's printed answers, and reading them back by field name |
| `Pam` | byte I/O and the recogniser of the printed answers |
| `Handlers`, `Unlock` (Unlock.dfy) | the daemon's other arms; PAM and daemon composed |
| `Proximity` | RSSI hysteresis |

Inputs from outside (clock readings, random bytes, vault and socket outcomes, the user's answer to the
biometric prompt) are parameters of each step. Cryptography and JSON objects are a record of functions
with their functional laws only: Ed25519 verify after sign (section 5.1 of RFC 8032), X25519
commutation (section 6.1 of RFC 7748), GCM decrypt after encrypt (section 7 of NIST SP 800-38D), parse
after render. A text is a sequence of bytes, one `char` per byte.

The daemon is a state machine because many connections interleave. Its critical sections are also
written as methods on a shared map of objects (`SharedMap`), and `Numbering.SectionsCommute` says that
replacing objects by call numbers does not change what a section does. An event that is not enabled has
no effect, so theorems about runs quantify over every list of events.

Arithmetic on the desktop's `qint64` timestamps is written out with wrap-around. C++ leaves two cases
undefined: the subtraction `timestamp - now` (src/core/crypto.cpp, line 44) for timestamps below
now - 2^63, and the absolute value of the difference -2^63. In both the model takes the two's complement
result.

## What differs from the documentation

- The repository's README.md (line 24) calls the pairing code one-time. It is, for requests that present a code.
  A spent code is stored as the empty string, and line 36 of src/core/server.cpp compares it like any other,
  so a request without a code pairs within the same five minutes (`SecondPairingWithoutCode`,
  `SpendsCodeExactly`).
- The same file (line 70) names an environment variable for the code's life time; the code always uses 300 seconds.
- The replay cache does not refuse every replay. It accepts one pair at most twice, and a third time once
  the clock is read two seconds apart in one call (`AcceptedAtMostTwice`, `ThreeWithTwoSeconds`).
- A signature that reaches the daemon after a request is inserted and before its waiter is armed is lost: the
  phone is told true and the workstation false (`EarlyApprovalIsLost`; `ApprovalReachesExactly` says exactly
  which approvals reach the workstation).
- A vault read that fails counts as an empty vault, so the next successful add forgets every other stored
  key (`UnreadableVaultForgets`, `AddKeepsExactly`).
- Two Pair calls that both read the vault before either writes it are both answered true, and the first key is
  lost (`BothPairedOneStored`; `WriteKeepsExactly` says exactly what each write keeps).
- The PAM module prints the user's name without escaping it, so the daemon reads the request as intended
  exactly for the names that need no escapes (`RequestReadsBack`).

## Model

| member | source | states |
|---|---|---|
| DaemonSafety.EveryGrantWasApproved | daemon/src/server.rs:106-144 | in every reachable state of every interleaving, colliding identifiers included, the Authorize calls answered true map injectively to Verify calls answered true, each of which approved that very request: it was checked at one step and flagged the request's entry at a later one, with the same nonce and timestamp and a valid signature found within 30 s of the timestamp, under a key that the vault held at the check, and that was there from the start or had been stored by then for a Pair request with a code |
| DaemonSafety.GrantsAreBounded | daemon/src/server.rs:106-144 | never more Authorize calls answered true than Verify calls answered true |
| DaemonSafety.ApprovalsAreDistinct | daemon/src/server.rs:137-142 | no request is approved by two Verify calls answered true |
| DaemonSafety.HistoryOf | daemon/src/server.rs:132-142 | a Verify answered true read the vault at one step, where its key is the first that verifies, and at a later one flagged the entry of its request |
| DaemonSafety.CheckAnswersExactly | daemon/src/server.rs:132-135 | a Verify gets past its check if and only if the vault can be read and some key in it verifies at its own clock reading |
| DaemonSafety.CommitApprovals | daemon/src/server.rs:136-142 | a commit flags an entry whose request no earlier Verify had flagged, wakes only that request and only from its armed waiter, and keeps ownership and justification |
| DaemonSafety.RemoveApprovals | daemon/src/server.rs:118-119 | a removal, which may drop another request's entry, never leaves the leaving request's own entry behind |
| DaemonSafety.InsertApprovals | daemon/src/server.rs:106-111 | an insertion, which may overwrite another request's entry, keeps every entry owned by the request that inserted it |
| DaemonSafety.StoreProvenance | daemon/src/store.rs:32-38 | under lost updates and failed reads, every key in the vault was there at the start or was stored for a Pair call with a code that is answered true |
| DaemonKeys.StoreWrites | daemon/src/store.rs:32-38 | in every run a successful store leaves in the vault what its own Pair call read, with the presented key, and that Pair call is answered true |
| DaemonKeys.WriteKeepsExactly | daemon/src/store.rs:32-38 | in every run a stored key survives a store if and only if that store's Pair call could read it or presented it |
| DaemonKeys.NothingIsForgotten | daemon/src/store.rs:32-38 | a Pair call that could read the vault and was not overtaken by another store keeps every key that was loadable before, and adds its own |
| DaemonKeys.BothPairedOneStored | daemon/src/store.rs:32-38 | two interleaved Pair calls that are both answered true and leave one key |
| DaemonSafety.RunKeeps | daemon/src/server.rs:84-152 | ownership of entries, justified wakes, justified flags and provenance of keys in every reachable state |
| DaemonSafety.ChallengesAreLive | daemon/src/server.rs:123-130 | a Challenge hands out the nonce and timestamp of a request not yet answered |
| DaemonWaits.PendingIsExact | daemon/src/server.rs:111-118 | if no identifier is drawn while pending, the map's domain is exactly the identifiers of the requests in flight, no two share one, and a woken request finds its flag set |
| DaemonWaits.AnsweredTrueExactly | daemon/src/server.rs:111-119 | under the same condition an Authorize is answered true if and only if its entry was flagged while its waiter was armed and the flag was then read before the timeout |
| DaemonWaits.AnsweredTrueInAnyRun | daemon/src/server.rs:111-119 | in every run, colliding identifiers included, an Authorize is answered true if and only if its entry was flagged while its waiter was armed and it then found a flagged entry under its identifier before the timeout |
| DaemonWaits.ReadsOnce | daemon/src/server.rs:113-116 | under the same condition the wait loop reads the flag at most once |
| DaemonWaits.FlagIsPermanent | daemon/src/server.rs:138-139 | the flag of a request's entry is never taken back |
| DaemonWaits.EarlyApprovalIsLost | daemon/src/server.rs:111-117 | a commit between insertion and arming ends with the Verify true and the Authorize false |
| DaemonWaits.ApprovalReachesExactly | daemon/src/server.rs:111-142 | a Verify answered true grants its request, once that is answered, if and only if it committed while the waiter was armed and the request then found the flag |
| DaemonWaits.VerifiedTrueExactly | daemon/src/server.rs:135-143 | a Verify is answered true if and only if, after its check, its commit finds an unflagged entry under its identifier with its nonce and timestamp |
| DaemonCrypto.Verify | daemon/src/crypto.rs:29-46 | the in-place 40-byte payload is the nonce and the eight big-endian bytes, and every guard gives its own error |
| DaemonCrypto.ValidSignatureBinds | daemon/src/crypto.rs:25-46 | a signature that checks was checked within 30 s and over exactly one nonce and timestamp |
| DaemonCrypto.VerifiesExactly | daemon/src/crypto.rs:25-46 | exactly which signatures are valid, and which are stale, in numbers |
| SharedMap.SharedState.Insert | daemon/src/server.rs:108-111 | the new entry is unflagged, owns a new Notify and replaces an entry of the same identifier |
| SharedMap.SharedState.Commit | daemon/src/server.rs:136-142 | succeeds exactly on a matching unflagged entry, flags it, wakes its own waiter if one is armed, and changes nothing otherwise |
| SharedMap.SharedState.First | daemon/src/server.rs:124-129 | some entry of the map, or none exactly when the map is empty |
| Numbering.SectionsCommute | daemon/src/server.rs:44-51 | numbering the Notify objects commutes with every critical section |
| Daemon.FindEvidence | daemon/src/server.rs:132-135 | finds the first stored key that verifies at its own clock reading, or none of them does |
| Handlers.TryKeys | daemon/src/server.rs:135 | the loop over the keys finds the first key that verifies |
| Handlers.HandlePair | daemon/src/server.rs:93-105 | which of the four answers is given; accepted means the vault loads to its old keys and this one, every other answer leaves it unchanged |
| Handlers.HandleChallenge | daemon/src/server.rs:123-130 | an error exactly when nothing is pending, otherwise the identifier, nonce and timestamp of one entry |
| Handlers.ChallengeReadsBack | daemon/src/server.rs:123-142 | a phone that reads the printed challenge by its field names and answers with them names exactly the entry handed out |
| KeyStore.TextRoundTrip | daemon/src/store.rs:24-38 | loading the newline-joined hex of any list of 32-byte keys returns that list |
| KeyStore.LinesExactly | daemon/src/store.rs:26 | how a vault text splits into lines, with and without carriage returns and a last newline |
| KeyStore.ParsesExactly | daemon/src/store.rs:26-29 | the lines load if and only if each is empty or 64 hex digits, to the bytes of the non-empty ones in order; otherwise the first bad line is the error |
| KeyStore.SerialAdds | daemon/src/store.rs:32-38 | after any serial run of adds from an empty vault, the loaded list is the added keys without repetitions in order of first occurrence |
| KeyStore.KeyStore.AddPublicKey | daemon/src/store.rs:32-38 | the error of a failed load or write, the vault unchanged then, and otherwise a vault that loads to the old keys and this one |
| KeyStore.UnreadableVaultForgets | daemon/src/store.rs:25-36 | a vault with one key that an add forgets because it cannot read it |
| KeyStore.AddKeepsExactly | daemon/src/store.rs:25-38 | an add keeps every stored key if and only if the vault can be read or holds no other key |
| Replay.ReplayGuard.Accept | src/core/crypto.cpp:45 | the method's answer and new state are those of the cache's specification |
| Replay.FreshExactly | src/core/crypto.cpp:44 | freshness in wrapped 64-bit arithmetic is membership in an interval, for every timestamp |
| Replay.DesktopFreshness | src/core/crypto.cpp:44 | the desktop's window is 30 seconds either way |
| Replay.DesktopAcceptsExactly | src/core/crypto.cpp:45 | exactly which calls the desktop accepts and what they leave in the cache: a remembered pair only when the last wipe is more than 60 seconds ago |
| Replay.AcceptedAtMost | src/core/crypto.cpp:44-45 | for every window W, period P and delay D between the two clock readings, one pair is accepted at most 2 + floor((2W-1+D)/(P+1)) times in any run from any cache |
| Replay.AcceptedAtMostTwice | src/core/crypto.cpp:44-45 | with W = 30, P = 60 and D at most 1, at most twice |
| Replay.BoundIsReached | src/core/crypto.cpp:44-45 | from every cache that does not hold the pair, some run reaches the bound exactly |
| Replay.ThreeWithTwoSeconds | src/core/crypto.cpp:45 | with D = 2 some run accepts a pair three times |
| Replay.AcceptedAgainExactly | src/core/crypto.cpp:45 | after an acceptance that leaves the last wipe at L, the pair can be accepted again if and only if L + P is before the last instant at which it can be found fresh |
| Replay.RemembersExactly | src/core/crypto.cpp:45 | the cache holds exactly the tokens accepted since the last wipe |
| Replay.AcceptedExactly | src/core/crypto.cpp:45 | a call is accepted if and only if its nonce is not empty, it is fresh, and it wipes or no call since the last wipe was accepted with its token |
| Replay.RemembersRecent | src/core/crypto.cpp:45 | every remembered token was fresh near the last wipe L: a timestamp that a clock can show lies between L - W - D and L + P + W |
| Timestamps.TimestampBytes | src/core/server.cpp:13 | the shift loop yields the eight base-256 digits, for negative timestamps too |
| Timestamps.TimestampBytesMeaning | src/core/server.cpp:13 | the bytes encode the timestamp modulo 2^64 and every 64-bit timestamp is recovered from them |
| Timestamps.PayloadInjective | src/core/server.cpp:42 | nonce followed by the bytes determines both, for nonces of any lengths |
| Timestamps.UnsignedPayloadInjective | daemon/src/crypto.rs:42-44 | the same for the daemon's unsigned timestamps |
| Timestamps.TokenCollision | src/core/crypto.cpp:45 | exactly which pairs share a replay token |
| Timestamps.TokenInjective | src/core/crypto.cpp:45 | nonces of equal length, or timestamps that print equally long, never share a token |
| Timestamps.TokenCollisionExists | src/core/crypto.cpp:45 | nonces of different lengths can share one |
| Hex.RoundTrip | mobile/lib/crypto_service.dart:88-99 | what the shared encoder writes, all three decoders read back |
| Hex.DecodersAgree | mobile/lib/crypto_service.dart:90-99 | Dart and Qt agree with the strict decoder wherever it succeeds |
| Hex.StrictAcceptsExactly | daemon/src/server.rs:133-134 | the strict decoder accepts exactly the even-length texts of hex digits |
| Hex.DecodeFails | daemon/src/server.rs:133-134 | an odd length is reported first, otherwise the first character that is no hex digit |
| Hex.EncodeDecode | daemon/src/store.rs:27-35 | what it decodes encodes back to the same text in lower case |
| Hex.FromHex | mobile/lib/main.dart:128 | the Dart loop computes its specification, failures included |
| Hex.DecodersDiffer | mobile/lib/main.dart:128 | one text that the three decoders read in three ways |
| Hex.DecodersAgreeExactly | mobile/lib/crypto_service.dart:90-99 | the three decoders return the same bytes if and only if the text is even-length hex digits |
| Hex.DartReadsSigns | mobile/lib/main.dart:128 | a sign in place of a first digit, which only Dart reads |
| Timestamps.HexIsBase16 | daemon/src/store.rs:27 | decoded bytes are the number that the digits write in base 16 |
| Timestamps.QtIsBase16 | src/core/server.cpp:35 | Qt reads the digits it finds as one number, odd counts included |
| Server.Server.Start | src/core/server.cpp:15-23 | a running or keyless server is unchanged; a start that fails to listen has replaced the code |
| Server.Server.PairingPayload | src/core/server.cpp:27 | shows a non-empty code: a newly drawn one exactly when there was none or it was more than 300 s old, otherwise the old one, at most 300 s old |
| Server.CodeWritesDraw | src/core/server.cpp:18 | the code is the drawn 64-bit number in 16 lower-case hex digits, so different draws give different codes |
| Server.Server.Pair | src/core/server.cpp:34-37 | the reply and the whole new state of a pair request |
| Server.Server.VerifyChallenge | src/core/server.cpp:42 | the verdict and the new cache: the cache is asked before the signature |
| Server.Server.ProcessLine | src/core/server.cpp:31-48 | the reply and the whole new state for every line |
| Server.DecryptsExactly | src/core/server.cpp:48 | exactly which envelopes the server opens |
| ServerRuns.TablesAlwaysMatch | src/core/server.cpp:36-37 | in every reachable state the two key tables have the same devices and only 32-byte keys |
| ServerRuns.PairingEffect | src/core/server.cpp:36-37 | exactly which pair requests are accepted; a rejected one changes nothing, an accepted one spends the code and writes one device's two keys |
| ServerRuns.EachCodePairsOnce | src/core/server.cpp:18-37 | accepted pairings that present a code map injectively to the events that issued the codes, each at most 300 s before |
| ServerRuns.SpendsCodeExactly | src/core/server.cpp:36-37 | an accepted pairing has an outstanding issued code if and only if it presents a non-empty one |
| ServerRuns.OldCodeIsRefused | src/core/server.cpp:18-36 | in every run, until another code is issued, a request with the code of any other draw than the last is rejected and changes nothing |
| ServerRuns.SecondPairingWithoutCode | src/core/server.cpp:36-37 | a concrete run that pairs a second device without a code |
| ServerRuns.AuthorizedReplyMeans | src/core/server.cpp:40-48 | behind a reply the device reads as authorized stand an envelope that opens under its current session key with its identifier, a valid signature under its current signing key, and an accepted pair |
| ServerRuns.AuthorizesAtMostTwice | src/core/server.cpp:42 | over any run one nonce and timestamp authorizes at most twice, all devices together |
| ServerRuns.WrongSignatureSpendsTheNonce | src/core/server.cpp:42 | in every run, after a fresh verify request with any signature no later request of any device is authorized for that nonce and timestamp before the cache is wiped; until another call wipes it, one is authorized if and only if it is fresh, correctly signed and wipes the cache itself |
| Phone.CryptoService.Initialize | mobile/lib/crypto_service.dart:18-40 | the result and the new contents of memory and storage, after an initialization that fails half-way too |
| Phone.CryptoService.EstablishSession | mobile/lib/crypto_service.dart:56-62 | initializes first; the session key changes only when that, key decoding and agreement succeed, and never without an exchange key |
| Phone.CryptoService.SignChallenge | mobile/lib/crypto_service.dart:42-51 | refuses other than 32-byte nonces untouched, initializes, and signs nonce and bytes only if the user approves |
| Phone.CryptoService.EncryptEnvelope | mobile/lib/crypto_service.dart:64-71 | the envelope of the session key, or a failure without one |
| Phone.CryptoService.DecryptEnvelope | mobile/lib/crypto_service.dart:73-81 | opens only envelopes of its own device under the session key |
| Phone.SeedSurvivesRestart | mobile/lib/crypto_service.dart:19-30 | a stored seed is loaded whatever would be generated now |
| Phone.RestartLoadsSameKeys | mobile/lib/crypto_service.dart:18-40 | memory and storage always agree, a restart loads the same keys, and a signing key in memory stops every later initialization |
| HonestRun.ServerOpens | src/core/server.cpp:48 | the server opens what the phone seals |
| Phone.PhoneOpens | mobile/lib/crypto_service.dart:73-81 | the phone opens what the server seals |
| Phone.OpensExactly | mobile/lib/crypto_service.dart:73-81 | exactly which envelopes the phone opens |
| Phone.EnvelopesStayWithTheirDevice | mobile/lib/crypto_service.dart:75 | what the server seals for one device every other identifier refuses |
| HonestRun.HonestPairing | mobile/lib/main.dart:63-72 | both sides derive the same session key, and pairing is accepted exactly while the code is at most 300 s old |
| HonestRun.HonestSignature | mobile/lib/main.dart:78-86 | the signed bytes are the verified bytes, so the answer is the replay cache's |
| HonestRun.HonestRunExactly | mobile/lib/main.dart:59-91 | the outcome of the whole conversation, exactly, for every server state and every input |
| HonestRun.HonestRunSucceeds | mobile/lib/main.dart:59-91 | verified when paired within 300 s, approved, answered within 30 s and not remembered |
| Framing.Buffers.ReadClient | src/core/server.cpp:29 | one readyRead hands over the trimmed non-empty lines of buffer and input, keeps the rest, and touches no other socket |
| Framing.ChunksDoNotMatter | src/core/server.cpp:29 | however the stream is cut, lines and leftover are those of the whole stream, and no newline is left over |
| Framing.SplitExactly | src/core/server.cpp:29 | lines with their newlines and the leftover are the stream, and hold no other newline |
| Framing.SplitIsUnique | src/core/server.cpp:29 | only one way of splitting does that |
| Framing.TrimExactly | src/core/server.cpp:29 | what trimming cuts off, and that nothing more is left to cut |
| Framing.HandsOverExactly | src/core/server.cpp:29 | a line is handed over if and only if it holds something other than blanks |
| Framing.ReadLine | mobile/lib/main.dart:29-37 | the line does not depend on the chunks; the bytes that follow it in its chunk are dropped |
| Response.PrintIsPrintable | daemon/src/server.rs:147-148 | no printed response holds a newline, a NUL or another control character |
| Response.EscapeIsWellEscaped | daemon/src/server.rs:147 | in escaped text every quote follows a backslash |
| ReadBack.PrintReadsBack | daemon/src/server.rs:29-40 | a reader by field names gets from every printed response its type and every field under its own name, whatever texts it carries |
| ReadBack.ReadsEscaped | daemon/src/server.rs:147 | unescaping undoes escaping for every text |
| Pam.WriteAll | linux-pam/pam_openbiounlock.c:22-31 | succeeds exactly when the kernel takes enough, having sent exactly the data in order; otherwise exactly the bytes taken were sent; when it fails rather than waits, a zero-byte write after an earlier interruption being retried |
| Pam.ReadLine | linux-pam/pam_openbiounlock.c:33-45 | succeeds exactly when a newline arrives at an index of at most capacity - 2, stores the bytes before it and consumes nothing after it; when it fails rather than waits |
| Pam.RecognisesExactly | linux-pam/pam_openbiounlock.c:47-51 | the two-substring test holds of a printed response if and only if it is Authorized(true), for every error message and challenge text |
| Pam.RecognisesWhatIsRead | linux-pam/pam_openbiounlock.c:47-51 | on every printed response the test says what a reader of its fields would |
| Pam.RecognisesLine | linux-pam/pam_openbiounlock.c:47-51 | on any line without a NUL the test holds if and only if both texts can be cut out of it |
| Pam.StopsAtNul | linux-pam/pam_openbiounlock.c:47-51 | what follows the first NUL does not count |
| Pam.GrantsExactly | linux-pam/pam_openbiounlock.c:67-70 | on the daemon's byte stream PAM grants if and only if the response is Authorized(true) |
| Pam.Authenticate | linux-pam/pam_openbiounlock.c:53-71 | PAM_SUCCESS exactly when user, socket, request size (512), sending and the first line (within 1024 bytes) all hold; what was sent in every case, and after success exactly the request |
| Pam.RequestReadsBack | linux-pam/pam_openbiounlock.c:66 | the request reads as an authorize request of this user if and only if the name needs no escapes, and then is one line with nothing left over |
| Unlock.GrantNeedsApproval | linux-pam/pam_openbiounlock.c:67-70 | if PAM grants on the daemon's answer to a request, some Verify approved that very request, under a key the vault held at its check |
| Unlock.GrantedExactly | linux-pam/pam_openbiounlock.c:67-70 | in every run PAM grants if and only if the entry was flagged while the waiter was armed and the request then found the flag before the timeout; with fresh identifiers, if and only if it then read the flag |
| Proximity.BleService.OnScanResults | mobile/lib/ble_service.dart:23-31 | the listener's map and events after any batch of results |
| Proximity.DevicesAreIndependent | mobile/lib/ble_service.dart:24-28 | a device's flag moves by its own samples alone |
| Proximity.EventsFollowResults | mobile/lib/ble_service.dart:23-29 | one event for each result that offers the service, in order; the others change nothing |
| Proximity.LastEventCarriesFlag | mobile/lib/ble_service.dart:28-29 | the last event of a device carries its flag |
| Proximity.HysteresisExactly | mobile/lib/ble_service.dart:26-27 | the last sample outside [far, near) decides the flag for every sample sequence if and only if far is not above near |

## Left out

- OpenSSL, dalek and Dart cryptography, key generation and the buffers of the GCM wrappers: foreign calls, kept as functional laws and length guards.
- Secrecy and unforgeability: no claim about attackers is made.
- The desktop server does not record the challenges it issues, so no theorem binds its verify requests to one; only the daemon binds a signature to a pending request.
- JSON parsing and number conversion: lines and envelopes carry parsed objects; as text only what the daemon's socket carries to and from PAM is modelled: the printed responses and the authorize request.
- Handing the lines of readClient to processLine: both sides are modelled, on text and on parsed requests, and the parser between them is not.
- The 30-second length of the daemon's wait: a timeout may come at any moment at which the request waits.
- The daemon's Authorize arm when random bytes cannot be drawn, malformed requests and dropped connections: they do not touch the map or the vault.
- Answers count when they are decided; the order in which different connections write them is not modelled.
- JSON with blanks, nested values, signed or fractional numbers, and `\u` escapes above 7f: `Json` reads only flat objects as serde_json and the PAM module print them.
- Clock readings beyond 2^62 seconds, and replay policies whose window, period or delay exceed 2^59 seconds.
- Calls that succeed but change `errno`: in `write_all` only an interruption sets it to EINTR, and a successful call leaves it alone.
- Whitespace that Dart's `int.tryParse` also accepts around a digit, and `utf8.decode` errors in `_readLine`.
- `pairFromQr` listens to its socket once per line, while a Dart socket can be listened to once; the model exchanges the messages and leaves the socket's life out, with timeouts, widget state and the QR payload's field checks.
- UDP discovery, Qt windows, tray, QR drawing, BLE scanning and GATT, platform vault calls, the Windows credential provider, build and packaging scripts, and proto/auth.proto: I/O and glue.
