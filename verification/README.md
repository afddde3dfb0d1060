# Verified model of SecureVault and its relay backend

This project models, in Dafny, the two halves of the repository and proves what they are for.

* **The relay backend** (JavaScript, `backend/`): a certificate authority, user registration, onion packets built in
  nested layers and peeled by three relays, a table of nonces against replay, and messages whose rows end in a final
  status. `Relay` is the whole of it as a state machine over its tables; `Backend.Server` is the same in the form the
  source has, one object whose methods rewrite the tables step by step, each proved to do what `Relay` and `PkiService`
  say. `RelayRuns`, `RelayLifetimes`, `RelayDelivery` and `RelayReplay` hold the properties of every run.
* **The SecureVault tool** (Python, `securevault/`): canonical JSON and certificates, a certificate authority kept in
  four files, hybrid encryption, password-protected keys, schema validators and a nonce cache.
  `CertificateAuthority.Authority` and `KeyStore.KeyManager` have the source's imperative form; `PyAuthority` is the
  authority as functions of its files, where every call may stop between any two of its effects.

Serialisation is concrete throughout: JSON printing and parsing for both languages (section 25.5.2 of ECMA-262,
section 7 of RFC 8259), UTF-8 with its replacement characters (section 3 of RFC 3629), Node's truncating hex, URL-safe
base64 as Python decodes it (section 5 of RFC 4648), and indented JSON files. Cryptography is not: `Libraries` and
`PyLibraries` are records of functions with correctness laws only, each with an instance showing that the laws are
consistent, and `Signing` is a ledger in which a signature verifies exactly when that key made it. Randomness, fresh
keys and clock readings are arguments, and each clock reading is a separate one.

Conventions: a `Text` is a sequence of code points (a JavaScript string has only 16-bit ones). A JSON number is the
token the language prints for it, so two numbers are equal when their tokens are. An object is its list of fields in
insertion order. Row ids count from 1. A Python clock reading counts units of 2^-22 seconds.

## What was found

* Canonical JSON in JavaScript passes the sorted top-level names as an allowlist for nested objects too, so different
  nested objects can have the same text (`JsCanonical.NestedObjectsCollide`); it is faithful exactly when every nested
  name also occurs at the top (`JsCanonical.CanonicalFaithfulExactly`). Certificates are flat, so they are bound.
* `ReplayProtector` reads the clock before it takes the lock and again under it. A pair can be accepted twice, exactly
  when its stamp, and every other under which its nonce was accepted, is too old for the second reading but not for
  the first (`ReplayProtector.SecondAcceptanceExactly`, `SecondAcceptanceHappens`).
* The relay accepts stamps up to 60 seconds ahead but remembers a nonce for 60 seconds from its store. So a delivered
  packet can be delivered again exactly when it was stamped later than it was stored (`RelayReplay.RepeatableExactly`,
  `SecondDeliveryExactly`, and `FutureStampIsDeliveredTwice` for an honest packet). This is about whole packets: the
  nonce and the stamp are outside every layer, so a body under another nonce and a current stamp is a new packet
  (`RelayReplay.SameBodyAgainExactly`, `BodyIsNotOnce`).
* The JavaScript authority makes a new key at each start but keeps the relay nodes and their certificates. A
  certificate verifies only in the process that issued it (`RelayLifetimes.NodeIsValidExactly`, `UserIsValidExactly`),
  so after a start over existing nodes no later step delivers anything (`RelayDelivery.RestartStopsDelivery`).
* A first start that dies between the rows of two relay nodes leaves a table over which every later start fails
  (`RelayLifetimes.InterruptedStartIsStuckExactly`, `StuckIsForever`).
* A revocation is lost by a start exactly when no save of the list succeeded between it and that start
  (`RelayLifetimes.RevocationLastsExactly`), and serials of users repeat from one process to the next, exactly by their
  rank in it (`RelayLifetimes.SameSerialExactly`).
* A username with a lone surrogate is stored as UTF-8, so the row's name differs from the subject of the certificate
  issued with it (`RelayRuns.RowsAreBound`); message content is changed in the same way (`SendExactly.SendDecided`).
* Interrupting `init_ca` after `ca_cert.json` and before `serial.json` leaves an authority that can neither be
  initialised again nor issue anything, for ever (`PyAuthorityRuns.InterruptedInitIsStuckExactly`, `StuckIsForever`).
* A certificate request that fails its checks in `create_cert` still uses up a serial
  (`PyAuthorityRuns.CounterMovesExactly`): serials are unique and increasing, not consecutive.
* An empty plaintext encrypts and decrypts, but `validate_encrypted_message` refuses it
  (`Envelope.EncryptedIsAcceptedExactly`).
* `b64_decode` is documented to take unpadded text. It does so exactly when there was no padding to remove
  (`Base64.UnpaddedExactly`).
* `docs/ARCHITECTURE.md` line 113 says that decryption consults the replay protector. `decrypt_message` does not, and
  the model follows the code.

## Model

| member | source | states |
|---|---|---|
| Json.RoundTrip | securevault/pki_utils.py:72 | for both languages, parsing printed JSON gives back the value, field order included, for any nesting and any string the language holds |
| Printed.CharIs | securevault/pki_utils.py:72 | how each character is printed, in both languages: as itself, as one of the seven two-character escapes, or as escapes of code units with four lower-case digits |
| Printed.PrintSize | securevault/pki_utils.py:72 | printed JSON is exactly as long as its tokens and their single separators, so no space is added |
| Printed.PythonIsAscii | securevault/pki_utils.py:72 | Python prints only ASCII, whatever is inside |
| Printed.SurroundedExactly | securevault/pki_utils.py:250-265 | a printed value with white space before it reads back if and only if only tabs, newlines, returns and spaces follow |
| Decimal.DigitIs | backend/services/encryptionService.js:58-63 | the digit of a printed integer with i digits after it is that of the i-th power of ten |
| Utf8.RoundTrip | backend/services/relayEngine.js:125 | text whose surrogates are paired survives the trip to bytes and back |
| Utf8.SurvivesExactlyWhenWellFormed | backend/services/encryptionService.js:111 | a JavaScript string survives Buffer.from and toString if and only if it has no lone surrogate |
| Utf8.ScalarBytes | backend/services/encryptionService.js:111 | how many bytes a scalar value takes, their markers, and that their bits make up the value |
| Utf8.LoneSurrogate | backend/services/encryptionService.js:111 | a surrogate without its other half is written as the replacement character |
| MaximalSubparts.StepIsMaximal | backend/services/relayEngine.js:125 | from any bytes the decoder reads a scalar value whose encoding stands there, or else writes one replacement character for the longest bytes that begin an encoding |
| Stringify.PrintIsWellFormed | backend/services/encryptionService.js:58-63 | printed JSON has no lone surrogate, whatever strings are inside |
| Stringify.BytesDecideValue | backend/services/encryptionService.js:69-74 | the UTF-8 bytes of printed JSON are equal exactly when the values are |
| Hex.RoundTrip | backend/services/encryptionService.js:118-123 | Node's hex decoder inverts its encoder on all bytes |
| Hex.StopsExactly | backend/services/relayEngine.js:116-123 | decoding stops at the first pair that is not two digits, whatever follows, and drops an odd last digit |
| Base64.Encode | securevault/crypto_utils.py:291-304 | the encoding of n bytes is ASCII of length 4 times n/3 rounded up |
| Base64.RoundTrip | securevault/crypto_utils.py:291-318 | decoding inverts encoding for all byte strings |
| Base64.EncodingIsUrlSafe | securevault/crypto_utils.py:291-304 | an encoding is letters of the URL-safe alphabet, with no plus sign or slash, then only the padding of its last group |
| Base64.StandardReads | securevault/crypto_utils.py:307-318 | the same text in the standard alphabet decodes the same |
| Base64.SkipsForeign | securevault/crypto_utils.py:307-318 | an ASCII character of neither alphabet, anywhere in the text, makes no difference |
| Base64.UnpaddedExactly | securevault/crypto_utils.py:307-318 | an encoding stripped of its padding decodes if and only if it had none, and is refused otherwise |
| Indented.RoundTrip | securevault/pki_utils.py:234-265 | a file written by json.dumps with indentation reads back as the value written |
| CanonicalJson.CanonDecidesSame | securevault/pki_utils.py:52-72 | sorting the fields at every depth identifies exactly the values equal as dictionaries |
| CanonicalJson.CanonicalReadsBack | securevault/pki_utils.py:52-72 | canonical text reads back as the value, up to field order |
| CanonicalJson.CanonicalDecidesSame | securevault/pki_utils.py:52-72 | two values have the same canonical text if and only if they are equal as dictionaries |
| CanonicalJson.BeforeComesFirst | securevault/pki_utils.py:72 | the order of names is that of the first code point in which they differ, a prefix first |
| CanonicalJson.CanonicalIsSorted | securevault/pki_utils.py:72 | in the value read back from canonical text the names of every object, at every depth, ascend in that order |
| CanonicalJson.PythonStringExactly | securevault/pki_utils.py:62-72 | a Python string survives printing and parsing if and only if it holds no surrogate pair; two strings print alike if and only if they are equal once their pairs are joined |
| JsCanonical.ProjectKeepsExactly | backend/services/pkiService.js:272-274 | the allowlist keeps a value, up to field order, exactly when every name inside it is allowed |
| JsCanonical.CanonicalFaithfulExactly | backend/services/pkiService.js:272-274 | canonical text reads back as the object if and only if every nested name is also a top-level name |
| JsCanonical.CanonicalDecidesSame | backend/services/pkiService.js:272-274 | on such objects equal texts mean equal objects, whatever the insertion order |
| JsCanonical.CanonicalIsSorted | backend/services/pkiService.js:272-274 | so do the names of every object in the JavaScript text |
| JsCanonical.NestedObjectsCollide | backend/services/pkiService.js:272-274 | two different nested objects with the same canonical text |
| Onion.PeelInvertsBuild | backend/services/encryptionService.js:65-74 | for any number of relays and any well-formed text, peeling a built packet returns that text |
| Onion.BuiltPeelsExactly | backend/services/relayEngine.js:51-60 | a packet built for any number of relays peels to its text if and only if every relay certificate is valid, and is refused for a certificate otherwise |
| Onion.EncryptedCarries | backend/services/encryptionService.js:106-124 | a layer wraps the fresh key for its relay and holds the IV and the text sealed under that key |
| Onion.LayersCarry | backend/services/encryptionService.js:65-74 | while a built packet is peeled, relay k meets a layer that carries its own fresh key, over the rest of the packet |
| Onion.ProcessedExactly | backend/services/relayEngine.js:107-126 | any layer at all gives a relay a text if and only if the relay is certified, the four fields decode, the key unwraps, the sizes are 32, 12 and 16, and the text is that of the unsealed bytes |
| Onion.PeelNeedsEveryCertificate | backend/services/relayEngine.js:107-113 | one invalid relay certificate anywhere in the path makes peeling fail, whatever the packet |
| Onion.ThreeIsAnInstance | backend/services/relayEngine.js:51-60 | the code's three straight-line layers, built and peeled, are the case n = 3 |
| Onion.LayerSize | backend/services/encryptionService.js:118-123 | a printed layer is ASCII and its size is that of its parts in hex plus 50 |
| Onion.BuiltSize | backend/services/encryptionService.js:65-74 | n layers over L bytes print as 2^n L + 618 (2^n - 1) bytes |
| Payload.PayloadReads | backend/services/encryptionService.js:58-63 | any message, lone surrogates included, comes back from the payload text with its signature, its sender and the serial number of the sender's certificate, under their names |
| Payload.PayloadBound | backend/services/encryptionService.js:58-63 | each code unit of a message adds at most six bytes to the payload |
| Payload.PacketBound | backend/middleware/validator.js:92 | a message within the 10 000 limit makes a packet of at most 488 910 bytes plus eight per digit of the two ids |
| PkiService.LoadInvertsStored | backend/services/authService.js:73-75 | a certificate stored as JSON loads as it was |
| PkiService.WholeFields | backend/services/pkiService.js:95-124 | a certificate holds each of its values under its name, with version 1 and the issuer DarkTunnel-CA |
| PkiService.SignedTextBinds | backend/services/pkiService.js:109 | the signed text of two certificates is equal if and only if they agree on every field but the signature |
| PkiService.SignedBytesBind | backend/services/pkiService.js:109-110 | so are the signed bytes |
| PkiService.CrlFileReadsBack | backend/services/pkiService.js:280-307 | the saved revocation list reads back as the list in memory |
| PkiService.SignedIsValidExactly | backend/services/pkiService.js:133-163 | a certificate that the authority's present key signed, stored and loaded, is valid if and only if it is unrevoked and inside its dates |
| PkiService.AnswersExactly | backend/services/pkiService.js:133-163 | when verifyCertificate gives each of its six answers, for any certificate |
| PkiService.SignedAnswersExactly | backend/services/pkiService.js:133-163 | what a certificate that the present key signed verifies as at any time: the first test it fails |
| PkiService.CaCertificateVerifies | backend/services/pkiService.js:203-225 | the authority's own certificate names it as subject and issuer over its own key, under serial 1000 and for ten years, and verifies accordingly after any start |
| Registration.RefusedExactly | backend/services/authService.js:40-60 | each refusal of a registration, by lengths 3, 30 and 8, a taken name or no authority, as an if and only if; a refused registration changes nothing |
| Registration.RegisteredAs | backend/services/authService.js:62-81 | a registration adds one row, whose number is the returned id, with the name as its column keeps it, the new keys and a certificate for one year under the next serial that loads as returned |
| Registration.GeneratedExactly | backend/controllers/pkiController.js:24-35 | a new certificate goes to existing users of a running server only, and replaces nothing but the old one |
| NonceTable.PurgedTableIsHistory | backend/services/relayEngine.js:140-149 | after a purge the table holds exactly the nonces delivered since the cutoff |
| RelayInvariants.SendFrame | backend/services/messageService.js:31-95 | sending changes only the nonces, the ledger by one signature of the sender, and adds settled rows |
| RelayInvariants.RestartKeeps | backend/services/pkiService.js:54-77 | a start, wherever it dies, keeps users, messages and existing nodes, takes the new key and loads the saved list; the server is up exactly when all nodes were there or all get made |
| RelayInvariants.StepKeeps | backend/services/relayEngine.js:36-97 | every step keeps the invariant: rows bound to names and keys, distinct keys, node serials below the counter, no pending message, no repeated revocation |
| RelayRuns.RowsAreBound | backend/controllers/pkiController.js:26-35 | in every reachable state each user's certificate names that row's key and user, verbatim if and only if the name it was issued for is well formed; every node has its own name and key and a serial above the authority's and, while the server is up, below the counter |
| RelayRuns.MessagesStay | backend/services/messageService.js:43-94 | in every run no row is left pending after its step, and no later step changes a row |
| RelayRuns.LedgerIsExplained | backend/services/encryptionService.js:55 | in every run whatever a user's key has signed is the UTF-8 text of a message that user sent |
| RelayRuns.DeliveriesAreAuthentic | backend/services/relayEngine.js:62-96 | in every run, arbitrary packets included, a delivery for a sender carries bytes that sender's key signed for a message they sent, with a valid unrevoked certificate |
| RelayRuns.SerialsIncrease | backend/services/pkiService.js:95 | within one lifetime later certificates have larger serials, and larger than any node's |
| RelayRuns.RevocationIsPermanent | backend/services/pkiService.js:172-178 | while saves succeed, the file read back equals the list in memory and the list only grows, over restarts too |
| RelayRuns.RevocationOutlivesFailedSaves | backend/services/pkiService.js:297-307 | without a restart the list grows even when saves fail |
| RelayReplay.TableDecidesAsHistory | backend/services/relayEngine.js:140-149 | in every run the purged table refuses exactly the nonces that the unpurged history of deliveries refuses |
| RelayReplay.NoReplay | backend/services/relayEngine.js:135-186 | two deliveries under one nonce are more than 60 000 ms apart, first store to second purge, and a repeated stamp lies after the first store |
| RelayReplay.DeliveredAtMostOnce | backend/services/relayEngine.js:159-186 | a packet not stamped in the future is delivered at most once in the whole run |
| RelayReplay.DeliveredInRunExactly | backend/services/relayEngine.js:135-186 | at any step of any run a submitted packet whose body passes is delivered if and only if its stamp is in the window and no delivery under its nonce was stored within a window before the purge |
| RelayReplay.SecondDeliveryExactly | backend/services/relayEngine.js:140-185 | after a delivery, for any ordered clock readings, the same packet is delivered again if and only if a full window has gone by since its store and its stamp is still in the window |
| RelayReplay.RepeatableExactly | backend/services/relayEngine.js:164-185 | some later time delivers the same packet again if and only if it was stamped later than it was stored |
| RelayReplay.FutureStampIsDeliveredTwice | backend/services/relayEngine.js:164-168 | an honest packet stamped ahead, while its certificates hold, is delivered when submitted and again a window after its store |
| RelayReplay.SameBodyAgainExactly | backend/services/relayEngine.js:37-43 | a delivered body under any nonce and stamp is delivered again if and only if that nonce and stamp pass |
| RelayReplay.BodyIsNotOnce | backend/services/relayEngine.js:37-43 | such a nonce and stamp always exist |
| SendExactly.PayloadAnswersExactly | backend/services/relayEngine.js:62-96 | for any text out of the last layer, when it is delivered, rejected, or an error, by its sender, certificate and signature |
| SendExactly.InspectDecided | backend/services/relayEngine.js:52-96 | a packet built over any content, signature and sender is delivered if and only if the certificates are valid and the sender's key made this very signature, and is rejected without either |
| SendExactly.SubmittedExactly | backend/services/relayEngine.js:36-97 | the answer of processPacket to such a packet under any nonce and stamp, and the nonces afterwards: those of the last 60 000 ms, and its own only if it was delivered |
| SendExactly.HonestInspect | backend/services/relayEngine.js:52-96 | an honest packet passes inspection as its sender's message if and only if all relay certificates and the sender's are valid; which of them fails decides between an error and a rejection |
| SendExactly.SendDecided | backend/services/messageService.js:43-94 | the final status of a send, its result with the reason, the row and the nonces it leaves, as an exact function of certificate validity, freshness and stamp; delivered content is the submitted content, as its column keeps it |
| SendExactly.SendRefusedExactly | backend/services/messageService.js:31-41 | in any state a send changes nothing if and only if its user is missing or has no certificate, and says which; otherwise it leaves one row |
| SendExactly.SendStores | backend/services/messageService.js:50-60 | the row of a send holds the packet that was sent, with its version, nonce, stamp and layers, and its layers peel to the payload of that send; it holds nothing when no packet was made |
| RelayLifetimes.LedgerIsAttributed | backend/services/pkiService.js:59-63 | in every run whatever the authority's present key has signed is a certificate of some step since the last start |
| RelayLifetimes.ValidWasIssued | backend/services/pkiService.js:133-163 | in every reachable state a certificate that verifies agrees in every field but the spelling of its signature with one issued since the last start, and is not revoked |
| RelayLifetimes.NodeIsValidExactly | backend/services/pkiService.js:232-262 | in every run a relay node's certificate is valid if and only if there was no start since the one that made it, its serial is not revoked, and the time is inside its dates |
| RelayLifetimes.AllNodesValidExactly | backend/services/encryptionService.js:46-52 | so all relay certificates are valid if and only if none of the three serials is revoked, the dates hold, and no start came since |
| RelayLifetimes.UserIsValidExactly | backend/services/relayEngine.js:72-77 | in every run a user's certificate is valid if and only if there was no start since it was issued, its serial is not revoked, and the time is inside its dates |
| RelayLifetimes.NodesWereMade | backend/services/pkiService.js:250-259 | whenever there are three nodes, one start made them all |
| RelayLifetimes.RevocationLastsExactly | backend/services/pkiService.js:280-307 | in every run, failed saves and starts included, a serial is on the list if and only if it was revoked since the last start, or revoked and the list saved before the start that followed; it is in the file exactly in the second case |
| RelayLifetimes.SerialExactly | backend/services/pkiService.js:235-246 | in every run the serial of a certificate issued to a user is 1004 plus the number issued since the last start |
| RelayLifetimes.SameSerialExactly | backend/services/pkiService.js:64-95 | so two such certificates share a serial if and only if they have the same rank, each since its last start |
| RelayLifetimes.InterruptedStartIsStuckExactly | backend/services/pkiService.js:250-259 | a first start leaves a stuck nodes table if and only if it dies after the first row and before the last |
| RelayLifetimes.StuckIsForever | backend/services/pkiService.js:235-256 | over a stuck table every later start fails and nothing is ever delivered |
| RelayDelivery.RowWasCertified | backend/controllers/pkiController.js:31-35 | every user row has its certificate from one step, and from none since |
| RelayDelivery.SendInRunExactly | backend/services/messageService.js:43-80 | in every run a send by an existing user is delivered, with the content sent, if and only if there was no start since the nodes and the sender's certificate were made, none of their serials is revoked, the readings are inside the dates, the nonce is fresh and the stamp in the window |
| RelayDelivery.FirstMessageIsDelivered | backend/services/messageService.js:31-80 | start, register, send: the first message of a server is delivered, whatever it says |
| RelayDelivery.RevokedNodeStopsDelivery | backend/services/relayEngine.js:107-113 | once a relay node's serial is revoked, no later step of the run delivers anything, whatever saves fail and whatever starts follow |
| RelayDelivery.RestartStopsDelivery | backend/services/pkiService.js:235-246 | after a start over existing nodes, no later step of the run delivers anything |
| Backend.Server.IssueCertificate | backend/services/pkiService.js:86-125 | the counter, the ledger and the certificate afterwards are those of Issue |
| Backend.Server.RevokeCertificate | backend/services/pkiService.js:172-178 | only the list and its file change, as Revoke says |
| Backend.Server.Initialize | backend/services/pkiService.js:54-77 | the service and the nodes table after a start are those of Restart |
| Backend.Server.InitializeRelayNodes | backend/services/pkiService.js:232-262 | the loop over the node names adds the nodes and certificates that InitializeNodes says, or moves the counter past the last node |
| Backend.Server.ValidateNonce | backend/services/relayEngine.js:135-150 | the table is purged, and the nonce refused exactly when it is missing or still in the table |
| Backend.Server.ValidateTimestamp | backend/services/relayEngine.js:159-176 | the stamp is refused exactly when it is missing or outside the window on either side |
| Backend.Server.StoreNonce | backend/models/db.js:92-97 | the insert fails exactly when the nonce is already there, and otherwise adds it |
| Backend.Server.ProcessPacket | backend/services/relayEngine.js:36-97 | the whole state and result are those of ProcessPacket, and the insert of the nonce never meets an existing row |
| Backend.Server.CreateOnionPacket | backend/services/encryptionService.js:38-96 | the certificates loop and the three layers give the packet and ledger of CreateOnionPacket |
| Backend.Server.SendMessage | backend/services/messageService.js:31-95 | inserting, updating and settling the row step by step, catch path included, gives the state of SendMessage |
| Backend.Server.Register | backend/services/authService.js:40-82 | checks in order, then certificate and row together, as Register says |
| Backend.Server.GenerateCert | backend/controllers/pkiController.js:24-44 | the user's certificate is replaced by a new one over the same name and key |
| ReplayProtector.ReplayProtector.CheckNonce | securevault/replay_protection.py:44-92 | the new cache and the answer are those of Check, with two clock readings |
| ReplayProtector.ReplayProtector.EvictStaleNonces | securevault/replay_protection.py:94-113 | the deleting loop leaves exactly the entries stamped at or after the cutoff |
| ReplayProtector.CacheIsIdeal | securevault/replay_protection.py:69-113 | over every run of calls, with any number of threads, the evicting cache answers as a history that never forgets |
| ReplayProtector.VerdictExactly | securevault/replay_protection.py:69-92 | the answer to any call of any run, with its reason, from the two readings and the accepted stamps of its nonce; a missing stamp is the first reading |
| ReplayProtector.MissingStampsAgree | securevault/replay_protection.py:69-71 | writing out every missing timestamp as the first reading of its call changes no answer of the run |
| ReplayProtector.SecondAcceptanceInterval | securevault/replay_protection.py:69-92 | a second acceptance of a pair has its stamp between that call's two cutoffs |
| ReplayProtector.AtMostOnce | securevault/replay_protection.py:69-92 | when the two readings of a call agree, no pair is accepted twice |
| ReplayProtector.AcceptedExactly | securevault/replay_protection.py:69-113 | any call of any run accepts if and only if its stamp is in the window by the first reading and every earlier accepted stamp of its nonce is too old by the second |
| ReplayProtector.SecondAcceptanceExactly | securevault/replay_protection.py:69-113 | so an accepted pair is accepted again if and only if its stamp is in that interval and not too far ahead, and no other accepted stamp of the nonce is remembered |
| ReplayProtector.SecondAcceptanceHappens | securevault/replay_protection.py:69-113 | a run in which a pair is accepted twice |
| ReplayProtector.CacheIsBounded | securevault/replay_protection.py:94-113 | with one reading per call every cached stamp is between the window's start and five seconds ahead |
| PyCrypto.DecryptInvertsEncrypt | securevault/crypto_utils.py:21-97 | splitting the tag off and joining it again loses nothing, and the parts have their documented sizes |
| Envelope.DecryptInvertsEncryptMessage | securevault/encryption_engine.py:92-130 | decrypting with the recipient's key inverts encrypt_message for every plaintext |
| Envelope.EncryptExactly | securevault/encryption_engine.py:78-124 | a message is made if and only if the certificate names an elliptic-curve key that agrees with the fresh one; it then holds the fresh public key, IV, nonce and time, and the plaintext sealed under the key derived from the shared secret |
| Envelope.DecryptExactly | securevault/encryption_engine.py:217-240 | any dictionary decrypts if and only if its fields decode and unseal under the key agreed with its ephemeral key |
| Envelope.EncryptedIsAcceptedExactly | securevault/schema_validation.py:148-242 | the message validator accepts what encrypt_message makes if and only if the plaintext is not empty, and then says why not |
| Envelope.DecryptInvertsEncryptFile | securevault/encryption_engine.py:142-313 | a decrypted file is the file that was encrypted |
| KeyStore.DecryptInvertsEncryptKey | securevault/key_manager.py:96-182 | a storage record decrypts, under its password, to the key it was made from |
| KeyStore.EncryptKeyExactly | securevault/key_manager.py:96-122 | a record is made if and only if the password encodes, and holds its type, salt, IV, the 100 000 iterations and the key sealed under the derived key |
| KeyStore.DecryptKeyExactly | securevault/key_manager.py:155-180 | any record decrypts, or calls the password wrong, exactly as its fields unseal under the key derived from the password, its salt and its iterations |
| KeyStore.GenerateExactly | securevault/key_manager.py:78-128 | a pair is generated if and only if the type is known, the name is free and the password encodes; two files appear with the record and the public key, and otherwise nothing changes |
| KeyStore.DeleteExactly | securevault/key_manager.py:226-247 | deleting succeeds if and only if there is a file; then neither half loads, and every other key loads as before |
| KeyStore.StorageIsAccepted | securevault/schema_validation.py:245-333 | the storage validator accepts every record generate_keypair makes |
| Schema.MessageAcceptedExactly | securevault/schema_validation.py:148-242 | the message validator accepts a dictionary if and only if its fields are of these values, sizes and beginnings |
| Schema.StorageAcceptedExactly | securevault/schema_validation.py:245-333 | the same for the storage validator |
| Schema.CertificateAcceptedExactly | securevault/schema_validation.py:21-85 | the same for the certificate validator |
| PyText.StripsExactly | securevault/schema_validation.py:63-64 | stripping removes the whitespace in front, of ASCII these ten characters, and no more |
| KeyStore.LoadInvertsGenerate | securevault/key_manager.py:131-204 | a generated key pair loads as generated after any later calls that do not delete it |
| KeyStore.KeyManager.GenerateKeypair | securevault/key_manager.py:54-128 | the two files and the result are those of Generate |
| KeyStore.KeyManager.LoadPrivateKey | securevault/key_manager.py:131-182 | the key or the failure is that of LoadPrivate |
| KeyStore.KeyManager.DeleteKey | securevault/key_manager.py:226-247 | both files go, or nothing changes and the key was not there |
| PyCertificates.SignedContentBinds | securevault/pki_utils.py:161-174 | the signed bytes of two certificates are equal if and only if they are equal as dictionaries but for the signature |
| PyCertificates.SigningKeepsBody | securevault/pki_utils.py:168-174 | storing the signature changes no other field and not what is signed |
| PyCertificates.SignedVerifiesExactly | securevault/pki_utils.py:177-231 | what a signed certificate verifies as, at any time and against any list: the first test it fails |
| PyCertificates.SignedSays | securevault/pki_utils.py:75-174 | a created and signed certificate says what it was asked to, under the eight names, for that many days of 86 400 seconds |
| PyCertificates.AnswersExactly | securevault/pki_utils.py:177-231 | when verify_certificate gives each of its answers, for any dictionary, with or without a list |
| PyCertificates.SignedIsAcceptedExactly | securevault/schema_validation.py:21-85 | the certificate validator accepts a created and signed certificate if and only if its key text starts as PEM, leading space aside |
| PyAuthority.CrlReads | securevault/certificate_authority.py:188-214 | the saved revocation list loads as the list that was saved |
| PyAuthority.OtherListsRead | securevault/certificate_authority.py:188-204 | a list file whose object has no list is an empty list, and one with something else in its place is refused |
| PyAuthority.CrlFile | securevault/certificate_authority.py:206-214 | the characters of an empty list's file and of a list of one serial |
| PyAuthority.SerialReads | securevault/certificate_authority.py:161-185 | the saved counter loads as the number that was saved, and moves to the next |
| PyAuthority.SerialFile | securevault/certificate_authority.py:178-185 | the characters of the counter's file, whatever the counter |
| PyAuthorityInvariants.StepKeeps | securevault/certificate_authority.py:217-382 | every call, stopped anywhere, keeps the files readable, the serials ordered, and the authority's signatures accounted for |
| PyAuthorityRuns.IssuedSerialsIncrease | securevault/certificate_authority.py:315-331 | over every run of failed, stopped and completed calls, issued serials are at least 1000 and strictly increase |
| PyAuthorityRuns.SignedSerialsIncrease | securevault/certificate_authority.py:248-331 | the same of every certificate ever signed, also by a call that then stopped; two share a serial only if both are a 1 under different keys |
| PyAuthorityRuns.CounterMovesExactly | securevault/certificate_authority.py:315-328 | the counter moves by one exactly when the call gets past its checks, even if it then fails or stops |
| PyAuthorityRuns.ValidWasSigned | securevault/certificate_authority.py:416-445 | in every reachable state a certificate called valid is, field for field, one this authority signed, inside its dates and not on the list |
| PyAuthorityRuns.SameSerialAgree | securevault/certificate_authority.py:416-445 | two valid certificates with the same serial agree on every field but the signature |
| PyAuthorityRuns.RevokeSucceedsExactly | securevault/certificate_authority.py:346-375 | after init_ca a revocation succeeds if and only if its password opens the key file, as that of init_ca does, and it is not stopped; its serial is then on the list, with those already there |
| PyAuthorityRuns.CrlIsWhatWasRevoked | securevault/certificate_authority.py:346-382 | in every run the list on disk holds exactly the serials named by revocations that were not stopped, by a password that opens the key file, issued or not |
| PyAuthorityRuns.RevokedIsNeverValid | securevault/pki_utils.py:218-220 | once such a revocation named a serial, it never verifies as valid again |
| PyAuthorityRuns.IssueSucceedsExactly | securevault/certificate_authority.py:280-343 | after initialisation, under its password, an uninterrupted request succeeds if and only if create_cert accepts it |
| PyAuthorityRuns.Guards | securevault/certificate_authority.py:236-363 | without a certificate every call but init_ca says so, with one init_ca does, and a password that does not open the key file stops the calls that need it; none of these changes anything |
| PyAuthorityRuns.IssuedSays | securevault/certificate_authority.py:307-331 | an issued certificate says what was asked for, in the name given to init_ca, under serial 1000 plus the number of serials taken since |
| PyAuthorityRuns.RootSays | securevault/certificate_authority.py:240-262 | ever after init_ca the authority's certificate names it as subject and issuer over its own key, with serial 1 and for 3650 days |
| PyAuthorityRuns.InitialListIsEmpty | securevault/certificate_authority.py:259-260 | after init_ca the list is empty |
| PyAuthorityRuns.IssuedVerifiesExactly | securevault/certificate_authority.py:416-445 | an issued certificate verifies, in every later state and at any time, exactly as its dates and the completed revocations say |
| PyAuthorityRuns.InterruptedInitIsStuckExactly | securevault/certificate_authority.py:235-267 | which files and signatures each stop of init_ca leaves; the authority is stuck if and only if it stops after the certificate and before the counter |
| PyAuthorityRuns.KeyIsFirst | securevault/certificate_authority.py:242-247 | from its first effect on, stopped or not, init_ca leaves a key file that opens under its password to the new key |
| PyAuthorityRuns.StuckIsForever | securevault/certificate_authority.py:237-239 | a stuck authority can never again be initialised or issue, whatever is called |
| CertificateAuthority.Authority.InitCa | securevault/certificate_authority.py:217-277 | the files, the ledger and the result are those of InitCa, wherever it stops |
| CertificateAuthority.Authority.IssueCertificate | securevault/certificate_authority.py:280-343 | the counter is saved before the certificate is created and signed, as IssueCertificate says, wherever it stops |
| CertificateAuthority.Authority.RevokeCertificate | securevault/certificate_authority.py:346-382 | the list file gains the serial, or nothing changes |

## Left out

- The cryptographic algorithms, key generation and random numbers: functions with correctness laws, arguments, and a ledger of signatures; nothing is said about secrecy or guessing.
- Infinite and not-a-number floats, and rounding: a time is an exact count, and a number read from JSON keeps its token, so a float written with a longer token than its shortest one is not normalised.
- Python strings holding a surrogate pair in certificate subjects: `PyAuthorityRuns` takes strings without one; `CanonicalJson.PythonStringExactly` says exactly what happens to the others.
- Packets whose nonce is not a string or whose timestamp is not an integer: the relay's own packets have both, and a client's other values are not modelled.
- JavaScript object names that look like array indices, or are special names of the language: every object modelled has fixed names or comes from a JSON text read field by field.
- Schema.MessageAcceptedExactly, like the other two acceptance lemmas, does not give the reason of every refusal: which of several reasons is reported first is a list of texts, and would only add easy members.
- Which of several exceptions a malformed Python dictionary or file raises first.
- Node's Buffer.from and SQLite's comparison for JSON values that are not strings or integers: arbitrary functions in `Libraries`.
- Calendar arithmetic of notAfter and ISO date text: functions in `Libraries`, with the law that the ISO text of a time a Date can hold parses back; the exact validity theorems are about such times.
- Key columns: PEM files are ASCII, so they are kept verbatim, where names, nonces and content go through UTF-8.
- Certificate columns not written by this authority: a certificate of another shape loads as none, and so is not valid.
- One processPacket makes all its certificate checks at one clock reading; purge, stamp test and store have their own.
- Keys that coincide: a generated RSA key is new, and nobody else signs with an authority's key.
- Elliptic curves other than P-384 for a recipient: encryption then fails or succeeds as the library decides, and nothing is proved about it.
- Files are written whole or not at all, by one process at a time; directories, permissions and write-ahead logging are not modelled.
- A key store call that stops between its two files; the authority's calls do stop between theirs.
- Files of the Python authority edited by hand: a counter or revoked serial that is not an integer is unreadable, where the code would carry some such values on.
- Password hashes, roles, login, JSON web tokens, rate limits, routing, controllers other than generateCert, the React frontend and the command line.
- Audit and security logging, and the sanitizers: they are taken to do nothing and to succeed.
- getMessageStatus and message listing, list_keys, signature_engine and validate_signature_payload: they only read or repeat what is here.
- The model of ReplayProtector lists calls in the order in which they take the lock; it has no threads beyond that.
