/**
 * The backend in the form the source has: one object whose methods read and rewrite the tables step by step. Each
 * method is proved to do what the corresponding function of PkiService or Relay says.
 */
module Backend {
  import opened Prelude
  import opened Json
  import opened Libraries
  import opened NonceTable
  import opened Onion
  import opened PkiService
  import opened Relay
  import opened RelayInvariants
  import opened Signing
  import Hex
  import Payload
  import Utf8

  class Server {
    const lib: Library

    // pkiService
    var initialized: bool
    var caPrivate: JsString
    var nextSerial: int
    var crl: seq<int>

    // the CRL file, and everything signed so far
    var crlFile: Option<Text>
    var ledger: Ledger

    // the database
    var users: seq<User>
    var nodes: seq<Node>
    var messages: seq<Message>
    var nonces: Table

    function PkiView(): Pki
      reads this
    {
      Pki(initialized, caPrivate, nextSerial, crl, crlFile, ledger)
    }

    function View(): State
      reads this
    {
      State(PkiView(), users, nodes, messages, nonces)
    }

    constructor (lib: Library)
      ensures this.lib == lib && View() == EMPTY
    {
      this.lib := lib;
      initialized, caPrivate, nextSerial, crl := false, [], CA_SERIAL, [];
      crlFile, ledger := None, {};
      users, nodes, messages, nonces := [], [], [], map[];
    }

    // --- pkiService ----------------------------------------------------------------------------------

    method IssueCertificate(subject: JsString, publicKey: JsString, now: int, sig: Bytes)
      returns (certificate: Option<Certificate>)
      modifies this`nextSerial, this`ledger
      ensures (PkiView(), certificate) == Issue(lib, old(PkiView()), subject, publicKey, now, sig)
    {
      if !initialized {
        return None;
      }
      var serialNumber := nextSerial;
      nextSerial := nextSerial + 1;
      var c := NewCertificate(lib, serialNumber, subject, publicKey, now, sig);
      ledger := Sign(ledger, lib.publicOf(caPrivate), SignedBytes(c), sig);
      return Some(c);
    }

    method VerifyCertificate(c: Certificate, now: int) returns (v: Validity)
      ensures v == Verify(lib, PkiView(), c, now)
    {
      if c.signature == [] {
        return BadFormat;
      }
      if c.serialNumber in crl {
        return Revoked;
      }
      var from := lib.dateOf(c.notBefore);
      if from.Some? && from.value > now {
        return NotYetValid;
      }
      var to := lib.dateOf(c.notAfter);
      if to.Some? && to.value < now {
        return Expired;
      }
      var sigBuffer := Hex.Decode(c.signature);
      if !Verifies(ledger, lib.publicOf(caPrivate), SignedBytes(c), sigBuffer) {
        return BadSignature;
      }
      return Valid;
    }

    /** JSON.parse of a certificate column, then verifyCertificate. */
    method VerifyColumn(column: Text, now: int) returns (valid: bool)
      ensures valid == StoredIsValid(lib, PkiView(), column, now)
    {
      match Load(column)
      case None => return false;
      case Some(c) =>
        var v := VerifyCertificate(c, now);
        return v == Valid;
    }

    method RevokeCertificate(serialNumber: int, saved: bool)
      modifies this`crl, this`crlFile
      ensures View() == Relay.RevokeCertificate(old(View()), serialNumber, saved)
    {
      crl := Added(crl, serialNumber);
      if saved {
        crlFile := Some(CrlText(crl));
      }
    }

    /** initialize in a new process; when it throws, the process exits. */
    method Initialize(b: Start) returns (ok: bool)
      requires GoodStart(b)
      modifies this`initialized, this`caPrivate, this`nextSerial, this`crl, this`ledger, this`nodes
      ensures View() == Restart(lib, old(View()), b) && ok == initialized
    {
      hide InitializeNodes, CaCertificate, SignedBytes, CrlFrom;
      caPrivate := b.caPrivate;
      var caCertificate := CaCertificate(lib, b);
      ledger := Sign(ledger, lib.publicOf(caPrivate), SignedBytes(caCertificate), b.caSignature);
      nextSerial := CA_SERIAL + 1;
      initialized := true;
      crl := CrlFrom(crlFile);
      ok := InitializeRelayNodes(b);
      initialized := ok;
    }

    method InitializeRelayNodes(b: Start) returns (ok: bool)
      requires GoodStart(b)
      modifies this`nextSerial, this`ledger, this`nodes
      ensures (PkiView(), nodes, ok) == InitializeNodes(lib, old(PkiView()), old(nodes), b)
    {
      hide Load, Stored, SignedBytes, Issue, RELAY_NODES;
      if |nodes| >= 3 {
        var maxNode := Load(nodes[|nodes| - 1].certificate);
        if maxNode.None? {
          return false;
        }
        if maxNode.value.serialNumber >= nextSerial {
          nextSerial := maxNode.value.serialNumber + 1;
        }
        return true;
      }
      var i := 0;
      while i < |RELAY_NODES|
        invariant i <= |RELAY_NODES|
        invariant AddNodes(lib, PkiView(), nodes, b, i) == AddNodes(lib, old(PkiView()), old(nodes), b, 0)
      {
        if b.stop == 2 * i {
          return false;
        }
        var publicKey := lib.publicOf(b.nodeKeys[i]);
        var certificate := IssueCertificate(RELAY_NODES[i], publicKey, b.now, b.nodeSignatures[i]);
        if certificate.None? || b.stop == 2 * i + 1 || HasName(nodes, RELAY_NODES[i]) {
          return false;
        }
        nodes := nodes + [Node(RELAY_NODES[i], publicKey, b.nodeKeys[i], Stored(certificate.value))];
        i := i + 1;
      }
      return true;
    }

    // --- relayEngine ---------------------------------------------------------------------------------

    method ValidateNonce(nonce: JsString, now: int) returns (failure: Option<Failure>)
      modifies this`nonces
      ensures nonce == [] ==> failure == Some(MissingNonce) && nonces == old(nonces)
      ensures nonce != [] ==> nonces == Purge(old(nonces), now)
      ensures nonce != [] ==> failure == if Column(nonce) in nonces then Some(ReplayDetected) else None
    {
      if nonce == [] {
        return Some(MissingNonce);
      }
      nonces := Purge(nonces, now);
      if Column(nonce) in nonces {
        return Some(ReplayDetected);
      }
      return None;
    }

    method ValidateTimestamp(timestamp: int, now: int) returns (failure: Option<Failure>)
      ensures failure == if timestamp == 0 then Some(MissingTimestamp)
                         else if InWindow(timestamp, now) then None else Some(OutsideWindow)
    {
      if timestamp == 0 {
        return Some(MissingTimestamp);
      }
      var diff := if now >= timestamp then now - timestamp else timestamp - now;
      if diff > WINDOW_MS {
        return Some(OutsideWindow);
      }
      return None;
    }

    /** The insert; stored is false when the UNIQUE constraint refuses it. */
    method StoreNonce(nonce: JsString, now: int) returns (stored: bool)
      modifies this`nonces
      ensures stored <==> Column(nonce) !in old(nonces)
      ensures nonces == if stored then old(nonces)[Column(nonce) := now] else old(nonces)
    {
      if Column(nonce) in nonces {
        return false;
      }
      nonces := nonces[Column(nonce) := now];
      return true;
    }

    method ProcessNode(layer: JSON, node: Node, now: int) returns (r: Result<Text, Failure>)
      ensures r == Onion.ProcessNode(lib, layer, HopOf(lib, PkiView(), node, now))
    {
      var valid := VerifyColumn(node.certificate, now);
      if !valid {
        return Err(NodeCertificate);
      }
      var wrappedKey := BytesField(lib, layer, WRAPPED_KEY);
      if wrappedKey.None? {
        return Err(BadLayer);
      }
      var aesKey := lib.unwrap(node.privateKey, wrappedKey.value);
      if aesKey.None? {
        return Err(UnwrapFailed);
      }
      var ciphertext := BytesField(lib, layer, CIPHERTEXT);
      var iv := BytesField(lib, layer, IV);
      var tag := BytesField(lib, layer, TAG);
      if ciphertext.None? || iv.None? || tag.None? {
        return Err(BadLayer);
      }
      if |aesKey.value| != 32 || |iv.value| != 12 || |tag.value| != 16 {
        return Err(UnsealFailed);
      }
      var decrypted := lib.unseal(aesKey.value, iv.value, ciphertext.value, tag.value);
      if decrypted.None? {
        return Err(UnsealFailed);
      }
      return Ok(Utf8.Decode(decrypted.value));
    }

    /** Steps 3 to 6: the three relays in order. */
    method PeelLayers(packet: JSON, now: int) returns (r: Result<Text, Failure>)
      requires |nodes| >= 3
      ensures r == PeelThree(lib, packet, Hops(lib, View(), now))
    {
      hide Onion.ProcessNode, ParseText, HopOf;
      var layer2Data := ProcessNode(packet, nodes[0], now);
      if layer2Data.Err? {
        return layer2Data;
      }
      var layer2 := ParseText(JavaScript, layer2Data.value);
      if layer2.None? {
        return Err(BadJson);
      }
      var layer3Data := ProcessNode(layer2.value, nodes[1], now);
      if layer3Data.Err? {
        return layer3Data;
      }
      var layer3 := ParseText(JavaScript, layer3Data.value);
      if layer3.None? {
        return Err(BadJson);
      }
      r := ProcessNode(layer3.value, nodes[2], now);
    }

    /** Steps 7 to 9: the sender, the sender's certificate and the signature. */
    method CheckPayload(payloadText: Text, now: int) returns (r: Result<Outcome, Failure>)
      ensures r == ProcessPayload(lib, View(), payloadText, now)
    {
      hide ParseText, StoredIsValid, Load;
      var payload := ParseText(JavaScript, payloadText);
      if payload.None? {
        return Err(BadJson);
      }
      if !payload.value.Obj? {
        return Err(BadPayload);
      }
      var fields := payload.value.fields;
      var message := Get(fields, Payload.MESSAGE);
      var sender := Get(fields, Payload.SENDER_ID);
      var id := if sender.Some? then Payload.RowId(lib, sender.value) else None;
      if id.None? || id.value < 1 || |users| < id.value {
        return Err(SenderNotFound);
      }
      var user := users[id.value - 1];
      if Load(user.certificate).None? {
        return Err(BadJson);
      }
      var valid := VerifyColumn(user.certificate, now);
      if !valid {
        return Ok(Rejected);
      }
      var sigBuffer := BytesField(lib, payload.value, Payload.SIGNATURE);
      var data := if message.Some? then Payload.MessageText(lib, message.value) else None;
      if sigBuffer.None? || data.None? {
        return Err(BadPayload);
      }
      if !Verifies(ledger, user.publicKey, Utf8.Encode(data.value), sigBuffer.value) {
        return Ok(Rejected);
      }
      return Ok(DeliveredFrom(id.value, message.value));
    }

    /** The insert of a delivered packet's nonce always succeeds, since the nonce was found absent. */
    method ProcessPacket(p: Packet, t: Reads) returns (r: Result<Outcome, Failure>)
      modifies this`nonces
      ensures (View(), r) == Relay.ProcessPacket(lib, old(View()), p, t)
    {
      hide PeelThree, ProcessPayload, Hops, Purge;
      var bad := ValidateNonce(p.nonce, t.purge);
      if bad.Some? {
        return Err(bad.value);
      }
      bad := ValidateTimestamp(p.timestamp, t.test);
      if bad.Some? {
        return Err(bad.value);
      }
      if |nodes| < 3 {
        return Err(TooFewNodes);
      }
      var payload := PeelLayers(p.packet, t.check);
      if payload.Err? {
        return Err(payload.error);
      }
      r := CheckPayload(payload.value, t.check);
      if r.Ok? && r.value.DeliveredFrom? {
        var stored := StoreNonce(p.nonce, t.store);
        assert stored;
      }
    }

    // --- encryptionService and messageService --------------------------------------------------------

    method CreateOnionPacket(content: JsString, privateKey: JsString, serial: int, userId: int, random: SendRandom,
                             now: int, stamp: int)
      returns (made: Result<Packet, Failure>)
      requires GoodSend(random)
      modifies this`ledger
      ensures (View(), made)
           == Relay.CreateOnionPacket(lib, old(View()), content, privateKey, serial, userId, random, now, stamp)
    {
      hide OnionPacket, StoredIsValid;
      if |nodes| < 3 {
        return Err(TooFewNodes);
      }
      var i := 0;
      while i < |nodes|
        invariant i <= |nodes| && View() == old(View())
        invariant forall k | 0 <= k < i :: Hops(lib, View(), now)[k].certificateValid
      {
        var valid := VerifyColumn(nodes[i].certificate, now);
        if !valid {
          assert !Hops(lib, View(), now)[i].certificateValid;
          assert !AllNodesValid(lib, View(), now);
          return Err(NodeCertificate);
        }
        i := i + 1;
      }
      assert AllNodesValid(lib, View(), now);
      made := Ok(OnionPacket(lib, View(), content, userId, serial, random, stamp));
      ledger := Sign(ledger, lib.publicOf(privateKey), Utf8.Encode(content), random.signature);
    }

    method SendMessage(userId: int, content: JsString, random: SendRandom, now: int, stamp: int, t: Reads)
      returns (sent: SendResult)
      requires GoodSend(random)
      modifies this`messages, this`ledger, this`nonces
      ensures (View(), sent) == Relay.SendMessage(lib, old(View()), userId, content, random, now, stamp, t)
    {
      hide Relay.CreateOnionPacket, Relay.ProcessPacket, PacketText, Load;
      if userId < 1 || |users| < userId {
        return UserNotFound;
      }
      var user := users[userId - 1];
      var certificate := Load(user.certificate);
      if certificate.None? {
        return UnreadableCertificate;
      }
      var before := messages;
      messages := messages + [Message(userId, [], None, Pending)];
      var messageId := |messages|;
      var last := messageId - 1;
      ghost var pending := View();
      CreateIgnoresMessages(old(View()), pending, content, user.privateKey, certificate.value.serialNumber, userId,
                            random, now, stamp);
      var made := CreateOnionPacket(content, user.privateKey, certificate.value.serialNumber, userId, random, now, stamp);
      if made.Err? {
        messages := messages[last := messages[last].(status := Failed)];
        assert messages == before + [Message(userId, [], None, Failed)];
        return Sent(messageId, Failed, Err(made.error));
      }
      messages := messages[last := messages[last].(payload := PacketText(made.value))];
      ghost var signed := Relay.CreateOnionPacket(lib, old(View()), content, user.privateKey,
                                                  certificate.value.serialNumber, userId, random, now, stamp).0;
      ProcessIgnoresMessages(signed, View(), made.value, t);
      var result := ProcessPacket(made.value, t);
      if result.Ok? && result.value.DeliveredFrom? {
        messages := messages[last := messages[last].(status := Delivered, content := ContentOf(result))];
      } else if result.Ok? {
        messages := messages[last := messages[last].(status := SignatureInvalid)];
      } else {
        messages := messages[last := messages[last].(status := Failed)];
      }
      assert messages == before + [Message(userId, PacketText(made.value), ContentOf(result), StatusOf(result))];
      return Sent(messageId, StatusOf(result), result);
    }

    /** Building a packet neither reads nor writes the messages table. */
    lemma {:induction false} CreateIgnoresMessages(a: State, b: State, content: JsString, privateKey: JsString,
                                                   serial: int, userId: int, random: SendRandom, now: int, stamp: int)
      requires GoodSend(random) && a.(messages := b.messages) == b
      ensures var x := Relay.CreateOnionPacket(lib, a, content, privateKey, serial, userId, random, now, stamp);
              var y := Relay.CreateOnionPacket(lib, b, content, privateKey, serial, userId, random, now, stamp);
              x.1 == y.1 && x.0.(messages := b.messages) == y.0
    {
      assert Hops(lib, a, now) == Hops(lib, b, now) && Hops(lib, a, stamp) == Hops(lib, b, stamp);
    }

    /** Nor does processing one. */
    lemma {:induction false} ProcessIgnoresMessages(a: State, b: State, p: Packet, t: Reads)
      requires a.(messages := b.messages) == b
      ensures var x, y := Relay.ProcessPacket(lib, a, p, t), Relay.ProcessPacket(lib, b, p, t);
              x.1 == y.1 && x.0.(messages := b.messages) == y.0
    {
      hide Inspect, Column, Purge;
      InspectFrame(lib, a.(nonces := Purge(a.nonces, t.purge)), b.(nonces := Purge(b.nonces, t.purge)), p.packet, t.check);
    }

    // --- authService and pkiController ---------------------------------------------------------------

    method Register(username: JsString, password: JsString, privateKey: JsString, now: int, sig: Bytes)
      returns (r: RegisterResult)
      modifies this`users, this`nextSerial, this`ledger
      ensures (View(), r) == Relay.Register(lib, old(View()), username, password, privateKey, now, sig)
    {
      hide Issue, Stored;
      if |username| < USERNAME_MIN_LENGTH || |username| > USERNAME_MAX_LENGTH {
        return BadUsername;
      }
      if |password| < PASSWORD_MIN_LENGTH {
        return BadPassword;
      }
      if View().NameTaken(Column(username)) {
        return UsernameTaken;
      }
      var publicKey := lib.publicOf(privateKey);
      IssueFailsCleanly(PkiView(), username, publicKey, now, sig);
      var certificate := IssueCertificate(username, publicKey, now, sig);
      if certificate.None? {
        return NotInitialized;
      }
      users := users + [User(Column(username), publicKey, privateKey, Stored(certificate.value))];
      return Registered(|users|, certificate.value);
    }

    lemma {:induction false} IssueFailsCleanly(p: Pki, subject: JsString, publicKey: JsString, now: int, sig: Bytes)
      ensures Issue(lib, p, subject, publicKey, now, sig).1.None? ==> Issue(lib, p, subject, publicKey, now, sig).0 == p
    {
    }

    method GenerateCert(userId: int, now: int, sig: Bytes) returns (certificate: Option<Certificate>)
      modifies this`users, this`nextSerial, this`ledger
      ensures (View(), certificate) == Relay.GenerateCert(lib, old(View()), userId, now, sig)
    {
      hide Issue, Stored;
      if userId < 1 || |users| < userId {
        return None;
      }
      var user := users[userId - 1];
      IssueFailsCleanly(PkiView(), user.username, user.publicKey, now, sig);
      certificate := IssueCertificate(user.username, user.publicKey, now, sig);
      if certificate.Some? {
        users := users[userId - 1 := user.(certificate := Stored(certificate.value))];
      }
    }
  }
}
