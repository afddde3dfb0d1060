/**
 * The relay backend as a state machine over its tables: registration, certificates, onion packets, messages and
 * nonces. Each function is one synchronous call of the server, with its clock readings and random choices as
 * arguments. Row ids are positions counted from 1.
 */
module Relay {
  import opened Prelude
  import opened Json
  import opened Libraries
  import opened NonceTable
  import opened Onion
  import opened PkiService
  import opened Records
  import opened Signing
  import Decimal
  import Hex
  import Payload
  import Utf8

  datatype User = User(username: JsString, publicKey: JsString, privateKey: JsString, certificate: Text)

  datatype Status = Pending | Delivered | Failed | SignatureInvalid

  datatype Message = Message(senderId: int, payload: Text, content: Option<JSON>, status: Status)

  datatype State = State(pki: Pki, users: seq<User>, nodes: seq<Node>, messages: seq<Message>, nonces: Table)
  {
    predicate HasUser(id: int) {
      1 <= id <= |users|
    }

    predicate NameTaken(username: JsString) {
      exists i | 0 <= i < |users| :: users[i].username == username
    }
  }

  /**
   * A string kept in a TEXT column and read back: SQLite holds it as UTF-8. Printed JSON, hex and PEM files have no
   * lone surrogate, so for them this changes nothing.
   */
  function Column(t: Text): (c: JsString)
    ensures Utf8.WellFormed(c)
    ensures c == t <==> Utf8.WellFormed(t)
  {
    Utf8.SurvivesExactlyWhenWellFormed(t);
    Utf8.DecodeIsWellFormed(Utf8.Encode(t));
    Utf8.WellFormedIsUnits(Utf8.Decode(Utf8.Encode(t)));
    Utf8.Decode(Utf8.Encode(t))
  }

  // --- relayEngine -----------------------------------------------------------------------------------

  /** What a client submits: numbers and strings of the right type, and any JSON as the packet itself. */
  datatype Packet = Packet(nonce: JsString, timestamp: int, packet: JSON)

  /** The clock readings of one processPacket: purge, stamp test, certificate checks, store. */
  datatype Reads = Reads(purge: int, test: int, check: int, store: int)

  datatype Outcome = DeliveredFrom(senderId: int, plaintext: JSON) | Rejected

  function HopOf(lib: Library, p: Pki, node: Node, now: int): (hop: Hop) {
    Hop(node.publicKey, node.privateKey, StoredIsValid(lib, p, node.certificate, now))
  }

  function Hops(lib: Library, s: State, now: int): (hops: seq<Hop>)
    ensures |hops| == |s.nodes|
    ensures forall i | 0 <= i < |hops| :: hops[i] == HopOf(lib, s.pki, s.nodes[i], now)
  {
    seq(|s.nodes|, i requires 0 <= i < |s.nodes| => HopOf(lib, s.pki, s.nodes[i], now))
  }

  /** Steps 7 to 9 of processPacket: who sent it, and whether the signature is theirs. */
  function ProcessPayload(lib: Library, s: State, text: Text, now: int): (r: Result<Outcome, Failure>) {
    match ParseText(JavaScript, text)
    case Some(Obj(f)) =>
      var message, sender := Get(f, Payload.MESSAGE), Get(f, Payload.SENDER_ID);
      var id := if sender.Some? then Payload.RowId(lib, sender.value) else None;
      if id.None? || !s.HasUser(id.value) then Err(SenderNotFound)
      else
        var user := s.users[id.value - 1];
        if Load(user.certificate).None? then Err(BadJson)
        else if !StoredIsValid(lib, s.pki, user.certificate, now) then Ok(Rejected)
        else
          var sig := BytesField(lib, Obj(f), Payload.SIGNATURE);
          var data := if message.Some? then Payload.MessageText(lib, message.value) else None;
          if sig.None? || data.None? then Err(BadPayload)
          else if !Verifies(s.pki.ledger, user.publicKey, Utf8.Encode(data.value), sig.value) then Ok(Rejected)
          else Ok(DeliveredFrom(id.value, message.value))
    case Some(_) => Err(BadPayload)
    case None => Err(BadJson)
  }

  /** Steps 3 to 9: everything processPacket decides without touching the nonce table. */
  function Inspect(lib: Library, s: State, packet: JSON, now: int): (r: Result<Outcome, Failure>) {
    if |s.nodes| < 3 then Err(TooFewNodes)
    else match PeelThree(lib, packet, Hops(lib, s, now))
      case Err(e) => Err(e)
      case Ok(text) => ProcessPayload(lib, s, text, now)
  }

  /** processPacket: purge, test the nonce, test the stamp, inspect, store the nonce of a delivered packet. */
  function ProcessPacket(lib: Library, s: State, p: Packet, t: Reads): (r: (State, Result<Outcome, Failure>)) {
    if p.nonce == [] then (s, Err(MissingNonce))
    else
      var purged := s.(nonces := Purge(s.nonces, t.purge));
      if Column(p.nonce) in purged.nonces then (purged, Err(ReplayDetected))
      else if p.timestamp == 0 then (purged, Err(MissingTimestamp))
      else if !InWindow(p.timestamp, t.test) then (purged, Err(OutsideWindow))
      else match Inspect(lib, purged, p.packet, t.check)
        case Ok(DeliveredFrom(id, plaintext)) =>
          (purged.(nonces := purged.nonces[Column(p.nonce) := t.store]), Ok(DeliveredFrom(id, plaintext)))
        case other => (purged, other)
  }

  // --- encryptionService and messageService ----------------------------------------------------------

  datatype SendRandom = SendRandom(signature: Bytes, layers: seq<LayerRandom>, nonce: Bytes)

  predicate GoodSend(r: SendRandom) {
    |r.layers| == 3 && |r.nonce| == 16 && forall i | 0 <= i < 3 :: GoodRandom(r.layers[i])
  }

  predicate AllNodesValid(lib: Library, s: State, now: int) {
    forall i | 0 <= i < |s.nodes| :: Hops(lib, s, now)[i].certificateValid
  }

  /** The packet that createOnionPacket builds once the message is signed. */
  function OnionPacket(lib: Library, s: State, content: JsString, userId: int, serial: int, r: SendRandom, stamp: int)
    : (p: Packet)
    requires GoodSend(r) && |s.nodes| >= 3
    ensures Fits(JavaScript, p.packet)
  {
    var payload := Payload.PayloadText(content, r.signature, userId, serial);
    Packet(Hex.Encode(r.nonce), stamp, ThreeLayers(lib, payload, Hops(lib, s, stamp), r.layers))
  }

  /** createOnionPacket: the state with the message signed, and the packet. */
  function CreateOnionPacket(lib: Library, s: State, content: JsString, privateKey: JsString, serial: int, userId: int,
                             r: SendRandom, now: int, stamp: int): (x: (State, Result<Packet, Failure>))
    requires GoodSend(r)
    ensures x.1.Ok? ==> Fits(JavaScript, x.1.value.packet)
  {
    if |s.nodes| < 3 then (s, Err(TooFewNodes))
    else if !AllNodesValid(lib, s, now) then (s, Err(NodeCertificate))
    else
      var ledger := Sign(s.pki.ledger, lib.publicOf(privateKey), Utf8.Encode(content), r.signature);
      (s.(pki := s.pki.(ledger := ledger)), Ok(OnionPacket(lib, s, content, userId, serial, r, stamp)))
  }

  const PACKET_NAMES := [Literal("version"), Literal("nonce"), Literal("timestamp"), Literal("layers"), Literal("packet")]

  function PacketValues(p: Packet): (values: seq<JSON>)
    ensures |values| == |PACKET_NAMES|
  {
    [Num([49]), Str(p.nonce), Num(Decimal.OfInt(p.timestamp)), Num([51]), p.packet]
  }

  lemma {:induction false} PacketFits(p: Packet)
    requires Fits(JavaScript, p.packet)
    ensures AllDifferent(PACKET_NAMES) && Fits(JavaScript, Obj(Record(PACKET_NAMES, PacketValues(p))))
  {
    IntegerIsNumber(1);
    IntegerIsNumber(3);
    IntegerIsNumber(p.timestamp);
    assert Decimal.OfInt(1) == [49] && Decimal.OfInt(3) == [51];
    assert PACKET_NAMES[2][0] == 116;
    assert PACKET_NAMES[3][0] == 108;
    RecordFits(JavaScript, PACKET_NAMES, PacketValues(p));
  }

  /** JSON.stringify(onionPacket), as the messages table keeps it. */
  function PacketText(p: Packet): (t: Text)
    requires Fits(JavaScript, p.packet)
  {
    PacketFits(p);
    FitsIsPrintable(JavaScript, Obj(Record(PACKET_NAMES, PacketValues(p))));
    Print(JavaScript, Obj(Record(PACKET_NAMES, PacketValues(p))))
  }

  /** What sendMessage returns or throws; result is what became of the packet. */
  datatype SendResult =
    | UserNotFound
    | UnreadableCertificate
    | Sent(messageId: int, status: Status, result: Result<Outcome, Failure>)

  function StatusOf(result: Result<Outcome, Failure>): (status: Status)
    ensures status != Pending
  {
    match result
    case Ok(DeliveredFrom(_, _)) => Delivered
    case Ok(Rejected) => SignatureInvalid
    case Err(_) => Failed
  }

  function ContentOf(result: Result<Outcome, Failure>): (content: Option<JSON>) {
    match result
    case Ok(DeliveredFrom(_, Str(text))) => Some(Str(Column(text)))
    case Ok(DeliveredFrom(_, plaintext)) => Some(plaintext)
    case _ => None
  }

  /** sendMessage: insert a pending row, build the packet, process it, and settle the row. */
  function SendMessage(lib: Library, s: State, userId: int, content: JsString, r: SendRandom, now: int, stamp: int,
                       t: Reads): (x: (State, SendResult))
    requires GoodSend(r)
  {
    if !s.HasUser(userId) then (s, UserNotFound)
    else
      var user := s.users[userId - 1];
      match Load(user.certificate)
      case None => (s, UnreadableCertificate)
      case Some(certificate) =>
        var id := |s.messages| + 1;
        var row := Message(userId, [], None, Pending);
        var (signed, made) :=
          CreateOnionPacket(lib, s, content, user.privateKey, certificate.serialNumber, userId, r, now, stamp);
        match made
        case Err(e) =>
          (signed.(messages := s.messages + [row.(status := Failed)]), Sent(id, Failed, Err(e)))
        case Ok(packet) =>
          var (after, result) := ProcessPacket(lib, signed, packet, t);
          var settled := Message(userId, PacketText(packet), ContentOf(result), StatusOf(result));
          (after.(messages := s.messages + [settled]), Sent(id, StatusOf(result), result))
  }

  // --- authService and pkiController -----------------------------------------------------------------

  const USERNAME_MIN_LENGTH := 3
  const USERNAME_MAX_LENGTH := 30
  const PASSWORD_MIN_LENGTH := 8

  datatype RegisterResult =
    | BadUsername | BadPassword | UsernameTaken | NotInitialized
    | Registered(userId: int, certificate: Certificate)

  /** register, with the new private key and the authority's signature as arguments. */
  function Register(lib: Library, s: State, username: JsString, password: JsString, privateKey: JsString, now: int,
                    sig: Bytes): (r: (State, RegisterResult))
  {
    if |username| < USERNAME_MIN_LENGTH || |username| > USERNAME_MAX_LENGTH then (s, BadUsername)
    else if |password| < PASSWORD_MIN_LENGTH then (s, BadPassword)
    else if s.NameTaken(Column(username)) then (s, UsernameTaken)
    else
      var publicKey := lib.publicOf(privateKey);
      var (pki, certificate) := Issue(lib, s.pki, username, publicKey, now, sig);
      if certificate.None? then (s, NotInitialized)
      else
        var user := User(Column(username), publicKey, privateKey, Stored(certificate.value));
        (s.(pki := pki, users := s.users + [user]), Registered(|s.users| + 1, certificate.value))
  }

  /** generateCert: a new certificate over the user's name and key replaces the old one. */
  function GenerateCert(lib: Library, s: State, userId: int, now: int, sig: Bytes): (r: (State, Option<Certificate>)) {
    if !s.HasUser(userId) then (s, None)
    else
      var user := s.users[userId - 1];
      var (pki, certificate) := Issue(lib, s.pki, user.username, user.publicKey, now, sig);
      if certificate.None? then (s, None)
      else (s.(pki := pki, users := s.users[userId - 1 := user.(certificate := Stored(certificate.value))]), certificate)
  }

  function RevokeCertificate(s: State, serial: int, saved: bool): (r: State) {
    s.(pki := Revoke(s.pki, serial, saved))
  }

  /** A new server process over the same database; when initialize throws, the process exits. */
  function Restart(lib: Library, s: State, b: Start): (r: State)
    requires GoodStart(b)
  {
    var (pki, nodes, ok) := Initialize(lib, s.pki, s.nodes, b);
    s.(pki := pki.(initialized := ok), nodes := nodes)
  }

  // --- Runs ------------------------------------------------------------------------------------------

  datatype Event =
    | DoRegister(username: JsString, password: JsString, privateKey: JsString, now: int, signature: Bytes)
    | DoGenerateCert(userId: int, now: int, signature: Bytes)
    | DoRevoke(serial: int, saved: bool)
    | DoSend(senderId: int, content: JsString, random: SendRandom, now: int, stamp: int, clock: Reads)
    | DoSubmit(packet: Packet, clock: Reads)
    | DoRestart(start: Start)

  /** Random choices have their sizes, and a signature is not empty. */
  predicate Shaped(e: Event) {
    && (e.DoSend? ==> GoodSend(e.random))
    && (e.DoRestart? ==> GoodStart(e.start))
    && (e.DoRegister? || e.DoGenerateCert? ==> e.signature != [])
  }

  type Action = e: Event | Shaped(e) witness DoRevoke(0, true)

  function Step(lib: Library, s: State, e: Action): (r: State) {
    match e
    case DoRegister(username, password, privateKey, now, sig) =>
      Register(lib, s, username, password, privateKey, now, sig).0
    case DoGenerateCert(userId, now, sig) => GenerateCert(lib, s, userId, now, sig).0
    case DoRevoke(serial, saved) => RevokeCertificate(s, serial, saved)
    case DoSend(senderId, content, random, now, stamp, clock) =>
      SendMessage(lib, s, senderId, content, random, now, stamp, clock).0
    case DoSubmit(packet, clock) => ProcessPacket(lib, s, packet, clock).0
    case DoRestart(start) => Restart(lib, s, start)
  }

  /** The packet a step puts through the relay, if it gets that far. */
  function PacketOf(lib: Library, s: State, e: Action): (p: Option<Packet>) {
    match e
    case DoSubmit(packet, _) => Some(packet)
    case DoSend(senderId, content, random, now, stamp, _) =>
      if !s.HasUser(senderId) || Load(s.users[senderId - 1].certificate).None? then None
      else
        var user := s.users[senderId - 1];
        var serial := Load(user.certificate).value.serialNumber;
        var made := CreateOnionPacket(lib, s, content, user.privateKey, serial, senderId, random, now, stamp).1;
        if made.Ok? then Some(made.value) else None
    case _ => None
  }

  /** What a step delivers: the sender's row id and the plaintext. */
  function DeliveryOf(lib: Library, s: State, e: Action): (d: Option<(int, JSON)>) {
    match e
    case DoSubmit(packet, clock) =>
      (match ProcessPacket(lib, s, packet, clock).1
       case Ok(DeliveredFrom(id, plaintext)) => Some((id, plaintext))
       case _ => None)
    case DoSend(senderId, content, random, now, stamp, clock) =>
      (match SendMessage(lib, s, senderId, content, random, now, stamp, clock).1
       case Sent(_, _, Ok(DeliveredFrom(id, plaintext))) => Some((id, plaintext))
       case _ => None)
    case _ => None
  }

  /** The empty database, before the first start. */
  const EMPTY := State(Pki(false, [], CA_SERIAL, [], None, {}), [], [], [], map[])

  function After(lib: Library, es: seq<Action>, n: nat): (s: State)
    requires n <= |es|
  {
    if n == 0 then EMPTY else Step(lib, After(lib, es, n - 1), es[n - 1])
  }

  /** k is the key of some user, of the authority, or of something signed before. */
  predicate KeyUsed(lib: Library, s: State, k: JsString) {
    || k == CaPublic(lib, s.pki)
    || (exists i | 0 <= i < |s.users| :: s.users[i].publicKey == k)
    || (exists e | e in s.pki.ledger :: e.publicKey == k)
  }

  /** The server is up, and generated key pairs are new. */
  predicate Enabled(lib: Library, s: State, e: Action) {
    match e
    case DoRestart(start) => !KeyUsed(lib, s, lib.publicOf(start.caPrivate))
    case DoRegister(_, _, privateKey, _, _) => s.pki.initialized && !KeyUsed(lib, s, lib.publicOf(privateKey))
    case _ => s.pki.initialized
  }

  predicate Legal(lib: Library, es: seq<Action>) {
    forall i | 0 <= i < |es| :: Enabled(lib, After(lib, es, i), es[i])
  }
}
