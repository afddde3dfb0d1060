/** Exactly when a message sent through the relays is delivered, and what is then recorded. */
module SendExactly {
  import opened Prelude
  import opened Json
  import opened Libraries
  import opened NonceTable
  import opened Onion
  import opened PkiService
  import opened Relay
  import opened RelayInvariants
  import opened Records
  import opened Signing
  import Decimal
  import Hex
  import Payload
  import Utf8

  // --- Any payload -----------------------------------------------------------------------------------

  /** A field of a payload text, when it is an object. */
  function Part(text: Text, name: string): (v: Option<JSON>) {
    match ParseText(JavaScript, text)
    case Some(Obj(f)) => Get(f, Literal(name))
    case _ => None
  }

  /** The row id that the senderId field selects: a decimal integer does itself, and the rest is SQLite's affair. */
  function SenderIn(lib: Library, text: Text): (id: Option<int>) {
    match Part(text, "senderId")
    case None => None
    case Some(Num(token)) =>
      if Decimal.ToInt(token).Some? then Decimal.ToInt(token) else lib.rowIdOf(Num(token))
    case Some(v) => lib.rowIdOf(v)
  }

  /** The payload names this user's row. */
  predicate Names(lib: Library, s: State, text: Text, id: int) {
    SenderIn(lib, text) == Some(id) && s.HasUser(id)
  }

  /** The bytes of the signature field. */
  function SignatureIn(lib: Library, text: Text): (b: Option<Bytes>) {
    match Part(text, "signature")
    case None => None
    case Some(Str(hex)) => Some(Hex.Decode(hex))
    case Some(v) => lib.bufferOf(v)
  }

  /** The text of the message field, as signing takes it: null and numbers throw there. */
  function MessageIn(lib: Library, text: Text): (t: Option<Text>) {
    match Part(text, "message")
    case None => None
    case Some(Str(s)) => Some(s)
    case Some(Null) => None
    case Some(Num(_)) => None
    case Some(v) => lib.stringOf(v)
  }

  lemma {:induction false} UserLoads(lib: Library, s: State, i: nat)
    requires UsersOk(lib, s) && i < |s.users|
    ensures Load(s.users[i].certificate).Some? && s.users[i].publicKey != CaPublic(lib, s.pki)
    ensures s.users[i].publicKey == lib.publicOf(s.users[i].privateKey)
  {
    assert UserOk(lib, s.users[i]);
  }

  /** When the relay gives each of its answers, for any text that comes out of the last layer. */
  lemma {:induction false} PayloadAnswersExactly(lib: Library, s: State, text: Text, id: int, message: JSON, now: int)
    requires Inv(lib, s)
    ensures var r := ProcessPayload(lib, s, text, now);
            var sig, data := SignatureIn(lib, text), MessageIn(lib, text);
            && (r == Err(BadJson) <==> ParseText(JavaScript, text).None?)
            && (r == Err(SenderNotFound) ==> !Names(lib, s, text, id))
            && (Names(lib, s, text, id) ==>
                var user := s.users[id - 1];
                var valid := StoredIsValid(lib, s.pki, user.certificate, now);
                && (r == Ok(Rejected) <==>
                    !valid || (sig.Some? && data.Some? &&
                               Signed(user.publicKey, Utf8.Encode(data.value), sig.value) !in s.pki.ledger))
                && (r == Err(BadPayload) <==> valid && (sig.None? || data.None?)))
            && (r == Ok(DeliveredFrom(id, message)) <==>
                && Names(lib, s, text, id) && Part(text, "message") == Some(message)
                && StoredIsValid(lib, s.pki, s.users[id - 1].certificate, now)
                && sig.Some? && data.Some?
                && Signed(s.users[id - 1].publicKey, Utf8.Encode(data.value), sig.value) in s.pki.ledger)
  {
    hide ParseText, StoredIsValid, Load, Utf8.Encode, UsersOk, NodesOk, Hex.Decode, Decimal.ToInt;
    if s.HasUser(id) {
      UserLoads(lib, s, id - 1);
    }
    match ParseText(JavaScript, text)
    case Some(Obj(f)) =>
      var sender := Get(f, Payload.SENDER_ID);
      if sender.Some? && Payload.RowId(lib, sender.value).Some? && s.HasUser(Payload.RowId(lib, sender.value).value) {
        UserLoads(lib, s, Payload.RowId(lib, sender.value).value - 1);
      }
    case _ =>
  }

  // --- Any packet built for the relays ---------------------------------------------------------------

  /** What the relay makes of a payload of these parts. */
  function Verdict(lib: Library, s: State, userId: int, content: JsString, signature: Bytes, now: int)
    : (r: Result<Outcome, Failure>)
  {
    if !s.HasUser(userId) then Err(SenderNotFound)
    else
      var user := s.users[userId - 1];
      if StoredIsValid(lib, s.pki, user.certificate, now)
         && Signed(user.publicKey, Utf8.Encode(content), signature) in s.pki.ledger
      then Ok(DeliveredFrom(userId, Str(content)))
      else Ok(Rejected)
  }

  lemma {:induction false} PayloadDecided(lib: Library, s: State, userId: int, content: JsString, signature: Bytes,
                                          serial: int, now: int)
    requires Inv(lib, s)
    ensures ProcessPayload(lib, s, Payload.PayloadText(content, signature, userId, serial), now)
         == Verdict(lib, s, userId, content, signature, now)
  {
    hide Payload.PayloadText, Payload.PayloadFields, ParseText, StoredIsValid, Load, Utf8.Encode, BytesField, UsersOk;
    hide Payload.RowId, NodesOk, Get, Literal, Hex.Encode, Decimal.OfInt;
    if s.HasUser(userId) {
      UserLoads(lib, s, userId - 1);
    }
    Payload.PayloadReads(lib, content, signature, userId, serial);
  }

  lemma {:induction false} PublicKeysDecideLayers(lib: Library, data: Text, a: seq<Hop>, b: seq<Hop>,
                                                  r: seq<LayerRandom>)
    requires |a| == |b| == |r| == 3 && forall i | 0 <= i < 3 :: a[i].publicKey == b[i].publicKey
    ensures ThreeLayers(lib, data, a, r) == ThreeLayers(lib, data, b, r)
  {
  }

  /** A packet for the three relays peels exactly when every relay certificate is valid at that time. */
  lemma {:induction false} PeelDecided(lib: Library, s: State, payload: Text, r: seq<LayerRandom>, built: int, now: int)
    requires lib.Lawful() && Inv(lib, s) && |s.nodes| == 3 && Utf8.WellFormed(payload)
    requires |r| == 3 && forall i | 0 <= i < 3 :: GoodRandom(r[i])
    ensures PeelThree(lib, ThreeLayers(lib, payload, Hops(lib, s, built), r), Hops(lib, s, now))
         == if AllNodesValid(lib, s, now) then Ok(payload) else Err(NodeCertificate)
  {
    hide ThreeLayers, PeelThree, StoredIsValid;
    var hops := Hops(lib, s, now);
    PublicKeysDecideLayers(lib, payload, Hops(lib, s, built), hops, r);
    forall i | 0 <= i < 3
      ensures hops[i].publicKey == lib.publicOf(hops[i].privateKey)
    {
      assert NodeOk(lib, Limit(s), s.nodes[i]);
    }
    ThreePeelExactly(lib, payload, hops, r);
  }

  /**
   * Inspecting a packet built over a payload of any content, signature and sender: it is delivered exactly when the
   * relays' certificates and the sender's are valid and the sender's key made this very signature of the content.
   */
  lemma {:induction false} InspectDecided(lib: Library, s: State, userId: int, content: JsString, signature: Bytes,
                                          serial: int, r: seq<LayerRandom>, built: int, now: int)
    requires lib.Lawful() && Inv(lib, s) && |s.nodes| == 3
    requires |r| == 3 && forall i | 0 <= i < 3 :: GoodRandom(r[i])
    ensures var payload := Payload.PayloadText(content, signature, userId, serial);
            Inspect(lib, s, ThreeLayers(lib, payload, Hops(lib, s, built), r), now)
            == if AllNodesValid(lib, s, now) then Verdict(lib, s, userId, content, signature, now) else Err(NodeCertificate)
  {
    hide ThreeLayers, PeelThree, Payload.PayloadText, ProcessPayload, Verdict, AllNodesValid, Inv, Hops;
    var payload := Payload.PayloadText(content, signature, userId, serial);
    Payload.PayloadReads(lib, content, signature, userId, serial);
    PeelDecided(lib, s, payload, r, built, now);
    PayloadDecided(lib, s, userId, content, signature, serial, now);
  }

  /** The nonce was stored and its minute, by the clock of the purge, is not over. */
  predicate Remembered(s: State, nonce: JsString, now: int) {
    Column(nonce) in s.nonces && s.nonces[Column(nonce)] >= now - 60000
  }

  /** What processPacket answers, test by test, when a packet built over such a payload is submitted. */
  function Answered(lib: Library, s: State, userId: int, content: JsString, signature: Bytes, nonce: JsString, stamp: int,
                    t: Reads): (r: Result<Outcome, Failure>)
  {
    if nonce == [] then Err(MissingNonce)
    else if Remembered(s, nonce, t.purge) then Err(ReplayDetected)
    else if stamp == 0 then Err(MissingTimestamp)
    else if stamp < t.test - 60000 || stamp > t.test + 60000 then Err(OutsideWindow)
    else if !AllNodesValid(lib, s, t.check) then Err(NodeCertificate)
    else Verdict(lib, s, userId, content, signature, t.check)
  }

  /**
   * Submitting a packet built over a payload of any content, signature and sender gives exactly that answer. The
   * nonces afterwards are those stored in the last minute, and the packet's own if it was delivered; nothing else
   * changes, and without a nonce nothing at all.
   */
  lemma {:induction false} SubmittedExactly(lib: Library, s: State, userId: int, content: JsString, signature: Bytes,
                                            serial: int, r: seq<LayerRandom>, built: int, nonce: JsString, stamp: int,
                                            t: Reads)
    requires lib.Lawful() && Inv(lib, s) && |s.nodes| == 3
    requires |r| == 3 && forall i | 0 <= i < 3 :: GoodRandom(r[i])
    ensures var payload := Payload.PayloadText(content, signature, userId, serial);
            var p := Packet(nonce, stamp, ThreeLayers(lib, payload, Hops(lib, s, built), r));
            var (after, result) := ProcessPacket(lib, s, p, t);
            var delivered := result == Ok(DeliveredFrom(userId, Str(content)));
            && result == Answered(lib, s, userId, content, signature, nonce, stamp, t)
            && after.(nonces := s.nonces) == s
            && (nonce == [] ==> after == s)
            && (nonce != [] ==> forall n :: n in after.nonces <==>
                                  (n in s.nonces && s.nonces[n] >= t.purge - 60000) || (delivered && n == Column(nonce)))
            && forall n | n in after.nonces ::
                 after.nonces[n] == if delivered && n == Column(nonce) then t.store
                                    else if n in s.nonces then s.nonces[n] else t.store
  {
    hide ThreeLayers, Payload.PayloadText, Inspect, Inv, AllNodesValid, Hops, Column, StoredIsValid, Utf8.Encode;
    var payload := Payload.PayloadText(content, signature, userId, serial);
    var packet := ThreeLayers(lib, payload, Hops(lib, s, built), r);
    var purged := s.(nonces := Purge(s.nonces, t.purge));
    InspectFrame(lib, s, purged, packet, t.check);
    InspectDecided(lib, s, userId, content, signature, serial, r, built, t.check);
  }

  // --- The packet of a send --------------------------------------------------------------------------

  /** Signing with a key that is not the authority's changes no certificate's validity. */
  lemma {:induction false} SigningKeepsValidity(lib: Library, p: Pki, key: Text, data: Bytes, sig: Bytes, t: Text,
                                                now: int)
    requires key != CaPublic(lib, p)
    ensures StoredIsValid(lib, p.(ledger := Sign(p.ledger, key, data, sig)), t, now) == StoredIsValid(lib, p, t, now)
  {
  }

  /** The state once the message is signed. */
  function MessageSigned(lib: Library, s: State, userId: int, content: JsString, signature: Bytes): (q: State)
    requires s.HasUser(userId)
  {
    var key := lib.publicOf(s.users[userId - 1].privateKey);
    s.(pki := s.pki.(ledger := Sign(s.pki.ledger, key, Utf8.Encode(content), signature)))
  }

  /** Signing the message changes no relay, and no certificate's validity. */
  lemma {:induction false} SigningKeeps(lib: Library, s: State, userId: int, content: JsString, signature: Bytes,
                                        now: int)
    requires Inv(lib, s) && s.HasUser(userId)
    ensures var q := MessageSigned(lib, s, userId, content, signature);
            && Inv(lib, q) && Hops(lib, q, now) == Hops(lib, s, now)
            && AllNodesValid(lib, q, now) == AllNodesValid(lib, s, now)
            && Verdict(lib, q, userId, content, signature, now)
               == if StoredIsValid(lib, s.pki, s.users[userId - 1].certificate, now)
                  then Ok(DeliveredFrom(userId, Str(content))) else Ok(Rejected)
  {
    hide StoredIsValid, Utf8.Encode, Load;
    var user, q := s.users[userId - 1], MessageSigned(lib, s, userId, content, signature);
    UserLoads(lib, s, userId - 1);
    SigningKeepsValidity(lib, s.pki, user.publicKey, Utf8.Encode(content), signature, user.certificate, now);
    forall i | 0 <= i < |s.nodes|
      ensures HopOf(lib, q.pki, s.nodes[i], now) == HopOf(lib, s.pki, s.nodes[i], now)
    {
      SigningKeepsValidity(lib, s.pki, user.publicKey, Utf8.Encode(content), signature, s.nodes[i].certificate, now);
    }
    assert Hops(lib, q, now) == Hops(lib, s, now);
  }

  /** The state in which a send's packet is processed: the message signed, the old nonces purged. */
  function Prepared(lib: Library, s: State, userId: int, content: JsString, signature: Bytes, purge: int): (q: State)
    requires s.HasUser(userId)
  {
    MessageSigned(lib, s, userId, content, signature).(nonces := Purge(s.nonces, purge))
  }

  lemma {:induction false} HonestInspect(lib: Library, s: State, userId: int, content: JsString, r: SendRandom,
                                         serial: int, purge: int, stamp: int, now: int)
    requires lib.Lawful() && Inv(lib, s) && s.HasUser(userId) && GoodSend(r) && |s.nodes| == 3
    ensures var q := Prepared(lib, s, userId, content, r.signature, purge);
            Inspect(lib, q, OnionPacket(lib, s, content, userId, serial, r, stamp).packet, now)
            == if !AllNodesValid(lib, s, now) then Err(NodeCertificate)
               else if StoredIsValid(lib, s.pki, s.users[userId - 1].certificate, now)
               then Ok(DeliveredFrom(userId, Str(content)))
               else Ok(Rejected)
  {
    hide Inspect, Inv, AllNodesValid, StoredIsValid, Hops, ThreeLayers, Payload.PayloadText, Verdict;
    var q := MessageSigned(lib, s, userId, content, r.signature);
    SigningKeeps(lib, s, userId, content, r.signature, stamp);
    SigningKeeps(lib, s, userId, content, r.signature, now);
    InspectDecided(lib, q, userId, content, r.signature, serial, r.layers, stamp, now);
    InspectFrame(lib, q, Prepared(lib, s, userId, content, r.signature, purge),
                 OnionPacket(lib, s, content, userId, serial, r, stamp).packet, now);
  }

  /** The nonce is not in the table once it is purged, and the stamp is in the window. */
  predicate FreshInWindow(s: State, nonce: Bytes, stamp: int, t: Reads) {
    Hex.Encode(nonce) !in Purge(s.nonces, t.purge) && stamp != 0 && InWindow(stamp, t.test)
  }

  /** The answer to a send by an existing user on a running server. */
  function Replied(lib: Library, s: State, userId: int, content: JsString, r: SendRandom, now: int, stamp: int, t: Reads)
    : (result: Result<Outcome, Failure>)
    requires s.HasUser(userId)
  {
    if !AllNodesValid(lib, s, now) then Err(NodeCertificate)
    else if Remembered(s, Hex.Encode(r.nonce), t.purge) then Err(ReplayDetected)
    else if stamp == 0 then Err(MissingTimestamp)
    else if !InWindow(stamp, t.test) then Err(OutsideWindow)
    else if !AllNodesValid(lib, s, t.check) then Err(NodeCertificate)
    else if !StoredIsValid(lib, s.pki, s.users[userId - 1].certificate, t.check) then Ok(Rejected)
    else Ok(DeliveredFrom(userId, Str(content)))
  }

  /** What decides a send by an existing user on a running server. */
  function Expected(lib: Library, s: State, userId: int, r: SendRandom, now: int, stamp: int, t: Reads): (status: Status)
    requires s.HasUser(userId)
  {
    if !AllNodesValid(lib, s, now) || !AllNodesValid(lib, s, t.check) || !FreshInWindow(s, r.nonce, stamp, t) then Failed
    else if !StoredIsValid(lib, s.pki, s.users[userId - 1].certificate, t.check) then SignatureInvalid
    else Delivered
  }

  /** The step of sendMessage after the packet is made. */
  lemma {:induction false} SendIsProcess(lib: Library, s: State, userId: int, content: JsString, r: SendRandom,
                                         now: int, stamp: int, t: Reads)
    requires Inv(lib, s) && s.pki.initialized && s.HasUser(userId) && GoodSend(r) && AllNodesValid(lib, s, now)
    ensures Load(s.users[userId - 1].certificate).Some?
    ensures var serial := Load(s.users[userId - 1].certificate).value.serialNumber;
            var packet := OnionPacket(lib, s, content, userId, serial, r, stamp);
            var (after, result) := ProcessPacket(lib, MessageSigned(lib, s, userId, content, r.signature), packet, t);
            var row := Message(userId, PacketText(packet), ContentOf(result), StatusOf(result));
            SendMessage(lib, s, userId, content, r, now, stamp, t)
            == (after.(messages := s.messages + [row]), Sent(|s.messages| + 1, StatusOf(result), result))
  {
    hide ProcessPacket, OnionPacket, PacketText, AllNodesValid, Load, NodesOk;
    assert UserOk(lib, s.users[userId - 1]);
  }

  lemma {:induction false} SendIsRefused(lib: Library, s: State, userId: int, content: JsString, r: SendRandom,
                                         now: int, stamp: int, t: Reads)
    requires Inv(lib, s) && s.pki.initialized && s.HasUser(userId) && GoodSend(r) && !AllNodesValid(lib, s, now)
    ensures SendMessage(lib, s, userId, content, r, now, stamp, t)
         == (s.(messages := s.messages + [Message(userId, [], None, Failed)]),
             Sent(|s.messages| + 1, Failed, Err(NodeCertificate)))
  {
    hide ProcessPacket, OnionPacket, PacketText, AllNodesValid, Load, NodesOk;
    assert UserOk(lib, s.users[userId - 1]);
  }

  lemma {:induction false} HexColumn(b: Bytes)
    ensures Column(Hex.Encode(b)) == Hex.Encode(b)
  {
    HexIsPlain(b);
    Utf8.AsciiIsWellFormed(Hex.Encode(b));
  }

  lemma {:induction false} ProcessDecided(lib: Library, s: State, userId: int, content: JsString, r: SendRandom,
                                          serial: int, now: int, stamp: int, t: Reads)
    requires lib.Lawful() && Inv(lib, s) && s.HasUser(userId) && GoodSend(r) && |s.nodes| == 3 && AllNodesValid(lib, s, now)
    ensures var packet := OnionPacket(lib, s, content, userId, serial, r, stamp);
            var (after, result) := ProcessPacket(lib, MessageSigned(lib, s, userId, content, r.signature), packet, t);
            && result == Replied(lib, s, userId, content, r, now, stamp, t)
            && after.nonces == if result == Ok(DeliveredFrom(userId, Str(content)))
                               then Purge(s.nonces, t.purge)[Hex.Encode(r.nonce) := t.store] else Purge(s.nonces, t.purge)
  {
    hide Inspect, StoredIsValid, AllNodesValid, Inv, ThreeLayers, Column;
    HonestInspect(lib, s, userId, content, r, serial, t.purge, stamp, t.check);
    assert |Hex.Encode(r.nonce)| == 32;
    HexColumn(r.nonce);
  }

  lemma {:induction false} RepliedIsExpected(lib: Library, s: State, userId: int, content: JsString, r: SendRandom,
                                             now: int, stamp: int, t: Reads)
    requires s.HasUser(userId)
    ensures StatusOf(Replied(lib, s, userId, content, r, now, stamp, t)) == Expected(lib, s, userId, r, now, stamp, t)
  {
    hide StoredIsValid, AllNodesValid, Column;
    HexColumn(r.nonce);
  }

  /**
   * A send is delivered exactly when all relay certificates are valid when the packet is built and when it is
   * processed, the nonce is fresh, the stamp is in the window and the sender's certificate is valid. The row it
   * leaves then holds the submitted content, as its column keeps it, under the sender's id.
   */
  lemma {:induction false} SendDecided(lib: Library, s: State, userId: int, content: JsString, r: SendRandom, now: int,
                                       stamp: int, t: Reads)
    requires lib.Lawful() && Inv(lib, s) && s.pki.initialized && s.HasUser(userId) && GoodSend(r)
    ensures var (s', sent) := SendMessage(lib, s, userId, content, r, now, stamp, t);
            var status := Expected(lib, s, userId, r, now, stamp, t);
            && sent == Sent(|s.messages| + 1, status, Replied(lib, s, userId, content, r, now, stamp, t))
            && |s'.messages| == |s.messages| + 1 && s'.messages[..|s.messages|] == s.messages
            && s'.messages[|s.messages|].status == status
            && s'.messages[|s.messages|].senderId == userId
            && s'.messages[|s.messages|].content == (if status == Delivered then Some(Str(Column(content))) else None)
            && (status == Delivered ==> sent.result == Ok(DeliveredFrom(userId, Str(content))))
            && s'.nonces == if status == Delivered then Purge(s.nonces, t.purge)[Hex.Encode(r.nonce) := t.store]
                            else if AllNodesValid(lib, s, now) then Purge(s.nonces, t.purge) else s.nonces
  {
    hide ProcessPacket, OnionPacket, PacketText, StoredIsValid, Purge, AllNodesValid, UsersOk, NodesOk, FreshInWindow;
    hide Expected;
    RepliedIsExpected(lib, s, userId, content, r, now, stamp, t);
    if AllNodesValid(lib, s, now) {
      SendIsProcess(lib, s, userId, content, r, now, stamp, t);
      ProcessDecided(lib, s, userId, content, r, Load(s.users[userId - 1].certificate).value.serialNumber, now, stamp, t);
    } else {
      SendIsRefused(lib, s, userId, content, r, now, stamp, t);
    }
  }

  /** In any state, a send leaves no row and changes nothing exactly when its user is missing or has no certificate. */
  lemma {:induction false} SendRefusedExactly(lib: Library, s: State, userId: int, content: JsString, r: SendRandom,
                                              now: int, stamp: int, t: Reads)
    requires GoodSend(r)
    ensures var (s', sent) := SendMessage(lib, s, userId, content, r, now, stamp, t);
            && (sent == UserNotFound <==> userId < 1 || userId > |s.users|)
            && (sent == UnreadableCertificate <==>
                1 <= userId <= |s.users| && Load(s.users[userId - 1].certificate).None?)
            && (s' == s <==> !sent.Sent?)
            && (sent.Sent? ==> |s'.messages| == |s.messages| + 1)
  {
    hide ProcessPacket, PacketText, Load, OnionPacket, AllNodesValid;
    if s.HasUser(userId) && Load(s.users[userId - 1].certificate).Some? {
      var s' := SendMessage(lib, s, userId, content, r, now, stamp, t).0;
      assert |s'.messages| == |s.messages| + 1;
    }
  }

  // --- What the row stores ---------------------------------------------------------------------------

  /** The text is that of a packet: its version and layer count, and the nonce, stamp and layers that were sent. */
  predicate Holds(t: Text, nonce: Text, stamp: int, packet: JSON) {
    match ParseText(JavaScript, t)
    case Some(Obj(f)) =>
      && Get(f, Literal("version")) == Some(Num([49])) && Get(f, Literal("layers")) == Some(Num([51]))
      && Get(f, Literal("nonce")) == Some(Str(nonce)) && Get(f, Literal("timestamp")) == Some(Num(Decimal.OfInt(stamp)))
      && Get(f, Literal("packet")) == Some(packet)
    case _ => false
  }

  /** A printed packet reads back field for field. */
  lemma {:induction false} PacketReads(p: Packet)
    requires Fits(JavaScript, p.packet)
    ensures Holds(PacketText(p), p.nonce, p.timestamp, p.packet)
  {
    hide ParseText, PrintTo, Decimal.OfInt, IsNumber, Fits;
    var values := PacketValues(p);
    PacketFits(p);
    Json.RoundTrip(JavaScript, Obj(Record(PACKET_NAMES, values)));
    GetRecord(PACKET_NAMES, values, 0);
    GetRecord(PACKET_NAMES, values, 1);
    GetRecord(PACKET_NAMES, values, 2);
    GetRecord(PACKET_NAMES, values, 3);
    GetRecord(PACKET_NAMES, values, 4);
  }

  /**
   * The row of a send holds the packet that was sent, under its nonce and stamp. Submitted again at any time when the
   * relays' certificates are valid, its layers peel to a payload with this content and signature, its sender and the
   * serial number of the sender's certificate. When no packet was made, the row holds nothing.
   */
  lemma {:induction false} SendStores(lib: Library, s: State, userId: int, content: JsString, r: SendRandom, now: int,
                                      stamp: int, t: Reads, later: int)
    requires lib.Lawful() && Inv(lib, s) && s.pki.initialized && s.HasUser(userId) && GoodSend(r)
    ensures Load(s.users[userId - 1].certificate).Some?
    ensures var serial := Load(s.users[userId - 1].certificate).value.serialNumber;
            var stored := SendMessage(lib, s, userId, content, r, now, stamp, t).0.messages[|s.messages|].payload;
            var payload := Payload.PayloadText(content, r.signature, userId, serial);
            var packet := ThreeLayers(lib, payload, Hops(lib, s, stamp), r.layers);
            if !AllNodesValid(lib, s, now) then stored == []
            else
              && Holds(stored, Hex.Encode(r.nonce), stamp, packet)
              && (AllNodesValid(lib, s, later) ==> PeelThree(lib, packet, Hops(lib, s, later)) == Ok(payload))
  {
    hide ProcessPacket, PacketText, StoredIsValid, AllNodesValid, Hops, ThreeLayers, Payload.PayloadText, PeelThree, Holds;
    hide NodesOk, Load;
    UserLoads(lib, s, userId - 1);
    if AllNodesValid(lib, s, now) {
      SendIsProcess(lib, s, userId, content, r, now, stamp, t);
      var serial := Load(s.users[userId - 1].certificate).value.serialNumber;
      PacketReads(OnionPacket(lib, s, content, userId, serial, r, stamp));
      Payload.PayloadReads(lib, content, r.signature, userId, serial);
      PeelDecided(lib, s, Payload.PayloadText(content, r.signature, userId, serial), r.layers, stamp, later);
    } else {
      SendIsRefused(lib, s, userId, content, r, now, stamp, t);
    }
  }
}
