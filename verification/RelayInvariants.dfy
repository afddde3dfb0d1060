/** What every run of the relay backend keeps. */
module RelayInvariants {
  import opened Prelude
  import opened Json
  import opened Libraries
  import opened NonceTable
  import opened Onion
  import opened PkiService
  import opened Relay
  import opened Signing
  import Decimal
  import Hex
  import Utf8

  /** The row's certificate names the row's user, as the column keeps the name, and the row's own key pair. */
  predicate UserOk(lib: Library, u: User) {
    && u.publicKey == lib.publicOf(u.privateKey) && Utf8.WellFormed(u.username)
    && match Load(u.certificate)
       case None => false
       case Some(c) => Column(c.subject) == u.username && c.publicKey == u.publicKey && c.serialNumber > CA_SERIAL
  }

  predicate NodeOk(lib: Library, nextSerial: int, node: Node) {
    && node.publicKey == lib.publicOf(node.privateKey)
    && match Load(node.certificate)
       case None => false
       case Some(c) =>
         c.subject == node.name && c.publicKey == node.publicKey && CA_SERIAL < c.serialNumber < nextSerial
  }

  /** The serial number of a node's certificate, or 0. */
  function SerialOf(node: Node): (n: int) {
    match Load(node.certificate)
    case None => 0
    case Some(c) => c.serialNumber
  }

  predicate UsersOk(lib: Library, s: State) {
    && (forall i | 0 <= i < |s.users| :: UserOk(lib, s.users[i]) && s.users[i].publicKey != CaPublic(lib, s.pki))
    && (forall i, j | 0 <= i < j < |s.users| ::
          s.users[i].publicKey != s.users[j].publicKey && s.users[i].username != s.users[j].username)
  }

  /** The serial of the last node, or the authority's own. */
  function Last(nodes: seq<Node>): (n: int) {
    if nodes == [] then CA_SERIAL else SerialOf(nodes[|nodes| - 1])
  }

  /** A bound on the serials of the nodes: the counter, or the last node's when no server is up. */
  function Limit(s: State): (n: int) {
    if s.pki.initialized then s.pki.nextSerial else Last(s.nodes) + 1
  }

  predicate NodesOk(lib: Library, nextSerial: int, nodes: seq<Node>) {
    && |nodes| <= |RELAY_NODES|
    && (forall i | 0 <= i < |nodes| :: nodes[i].name == RELAY_NODES[i])
    && (forall i | 0 <= i < |nodes| :: NodeOk(lib, nextSerial, nodes[i]))
    && (forall i, j | 0 <= i < j < |nodes| :: SerialOf(nodes[i]) < SerialOf(nodes[j]))
  }

  predicate Settled(s: State) {
    forall i | 0 <= i < |s.messages| :: s.messages[i].status != Pending
  }

  predicate Inv(lib: Library, s: State) {
    && UsersOk(lib, s)
    && NodesOk(lib, Limit(s), s.nodes)
    && (s.pki.initialized ==> |s.nodes| == 3 && s.pki.nextSerial > CA_SERIAL)
    && Settled(s)
    && NoRepeats(s.pki.crl)
  }

  lemma {:induction false} EmptyIsGood(lib: Library)
    ensures Inv(lib, EMPTY)
  {
  }

  // --- One step --------------------------------------------------------------------------------------

  /** Rows of the users table are only added, and keep their names and keys. */
  predicate UsersKept(s: State, s': State) {
    && |s.users| <= |s'.users|
    && forall i | 0 <= i < |s.users| ::
         && s'.users[i].username == s.users[i].username
         && s'.users[i].publicKey == s.users[i].publicKey
         && s'.users[i].privateKey == s.users[i].privateKey
  }

  /** What a step may sign: certificates by the authority, and the content of a send by its sender. */
  predicate Signs(lib: Library, s: State, e: Event, s': State) {
    && s.pki.ledger <= s'.pki.ledger
    && forall x | x in s'.pki.ledger ::
         || x in s.pki.ledger
         || x.publicKey == CaPublic(lib, s'.pki)
         || (e.DoSend? && s.HasUser(e.senderId) && x.publicKey == s.users[e.senderId - 1].publicKey
             && x.data == Utf8.Encode(e.content))
  }

  lemma {:induction false} ProcessFrame(lib: Library, s: State, p: Packet, t: Reads)
    ensures var s' := ProcessPacket(lib, s, p, t).0; s'.(nonces := s.nonces) == s
  {
  }

  /** Inspection looks at the authority, the users and the nodes only. */
  lemma {:induction false} InspectFrame(lib: Library, s: State, s': State, packet: JSON, now: int)
    requires s'.pki == s.pki && s'.users == s.users && s'.nodes == s.nodes
    ensures Inspect(lib, s', packet, now) == Inspect(lib, s, packet, now)
  {
    hide PeelThree, ParseText, StoredIsValid, Load;
    assert Hops(lib, s', now) == Hops(lib, s, now);
  }

  /** What sendMessage may change: the ledger by one signature of the sender, new settled rows, and the nonces. */
  predicate SendEffect(lib: Library, s: State, userId: int, content: JsString, signature: Bytes, s': State) {
    && s'.users == s.users && s'.nodes == s.nodes
    && s'.pki.(ledger := s.pki.ledger) == s.pki
    && s.messages <= s'.messages
    && (forall i | |s.messages| <= i < |s'.messages| :: s'.messages[i].status != Pending)
    && (s'.pki.ledger == s.pki.ledger
        || (s.HasUser(userId)
            && s'.pki.ledger == Sign(s.pki.ledger, lib.publicOf(s.users[userId - 1].privateKey),
                                     Utf8.Encode(content), signature)))
  }

  lemma {:induction false} SendFrame(lib: Library, s: State, userId: int, content: JsString, r: SendRandom, now: int,
                                     stamp: int, t: Reads)
    requires GoodSend(r)
    ensures SendEffect(lib, s, userId, content, r.signature,
                       SendMessage(lib, s, userId, content, r, now, stamp, t).0)
  {
    hide ProcessPacket, Load, OnionPacket, PacketText, Utf8.Encode, AllNodesValid;
    if s.HasUser(userId) && Load(s.users[userId - 1].certificate).Some? {
      var user := s.users[userId - 1];
      var serial := Load(user.certificate).value.serialNumber;
      var (signed, made) := CreateOnionPacket(lib, s, content, user.privateKey, serial, userId, r, now, stamp);
      if made.Ok? {
        ProcessFrame(lib, signed, made.value, t);
      }
    }
  }

  /** What issuing does to the authority. */
  lemma {:induction false} IssueFrame(lib: Library, p: Pki, subject: JsString, publicKey: JsString, now: int,
                                      sig: Bytes)
    requires p.initialized
    ensures var (q, c) := Issue(lib, p, subject, publicKey, now, sig);
            && c.Some? && c.value.serialNumber == p.nextSerial && q.nextSerial == p.nextSerial + 1
            && c.value.subject == subject && c.value.publicKey == publicKey
            && q.(nextSerial := p.nextSerial, ledger := p.ledger) == p
            && q.ledger == Sign(p.ledger, CaPublic(lib, p), SignedBytes(c.value), sig)
            && Load(Stored(c.value)) == c
  {
    hide Load, Stored, SignedBytes, Hex.Encode;
    LoadInvertsStored(NewCertificate(lib, p.nextSerial, subject, publicKey, now, sig));
  }

  lemma {:induction false} NodesOkLater(lib: Library, n: int, m: int, nodes: seq<Node>)
    requires NodesOk(lib, n, nodes) && n <= m
    ensures NodesOk(lib, m, nodes)
  {
    hide Load;
  }

  lemma {:induction false} UserAdded(lib: Library, s: State, s': State, user: User)
    requires UsersOk(lib, s) && CaPublic(lib, s'.pki) == CaPublic(lib, s.pki) && s'.users == s.users + [user]
    requires UserOk(lib, user) && !KeyUsed(lib, s, user.publicKey) && !s.NameTaken(user.username)
    ensures UsersOk(lib, s') && UsersKept(s, s')
  {
    hide UserOk;
  }

  lemma {:induction false} RegisterKeeps(lib: Library, s: State, username: JsString, password: JsString,
                                         privateKey: JsString, now: int, sig: Bytes)
    requires Inv(lib, s) && s.pki.initialized && !KeyUsed(lib, s, lib.publicOf(privateKey))
    ensures var s' := Register(lib, s, username, password, privateKey, now, sig).0;
            && Inv(lib, s') && UsersKept(s, s') && s'.messages == s.messages && s'.nodes == s.nodes
            && Signs(lib, s, DoRegister(username, password, privateKey, now, sig), s')
  {
    hide Load, Stored, SignedBytes, UsersOk, NodesOk, UserOk, Utf8.Encode;
    var publicKey := lib.publicOf(privateKey);
    var (s', r) := Register(lib, s, username, password, privateKey, now, sig);
    IssueFrame(lib, s.pki, username, publicKey, now, sig);
    if r.Registered? {
      var user := User(Column(username), publicKey, privateKey, Stored(r.certificate));
      IssuedUserOk(lib, user, r.certificate);
      UserAdded(lib, s, s', user);
      NodesOkLater(lib, s.pki.nextSerial, s'.pki.nextSerial, s.nodes);
    }
  }

  lemma {:induction false} IssuedUserOk(lib: Library, user: User, c: Certificate)
    requires user.publicKey == lib.publicOf(user.privateKey) && Load(user.certificate) == Some(c)
    requires Column(c.subject) == user.username && c.publicKey == user.publicKey && c.serialNumber > CA_SERIAL
    ensures UserOk(lib, user)
  {
  }

  lemma {:induction false} UserReplaced(lib: Library, s: State, s': State, i: nat, certificate: Text)
    requires UsersOk(lib, s) && i < |s.users| && CaPublic(lib, s'.pki) == CaPublic(lib, s.pki)
    requires s'.users == s.users[i := s.users[i].(certificate := certificate)] && UserOk(lib, s'.users[i])
    ensures UsersOk(lib, s') && UsersKept(s, s')
  {
    hide UserOk;
  }

  lemma {:induction false} UserIsOk(lib: Library, s: State, i: nat)
    requires UsersOk(lib, s) && i < |s.users|
    ensures UserOk(lib, s.users[i])
  {
    hide UserOk;
  }

  lemma {:induction false} GenerateKeeps(lib: Library, s: State, userId: int, now: int, sig: Bytes)
    requires Inv(lib, s) && s.pki.initialized
    ensures var s' := GenerateCert(lib, s, userId, now, sig).0;
            && Inv(lib, s') && UsersKept(s, s') && s'.messages == s.messages && s'.nodes == s.nodes
            && Signs(lib, s, DoGenerateCert(userId, now, sig), s')
  {
    hide Load, Stored, SignedBytes, UsersOk, NodesOk, Utf8.Encode;
    if s.HasUser(userId) {
      var user := s.users[userId - 1];
      UserIsOk(lib, s, userId - 1);
      IssueFrame(lib, s.pki, user.username, user.publicKey, now, sig);
      var s' := GenerateCert(lib, s, userId, now, sig).0;
      var c := Issue(lib, s.pki, user.username, user.publicKey, now, sig).1.value;
      UserReplaced(lib, s, s', userId - 1, Stored(c));
      NodesOkLater(lib, s.pki.nextSerial, s'.pki.nextSerial, s.nodes);
    }
  }

  lemma {:induction false} InvFrame(lib: Library, s: State, s': State)
    requires Inv(lib, s) && s'.users == s.users && s'.nodes == s.nodes && s'.pki.(ledger := s.pki.ledger) == s.pki
    requires Settled(s')
    ensures Inv(lib, s') && UsersKept(s, s')
  {
    hide UserOk, NodeOk;
    assert s'.pki.caPrivate == s.pki.caPrivate && s'.pki.nextSerial == s.pki.nextSerial && s'.pki.crl == s.pki.crl;
  }

  lemma {:induction false} EffectKeeps(lib: Library, s: State, e: Action, s': State)
    requires Inv(lib, s) && e.DoSend? && SendEffect(lib, s, e.senderId, e.content, e.random.signature, s')
    ensures Inv(lib, s') && UsersKept(s, s') && Signs(lib, s, e, s')
  {
    hide NodesOk, Load, Utf8.Encode;
    forall i | 0 <= i < |s'.messages|
      ensures s'.messages[i].status != Pending
    {
      if i < |s.messages| {
        assert s'.messages[i] == s.messages[i];
      }
    }
    InvFrame(lib, s, s');
    if s.HasUser(e.senderId) {
      assert UserOk(lib, s.users[e.senderId - 1]);
    }
  }

  lemma {:induction false} SendKeeps(lib: Library, s: State, e: Action)
    requires Inv(lib, s) && e.DoSend?
    ensures var s' := Step(lib, s, e);
            && Inv(lib, s') && UsersKept(s, s') && Signs(lib, s, e, s')
            && s.messages <= s'.messages && s'.nodes == s.nodes
  {
    hide SendMessage, Inv, Signs, UsersKept;
    SendFrame(lib, s, e.senderId, e.content, e.random, e.now, e.stamp, e.clock);
    EffectKeeps(lib, s, e, Step(lib, s, e));
  }

  lemma {:induction false} NodeAdded(lib: Library, n: int, nodes: seq<Node>, node: Node)
    requires NodesOk(lib, n, nodes) && NodeOk(lib, n + 1, node) && SerialOf(node) == n
    requires |nodes| < |RELAY_NODES| && node.name == RELAY_NODES[|nodes|]
    ensures NodesOk(lib, n + 1, nodes + [node])
  {
    hide Load;
    NodesOkLater(lib, n, n + 1, nodes);
  }

  /** The serials of nodes stay below the last one's successor. */
  lemma {:induction false} NodesOkTight(lib: Library, n: int, nodes: seq<Node>)
    requires NodesOk(lib, n, nodes)
    ensures NodesOk(lib, Last(nodes) + 1, nodes)
  {
    hide NodeOk, SerialOf;
    forall i | 0 <= i < |nodes|
      ensures NodeOk(lib, Last(nodes) + 1, nodes[i])
    {
      assert i < |nodes| - 1 ==> SerialOf(nodes[i]) < SerialOf(nodes[|nodes| - 1]);
      NodeOkWithin(lib, n, Last(nodes) + 1, nodes[i]);
    }
  }

  lemma {:induction false} NodeOkWithin(lib: Library, n: int, m: int, node: Node)
    requires NodeOk(lib, n, node) && SerialOf(node) < m
    ensures NodeOk(lib, m, node)
  {
    hide Load;
  }

  /** The certificate that the start b makes for relay node k. */
  function CertificateOfNode(lib: Library, b: Start, k: nat): (c: Certificate)
    requires GoodStart(b) && k < 3
  {
    NewCertificate(lib, CA_SERIAL + 1 + k, RELAY_NODES[k], lib.publicOf(b.nodeKeys[k]), b.now, b.nodeSignatures[k])
  }

  function NodeRow(lib: Library, b: Start, k: nat): (node: Node)
    requires GoodStart(b) && k < 3
  {
    Node(RELAY_NODES[k], lib.publicOf(b.nodeKeys[k]), b.nodeKeys[k], Stored(CertificateOfNode(lib, b, k)))
  }

  /** The authority's entry for the certificate of node k. */
  function NodeEntry(lib: Library, b: Start, key: JsString, k: nat): (x: Signed)
    requires GoodStart(b) && k < 3
  {
    Signed(key, SignedBytes(CertificateOfNode(lib, b, k)), b.nodeSignatures[k])
  }

  /** What making the nodes from number i on does, wherever it stops. */
  predicate NodesMade(lib: Library, p: Pki, nodes: seq<Node>, b: Start, q: Pki, ns: seq<Node>)
    requires GoodStart(b)
  {
    && nodes <= ns && |ns| <= 3 && (|ns| == |nodes| || |ns| == 3 || 2 * |ns| <= b.stop)
    && (forall k | |nodes| <= k < |ns| :: ns[k] == NodeRow(lib, b, k))
    && q.(nextSerial := p.nextSerial, ledger := p.ledger) == p
    && p.ledger <= q.ledger
    && (forall k | |nodes| <= k < |ns| :: NodeEntry(lib, b, CaPublic(lib, p), k) in q.ledger)
    && (forall x | x in q.ledger :: x in p.ledger || exists k | 0 <= k < 3 :: x == NodeEntry(lib, b, CaPublic(lib, p), k))
  }

  lemma {:induction false} AddNodesOk(lib: Library, p: Pki, nodes: seq<Node>, b: Start, i: nat)
    requires GoodStart(b) && i == |nodes| <= 3 && p.initialized && 2 * i <= b.stop
    requires NodesOk(lib, p.nextSerial, nodes) && p.nextSerial == CA_SERIAL + 1 + i
    ensures var (q, ns, ok) := AddNodes(lib, p, nodes, b, i);
            && NodesOk(lib, q.nextSerial, ns) && q.nextSerial > CA_SERIAL && NodesMade(lib, p, nodes, b, q, ns)
            && (ok <==> b.stop >= 6 || i == 3) && |ns| == (if ok then 3 else b.stop / 2)
            && (ok ==> q.nextSerial == CA_SERIAL + 4)
    decreases 3 - i
  {
    hide Load, Stored, SignedBytes, NodesOk, NewCertificate, NodesMade, Literal;
    NoneMade(lib, p, nodes, b, p);
    if i < 3 && b.stop > 2 * i {
      var publicKey := lib.publicOf(b.nodeKeys[i]);
      IssueFrame(lib, p, RELAY_NODES[i], publicKey, b.now, b.nodeSignatures[i]);
      var (q, c) := Issue(lib, p, RELAY_NODES[i], publicKey, b.now, b.nodeSignatures[i]);
      var node := NodeRow(lib, b, i);
      assert c == Some(CertificateOfNode(lib, b, i));
      assert q.ledger == p.ledger + {NodeEntry(lib, b, CaPublic(lib, p), i)};
      NodesOkLater(lib, p.nextSerial, q.nextSerial, nodes);
      NameIsFree(lib, p.nextSerial, nodes);
      if b.stop == 2 * i + 1 {
        NoneMade(lib, p, nodes, b, q);
      } else {
        RowIsOk(lib, b, i);
        NodeAdded(lib, p.nextSerial, nodes, node);
        AddNodesOk(lib, q, nodes + [node], b, i + 1);
        var (q', ns, ok) := AddNodes(lib, q, nodes + [node], b, i + 1);
        MadeFrom(lib, p, nodes, b, q, q', ns);
      }
    }
  }

  lemma {:induction false} NoneMade(lib: Library, p: Pki, nodes: seq<Node>, b: Start, q: Pki)
    requires GoodStart(b) && |nodes| <= 3 && q.(nextSerial := p.nextSerial, ledger := p.ledger) == p
    requires q.ledger == p.ledger || (|nodes| < 3 && q.ledger == p.ledger + {NodeEntry(lib, b, CaPublic(lib, p), |nodes|)})
    ensures NodesMade(lib, p, nodes, b, q, nodes)
  {
    hide NodeEntry;
  }

  lemma {:induction false} RowIsOk(lib: Library, b: Start, k: nat)
    requires GoodStart(b) && k < 3
    ensures NodeOk(lib, CA_SERIAL + 2 + k, NodeRow(lib, b, k)) && SerialOf(NodeRow(lib, b, k)) == CA_SERIAL + 1 + k
  {
    hide Load, Stored;
    LoadInvertsStored(CertificateOfNode(lib, b, k));
  }

  /** Making one node and then the rest. */
  lemma {:induction false} MadeFrom(lib: Library, p: Pki, nodes: seq<Node>, b: Start, q: Pki, q': Pki, ns: seq<Node>)
    requires GoodStart(b) && |nodes| < 3 && q.(nextSerial := p.nextSerial, ledger := p.ledger) == p
    requires q.ledger == p.ledger + {NodeEntry(lib, b, CaPublic(lib, p), |nodes|)}
    requires NodesMade(lib, q, nodes + [NodeRow(lib, b, |nodes|)], b, q', ns)
    requires |nodes| + 1 == 3 || 2 * |nodes| + 2 <= b.stop
    ensures NodesMade(lib, p, nodes, b, q', ns)
  {
    hide NodeRow, NodeEntry;
    assert CaPublic(lib, q) == CaPublic(lib, p);
    assert ns[|nodes|] == (nodes + [NodeRow(lib, b, |nodes|)])[|nodes|];
  }

  lemma {:induction false} NameIsFree(lib: Library, n: int, nodes: seq<Node>)
    requires NodesOk(lib, n, nodes) && |nodes| < 3
    ensures !HasName(nodes, RELAY_NODES[|nodes|])
  {
    RelayNamesDiffer();
  }

  lemma {:induction false} RelayNamesDiffer()
    ensures forall i, j | 0 <= i < j < 3 :: RELAY_NODES[i] != RELAY_NODES[j]
  {
    assert RELAY_NODES[0][4] == 65 && RELAY_NODES[1][4] == 66 && RELAY_NODES[2][4] == 67;
  }

  lemma {:induction false} SetOfHasNoRepeats(crl: seq<int>, x: Items)
    requires NoRepeats(crl)
    ensures NoRepeats(SetOf(crl, x))
    decreases x
  {
    match x
    case INil =>
    case ICons(Num(token), more) =>
      var n := Decimal.ToInt(token);
      SetOfHasNoRepeats(if n.Some? then Added(crl, n.value) else crl, more);
    case ICons(_, more) => SetOfHasNoRepeats(crl, more);
  }

  lemma {:induction false} CrlFromHasNoRepeats(file: Option<Text>)
    ensures NoRepeats(CrlFrom(file))
  {
    if file.Some? {
      match ParseText(JavaScript, file.value)
      case Some(Arr(items)) => SetOfHasNoRepeats([], items);
      case _ =>
    }
  }

  /** The service after a start, before the relay nodes. */
  function Started(lib: Library, s: State, b: Start): (p: Pki) {
    SignCertificate(lib, Pki(true, b.caPrivate, CA_SERIAL + 1, CrlFrom(s.pki.crlFile), s.pki.crlFile, s.pki.ledger),
                    CaCertificate(lib, b), b.caSignature)
  }

  /** A start over some of the nodes but not all fails on the first name, which is taken. */
  lemma {:induction false} PartialFails(lib: Library, p: Pki, nodes: seq<Node>, b: Start)
    requires GoodStart(b) && p.initialized && 0 < |nodes| < 3 && nodes[0].name == RELAY_NODES[0]
    requires p.nextSerial == CA_SERIAL + 1
    ensures var (q, ns, ok) := AddNodes(lib, p, nodes, b, 0);
            && !ok && ns == nodes && q.(nextSerial := p.nextSerial, ledger := p.ledger) == p && p.ledger <= q.ledger
            && (forall x | x in q.ledger :: x in p.ledger || x == NodeEntry(lib, b, CaPublic(lib, p), 0))
  {
    hide SignedBytes, NewCertificate;
    assert HasName(nodes, RELAY_NODES[0]);
  }

  /** The server is up after a start exactly when the nodes were there, or none were and all of them get made. */
  predicate Completes(s: State, b: Start) {
    |s.nodes| == 3 || (s.nodes == [] && b.stop >= 6)
  }

  /** How many nodes there are after a start. */
  function NodesAfter(s: State, b: Start): (n: nat) {
    if s.nodes != [] then |s.nodes| else if b.stop >= 6 then 3 else b.stop / 2
  }

  /** What starting over the nodes table does to it and to the service. */
  predicate StartEffect(lib: Library, s: State, b: Start, q: Pki, ns: seq<Node>, ok: bool)
    requires GoodStart(b)
  {
    var p := Started(lib, s, b);
    && s.nodes <= ns && |ns| == NodesAfter(s, b) && (ok <==> Completes(s, b))
    && NodesOk(lib, if ok then q.nextSerial else Last(ns) + 1, ns) && (ok ==> q.nextSerial > CA_SERIAL)
    && q.(nextSerial := p.nextSerial, ledger := p.ledger) == p && p.ledger <= q.ledger
    && (forall x | x in q.ledger :: x in p.ledger || NodeSigned(lib, s, b, CaPublic(lib, p), x))
    && (s.nodes == [] ==> forall k | 0 <= k < |ns| ::
          ns[k] == NodeRow(lib, b, k) && NodeEntry(lib, b, CaPublic(lib, p), k) in q.ledger)
  }

  /** x is the authority's signature on the certificate of a node that this start makes. */
  predicate NodeSigned(lib: Library, s: State, b: Start, key: JsString, x: Signed)
    requires GoodStart(b)
  {
    |s.nodes| < 3 && exists k | 0 <= k < 3 :: x == NodeEntry(lib, b, key, k)
  }

  lemma {:induction false} StartHasEffect(lib: Library, s: State, b: Start)
    requires Inv(lib, s) && GoodStart(b)
    ensures var (q, ns, ok) := InitializeNodes(lib, Started(lib, s, b), s.nodes, b); StartEffect(lib, s, b, q, ns, ok)
  {
    hide CrlFrom, CaCertificate, SignedBytes, AddNodes, UserOk, NodesOk, Load, NewCertificate, UsersOk, NodeRow;
    var p := Started(lib, s, b);
    var (q, ns, ok) := InitializeNodes(lib, p, s.nodes, b);
    if s.nodes == [] {
      NoNodesOk(lib);
      AddNodesOk(lib, p, [], b, 0);
      NodesOkTight(lib, q.nextSerial, ns);
    } else {
      FirstName(lib, s);
      NodesOkTight(lib, Limit(s), s.nodes);
      if |s.nodes| < 3 {
        PartialFails(lib, p, s.nodes, b);
      } else {
        LastNodeLoads(lib, Limit(s), s.nodes);
        NodesOkLater(lib, SerialOf(s.nodes[2]) + 1, q.nextSerial, s.nodes);
      }
    }
  }

  lemma {:induction false} RestartKeeps(lib: Library, s: State, b: Start)
    requires Inv(lib, s) && GoodStart(b) && !KeyUsed(lib, s, lib.publicOf(b.caPrivate))
    ensures var s' := Restart(lib, s, b);
            && Inv(lib, s') && s'.users == s.users && s'.messages == s.messages && s.nodes <= s'.nodes
            && s'.pki.caPrivate == b.caPrivate && s'.pki.crl == CrlFrom(s.pki.crlFile)
            && (s'.pki.initialized <==> Completes(s, b)) && |s'.nodes| == NodesAfter(s, b)
            && Signs(lib, s, DoRestart(b), s')
  {
    hide CrlFrom, CaCertificate, SignedBytes, InitializeNodes, UserOk, NodesOk;
    CrlFromHasNoRepeats(s.pki.crlFile);
    StartHasEffect(lib, s, b);
  }

  lemma {:induction false} NoNodesOk(lib: Library)
    ensures NodesOk(lib, CA_SERIAL + 1, [])
  {
  }

  lemma {:induction false} FirstName(lib: Library, s: State)
    requires Inv(lib, s) && s.nodes != []
    ensures |s.nodes| <= 3 && s.nodes[0].name == RELAY_NODES[0]
  {
  }

  lemma {:induction false} LastNodeLoads(lib: Library, n: int, nodes: seq<Node>)
    requires NodesOk(lib, n, nodes) && |nodes| >= 3
    ensures |nodes| == 3 && Load(nodes[2].certificate).Some? && SerialOf(nodes[2]) > CA_SERIAL
  {
    assert NodeOk(lib, n, nodes[2]);
  }

  lemma {:induction false} RevokeKeeps(lib: Library, s: State, serial: int, saved: bool)
    requires Inv(lib, s)
    ensures var s' := RevokeCertificate(s, serial, saved);
            Inv(lib, s') && UsersKept(s, s') && s'.messages == s.messages && s'.nodes == s.nodes
            && Signs(lib, s, DoRevoke(serial, saved), s')
  {
    hide CrlText, UserOk, NodesOk;
  }

  /** Every enabled step keeps the invariant, the users and the messages already there. */
  lemma {:induction false} StepKeeps(lib: Library, s: State, e: Action)
    requires Inv(lib, s) && Enabled(lib, s, e)
    ensures var s' := Step(lib, s, e);
            && Inv(lib, s') && UsersKept(s, s') && Signs(lib, s, e, s')
            && s.messages <= s'.messages && s.nodes <= s'.nodes
  {
    hide Register, GenerateCert, SendMessage, ProcessPacket, Restart, CrlText, UsersOk, NodesOk, KeyUsed;
    match e
    case DoRegister(username, password, privateKey, now, sig) =>
      RegisterKeeps(lib, s, username, password, privateKey, now, sig);
    case DoGenerateCert(userId, now, sig) => GenerateKeeps(lib, s, userId, now, sig);
    case DoRevoke(serial, saved) => RevokeKeeps(lib, s, serial, saved);
    case DoSend(_, _, _, _, _, _) =>
      SendKeeps(lib, s, e);
    case DoSubmit(packet, t) => ProcessFrame(lib, s, packet, t); InvFrame(lib, s, ProcessPacket(lib, s, packet, t).0);
    case DoRestart(b) => RestartKeeps(lib, s, b);
  }
}
