/** Properties of every run of the relay backend, from the empty database on. */
module RelayRuns {
  import opened Prelude
  import opened Json
  import opened Libraries
  import opened Onion
  import opened PkiService
  import opened Relay
  import opened RelayInvariants
  import opened Signing
  import Payload
  import Utf8

  lemma {:induction false} AfterStep(lib: Library, es: seq<Action>, i: nat)
    requires i < |es|
    ensures After(lib, es, i + 1) == Step(lib, After(lib, es, i), es[i])
  {
    hide Step;
  }

  lemma {:induction false} InvHolds(lib: Library, es: seq<Action>, n: nat)
    requires n <= |es| && Legal(lib, es)
    ensures Inv(lib, After(lib, es, n))
  {
    hide Step, Enabled;
    if n > 0 {
      InvHolds(lib, es, n - 1);
      StepKeeps(lib, After(lib, es, n - 1), es[n - 1]);
    }
  }

  /**
   * A user's certificate names the row's key, and its user as the column keeps the name: verbatim if and only if the
   * name it was issued for has no lone surrogate.
   */
  predicate UserBound(u: User) {
    var c := Load(u.certificate);
    && c.Some? && c.value.publicKey == u.publicKey && c.value.serialNumber > 1000
    && Column(c.value.subject) == u.username
    && (c.value.subject == u.username <==> Utf8.WellFormed(c.value.subject))
  }

  /** Node i has its own name and key, and a serial below the counter while the server is up. */
  predicate NodeBound(s: State, i: nat) {
    && i < |s.nodes| <= 3
    && var c := Load(s.nodes[i].certificate);
    && c.Some? && c.value.subject == s.nodes[i].name == [Literal("NodeA"), Literal("NodeB"), Literal("NodeC")][i]
    && c.value.publicKey == s.nodes[i].publicKey
    && 1000 < c.value.serialNumber && (s.pki.initialized ==> c.value.serialNumber < s.pki.nextSerial)
  }

  /** So it is in every reachable state. */
  lemma {:induction false} RowsAreBound(lib: Library, es: seq<Action>, n: nat)
    requires n <= |es| && Legal(lib, es)
    ensures var s := After(lib, es, n);
            && (forall i | 0 <= i < |s.users| :: UserBound(s.users[i]))
            && (forall i | 0 <= i < |s.nodes| :: NodeBound(s, i))
  {
    hide After, Legal, UserBound, NodeBound, Inv, UserOk;
    InvHolds(lib, es, n);
    var s := After(lib, es, n);
    forall i | 0 <= i < |s.users|
      ensures UserBound(s.users[i])
    {
      UserIsBound(lib, s, i);
    }
    forall i | 0 <= i < |s.nodes|
      ensures NodeBound(s, i)
    {
      NodeIsBound(lib, s, i);
    }
  }

  lemma {:induction false} UserIsBound(lib: Library, s: State, i: nat)
    requires Inv(lib, s) && i < |s.users|
    ensures UserBound(s.users[i])
  {
    hide Load, NodesOk, Column;
    assert UserOk(lib, s.users[i]);
  }

  lemma {:induction false} NodeIsBound(lib: Library, s: State, i: nat)
    requires Inv(lib, s) && i < |s.nodes|
    ensures NodeBound(s, i)
  {
    hide Load, UsersOk, Literal;
    assert NodeOk(lib, Limit(s), s.nodes[i]);
  }

  lemma {:induction false} InvSettles(lib: Library, s: State)
    requires Inv(lib, s)
    ensures Settled(s)
  {
  }

  /** A row of the messages table is settled when its step ends, and no later step changes it. */
  lemma {:induction false} MessagesStay(lib: Library, es: seq<Action>, n: nat, m: nat)
    requires n <= m <= |es| && Legal(lib, es)
    ensures After(lib, es, n).messages <= After(lib, es, m).messages
    ensures Settled(After(lib, es, n))
  {
    hide Step, Enabled, Inv, UsersKept, Signs, Settled, After;
    InvHolds(lib, es, n);
    InvSettles(lib, After(lib, es, n));
    if n < m {
      MessagesStay(lib, es, n, m - 1);
      AfterStep(lib, es, m - 1);
      InvHolds(lib, es, m - 1);
      StepKeeps(lib, After(lib, es, m - 1), es[m - 1]);
    }
  }

  // --- Authenticity ----------------------------------------------------------------------------------

  /** One of the first n steps was a send by this user of a message with these UTF-8 bytes. */
  ghost predicate SentBefore(es: seq<Action>, n: nat, userId: int, data: Bytes)
    requires n <= |es|
  {
    exists j | 0 <= j < n :: es[j].DoSend? && es[j].senderId == userId && Utf8.Encode(es[j].content) == data
  }

  /** Whatever a user's key has signed, that user sent. */
  ghost predicate Explained(es: seq<Action>, n: nat, s: State)
    requires n <= |es|
  {
    forall x, u | x in s.pki.ledger && 0 <= u < |s.users| && x.publicKey == s.users[u].publicKey ::
      SentBefore(es, n, u + 1, x.data)
  }

  /** A user added by a step has a key that had signed nothing. */
  lemma {:induction false} NewUserIsFresh(lib: Library, s: State, e: Action, u: int, x: Signed)
    requires Inv(lib, s) && Enabled(lib, s, e) && |s.users| <= u < |Step(lib, s, e).users| && x in s.pki.ledger
    ensures x.publicKey != Step(lib, s, e).users[u].publicKey
  {
    hide ProcessPacket, SendMessage, Restart, Stored, SignedBytes, Load, UsersOk, NodesOk, CrlText;
    match e
    case DoSend(senderId, content, random, now, stamp, t) => SendFrame(lib, s, senderId, content, random, now, stamp, t);
    case DoSubmit(packet, t) => ProcessFrame(lib, s, packet, t);
    case DoRestart(b) => RestartKeeps(lib, s, b);
    case _ =>
  }

  /** One step keeps the ledger explained, given what it may sign and whom it may add. */
  lemma {:induction false} StepStaysExplained(lib: Library, es: seq<Action>, n: nat, s: State, s': State)
    requires 0 < n <= |es| && Explained(es, n - 1, s) && UsersOk(lib, s')
    requires UsersKept(s, s') && Signs(lib, s, es[n - 1], s')
    requires forall x, u | x in s.pki.ledger && |s.users| <= u < |s'.users| :: x.publicKey != s'.users[u].publicKey
    ensures Explained(es, n, s')
  {
    hide UserOk;
    forall x, u | x in s'.pki.ledger && 0 <= u < |s'.users| && x.publicKey == s'.users[u].publicKey
      ensures SentBefore(es, n, u + 1, x.data)
    {
      if x in s.pki.ledger {
        assert SentBefore(es, n - 1, u + 1, x.data);
      } else {
        var e := es[n - 1];
        assert e.DoSend? && s'.users[e.senderId - 1].publicKey == s'.users[u].publicKey;
      }
    }
  }

  lemma {:induction false} LedgerIsExplained(lib: Library, es: seq<Action>, n: nat)
    requires n <= |es| && Legal(lib, es)
    ensures Explained(es, n, After(lib, es, n))
  {
    hide Step, Enabled, UsersOk, NodesOk, UsersKept, Signs, Settled;
    if n > 0 {
      LedgerIsExplained(lib, es, n - 1);
      InvHolds(lib, es, n - 1);
      InvHolds(lib, es, n);
      var s, e, s' := After(lib, es, n - 1), es[n - 1], After(lib, es, n);
      StepKeeps(lib, s, e);
      forall x, u | x in s.pki.ledger && |s.users| <= u < |s'.users|
        ensures x.publicKey != s'.users[u].publicKey
      {
        NewUserIsFresh(lib, s, e, u, x);
      }
      StepStaysExplained(lib, es, n, s, s');
    }
  }

  ghost predicate HasSigned(s: State, key: Text, data: Bytes) {
    exists sig :: Verifies(s.pki.ledger, key, data, sig)
  }

  /** The sender's certificate verifies, and the sender's key signed the bytes of the plaintext. */
  ghost predicate Checked(lib: Library, s: State, id: int, plaintext: JSON, now: int) {
    && s.HasUser(id)
    && StoredIsValid(lib, s.pki, s.users[id - 1].certificate, now)
    && Payload.MessageText(lib, plaintext).Some?
    && HasSigned(s, s.users[id - 1].publicKey, Utf8.Encode(Payload.MessageText(lib, plaintext).value))
  }

  lemma {:induction false} CheckedFrame(lib: Library, s: State, s': State, id: int, plaintext: JSON, now: int)
    requires Checked(lib, s, id, plaintext, now) && s'.pki == s.pki && s'.users == s.users
    ensures Checked(lib, s', id, plaintext, now)
  {
    hide StoredIsValid, Payload.MessageText, Utf8.Encode;
    var data := Utf8.Encode(Payload.MessageText(lib, plaintext).value);
    var sig :| Verifies(s.pki.ledger, s.users[id - 1].publicKey, data, sig);
    assert Verifies(s'.pki.ledger, s'.users[id - 1].publicKey, data, sig);
  }

  lemma {:induction false} InspectedWasChecked(lib: Library, s: State, packet: JSON, now: int)
    requires Inspect(lib, s, packet, now).Ok? && Inspect(lib, s, packet, now).value.DeliveredFrom?
    ensures var DeliveredFrom(id, plaintext) := Inspect(lib, s, packet, now).value; Checked(lib, s, id, plaintext, now)
  {
    hide PeelThree, Hops, ProcessPayload, Checked;
    PayloadWasChecked(lib, s, PeelThree(lib, packet, Hops(lib, s, now)).value, now);
  }

  lemma {:induction false} PayloadWasChecked(lib: Library, s: State, text: Text, now: int)
    requires ProcessPayload(lib, s, text, now).Ok? && ProcessPayload(lib, s, text, now).value.DeliveredFrom?
    ensures var DeliveredFrom(id, plaintext) := ProcessPayload(lib, s, text, now).value;
            Checked(lib, s, id, plaintext, now)
  {
    hide ParseText, StoredIsValid, Load, BytesField, Payload.MessageText, Payload.RowId, Utf8.Encode, Get;
  }

  /** A delivered packet was checked: the sender's certificate, and the signature under the sender's key. */
  lemma {:induction false} DeliveredWasChecked(lib: Library, s: State, p: Packet, t: Reads)
    requires ProcessPacket(lib, s, p, t).1.Ok? && ProcessPacket(lib, s, p, t).1.value.DeliveredFrom?
    ensures var DeliveredFrom(id, plaintext) := ProcessPacket(lib, s, p, t).1.value;
            Checked(lib, s, id, plaintext, t.check)
  {
    hide Inspect, Checked, NonceTable.Purge;
    var purged := s.(nonces := NonceTable.Purge(s.nonces, t.purge));
    InspectedWasChecked(lib, purged, p.packet, t.check);
    CheckedFrame(lib, purged, s, Inspect(lib, purged, p.packet, t.check).value.senderId,
                 Inspect(lib, purged, p.packet, t.check).value.plaintext, t.check);
  }

  /** The checks of a delivery hold in the state its step leaves. */
  lemma {:induction false} DeliveryWasChecked(lib: Library, s: State, e: Action)
    requires DeliveryOf(lib, s, e).Some?
    ensures var (id, plaintext) := DeliveryOf(lib, s, e).value;
            var s' := Step(lib, s, e);
            (e.DoSend? || e.DoSubmit?) && Checked(lib, s', id, plaintext, e.clock.check)
  {
    hide ProcessPacket, OnionPacket, PacketText, AllNodesValid, Checked, Load;
    var (id, plaintext) := DeliveryOf(lib, s, e).value;
    if e.DoSubmit? {
      DeliveredWasChecked(lib, s, e.packet, e.clock);
      ProcessFrame(lib, s, e.packet, e.clock);
      CheckedFrame(lib, s, Step(lib, s, e), id, plaintext, e.clock.check);
    } else {
      var user := s.users[e.senderId - 1];
      var serial := Load(user.certificate).value.serialNumber;
      var (signed, made) :=
        CreateOnionPacket(lib, s, e.content, user.privateKey, serial, e.senderId, e.random, e.now, e.stamp);
      DeliveredWasChecked(lib, signed, made.value, e.clock);
      ProcessFrame(lib, signed, made.value, e.clock);
      CheckedFrame(lib, signed, Step(lib, s, e), id, plaintext, e.clock.check);
    }
  }

  /** The sender's certificate is valid and unrevoked, and the sender sent a message with these bytes. */
  ghost predicate Authentic(lib: Library, s: State, es: seq<Action>, n: nat, id: int, plaintext: JSON, now: int)
    requires n <= |es|
  {
    && s.HasUser(id)
    && var c := Load(s.users[id - 1].certificate);
    && c.Some? && Verify(lib, s.pki, c.value, now) == Valid && c.value.serialNumber !in s.pki.crl
    && var text := Payload.MessageText(lib, plaintext);
    text.Some? && SentBefore(es, n, id, Utf8.Encode(text.value))
  }

  lemma {:induction false} CheckedIsAuthentic(lib: Library, s: State, es: seq<Action>, n: nat, id: int, plaintext: JSON,
                                              now: int)
    requires n <= |es| && Explained(es, n, s) && Checked(lib, s, id, plaintext, now)
    ensures Authentic(lib, s, es, n, id, plaintext, now)
  {
    var data := Utf8.Encode(Payload.MessageText(lib, plaintext).value);
    var sig :| Verifies(s.pki.ledger, s.users[id - 1].publicKey, data, sig);
    assert Signed(s.users[id - 1].publicKey, data, sig) in s.pki.ledger;
  }

  /**
   * In every run, whatever packets are submitted, a message delivered for a sender has the UTF-8 bytes of a message
   * that sender sent, at this step or before, and the sender's certificate was valid and unrevoked.
   */
  lemma {:induction false} DeliveriesAreAuthentic(lib: Library, es: seq<Action>, i: nat, id: int, plaintext: JSON)
    requires i < |es| && Legal(lib, es) && DeliveryOf(lib, After(lib, es, i), es[i]) == Some((id, plaintext))
    ensures (es[i].DoSend? || es[i].DoSubmit?)
    ensures Authentic(lib, After(lib, es, i + 1), es, i + 1, id, plaintext, es[i].clock.check)
  {
    hide Step, DeliveryOf, Enabled, Explained, Checked, Authentic;
    DeliveryWasChecked(lib, After(lib, es, i), es[i]);
    LedgerIsExplained(lib, es, i + 1);
    CheckedIsAuthentic(lib, After(lib, es, i + 1), es, i + 1, id, plaintext, es[i].clock.check);
  }

  // --- Serial numbers --------------------------------------------------------------------------------

  /** The certificate a step issues to a user. */
  function IssuedBy(lib: Library, s: State, e: Action): (c: Option<Certificate>) {
    match e
    case DoRegister(username, password, privateKey, now, sig) =>
      (match Register(lib, s, username, password, privateKey, now, sig).1
       case Registered(_, c) => Some(c)
       case _ => None)
    case DoGenerateCert(userId, now, sig) => GenerateCert(lib, s, userId, now, sig).1
    case _ => None
  }

  lemma {:induction false} SerialMoves(lib: Library, s: State, e: Action)
    requires !e.DoRestart?
    ensures var c := IssuedBy(lib, s, e);
            Step(lib, s, e).pki.nextSerial == s.pki.nextSerial + (if c.Some? then 1 else 0)
    ensures IssuedBy(lib, s, e).Some? ==> IssuedBy(lib, s, e).value.serialNumber == s.pki.nextSerial
  {
    hide CrlText, ProcessPacket, SendMessage, Stored, SignedBytes, Load;
    match e
    case DoSend(senderId, content, random, now, stamp, t) => SendFrame(lib, s, senderId, content, random, now, stamp, t);
    case DoSubmit(packet, t) => ProcessFrame(lib, s, packet, t);
    case _ =>
  }

  lemma {:induction false} SerialGrows(lib: Library, es: seq<Action>, n: nat, m: nat)
    requires n <= m <= |es| && forall k | n <= k < m :: !es[k].DoRestart?
    ensures After(lib, es, n).pki.nextSerial <= After(lib, es, m).pki.nextSerial
  {
    hide Step;
    if n < m {
      SerialGrows(lib, es, n, m - 1);
      SerialMoves(lib, After(lib, es, m - 1), es[m - 1]);
    }
  }

  lemma {:induction false} NodesBelowNext(lib: Library, s: State)
    requires Inv(lib, s) && s.pki.initialized
    ensures forall k | 0 <= k < |s.nodes| :: SerialOf(s.nodes[k]) < s.pki.nextSerial
  {
    hide Load, UserOk;
    forall k | 0 <= k < |s.nodes|
      ensures SerialOf(s.nodes[k]) < s.pki.nextSerial
    {
      assert NodeOk(lib, Limit(s), s.nodes[k]);
    }
  }

  lemma {:induction false} IssuingIsUp(lib: Library, s: State, e: Action)
    requires IssuedBy(lib, s, e).Some?
    ensures s.pki.initialized
  {
    hide SignedBytes, Stored;
  }

  /** Within one lifetime of the server, later certificates have larger serial numbers, and larger than any node's. */
  lemma {:induction false} SerialsIncrease(lib: Library, es: seq<Action>, i: nat, j: nat, a: Certificate,
                                           b: Certificate)
    requires i < j < |es| && Legal(lib, es) && forall k | i <= k <= j :: !es[k].DoRestart?
    requires IssuedBy(lib, After(lib, es, i), es[i]) == Some(a)
    requires IssuedBy(lib, After(lib, es, j), es[j]) == Some(b)
    ensures a.serialNumber < b.serialNumber
    ensures var nodes := After(lib, es, i).nodes; forall k | 0 <= k < |nodes| :: SerialOf(nodes[k]) < a.serialNumber
  {
    hide Step, IssuedBy, Legal, After, Inv, SerialOf;
    IssuingIsUp(lib, After(lib, es, i), es[i]);
    SerialMoves(lib, After(lib, es, i), es[i]);
    SerialMoves(lib, After(lib, es, j), es[j]);
    AfterStep(lib, es, i);
    SerialGrows(lib, es, i + 1, j);
    InvHolds(lib, es, i);
    NodesBelowNext(lib, After(lib, es, i));
  }

  // --- Revocation ------------------------------------------------------------------------------------

  /** Every revocation among the first n steps reached the CRL file. */
  predicate AllSaved(es: seq<Action>, n: nat)
    requires n <= |es|
  {
    forall k | 0 <= k < n && es[k].DoRevoke? :: es[k].saved
  }

  lemma {:induction false} CrlMoves(lib: Library, s: State, e: Action)
    requires Inv(lib, s) && Enabled(lib, s, e)
    ensures !e.DoRestart? ==> forall k | k in s.pki.crl :: k in Step(lib, s, e).pki.crl
    ensures CrlFrom(s.pki.crlFile) == s.pki.crl && (e.DoRevoke? ==> e.saved) ==>
              && CrlFrom(Step(lib, s, e).pki.crlFile) == Step(lib, s, e).pki.crl
              && forall k | k in s.pki.crl :: k in Step(lib, s, e).pki.crl
  {
    hide CrlText, CrlFrom, UsersOk, NodesOk, Signs, UsersKept, ProcessPacket, SendMessage, Restart, Stored, SignedBytes;
    hide KeyUsed;
    StepKeeps(lib, s, e);
    match e
    case DoSend(senderId, content, random, now, stamp, t) => SendFrame(lib, s, senderId, content, random, now, stamp, t);
    case DoSubmit(packet, t) => ProcessFrame(lib, s, packet, t);
    case DoRestart(b) => RestartKeeps(lib, s, b); CrlFileKept(lib, s, b);
    case DoRevoke(serial, saved) => CrlFileReadsBack(Added(s.pki.crl, serial));
    case _ =>
  }

  lemma {:induction false} CrlFileKept(lib: Library, s: State, b: Start)
    requires Inv(lib, s) && GoodStart(b)
    ensures Restart(lib, s, b).pki.crlFile == s.pki.crlFile
  {
    hide CrlFrom, CaCertificate, SignedBytes, InitializeNodes, Inv, NodesOk;
    StartHasEffect(lib, s, b);
  }

  lemma {:induction false} FileIsList(lib: Library, es: seq<Action>, n: nat)
    requires n <= |es| && Legal(lib, es) && AllSaved(es, n)
    ensures CrlFrom(After(lib, es, n).pki.crlFile) == After(lib, es, n).pki.crl
  {
    hide Step, Enabled, Inv;
    if n > 0 {
      hide CrlFrom, After;
      AfterStep(lib, es, n - 1);
      FileIsList(lib, es, n - 1);
      InvHolds(lib, es, n - 1);
      CrlMoves(lib, After(lib, es, n - 1), es[n - 1]);
    }
  }

  /** While saves succeed, the file read back is the list in memory, and the list only grows, restarts included. */
  lemma {:induction false} RevocationIsPermanent(lib: Library, es: seq<Action>, n: nat, m: nat)
    requires n <= m <= |es| && Legal(lib, es) && AllSaved(es, m)
    ensures CrlFrom(After(lib, es, m).pki.crlFile) == After(lib, es, m).pki.crl
    ensures forall k | k in After(lib, es, n).pki.crl :: k in After(lib, es, m).pki.crl
  {
    hide Step, Enabled, Inv, CrlFrom, After;
    FileIsList(lib, es, m);
    if n < m {
      InvHolds(lib, es, m - 1);
      FileIsList(lib, es, m - 1);
      AfterStep(lib, es, m - 1);
      CrlMoves(lib, After(lib, es, m - 1), es[m - 1]);
      RevocationIsPermanent(lib, es, n, m - 1);
    }
  }

  /** Without restarts the list in memory grows whether or not saves succeed. */
  lemma {:induction false} RevocationOutlivesFailedSaves(lib: Library, es: seq<Action>, n: nat, m: nat)
    requires n <= m <= |es| && Legal(lib, es) && forall k | n <= k < m :: !es[k].DoRestart?
    ensures forall k | k in After(lib, es, n).pki.crl :: k in After(lib, es, m).pki.crl
  {
    hide Step, Enabled, CrlFrom, Inv;
    if n < m {
      InvHolds(lib, es, m - 1);
      CrlMoves(lib, After(lib, es, m - 1), es[m - 1]);
      RevocationOutlivesFailedSaves(lib, es, n, m - 1);
    }
  }

  lemma {:induction false} NodesStay(lib: Library, es: seq<Action>, n: nat, m: nat)
    requires n <= m <= |es| && Legal(lib, es)
    ensures After(lib, es, n).nodes <= After(lib, es, m).nodes
  {
    hide Step, Enabled, Inv, UsersKept, Signs, After;
    if n < m {
      NodesStay(lib, es, n, m - 1);
      AfterStep(lib, es, m - 1);
      InvHolds(lib, es, m - 1);
      StepKeeps(lib, After(lib, es, m - 1), es[m - 1]);
    }
  }

  /** A packet gets through only if every relay certificate verifies in the state the step leaves. */
  lemma {:induction false} DeliveryNeedsNodes(lib: Library, s: State, e: Action, k: nat)
    requires Inv(lib, s) && DeliveryOf(lib, s, e).Some? && k < |s.nodes|
    ensures (e.DoSend? || e.DoSubmit?) && StoredIsValid(lib, Step(lib, s, e).pki, s.nodes[k].certificate, e.clock.check)
  {
    hide ProcessPacket, OnionPacket, PacketText, AllNodesValid, StoredIsValid, Load;
    if e.DoSubmit? {
      ProcessNeedsNodes(lib, s, e.packet, e.clock, k);
      ProcessFrame(lib, s, e.packet, e.clock);
    } else {
      var user := s.users[e.senderId - 1];
      var serial := Load(user.certificate).value.serialNumber;
      var (signed, made) :=
        CreateOnionPacket(lib, s, e.content, user.privateKey, serial, e.senderId, e.random, e.now, e.stamp);
      ProcessNeedsNodes(lib, signed, made.value, e.clock, k);
      ProcessFrame(lib, signed, made.value, e.clock);
    }
  }

  lemma {:induction false} ProcessNeedsNodes(lib: Library, s: State, p: Packet, t: Reads, k: nat)
    requires ProcessPacket(lib, s, p, t).1.Ok? && ProcessPacket(lib, s, p, t).1.value.DeliveredFrom?
    requires |s.nodes| <= 3 && k < |s.nodes|
    ensures StoredIsValid(lib, s.pki, s.nodes[k].certificate, t.check)
  {
    hide Inspect, NonceTable.Purge, StoredIsValid;
    InspectNeedsNodes(lib, s.(nonces := NonceTable.Purge(s.nonces, t.purge)), p.packet, t.check, k);
  }

  lemma {:induction false} InspectNeedsNodes(lib: Library, s: State, packet: JSON, now: int, k: nat)
    requires Inspect(lib, s, packet, now).Ok? && |s.nodes| <= 3 && k < |s.nodes|
    ensures StoredIsValid(lib, s.pki, s.nodes[k].certificate, now)
  {
    hide PeelThree, Peel, ProcessPayload, StoredIsValid;
    var hops := Hops(lib, s, now);
    if !hops[k].certificateValid {
      assert hops[..3] == hops;
      PeelNeedsEveryCertificate(lib, packet, hops);
      ThreeIsPeel(lib, packet, hops);
    }
  }

  lemma {:induction false} ThreeIsPeel(lib: Library, packet: JSON, hops: seq<Hop>)
    requires |hops| == 3
    ensures PeelThree(lib, packet, hops) == Peel(lib, packet, hops)
  {
    hide PeelThree, Peel, ThreeLayers, Build;
    var r := LayerRandom([], [], []);
    ThreeIsAnInstance(lib, [], packet, hops, [r, r, r]);
    assert hops[..3] == hops;
  }
}
