/** Exactly which steps of a run deliver a message, and what makes sure that none does. */
module RelayDelivery {
  import opened Prelude
  import opened Json
  import opened Libraries
  import opened Onion
  import opened PkiService
  import opened Relay
  import opened RelayInvariants
  import opened RelayLifetimes
  import opened RelayRuns
  import opened SendExactly
  import Hex

  // --- Every user row has its certificate from some step ---------------------------------------------

  lemma {:induction false} OnlyRegisteringAdds(lib: Library, s: State, e: Action)
    requires |Step(lib, s, e).users| > |s.users|
    ensures e.DoRegister? && IssuedBy(lib, s, e).Some? && |Step(lib, s, e).users| == |s.users| + 1
  {
    hide ProcessPacket, SendMessage, Stored, SignedBytes, CrlText, Load, Initialize, Column;
    match e
    case DoSend(senderId, content, random, now, stamp, t) => SendFrame(lib, s, senderId, content, random, now, stamp, t);
    case DoSubmit(packet, t) => ProcessFrame(lib, s, packet, t);
    case _ =>
  }

  /** Every user row was given its certificate by one step, and by none since. */
  lemma {:induction false} RowWasCertified(lib: Library, es: seq<Action>, n: nat, u: nat) returns (i: nat)
    requires n <= |es| && u < |After(lib, es, n).users|
    ensures i < n && CertifiedAt(lib, es, i, u) && NotRecertified(lib, es, i + 1, n, u)
  {
    hide Step, IssuedBy;
    if CertifiedAt(lib, es, n - 1, u) {
      i := n - 1;
    } else {
      if u >= |After(lib, es, n - 1).users| {
        OnlyRegisteringAdds(lib, After(lib, es, n - 1), es[n - 1]);
      }
      i := RowWasCertified(lib, es, n - 1, u);
    }
  }

  // --- A send in a run -------------------------------------------------------------------------------

  lemma {:induction false} SendResultIsStatus(lib: Library, s: State, e: Action)
    requires e.DoSend?
    ensures var sent := SendMessage(lib, s, e.senderId, e.content, e.random, e.now, e.stamp, e.clock).1;
            sent.Sent? ==> sent.status == StatusOf(sent.result)
  {
    hide ProcessPacket, PacketText, Load, CreateOnionPacket;
  }

  /** A send is delivered exactly when it is expected to be. */
  lemma {:induction false} SendIsDelivered(lib: Library, s: State, e: Action)
    requires lib.Lawful() && Inv(lib, s) && s.pki.initialized && e.DoSend? && s.HasUser(e.senderId)
    ensures DeliveryOf(lib, s, e)
         == if Expected(lib, s, e.senderId, e.random, e.now, e.stamp, e.clock) == Delivered
            then Some((e.senderId, Str(e.content))) else None
  {
    hide SendMessage, Expected, Inv;
    SendDecided(lib, s, e.senderId, e.content, e.random, e.now, e.stamp, e.clock);
    SendResultIsStatus(lib, s, e);
  }

  /**
   * Step r made the nodes and step i the sender's certificate: there was no start since, the node serials and the
   * sender's are not revoked, the readings are inside the dates, the nonce is fresh and the stamp in the window.
   */
  predicate Deliverable(lib: Library, es: seq<Action>, r: nat, i: nat, n: nat)
    requires r < n < |es| && i < n && es[r].DoRestart? && es[n].DoSend?
    requires (es[i].DoRegister? || es[i].DoGenerateCert?) && IssuedBy(lib, After(lib, es, i), es[i]).Some?
  {
    var s, e := After(lib, es, n), es[n];
    && SameLifetime(es, r + 1, n) && SameLifetime(es, i + 1, n)
    && NodesCurrent(lib, s.pki, es[r].start.now, e.now) && NodesCurrent(lib, s.pki, es[r].start.now, e.clock.check)
    && Current(lib, s.pki, IssuedBy(lib, After(lib, es, i), es[i]).value.serialNumber, es[i].now, e.clock.check)
    && FreshInWindow(s, e.random.nonce, e.stamp, e.clock)
  }

  /** In every run, exactly when a send by an existing user is delivered; what is delivered is what was sent. */
  lemma {:induction false} SendInRunExactly(lib: Library, es: seq<Action>, r: nat, i: nat, n: nat)
    requires lib.Lawful() && lib.DateLaw() && Legal(lib, es)
    requires r < n < |es| && NodesMadeAt(lib, es, r) && Datable(lib, es[r].start.now)
    requires es[n].DoSend? && es[n].senderId >= 1
    requires i < n && CertifiedAt(lib, es, i, es[n].senderId - 1) && NotRecertified(lib, es, i + 1, n, es[n].senderId - 1)
    requires Datable(lib, es[i].now)
    ensures DeliveryOf(lib, After(lib, es, n), es[n])
         == if Deliverable(lib, es, r, i, n) then Some((es[n].senderId, Str(es[n].content))) else None
  {
    hide Step, DeliveryOf, After, StoredIsValid, AllNodesValid, FreshInWindow, NodesCurrent, Current, IssuedBy, Inv;
    hide SameLifetime, NotRecertified;
    var s, e := After(lib, es, n), es[n];
    assert Enabled(lib, s, e);
    InvHolds(lib, es, n);
    AllNodesValidExactly(lib, es, r, n, e.now);
    AllNodesValidExactly(lib, es, r, n, e.clock.check);
    UserIsValidExactly(lib, es, i, n, e.senderId - 1, e.clock.check);
    SendIsDelivered(lib, s, e);
  }

  // --- Nothing is delivered --------------------------------------------------------------------------

  /** A delivery happens only in the process that made the nodes, with none of their serials revoked. */
  lemma {:induction false} DeliveryNeedsLifetime(lib: Library, es: seq<Action>, m: nat, k: nat) returns (r: nat)
    requires m < |es| && Legal(lib, es) && DeliveryOf(lib, After(lib, es, m), es[m]).Some? && k < 3
    ensures r < m && NodesMadeAt(lib, es, r) && SameLifetime(es, r + 1, m + 1)
    ensures |After(lib, es, m).nodes| == 3 && SerialOf(After(lib, es, m).nodes[k]) !in After(lib, es, m + 1).pki.crl
  {
    hide Step, DeliveryOf, StoredIsValid, After, SameLifetime, Inv, NodeRow;
    var s := After(lib, es, m);
    InvHolds(lib, es, m);
    DeliveringIsUp(lib, s, es[m]);
    assert Enabled(lib, s, es[m]);
    ThreeNodes(lib, s);
    r := NodesWereMade(lib, es, m);
    NodesAreMade(lib, es, r, m, k);
    DeliveryNeedsNodes(lib, s, es[m], k);
    AfterStep(lib, es, m);
    RowIsCertificate(lib, es[r].start, k);
    NodeNeedsLifetime(lib, es, r, m + 1, k, es[m].clock.check);
    ValidIsUnrevoked(lib, After(lib, es, m + 1).pki, s.nodes[k], es[m].clock.check);
  }

  lemma {:induction false} DeliveringIsUp(lib: Library, s: State, e: Action)
    requires DeliveryOf(lib, s, e).Some?
    ensures !e.DoRestart? && (e.DoSend? || e.DoSubmit?)
  {
    hide SendMessage, ProcessPacket;
  }

  lemma {:induction false} RowIsCertificate(lib: Library, b: Start, k: nat)
    requires GoodStart(b) && k < 3
    ensures NodeRow(lib, b, k).certificate == Stored(CertificateOfNode(lib, b, k))
  {
  }

  lemma {:induction false} ValidIsUnrevoked(lib: Library, p: Pki, node: Node, now: int)
    requires StoredIsValid(lib, p, node.certificate, now)
    ensures SerialOf(node) !in p.crl
  {
    hide Load, SignedBytes, Hex.Decode;
  }

  /** Once a relay node's serial is revoked, no later step of the run delivers anything, whatever saves and starts. */
  lemma {:induction false} RevokedNodeStopsDelivery(lib: Library, es: seq<Action>, n: nat, m: nat, k: nat)
    requires n <= m < |es| && Legal(lib, es)
    requires k < |After(lib, es, n).nodes| && SerialOf(After(lib, es, n).nodes[k]) in After(lib, es, n).pki.crl
    ensures DeliveryOf(lib, After(lib, es, m), es[m]).None?
  {
    hide Step, DeliveryOf, After, Inv, Enabled, SerialOf, IssuedBy;
    if DeliveryOf(lib, After(lib, es, m), es[m]).Some? {
      NodesStay(lib, es, n, m);
      InvHolds(lib, es, n);
      ThreeNodes(lib, After(lib, es, n));
      var r := DeliveryNeedsLifetime(lib, es, m, k);
      assert After(lib, es, m).nodes[k] == After(lib, es, n).nodes[k];
      if n <= r {
        NodesStay(lib, es, n, r);
      } else {
        RevocationOutlivesFailedSaves(lib, es, n, m + 1);
      }
    }
  }

  /**
   * The authority makes a new key at each start but keeps the nodes and their certificates. So after a start over
   * existing nodes, no later step of the run delivers anything.
   */
  lemma {:induction false} RestartStopsDelivery(lib: Library, es: seq<Action>, r: nat, m: nat)
    requires r < m < |es| && Legal(lib, es) && es[r].DoRestart? && After(lib, es, r).nodes != []
    ensures DeliveryOf(lib, After(lib, es, m), es[m]).None?
  {
    hide Step, DeliveryOf, After, Enabled, Inv;
    if DeliveryOf(lib, After(lib, es, m), es[m]).Some? {
      var made := DeliveryNeedsLifetime(lib, es, m, 0);
      if r <= made {
        NodesStay(lib, es, r, made);
      }
    }
  }

  // --- Something is ----------------------------------------------------------------------------------

  /** A first start that completes, a registration and a send. */
  function FirstMessage(b: Start, username: JsString, password: JsString, privateKey: JsString, registeredAt: int,
                        sig: Bytes, content: JsString, random: SendRandom, now: int, stamp: int, t: Reads)
    : (es: seq<Action>)
    requires GoodStart(b) && sig != [] && GoodSend(random)
  {
    [DoRestart(b), DoRegister(username, password, privateKey, registeredAt, sig),
     DoSend(1, content, random, now, stamp, t)]
  }

  lemma {:induction false} FirstStart(lib: Library, b: Start)
    requires GoodStart(b) && b.stop >= 6 && lib.publicOf(b.caPrivate) != lib.publicOf([])
    ensures Enabled(lib, EMPTY, DoRestart(b)) && Inv(lib, EMPTY)
    ensures var s := Restart(lib, EMPTY, b);
            && Inv(lib, s) && s.pki.initialized && s.pki.crl == [] && s.pki.caPrivate == b.caPrivate && |s.nodes| == 3
            && s.users == [] && s.nonces == map[] && Signs(lib, EMPTY, DoRestart(b), s)
  {
    hide SignedBytes, Stored, InitializeNodes, Load, NodesOk, UsersOk, CaCertificate;
    EmptyIsGood(lib);
    RestartKeeps(lib, EMPTY, b);
  }

  lemma {:induction false} FirstRegistration(lib: Library, s: State, e: Action)
    requires e.DoRegister? && s.pki.initialized && s.users == [] && 3 <= |e.username| <= 30 && |e.password| >= 8
    ensures IssuedBy(lib, s, e).Some? && IssuedBy(lib, s, e).value.serialNumber == s.pki.nextSerial
    ensures var s' := Step(lib, s, e);
            s'.pki.initialized && s'.pki.crl == s.pki.crl && s'.nonces == s.nonces
  {
    hide SignedBytes, Stored, Column;
  }

  lemma {:induction false} FirstSteps(lib: Library, es: seq<Action>)
    requires |es| == 3 && es[0].DoRestart? && es[0].start.stop >= 6 && es[1].DoRegister? && es[2].DoSend?
    requires 3 <= |es[1].username| <= 30 && |es[1].password| >= 8
    requires lib.publicOf(es[0].start.caPrivate) != lib.publicOf([])
    requires lib.publicOf(es[1].privateKey) != lib.publicOf(es[0].start.caPrivate)
    ensures Legal(lib, es) && NodesMadeAt(lib, es, 0) && CertifiedAt(lib, es, 1, 0)
    ensures After(lib, es, 2).pki.crl == [] && After(lib, es, 2).nonces == map[]
  {
    hide Restart, Inv, IssuedBy, Register;
    var b := es[0].start;
    FirstStart(lib, b);
    var s := Restart(lib, EMPTY, b);
    assert After(lib, es, 0) == EMPTY && After(lib, es, 1) == s;
    FirstRegistration(lib, s, es[1]);
    assert Enabled(lib, s, es[1]);
    assert After(lib, es, 2) == Step(lib, s, es[1]);
  }

  /**
   * A server that starts, registers a user and is sent a message by that user delivers it, whatever the message, when
   * the readings are in order: so the conditions above are met by some run.
   */
  lemma {:induction false} FirstMessageIsDelivered(lib: Library, b: Start, username: JsString, password: JsString,
                                                   privateKey: JsString, registeredAt: int, sig: Bytes,
                                                   content: JsString, random: SendRandom, now: int, stamp: int,
                                                   t: Reads)
    requires lib.Lawful() && lib.DateLaw() && GoodStart(b) && sig != [] && GoodSend(random) && b.stop >= 6
    requires 3 <= |username| <= 30 && |password| >= 8
    requires lib.publicOf(b.caPrivate) != lib.publicOf([]) && lib.publicOf(privateKey) != lib.publicOf(b.caPrivate)
    requires Datable(lib, b.now) && Datable(lib, registeredAt)
    requires b.now <= registeredAt <= now <= stamp == t.purge == t.test == t.check && stamp != 0
    requires t.check <= lib.plusDays(b.now, VALIDITY_DAYS) && t.check <= lib.plusDays(registeredAt, VALIDITY_DAYS)
    ensures var es := FirstMessage(b, username, password, privateKey, registeredAt, sig, content, random, now, stamp, t);
            Legal(lib, es) && DeliveryOf(lib, After(lib, es, 2), es[2]) == Some((1, Str(content)))
  {
    hide Step, After, Legal, NodesMadeAt, CertifiedAt, DeliveryOf, IssuedBy;
    var es := FirstMessage(b, username, password, privateKey, registeredAt, sig, content, random, now, stamp, t);
    FirstSteps(lib, es);
    FirstCertified(lib, es);
    SendInRunExactly(lib, es, 0, 1, 2);
    assert SameLifetime(es, 1, 2);
    assert FreshInWindow(After(lib, es, 2), random.nonce, stamp, t);
    assert Deliverable(lib, es, 0, 1, 2);
  }

  lemma {:induction false} FirstCertified(lib: Library, es: seq<Action>)
    requires |es| == 3 && CertifiedAt(lib, es, 1, 0)
    ensures IssuedBy(lib, After(lib, es, 1), es[1]).Some?
  {
    hide IssuedBy, After;
  }
}
