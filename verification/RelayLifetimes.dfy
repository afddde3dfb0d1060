/**
 * What the life of a server process decides: the authority makes a new key at each start, so exactly the certificates
 * issued since the last start can verify, and a run delivers exactly under those.
 */
module RelayLifetimes {
  import opened Prelude
  import opened Json
  import opened Libraries
  import opened Onion
  import opened PkiService
  import opened Relay
  import opened RelayInvariants
  import opened RelayRuns
  import opened Signing
  import Hex
  import Utf8

  /** No start among steps n to m - 1. */
  predicate SameLifetime(es: seq<Action>, n: nat, m: nat)
    requires m <= |es|
  {
    forall k | n <= k < m :: !es[k].DoRestart?
  }

  // --- What the authority's present key has signed ---------------------------------------------------

  /** Step e signs certificate d: a start its own and those of missing nodes, another step the one it issues. */
  ghost predicate Authors(lib: Library, s: State, e: Action, d: Certificate) {
    match e
    case DoRestart(b) =>
      d == CaCertificate(lib, b) || (|s.nodes| < 3 && exists k | 0 <= k < 3 :: d == CertificateOfNode(lib, b, k))
    case _ => IssuedBy(lib, s, e) == Some(d)
  }

  predicate IsSigningOf(x: Signed, d: Certificate) {
    x.data == SignedBytes(d) && x.signature == Hex.Decode(d.signature)
  }

  /** A ledger entry of the authority's key was there before, under the same key, or signs a certificate of this step. */
  ghost predicate Accounted(lib: Library, s: State, e: Action, s': State, x: Signed) {
    || (!e.DoRestart? && s'.pki.caPrivate == s.pki.caPrivate && x in s.pki.ledger)
    || exists d :: Authors(lib, s, e, d) && IsSigningOf(x, d)
  }

  lemma {:induction false} IssueIsAccounted(lib: Library, s: State, e: Action, s': State, subject: JsString,
                                            publicKey: JsString, now: int, sig: Bytes, x: Signed)
    requires s.pki.initialized && !e.DoRestart?
    requires s'.pki == Issue(lib, s.pki, subject, publicKey, now, sig).0
    requires IssuedBy(lib, s, e) == Issue(lib, s.pki, subject, publicKey, now, sig).1
    requires x in s'.pki.ledger
    ensures Accounted(lib, s, e, s', x)
  {
    hide SignedBytes, IssuedBy, Hex.Encode, Hex.Decode;
    if x !in s.pki.ledger {
      var d := NewCertificate(lib, s.pki.nextSerial, subject, publicKey, now, sig);
      Hex.RoundTrip(sig);
      assert Authors(lib, s, e, d) && IsSigningOf(x, d);
    }
  }

  lemma {:induction false} StartIsAccounted(lib: Library, s: State, e: Action, x: Signed)
    requires Inv(lib, s) && e.DoRestart? && Enabled(lib, s, e) && x in Step(lib, s, e).pki.ledger
    requires x.publicKey == CaPublic(lib, Step(lib, s, e).pki)
    ensures Accounted(lib, s, e, Step(lib, s, e), x)
  {
    hide SignedBytes, Hex.Encode, Hex.Decode, InitializeNodes, CrlFrom, NewCertificate, Inv;
    var b := e.start;
    StartHasEffect(lib, s, b);
    var key := CaPublic(lib, Started(lib, s, b));
    if x == Signed(key, SignedBytes(CaCertificate(lib, b)), b.caSignature) {
      CaSigning(lib, b, key);
    } else {
      assert x !in s.pki.ledger;
      assert NodeSigned(lib, s, b, key, x);
      var k :| 0 <= k < 3 && x == NodeEntry(lib, b, key, k);
      NodeSigning(lib, b, key, k);
      assert Authors(lib, s, e, CertificateOfNode(lib, b, k));
    }
  }

  lemma {:induction false} CaSigning(lib: Library, b: Start, key: JsString)
    ensures IsSigningOf(Signed(key, SignedBytes(CaCertificate(lib, b)), b.caSignature), CaCertificate(lib, b))
  {
    hide SignedBytes;
    Hex.RoundTrip(b.caSignature);
  }

  lemma {:induction false} NodeSigning(lib: Library, b: Start, key: JsString, k: nat)
    requires GoodStart(b) && k < 3
    ensures IsSigningOf(NodeEntry(lib, b, key, k), CertificateOfNode(lib, b, k))
  {
    hide SignedBytes;
    Hex.RoundTrip(b.nodeSignatures[k]);
  }

  lemma {:induction false} StepIsAccounted(lib: Library, s: State, e: Action, x: Signed)
    requires Inv(lib, s) && Enabled(lib, s, e) && x in Step(lib, s, e).pki.ledger
    requires x.publicKey == CaPublic(lib, Step(lib, s, e).pki)
    ensures Accounted(lib, s, e, Step(lib, s, e), x)
  {
    hide Issue, SendMessage, ProcessPacket, Restart, Inv, Authors, IsSigningOf, CrlText, Stored, NodesOk, Load, KeyUsed;
    match e
    case DoRegister(username, _, privateKey, now, sig) =>
      if Step(lib, s, e).pki != s.pki {
        IssueIsAccounted(lib, s, e, Step(lib, s, e), username, lib.publicOf(privateKey), now, sig, x);
      }
    case DoGenerateCert(userId, now, sig) =>
      if Step(lib, s, e).pki != s.pki {
        var user := s.users[userId - 1];
        IssueIsAccounted(lib, s, e, Step(lib, s, e), user.username, user.publicKey, now, sig, x);
      }
    case DoRevoke(_, _) =>
    case DoSend(_, _, _, _, _, _) => SendIsAccounted(lib, s, e, x);
    case DoSubmit(packet, t) => ProcessFrame(lib, s, packet, t);
    case DoRestart(_) => StartIsAccounted(lib, s, e, x);
  }

  /** A send signs with its sender's key, which is not the authority's. */
  lemma {:induction false} SendIsAccounted(lib: Library, s: State, e: Action, x: Signed)
    requires Inv(lib, s) && e.DoSend? && x in Step(lib, s, e).pki.ledger
    requires x.publicKey == CaPublic(lib, Step(lib, s, e).pki)
    ensures Accounted(lib, s, e, Step(lib, s, e), x)
  {
    hide SendMessage, Authors, IsSigningOf, NodesOk, Load, Utf8.Encode;
    SendFrame(lib, s, e.senderId, e.content, e.random, e.now, e.stamp, e.clock);
    if s.HasUser(e.senderId) {
      UserIsOk(lib, s, e.senderId - 1);
    }
  }

  /** x signs a certificate of some step before n, since which there was no start. */
  ghost predicate Attributed(lib: Library, es: seq<Action>, n: nat, x: Signed)
    requires n <= |es|
  {
    exists k, d | 0 <= k < n && SameLifetime(es, k + 1, n) :: Authors(lib, After(lib, es, k), es[k], d) && IsSigningOf(x, d)
  }

  lemma {:induction false} AttributedLater(lib: Library, es: seq<Action>, n: nat, x: Signed)
    requires n < |es| && Attributed(lib, es, n, x) && !es[n].DoRestart?
    ensures Attributed(lib, es, n + 1, x)
  {
    hide Authors, IsSigningOf, After;
    var k, d :| 0 <= k < n && SameLifetime(es, k + 1, n) && Authors(lib, After(lib, es, k), es[k], d) && IsSigningOf(x, d);
    assert SameLifetime(es, k + 1, n + 1);
  }

  /** Whatever the authority's present key has signed is a certificate issued since the last start. */
  lemma {:induction false} LedgerIsAttributed(lib: Library, es: seq<Action>, n: nat, x: Signed)
    requires n <= |es| && Legal(lib, es)
    requires x in After(lib, es, n).pki.ledger && x.publicKey == CaPublic(lib, After(lib, es, n).pki)
    ensures Attributed(lib, es, n, x)
  {
    hide Step, Enabled, Inv, Authors, IsSigningOf;
    if n > 0 {
      var s, e := After(lib, es, n - 1), es[n - 1];
      InvHolds(lib, es, n - 1);
      StepIsAccounted(lib, s, e, x);
      if !e.DoRestart? && Step(lib, s, e).pki.caPrivate == s.pki.caPrivate && x in s.pki.ledger {
        LedgerIsAttributed(lib, es, n - 1, x);
        AttributedLater(lib, es, n - 1, x);
      } else {
        var d :| Authors(lib, s, e, d) && IsSigningOf(x, d);
        assert SameLifetime(es, n, n);
      }
    }
  }

  /**
   * In every reachable state a certificate that verifies agrees, but for the spelling of its signature, with one that
   * the authority issued since the last start, and is not revoked.
   */
  lemma {:induction false} ValidWasIssued(lib: Library, es: seq<Action>, n: nat, c: Certificate,
                                          now: int) returns (k: nat, d: Certificate)
    requires n <= |es| && Legal(lib, es) && Verify(lib, After(lib, es, n).pki, c, now) == Valid
    ensures k < n && SameLifetime(es, k + 1, n) && Authors(lib, After(lib, es, k), es[k], d)
    ensures c.(signature := d.signature) == d && Hex.Decode(c.signature) == Hex.Decode(d.signature)
    ensures c.serialNumber !in After(lib, es, n).pki.crl
  {
    hide Verify, SignedBytes, After, Authors;
    var p := After(lib, es, n).pki;
    ValidWasSigned(lib, p, c, now);
    var x := Signed(CaPublic(lib, p), SignedBytes(c), Hex.Decode(c.signature));
    LedgerIsAttributed(lib, es, n, x);
    k, d :| 0 <= k < n && SameLifetime(es, k + 1, n) && Authors(lib, After(lib, es, k), es[k], d) && IsSigningOf(x, d);
    SignedBytesBind(c, d);
  }

  // --- While there is no start -----------------------------------------------------------------------

  lemma {:induction false} StepKeepsAuthority(lib: Library, s: State, e: Action)
    requires !e.DoRestart?
    ensures var p, q := s.pki, Step(lib, s, e).pki;
            q.caPrivate == p.caPrivate && q.initialized == p.initialized && p.ledger <= q.ledger
  {
    hide ProcessPacket, SendMessage, Stored, SignedBytes, CrlText, Load;
    match e
    case DoSend(senderId, content, random, now, stamp, t) => SendFrame(lib, s, senderId, content, random, now, stamp, t);
    case DoSubmit(packet, t) => ProcessFrame(lib, s, packet, t);
    case _ =>
  }

  lemma {:induction false} AuthorityStays(lib: Library, es: seq<Action>, n: nat, m: nat)
    requires n <= m <= |es| && SameLifetime(es, n, m)
    ensures var p, q := After(lib, es, n).pki, After(lib, es, m).pki;
            q.caPrivate == p.caPrivate && q.initialized == p.initialized && p.ledger <= q.ledger
  {
    hide Step;
    if n < m {
      AuthorityStays(lib, es, n, m - 1);
      StepKeepsAuthority(lib, After(lib, es, m - 1), es[m - 1]);
    }
  }

  // --- How long a revocation lasts -------------------------------------------------------------------

  /** Step i revokes serial k. */
  predicate RevokesAt(es: seq<Action>, i: nat, k: int)
    requires i < |es|
  {
    es[i].DoRevoke? && es[i].serial == k
  }

  /** Step j is a revocation, of any serial, whose save succeeds. */
  predicate SavesAt(es: seq<Action>, j: nat)
    requires j < |es|
  {
    es[j].DoRevoke? && es[j].saved
  }

  /** k was revoked since the last start. */
  ghost predicate RevokedSince(es: seq<Action>, n: nat, k: int)
    requires n <= |es|
  {
    exists i | 0 <= i < n :: RevokesAt(es, i, k) && SameLifetime(es, i, n)
  }

  /** k was revoked, and then, before the next start, the list was saved. */
  ghost predicate RevokedAndSaved(es: seq<Action>, n: nat, k: int)
    requires n <= |es|
  {
    exists j | 0 <= j < n :: SavesAt(es, j) && RevokedSince(es, j + 1, k)
  }

  /** What a step does to the list and to the list in the file. */
  predicate CrlMove(p: Pki, e: Event, q: Pki) {
    match e
    case DoRevoke(serial, saved) =>
      q.crl == Added(p.crl, serial) && CrlFrom(q.crlFile) == if saved then q.crl else CrlFrom(p.crlFile)
    case DoRestart(_) => q.crl == CrlFrom(p.crlFile) && q.crlFile == p.crlFile
    case _ => q.crl == p.crl && q.crlFile == p.crlFile
  }

  lemma {:induction false} CrlStep(lib: Library, s: State, e: Action)
    requires Inv(lib, s)
    ensures CrlMove(s.pki, e, Step(lib, s, e).pki)
  {
    hide ProcessPacket, SendMessage, Stored, SignedBytes, CrlText, CrlFrom, Load, InitializeNodes, CaCertificate, NodesOk;
    match e
    case DoRevoke(serial, saved) => CrlFileReadsBack(Added(s.pki.crl, serial));
    case DoSend(senderId, content, random, now, stamp, t) => SendFrame(lib, s, senderId, content, random, now, stamp, t);
    case DoSubmit(packet, t) => ProcessFrame(lib, s, packet, t);
    case DoRestart(b) => StartHasEffect(lib, s, b);
    case _ =>
  }

  lemma {:induction false} RevokedSinceStep(es: seq<Action>, n: nat, k: int)
    requires n < |es|
    ensures RevokedSince(es, n + 1, k) <==> RevokesAt(es, n, k) || (!es[n].DoRestart? && RevokedSince(es, n, k))
  {
    if RevokesAt(es, n, k) {
      assert SameLifetime(es, n, n + 1);
    } else if !es[n].DoRestart? && RevokedSince(es, n, k) {
      var i :| 0 <= i < n && RevokesAt(es, i, k) && SameLifetime(es, i, n);
      assert SameLifetime(es, i, n + 1);
    } else if RevokedSince(es, n + 1, k) {
      var i :| 0 <= i < n + 1 && RevokesAt(es, i, k) && SameLifetime(es, i, n + 1);
      assert SameLifetime(es, i, n);
    }
  }

  lemma {:induction false} RevokedAndSavedStep(es: seq<Action>, n: nat, k: int)
    requires n < |es|
    ensures RevokedAndSaved(es, n + 1, k) <==> RevokedAndSaved(es, n, k) || (SavesAt(es, n) && RevokedSince(es, n + 1, k))
  {
    hide RevokedSince;
  }

  /**
   * In every run, with any saves failing and any starts in between, a serial is on the list exactly when it was revoked
   * since the last start, or revoked before and the list saved after that and before the next start; and it is in the
   * file exactly in the second case.
   */
  lemma {:induction false} RevocationLastsExactly(lib: Library, es: seq<Action>, n: nat, k: int)
    requires n <= |es| && Legal(lib, es)
    ensures k in After(lib, es, n).pki.crl <==> RevokedSince(es, n, k) || RevokedAndSaved(es, n, k)
    ensures k in CrlFrom(After(lib, es, n).pki.crlFile) <==> RevokedAndSaved(es, n, k)
  {
    hide Step, Enabled, Inv, CrlFrom, RevokedSince, RevokedAndSaved, CrlMove, After;
    if n == 0 {
      NothingRevoked(lib, es, k);
    } else {
      AfterStep(lib, es, n - 1);
      RevocationLastsExactly(lib, es, n - 1, k);
      InvHolds(lib, es, n - 1);
      CrlStep(lib, After(lib, es, n - 1), es[n - 1]);
      LastsAStep(es, n - 1, k, After(lib, es, n - 1).pki, After(lib, es, n).pki);
    }
  }

  lemma {:induction false} LastsAStep(es: seq<Action>, n: nat, k: int, p: Pki, q: Pki)
    requires n < |es| && CrlMove(p, es[n], q)
    requires k in p.crl <==> RevokedSince(es, n, k) || RevokedAndSaved(es, n, k)
    requires k in CrlFrom(p.crlFile) <==> RevokedAndSaved(es, n, k)
    ensures k in q.crl <==> RevokedSince(es, n + 1, k) || RevokedAndSaved(es, n + 1, k)
    ensures k in CrlFrom(q.crlFile) <==> RevokedAndSaved(es, n + 1, k)
  {
    hide RevokedSince, RevokedAndSaved, CrlMove, CrlFrom;
    RevokedSinceStep(es, n, k);
    RevokedAndSavedStep(es, n, k);
    MoveDecides(p, es[n], q, k, RevokedSince(es, n, k), RevokedAndSaved(es, n, k));
  }

  /** One step, given what was so before it. */
  lemma {:induction false} MoveDecides(p: Pki, e: Event, q: Pki, k: int, since: bool, saved: bool)
    requires CrlMove(p, e, q)
    requires (k in p.crl <==> since || saved) && (k in CrlFrom(p.crlFile) <==> saved)
    ensures var since' := (e.DoRevoke? && e.serial == k) || (!e.DoRestart? && since);
            var saved' := saved || (e.DoRevoke? && e.saved && since');
            (k in q.crl <==> since' || saved') && (k in CrlFrom(q.crlFile) <==> saved')
  {
    hide CrlFrom;
  }

  lemma {:induction false} NothingRevoked(lib: Library, es: seq<Action>, k: int)
    ensures !RevokedSince(es, 0, k) && !RevokedAndSaved(es, 0, k)
    ensures After(lib, es, 0).pki.crl == [] && CrlFrom(After(lib, es, 0).pki.crlFile) == []
  {
  }

  // --- A start that dies half way --------------------------------------------------------------------

  /** Some of the relay nodes are in the table but not all. */
  predicate Stuck(s: State) {
    0 < |s.nodes| < 3
  }

  /** A first start leaves the table stuck exactly when it dies after the first row and before the last. */
  lemma {:induction false} InterruptedStartIsStuckExactly(lib: Library, s: State, b: Start)
    requires Inv(lib, s) && s.nodes == [] && GoodStart(b) && !KeyUsed(lib, s, lib.publicOf(b.caPrivate))
    ensures Stuck(Restart(lib, s, b)) <==> 2 <= b.stop <= 5
    ensures Restart(lib, s, b).pki.initialized <==> b.stop >= 6
  {
    hide Restart, Inv, KeyUsed;
    RestartKeeps(lib, s, b);
  }

  /** And that is for ever: the first name is taken, so every later start fails and nothing is ever delivered. */
  lemma {:induction false} StuckIsForever(lib: Library, es: seq<Action>, i: nat, n: nat)
    requires i <= n <= |es| && Legal(lib, es) && Stuck(After(lib, es, i))
    ensures Stuck(After(lib, es, n)) && !After(lib, es, n).pki.initialized
    ensures n < |es| ==> es[n].DoRestart? && DeliveryOf(lib, After(lib, es, n), es[n]).None?
  {
    hide Step, Inv, KeyUsed, SendMessage, ProcessPacket;
    InvHolds(lib, es, n);
    ThreeNodes(lib, After(lib, es, n));
    if i < n {
      StuckIsForever(lib, es, i, n - 1);
      InvHolds(lib, es, n - 1);
      assert Enabled(lib, After(lib, es, n - 1), es[n - 1]);
      StuckStart(lib, After(lib, es, n - 1), es[n - 1]);
      ThreeNodes(lib, After(lib, es, n));
    }
    if n < |es| {
      assert Enabled(lib, After(lib, es, n), es[n]);
    }
  }

  lemma {:induction false} StuckStart(lib: Library, s: State, e: Action)
    requires Inv(lib, s) && Stuck(s) && e.DoRestart? && Enabled(lib, s, e)
    ensures Stuck(Step(lib, s, e))
  {
    hide Restart, Inv, KeyUsed;
    RestartKeeps(lib, s, e.start);
  }

  // --- The certificates of the relay nodes -----------------------------------------------------------

  /** Step r is the start that makes the relay nodes. */
  predicate NodesMadeAt(lib: Library, es: seq<Action>, r: nat)
    requires r < |es|
  {
    es[r].DoRestart? && After(lib, es, r).nodes == [] && |After(lib, es, r + 1).nodes| == 3
  }

  lemma {:induction false} StartMakesNodes(lib: Library, s: State, e: Action)
    requires Inv(lib, s) && e.DoRestart? && s.nodes == [] && |Step(lib, s, e).nodes| == 3
    ensures var s' := Step(lib, s, e);
            forall k | 0 <= k < 3 ::
              s'.nodes[k] == NodeRow(lib, e.start, k) && NodeEntry(lib, e.start, CaPublic(lib, s'.pki), k) in s'.pki.ledger
  {
    hide SignedBytes, InitializeNodes, CrlFrom, NewCertificate, Inv, NodesOk, NodeRow, NodeEntry, CaCertificate;
    StartHasEffect(lib, s, e.start);
  }

  /** From then on the nodes are those, and their certificates were signed with the key of that start. */
  lemma {:induction false} NodesAreMade(lib: Library, es: seq<Action>, r: nat, n: nat, k: nat)
    requires r < n <= |es| && Legal(lib, es) && NodesMadeAt(lib, es, r) && k < 3
    ensures |After(lib, es, n).nodes| == 3 && After(lib, es, n).nodes[k] == NodeRow(lib, es[r].start, k)
    ensures var key := CaPublic(lib, After(lib, es, r + 1).pki);
            NodeEntry(lib, es[r].start, key, k) in After(lib, es, r + 1).pki.ledger
  {
    hide Step, Enabled, Inv, NodeRow, NodeEntry;
    InvHolds(lib, es, r);
    StartMakesNodes(lib, After(lib, es, r), es[r]);
    NodesStay(lib, es, r + 1, n);
    InvHolds(lib, es, n);
    ThreeNodes(lib, After(lib, es, n));
  }

  lemma {:induction false} ThreeNodes(lib: Library, s: State)
    requires Inv(lib, s)
    ensures |s.nodes| <= 3 && (s.pki.initialized ==> |s.nodes| == 3)
  {
    hide UsersOk, NodeOk;
  }

  /** While there are three nodes, some start before made them. */
  lemma {:induction false} NodesWereMade(lib: Library, es: seq<Action>, n: nat) returns (r: nat)
    requires n <= |es| && Legal(lib, es) && |After(lib, es, n).nodes| == 3
    ensures r < n && NodesMadeAt(lib, es, r)
  {
    hide Step, Enabled, Inv;
    InvHolds(lib, es, n - 1);
    ThreeNodes(lib, After(lib, es, n - 1));
    if |After(lib, es, n - 1).nodes| == 3 {
      r := NodesWereMade(lib, es, n - 1);
    } else {
      r := n - 1;
      if Stuck(After(lib, es, r)) {
        StuckIsForever(lib, es, r, n);
      }
      OnlyStartsMakeNodes(lib, After(lib, es, r), es[r]);
    }
  }

  lemma {:induction false} OnlyStartsMakeNodes(lib: Library, s: State, e: Action)
    requires Step(lib, s, e).nodes != s.nodes
    ensures e.DoRestart?
  {
    hide ProcessPacket, SendMessage, Stored, SignedBytes, CrlText, Load;
    match e
    case DoSend(senderId, content, random, now, stamp, t) => SendFrame(lib, s, senderId, content, random, now, stamp, t);
    case DoSubmit(packet, t) => ProcessFrame(lib, s, packet, t);
    case _ =>
  }

  /** A node's certificate verifies only in the process that made it. */
  lemma {:induction false} NodeNeedsLifetime(lib: Library, es: seq<Action>, r: nat, n: nat, k: nat, now: int)
    requires r < n <= |es| && Legal(lib, es) && NodesMadeAt(lib, es, r) && k < 3
    requires StoredIsValid(lib, After(lib, es, n).pki, Stored(CertificateOfNode(lib, es[r].start, k)), now)
    ensures SameLifetime(es, r + 1, n)
  {
    hide Step, Enabled, Inv, Load, Stored, Verify, Authors;
    var c := CertificateOfNode(lib, es[r].start, k);
    LoadInvertsStored(c);
    if !SameLifetime(es, r + 1, n) {
      var q, d := ValidWasIssued(lib, es, n, c, now);
      assert q > r;
      NodesAreMade(lib, es, r, q, k);
      InvHolds(lib, es, q);
      assert Enabled(lib, After(lib, es, q), es[q]);
      NotThisNode(lib, After(lib, es, q), es[q], d, es[r].start, k);
    }
  }

  /** No step over existing nodes issues a certificate with a node's serial. */
  lemma {:induction false} NotThisNode(lib: Library, s: State, e: Action, d: Certificate, b: Start, k: nat)
    requires Inv(lib, s) && |s.nodes| == 3 && GoodStart(b) && k < 3 && s.nodes[k] == NodeRow(lib, b, k)
    requires Authors(lib, s, e, d)
    ensures d.serialNumber != CA_SERIAL + 1 + k
  {
    hide Inv, SignedBytes, Stored, IssuedBy;
    if !e.DoRestart? {
      IssuingIsUp(lib, s, e);
      SerialMoves(lib, s, e);
      NodesBelowNext(lib, s);
      RowIsOk(lib, b, k);
    }
  }

  /** A node's certificate is valid exactly in the process that made it, while unrevoked and inside its dates. */
  lemma {:induction false} NodeIsValidExactly(lib: Library, es: seq<Action>, r: nat, n: nat, k: nat, now: int)
    requires lib.DateLaw() && r < n <= |es| && Legal(lib, es) && NodesMadeAt(lib, es, r) && k < 3
    requires Datable(lib, es[r].start.now)
    ensures |After(lib, es, n).nodes| == 3
    ensures StoredIsValid(lib, After(lib, es, n).pki, After(lib, es, n).nodes[k].certificate, now)
       <==> SameLifetime(es, r + 1, n) && Current(lib, After(lib, es, n).pki, CA_SERIAL + 1 + k, es[r].start.now, now)
  {
    hide Step, Enabled, StoredIsValid, Stored, SignedBytes, After, Current, Legal;
    var b, p := es[r].start, After(lib, es, n).pki;
    NodesAreMade(lib, es, r, n, k);
    if SameLifetime(es, r + 1, n) {
      AuthorityStays(lib, es, r + 1, n);
      SignedIsValidExactly(lib, p, CA_SERIAL + 1 + k, RELAY_NODES[k], lib.publicOf(b.nodeKeys[k]), b.now,
                           b.nodeSignatures[k], now);
    } else if StoredIsValid(lib, p, After(lib, es, n).nodes[k].certificate, now) {
      NodeNeedsLifetime(lib, es, r, n, k, now);
    }
  }

  /** The three node serials are unrevoked and the time is inside their common dates. */
  predicate NodesCurrent(lib: Library, p: Pki, madeAt: int, now: int) {
    && madeAt <= now <= lib.plusDays(madeAt, VALIDITY_DAYS)
    && forall serial | CA_SERIAL < serial <= CA_SERIAL + 3 :: serial !in p.crl
  }

  /**
   * In every run all relay certificates are valid exactly when there was no start since the nodes were made, none of
   * their serials is revoked, and the time is inside their dates.
   */
  lemma {:induction false} AllNodesValidExactly(lib: Library, es: seq<Action>, r: nat, n: nat, now: int)
    requires lib.DateLaw() && r < n <= |es| && Legal(lib, es) && NodesMadeAt(lib, es, r)
    requires Datable(lib, es[r].start.now)
    ensures AllNodesValid(lib, After(lib, es, n), now)
       <==> SameLifetime(es, r + 1, n) && NodesCurrent(lib, After(lib, es, n).pki, es[r].start.now, now)
  {
    hide After, Legal, StoredIsValid, SameLifetime, Step, Enabled;
    var s := After(lib, es, n);
    NodeIsValidExactly(lib, es, r, n, 0, now);
    NodeIsValidExactly(lib, es, r, n, 1, now);
    NodeIsValidExactly(lib, es, r, n, 2, now);
    assert forall k | 0 <= k < 3 :: Hops(lib, s, now)[k].certificateValid
                                    == StoredIsValid(lib, s.pki, s.nodes[k].certificate, now);
  }

  // --- Serial numbers --------------------------------------------------------------------------------

  /** How many certificates users got since the last start. */
  function IssuedSinceStart(lib: Library, es: seq<Action>, n: nat): (count: nat)
    requires n <= |es|
  {
    if n == 0 || es[n - 1].DoRestart? then 0
    else IssuedSinceStart(lib, es, n - 1) + if IssuedBy(lib, After(lib, es, n - 1), es[n - 1]).Some? then 1 else 0
  }

  lemma {:induction false} StartSetsCounter(lib: Library, s: State, b: Start)
    requires Inv(lib, s) && GoodStart(b) && Restart(lib, s, b).pki.initialized
    requires |s.nodes| == 3 ==> Load(s.nodes[2].certificate).Some? && SerialOf(s.nodes[2]) == CA_SERIAL + 3
    ensures Restart(lib, s, b).pki.nextSerial == CA_SERIAL + 4
  {
    hide CrlFrom, CaCertificate, SignedBytes, AddNodes, NodesOk, Load, UsersOk;
    StartHasEffect(lib, s, b);
    if s.nodes == [] {
      NoNodesOk(lib);
      AddNodesOk(lib, Started(lib, s, b), [], b, 0);
    }
  }

  /** While the server is up, the counter is 1004 and one for each certificate issued since the last start. */
  lemma {:induction false} CounterExactly(lib: Library, es: seq<Action>, n: nat)
    requires n <= |es| && Legal(lib, es) && After(lib, es, n).pki.initialized
    ensures After(lib, es, n).pki.nextSerial == CA_SERIAL + 4 + IssuedSinceStart(lib, es, n)
  {
    hide Step, Enabled, Inv, IssuedBy, NodeRow, Load, Restart;
    var s, e := After(lib, es, n - 1), es[n - 1];
    InvHolds(lib, es, n - 1);
    if e.DoRestart? {
      if |s.nodes| == 3 {
        var r := NodesWereMade(lib, es, n - 1);
        NodesAreMade(lib, es, r, n - 1, 2);
        RowIsOk(lib, es[r].start, 2);
        RowLoads(lib, es[r].start, 2);
      }
      StepIsRestart(lib, s, e);
      StartSetsCounter(lib, s, e.start);
    } else {
      StepKeepsAuthority(lib, s, e);
      CounterExactly(lib, es, n - 1);
      SerialMoves(lib, s, e);
    }
  }

  lemma {:induction false} StepIsRestart(lib: Library, s: State, e: Action)
    requires e.DoRestart?
    ensures Step(lib, s, e) == Restart(lib, s, e.start)
  {
    hide Restart;
  }

  lemma {:induction false} RowLoads(lib: Library, b: Start, k: nat)
    requires GoodStart(b) && k < 3
    ensures Load(NodeRow(lib, b, k).certificate).Some?
  {
    hide Load, Stored;
    LoadInvertsStored(CertificateOfNode(lib, b, k));
  }

  /** The serial of every issued certificate, in every run: its rank in its lifetime. So a start makes serials repeat. */
  lemma {:induction false} SerialExactly(lib: Library, es: seq<Action>, i: nat)
    requires i < |es| && Legal(lib, es) && IssuedBy(lib, After(lib, es, i), es[i]).Some?
    ensures IssuedBy(lib, After(lib, es, i), es[i]).value.serialNumber == CA_SERIAL + 4 + IssuedSinceStart(lib, es, i)
  {
    hide Step, After, IssuedBy, Legal;
    var s, e := After(lib, es, i), es[i];
    IssuingIsUp(lib, s, e);
    IssuingIsNoStart(lib, s, e);
    SerialMoves(lib, s, e);
    CounterExactly(lib, es, i);
  }

  lemma {:induction false} IssuingIsNoStart(lib: Library, s: State, e: Action)
    requires IssuedBy(lib, s, e).Some?
    ensures !e.DoRestart?
  {
  }

  /** Two certificates issued to users share a serial exactly when they have the same rank, each since its last start. */
  lemma {:induction false} SameSerialExactly(lib: Library, es: seq<Action>, i: nat, j: nat)
    requires i < |es| && j < |es| && Legal(lib, es)
    requires IssuedBy(lib, After(lib, es, i), es[i]).Some? && IssuedBy(lib, After(lib, es, j), es[j]).Some?
    ensures IssuedBy(lib, After(lib, es, i), es[i]).value.serialNumber
            == IssuedBy(lib, After(lib, es, j), es[j]).value.serialNumber
       <==> IssuedSinceStart(lib, es, i) == IssuedSinceStart(lib, es, j)
  {
    hide After, IssuedBy, Legal, IssuedSinceStart;
    SerialExactly(lib, es, i);
    SerialExactly(lib, es, j);
  }

  // --- The certificates of users ---------------------------------------------------------------------

  /** Step i gives user row u a certificate. */
  predicate CertifiedAt(lib: Library, es: seq<Action>, i: nat, u: nat)
    requires i < |es|
  {
    && IssuedBy(lib, After(lib, es, i), es[i]).Some?
    && ((es[i].DoRegister? && |After(lib, es, i).users| == u) || (es[i].DoGenerateCert? && es[i].userId == u + 1))
  }

  /** Steps i to n - 1 give row u no certificate. */
  predicate NotRecertified(lib: Library, es: seq<Action>, i: nat, n: nat, u: nat)
    requires n <= |es|
  {
    forall k | i <= k < n :: !CertifiedAt(lib, es, k, u)
  }

  /** The certificate a step gives a user is over the user's own name and key, and goes into the user's row. */
  lemma {:induction false} CertifiedRow(lib: Library, es: seq<Action>, i: nat, u: nat) returns (subject: JsString,
                                        key: JsString)
    requires i < |es| && Legal(lib, es) && CertifiedAt(lib, es, i, u)
    ensures var s, s', e := After(lib, es, i), After(lib, es, i + 1), es[i];
            && s.pki.initialized && u < |s'.users| && Column(subject) == s'.users[u].username
            && var c := NewCertificate(lib, s.pki.nextSerial, subject, key, e.now, e.signature);
            && IssuedBy(lib, s, e) == Some(c) && s'.users[u].certificate == Stored(c)
            && Verifies(s'.pki.ledger, CaPublic(lib, s'.pki), SignedBytes(c), e.signature)
  {
    hide Stored, SignedBytes, NewCertificate, Inv, Load, Legal;
    InvHolds(lib, es, i);
    var s, e := After(lib, es, i), es[i];
    IssuingIsUp(lib, s, e);
    if e.DoRegister? {
      subject, key := e.username, lib.publicOf(e.privateKey);
    } else {
      NameIsKept(lib, s, u);
      subject, key := s.users[u].username, s.users[u].publicKey;
    }
  }

  lemma {:induction false} NameIsKept(lib: Library, s: State, u: nat)
    requires Inv(lib, s) && u < |s.users|
    ensures Column(s.users[u].username) == s.users[u].username
  {
    hide Load, NodesOk;
    UserIsOk(lib, s, u);
  }

  /** A step that gives row u no certificate leaves the row as it is. */
  lemma {:induction false} StepKeepsRow(lib: Library, s: State, e: Action, u: nat)
    requires Inv(lib, s) && Enabled(lib, s, e) && u < |s.users|
    requires !(e.DoGenerateCert? && e.userId == u + 1 && IssuedBy(lib, s, e).Some?)
    ensures u < |Step(lib, s, e).users| && Step(lib, s, e).users[u] == s.users[u]
  {
    hide ProcessPacket, SendMessage, Stored, SignedBytes, CrlText, Load, Inv, KeyUsed, Initialize;
    match e
    case DoSend(senderId, content, random, now, stamp, t) => SendFrame(lib, s, senderId, content, random, now, stamp, t);
    case DoSubmit(packet, t) => ProcessFrame(lib, s, packet, t);
    case _ =>
  }

  lemma {:induction false} RowStays(lib: Library, es: seq<Action>, n: nat, m: nat, u: nat)
    requires n <= m <= |es| && Legal(lib, es) && u < |After(lib, es, n).users| && NotRecertified(lib, es, n, m, u)
    ensures u < |After(lib, es, m).users| && After(lib, es, m).users[u] == After(lib, es, n).users[u]
  {
    hide Step, Enabled, Inv, IssuedBy;
    if n < m {
      RowStays(lib, es, n, m - 1, u);
      InvHolds(lib, es, m - 1);
      assert !CertifiedAt(lib, es, m - 1, u);
      StepKeepsRow(lib, After(lib, es, m - 1), es[m - 1], u);
    }
  }

  lemma {:induction false} RegisteredNameIsNew(lib: Library, s: State, e: Action, u: nat)
    requires e.DoRegister? && IssuedBy(lib, s, e).Some? && u < |s.users|
    ensures s.users[u].username != Column(e.username) && IssuedBy(lib, s, e).value.subject == e.username
  {
    hide Stored, SignedBytes, Column;
  }

  /** A later step whose certificate names this user gives it to this user's row. */
  lemma {:induction false} SameSubjectSameRow(lib: Library, es: seq<Action>, q: nat, d: Certificate, u: nat)
    requires q < |es| && Legal(lib, es) && Authors(lib, After(lib, es, q), es[q], d)
    requires |After(lib, es, q).nodes| == 3 && u < |After(lib, es, q).users|
    requires d.serialNumber > CA_SERIAL && Column(d.subject) == After(lib, es, q).users[u].username
    ensures CertifiedAt(lib, es, q, u)
  {
    hide Stored, SignedBytes, Load, Legal, After, UserOk, NodesOk;
    InvHolds(lib, es, q);
    var s, e := After(lib, es, q), es[q];
    match e
    case DoRegister(_, _, _, _, _) => RegisteredNameIsNew(lib, s, e, u);
    case DoGenerateCert(userId, _, _) => NameIsKept(lib, s, userId - 1);
    case _ =>
  }

  /**
   * In every run a user's certificate is valid exactly when there was no start since it was issued, its serial is not
   * revoked, and the time is inside its dates.
   */
  lemma {:induction false} UserIsValidExactly(lib: Library, es: seq<Action>, i: nat, n: nat, u: nat, now: int)
    requires lib.DateLaw() && i < n <= |es| && Legal(lib, es)
    requires CertifiedAt(lib, es, i, u) && NotRecertified(lib, es, i + 1, n, u) && Datable(lib, es[i].now)
    ensures u < |After(lib, es, n).users|
    ensures StoredIsValid(lib, After(lib, es, n).pki, After(lib, es, n).users[u].certificate, now)
       <==> && SameLifetime(es, i + 1, n)
            && Current(lib, After(lib, es, n).pki, IssuedBy(lib, After(lib, es, i), es[i]).value.serialNumber, es[i].now,
                       now)
  {
    hide Step, Enabled, StoredIsValid, Stored, SignedBytes, After, Current, Legal, CertifiedAt, NotRecertified, IssuedBy;
    var p, e, serial := After(lib, es, n).pki, es[i], After(lib, es, i).pki.nextSerial;
    var subject, key := CertifiedRow(lib, es, i, u);
    RowStays(lib, es, i + 1, n, u);
    CertifyingIsShaped(lib, es, i, u);
    if SameLifetime(es, i + 1, n) {
      AuthorityStays(lib, es, i + 1, n);
      SignedIsValidExactly(lib, p, serial, subject, key, e.now, e.signature, now);
    } else if StoredIsValid(lib, p, After(lib, es, n).users[u].certificate, now) {
      UserNeedsLifetime(lib, es, i, n, u, subject, key, now);
    }
  }

  lemma {:induction false} CertifyingIsShaped(lib: Library, es: seq<Action>, i: nat, u: nat)
    requires i < |es| && CertifiedAt(lib, es, i, u)
    ensures Shaped(es[i]) && (es[i].DoRegister? || es[i].DoGenerateCert?) && es[i].signature != []
  {
    hide IssuedBy, After;
  }

  lemma {:induction false} UserNeedsLifetime(lib: Library, es: seq<Action>, i: nat, n: nat, u: nat, subject: JsString,
                                             key: JsString, now: int)
    requires i < n <= |es| && Legal(lib, es) && CertifiedAt(lib, es, i, u) && NotRecertified(lib, es, i + 1, n, u)
    requires es[i].DoRegister? || es[i].DoGenerateCert?
    requires u < |After(lib, es, i + 1).users| && Column(subject) == After(lib, es, i + 1).users[u].username
    requires After(lib, es, i).pki.initialized
    requires var c := NewCertificate(lib, After(lib, es, i).pki.nextSerial, subject, key, es[i].now, es[i].signature);
             StoredIsValid(lib, After(lib, es, n).pki, Stored(c), now)
    ensures SameLifetime(es, i + 1, n)
  {
    hide Step, Enabled, Load, Stored, Verify, Authors, After, Legal, CertifiedAt, SignedBytes, Column, Inv;
    var c := NewCertificate(lib, After(lib, es, i).pki.nextSerial, subject, key, es[i].now, es[i].signature);
    LoadInvertsStored(c);
    InvHolds(lib, es, i);
    CounterIsUp(lib, After(lib, es, i));
    if !SameLifetime(es, i + 1, n) {
      var q, d := ValidWasIssued(lib, es, n, c, now);
      assert q > i;
      RowStays(lib, es, i + 1, q, u) by { assert NotRecertified(lib, es, i + 1, q, u); }
      NodesStay(lib, es, i, q);
      InvHolds(lib, es, q);
      ThreeNodes(lib, After(lib, es, q));
      SameSubjectSameRow(lib, es, q, d, u);
    }
  }

  lemma {:induction false} CounterIsUp(lib: Library, s: State)
    requires Inv(lib, s) && s.pki.initialized
    ensures s.pki.nextSerial > CA_SERIAL && |s.nodes| == 3
  {
    hide UsersOk, NodesOk;
  }
}
