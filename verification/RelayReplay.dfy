/** Replay protection over whole runs of the relay backend, restarts included. */
module RelayReplay {
  import opened Prelude
  import opened Json
  import opened Libraries
  import opened NonceTable
  import opened Onion
  import opened PkiService
  import opened Relay
  import opened RelayInvariants
  import opened SendExactly
  import Hex
  import Utf8

  /** The clock readings of a step that processes a packet. */
  predicate ReadsClock(e: Event) {
    e.DoSend? || e.DoSubmit?
  }

  /** Inside a call the readings come in order, and the clock never runs backwards from one call to the next. */
  predicate Ordered(es: seq<Action>) {
    && (forall i | 0 <= i < |es| && ReadsClock(es[i]) ::
          es[i].clock.purge <= es[i].clock.test <= es[i].clock.store)
    && (forall i, j | 0 <= i < j < |es| && ReadsClock(es[i]) && ReadsClock(es[j]) ::
          es[i].clock.store <= es[j].clock.purge)
  }

  function EntryFor(p: Packet, t: Reads): (d: Delivery) {
    Delivery(Column(p.nonce), p.timestamp, t.purge, t.test, t.store)
  }

  /** What a step adds to the list of deliveries. */
  function Logged(lib: Library, s: State, e: Action): (d: seq<Delivery>) {
    if DeliveryOf(lib, s, e).Some? && PacketOf(lib, s, e).Some? && ReadsClock(e)
    then [EntryFor(PacketOf(lib, s, e).value, e.clock)] else []
  }

  function LogAfter(lib: Library, es: seq<Action>, n: nat): (log: seq<Delivery>)
    requires n <= |es|
  {
    if n == 0 then [] else LogAfter(lib, es, n - 1) + Logged(lib, After(lib, es, n - 1), es[n - 1])
  }

  /** How a step changes the nonce table, given what it logs. */
  predicate NonceEffect(before: Table, e: Event, log: seq<Delivery>, after: Table) {
    || (log == [] && after == before)
    || (log == [] && ReadsClock(e) && after == Purge(before, e.clock.purge))
    || (ReadsClock(e) && |log| == 1
        && log[0].purgeAt == e.clock.purge && log[0].testAt == e.clock.test && log[0].storeAt == e.clock.store
        && log[0].nonce !in Purge(before, e.clock.purge) && InWindow(log[0].stamp, e.clock.test)
        && after == Purge(before, e.clock.purge)[log[0].nonce := e.clock.store])
  }

  lemma {:induction false} ProcessNonces(lib: Library, s: State, p: Packet, t: Reads)
    ensures var (s', result) := ProcessPacket(lib, s, p, t);
            if result.Ok? && result.value.DeliveredFrom? then
              && Column(p.nonce) !in Purge(s.nonces, t.purge) && InWindow(p.timestamp, t.test)
              && s'.nonces == Purge(s.nonces, t.purge)[Column(p.nonce) := t.store]
            else s'.nonces == s.nonces || s'.nonces == Purge(s.nonces, t.purge)
  {
    hide Inspect, Column;
  }

  lemma {:induction false} StepNonces(lib: Library, s: State, e: Action)
    ensures NonceEffect(s.nonces, e, Logged(lib, s, e), Step(lib, s, e).nonces)
  {
    hide ProcessPacket, OnionPacket, PacketText, AllNodesValid, Load, Initialize, Issue, Column, Stored;
    if e.DoSubmit? {
      ProcessNonces(lib, s, e.packet, e.clock);
    } else if e.DoSend? {
      if s.HasUser(e.senderId) && Load(s.users[e.senderId - 1].certificate).Some? {
        var user := s.users[e.senderId - 1];
        var serial := Load(user.certificate).value.serialNumber;
        var (signed, made) :=
          CreateOnionPacket(lib, s, e.content, user.privateKey, serial, e.senderId, e.random, e.now, e.stamp);
        if made.Ok? {
          ProcessNonces(lib, signed, made.value, e.clock);
        }
      }
    }
  }

  lemma {:induction false} TracksLater(table: Table, log: seq<Delivery>, cutoff: int, later: int)
    requires Tracks(table, log, cutoff) && cutoff <= later
    ensures Tracks(table, log, later)
  {
  }

  lemma {:induction false} EffectTracks(before: Table, e: Event, entry: seq<Delivery>, after: Table, log: seq<Delivery>,
                                        last: int)
    requires NonceEffect(before, e, entry, after) && Tracks(before, log, last) && Spaced(log)
    requires ReadsClock(e) ==> last <= e.clock.purge - WINDOW_MS && e.clock.purge <= e.clock.test <= e.clock.store
    ensures Spaced(log + entry)
    ensures Tracks(after, log + entry, if ReadsClock(e) then e.clock.purge - WINDOW_MS else last)
  {
    hide Purge, Tracks, Spaced, DeliveredSince;
    if ReadsClock(e) {
      var cutoff := e.clock.purge - WINDOW_MS;
      TracksLater(before, log, last, cutoff);
      PurgedTableIsHistory(before, log, last, e.clock.purge);
      if entry != [] {
        StoreTracks(Purge(before, e.clock.purge), log, entry[0]);
        assert entry == [entry[0]];
      } else {
        assert log + entry == log;
      }
    } else {
      assert log + entry == log;
    }
  }

  /** The table agrees with the deliveries of the run, and those are a window apart. */
  lemma {:induction false} TableTracksRun(lib: Library, es: seq<Action>, n: nat, cutoff: int)
    requires n <= |es| && Ordered(es)
    requires forall i | 0 <= i < n && ReadsClock(es[i]) :: es[i].clock.purge - WINDOW_MS <= cutoff
    ensures Tracks(After(lib, es, n).nonces, LogAfter(lib, es, n), cutoff)
    ensures Spaced(LogAfter(lib, es, n))
  {
    hide Step, Logged, Tracks, Spaced, NonceEffect;
    if n == 0 {
      EmptyTracks(cutoff);
    } else {
      var e := es[n - 1];
      var last := if ReadsClock(e) then e.clock.purge - WINDOW_MS else cutoff;
      forall i | 0 <= i < n - 1 && ReadsClock(es[i])
        ensures es[i].clock.purge - WINDOW_MS <= last
      {
        if ReadsClock(e) {
          assert es[i].clock.store <= es[n - 1].clock.purge;
        }
      }
      TableTracksRun(lib, es, n - 1, last);
      StepNonces(lib, After(lib, es, n - 1), e);
      EffectTracks(After(lib, es, n - 1).nonces, e, Logged(lib, After(lib, es, n - 1), e), After(lib, es, n).nonces,
                   LogAfter(lib, es, n - 1), last);
      TracksLater(After(lib, es, n).nonces, LogAfter(lib, es, n), last, cutoff);
    }
  }

  lemma {:induction false} EmptyTracks(cutoff: int)
    ensures Tracks(map[], [], cutoff) && Spaced([])
  {
  }

  lemma {:induction false} LogGrows(lib: Library, es: seq<Action>, n: nat, m: nat)
    requires n <= m <= |es|
    ensures LogAfter(lib, es, n) <= LogAfter(lib, es, m)
  {
    hide Logged, Step;
    if n < m {
      LogGrows(lib, es, n, m - 1);
    }
  }

  /** Step i delivered this packet. */
  predicate Delivers(lib: Library, es: seq<Action>, i: nat, p: Packet)
    requires i < |es|
  {
    var s := After(lib, es, i);
    ReadsClock(es[i]) && DeliveryOf(lib, s, es[i]).Some? && PacketOf(lib, s, es[i]) == Some(p)
  }

  /**
   * In every run, two deliveries under one nonce are more than a window apart, from the first store to the second
   * purge; and if they carry the same stamp, it was later than the first store.
   */
  lemma {:induction false} NoReplay(lib: Library, es: seq<Action>, i: nat, j: nat, p: Packet, q: Packet)
    requires i < j < |es| && Ordered(es) && Delivers(lib, es, i, p) && Delivers(lib, es, j, q)
    requires Column(p.nonce) == Column(q.nonce)
    ensures es[i].clock.store + WINDOW_MS < es[j].clock.purge
    ensures p.timestamp == q.timestamp ==> p.timestamp > es[i].clock.store
  {
    hide Step, DeliveryOf, PacketOf, Tracks, After, Column;
    var cutoff := es[j].clock.purge - WINDOW_MS;
    forall k | 0 <= k < j + 1 && ReadsClock(es[k])
      ensures es[k].clock.purge - WINDOW_MS <= cutoff
    {
      if k < j {
        assert es[k].clock.store <= es[j].clock.purge;
      }
    }
    TableTracksRun(lib, es, j + 1, cutoff);
    var log := LogAfter(lib, es, j + 1);
    var a, b := |LogAfter(lib, es, i)|, |LogAfter(lib, es, j)|;
    LogGrows(lib, es, i + 1, j);
    assert LogAfter(lib, es, i + 1)[a] == EntryFor(p, es[i].clock);
    assert log[a] == EntryFor(p, es[i].clock) && log[b] == EntryFor(q, es[j].clock);
    if p.timestamp == q.timestamp {
      RepeatIsStampedInTheFuture(log, a, b);
    }
  }

  /** A packet not stamped in the future is delivered at most once in the whole run. */
  lemma {:induction false} DeliveredAtMostOnce(lib: Library, es: seq<Action>, i: nat, j: nat, p: Packet)
    requires i < j < |es| && Ordered(es) && Delivers(lib, es, i, p) && p.timestamp <= es[i].clock.store
    ensures !Delivers(lib, es, j, p)
  {
    hide Delivers;
    if Delivers(lib, es, j, p) {
      NoReplayOf(lib, es, i, j, p);
    }
  }

  lemma {:induction false} NoReplayOf(lib: Library, es: seq<Action>, i: nat, j: nat, p: Packet)
    requires i < j < |es| && Ordered(es) && Delivers(lib, es, i, p) && Delivers(lib, es, j, p)
    ensures ReadsClock(es[i]) && p.timestamp > es[i].clock.store
  {
    hide Step, DeliveryOf, PacketOf, After;
    NoReplay(lib, es, i, j, p, p);
  }

  /** At every step the purged table refuses exactly the nonces that the unpurged history of the run refuses. */
  lemma {:induction false} TableDecidesAsHistory(lib: Library, es: seq<Action>, i: nat, nonce: Text)
    requires i < |es| && Ordered(es) && ReadsClock(es[i])
    ensures nonce in Purge(After(lib, es, i).nonces, es[i].clock.purge)
       <==> DeliveredSince(LogAfter(lib, es, i), nonce, es[i].clock.purge - WINDOW_MS)
  {
    hide Step, Logged, Tracks, Spaced, After;
    var cutoff := es[i].clock.purge - WINDOW_MS;
    forall k | 0 <= k < i && ReadsClock(es[k])
      ensures es[k].clock.purge - WINDOW_MS <= cutoff
    {
      assert es[k].clock.store <= es[i].clock.purge;
    }
    TableTracksRun(lib, es, i, cutoff);
    PurgedTableIsHistory(After(lib, es, i).nonces, LogAfter(lib, es, i), cutoff, es[i].clock.purge);
  }

  lemma {:induction false} InspectIgnoresNonces(lib: Library, s: State, packet: JSON, now: int, nonces: Table)
    ensures Inspect(lib, s.(nonces := nonces), packet, now) == Inspect(lib, s, packet, now)
  {
    hide Inspect;
    InspectFrame(lib, s, s.(nonces := nonces), packet, now);
  }

  // --- Exactly when a packet is delivered again ------------------------------------------------------

  predicate WasDelivered(result: Result<Outcome, Failure>) {
    result.Ok? && result.value.DeliveredFrom?
  }

  /** The nonce and the stamp, which nobody signs, pass. */
  predicate Admitted(table: Table, p: Packet, t: Reads) {
    p.nonce != [] && Column(p.nonce) !in Purge(table, t.purge) && p.timestamp != 0 && InWindow(p.timestamp, t.test)
  }

  /** A packet whose body passes inspection is delivered exactly when its nonce and stamp pass. */
  lemma {:induction false} DeliveredExactly(lib: Library, s: State, p: Packet, t: Reads, outcome: Outcome)
    requires Inspect(lib, s, p.packet, t.check) == Ok(outcome) && outcome.DeliveredFrom?
    ensures WasDelivered(ProcessPacket(lib, s, p, t).1) <==> Admitted(s.nonces, p, t)
    ensures Admitted(s.nonces, p, t) ==>
              ProcessPacket(lib, s, p, t)
              == (s.(nonces := Purge(s.nonces, t.purge)[Column(p.nonce) := t.store]), Ok(outcome))
  {
    hide Inspect, Column, Purge;
    InspectIgnoresNonces(lib, s, p.packet, t.check, Purge(s.nonces, t.purge));
  }

  /** A delivered packet was admitted and inspected. */
  lemma {:induction false} DeliveredMeans(lib: Library, s: State, p: Packet, t: Reads)
    requires WasDelivered(ProcessPacket(lib, s, p, t).1)
    ensures Admitted(s.nonces, p, t) && Inspect(lib, s, p.packet, t.check) == ProcessPacket(lib, s, p, t).1
    ensures ProcessPacket(lib, s, p, t).0 == s.(nonces := Purge(s.nonces, t.purge)[Column(p.nonce) := t.store])
  {
    hide Inspect, Column, Purge;
    InspectIgnoresNonces(lib, s, p.packet, t.check, Purge(s.nonces, t.purge));
  }

  /**
   * At any step of any run, a submitted packet whose body passes inspection is delivered exactly when its stamp is in
   * the window and no delivery of the run under its nonce was stored within the window before the purge.
   */
  lemma {:induction false} DeliveredInRunExactly(lib: Library, es: seq<Action>, i: nat, outcome: Outcome)
    requires i < |es| && Ordered(es) && es[i].DoSubmit?
    requires Inspect(lib, After(lib, es, i), es[i].packet.packet, es[i].clock.check) == Ok(outcome) && outcome.DeliveredFrom?
    ensures DeliveryOf(lib, After(lib, es, i), es[i]).Some? <==>
              var p, t := es[i].packet, es[i].clock;
              && p.nonce != [] && p.timestamp != 0 && InWindow(p.timestamp, t.test)
              && !DeliveredSince(LogAfter(lib, es, i), Column(p.nonce), t.purge - WINDOW_MS)
  {
    hide Inspect, ProcessPacket, Column, Purge, DeliveredSince, After, LogAfter, Ordered;
    DeliveredExactly(lib, After(lib, es, i), es[i].packet, es[i].clock, outcome);
    TableDecidesAsHistory(lib, es, i, Column(es[i].packet.nonce));
  }

  /** The readings of a call come in order, and those of a second call after those of the first. */
  predicate Later(t: Reads, u: Reads) {
    t.purge <= t.test <= t.store <= u.purge <= u.test <= u.store
  }

  /** The state once packet p is processed at t. */
  function Then(lib: Library, s: State, p: Packet, t: Reads): (s': State) {
    ProcessPacket(lib, s, p, t).0
  }

  lemma {:induction false} InspectLater(lib: Library, s: State, p: Packet, t: Reads, body: JSON, now: int)
    requires WasDelivered(ProcessPacket(lib, s, p, t).1)
    ensures Inspect(lib, Then(lib, s, p, t), body, now) == Inspect(lib, s, body, now)
  {
    hide Inspect, ProcessPacket;
    DeliveredMeans(lib, s, p, t);
    InspectIgnoresNonces(lib, s, body, now, Then(lib, s, p, t).nonces);
  }

  /**
   * After a delivery, the same packet, while its body still passes, is delivered again exactly when a full window has
   * gone by since it was stored and its stamp is still in the window.
   */
  lemma {:induction false} SecondDeliveryExactly(lib: Library, s: State, p: Packet, t: Reads, u: Reads)
    requires WasDelivered(ProcessPacket(lib, s, p, t).1) && Later(t, u)
    requires Inspect(lib, s, p.packet, u.check).Ok? && Inspect(lib, s, p.packet, u.check).value.DeliveredFrom?
    ensures WasDelivered(ProcessPacket(lib, Then(lib, s, p, t), p, u).1)
       <==> t.store + WINDOW_MS < u.purge && InWindow(p.timestamp, u.test)
  {
    hide Inspect, ProcessPacket, Column;
    DeliveredMeans(lib, s, p, t);
    InspectLater(lib, s, p, t, p.packet, u.check);
    DeliveredExactly(lib, Then(lib, s, p, t), p, u, Inspect(lib, s, p.packet, u.check).value);
  }

  /** One call in which every clock reading is the same. */
  function At(now: int): Reads {
    Reads(now, now, now, now)
  }

  /**
   * At most once holds of exactly the packets not stamped later than their store time: any other can be delivered
   * again, provided its body still passes a window later.
   */
  lemma {:induction false} RepeatableExactly(lib: Library, s: State, p: Packet, t: Reads)
    requires WasDelivered(ProcessPacket(lib, s, p, t).1) && t.purge <= t.test <= t.store
    requires var again := Inspect(lib, s, p.packet, t.store + WINDOW_MS + 1); again.Ok? && again.value.DeliveredFrom?
    ensures (exists u :: Later(t, u) && WasDelivered(ProcessPacket(lib, Then(lib, s, p, t), p, u).1))
       <==> p.timestamp > t.store
  {
    hide Inspect, ProcessPacket, Then;
    DeliveredMeans(lib, s, p, t);
    if p.timestamp > t.store {
      var u := At(t.store + WINDOW_MS + 1);
      SecondDeliveryExactly(lib, s, p, t, u);
      assert Later(t, u) && WasDelivered(ProcessPacket(lib, Then(lib, s, p, t), p, u).1);
    }
    forall u | Later(t, u) && WasDelivered(ProcessPacket(lib, Then(lib, s, p, t), p, u).1)
      ensures p.timestamp > t.store
    {
      DeliveredMeans(lib, Then(lib, s, p, t), p, u);
      InspectLater(lib, s, p, t, p.packet, u.check);
      SecondDeliveryExactly(lib, s, p, t, u);
    }
  }

  /**
   * So an honest packet that is stamped ahead is delivered twice: when it is submitted, and a window after it was
   * stored, if the certificates of its relays and its sender hold both times.
   */
  lemma {:induction false} FutureStampIsDeliveredTwice(lib: Library, s: State, userId: int, content: JsString,
                                                       r: SendRandom, serial: int, stamp: int, t: Reads)
    requires lib.Lawful() && Inv(lib, s) && s.HasUser(userId) && GoodSend(r) && |s.nodes| == 3
    requires t.purge <= t.test <= t.store < stamp <= t.test + WINDOW_MS
    requires stamp != 0 && Hex.Encode(r.nonce) !in Purge(s.nonces, t.purge)
    requires forall now | now == t.check || now == t.store + WINDOW_MS + 1 ::
               AllNodesValid(lib, s, now) && StoredIsValid(lib, s.pki, s.users[userId - 1].certificate, now)
    ensures var signed := Prepared(lib, s, userId, content, r.signature, t.purge);
            var p := OnionPacket(lib, s, content, userId, serial, r, stamp);
            var twice := Then(lib, signed, p, t);
            && ProcessPacket(lib, signed, p, t).1 == Ok(DeliveredFrom(userId, Str(content)))
            && ProcessPacket(lib, twice, p, At(t.store + WINDOW_MS + 1)).1 == Ok(DeliveredFrom(userId, Str(content)))
  {
    hide Inspect, ProcessPacket, AllNodesValid, StoredIsValid, Inv, ThreeLayers, Column;
    var signed := Prepared(lib, s, userId, content, r.signature, t.purge);
    var p := OnionPacket(lib, s, content, userId, serial, r, stamp);
    var outcome := DeliveredFrom(userId, Str(content));
    var u := At(t.store + WINDOW_MS + 1);
    HonestInspect(lib, s, userId, content, r, serial, t.purge, stamp, t.check);
    HonestInspect(lib, s, userId, content, r, serial, t.purge, stamp, u.check);
    HexColumn(r.nonce);
    assert |Hex.Encode(r.nonce)| == 32;
    DeliveredExactly(lib, signed, p, t, outcome);
    SecondDeliveryExactly(lib, signed, p, t, u);
    InspectLater(lib, signed, p, t, p.packet, u.check);
    DeliveredMeans(lib, Then(lib, signed, p, t), p, u);
  }

  /** The nonce and stamp are outside every layer: a delivered body under another nonce and stamp needs only those. */
  lemma {:induction false} SameBodyAgainExactly(lib: Library, s: State, p: Packet, t: Reads, q: Packet, u: Reads)
    requires WasDelivered(ProcessPacket(lib, s, p, t).1) && q.packet == p.packet
    requires Inspect(lib, s, p.packet, u.check).Ok? && Inspect(lib, s, p.packet, u.check).value.DeliveredFrom?
    ensures WasDelivered(ProcessPacket(lib, Then(lib, s, p, t), q, u).1) <==> Admitted(Then(lib, s, p, t).nonces, q, u)
  {
    hide Inspect, ProcessPacket, Admitted;
    InspectLater(lib, s, p, t, p.packet, u.check);
    DeliveredExactly(lib, Then(lib, s, p, t), q, u, Inspect(lib, s, p.packet, u.check).value);
  }

  /** A text longer than every text of a set, made of the digit 0. */
  lemma {:induction false} FreshText(ks: set<Text>) returns (t: JsString)
    ensures t !in ks && t != [] && Utf8.WellFormed(t)
  {
    var n := LongerThanAll(ks);
    t := seq(n, _ => 48);
    Utf8.AsciiIsWellFormed(t);
  }

  lemma {:induction false} LongerThanAll(ks: set<Text>) returns (n: nat)
    ensures n > 0 && forall k | k in ks :: |k| < n
  {
    if ks == {} {
      n := 1;
    } else {
      var k :| k in ks;
      var m := LongerThanAll(ks - {k});
      n := if |k| < m then m else |k| + 1;
      forall q | q in ks
        ensures |q| < n
      {
        assert q == k || q in ks - {k};
      }
    }
  }

  /** And there always are such a nonce and stamp: at most once holds of packets, not of the bodies inside them. */
  lemma {:induction false} BodyIsNotOnce(lib: Library, s: State, p: Packet, t: Reads, u: Reads)
    requires WasDelivered(ProcessPacket(lib, s, p, t).1)
    requires Inspect(lib, s, p.packet, u.check).Ok? && Inspect(lib, s, p.packet, u.check).value.DeliveredFrom?
    ensures exists q: Packet :: q.packet == p.packet && WasDelivered(ProcessPacket(lib, Then(lib, s, p, t), q, u).1)
  {
    hide Inspect, ProcessPacket, Then;
    var nonce := FreshText(Then(lib, s, p, t).nonces.Keys);
    var q := Packet(nonce, if u.test == 0 then 1 else u.test, p.packet);
    SameBodyAgainExactly(lib, s, p, t, q, u);
    assert Admitted(Then(lib, s, p, t).nonces, q, u);
    assert q.packet == p.packet && WasDelivered(ProcessPacket(lib, Then(lib, s, p, t), q, u).1);
  }
}
