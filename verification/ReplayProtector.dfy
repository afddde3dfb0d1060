/**
 * The Python nonce cache. It evicts by message timestamp, and reads the clock twice in each call: read1 before
 * the lock, for the age test, and read2 under the lock, for eviction. Calls are listed in the order in which they
 * take the lock; any number of threads may have taken their first reading earlier.
 */
module ReplayProtector {
  import opened Prelude

  datatype Verdict = Accepted | ReplayDetected | TimestampExpired | TimestampInFuture

  /** One call of check_nonce. A missing timestamp means the first clock reading. */
  datatype Call = Call(nonce: Bytes, timestamp: Option<real>, read1: real, read2: real) {
    function Stamp(): real {
      if timestamp.None? then read1 else timestamp.value
    }
  }

  type Cache = map<Bytes, real>

  const FUTURE_TOLERANCE: real := 5.0

  function Evict(cache: Cache, cutoff: real): (kept: Cache) {
    map k | k in cache && cache[k] >= cutoff :: cache[k]
  }

  /** check_nonce: the new cache and the answer. */
  function Check(window: int, cache: Cache, call: Call): (r: (Cache, Verdict)) {
    var kept := Evict(cache, call.read2 - window as real);
    var age := call.read1 - call.Stamp();
    if age > window as real then (kept, TimestampExpired)
    else if age < -FUTURE_TOLERANCE then (kept, TimestampInFuture)
    else if call.nonce in kept then (kept, ReplayDetected)
    else (kept[call.nonce := call.Stamp()], Accepted)
  }

  class ReplayProtector {
    var nonces: Cache
    const window: int

    constructor (windowSeconds: int := 60)
      ensures nonces == map[] && window == windowSeconds
    {
      nonces := map[];
      window := windowSeconds;
    }

    method CheckNonce(nonce: Bytes, timestamp: Option<real>, read1: real, read2: real)
      returns (isFresh: bool, reason: Verdict)
      modifies this
      ensures (nonces, reason) == Check(window, old(nonces), Call(nonce, timestamp, read1, read2))
      ensures isFresh <==> reason == Accepted
    {
      var stamp := if timestamp.None? then read1 else timestamp.value;
      EvictStaleNonces(read2);
      var age := read1 - stamp;
      if age > window as real {
        return false, TimestampExpired;
      }
      if age < -FUTURE_TOLERANCE {
        return false, TimestampInFuture;
      }
      if nonce in nonces {
        return false, ReplayDetected;
      }
      nonces := nonces[nonce := stamp];
      return true, Accepted;
    }

    method EvictStaleNonces(currentTime: real)
      modifies this
      ensures nonces == Evict(old(nonces), currentTime - window as real)
    {
      var cutoff := currentTime - window as real;
      var staleKeys := set k | k in nonces && nonces[k] < cutoff;
      while staleKeys != {}
        invariant forall k | k in staleKeys :: k in nonces && nonces[k] < cutoff
        invariant forall k | k in nonces && nonces[k] < cutoff :: k in staleKeys
        invariant forall k | k in nonces :: k in old(nonces) && nonces[k] == old(nonces)[k]
        invariant forall k | k in old(nonces) && old(nonces)[k] >= cutoff :: k in nonces
        decreases staleKeys
      {
        var key :| key in staleKeys;
        nonces := nonces - {key};
        staleKeys := staleKeys - {key};
      }
    }
  }

  // --- Runs ------------------------------------------------------------------------------------------

  /** The cache after the first n calls, starting empty. */
  function CacheAfter(window: int, calls: seq<Call>, n: nat): (cache: Cache)
    requires n <= |calls|
  {
    if n == 0 then map[] else Check(window, CacheAfter(window, calls, n - 1), calls[n - 1]).0
  }

  function VerdictAt(window: int, calls: seq<Call>, i: nat): (v: Verdict)
    requires i < |calls|
  {
    Check(window, CacheAfter(window, calls, i), calls[i]).1
  }

  /** The clock never runs backwards between calls, in lock order. */
  predicate Monotone(calls: seq<Call>) {
    forall i, j | 0 <= i < j < |calls| :: calls[i].read2 <= calls[j].read2
  }

  // --- A protector that never forgets ----------------------------------------------------------------

  /** Some accepted call had this nonce and a stamp not before from. */
  ghost predicate SeenSince(log: seq<Call>, nonce: Bytes, from: real) {
    exists i | 0 <= i < |log| :: log[i].nonce == nonce && log[i].Stamp() >= from
  }

  /** The same tests against the list of all accepted calls: the new list and the answer. */
  ghost function IdealCheck(window: int, log: seq<Call>, call: Call): (r: (seq<Call>, Verdict)) {
    var age := call.read1 - call.Stamp();
    if age > window as real then (log, TimestampExpired)
    else if age < -FUTURE_TOLERANCE then (log, TimestampInFuture)
    else if SeenSince(log, call.nonce, call.read2 - window as real) then (log, ReplayDetected)
    else (log + [call], Accepted)
  }

  ghost function LogAfter(window: int, calls: seq<Call>, n: nat): (log: seq<Call>)
    requires n <= |calls|
  {
    if n == 0 then [] else IdealCheck(window, LogAfter(window, calls, n - 1), calls[n - 1]).0
  }

  ghost function IdealVerdictAt(window: int, calls: seq<Call>, i: nat): (v: Verdict)
    requires i < |calls|
  {
    IdealCheck(window, LogAfter(window, calls, i), calls[i]).1
  }

  // --- The cache agrees with it ----------------------------------------------------------------------

  /** The cache holds every logged nonce whose stamp is not before cutoff, and nothing that was not logged. */
  ghost predicate Remembers(cache: Cache, log: seq<Call>, cutoff: real) {
    && (forall k | k in cache :: exists i | 0 <= i < |log| :: log[i].nonce == k && log[i].Stamp() == cache[k])
    && (forall i | 0 <= i < |log| && log[i].Stamp() >= cutoff ::
          log[i].nonce in cache && cache[log[i].nonce] >= log[i].Stamp())
  }

  lemma {:induction false} EvictedCacheIsLog(cache: Cache, log: seq<Call>, last: real, cutoff: real, nonce: Bytes)
    requires Remembers(cache, log, last) && last <= cutoff
    ensures Remembers(Evict(cache, cutoff), log, cutoff)
    ensures nonce in Evict(cache, cutoff) <==> SeenSince(log, nonce, cutoff)
  {
  }

  lemma {:induction false} InsertRemembers(kept: Cache, log: seq<Call>, cutoff: real, call: Call)
    requires Remembers(kept, log, cutoff) && call.nonce !in kept
    ensures Remembers(kept[call.nonce := call.Stamp()], log + [call], cutoff)
  {
    var after, log' := kept[call.nonce := call.Stamp()], log + [call];
    forall k | k in after
      ensures exists i | 0 <= i < |log'| :: log'[i].nonce == k && log'[i].Stamp() == after[k]
    {
      if k == call.nonce {
        assert log'[|log|] == call;
      } else {
        var i :| 0 <= i < |log| && log[i].nonce == k && log[i].Stamp() == kept[k];
        assert log'[i] == log[i];
      }
    }
  }

  /** One call keeps the cache and the log in step, and gives the same answer. */
  lemma {:induction false} CheckAgrees(window: int, cache: Cache, log: seq<Call>, call: Call, last: real)
    requires Remembers(cache, log, last) && last <= call.read2 - window as real
    ensures Check(window, cache, call).1 == IdealCheck(window, log, call).1
    ensures Remembers(Check(window, cache, call).0, IdealCheck(window, log, call).0, call.read2 - window as real)
  {
    hide Evict, Remembers, SeenSince;
    var cutoff := call.read2 - window as real;
    var kept := Evict(cache, cutoff);
    EvictedCacheIsLog(cache, log, last, cutoff, call.nonce);
    var r, ideal := Check(window, cache, call), IdealCheck(window, log, call);
    assert r.1 == ideal.1;
    if r.1 == Accepted {
      InsertRemembers(kept, log, cutoff, call);
      assert r.0 == kept[call.nonce := call.Stamp()] && ideal.0 == log + [call];
    } else {
      assert r.0 == kept && ideal.0 == log;
    }
  }

  lemma {:induction false} CacheRemembers(window: int, calls: seq<Call>, n: nat)
    requires 0 < n <= |calls| && Monotone(calls)
    ensures Remembers(CacheAfter(window, calls, n), LogAfter(window, calls, n), calls[n - 1].read2 - window as real)
    ensures VerdictAt(window, calls, n - 1) == IdealVerdictAt(window, calls, n - 1)
  {
    hide Check, IdealCheck;
    var own := calls[n - 1].read2 - window as real;
    if n == 1 {
      assert CacheAfter(window, calls, 0) == map[] && LogAfter(window, calls, 0) == [];
      CheckAgrees(window, map[], [], calls[0], own);
    } else {
      CacheRemembers(window, calls, n - 1);
      CheckAgrees(window, CacheAfter(window, calls, n - 1), LogAfter(window, calls, n - 1), calls[n - 1],
                  calls[n - 2].read2 - window as real);
    }
  }

  /**
   * The evicting cache answers every call of every run as the protector that never forgets does. Only the clock
   * read under the lock has to be monotone; the earlier reading is arbitrary.
   */
  lemma {:induction false} CacheIsIdeal(window: int, calls: seq<Call>, i: nat)
    requires i < |calls| && Monotone(calls)
    ensures VerdictAt(window, calls, i) == IdealVerdictAt(window, calls, i)
  {
    CacheRemembers(window, calls, i + 1);
  }

  lemma {:induction false} LogKeeps(window: int, calls: seq<Call>, i: nat, n: nat)
    requires i < n <= |calls| && IdealVerdictAt(window, calls, i) == Accepted
    ensures calls[i] in LogAfter(window, calls, n)
  {
    if n == i + 1 {
      assert LogAfter(window, calls, n) == LogAfter(window, calls, i) + [calls[i]];
    } else {
      LogKeeps(window, calls, i, n - 1);
    }
  }

  lemma {:induction false} LogIsAccepted(window: int, calls: seq<Call>, n: nat, call: Call)
    requires n <= |calls| && call in LogAfter(window, calls, n)
    ensures exists k | 0 <= k < n :: calls[k] == call && IdealVerdictAt(window, calls, k) == Accepted
  {
    if call in LogAfter(window, calls, n - 1) {
      LogIsAccepted(window, calls, n - 1, call);
    }
  }

  // --- What it means for a pair ----------------------------------------------------------------------

  predicate SamePair(a: Call, b: Call) {
    a.nonce == b.nonce && a.Stamp() == b.Stamp()
  }

  /** A second acceptance of a (nonce, timestamp) pair has its stamp between the two cutoffs of that call. */
  lemma {:induction false} SecondAcceptanceInterval(window: int, calls: seq<Call>, i: nat, j: nat)
    requires i < j < |calls| && Monotone(calls) && SamePair(calls[i], calls[j])
    requires VerdictAt(window, calls, i) == Accepted && VerdictAt(window, calls, j) == Accepted
    ensures calls[j].read1 - window as real <= calls[j].Stamp() < calls[j].read2 - window as real
  {
    CacheIsIdeal(window, calls, i);
    CacheIsIdeal(window, calls, j);
    LogKeeps(window, calls, i, j);
  }

  /** With one time value per call, no pair is ever accepted twice. */
  lemma {:induction false} AtMostOnce(window: int, calls: seq<Call>, i: nat, j: nat)
    requires i < j < |calls| && Monotone(calls) && SamePair(calls[i], calls[j])
    requires VerdictAt(window, calls, i) == Accepted && calls[j].read1 >= calls[j].read2
    ensures VerdictAt(window, calls, j) != Accepted
  {
    if VerdictAt(window, calls, j) == Accepted {
      SecondAcceptanceInterval(window, calls, i, j);
    }
  }

  /** Every call before j that accepted this nonce had a stamp too old for j's second clock reading. */
  predicate Forgotten(window: int, calls: seq<Call>, j: nat)
    requires j < |calls|
  {
    forall k | 0 <= k < j && calls[k].nonce == calls[j].nonce && VerdictAt(window, calls, k) == Accepted ::
      calls[k].Stamp() < calls[j].read2 - window as real
  }

  /**
   * The answer to any call of any run: by the first reading for the age of its stamp, which is that reading itself
   * when there is none, and by the second for the nonce.
   */
  lemma {:induction false} VerdictExactly(window: int, calls: seq<Call>, j: nat)
    requires j < |calls| && Monotone(calls)
    ensures var stamp := match calls[j].timestamp case None => calls[j].read1 case Some(t) => t;
            VerdictAt(window, calls, j)
            == if stamp < calls[j].read1 - window as real then TimestampExpired
               else if stamp > calls[j].read1 + 5.0 then TimestampInFuture
               else if Forgotten(window, calls, j) then Accepted
               else ReplayDetected
  {
    CacheIsIdeal(window, calls, j);
    var log, cutoff := LogAfter(window, calls, j), calls[j].read2 - window as real;
    if SeenSince(log, calls[j].nonce, cutoff) {
      var m :| 0 <= m < |log| && log[m].nonce == calls[j].nonce && log[m].Stamp() >= cutoff;
      LogIsAccepted(window, calls, j, log[m]);
      var k :| 0 <= k < j && calls[k] == log[m] && IdealVerdictAt(window, calls, k) == Accepted;
      CacheIsIdeal(window, calls, k);
      assert !Forgotten(window, calls, j);
    }
    forall k | 0 <= k < j && calls[k].nonce == calls[j].nonce && VerdictAt(window, calls, k) == Accepted
      ensures calls[k] in log
    {
      CacheIsIdeal(window, calls, k);
      LogKeeps(window, calls, k, j);
    }
  }

  /** Exactly when a call accepts: its stamp is in the window by the first reading, and the nonce forgotten by the second. */
  lemma {:induction false} AcceptedExactly(window: int, calls: seq<Call>, j: nat)
    requires j < |calls| && Monotone(calls)
    ensures VerdictAt(window, calls, j) == Accepted <==>
              && calls[j].read1 - window as real <= calls[j].Stamp() <= calls[j].read1 + 5.0
              && Forgotten(window, calls, j)
  {
    hide VerdictAt, Forgotten;
    VerdictExactly(window, calls, j);
  }

  /** The same calls with every missing timestamp written out: it is the first clock reading of its call. */
  function WrittenOut(calls: seq<Call>): (explicit: seq<Call>)
    ensures |explicit| == |calls|
    ensures forall i | 0 <= i < |calls| ::
              explicit[i] == Call(calls[i].nonce,
                                  if calls[i].timestamp.Some? then calls[i].timestamp else Some(calls[i].read1),
                                  calls[i].read1, calls[i].read2)
  {
    seq(|calls|, i requires 0 <= i < |calls| => calls[i].(timestamp := Some(calls[i].Stamp())))
  }

  lemma {:induction false} MissingStampAgrees(window: int, cache: Cache, call: Call)
    ensures Check(window, cache, call.(timestamp := Some(call.Stamp()))) == Check(window, cache, call)
  {
  }

  /** A missing timestamp makes no difference to any answer of the run. */
  lemma {:induction false} MissingStampsAgree(window: int, calls: seq<Call>, n: nat)
    requires n <= |calls|
    ensures CacheAfter(window, WrittenOut(calls), n) == CacheAfter(window, calls, n)
    ensures n < |calls| ==> VerdictAt(window, WrittenOut(calls), n) == VerdictAt(window, calls, n)
  {
    hide Check;
    if n > 0 {
      MissingStampsAgree(window, calls, n - 1);
      MissingStampAgrees(window, CacheAfter(window, calls, n - 1), calls[n - 1]);
    }
    if n < |calls| {
      MissingStampAgrees(window, CacheAfter(window, calls, n), calls[n]);
    }
  }

  /**
   * Exactly when a pair accepted by call i is accepted again by call j: when the stamp is young enough for the first
   * clock reading and too old for the second, as is every other stamp under which the nonce was accepted.
   */
  lemma {:induction false} SecondAcceptanceExactly(window: int, calls: seq<Call>, i: nat, j: nat)
    requires i < j < |calls| && Monotone(calls) && SamePair(calls[i], calls[j])
    requires VerdictAt(window, calls, i) == Accepted
    ensures VerdictAt(window, calls, j) == Accepted <==>
              && calls[j].read1 - window as real <= calls[j].Stamp() < calls[j].read2 - window as real
              && calls[j].Stamp() <= calls[j].read1 + 5.0
              && Forgotten(window, calls, j)
  {
    AcceptedExactly(window, calls, j);
  }

  /** The interval is not empty: a pair accepted twice because the clock moves between the two readings. */
  lemma {:induction false} SecondAcceptanceHappens()
    ensures var calls := [Call([], Some(0.0), 0.0, 0.0), Call([], Some(0.0), 60.0, 61.0)];
            && Monotone(calls) && SamePair(calls[0], calls[1])
            && VerdictAt(60, calls, 0) == Accepted && VerdictAt(60, calls, 1) == Accepted
  {
    var calls := [Call([], Some(0.0), 0.0, 0.0), Call([], Some(0.0), 60.0, 61.0)];
    assert CacheAfter(60, calls, 0) == map[];
    assert CacheAfter(60, calls, 1) == map[[] := 0.0];
    assert Evict(CacheAfter(60, calls, 1), 1.0) == map[];
  }

  /** With one time value per call, every cached stamp is within the window of the latest call. */
  lemma {:induction false} CacheIsBounded(window: int, calls: seq<Call>, n: nat)
    requires 0 < n <= |calls| && Monotone(calls)
    requires forall i | 0 <= i < n :: calls[i].read1 == calls[i].read2
    ensures var now := calls[n - 1].read1; forall k | k in CacheAfter(window, calls, n) ::
              now - window as real <= CacheAfter(window, calls, n)[k] <= now + FUTURE_TOLERANCE
  {
    if n > 1 {
      CacheIsBounded(window, calls, n - 1);
      assert calls[n - 2].read2 <= calls[n - 1].read2;
    }
  }
}
