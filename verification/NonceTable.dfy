/**
 * The relay's nonces table. It keeps each delivered nonce under the time it was stored, and purges by that time.
 * Each call reads the clock for the purge, then for the stamp test, then for the store.
 */
module NonceTable {
  import opened Prelude

  const WINDOW_MS := 60000

  type Table = map<Text, int>

  /** DELETE FROM nonces WHERE timestamp < now - window. */
  function Purge(table: Table, now: int): (kept: Table) {
    map n | n in table && table[n] >= now - WINDOW_MS :: table[n]
  }

  predicate InWindow(stamp: int, now: int) {
    -WINDOW_MS <= now - stamp <= WINDOW_MS
  }

  /** A delivered packet, with the three clock readings of its call. */
  datatype Delivery = Delivery(nonce: Text, stamp: int, purgeAt: int, testAt: int, storeAt: int)

  /** The table holds every nonce delivered since cutoff, and nothing that was not delivered. */
  ghost predicate Tracks(table: Table, log: seq<Delivery>, cutoff: int) {
    && (forall n | n in table :: exists i | 0 <= i < |log| :: log[i].nonce == n && log[i].storeAt == table[n])
    && (forall i | 0 <= i < |log| && log[i].storeAt >= cutoff ::
          log[i].nonce in table && table[log[i].nonce] >= log[i].storeAt)
  }

  /** A history that is never purged: some delivery of this nonce was stored at or after from. */
  ghost predicate DeliveredSince(log: seq<Delivery>, nonce: Text, from: int) {
    exists i | 0 <= i < |log| :: log[i].nonce == nonce && log[i].storeAt >= from
  }

  /** Every delivery was in its window, and a later one under the same nonce came a full window later. */
  predicate Spaced(log: seq<Delivery>) {
    && (forall i | 0 <= i < |log| ::
          InWindow(log[i].stamp, log[i].testAt) && log[i].purgeAt <= log[i].testAt <= log[i].storeAt)
    && (forall i, j | 0 <= i < j < |log| && log[i].nonce == log[j].nonce ::
          log[i].storeAt + WINDOW_MS < log[j].purgeAt)
  }

  /** After a purge the table answers exactly as the history does. */
  lemma {:induction false} PurgedTableIsHistory(table: Table, log: seq<Delivery>, cutoff: int, now: int)
    requires Tracks(table, log, cutoff) && cutoff <= now - WINDOW_MS
    ensures Tracks(Purge(table, now), log, now - WINDOW_MS)
    ensures forall nonce :: nonce in Purge(table, now) <==> DeliveredSince(log, nonce, now - WINDOW_MS)
  {
    forall nonce
      ensures nonce in Purge(table, now) <==> DeliveredSince(log, nonce, now - WINDOW_MS)
    {
    }
  }

  /** Storing an absent nonce extends the history by a well-spaced delivery. */
  lemma {:induction false} StoreTracks(table: Table, log: seq<Delivery>, d: Delivery)
    requires Tracks(table, log, d.purgeAt - WINDOW_MS) && Spaced(log)
    requires d.nonce !in table && InWindow(d.stamp, d.testAt) && d.purgeAt <= d.testAt <= d.storeAt
    ensures Tracks(table[d.nonce := d.storeAt], log + [d], d.purgeAt - WINDOW_MS)
    ensures Spaced(log + [d])
  {
    var next, log' := table[d.nonce := d.storeAt], log + [d];
    forall n | n in next
      ensures exists i | 0 <= i < |log'| :: log'[i].nonce == n && log'[i].storeAt == next[n]
    {
      if n == d.nonce {
        assert log'[|log|] == d;
      } else {
        var i :| 0 <= i < |log| && log[i].nonce == n && log[i].storeAt == table[n];
        assert log'[i] == log[i];
      }
    }
  }

  /** The same packet delivered twice was stamped later than it was first stored. */
  lemma {:induction false} RepeatIsStampedInTheFuture(log: seq<Delivery>, i: nat, j: nat)
    requires Spaced(log) && i < j < |log| && log[i].nonce == log[j].nonce && log[i].stamp == log[j].stamp
    ensures log[i].stamp > log[i].storeAt
  {
  }
}
