/**
 * The calls into libraries, as functions of everything they depend on: AES-256-GCM, RSA-OAEP key wrapping with
 * its random seed, the public key of a private key, dates, and what Node and SQLite make of JSON values that are
 * not strings or numbers. Signatures are in Signing.
 */
module Libraries {
  import opened Prelude
  import opened Json
  import Decimal

  /** The times a Date can hold, in milliseconds (section 21.4.1.1 of ECMA-262). */
  predicate IsDate(t: int) {
    -8640000000000000 <= t <= 8640000000000000
  }

  datatype Library = Library(
    seal: (Bytes, Bytes, Bytes) -> (Bytes, Bytes),
    unseal: (Bytes, Bytes, Bytes, Bytes) -> Option<Bytes>,
    wrap: (Text, Bytes, Bytes) -> Bytes,
    unwrap: (Text, Bytes) -> Option<Bytes>,
    publicOf: JsString -> JsString,
    isoOf: int -> JsString,
    dateOf: Text -> Option<int>,
    plusDays: (int, int) -> int,
    plusYears: (int, int) -> int,
    bufferOf: JSON -> Option<Bytes>,
    stringOf: JSON -> Option<Text>,
    rowIdOf: JSON -> Option<int>)
  {
    /** The ISO text of a date parses back to it. */
    ghost predicate DateLaw() {
      forall t | IsDate(t) :: dateOf(isoOf(t)) == Some(t)
    }

    /** Decryption inverts encryption, unwrapping inverts wrapping, and the outputs have their fixed sizes. */
    ghost predicate Lawful() {
      && (forall key, iv, p :: |key| == 32 && |iv| == 12 ==>
            |seal(key, iv, p).0| == |p| && |seal(key, iv, p).1| == 16
            && unseal(key, iv, seal(key, iv, p).0, seal(key, iv, p).1) == Some(p))
      && (forall priv: JsString, key, seed :: |key| == 32 ==>
            |wrap(publicOf(priv), key, seed)| == 256
            && unwrap(priv, wrap(publicOf(priv), key, seed)) == Some(key))
    }
  }

  function DecimalUnits(n: int): (t: JsString)
    ensures t == Decimal.OfInt(n)
  {
    IntegerIsNumber(n);
    Decimal.OfInt(n)
  }

  /** The laws are consistent: an instance that only moves bytes around satisfies them. */
  lemma {:induction false} LawsAreConsistent() returns (lib: Library)
    ensures lib.Lawful() && lib.DateLaw()
  {
    var zeros := (n: nat) => seq(n, _ => 0 as Byte);
    lib := Library(
      (key: Bytes, iv: Bytes, p: Bytes) => (p, zeros(16)),
      (key: Bytes, iv: Bytes, ct: Bytes, tag: Bytes) => Some(ct),
      (pub: Text, key: Bytes, seed: Bytes) => if |key| == 32 then key + zeros(224) else [],
      (priv: Text, w: Bytes) => if |w| >= 32 then Some(w[..32]) else None,
      (priv: JsString) => priv,
      (t: int) => DecimalUnits(t),
      (t: Text) => Decimal.ToInt(t),
      (t: int, days: int) => t + days * 86400000,
      (t: int, years: int) => t + years * 31557600000,
      (v: JSON) => None,
      (v: JSON) => None,
      (v: JSON) => None);
    forall t: int
      ensures lib.dateOf(lib.isoOf(t)) == Some(t)
    {
      Decimal.RoundTrip(t);
    }
    forall priv: JsString, key: Bytes, seed: Bytes | |key| == 32
      ensures lib.unwrap(priv, lib.wrap(lib.publicOf(priv), key, seed)) == Some(key)
    {
      assert (key + zeros(224))[..32] == key;
    }
  }
}
