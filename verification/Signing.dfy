/**
 * RSA-PSS as a ledger of what has been signed: a signature verifies for a key and some bytes exactly when that
 * key signed those bytes with that signature.
 */
module Signing {
  import opened Prelude

  datatype Signed = Signed(publicKey: Text, data: Bytes, signature: Bytes)

  type Ledger = set<Signed>

  function Sign(ledger: Ledger, publicKey: Text, data: Bytes, signature: Bytes): (after: Ledger) {
    ledger + {Signed(publicKey, data, signature)}
  }

  predicate Verifies(ledger: Ledger, publicKey: Text, data: Bytes, signature: Bytes) {
    Signed(publicKey, data, signature) in ledger
  }
}
