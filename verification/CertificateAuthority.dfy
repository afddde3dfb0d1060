/**
 * The certificate authority in the form the source has: calls that read and rewrite four files. Each method is
 * proved to do what the corresponding function of PyAuthority says, wherever it stops.
 */
module CertificateAuthority {
  import opened Prelude
  import opened Json
  import opened PyAuthority
  import opened PyCertificates
  import opened PyCrypto
  import opened PyLibraries
  import opened Signing
  import Decimal
  import Indented
  import KeyStore
  import PyText

  class Authority {
    const lib: Library

    // the files
    var caCert: Option<Text>
    var key: Option<Text>
    var crl: Option<Text>
    var serial: Option<Text>

    // everything signed by anyone, and the certificates signed here
    var ledger: Ledger
    var made: seq<Made>

    function View(): State
      reads this
    {
      State(Disk(caCert, key, crl, serial), ledger, made)
    }

    constructor (lib: Library)
      ensures this.lib == lib && View() == EMPTY
    {
      this.lib := lib;
      caCert, key, crl, serial := None, None, None, None;
      ledger, made := {}, [];
    }

    method SignCertificate(c: Fields, privateKey: Bytes, signature: Bytes) returns (r: Result<Fields, Failure>)
      modifies this`ledger, this`made
      ensures (View(), r) == SignWith(lib, old(View()), c, privateKey, signature)
    {
      if lib.privateType(privateKey) != Some(RSA) {
        return Err(BadKey);
      }
      var signed := WithSignature(c, signature);
      ledger := Sign(ledger, lib.publicOf(privateKey), SignedContent(c), signature);
      made := made + [Made(lib.publicOf(privateKey), signed)];
      return Ok(signed);
    }

    method InitCa(name: Text, password: Text, r: Fresh, now: int, stop: nat) returns (done: Result<(), Failure>)
      modifies this
      ensures (View(), done) == PyAuthority.InitCa(lib, old(View()), name, password, r, now, stop)
    {
      hide KeyStore.EncryptKey, CreateCert, WithSignature, SignedContent, CrlText, SerialText;
      if caCert.Some? {
        return Err(AlreadyInitialized);
      }
      var storage := KeyStore.EncryptKey(lib, RSA, r.privateKey, password, r.salt, r.iv);
      if storage.Err? {
        return Err(storage.error);
      }
      if stop == 0 {
        return Err(Crashed);
      }
      key := Some(Indented.Pretty(Obj(storage.value)));
      var c := CreateCert(lib, name, lib.publicOf(r.privateKey), Str(name), 1, CA_DAYS, now);
      if c.Err? {
        return Err(c.error);
      }
      if stop == 1 {
        return Err(Crashed);
      }
      var root := SignCertificate(c.value, r.privateKey, r.signature);
      if root.Err? {
        return Err(root.error);
      }
      if stop == 2 {
        return Err(Crashed);
      }
      caCert := Some(Indented.Pretty(Obj(root.value)));
      if stop == 3 {
        return Err(Crashed);
      }
      crl := Some(CrlText([]));
      if stop == 4 {
        return Err(Crashed);
      }
      serial := Some(SerialText(FIRST_SERIAL));
      return Ok(());
    }

    method IssueCertificate(subject: Text, pem: Bytes, days: int, password: Text, signature: Bytes, now: int, stop: nat)
      returns (cert: Result<Fields, Failure>)
      modifies this`serial, this`ledger, this`made
      ensures (View(), cert)
           == PyAuthority.IssueCertificate(lib, old(View()), subject, pem, days, password, signature, now, stop)
    {
      hide LoadCaKey, CreateCert, ReadObject, NextSerial, SignWith;
      if caCert.None? {
        return Err(NotInitialized);
      }
      var caKey := LoadCaKey(lib, Disk(caCert, key, crl, serial), password);
      if caKey.Err? {
        return Err(caKey.error);
      }
      var root := ReadObject(caCert);
      if root.Err? {
        return Err(root.error);
      }
      var issuer := Get(root.value, ISSUER);
      if issuer.None? {
        return Err(MissingField(ISSUER));
      }
      var counter := ReadObject(serial);
      if counter.Err? {
        return Err(counter.error);
      }
      var next := NextSerial(counter.value);
      if next.Err? {
        return Err(next.error);
      }
      if stop == 0 {
        return Err(Crashed);
      }
      serial := Some(Indented.Pretty(Obj(Put(counter.value, NEXT_SERIAL, Num(Decimal.OfInt(next.value + 1))))));
      var c := CreateCert(lib, subject, pem, issuer.value, next.value, days, now);
      if c.Err? {
        return Err(c.error);
      }
      if stop == 1 {
        return Err(Crashed);
      }
      cert := SignCertificate(c.value, caKey.value, signature);
      if stop == 2 && cert.Ok? {
        return Err(Crashed);
      }
    }

    method RevokeCertificate(serialNumber: int, password: Text, stop: nat) returns (done: Result<(), Failure>)
      modifies this`crl
      ensures (View(), done) == PyAuthority.RevokeCertificate(lib, old(View()), serialNumber, password, stop)
    {
      hide LoadCaKey, LoadCrl, CrlText;
      if caCert.None? {
        return Err(NotInitialized);
      }
      var caKey := LoadCaKey(lib, Disk(caCert, key, crl, serial), password);
      if caKey.Err? {
        return Err(caKey.error);
      }
      var listed := LoadCrl(crl);
      if listed.Err? {
        return Err(listed.error);
      }
      if stop == 0 {
        return Err(Crashed);
      }
      crl := Some(CrlText(Added(listed.value, serialNumber)));
      return Ok(());
    }

    method VerifyIssuedCert(c: Fields, now: int) returns (answer: Result<Answer, Failure>)
      ensures answer == VerifyIssued(lib, View(), c, now)
    {
      hide LoadCrl, VerifyCertificate, ReadObject;
      var root := ReadObject(caCert);
      if root.Err? {
        return Err(root.error);
      }
      var field := Get(root.value, PUBLIC_KEY);
      if field.None? {
        return Err(MissingField(PUBLIC_KEY));
      }
      if !field.value.Str? {
        return Err(WrongType(PUBLIC_KEY));
      }
      var caPublic := PyText.Encode(field.value.s);
      if caPublic.None? {
        return Err(NotEncodable);
      }
      var listed := LoadCrl(crl);
      if listed.Err? {
        return Err(listed.error);
      }
      return Ok(VerifyCertificate(lib, ledger, c, caPublic.value, Some(listed.value), now));
    }
  }
}
