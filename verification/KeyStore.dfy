/** key_manager: password-encrypted private keys in files, their inverse, and the key directory over any run. */
module KeyStore {
  import opened Prelude
  import opened Json
  import opened PyCrypto
  import opened PyLibraries
  import opened Records
  import Base64
  import Decimal
  import Indented
  import PyText
  import Schema
  import Utf8

  const NAMES := [Literal("version"), Literal("key_type"), Literal("algorithm"), Literal("salt_b64"),
                  Literal("iterations"), Literal("iv_b64"), Literal("tag_b64"), Literal("encrypted_key_b64")]

  const ITERATIONS := 100000

  // --- The storage record ----------------------------------------------------------------------------

  function StorageValues(keyType: Text, salt: Bytes, sealed: Sealed): (values: seq<JSON>)
    ensures |values| == 8
  {
    [Num([49]), Str(keyType), Str(Schema.STORAGE_ALGORITHM), Str(Base64.Encode(salt)), Num(Decimal.OfInt(ITERATIONS)),
     Str(Base64.Encode(sealed.iv)), Str(Base64.Encode(sealed.tag)), Str(Base64.Encode(sealed.ciphertext))]
  }

  function Storage(keyType: Text, salt: Bytes, sealed: Sealed): (d: Fields) {
    Record(NAMES, StorageValues(keyType, salt, sealed))
  }

  /** The record of a private key under a password, with the random salt and IV as arguments. */
  function EncryptKey(lib: Library, keyType: Text, pem: Bytes, password: Text, salt: Bytes, iv: Bytes)
    : (d: Result<Fields, Failure>)
  {
    match PyText.Encode(password)
    case None => Err(NotEncodable)
    case Some(secret) =>
      match AesEncrypt(lib, pem, lib.pbkdf2(secret, salt, ITERATIONS), [], iv)
      case Err(e) => Err(e)
      case Ok(sealed) => Ok(Storage(keyType, salt, sealed))
  }

  /** The AES key that a record and a password give. */
  function StorageKey(lib: Library, d: Fields, password: Text): (key: Result<Bytes, Failure>) {
    match BytesAt(d, NAMES[3])
    case Err(e) => Err(e)
    case Ok(salt) =>
      match Get(d, NAMES[4])
      case None => Err(MissingField(NAMES[4]))
      case Some(v) =>
        match PyText.Encode(password)
        case None => Err(NotEncodable)
        case Some(secret) =>
          var iterations := Schema.IntOf(v);
          if iterations.None? || iterations.value < 1 then Err(WrongType(NAMES[4]))
          else Ok(lib.pbkdf2(secret, salt, iterations.value))
  }

  function DecryptKey(lib: Library, d: Fields, password: Text): (pem: Result<Bytes, Failure>) {
    match StorageKey(lib, d, password)
    case Err(e) => Err(e)
    case Ok(key) =>
      match BytesAt(d, NAMES[5])
      case Err(e) => Err(e)
      case Ok(iv) =>
        match BytesAt(d, NAMES[6])
        case Err(e) => Err(e)
        case Ok(tag) =>
          match BytesAt(d, NAMES[7])
          case Err(e) => Err(e)
          case Ok(encrypted) =>
            var pem := AesDecrypt(lib, encrypted, iv, tag, key, []);
            if pem == Err(Tampered) then Err(WrongPassword) else pem
  }

  lemma {:induction false} NamesDiffer()
    ensures AllDifferent(NAMES)
  {
    assert NAMES[1][0] == 107 && NAMES[3][0] == 115 && NAMES[0][0] == 118 && NAMES[6][0] == 116;
  }

  lemma {:induction false} StorageFields(keyType: Text, salt: Bytes, sealed: Sealed)
    ensures var d := Storage(keyType, salt, sealed);
            && Get(d, NAMES[0]) == Some(Num([49])) && Get(d, NAMES[1]) == Some(Str(keyType))
            && Get(d, NAMES[2]) == Some(Str(Schema.STORAGE_ALGORITHM))
            && Get(d, NAMES[4]) == Some(Num(Decimal.OfInt(ITERATIONS)))
            && BytesAt(d, NAMES[3]) == Ok(salt) && BytesAt(d, NAMES[5]) == Ok(sealed.iv)
            && BytesAt(d, NAMES[6]) == Ok(sealed.tag) && BytesAt(d, NAMES[7]) == Ok(sealed.ciphertext)
  {
    hide Base64.Encode, Base64.Decode, Decimal.OfInt;
    NamesDiffer();
    var d, values := Storage(keyType, salt, sealed), StorageValues(keyType, salt, sealed);
    forall i | 0 <= i < 8
      ensures Get(d, NAMES[i]) == Some(values[i])
    {
      GetRecord(NAMES, values, i);
    }
    BytesAtEncoded(d, NAMES[3], salt);
    BytesAtEncoded(d, NAMES[5], sealed.iv);
    BytesAtEncoded(d, NAMES[6], sealed.tag);
    BytesAtEncoded(d, NAMES[7], sealed.ciphertext);
  }

  lemma {:induction false} StorageFits(keyType: Text, salt: Bytes, sealed: Sealed)
    requires keyType == RSA || keyType == ECC
    ensures Fits(Python, Obj(Storage(keyType, salt, sealed)))
  {
    hide Base64.Encode, IsNumber, Decimal.OfInt;
    NamesDiffer();
    IntegerIsNumber(1);
    IntegerIsNumber(ITERATIONS);
    OneIsOne();
    RecordFits(Python, NAMES, StorageValues(keyType, salt, sealed));
  }

  lemma {:induction false} OneIsOne()
    ensures Decimal.OfInt(1) == [49]
  {
  }

  /** A record decrypts, under its password, to the key it was made from. */
  lemma {:induction false} DecryptInvertsEncryptKey(lib: Library, keyType: Text, pem: Bytes, password: Text,
                                                    salt: Bytes, iv: Bytes)
    requires lib.Lawful() && PyText.NoSurrogate(password) && |iv| == 12
    ensures var d := EncryptKey(lib, keyType, pem, password, salt, iv);
            d.Ok? && DecryptKey(lib, d.value, password) == Ok(pem)
  {
    hide Base64.Encode, Base64.Decode, Decimal.OfInt, Storage;
    var key := lib.pbkdf2(PyText.Encode(password).value, salt, ITERATIONS);
    DecryptInvertsEncrypt(lib, pem, key, [], iv);
    var sealed := AesEncrypt(lib, pem, key, [], iv).value;
    StorageFields(keyType, salt, sealed);
    Decimal.RoundTrip(ITERATIONS);
  }

  /** The validator accepts every record that generate_keypair makes. */
  lemma {:induction false} StorageIsAccepted(lib: Library, keyType: Text, pem: Bytes, password: Text, salt: Bytes,
                                             iv: Bytes)
    requires lib.Lawful() && PyText.NoSurrogate(password) && |iv| == 12 && |salt| == 16 && pem != []
    requires keyType == RSA || keyType == ECC
    ensures var d := EncryptKey(lib, keyType, pem, password, salt, iv);
            d.Ok? && Schema.ValidateKeyStorage(lib, d.value) == Schema.Valid
  {
    hide Base64.Encode, Base64.Decode, Decimal.OfInt, Storage, Schema.StorageProblems, Schema.First;
    var key := lib.pbkdf2(PyText.Encode(password).value, salt, ITERATIONS);
    DecryptInvertsEncrypt(lib, pem, key, [], iv);
    var sealed := AesEncrypt(lib, pem, key, [], iv).value;
    NoStorageProblems(lib, keyType, salt, sealed);
    Schema.FirstIsValidExactly(Schema.StorageProblems(lib, Storage(keyType, salt, sealed)));
  }

  lemma {:induction false} NoStorageProblems(lib: Library, keyType: Text, salt: Bytes, sealed: Sealed)
    requires |salt| == 16 && |sealed.iv| == 12 && |sealed.tag| == 16 && sealed.ciphertext != []
    requires keyType == RSA || keyType == ECC
    ensures forall i | 0 <= i < 8 :: Schema.StorageProblems(lib, Storage(keyType, salt, sealed))[i].None?
  {
    hide Base64.Encode, Base64.Decode, Decimal.OfInt, Storage, BytesAt, Schema.BytesField, Literal, Get;
    var d := Storage(keyType, salt, sealed);
    StorageFields(keyType, salt, sealed);
    Schema.BytesFieldIs(d, "salt_b64", salt);
    Schema.BytesFieldIs(d, "iv_b64", sealed.iv);
    Schema.BytesFieldIs(d, "tag_b64", sealed.tag);
    Schema.BytesFieldIs(d, "encrypted_key_b64", sealed.ciphertext);
    IntNumber(lib, 1);
    OneIsOne();
    Decimal.RoundTrip(ITERATIONS);
  }

  // --- What a record holds, and when it decrypts -----------------------------------------------------

  /** The fields of a record: its type, salt and IV, and the key sealed under the one derived from the password. */
  predicate Holds(lib: Library, d: Fields, keyType: Text, pem: Bytes, password: Text, salt: Bytes, iv: Bytes) {
    var tag, encrypted := BytesAt(d, Literal("tag_b64")), BytesAt(d, Literal("encrypted_key_b64"));
    && Get(d, Literal("version")) == Some(Num([49])) && Get(d, Literal("key_type")) == Some(Str(keyType))
    && Get(d, Literal("algorithm")) == Some(Str(Literal("PBKDF2-SHA256+AES-256-GCM")))
    && Schema.IntIn(d, "iterations") == Some(100000)
    && BytesAt(d, Literal("salt_b64")) == Ok(salt) && BytesAt(d, Literal("iv_b64")) == Ok(iv)
    && tag.Ok? && |tag.value| == 16 && encrypted.Ok?
    && encrypted.value + tag.value == lib.seal(lib.pbkdf2(Utf8.Encode(password), salt, 100000), iv, pem, [])
  }

  /** A record is made exactly under a password without surrogates, and then holds the key. */
  lemma {:induction false} EncryptKeyExactly(lib: Library, keyType: Text, pem: Bytes, password: Text, salt: Bytes,
                                             iv: Bytes)
    requires lib.Lawful() && |iv| == 12
    ensures var d := EncryptKey(lib, keyType, pem, password, salt, iv);
            && (d.Ok? <==> PyText.NoSurrogate(password))
            && (d.Ok? ==> Holds(lib, d.value, keyType, pem, password, salt, iv))
  {
    hide Base64.Encode, Base64.Decode, Decimal.OfInt, Decimal.ToInt, Storage, BytesAt, Utf8.Encode;
    if PyText.NoSurrogate(password) {
      var key := lib.pbkdf2(Utf8.Encode(password), salt, ITERATIONS);
      DecryptInvertsEncrypt(lib, pem, key, [], iv);
      var sealed := AesEncrypt(lib, pem, key, [], iv).value;
      assert sealed.ciphertext + sealed.tag == lib.seal(key, iv, pem, []);
      StorageFields(keyType, salt, sealed);
      Decimal.RoundTrip(ITERATIONS);
    }
  }

  /**
   * Any dictionary decrypts exactly to what its fields unseal to under the key derived from the password, its salt and
   * its iterations; the password is called wrong exactly when those fields are there but the tag does not fit.
   */
  lemma {:induction false} DecryptKeyExactly(lib: Library, d: Fields, password: Text, pem: Bytes)
    requires lib.Lawful()
    ensures var salt, iv := BytesAt(d, Literal("salt_b64")), BytesAt(d, Literal("iv_b64"));
            var tag, encrypted := BytesAt(d, Literal("tag_b64")), BytesAt(d, Literal("encrypted_key_b64"));
            var n := Schema.IntIn(d, "iterations");
            var readable :=
              && salt.Ok? && iv.Ok? && tag.Ok? && encrypted.Ok? && n.Some? && n.value >= 1 && PyText.NoSurrogate(password);
            && (DecryptKey(lib, d, password) == Ok(pem) <==>
                && readable
                && lib.unseal(lib.pbkdf2(Utf8.Encode(password), salt.value, n.value), iv.value, encrypted.value + tag.value, [])
                   == Plain(pem))
            && (DecryptKey(lib, d, password) == Err(WrongPassword) <==>
                && readable
                && lib.unseal(lib.pbkdf2(Utf8.Encode(password), salt.value, n.value), iv.value, encrypted.value + tag.value, [])
                   == InvalidTag)
  {
    hide Literal, Utf8.Encode, Base64.Decode, Decimal.ToInt;
  }

  // --- The key directory -----------------------------------------------------------------------------

  /** The .priv and .pub files, by key name. */
  datatype Directory = Directory(priv: map<Text, Text>, pub: map<Text, Bytes>)

  /** A fresh key pair, salt and IV. */
  datatype Fresh = Fresh(privateKey: Bytes, salt: Bytes, iv: Bytes)

  predicate GoodFresh(lib: Library, keyType: Text, r: Fresh) {
    lib.privateType(r.privateKey) == Some(keyType) && |r.salt| == 16 && |r.iv| == 12
  }

  function Generate(lib: Library, s: Directory, name: Text, keyType: Text, password: Text, r: Fresh)
    : (x: (Directory, Result<(), Failure>))
  {
    if keyType != RSA && keyType != ECC then (s, Err(UnsupportedKeyType))
    else if name in s.priv || name in s.pub then (s, Err(AlreadyExists))
    else match EncryptKey(lib, keyType, r.privateKey, password, r.salt, r.iv)
      case Err(e) => (s, Err(e))
      case Ok(storage) =>
        (Directory(s.priv[name := Indented.Pretty(Obj(storage))], s.pub[name := lib.publicOf(r.privateKey)]), Ok(()))
  }

  function LoadPrivate(lib: Library, s: Directory, name: Text, password: Text): (pem: Result<Bytes, Failure>) {
    if name !in s.priv then Err(NotFound)
    else match ParseText(Python, s.priv[name])
      case Some(Obj(storage)) => DecryptKey(lib, storage, password)
      case _ => Err(Unreadable)
  }

  function LoadPublic(s: Directory, name: Text): (pem: Result<Bytes, Failure>) {
    if name in s.pub then Ok(s.pub[name]) else Err(NotFound)
  }

  function Delete(s: Directory, name: Text): (x: (Directory, Result<(), Failure>)) {
    if name !in s.priv && name !in s.pub then (s, Err(NotFound))
    else (Directory(s.priv - {name}, s.pub - {name}), Ok(()))
  }

  class KeyManager {
    const lib: Library
    var priv: map<Text, Text>
    var pub: map<Text, Bytes>

    function View(): Directory
      reads this
    {
      Directory(priv, pub)
    }

    constructor (lib: Library)
      ensures this.lib == lib && View() == Directory(map[], map[])
    {
      this.lib := lib;
      priv, pub := map[], map[];
    }

    method GenerateKeypair(name: Text, keyType: Text, password: Text, r: Fresh) returns (done: Result<(), Failure>)
      modifies this
      ensures (View(), done) == Generate(lib, old(View()), name, keyType, password, r)
    {
      hide Storage, AesEncrypt, PyText.Encode, Indented.Pretty, Literal;
      if keyType != RSA && keyType != ECC {
        return Err(UnsupportedKeyType);
      }
      if name in priv || name in pub {
        return Err(AlreadyExists);
      }
      match PyText.Encode(password)
      case None => return Err(NotEncodable);
      case Some(secret) =>
        var derivedKey := lib.pbkdf2(secret, r.salt, ITERATIONS);
        match AesEncrypt(lib, r.privateKey, derivedKey, [], r.iv)
        case Err(e) => return Err(e);
        case Ok(sealed) =>
          priv := priv[name := Indented.Pretty(Obj(Storage(keyType, r.salt, sealed)))];
          pub := pub[name := lib.publicOf(r.privateKey)];
          return Ok(());
    }

    method LoadPrivateKey(name: Text, password: Text) returns (pem: Result<Bytes, Failure>)
      ensures pem == LoadPrivate(lib, View(), name, password)
    {
      if name !in priv {
        return Err(NotFound);
      }
      match ParseText(Python, priv[name])
      case Some(Obj(storage)) => return DecryptKey(lib, storage, password);
      case _ => return Err(Unreadable);
    }

    method DeleteKey(name: Text) returns (done: Result<(), Failure>)
      modifies this
      ensures (View(), done) == Delete(old(View()), name)
    {
      if name !in priv && name !in pub {
        return Err(NotFound);
      }
      if name in priv {
        priv := priv - {name};
      }
      if name in pub {
        pub := pub - {name};
      }
      assert priv == old(priv) - {name} && pub == old(pub) - {name};
      return Ok(());
    }
  }

  // --- Exactly what the calls do ---------------------------------------------------------------------

  /**
   * A pair is generated exactly for a type "rsa" or "ecc", a name without files and a password that encodes. Then two
   * files appear under the name, holding the encrypted private key and the public key; otherwise nothing changes.
   */
  lemma {:induction false} GenerateExactly(lib: Library, s: Directory, name: Text, keyType: Text, password: Text,
                                           r: Fresh)
    requires lib.Lawful() && |r.iv| == 12
    ensures var (t, done) := Generate(lib, s, name, keyType, password, r);
            && (done.Ok? <==>
                && (keyType == Literal("rsa") || keyType == Literal("ecc")) && name !in s.priv && name !in s.pub
                && PyText.NoSurrogate(password))
            && (done == Err(UnsupportedKeyType) <==> keyType != Literal("rsa") && keyType != Literal("ecc"))
            && (done == Err(AlreadyExists) <==>
                (keyType == Literal("rsa") || keyType == Literal("ecc")) && (name in s.priv || name in s.pub))
            && (done.Err? ==> t == s)
            && (done.Ok? ==>
                && t.priv.Keys == s.priv.Keys + {name} && t.pub == s.pub[name := lib.publicOf(r.privateKey)]
                && (forall n | n in s.priv :: t.priv[n] == s.priv[n])
                && var record := ParseText(Python, t.priv[name]);
                record.Some? && record.value.Obj? &&
                Holds(lib, record.value.fields, keyType, r.privateKey, password, r.salt, r.iv))
  {
    hide Holds, Storage, AesEncrypt, Indented.Pretty, ParseText, Literal, Utf8.Encode;
    EncryptKeyExactly(lib, keyType, r.privateKey, password, r.salt, r.iv);
    var d := EncryptKey(lib, keyType, r.privateKey, password, r.salt, r.iv);
    if d.Ok? && (keyType == RSA || keyType == ECC) {
      RecordFitsFile(lib, keyType, r.privateKey, password, r.salt, r.iv);
    }
  }

  lemma {:induction false} RecordFitsFile(lib: Library, keyType: Text, pem: Bytes, password: Text, salt: Bytes,
                                          iv: Bytes)
    requires EncryptKey(lib, keyType, pem, password, salt, iv).Ok? && (keyType == RSA || keyType == ECC)
    ensures var d := EncryptKey(lib, keyType, pem, password, salt, iv).value;
            ParseText(Python, Indented.Pretty(Obj(d))) == Some(Obj(d))
  {
    hide Storage, AesEncrypt, Utf8.Encode, Indented.Pretty, ParseText;
    var key := lib.pbkdf2(Utf8.Encode(password), salt, ITERATIONS);
    var sealed := AesEncrypt(lib, pem, key, [], iv).value;
    StorageFits(keyType, salt, sealed);
    Indented.RoundTrip(Obj(Storage(keyType, salt, sealed)));
  }

  /** Deleting succeeds exactly when there is a file; then neither half loads, and every other key loads as before. */
  lemma {:induction false} DeleteExactly(lib: Library, s: Directory, name: Text)
    ensures var (t, done) := Delete(s, name);
            && (done.Ok? <==> name in s.priv || name in s.pub)
            && (forall password :: LoadPrivate(lib, t, name, password) == Err(NotFound))
            && LoadPublic(t, name) == Err(NotFound)
            && (forall n, password | n != name :: LoadPrivate(lib, t, n, password) == LoadPrivate(lib, s, n, password))
            && (forall n | n != name :: LoadPublic(t, n) == LoadPublic(s, n))
  {
    hide ParseText, DecryptKey;
  }

  // --- Runs ------------------------------------------------------------------------------------------

  datatype Event =
    | DoGenerate(name: Text, keyType: Text, password: Text, r: Fresh)
    | DoDelete(name: Text)

  function Step(lib: Library, s: Directory, e: Event): (r: Directory) {
    match e
    case DoGenerate(name, keyType, password, r) => Generate(lib, s, name, keyType, password, r).0
    case DoDelete(name) => Delete(s, name).0
  }

  /** The directory after events, starting from s. */
  function After(lib: Library, s: Directory, events: seq<Event>): (r: Directory)
    decreases |events|
  {
    if events == [] then s else After(lib, Step(lib, s, events[0]), events[1..])
  }

  lemma {:induction false} FilesStay(lib: Library, s: Directory, events: seq<Event>, name: Text)
    requires name in s.priv && name in s.pub && DoDelete(name) !in events
    ensures var t := After(lib, s, events);
            name in t.priv && t.priv[name] == s.priv[name] && name in t.pub && t.pub[name] == s.pub[name]
    decreases |events|
  {
    if events != [] {
      FilesStay(lib, Step(lib, s, events[0]), events[1..], name);
    }
  }

  /**
   * A generated key loads, with its password, as the key that was generated, and beside its public half, after any
   * further calls that do not delete it: nothing else overwrites it.
   */
  lemma {:induction false} LoadInvertsGenerate(lib: Library, s: Directory, name: Text, keyType: Text, password: Text,
                                               r: Fresh, later: seq<Event>)
    requires lib.Lawful() && GoodFresh(lib, keyType, r)
    requires Generate(lib, s, name, keyType, password, r).1 == Ok(()) && DoDelete(name) !in later
    ensures var t := After(lib, Generate(lib, s, name, keyType, password, r).0, later);
            && LoadPrivate(lib, t, name, password) == Ok(r.privateKey)
            && LoadPublic(t, name) == Ok(lib.publicOf(r.privateKey))
  {
    hide Base64.Encode, Base64.Decode, Decimal.OfInt, Storage, ParseText, DecryptKey;
    DecryptInvertsEncryptKey(lib, keyType, r.privateKey, password, r.salt, r.iv);
    var key := lib.pbkdf2(PyText.Encode(password).value, r.salt, ITERATIONS);
    var sealed := AesEncrypt(lib, r.privateKey, key, [], r.iv).value;
    StorageFits(keyType, r.salt, sealed);
    Indented.RoundTrip(Obj(Storage(keyType, r.salt, sealed)));
    FilesStay(lib, Generate(lib, s, name, keyType, password, r).0, later, name);
  }
}
