/** encryption_engine: hybrid encryption of a message for the key in a certificate, its inverse, and its files. */
module Envelope {
  import opened Prelude
  import opened Json
  import opened PyCrypto
  import opened PyLibraries
  import opened Records
  import Base64
  import Decimal
  import Indented
  import PyText
  import Schema
  import Utf8

  const NAMES := [Literal("version"), Literal("algorithm"), Literal("ephemeral_pub_b64"), Literal("iv_b64"),
                  Literal("tag_b64"), Literal("ciphertext_b64"), Literal("nonce_b64"), Literal("timestamp")]

  const KEY_TYPE: Text := Literal("key_type")
  const PUBLIC_KEY: Text := Literal("public_key")

  /** b"encryption". */
  const INFO: Bytes := Literal("encryption")

  /** The fresh ephemeral key, IV and nonce, and the clock reading. */
  datatype Fresh = Fresh(ephemeral: Bytes, iv: Bytes, nonce: Bytes, now: int)

  predicate GoodFresh(lib: Library, r: Fresh) {
    lib.onP384(r.ephemeral) && |r.iv| == 12 && |r.nonce| == 16
  }

  /** The AES key of both directions. */
  function MessageKey(lib: Library, privateKey: Bytes, publicKey: Bytes): (key: Option<Bytes>) {
    match lib.exchange(privateKey, publicKey)
    case None => None
    case Some(secret) => Some(lib.hkdf(secret, [], INFO, 32))
  }

  function EncryptedMessage(lib: Library, r: Fresh, sealed: Sealed): (m: Fields) {
    Record(NAMES,
      [Num([49]), Str(Schema.MESSAGE_ALGORITHM), Str(Base64.Encode(lib.publicOf(r.ephemeral))),
       Str(Base64.Encode(sealed.iv)), Str(Base64.Encode(sealed.tag)), Str(Base64.Encode(sealed.ciphertext)),
       Str(Base64.Encode(r.nonce)), Num(lib.floatText(r.now))])
  }

  function EncryptMessage(lib: Library, plaintext: Bytes, recipient: Fields, r: Fresh): (m: Result<Fields, Failure>) {
    if Get(recipient, KEY_TYPE) != Some(Str(ECC)) then Err(NotEcc)
    else match Get(recipient, PUBLIC_KEY)
      case None => Err(MissingField(PUBLIC_KEY))
      case Some(Str(pem)) =>
        (match PyText.Encode(pem)
         case None => Err(NotEncodable)
         case Some(recipientPublic) =>
           match MessageKey(lib, r.ephemeral, recipientPublic)
           case None => Err(BadKey)
           case Some(key) =>
             match AesEncrypt(lib, plaintext, key, [], r.iv)
             case Err(e) => Err(e)
             case Ok(sealed) => Ok(EncryptedMessage(lib, r, sealed)))
      case Some(_) => Err(WrongType(PUBLIC_KEY))
  }

  function DecryptMessage(lib: Library, m: Fields, privateKey: Bytes): (r: Result<Bytes, Failure>) {
    match BytesAt(m, NAMES[2])
    case Err(e) => Err(e)
    case Ok(ephemeralPublic) =>
      match MessageKey(lib, privateKey, ephemeralPublic)
      case None => Err(BadKey)
      case Some(key) =>
        match BytesAt(m, NAMES[5])
        case Err(e) => Err(e)
        case Ok(ciphertext) =>
          match BytesAt(m, NAMES[3])
          case Err(e) => Err(e)
          case Ok(iv) =>
            match BytesAt(m, NAMES[4])
            case Err(e) => Err(e)
            case Ok(tag) => AesDecrypt(lib, ciphertext, iv, tag, key, [])
  }

  lemma {:induction false} NamesDiffer()
    ensures AllDifferent(NAMES)
  {
    assert NAMES[0][0] == 118 && NAMES[1][0] == 97 && NAMES[4][0] == 116 && NAMES[6][0] == 110 && NAMES[7][0] == 116;
  }

  lemma {:induction false} MessageFields(lib: Library, r: Fresh, sealed: Sealed)
    ensures var m := EncryptedMessage(lib, r, sealed);
            && Get(m, NAMES[0]) == Some(Num([49])) && Get(m, NAMES[1]) == Some(Str(Schema.MESSAGE_ALGORITHM))
            && Get(m, NAMES[7]) == Some(Num(lib.floatText(r.now)))
            && BytesAt(m, NAMES[2]) == Ok(lib.publicOf(r.ephemeral)) && BytesAt(m, NAMES[3]) == Ok(sealed.iv)
            && BytesAt(m, NAMES[4]) == Ok(sealed.tag) && BytesAt(m, NAMES[5]) == Ok(sealed.ciphertext)
            && BytesAt(m, NAMES[6]) == Ok(r.nonce)
  {
    hide Base64.Encode, Base64.Decode;
    NamesDiffer();
    var m := EncryptedMessage(lib, r, sealed);
    var values :=
      [Num([49]), Str(Schema.MESSAGE_ALGORITHM), Str(Base64.Encode(lib.publicOf(r.ephemeral))),
       Str(Base64.Encode(sealed.iv)), Str(Base64.Encode(sealed.tag)), Str(Base64.Encode(sealed.ciphertext)),
       Str(Base64.Encode(r.nonce)), Num(lib.floatText(r.now))];
    forall i | 0 <= i < 8
      ensures Get(m, NAMES[i]) == Some(values[i])
    {
      GetRecord(NAMES, values, i);
    }
    BytesAtEncoded(m, NAMES[2], lib.publicOf(r.ephemeral));
    BytesAtEncoded(m, NAMES[3], sealed.iv);
    BytesAtEncoded(m, NAMES[4], sealed.tag);
    BytesAtEncoded(m, NAMES[5], sealed.ciphertext);
    BytesAtEncoded(m, NAMES[6], r.nonce);
  }

  /** The certificate names the P-384 key of privateKey. */
  predicate IsRecipient(lib: Library, recipient: Fields, privateKey: Bytes) {
    && lib.onP384(privateKey)
    && Get(recipient, KEY_TYPE) == Some(Str(ECC)) && Get(recipient, PUBLIC_KEY) == Some(Str(lib.PublicText(privateKey)))
  }

  /** The message encrypt_message builds for that key, part by part. */
  lemma {:induction false} Encrypted(lib: Library, plaintext: Bytes, recipient: Fields, privateKey: Bytes,
                                     r: Fresh) returns (sealed: Sealed)
    requires lib.Lawful() && GoodFresh(lib, r) && IsRecipient(lib, recipient, privateKey)
    ensures EncryptMessage(lib, plaintext, recipient, r) == Ok(EncryptedMessage(lib, r, sealed))
    ensures sealed.iv == r.iv && |sealed.tag| == 16 && |sealed.ciphertext| == |plaintext|
    ensures var key := MessageKey(lib, privateKey, lib.publicOf(r.ephemeral));
            key.Some? && AesDecrypt(lib, sealed.ciphertext, sealed.iv, sealed.tag, key.value, []) == Ok(plaintext)
  {
    PublicIsText(lib, privateKey);
    var key := MessageKey(lib, r.ephemeral, lib.publicOf(privateKey)).value;
    DecryptInvertsEncrypt(lib, plaintext, key, [], r.iv);
    sealed := AesEncrypt(lib, plaintext, key, [], r.iv).value;
  }

  /** Decrypting with the recipient's key inverts encrypting, for every plaintext. */
  lemma {:induction false} DecryptInvertsEncryptMessage(lib: Library, plaintext: Bytes, recipient: Fields,
                                                        privateKey: Bytes, r: Fresh)
    requires lib.Lawful() && GoodFresh(lib, r) && IsRecipient(lib, recipient, privateKey)
    ensures var m := EncryptMessage(lib, plaintext, recipient, r);
            m.Ok? && DecryptMessage(lib, m.value, privateKey) == Ok(plaintext)
  {
    var sealed := Encrypted(lib, plaintext, recipient, privateKey, r);
    MessageFields(lib, r, sealed);
  }

  /** The message validator accepts exactly the messages with something in them. */
  lemma {:induction false} EncryptedIsAcceptedExactly(lib: Library, plaintext: Bytes, recipient: Fields,
                                                      privateKey: Bytes, r: Fresh)
    requires lib.Lawful() && GoodFresh(lib, r) && IsRecipient(lib, recipient, privateKey)
    ensures var m := EncryptMessage(lib, plaintext, recipient, r);
            m.Ok? && Schema.ValidateEncryptedMessage(lib, m.value)
                     == if plaintext == [] then Schema.Invalid("ciphertext_b64 must decode to non-empty bytes")
                        else Schema.Valid
  {
    hide Schema.First, Schema.MessageProblems, EncryptMessage, EncryptedMessage;
    var sealed := Encrypted(lib, plaintext, recipient, privateKey, r);
    ProblemsAre(lib, r, sealed);
    var problems := Schema.MessageProblems(lib, EncryptedMessage(lib, r, sealed));
    if plaintext == [] {
      Schema.FirstIs(problems, 6);
    } else {
      Schema.FirstIsValidExactly(problems);
    }
  }

  lemma {:induction false} ProblemsAre(lib: Library, r: Fresh, sealed: Sealed)
    requires lib.Lawful() && GoodFresh(lib, r) && sealed.iv == r.iv && |sealed.tag| == 16
    ensures var ps := Schema.MessageProblems(lib, EncryptedMessage(lib, r, sealed));
            && (forall i | 0 <= i < 8 && i != 6 :: ps[i].None?)
            && ps[6] == if sealed.ciphertext == [] then Some("ciphertext_b64 must decode to non-empty bytes") else None
  {
    hide Base64.Encode, Base64.Decode, EncryptedMessage, BytesAt, Schema.BytesField, Literal, Get, Record, IsNumber;
    MessageFields(lib, r, sealed);
    var m := EncryptedMessage(lib, r, sealed);
    Schema.BytesFieldIs(m, "iv_b64", r.iv);
    Schema.BytesFieldIs(m, "tag_b64", sealed.tag);
    Schema.BytesFieldIs(m, "nonce_b64", r.nonce);
    Schema.BytesFieldIs(m, "ephemeral_pub_b64", lib.publicOf(r.ephemeral));
    Schema.BytesFieldIs(m, "ciphertext_b64", sealed.ciphertext);
    IntNumber(lib, 1);
    assert Decimal.OfInt(1) == [49];
  }

  // --- What a message holds, and when it decrypts ----------------------------------------------------

  /** The AES key of a message between these two keys. */
  function KeyOf(lib: Library, privateKey: Bytes, publicKey: Bytes): (key: Bytes)
    requires lib.exchange(privateKey, publicKey).Some?
  {
    lib.hkdf(lib.exchange(privateKey, publicKey).value, [], Literal("encryption"), 32)
  }

  /** The fields of a message: its fresh public key, IV, nonce and time, and the plaintext sealed under the shared key. */
  predicate Holds(lib: Library, m: Fields, plaintext: Bytes, recipientPublic: Bytes, r: Fresh) {
    var tag, ciphertext := BytesAt(m, Literal("tag_b64")), BytesAt(m, Literal("ciphertext_b64"));
    && Get(m, Literal("version")) == Some(Num([49]))
    && Get(m, Literal("algorithm")) == Some(Str(Literal("ECDH-P384+HKDF-SHA256+AES-256-GCM")))
    && BytesAt(m, Literal("ephemeral_pub_b64")) == Ok(lib.publicOf(r.ephemeral))
    && BytesAt(m, Literal("iv_b64")) == Ok(r.iv) && BytesAt(m, Literal("nonce_b64")) == Ok(r.nonce)
    && NumberIn(lib, m, Literal("timestamp")) == Some(r.now as real / TICKS as real)
    && lib.exchange(r.ephemeral, recipientPublic).Some?
    && tag.Ok? && |tag.value| == 16 && ciphertext.Ok?
    && ciphertext.value + tag.value == lib.seal(KeyOf(lib, r.ephemeral, recipientPublic), r.iv, plaintext, [])
  }

  lemma {:induction false} SealedHolds(lib: Library, plaintext: Bytes, recipientPublic: Bytes, r: Fresh)
    requires lib.Lawful() && |r.iv| == 12 && lib.exchange(r.ephemeral, recipientPublic).Some?
    ensures var sealed := AesEncrypt(lib, plaintext, KeyOf(lib, r.ephemeral, recipientPublic), [], r.iv);
            sealed.Ok? && Holds(lib, EncryptedMessage(lib, r, sealed.value), plaintext, recipientPublic, r)
  {
    hide EncryptedMessage, BytesAt, IsNumber, Decimal.ToInt;
    var key := KeyOf(lib, r.ephemeral, recipientPublic);
    DecryptInvertsEncrypt(lib, plaintext, key, [], r.iv);
    var sealed := AesEncrypt(lib, plaintext, key, [], r.iv).value;
    assert sealed.ciphertext + sealed.tag == lib.seal(key, r.iv, plaintext, []);
    MessageFields(lib, r, sealed);
  }

  /**
   * A message is made exactly for a dictionary that names an elliptic-curve key, as text that encodes, with which the
   * fresh key agrees on a secret; otherwise the key type is the first reason to refuse.
   */
  lemma {:induction false} EncryptExactly(lib: Library, plaintext: Bytes, recipient: Fields, r: Fresh)
    requires lib.Lawful() && |r.iv| == 12
    ensures var m, key := EncryptMessage(lib, plaintext, recipient, r), Get(recipient, Literal("public_key"));
            && (m == Err(NotEcc) <==> Get(recipient, Literal("key_type")) != Some(Str(Literal("ecc"))))
            && (m.Ok? <==>
                && Get(recipient, Literal("key_type")) == Some(Str(Literal("ecc")))
                && key.Some? && key.value.Str? && PyText.NoSurrogate(key.value.s)
                && lib.exchange(r.ephemeral, Utf8.Encode(key.value.s)).Some?)
            && (m.Ok? ==> Holds(lib, m.value, plaintext, Utf8.Encode(key.value.s), r))
  {
    hide Holds, EncryptedMessage, Literal, AesEncrypt, Utf8.Encode;
    match Get(recipient, PUBLIC_KEY)
    case Some(Str(pem)) =>
      var recipientPublic := Utf8.Encode(pem);
      if lib.exchange(r.ephemeral, recipientPublic).Some? {
        SealedHolds(lib, plaintext, recipientPublic, r);
      }
    case _ =>
  }

  /** Any dictionary decrypts exactly to what its fields unseal to under the key agreed with its ephemeral key. */
  lemma {:induction false} DecryptExactly(lib: Library, m: Fields, privateKey: Bytes, plaintext: Bytes)
    requires lib.Lawful()
    ensures DecryptMessage(lib, m, privateKey) == Ok(plaintext) <==>
            var ephemeral, iv := BytesAt(m, Literal("ephemeral_pub_b64")), BytesAt(m, Literal("iv_b64"));
            var tag, ciphertext := BytesAt(m, Literal("tag_b64")), BytesAt(m, Literal("ciphertext_b64"));
            && ephemeral.Ok? && iv.Ok? && tag.Ok? && ciphertext.Ok?
            && lib.exchange(privateKey, ephemeral.value).Some?
            && lib.unseal(KeyOf(lib, privateKey, ephemeral.value), iv.value, ciphertext.value + tag.value, [])
               == Plain(plaintext)
  {
    hide BytesAt, Literal;
  }

  // --- Files -----------------------------------------------------------------------------------------

  lemma {:induction false} MessageFits(lib: Library, r: Fresh, sealed: Sealed)
    requires lib.FloatLaw()
    ensures Fits(Python, Obj(EncryptedMessage(lib, r, sealed)))
  {
    hide Base64.Encode;
    NamesDiffer();
    IntegerIsNumber(1);
    assert Decimal.OfInt(1) == [49];
    RecordFits(Python, NAMES,
      [Num([49]), Str(Schema.MESSAGE_ALGORITHM), Str(Base64.Encode(lib.publicOf(r.ephemeral))),
       Str(Base64.Encode(sealed.iv)), Str(Base64.Encode(sealed.tag)), Str(Base64.Encode(sealed.ciphertext)),
       Str(Base64.Encode(r.nonce)), Num(lib.floatText(r.now))]);
  }

  /** The text encrypt_file writes, over the bytes of the input file. */
  function EncryptFile(lib: Library, content: Bytes, recipient: Fields, r: Fresh): (t: Result<Text, Failure>) {
    match EncryptMessage(lib, content, recipient, r)
    case Err(e) => Err(e)
    case Ok(m) => Ok(Indented.Pretty(Obj(m)))
  }

  /** The bytes decrypt_file writes, over the text of the encrypted file. */
  function DecryptFile(lib: Library, content: Text, privateKey: Bytes): (b: Result<Bytes, Failure>) {
    match ParseText(Python, content)
    case Some(Obj(m)) => DecryptMessage(lib, m, privateKey)
    case _ => Err(Unreadable)
  }

  /** An encrypted file decrypts to the file it was made from. */
  lemma {:induction false} DecryptInvertsEncryptFile(lib: Library, content: Bytes, recipient: Fields, privateKey: Bytes,
                                                     r: Fresh)
    requires lib.Lawful() && GoodFresh(lib, r) && IsRecipient(lib, recipient, privateKey)
    ensures var t := EncryptFile(lib, content, recipient, r);
            t.Ok? && DecryptFile(lib, t.value, privateKey) == Ok(content)
  {
    var sealed := Encrypted(lib, content, recipient, privateKey, r);
    MessageFits(lib, r, sealed);
    Indented.RoundTrip(Obj(EncryptedMessage(lib, r, sealed)));
    DecryptInvertsEncryptMessage(lib, content, recipient, privateKey, r);
  }
}
