/** crypto_utils: AES-256-GCM with the tag kept apart from the ciphertext, and base64 fields of dictionaries. */
module PyCrypto {
  import opened Prelude
  import opened Json
  import opened PyLibraries
  import Base64

  /** Every exception the Python modules raise here. */
  datatype Failure =
    | MissingField(name: Text) | WrongType(name: Text) | BadBase64(name: Text) | NotEncodable
    | WrongKeyLength | Tampered | RefusedByLibrary
    | NotEcc | UnsupportedKeyType | AlreadyExists | NotFound | WrongPassword
    | BadSubject | BadSerial | BadValidity | BadKey
    | AlreadyInitialized | NotInitialized | Unreadable | Crashed

  /** s[:-n] and s[-n:]. */
  function AllButLast(s: Bytes, n: nat): (r: Bytes) {
    if |s| < n then [] else s[..|s| - n]
  }

  function Last(s: Bytes, n: nat): (r: Bytes) {
    if |s| < n then s else s[|s| - n..]
  }

  /** What aes_encrypt returns. */
  datatype Sealed = Sealed(iv: Bytes, ciphertext: Bytes, tag: Bytes)

  /** aes_encrypt, with its random IV as an argument. */
  function AesEncrypt(lib: Library, plaintext: Bytes, key: Bytes, aad: Bytes, iv: Bytes): (r: Result<Sealed, Failure>) {
    if |key| != 32 then Err(WrongKeyLength)
    else
      var combined := lib.seal(key, iv, plaintext, aad);
      Ok(Sealed(iv, AllButLast(combined, 16), Last(combined, 16)))
  }

  function AesDecrypt(lib: Library, ciphertext: Bytes, iv: Bytes, tag: Bytes, key: Bytes, aad: Bytes)
    : (r: Result<Bytes, Failure>)
  {
    if |key| != 32 then Err(WrongKeyLength)
    else match lib.unseal(key, iv, ciphertext + tag, aad)
      case Plain(data) => Ok(data)
      case InvalidTag => Err(Tampered)
      case Refused => Err(RefusedByLibrary)
  }

  /** Splitting the tag off and joining it again loses nothing; the parts have their documented sizes. */
  lemma {:induction false} DecryptInvertsEncrypt(lib: Library, plaintext: Bytes, key: Bytes, aad: Bytes, iv: Bytes)
    requires lib.SealLaw() && |key| == 32 && |iv| == 12
    ensures var r := AesEncrypt(lib, plaintext, key, aad, iv);
            && r.Ok? && r.value.iv == iv && |r.value.ciphertext| == |plaintext| && |r.value.tag| == 16
            && AesDecrypt(lib, r.value.ciphertext, r.value.iv, r.value.tag, key, aad) == Ok(plaintext)
  {
    var combined := lib.seal(key, iv, plaintext, aad);
    assert AllButLast(combined, 16) + Last(combined, 16) == combined;
  }

  /** b64_decode(d[name]). */
  function BytesAt(d: Fields, name: Text): (r: Result<Bytes, Failure>) {
    match Get(d, name)
    case None => Err(MissingField(name))
    case Some(Str(s)) =>
      (match Base64.Decode(s)
       case None => Err(BadBase64(name))
       case Some(b) => Ok(b))
    case Some(_) => Err(WrongType(name))
  }

  lemma {:induction false} BytesAtEncoded(d: Fields, name: Text, b: Bytes)
    requires Get(d, name) == Some(Str(Base64.Encode(b)))
    ensures BytesAt(d, name) == Ok(b)
  {
    Base64.RoundTrip(b);
  }
}
