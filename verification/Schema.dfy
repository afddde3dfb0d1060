/** schema_validation: acceptors of encrypted messages, key files and certificates, with their reasons. */
module Schema {
  import opened Prelude
  import opened Json
  import opened PyLibraries
  import Base64
  import Decimal
  import PyCrypto
  import PyText

  datatype Validity = Valid | Invalid(reason: string)

  const MESSAGE_ALGORITHM: Text := Literal("ECDH-P384+HKDF-SHA256+AES-256-GCM")
  const STORAGE_ALGORITHM: Text := Literal("PBKDF2-SHA256+AES-256-GCM")
  const MIN_ITERATIONS := 100000
  const MAX_SUBJECT := 256

  /** d.get(name). */
  function Field(d: Fields, name: string): (v: JSON) {
    var v := Get(d, Literal(name));
    if v.Some? then v.value else Null
  }

  predicate IsOne(lib: Library, v: JSON) {
    lib.NumberOf(v) == Some(1.0)
  }

  /** The integer v is, when isinstance(v, int); a bool is one. */
  function IntOf(v: JSON): (n: Option<int>) {
    match v
    case Num(token) => Decimal.ToInt(token)
    case Bool(b) => Some(if b then 1 else 0)
    case _ => None
  }

  /** A base64 field, or the reason it is refused. */
  function BytesField(d: Fields, name: string): (r: Result<Bytes, string>) {
    match Field(d, name)
    case Str(s) =>
      (match Base64.Decode(s)
       case None => Err(name + " must be valid base64")
       case Some(b) => Ok(b))
    case _ => Err(name + " must be a string")
  }

  lemma {:induction false} BytesFieldIs(d: Fields, name: string, b: Bytes)
    requires PyCrypto.BytesAt(d, Literal(name)) == Ok(b)
    ensures BytesField(d, name) == Ok(b)
  {
  }

  /** A base64 field of an exact size: the reason to refuse it, if there is one. */
  function SizeProblem(d: Fields, name: string, size: nat, reason: string): (problem: Option<string>) {
    match BytesField(d, name)
    case Err(e) => Some(e)
    case Ok(b) => if |b| == size then None else Some(reason)
  }

  function ContentProblem(d: Fields, name: string, reason: string): (problem: Option<string>) {
    match BytesField(d, name)
    case Err(e) => Some(e)
    case Ok(b) => if b == [] then Some(reason) else None
  }

  function PemProblem(d: Fields, name: string, reason: string): (problem: Option<string>) {
    match BytesField(d, name)
    case Err(e) => Some(e)
    case Ok(b) => if PEM_BEGIN <= b then None else Some(reason)
  }

  /** The first problem of a list, in order. */
  function First(problems: seq<Option<string>>): (v: Validity) {
    if problems == [] then Valid
    else if problems[0].Some? then Invalid(problems[0].value)
    else First(problems[1..])
  }

  lemma {:induction false} FirstIsValidExactly(problems: seq<Option<string>>)
    ensures First(problems) == Valid <==> forall i | 0 <= i < |problems| :: problems[i].None?
  {
    if problems != [] {
      FirstIsValidExactly(problems[1..]);
    }
  }

  lemma {:induction false} FirstIs(problems: seq<Option<string>>, i: nat)
    requires i < |problems| && problems[i].Some? && forall j | 0 <= j < i :: problems[j].None?
    ensures First(problems) == Invalid(problems[i].value)
  {
    if i > 0 {
      FirstIs(problems[1..], i - 1);
    }
  }

  function Unless(holds: bool, reason: string): (problem: Option<string>) {
    if holds then None else Some(reason)
  }

  function MessageProblems(lib: Library, m: Fields): (ps: seq<Option<string>>)
    ensures |ps| == 8
  {
    [Unless(IsOne(lib, Field(m, "version")), "version must be 1"),
     Unless(Field(m, "algorithm") == Str(MESSAGE_ALGORITHM), "algorithm must be 'ECDH-P384+HKDF-SHA256+AES-256-GCM'"),
     SizeProblem(m, "iv_b64", 12, "iv_b64 must decode to exactly 12 bytes"),
     SizeProblem(m, "tag_b64", 16, "tag_b64 must decode to exactly 16 bytes"),
     SizeProblem(m, "nonce_b64", 16, "nonce_b64 must decode to exactly 16 bytes"),
     PemProblem(m, "ephemeral_pub_b64", "ephemeral_pub_b64 must decode to valid PEM bytes"),
     ContentProblem(m, "ciphertext_b64", "ciphertext_b64 must decode to non-empty bytes"),
     Unless(lib.NumberOf(Field(m, "timestamp")).Some?, "timestamp must be a number")]
  }

  function ValidateEncryptedMessage(lib: Library, m: Fields): (v: Validity) {
    First(MessageProblems(lib, m))
  }

  function StorageProblems(lib: Library, d: Fields): (ps: seq<Option<string>>)
    ensures |ps| == 8
  {
    var iterations := IntOf(Field(d, "iterations"));
    [Unless(IsOne(lib, Field(d, "version")), "version must be 1"),
     Unless(Field(d, "key_type") in [Str(RSA), Str(ECC)], "key_type must be 'rsa' or 'ecc'"),
     Unless(Field(d, "algorithm") == Str(STORAGE_ALGORITHM), "algorithm must be 'PBKDF2-SHA256+AES-256-GCM'"),
     Unless(iterations.Some? && iterations.value >= MIN_ITERATIONS, "iterations must be an integer >= 100000"),
     SizeProblem(d, "salt_b64", 16, "salt_b64 must decode to exactly 16 bytes"),
     SizeProblem(d, "iv_b64", 12, "iv_b64 must decode to exactly 12 bytes"),
     SizeProblem(d, "tag_b64", 16, "tag_b64 must decode to exactly 16 bytes"),
     ContentProblem(d, "encrypted_key_b64", "encrypted_key_b64 must decode to non-empty bytes")]
  }

  function ValidateKeyStorage(lib: Library, d: Fields): (v: Validity) {
    First(StorageProblems(lib, d))
  }

  predicate IsSubject(v: JSON) {
    v.Str? && !PyText.IsBlank(v.s)
  }

  predicate IsPem(v: JSON) {
    v.Str? && PEM_BEGIN <= PyText.StripLeft(v.s)
  }

  function CertificateProblems(lib: Library, c: Fields): (ps: seq<Option<string>>)
    ensures |ps| == 10
  {
    var serial, subject, signature := IntOf(Field(c, "serial")), Field(c, "subject"), Field(c, "signature");
    var from, to := lib.NumberOf(Field(c, "not_before")), lib.NumberOf(Field(c, "not_after"));
    [Unless(serial.Some? && serial.value > 0, "serial must be a positive integer"),
     Unless(IsSubject(subject), "subject must be a non-empty string"),
     Unless(IsSubject(subject) ==> |subject.s| <= MAX_SUBJECT, "subject must be at most 256 characters"),
     Unless(Field(c, "key_type") in [Str(RSA), Str(ECC)], "key_type must be 'rsa' or 'ecc'"),
     Unless(IsPem(Field(c, "public_key")), "public_key must be a valid PEM string"),
     Unless(signature.Str?, "signature must be a string"),
     Unless(signature.Str? ==> signature.s == [] || Base64.Decode(signature.s).Some?, "signature must be valid base64"),
     Unless(from.Some?, "not_before must be a number"),
     Unless(to.Some?, "not_after must be a number"),
     Unless(from.Some? && to.Some? ==> from.value < to.value, "not_before must be less than not_after")]
  }

  function ValidateCertificate(lib: Library, c: Fields): (v: Validity) {
    First(CertificateProblems(lib, c))
  }

  // --- Exactly what is accepted ----------------------------------------------------------------------

  /** The bytes in a field that is a base64 string. */
  function Decoded(d: Fields, name: string): (b: Option<Bytes>) {
    match Get(d, Literal(name))
    case Some(Str(s)) => Base64.Decode(s)
    case _ => None
  }

  predicate IsSized(d: Fields, name: string, size: nat) {
    Decoded(d, name).Some? && |Decoded(d, name).value| == size
  }

  lemma {:induction false} SizeExactly(d: Fields, name: string, size: nat, reason: string)
    ensures SizeProblem(d, name, size, reason).None? <==> IsSized(d, name, size)
    ensures ContentProblem(d, name, reason).None? <==> Decoded(d, name).Some? && Decoded(d, name).value != []
    ensures PemProblem(d, name, reason).None? <==> Decoded(d, name).Some? && PEM_BEGIN <= Decoded(d, name).value
  {
  }

  lemma {:induction false} FieldExactly(lib: Library, d: Fields, name: string, t: Text)
    ensures Field(d, name) == Str(t) <==> Get(d, Literal(name)) == Some(Str(t))
    ensures lib.NumberOf(Field(d, name)) == NumberIn(lib, d, Literal(name))
  {
  }

  /** The message validator accepts exactly the dictionaries with these fields. */
  lemma {:induction false} MessageAcceptedExactly(lib: Library, m: Fields)
    ensures ValidateEncryptedMessage(lib, m) == Valid <==>
            && NumberIn(lib, m, Literal("version")) == Some(1.0)
            && Get(m, Literal("algorithm")) == Some(Str(Literal("ECDH-P384+HKDF-SHA256+AES-256-GCM")))
            && IsSized(m, "iv_b64", 12) && IsSized(m, "tag_b64", 16) && IsSized(m, "nonce_b64", 16)
            && Decoded(m, "ephemeral_pub_b64").Some?
            && Literal("-----BEGIN") <= Decoded(m, "ephemeral_pub_b64").value
            && Decoded(m, "ciphertext_b64").Some? && Decoded(m, "ciphertext_b64").value != []
            && NumberIn(lib, m, Literal("timestamp")).Some?
  {
    hide SizeProblem, ContentProblem, PemProblem, Literal, Decoded, NumberIn, IsSized, First, Field;
    EightExactly(MessageProblems(lib, m));
    FieldExactly(lib, m, "version", []);
    FieldExactly(lib, m, "algorithm", MESSAGE_ALGORITHM);
    SizeExactly(m, "iv_b64", 12, "iv_b64 must decode to exactly 12 bytes");
    SizeExactly(m, "tag_b64", 16, "tag_b64 must decode to exactly 16 bytes");
    SizeExactly(m, "nonce_b64", 16, "nonce_b64 must decode to exactly 16 bytes");
    SizeExactly(m, "ephemeral_pub_b64", 0, "ephemeral_pub_b64 must decode to valid PEM bytes");
    SizeExactly(m, "ciphertext_b64", 0, "ciphertext_b64 must decode to non-empty bytes");
    FieldExactly(lib, m, "timestamp", []);
  }

  lemma {:induction false} EightExactly(ps: seq<Option<string>>)
    requires |ps| == 8
    ensures First(ps) == Valid <==>
            && ps[0].None? && ps[1].None? && ps[2].None? && ps[3].None?
            && ps[4].None? && ps[5].None? && ps[6].None? && ps[7].None?
  {
    FirstIsValidExactly(ps);
  }

  /** The integer in a field; true and false are 1 and 0. */
  function IntIn(d: Fields, name: string): (n: Option<int>) {
    match Get(d, Literal(name))
    case Some(v) => IntOf(v)
    case None => None
  }

  /** The field is "rsa" or "ecc". */
  predicate NamesKeyType(d: Fields) {
    Get(d, Literal("key_type")) == Some(Str(Literal("rsa"))) || Get(d, Literal("key_type")) == Some(Str(Literal("ecc")))
  }

  lemma {:induction false} IntExactly(d: Fields, name: string)
    ensures IntOf(Field(d, name)) == IntIn(d, name)
  {
  }

  lemma {:induction false} KeyTypeExactly(d: Fields)
    ensures Field(d, "key_type") in [Str(RSA), Str(ECC)] <==> NamesKeyType(d)
  {
  }

  /** The storage validator accepts exactly the dictionaries with these fields. */
  lemma {:induction false} StorageAcceptedExactly(lib: Library, d: Fields)
    ensures ValidateKeyStorage(lib, d) == Valid <==>
            && NumberIn(lib, d, Literal("version")) == Some(1.0) && NamesKeyType(d)
            && Get(d, Literal("algorithm")) == Some(Str(Literal("PBKDF2-SHA256+AES-256-GCM")))
            && IntIn(d, "iterations").Some? && IntIn(d, "iterations").value >= 100000
            && IsSized(d, "salt_b64", 16) && IsSized(d, "iv_b64", 12) && IsSized(d, "tag_b64", 16)
            && Decoded(d, "encrypted_key_b64").Some? && Decoded(d, "encrypted_key_b64").value != []
  {
    hide SizeProblem, ContentProblem, PemProblem, Literal, Decoded, NumberIn, IsSized, First, Field, IntIn, NamesKeyType;
    EightExactly(StorageProblems(lib, d));
    FieldExactly(lib, d, "version", []);
    FieldExactly(lib, d, "algorithm", STORAGE_ALGORITHM);
    IntExactly(d, "iterations");
    KeyTypeExactly(d);
    SizeExactly(d, "salt_b64", 16, "salt_b64 must decode to exactly 16 bytes");
    SizeExactly(d, "iv_b64", 12, "iv_b64 must decode to exactly 12 bytes");
    SizeExactly(d, "tag_b64", 16, "tag_b64 must decode to exactly 16 bytes");
    SizeExactly(d, "encrypted_key_b64", 0, "encrypted_key_b64 must decode to non-empty bytes");
  }

  predicate HasString(d: Fields, name: string) {
    Get(d, Literal(name)).Some? && Get(d, Literal(name)).value.Str?
  }

  function StringIn(d: Fields, name: string): (s: Text)
    requires HasString(d, name)
  {
    Get(d, Literal(name)).value.s
  }

  lemma {:induction false} StringExactly(d: Fields, name: string)
    ensures Field(d, name).Str? <==> HasString(d, name)
    ensures HasString(d, name) ==> Field(d, name).s == StringIn(d, name)
  {
  }

  lemma {:induction false} TenExactly(ps: seq<Option<string>>)
    requires |ps| == 10
    ensures First(ps) == Valid <==>
            && ps[0].None? && ps[1].None? && ps[2].None? && ps[3].None? && ps[4].None?
            && ps[5].None? && ps[6].None? && ps[7].None? && ps[8].None? && ps[9].None?
  {
    FirstIsValidExactly(ps);
  }

  /** The certificate validator accepts exactly the dictionaries with these fields. */
  lemma {:induction false} CertificateAcceptedExactly(lib: Library, c: Fields)
    ensures ValidateCertificate(lib, c) == Valid <==>
            && IntIn(c, "serial").Some? && IntIn(c, "serial").value > 0
            && HasString(c, "subject") && !PyText.IsBlank(StringIn(c, "subject")) && |StringIn(c, "subject")| <= 256
            && NamesKeyType(c)
            && HasString(c, "public_key") && Literal("-----BEGIN") <= PyText.StripLeft(StringIn(c, "public_key"))
            && HasString(c, "signature")
            && (StringIn(c, "signature") == [] || Base64.Decode(StringIn(c, "signature")).Some?)
            && NumberIn(lib, c, Literal("not_before")).Some? && NumberIn(lib, c, Literal("not_after")).Some?
            && NumberIn(lib, c, Literal("not_before")).value < NumberIn(lib, c, Literal("not_after")).value
  {
    hide Literal, NumberIn, First, Field, IntIn, NamesKeyType, HasString, StringIn, PyText.IsBlank, PyText.StripLeft;
    hide Base64.Decode;
    TenExactly(CertificateProblems(lib, c));
    IntExactly(c, "serial");
    StringExactly(c, "subject");
    KeyTypeExactly(c);
    StringExactly(c, "public_key");
    StringExactly(c, "signature");
    FieldExactly(lib, c, "not_before", []);
    FieldExactly(lib, c, "not_after", []);
  }
}
