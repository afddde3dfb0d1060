/**
 * The Python side's calls into the cryptography and hashlib libraries, as functions of everything they depend on,
 * and the reading and printing of floats. Clock readings count units of 2^-22 seconds, which doubles of this
 * century hold exactly.
 */
module PyLibraries {
  import opened Prelude
  import opened Json
  import Decimal
  import PyText

  /** What AESGCM.decrypt does: a plaintext, InvalidTag, or a refusal of the IV. */
  datatype Opened = Plain(data: Bytes) | InvalidTag | Refused

  const TICKS := 4194304

  /** "-----BEGIN", the start of every PEM file. */
  const PEM_BEGIN: Text := Literal("-----BEGIN")

  const RSA: Text := Literal("rsa")
  const ECC: Text := Literal("ecc")

  datatype Library = Library(
    seal: (Bytes, Bytes, Bytes, Bytes) -> Bytes,
    unseal: (Bytes, Bytes, Bytes, Bytes) -> Opened,
    pbkdf2: (Bytes, Bytes, int) -> Bytes,
    hkdf: (Bytes, Bytes, Bytes, int) -> Bytes,
    exchange: (Bytes, Bytes) -> Option<Bytes>,
    publicOf: Bytes -> Bytes,
    privateType: Bytes -> Option<Text>,
    onP384: Bytes -> bool,
    publicType: Bytes -> Option<Text>,
    floatText: int -> Text,
    floatOf: Text -> real)
  {
    /** seal appends a 16-byte tag, and unseal inverts it. */
    ghost predicate SealLaw() {
      forall key, iv, p, aad | |key| == 32 && |iv| == 12 ::
        |seal(key, iv, p, aad)| == |p| + 16 && unseal(key, iv, seal(key, iv, p, aad), aad) == Plain(p)
    }

    /** Keys of 32 bytes are derived when they are asked for, from a password by at least one iteration. */
    ghost predicate DeriveLaw() {
      && (forall password, salt, n | n >= 1 :: |pbkdf2(password, salt, n)| == 32)
      && (forall secret, salt, info :: |hkdf(secret, salt, info, 32)| == 32)
    }

    /** Both sides of a key agreement compute the same secret, and it exists for two keys on the curve P-384. */
    ghost predicate ExchangeLaw() {
      && (forall a, b | onP384(a) && onP384(b) ::
            exchange(a, publicOf(b)).Some? && exchange(a, publicOf(b)) == exchange(b, publicOf(a)))
      && (forall a | onP384(a) :: privateType(a) == Some(ECC))
    }

    /** Private keys are not empty; their public keys are ASCII PEM files of the same type. */
    ghost predicate KeyLaw() {
      forall a | privateType(a).Some? ::
        && a != [] && PEM_BEGIN <= publicOf(a) && IsAscii(publicOf(a))
        && privateType(a).value in {RSA, ECC} && publicType(publicOf(a)) == privateType(a)
    }

    /** A clock reading is printed as a float token, and that token reads back as the reading. */
    ghost predicate FloatLaw() {
      forall n :: IsNumber(floatText(n)) && Decimal.ToInt(floatText(n)).None?
        && floatOf(floatText(n)) == n as real / TICKS as real
    }

    ghost predicate Lawful() {
      SealLaw() && DeriveLaw() && ExchangeLaw() && KeyLaw() && FloatLaw()
    }

    /** The number a JSON value is in Python, where True is 1; None for values that are not numbers. */
    function NumberOf(v: JSON): (x: Option<real>) {
      match v
      case Num(token) =>
        var n := Decimal.ToInt(token);
        Some(if n.Some? then n.value as real else floatOf(token))
      case Bool(b) => Some(if b then 1.0 else 0.0)
      case _ => None
    }

    /** The PEM text of a key pair's public half. */
    function PublicText(privateKey: Bytes): (t: Text) {
      var t := PyText.Decode(publicOf(privateKey));
      if t.Some? then t.value else []
    }
  }

  /** The number in a field. */
  function NumberIn(lib: Library, d: Fields, name: Text): (x: Option<real>) {
    match Get(d, name)
    case None => None
    case Some(v) => lib.NumberOf(v)
  }

  /** A public PEM file is its own text. */
  lemma {:induction false} PublicIsText(lib: Library, privateKey: Bytes)
    requires lib.KeyLaw() && lib.privateType(privateKey).Some?
    ensures lib.PublicText(privateKey) == lib.publicOf(privateKey)
    ensures PyText.Decode(lib.publicOf(privateKey)) == Some(lib.PublicText(privateKey))
    ensures PyText.Encode(lib.PublicText(privateKey)) == Some(lib.publicOf(privateKey))
    ensures PEM_BEGIN <= lib.PublicText(privateKey) && PyText.NoSurrogate(lib.PublicText(privateKey))
  {
    var pem := lib.publicOf(privateKey);
    PyText.AsciiEncodes(pem);
    PyText.DecodeInvertsEncode(pem);
  }

  /** An int token has the value of its digits. */
  lemma {:induction false} IntNumber(lib: Library, n: int)
    ensures lib.NumberOf(Num(Decimal.OfInt(n))) == Some(n as real)
  {
    Decimal.RoundTrip(n);
  }

  // --- The laws are consistent -----------------------------------------------------------------------

  function ToyFloat(n: int): (t: Text) {
    Decimal.OfInt(n) + [46, 48]
  }

  function ToyValue(t: Text): (x: real) {
    var n := if |t| >= 2 then Decimal.ToInt(t[..|t| - 2]) else None;
    if n.Some? then n.value as real / TICKS as real else 0.0
  }

  lemma {:induction false} DigitRunBefore(d: Text, rest: Text)
    requires Decimal.AllDigits(d) && (rest == [] || !Decimal.IsDigit(rest[0]))
    ensures DigitRun(d + rest) == |d|
  {
    if d == [] {
      assert d + rest == rest;
    } else {
      assert (d + rest)[1..] == d[1..] + rest;
      DigitRunBefore(d[1..], rest);
    }
  }

  /** Digits, without leading zeros, a point and a zero are a number, also behind a minus sign. */
  lemma {:induction false} PointZeroIsNumber(d: Text)
    requires Decimal.AllDigits(d) && d != [] && (d[0] == 48 ==> |d| == 1)
    ensures var u := d + [46, 48]; IsNumber(u) && IsNumber([45] + u)
  {
    var u := d + [46, 48];
    assert u[|d|..] == [46, 48];
    assert [46, 48][1..] == [48] && [46, 48][2..] == [];
    assert DigitRun([48]) == 1;
    assert AfterInteger([46, 48]);
    DigitRunBefore(d, [46, 48]);
    assert d[0] == 48 ==> u[1..] == [46, 48];
    assert forall k | 0 <= k < |u| :: IsNumberChar(u[k]);
    assert ([45] + u)[1..] == u;
  }

  lemma {:induction false} ToyFloatIsNumber(n: int)
    ensures IsNumber(ToyFloat(n)) && Decimal.ToInt(ToyFloat(n)).None?
    ensures ToyValue(ToyFloat(n)) == n as real / TICKS as real
  {
    hide IsNumber;
    var d := Decimal.OfNat(if n < 0 then -n else n);
    Decimal.RoundTrip(n);
    assert ToyFloat(n)[..|ToyFloat(n)| - 2] == Decimal.OfInt(n);
    PointZeroIsNumber(d);
    PointIsNoInteger(d);
    assert ToyFloat(n) == if n < 0 then [45] + (d + [46, 48]) else d + [46, 48];
  }

  lemma {:induction false} PointIsNoInteger(d: Text)
    ensures Decimal.ToInt(d + [46, 48]).None? && Decimal.ToInt([45] + (d + [46, 48])).None?
  {
    var u := d + [46, 48];
    assert !Decimal.IsDigit(u[|d|]);
    assert ([45] + u)[1..] == u && !Decimal.IsDigit(([45] + u)[0]);
    if d != [] && d[0] == 45 {
      assert !Decimal.IsDigit(u[1..][|d| - 1]);
    }
  }

  function Zeros(n: int): (b: Bytes) {
    seq(if n < 0 then 0 else n, _ => 0)
  }

  const TOY_ECC: Bytes := PEM_BEGIN + [1]
  const TOY_RSA: Bytes := PEM_BEGIN + [2]

  /** An instance that only moves bytes around: a key is its type's first byte, and every secret is empty. */
  function Toy(): (lib: Library) {
    Library(
      (key: Bytes, iv: Bytes, p: Bytes, aad: Bytes) => p + Zeros(16),
      (key: Bytes, iv: Bytes, c: Bytes, aad: Bytes) => if |c| < 16 then InvalidTag else Plain(c[..|c| - 16]),
      (password: Bytes, salt: Bytes, n: int) => Zeros(32),
      (secret: Bytes, salt: Bytes, info: Bytes, n: int) => Zeros(n),
      (a: Bytes, p: Bytes) => if a != [] && a[0] == 1 && p == TOY_ECC then Some([]) else None,
      (a: Bytes) => if a == [] then [] else if a[0] == 1 then TOY_ECC else if a[0] == 2 then TOY_RSA else [],
      (a: Bytes) => if a == [] then None else if a[0] == 1 then Some(ECC) else if a[0] == 2 then Some(RSA) else None,
      (a: Bytes) => a != [] && a[0] == 1,
      (p: Bytes) => if p == TOY_ECC then Some(ECC) else if p == TOY_RSA then Some(RSA) else None,
      ToyFloat,
      ToyValue)
  }

  lemma {:induction false} ToySeals()
    ensures Toy().SealLaw() && Toy().DeriveLaw()
  {
    forall p: Bytes
      ensures (p + Zeros(16))[..|p|] == p
    {
    }
  }

  lemma {:induction false} ToyFloats()
    ensures Toy().FloatLaw()
  {
    hide IsNumber, ToyFloat, ToyValue, Decimal.ToInt;
    forall n
      ensures IsNumber(ToyFloat(n)) && Decimal.ToInt(ToyFloat(n)).None?
      ensures ToyValue(ToyFloat(n)) == n as real / TICKS as real
    {
      ToyFloatIsNumber(n);
    }
  }

  lemma {:induction false} ToyKeys()
    ensures Toy().KeyLaw() && Toy().ExchangeLaw()
  {
    assert TOY_ECC[|PEM_BEGIN|] == 1 && TOY_RSA[|PEM_BEGIN|] == 2;
    assert RSA[0] == 114 && ECC[0] == 101;
  }

  lemma {:induction false} LawsAreConsistent()
    ensures Toy().Lawful()
  {
    ToySeals();
    ToyFloats();
    ToyKeys();
  }
}
