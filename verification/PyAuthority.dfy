/**
 * certificate_authority: the authority's four files as text, and its calls, each of which may stop between any two
 * of its effects. stop counts the effects that happen before the process dies; an effect is one file write, or the
 * making of a signature.
 */
module PyAuthority {
  import opened Prelude
  import opened Json
  import opened PyCertificates
  import opened PyCrypto
  import opened PyLibraries
  import opened Records
  import opened Signing
  import Decimal
  import Indented
  import KeyStore
  import Printed
  import PyText

  /** ca_cert.json, ca_key.enc, crl.json and serial.json, when they exist. */
  datatype Disk = Disk(caCert: Option<Text>, key: Option<Text>, crl: Option<Text>, serial: Option<Text>)

  /** A certificate this code signed, and the public key it signed it for. */
  datatype Made = Made(caPublic: Bytes, cert: Fields)

  /** The files, everything signed by anyone, and the certificates this code signed, in order. */
  datatype State = State(disk: Disk, ledger: Ledger, made: seq<Made>)

  const EMPTY := State(Disk(None, None, None, None), {}, [])

  const FIRST_SERIAL := 1000
  const CA_DAYS := 3650

  const NEXT_SERIAL: Text := Literal("next_serial")
  const SERIALS: Text := Literal("serials")

  // --- Files -----------------------------------------------------------------------------------------

  /** The dictionary in a file. */
  function ReadObject(file: Option<Text>): (d: Result<Fields, Failure>) {
    match file
    case None => Err(NotInitialized)
    case Some(text) =>
      match ParseText(Python, text)
      case Some(Obj(d)) => Ok(d)
      case _ => Err(Unreadable)
  }

  lemma {:induction false} ReadsWhatWasWritten(d: Fields)
    requires FieldsFit(Python, d)
    ensures ReadObject(Some(Indented.Pretty(Obj(d)))) == Ok(d)
  {
    Indented.RoundTrip(Obj(d));
  }

  function SerialText(next: int): (t: Text) {
    Indented.Pretty(Obj(FCons(NEXT_SERIAL, Num(Decimal.OfInt(next)), FNil)))
  }

  /** The counter in a serial file's dictionary. */
  function NextSerial(d: Fields): (n: Result<int, Failure>) {
    match Get(d, NEXT_SERIAL)
    case None => Err(MissingField(NEXT_SERIAL))
    case Some(Num(token)) =>
      var n := Decimal.ToInt(token);
      if n.Some? then Ok(n.value) else Err(Unreadable)
    case Some(_) => Err(Unreadable)
  }

  lemma {:induction false} CounterFits(next: int)
    ensures FieldsFit(Python, FCons(NEXT_SERIAL, Num(Decimal.OfInt(next)), FNil))
  {
    IntegerIsNumber(next);
    assert Fits(Python, Num(Decimal.OfInt(next))) && StringFits(Python, NEXT_SERIAL) && FieldsFit(Python, FNil);
  }

  lemma {:induction false} SerialReads(next: int)
    ensures var d := FCons(NEXT_SERIAL, Num(Decimal.OfInt(next)), FNil);
            && FieldsFit(Python, d) && ReadObject(Some(SerialText(next))) == Ok(d) && NextSerial(d) == Ok(next)
            && Indented.Pretty(Obj(Put(d, NEXT_SERIAL, Num(Decimal.OfInt(next + 1))))) == SerialText(next + 1)
  {
    hide IsNumber, Decimal.OfInt, Decimal.ToInt, Indented.PrettyTo, FieldsFit, ParseText;
    Decimal.RoundTrip(next);
    var d := FCons(NEXT_SERIAL, Num(Decimal.OfInt(next)), FNil);
    CounterFits(next);
    ReadsWhatWasWritten(d);
  }

  // --- The revocation list ---------------------------------------------------------------------------

  /** A set of serials, kept ascending as the file keeps it. */
  predicate Ascending(ns: seq<int>) {
    forall i, j | 0 <= i < j < |ns| :: ns[i] < ns[j]
  }

  /** sorted(ns | {n}). */
  function Added(ns: seq<int>, n: int): (r: seq<int>)
    ensures forall k :: k in r <==> k in ns || k == n
  {
    if ns == [] || n < ns[0] then [n] + ns
    else if n == ns[0] then ns
    else
      assert forall k :: k in ns <==> k == ns[0] || k in ns[1..];
      [ns[0]] + Added(ns[1..], n)
  }

  lemma {:induction false} AddedAscends(ns: seq<int>, n: int)
    requires Ascending(ns)
    ensures Ascending(Added(ns, n))
  {
    if ns != [] && n > ns[0] {
      AddedAscends(ns[1..], n);
      var r := Added(ns[1..], n);
      forall j | 0 <= j < |r|
        ensures ns[0] < r[j]
      {
        assert r[j] in r;
      }
    }
  }

  /** set(items), when all of them are integers. */
  function SetOf(x: Items): (ns: Option<seq<int>>) {
    match x
    case INil => Some([])
    case ICons(Num(token), more) =>
      var n, rest := Decimal.ToInt(token), SetOf(more);
      if n.Some? && rest.Some? then Some(Added(rest.value, n.value)) else None
    case ICons(_, _) => None
  }

  lemma {:induction false} SetOfAscending(ns: seq<int>)
    requires Ascending(ns)
    ensures SetOf(NumberItems(ns)) == Some(ns)
  {
    if ns != [] {
      SetOfAscending(ns[1..]);
      Decimal.RoundTrip(ns[0]);
      assert ns == [ns[0]] + ns[1..];
      assert |ns| > 1 ==> ns[0] < ns[1] == ns[1..][0];
    }
  }

  function CrlText(crl: seq<int>): (t: Text) {
    Indented.Pretty(Obj(FCons(SERIALS, Arr(NumberItems(crl)), FNil)))
  }

  function LoadCrl(file: Option<Text>): (crl: Result<seq<int>, Failure>) {
    match ReadObject(file)
    case Err(e) => Err(e)
    case Ok(d) =>
      match Get(d, SERIALS)
      case None => Ok([])
      case Some(Arr(items)) =>
        var crl := SetOf(items);
        if crl.Some? then Ok(crl.value) else Err(Unreadable)
      case Some(_) => Err(Unreadable)
  }

  /** The saved list loads as the list that was saved. */
  lemma {:induction false} CrlReads(crl: seq<int>)
    requires Ascending(crl)
    ensures LoadCrl(Some(CrlText(crl))) == Ok(crl)
  {
    NumberItemsFit(Python, crl);
    ReadsWhatWasWritten(FCons(SERIALS, Arr(NumberItems(crl)), FNil));
    SetOfAscending(crl);
  }

  /** A list file without a list is an empty list; one with anything but a list is not readable. */
  lemma {:induction false} OtherListsRead(d: Fields)
    requires FieldsFit(Python, d)
    ensures var crl, v := LoadCrl(Some(Indented.Pretty(Obj(d)))), Get(d, Literal("serials"));
            && (v.None? ==> crl == Ok([])) && (v.Some? && !v.value.Arr? ==> crl == Err(Unreadable))
  {
    hide ParseText, Indented.Pretty;
    ReadsWhatWasWritten(d);
  }

  // --- The files as they are read by people ----------------------------------------------------------

  /** An object of one field, indented: a line for the field between those of the braces. */
  lemma {:induction false} OneField(name: Text, v: JSON, rest: Text)
    requires IsPlain(name)
    ensures Indented.PrettyTo(Obj(FCons(name, v, FNil)), 0, rest)
         == [123, 10, 32, 32, 34] + name + [34, 58, 32] + Indented.PrettyTo(v, 1, [10, 125] + rest)
  {
    hide QuoteTo;
    var text := Indented.PrettyTo(v, 1, [10, 125] + rest);
    OneBreak(text, rest);
    Printed.QuotePlain(Python, name, [34] + ([58] + ([32] + text)));
  }

  lemma {:induction false} OneBreak(text: Text, rest: Text)
    ensures Indented.Break(0) + ([125] + rest) == [10, 125] + rest
    ensures Indented.Break(1) == [10, 32, 32]
    ensures [34] + ([58] + ([32] + text)) == [34, 58, 32] + text
  {
    assert Indented.Break(0) == [10];
  }

  /** The counter file, character by character: two spaces of indentation and a space after the colon. */
  lemma {:induction false} SerialFile(next: int)
    ensures SerialText(next)
         == [123, 10, 32, 32, 34] + Literal("next_serial") + [34, 58, 32] + Decimal.OfInt(next) + [10, 125]
  {
    hide Decimal.OfInt;
    OneField(NEXT_SERIAL, Num(Decimal.OfInt(next)), []);
    assert [10, 125] + [] == [10, 125];
  }

  /** A list of one number inside that object: a line for the number, deeper by two spaces. */
  lemma {:induction false} OneNumber(token: Text, rest: Text)
    ensures Indented.PrettyTo(Arr(ICons(Num(token), INil)), 1, rest)
         == [91, 10, 32, 32, 32, 32] + token + ([10, 32, 32, 93] + rest)
  {
    var after: Text := Indented.Break(1) + ([93] + rest);
    assert Indented.Break(1) == [10, 32, 32] && after == [10, 32, 32, 93] + rest;
    assert Indented.Break(2) == [10, 32, 32, 32, 32];
    assert Indented.PrettyTo(Num(token), 2, after) == token + after;
    assert Indented.PrettyItemsTo(ICons(Num(token), INil), 1, rest) == token + after;
  }

  /** The empty list's file, and that of a list of one serial. */
  lemma {:induction false} CrlFile(serial: int)
    ensures CrlText([]) == [123, 10, 32, 32, 34] + Literal("serials") + [34, 58, 32] + [91, 93, 10, 125]
    ensures CrlText([serial])
         == [123, 10, 32, 32, 34] + Literal("serials") + [34, 58, 32]
            + ([91, 10, 32, 32, 32, 32] + Decimal.OfInt(serial) + [10, 32, 32, 93, 10, 125])
  {
    hide Decimal.OfInt, Indented.PrettyTo, Literal;
    EmptyList();
    OneField(SERIALS, Arr(INil), []);
    OneField(SERIALS, Arr(NumberItems([serial])), []);
    OneItem(serial);
    OneNumber(Decimal.OfInt(serial), [10, 125] + []);
    assert [10, 32, 32, 93] + ([10, 125] + []) == [10, 32, 32, 93, 10, 125];
  }

  lemma {:induction false} EmptyList()
    ensures Indented.PrettyTo(Arr(INil), 1, [10, 125] + []) == [91, 93, 10, 125]
  {
  }

  lemma {:induction false} OneItem(n: int)
    ensures NumberItems([n]) == ICons(Num(Decimal.OfInt(n)), INil)
  {
    assert NumberItems([n][1..]) == INil;
  }

  // --- Calls -----------------------------------------------------------------------------------------

  /** sign_certificate with a private key, recorded. */
  function SignWith(lib: Library, s: State, c: Fields, privateKey: Bytes, signature: Bytes)
    : (r: (State, Result<Fields, Failure>))
  {
    if lib.privateType(privateKey) != Some(RSA) then (s, Err(BadKey))
    else
      var caPublic, signed := lib.publicOf(privateKey), WithSignature(c, signature);
      (s.(ledger := Sign(s.ledger, caPublic, SignedContent(c), signature), made := s.made + [Made(caPublic, signed)]),
       Ok(signed))
  }

  function LoadCaKey(lib: Library, disk: Disk, password: Text): (privateKey: Result<Bytes, Failure>) {
    match ReadObject(disk.key)
    case Err(e) => Err(e)
    case Ok(storage) => KeyStore.DecryptKey(lib, storage, password)
  }

  /** A fresh key, salt, IV and signature. */
  datatype Fresh = Fresh(privateKey: Bytes, salt: Bytes, iv: Bytes, signature: Bytes)

  /** init_ca, over its five effects: key file, signature, certificate, revocation list, serial counter. */
  function InitCa(lib: Library, s: State, name: Text, password: Text, r: Fresh, now: int, stop: nat)
    : (x: (State, Result<(), Failure>))
  {
    if s.disk.caCert.Some? then (s, Err(AlreadyInitialized))
    else match KeyStore.EncryptKey(lib, RSA, r.privateKey, password, r.salt, r.iv)
      case Err(e) => (s, Err(e))
      case Ok(storage) =>
        if stop == 0 then (s, Err(Crashed))
        else
          var keyed := s.(disk := s.disk.(key := Some(Indented.Pretty(Obj(storage)))));
          match CreateCert(lib, name, lib.publicOf(r.privateKey), Str(name), 1, CA_DAYS, now)
          case Err(e) => (keyed, Err(e))
          case Ok(c) => if stop == 1 then (keyed, Err(Crashed)) else FinishInit(lib, keyed, c, r, stop)
  }

  /** init_ca from the signature on. */
  function FinishInit(lib: Library, keyed: State, c: Fields, r: Fresh, stop: nat): (x: (State, Result<(), Failure>))
    requires stop >= 2
  {
    match SignWith(lib, keyed, c, r.privateKey, r.signature)
    case (signed, Err(e)) => (signed, Err(e))
    case (signed, Ok(root)) =>
      if stop == 2 then (signed, Err(Crashed))
      else
        var certified := signed.disk.(caCert := Some(Indented.Pretty(Obj(root))));
        var listed := if stop == 3 then certified else certified.(crl := Some(CrlText([])));
        if stop < 5 then (signed.(disk := listed), Err(Crashed))
        else (signed.(disk := listed.(serial := Some(SerialText(FIRST_SERIAL)))), Ok(()))
  }

  /** What issue_certificate reads before it changes anything: key, issuer, serial, and the counter's dictionary. */
  datatype Ready = Ready(privateKey: Bytes, issuer: JSON, serial: int, counter: Fields)

  function PrepareIssue(lib: Library, disk: Disk, password: Text): (r: Result<Ready, Failure>) {
    if disk.caCert.None? then Err(NotInitialized)
    else match LoadCaKey(lib, disk, password)
      case Err(e) => Err(e)
      case Ok(privateKey) =>
        match ReadObject(disk.caCert)
        case Err(e) => Err(e)
        case Ok(root) =>
          if Get(root, ISSUER).None? then Err(MissingField(ISSUER))
          else match ReadObject(disk.serial)
            case Err(e) => Err(e)
            case Ok(counter) =>
              match NextSerial(counter)
              case Err(e) => Err(e)
              case Ok(serial) => Ok(Ready(privateKey, Get(root, ISSUER).value, serial, counter))
  }

  /** The files once the counter has moved on. */
  function Counted(s: State, r: Ready): (t: State) {
    var counter := Put(r.counter, NEXT_SERIAL, Num(Decimal.OfInt(r.serial + 1)));
    s.(disk := s.disk.(serial := Some(Indented.Pretty(Obj(counter)))))
  }

  /** issue_certificate, over its two effects: the counter first, then the signature. */
  function IssueCertificate(lib: Library, s: State, subject: Text, pem: Bytes, days: int, password: Text,
                            signature: Bytes, now: int, stop: nat): (x: (State, Result<Fields, Failure>))
  {
    match PrepareIssue(lib, s.disk, password)
    case Err(e) => (s, Err(e))
    case Ok(r) =>
      if stop == 0 then (s, Err(Crashed))
      else match CreateCert(lib, subject, pem, r.issuer, r.serial, days, now)
        case Err(e) => (Counted(s, r), Err(e))
        case Ok(c) =>
          if stop == 1 then (Counted(s, r), Err(Crashed))
          else
            var (signed, cert) := SignWith(lib, Counted(s, r), c, r.privateKey, signature);
            (signed, if stop == 2 && cert.Ok? then Err(Crashed) else cert)
  }

  /** revoke_certificate: any serial, issued or not. */
  function RevokeCertificate(lib: Library, s: State, serial: int, password: Text, stop: nat)
    : (x: (State, Result<(), Failure>))
  {
    if s.disk.caCert.None? then (s, Err(NotInitialized))
    else match LoadCaKey(lib, s.disk, password)
      case Err(e) => (s, Err(e))
      case Ok(_) =>
        match LoadCrl(s.disk.crl)
        case Err(e) => (s, Err(e))
        case Ok(crl) =>
          if stop == 0 then (s, Err(Crashed))
          else (s.(disk := s.disk.(crl := Some(CrlText(Added(crl, serial))))), Ok(()))
  }

  /** verify_issued_cert. */
  function VerifyIssued(lib: Library, s: State, c: Fields, now: int): (a: Result<Answer, Failure>) {
    match ReadObject(s.disk.caCert)
    case Err(e) => Err(e)
    case Ok(root) =>
      match Get(root, PUBLIC_KEY)
      case None => Err(MissingField(PUBLIC_KEY))
      case Some(Str(pem)) =>
        (match PyText.Encode(pem)
         case None => Err(NotEncodable)
         case Some(caPublic) =>
           match LoadCrl(s.disk.crl)
           case Err(e) => Err(e)
           case Ok(crl) => Ok(VerifyCertificate(lib, s.ledger, c, caPublic, Some(crl), now)))
      case Some(_) => Err(WrongType(PUBLIC_KEY))
  }

  // --- Runs ------------------------------------------------------------------------------------------

  /** DoSignElsewhere: someone signs anything with any other key. */
  datatype Event =
    | DoInit(name: Text, password: Text, r: Fresh, now: int, stop: nat)
    | DoIssue(subject: Text, pem: Bytes, days: int, password: Text, signature: Bytes, now: int, stop: nat)
    | DoRevoke(serial: int, password: Text, stop: nat)
    | DoSignElsewhere(entry: Signed)

  function Step(lib: Library, s: State, e: Event): (t: State) {
    match e
    case DoInit(name, password, r, now, stop) => InitCa(lib, s, name, password, r, now, stop).0
    case DoIssue(subject, pem, days, password, signature, now, stop) =>
      IssueCertificate(lib, s, subject, pem, days, password, signature, now, stop).0
    case DoRevoke(serial, password, stop) => RevokeCertificate(lib, s, serial, password, stop).0
    case DoSignElsewhere(entry) => s.(ledger := s.ledger + {entry})
  }

  function After(lib: Library, es: seq<Event>, n: nat): (s: State)
    requires n <= |es|
  {
    if n == 0 then EMPTY else Step(lib, After(lib, es, n - 1), es[n - 1])
  }

  predicate KeyUsed(s: State, k: Bytes) {
    (exists e | e in s.ledger :: e.publicKey == k) || (exists i | 0 <= i < |s.made| :: s.made[i].caPublic == k)
  }

  /**
   * Names hold no surrogate pair, a generated RSA key is new, and nobody else signs with a key this code has
   * signed with.
   */
  predicate Enabled(lib: Library, s: State, e: Event) {
    match e
    case DoInit(name, _, r, _, _) =>
      && NoSplitPair(name) && lib.privateType(r.privateKey) == Some(RSA) && |r.salt| == 16 && |r.iv| == 12
      && !KeyUsed(s, lib.publicOf(r.privateKey))
    case DoIssue(subject, _, _, _, _, _, _) => NoSplitPair(subject)
    case DoRevoke(_, _, _) => true
    case DoSignElsewhere(entry) => forall i | 0 <= i < |s.made| :: s.made[i].caPublic != entry.publicKey
  }

  predicate Legal(lib: Library, es: seq<Event>) {
    forall i | 0 <= i < |es| :: Enabled(lib, After(lib, es, i), es[i])
  }
}
