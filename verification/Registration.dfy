/** What registration and a new certificate leave behind, and exactly when each is refused. */
module Registration {
  import opened Prelude
  import opened Libraries
  import opened PkiService
  import opened Relay
  import opened Signing
  import Hex

  /** A certificate for one year of 365 days under this serial, signed by the authority's present key. */
  predicate Certifies(lib: Library, p: Pki, c: Certificate, serial: int, subject: JsString, publicKey: JsString, now: int,
                      sig: Bytes)
  {
    && c == Certificate(serial, subject, publicKey, lib.isoOf(now), lib.isoOf(lib.plusDays(now, 365)), Hex.Encode(sig))
    && Signed(CaPublic(lib, p), SignedBytes(c), sig) in p.ledger
  }

  /** Issuing takes the next serial and adds one signature; nothing else of the authority changes. */
  predicate Issues(lib: Library, p: Pki, q: Pki, c: Certificate, sig: Bytes) {
    && q.(ledger := p.ledger, nextSerial := p.nextSerial) == p && q.nextSerial == p.nextSerial + 1
    && q.ledger == p.ledger + {Signed(CaPublic(lib, p), SignedBytes(c), sig)}
  }

  predicate GoodName(username: JsString) {
    3 <= |username| <= 30
  }

  /** Each refusal of a registration, in the order of the checks; a refused registration changes nothing. */
  lemma {:induction false} RefusedExactly(lib: Library, s: State, username: JsString, password: JsString,
                                          privateKey: JsString, now: int, sig: Bytes)
    ensures var (s', r) := Register(lib, s, username, password, privateKey, now, sig);
            var taken := exists i | 0 <= i < |s.users| :: s.users[i].username == Column(username);
            && (r == BadUsername <==> !GoodName(username))
            && (r == BadPassword <==> GoodName(username) && |password| < 8)
            && (r == UsernameTaken <==> GoodName(username) && |password| >= 8 && taken)
            && (r == NotInitialized <==> GoodName(username) && |password| >= 8 && !taken && !s.pki.initialized)
            && (r.Registered? <==> GoodName(username) && |password| >= 8 && !taken && s.pki.initialized)
            && (!r.Registered? ==> s' == s)
  {
    hide Column, Issue, Stored;
    IssueSucceeds(lib, s.pki, username, lib.publicOf(privateKey), now, sig);
  }

  lemma {:induction false} IssueSucceeds(lib: Library, p: Pki, subject: JsString, publicKey: JsString, now: int,
                                         sig: Bytes)
    ensures Issue(lib, p, subject, publicKey, now, sig).1.Some? <==> p.initialized
  {
  }

  lemma {:induction false} IssuedAs(lib: Library, p: Pki, subject: JsString, publicKey: JsString, now: int, sig: Bytes)
    requires p.initialized
    ensures var (q, c) := Issue(lib, p, subject, publicKey, now, sig);
            && c.Some? && Certifies(lib, q, c.value, p.nextSerial, subject, publicKey, now, sig)
            && Issues(lib, p, q, c.value, sig)
  {
    hide SignedBytes, Hex.Encode;
  }

  /**
   * A registration that succeeds adds one row, whose number is the user's id, under the name as its column keeps it
   * and with the new key pair; the certificate in it loads as the one returned, over the submitted name and that key.
   */
  lemma {:induction false} RegisteredAs(lib: Library, s: State, username: JsString, password: JsString,
                                        privateKey: JsString, now: int, sig: Bytes)
    requires Register(lib, s, username, password, privateKey, now, sig).1.Registered?
    ensures var (s', r) := Register(lib, s, username, password, privateKey, now, sig);
            && |s'.users| == |s.users| + 1 == r.userId && s'.users[..|s.users|] == s.users
            && var row := s'.users[r.userId - 1];
            && row.username == Column(username) && row.privateKey == privateKey && row.publicKey == lib.publicOf(privateKey)
            && Load(row.certificate) == Some(r.certificate)
            && Certifies(lib, s'.pki, r.certificate, s.pki.nextSerial, username, lib.publicOf(privateKey), now, sig)
            && Issues(lib, s.pki, s'.pki, r.certificate, sig)
            && s'.nodes == s.nodes && s'.messages == s.messages && s'.nonces == s.nonces
  {
    hide Issue, Column, Stored, Load, Certifies, Issues;
    IssueSucceeds(lib, s.pki, username, lib.publicOf(privateKey), now, sig);
    IssuedAs(lib, s.pki, username, lib.publicOf(privateKey), now, sig);
    LoadInvertsStored(Issue(lib, s.pki, username, lib.publicOf(privateKey), now, sig).1.value);
  }

  /** A new certificate goes exactly to existing users of a running server; it replaces the old one, and nothing else. */
  lemma {:induction false} GeneratedExactly(lib: Library, s: State, userId: int, now: int, sig: Bytes)
    ensures var (s', c) := GenerateCert(lib, s, userId, now, sig);
            && (c.Some? <==> 1 <= userId <= |s.users| && s.pki.initialized)
            && (c.None? ==> s' == s)
            && (c.Some? ==>
                && var user := s.users[userId - 1];
                && Load(s'.users[userId - 1].certificate) == c
                && s'.(pki := s.pki, users := s.users) == s
                && s'.users == s.users[userId - 1 := user.(certificate := s'.users[userId - 1].certificate)]
                && Certifies(lib, s'.pki, c.value, s.pki.nextSerial, user.username, user.publicKey, now, sig)
                && Issues(lib, s.pki, s'.pki, c.value, sig))
  {
    hide Issue, Stored, Load, Certifies, Issues;
    if s.HasUser(userId) {
      var user := s.users[userId - 1];
      IssueSucceeds(lib, s.pki, user.username, user.publicKey, now, sig);
      if s.pki.initialized {
        IssuedAs(lib, s.pki, user.username, user.publicKey, now, sig);
        LoadInvertsStored(Issue(lib, s.pki, user.username, user.publicKey, now, sig).1.value);
      }
    }
  }
}
