/** Who may use the server: the Basic credentials of a request (section 2 of RFC 7617) against the user table. */
module BasicAuth {
  import opened Common
  import opened Base64

  const COLON: Byte := 58

  /**
    The configuration that decides on access. `check(p, q)` is bcrypt's answer for the password `q`
    against the hash of `p`; the table keeps `p` in place of its hash. With LDAP the directory answers.
  */
  datatype Config = Config(isPublic: bool, ldap: Option<(Bytes, Bytes) -> bool>, check: (Bytes, Bytes) -> bool)

  type Users = map<Bytes, Bytes>

  function IndexByte(s: Bytes, b: Byte): (i: int)
    ensures -1 <= i < |s| && (i < 0 <==> b !in s)
    ensures i >= 0 ==> s[i] == b && b !in s[..i]
  {
    if s == [] then -1
    else if s[0] == b then 0
    else
      var i := IndexByte(s[1..], b);
      assert i >= 0 ==> s[..i + 1] == [s[0]] + s[1..][..i];
      if i < 0 then -1 else i + 1
  }

  /** The user and the password of an Authorization header, split at the first colon. */
  function Credentials(authorization: string): Option<(Bytes, Bytes)> {
    if authorization == "" || !("Basic " <= authorization) then None
    else match Decode(Url, authorization[|"Basic "|..])
      case None => None
      case Some(c) =>
        var i := IndexByte(c, COLON);
        if i < 0 then None else Some((c[..i], c[i + 1..]))
  }

  predicate Authenticate(cfg: Config, users: Users, authorization: string) {
    cfg.isPublic ||
    match Credentials(authorization)
    case None => false
    case Some((user, password)) =>
      match cfg.ldap
      case Some(bind) => bind(user, password)
      case None => user in users && cfg.check(users[user], password)
  }

  function HeaderFor(alphabet: Alphabet, user: Bytes, password: Bytes): string {
    "Basic " + Encode(alphabet, user + [COLON] + password)
  }

  lemma FirstColon(user: Bytes, password: Bytes)
    requires COLON !in user
    ensures IndexByte(user + [COLON] + password, COLON) == |user|
  {
    var c := user + [COLON] + password;
    var i := IndexByte(c, COLON);
    assert c[|user|] == COLON;
    assert forall k :: 0 <= k < |user| ==> c[k] == user[k];
  }

  /**
    A header names its user and password again when it is written in the URL-safe alphabet; written
    in the standard one, as clients write it, it does so exactly when it avoids the digits 62 and 63.
  */
  lemma CredentialsOfHeader(written: Alphabet, user: Bytes, password: Bytes)
    requires COLON !in user
    ensures Credentials(HeaderFor(written, user, password)) ==
      if written.Url? || AvoidsSpecialDigits(Sextets(user + [COLON] + password)) then Some((user, password)) else None
  {
    var c, header := user + [COLON] + password, HeaderFor(written, user, password);
    DecodeEncoded(written, c);
    FirstColon(user, password);
    assert header[|"Basic "|..] == Encode(written, c);
    assert c[..|user|] == user && c[|user| + 1..] == password;
  }

  predicate NamesBy(authorization: string, text: string, user: Bytes, password: Bytes) {
    authorization == "Basic " + text && COLON !in user && Decode(Url, text) == Some(user + [COLON] + password)
  }

  /** The header is "Basic " and a text that decodes to the user, a colon and the password, the user having none. */
  ghost predicate Names(authorization: string, user: Bytes, password: Bytes) {
    exists text :: NamesBy(authorization, text, user, password)
  }

  /** Credentials are read from exactly those headers. */
  lemma CredentialsExactly(authorization: string, user: Bytes, password: Bytes)
    ensures Credentials(authorization) == Some((user, password)) <==> Names(authorization, user, password)
  {
    if Credentials(authorization) == Some((user, password)) {
      var text := authorization[|"Basic "|..];
      var c := Decode(Url, text).value;
      var i := IndexByte(c, COLON);
      assert c == c[..i] + [COLON] + c[i + 1..];
      assert NamesBy(authorization, text, user, password);
    }
    if Names(authorization, user, password) {
      var text :| NamesBy(authorization, text, user, password);
      var c := user + [COLON] + password;
      assert authorization[|"Basic "|..] == text;
      FirstColon(user, password);
      assert c[..|user|] == user && c[|user| + 1..] == password;
    }
  }

  /** Whom the directory or, without one, the user table accepts. */
  predicate Accepts(cfg: Config, users: Users, user: Bytes, password: Bytes) {
    if cfg.ldap.Some? then cfg.ldap.value(user, password) else user in users && cfg.check(users[user], password)
  }

  /** The text does not decode, or there is no colon in what it decodes to. */
  predicate NamesNobody(text: string) {
    match Decode(Url, text)
    case None => true
    case Some(c) => COLON !in c
  }

  /**
    For any header, any table and any directory: a public server lets everybody in, a private one exactly
    those whose header names a user and a password that are accepted. So a header that is empty, has no
    "Basic ", does not decode, or decodes to a text without colon is refused.
  */
  lemma AdmittedExactly(cfg: Config, users: Users, authorization: string)
    ensures Authenticate(cfg, users, authorization) <==>
      cfg.isPublic ||
      exists user, password :: Names(authorization, user, password) && Accepts(cfg, users, user, password)
    ensures !cfg.isPublic && !("Basic " <= authorization) ==> !Authenticate(cfg, users, authorization)
    ensures forall text :: !cfg.isPublic && authorization == "Basic " + text && NamesNobody(text) ==>
      !Authenticate(cfg, users, authorization)
  {
    forall user, password
      ensures Credentials(authorization) == Some((user, password)) <==> Names(authorization, user, password)
    {
      CredentialsExactly(authorization, user, password);
    }
    if Credentials(authorization).Some? {
      var user, password := Credentials(authorization).value.0, Credentials(authorization).value.1;
      assert Names(authorization, user, password);
      assert Authenticate(cfg, users, authorization) <==> cfg.isPublic || Accepts(cfg, users, user, password);
    }
    forall text | authorization == "Basic " + text && NamesNobody(text)
      ensures Credentials(authorization) == None
    {
      assert authorization[|"Basic "|..] == text;
    }
  }

  lemma LastSextet()
    ensures Sextets([97, 58, 62]) == [24, 19, 40, 62] && !AvoidsSpecialDigits([24, 19, 40, 62])
  {
    var sextets: seq<Sextet> := [24, 19, 40, 62];
    assert sextets[3] == 62;
  }

  /**
    A header as clients write it, in the standard alphabet, can be refused: the one of user "a" with
    password ">" (97 and 62 in ASCII) ends in the digit for 62.
  */
  lemma StandardHeaderRefused()
    ensures Credentials(HeaderFor(Std, [97], [62])) == None
    ensures Credentials(HeaderFor(Url, [97], [62])) == Some(([97], [62]))
  {
    CredentialsOfHeader(Std, [97], [62]);
    CredentialsOfHeader(Url, [97], [62]);
    LastSextet();
    assert [97] + [COLON] + [62] == [97, 58, 62];
  }

  /** Changes to the user table, in order. */
  datatype UserOp = Add(user: Bytes, password: Bytes) | Delete(user: Bytes)

  /** The table after one change: an existing user keeps the password, an empty name cannot be stored. */
  function ApplyUserOp(users: Users, op: UserOp): Users {
    match op
    case Add(user, password) => if user == [] || user in users then users else users[user := password]
    case Delete(user) => users - {user}
  }

  function UsersAfter(ops: seq<UserOp>): Users {
    if ops == [] then map[] else ApplyUserOp(UsersAfter(ops[..|ops| - 1]), ops[|ops| - 1])
  }

  ghost predicate GovernsAt(ops: seq<UserOp>, user: Bytes, password: Bytes, i: int)
    requires 0 <= i < |ops|
  {
    ops[i] == Add(user, password) &&
    (forall k :: i < k < |ops| ==> ops[k] != Delete(user)) &&
    (forall j :: 0 <= j < i && ops[j].Add? && ops[j].user == user ==> exists k :: j < k < i && ops[k] == Delete(user))
  }

  /** `password` is the one given by the earliest addition of `user` after the last deletion. */
  ghost predicate Governs(ops: seq<UserOp>, user: Bytes, password: Bytes) {
    exists i :: 0 <= i < |ops| && GovernsAt(ops, user, password, i)
  }

  /** The user was never added, or was deleted after every addition. */
  ghost predicate Absent(ops: seq<UserOp>, user: Bytes) {
    forall j :: 0 <= j < |ops| && ops[j].Add? && ops[j].user == user ==>
      exists k :: j < k < |ops| && ops[k] == Delete(user)
  }

  lemma StillDeleted(prior: seq<UserOp>, op: UserOp, user: Bytes, end: int)
    requires 0 <= end <= |prior|
    requires forall j :: 0 <= j < end && prior[j].Add? && prior[j].user == user ==>
      exists k :: j < k < end && prior[k] == Delete(user)
    ensures var ops := prior + [op];
      forall j :: 0 <= j < end && ops[j].Add? && ops[j].user == user ==>
        exists k :: j < k < end && ops[k] == Delete(user)
  {
    var ops := prior + [op];
    forall j | 0 <= j < end && ops[j].Add? && ops[j].user == user
      ensures exists k :: j < k < end && ops[k] == Delete(user)
    {
      assert ops[j] == prior[j];
      var k :| j < k < end && prior[k] == Delete(user);
      assert ops[k] == Delete(user);
    }
  }

  /** The table against its whole history. */
  lemma {:induction false} UsersAgainstHistory(ops: seq<UserOp>, user: Bytes)
    requires user != []
    ensures user in UsersAfter(ops) ==> Governs(ops, user, UsersAfter(ops)[user])
    ensures user !in UsersAfter(ops) ==> Absent(ops, user)
  {
    if ops != [] {
      var n := |ops| - 1;
      var prior, op, table := ops[..n], ops[n], UsersAfter(ops[..n]);
      UsersAgainstHistory(prior, user);
      if op == Delete(user) {
      } else if user in table {
        var i :| 0 <= i < n && GovernsAt(prior, user, table[user], i);
        assert GovernsAt(ops, user, table[user], i) by {
          StillDeleted(prior, op, user, i);
        }
      } else {
        StillDeleted(prior, op, user, n);
        if op.Add? && op.user == user {
          assert GovernsAt(ops, user, op.password, n);
        }
      }
    }
  }

  /** At most one addition governs, and none does if the user is absent. */
  lemma GovernedOnce(ops: seq<UserOp>, user: Bytes, p: Bytes, q: Bytes)
    requires Governs(ops, user, p)
    ensures Governs(ops, user, q) ==> p == q
    ensures !Absent(ops, user)
  {
    var i :| 0 <= i < |ops| && GovernsAt(ops, user, p, i);
    if Governs(ops, user, q) {
      var j :| 0 <= j < |ops| && GovernsAt(ops, user, q, j);
      assert ops[i] == Add(user, p) && ops[j] == Add(user, q);
    }
    assert ops[i] == Add(user, p);
  }

  /** bcrypt accepts exactly the password that was hashed, as far as it looks at passwords: 72 bytes. */
  ghost predicate BcryptExact(cfg: Config) {
    forall p, q :: |p| <= 72 && |q| <= 72 ==> (cfg.check(p, q) <==> p == q)
  }

  /** The password is the one that governs the user, and the header can be read in the alphabet it is written in. */
  ghost predicate Proves(ops: seq<UserOp>, written: Alphabet, user: Bytes, password: Bytes) {
    Governs(ops, user, password) && (written.Url? || AvoidsSpecialDigits(Sextets(user + [COLON] + password)))
  }

  /**
    Authentication against history, on a private server without LDAP: after any changes to the user
    table, the header of a user and a password is accepted if and only if that password is the one of
    the earliest addition of the user after the last deletion and, should the header be written in
    the standard alphabet, it uses neither of the digits that the server's alphabet lacks.
  */
  lemma AuthenticatesExactly(cfg: Config, ops: seq<UserOp>, written: Alphabet, user: Bytes, password: Bytes)
    requires !cfg.isPublic && cfg.ldap.None? && BcryptExact(cfg)
    requires user != [] && COLON !in user && |password| <= 72
    requires forall i :: 0 <= i < |ops| && ops[i].Add? ==> |ops[i].password| <= 72
    ensures Authenticate(cfg, UsersAfter(ops), HeaderFor(written, user, password)) <==>
      Proves(ops, written, user, password)
  {
    CredentialsOfHeader(written, user, password);
    UsersAgainstHistory(ops, user);
    var users := UsersAfter(ops);
    if user in users {
      GovernedOnce(ops, user, users[user], password);
      var i :| 0 <= i < |ops| && GovernsAt(ops, user, users[user], i);
      assert ops[i].Add? && |ops[i].password| <= 72;
    } else if Governs(ops, user, password) {
      GovernedOnce(ops, user, password, password);
    }
  }
}
