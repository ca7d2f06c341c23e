/** All three metadata stores implement the registry, and exactly where their answers part. */
module MetaStoresAgree {
  import opened Common
  import opened Base64
  import opened BasicAuth
  import opened MetaTypes
  import B = BoltStore
  import C = CassandraStore
  import M = MySQLStore

  function BoltView(b: B.Buckets): Registry {
    Registry(map oid | oid in b.objects :: b.objects[oid].size, b.users)
  }

  function CassandraView(t: C.Tables): Registry {
    Registry(t.oids, t.users)
  }

  function MySQLSizes(m: M.Schema): map<string, int> {
    map oid | oid in m.oids && oid != "" :: m.oids[oid]
  }

  lemma BoltPutRefines(cfg: Config, b: B.Buckets, rv: RequestVars)
    requires B.WellKeyed(b)
    ensures ReplyOf(B.Put(cfg, b, rv)) == RegistryReply(cfg, BoltView(b), PutOp(rv))
    ensures BoltView(B.BucketsAfterPut(cfg, b, rv)).sizes == RegistryStep(cfg, BoltView(b), PutOp(rv)).sizes
    ensures B.BucketsAfterPut(cfg, b, rv).users == b.users
  {
    assert rv.oid in BoltView(b).sizes <==> rv.oid in b.objects;
  }

  lemma BoltStepRefines(cfg: Config, b: B.Buckets, op: Op)
    requires B.WellKeyed(b)
    ensures BoltView(B.BucketsStep(cfg, b, op)) == RegistryStep(cfg, BoltView(b), op)
    ensures B.BoltReply(cfg, b, op) == RegistryReply(cfg, BoltView(b), op)
  {
    if op.PutOp? {
      BoltPutRefines(cfg, b, op.rv);
    }
  }

  /** Bolt is the registry: after any calls it holds the same sizes and users and gives the same answer to the next. */
  lemma {:induction false} BoltRefines(cfg: Config, ops: seq<Op>, next: Op)
    ensures BoltView(B.BoltAfter(cfg, ops)) == RegistryAfter(cfg, ops)
    ensures B.BoltReply(cfg, B.BoltAfter(cfg, ops), next) == RegistryReply(cfg, RegistryAfter(cfg, ops), next)
    decreases |ops|
  {
    if ops != [] {
      var n := |ops| - 1;
      BoltRefines(cfg, ops[..n], next);
      B.BoltWellKeyed(cfg, ops[..n]);
      BoltStepRefines(cfg, B.BoltAfter(cfg, ops[..n]), ops[n]);
    }
    B.BoltWellKeyed(cfg, ops);
    BoltStepRefines(cfg, B.BoltAfter(cfg, ops), next);
  }

  ghost predicate NoEmptyKeys(t: C.Tables) {
    "" !in t.oids && [] !in t.users
  }

  /** The two calls on an empty key that Cassandra refuses in its own way. */
  predicate RefusedDifferently(cfg: Config, g: Registry, op: Op) {
    match op
    case PutOp(rv) => rv.oid == "" && Authenticate(cfg, g.users, rv.authorization)
    case DeleteUserOp(user) => user == [] && cfg.ldap.None?
    case _ => false
  }

  lemma CassandraStepRefines(cfg: Config, t: C.Tables, op: Op)
    requires NoEmptyKeys(t)
    ensures RefusedDifferently(cfg, CassandraView(t), op) ==>
      C.CassandraReply(cfg, t, op) == Failed(if op.PutOp? then Panicked else KeyRejected) &&
      RegistryReply(cfg, CassandraView(t), op) == if op.PutOp? then Failed(KeyRejected) else Done
    ensures NoEmptyKeys(C.TablesStep(cfg, t, op))
    ensures CassandraView(C.TablesStep(cfg, t, op)) == RegistryStep(cfg, CassandraView(t), op)
    ensures C.CassandraReply(cfg, t, op) == RegistryReply(cfg, CassandraView(t), op) <==>
      !RefusedDifferently(cfg, CassandraView(t), op)
  {
    if op.DeleteUserOp? && op.user == [] {
      assert t.users - {[]} == t.users;
    }
  }

  lemma {:induction false} CassandraRefines(cfg: Config, ops: seq<Op>)
    ensures NoEmptyKeys(C.CassandraAfter(cfg, ops))
    ensures CassandraView(C.CassandraAfter(cfg, ops)) == RegistryAfter(cfg, ops)
    decreases |ops|
  {
    if ops != [] {
      var n := |ops| - 1;
      CassandraRefines(cfg, ops[..n]);
      CassandraStepRefines(cfg, C.CassandraAfter(cfg, ops[..n]), ops[n]);
    }
  }

  /**
    Bolt and Cassandra are interchangeable: after any series of calls they hold the same oids, sizes
    and users, and they answer the next call alike, oid, size, Existing flag and error, exactly unless
    it is an authorised registration of the empty oid or a deletion of the empty user.
  */
  lemma BoltAndCassandraAgree(cfg: Config, ops: seq<Op>, next: Op)
    ensures BoltView(B.BoltAfter(cfg, ops)) == CassandraView(C.CassandraAfter(cfg, ops))
    ensures B.BoltReply(cfg, B.BoltAfter(cfg, ops), next) == C.CassandraReply(cfg, C.CassandraAfter(cfg, ops), next)
      <==> !RefusedDifferently(cfg, RegistryAfter(cfg, ops), next)
    ensures RefusedDifferently(cfg, RegistryAfter(cfg, ops), next) ==>
      B.BoltReply(cfg, B.BoltAfter(cfg, ops), next) == (if next.PutOp? then Failed(KeyRejected) else Done) &&
      C.CassandraReply(cfg, C.CassandraAfter(cfg, ops), next) == Failed(if next.PutOp? then Panicked else KeyRejected)
  {
    BoltRefines(cfg, ops, next);
    CassandraRefines(cfg, ops);
    CassandraStepRefines(cfg, C.CassandraAfter(cfg, ops), next);
  }

  lemma {:induction false} ShortPasswords(ops: seq<Op>)
    requires forall op :: op in ops && op.AddUserOp? ==> |op.password| <= 72
    ensures forall i :: 0 <= i < |UserOps(ops)| && UserOps(ops)[i].Add? ==> |UserOps(ops)[i].password| <= 72
    decreases |ops|
  {
    if ops != [] {
      assert forall op :: op in ops[..|ops| - 1] ==> op in ops;
      ShortPasswords(ops[..|ops| - 1]);
      assert ops[|ops| - 1] in ops;
    }
  }

  /**
    Authentication of a private server without LDAP, in Bolt and in Cassandra, after any calls: a lookup
    or a registration is refused for its credentials exactly unless they name a user and the password of the
    earliest addition of this user after the last deletion.
  */
  lemma StoresAuthenticateExactly(cfg: Config, ops: seq<Op>, next: Op, written: Alphabet, user: Bytes, password: Bytes)
    requires !cfg.isPublic && cfg.ldap.None? && BcryptExact(cfg)
    requires user != [] && COLON !in user && |password| <= 72
    requires forall op :: op in ops && op.AddUserOp? ==> |op.password| <= 72
    requires next.GetOp? || next.PutOp?
    requires next.rv.authorization == HeaderFor(written, user, password)
    ensures B.BoltReply(cfg, B.BoltAfter(cfg, ops), next) == Failed(AuthError) <==>
      !Proves(UserOps(ops), written, user, password)
    ensures C.CassandraReply(cfg, C.CassandraAfter(cfg, ops), next) == Failed(AuthError) <==>
      !Proves(UserOps(ops), written, user, password)
  {
    UsersFollowOps(cfg, ops);
    ShortPasswords(ops);
    AuthenticatesExactly(cfg, UserOps(ops), written, user, password);
    BoltRefines(cfg, ops, next);
    CassandraRefines(cfg, ops);
  }

  function RegistryOp(op: M.MySQLOp): seq<Op> {
    match op
    case PutRow(rv) => [PutOp(rv)]
    case AddProjectRow(_) => []
    case AddUserRow(user, password) => [AddUserOp(user, password)]
    case DeleteUserRow(user) => [DeleteUserOp(user)]
  }

  /** The calls of a MySQL store as the other stores would get them; they have no projects to add beforehand. */
  function RegistryOps(ops: seq<M.MySQLOp>): seq<Op> {
    if ops == [] then [] else RegistryOps(ops[..|ops| - 1]) + RegistryOp(ops[|ops| - 1])
  }

  /** MySQL and the registry let in, or turn away, the same callers. */
  predicate SameAdmission(cfg: Config, users: Users, authorization: string) {
    Authenticate(cfg, users, authorization) <==> M.Admits(cfg, authorization)
  }

  /** They did so for every registration of the series. */
  predicate SameAdmissions(cfg: Config, ops: seq<M.MySQLOp>) {
    ops != [] ==>
      var prior, op := ops[..|ops| - 1], ops[|ops| - 1];
      SameAdmissions(cfg, prior) &&
      (op.PutRow? ==> SameAdmission(cfg, RegistryAfter(cfg, RegistryOps(prior)).users, op.rv.authorization))
  }

  lemma RegistryOneMore(cfg: Config, prior: seq<M.MySQLOp>, op: M.MySQLOp)
    ensures var g := RegistryAfter(cfg, RegistryOps(prior));
      RegistryAfter(cfg, RegistryOps(prior) + RegistryOp(op)) ==
      if op.AddProjectRow? then g else RegistryStep(cfg, g, RegistryOp(op)[0])
  {
    var before, all := RegistryOps(prior), RegistryOps(prior) + RegistryOp(op);
    if op.AddProjectRow? {
      assert all == before;
    } else {
      assert all[..|all| - 1] == before;
    }
  }

  /** They always do on a public server, with LDAP, and as long as nobody adds a user. */
  lemma {:induction false} AdmissionsAgree(cfg: Config, ops: seq<M.MySQLOp>, authorization: string)
    requires cfg.isPublic || cfg.ldap.Some? || forall i :: 0 <= i < |ops| ==> !ops[i].AddUserRow?
    ensures SameAdmissions(cfg, ops)
    ensures SameAdmission(cfg, RegistryAfter(cfg, RegistryOps(ops)).users, authorization)
    ensures cfg.isPublic || cfg.ldap.Some? || RegistryAfter(cfg, RegistryOps(ops)).users == map[]
    decreases |ops|
  {
    if ops != [] {
      var prior, op := ops[..|ops| - 1], ops[|ops| - 1];
      AdmissionsAgree(cfg, prior, if op.PutRow? then op.rv.authorization else "");
      RegistryOneMore(cfg, prior, op);
    }
  }

  lemma MySQLStepRefines(cfg: Config, m: M.Schema, g: Registry, rv: RequestVars)
    requires SameAdmission(cfg, g.users, rv.authorization)
    requires MySQLSizes(m) == g.sizes
    ensures MySQLSizes(M.SchemaAfterPut(cfg, m, rv)) == RegistryStep(cfg, g, PutOp(rv)).sizes
    ensures ReplyOf(M.Get(cfg, m, rv)) == RegistryReply(cfg, g, GetOp(rv))
    ensures ReplyOf(M.Put(cfg, m, rv)) == RegistryReply(cfg, g, PutOp(rv)) <==>
      !(M.Admits(cfg, rv.authorization) && rv.oid !in g.sizes && (rv.oid == "" || M.UnknownRepo(m, rv.repo)))
  {
    assert rv.oid in g.sizes <==> rv.oid in m.oids && rv.oid != "";
  }

  lemma {:induction false} MySQLHoldsRegistry(cfg: Config, ops: seq<M.MySQLOp>)
    requires SameAdmissions(cfg, ops)
    ensures MySQLSizes(M.SchemaAfter(cfg, ops)) == RegistryAfter(cfg, RegistryOps(ops)).sizes
    decreases |ops|
  {
    if ops == [] {
      assert MySQLSizes(M.NO_ROWS) == map[];
    } else {
      var prior, op := ops[..|ops| - 1], ops[|ops| - 1];
      MySQLHoldsRegistry(cfg, prior);
      RegistryOneMore(cfg, prior, op);
      if op.PutRow? {
        MySQLStepRefines(cfg, M.SchemaAfter(cfg, prior), RegistryAfter(cfg, RegistryOps(prior)), op.rv);
      }
    }
  }

  /**
    MySQL, as long as it and the others let the same callers in, holds the same oids and sizes after any
    calls. It answers lookups alike, and registrations too, exactly unless a new oid is empty or names a
    repository that was never added.
  */
  lemma MySQLRefines(cfg: Config, ops: seq<M.MySQLOp>, rv: RequestVars)
    requires SameAdmissions(cfg, ops)
    requires SameAdmission(cfg, RegistryAfter(cfg, RegistryOps(ops)).users, rv.authorization)
    ensures var m, g := M.SchemaAfter(cfg, ops), RegistryAfter(cfg, RegistryOps(ops));
      MySQLSizes(m) == g.sizes &&
      ReplyOf(M.Get(cfg, m, rv)) == RegistryReply(cfg, g, GetOp(rv)) &&
      (ReplyOf(M.Put(cfg, m, rv)) == RegistryReply(cfg, g, PutOp(rv)) <==>
        !(M.Admits(cfg, rv.authorization) && rv.oid !in g.sizes && (rv.oid == "" || M.UnknownRepo(m, rv.repo))))
  {
    MySQLHoldsRegistry(cfg, ops);
    MySQLStepRefines(cfg, M.SchemaAfter(cfg, ops), RegistryAfter(cfg, RegistryOps(ops)), rv);
  }
}
