/** What the metadata stores share: their requests, their answers, and the registry they all implement. */
module MetaTypes {
  import opened Common
  import opened BasicAuth

  datatype RequestVars = RequestVars(oid: string, size: int, namespace: string, repo: string, authorization: string)

  datatype MetaObject = MetaObject(oid: string, size: int, projectNames: seq<string>, existing: bool)
  datatype MetaProject = MetaProject(name: string, oids: seq<string>)

  /** `KeyRejected` is the database refusing an empty key; `Panicked` is a handler giving up on such an error. */
  datatype Fault = AuthError | ObjectNotFound | ProjectNotFound | KeyRejected | NotImplemented | Panicked

  datatype Result<+T> = Ok(value: T) | Err(fault: Fault)

  predicate IsAuthError(fault: Fault) {
    fault == AuthError
  }

  /** A call of the interface that all metadata stores implement. */
  datatype Op =
    | PutOp(rv: RequestVars)
    | GetOp(rv: RequestVars)
    | AddUserOp(user: Bytes, password: Bytes)
    | DeleteUserOp(user: Bytes)

  /** An answer, as far as callers see it. */
  datatype Reply = Found(oid: string, size: int, existing: bool) | Failed(fault: Fault) | Done

  function ReplyOf(r: Result<MetaObject>): Reply {
    match r
    case Ok(meta) => Found(meta.oid, meta.size, meta.existing)
    case Err(fault) => Failed(fault)
  }

  /** The registry the stores implement: the size first given for each oid, and the users. */
  datatype Registry = Registry(sizes: map<string, int>, users: Users)

  const NO_REGISTRY := Registry(map[], map[])

  function RegistryReply(cfg: Config, g: Registry, op: Op): Reply {
    match op
    case PutOp(rv) =>
      if !Authenticate(cfg, g.users, rv.authorization) then Failed(AuthError)
      else if rv.oid in g.sizes then Found(rv.oid, g.sizes[rv.oid], true)
      else if rv.oid == "" then Failed(KeyRejected)
      else Found(rv.oid, rv.size, false)
    case GetOp(rv) =>
      if !Authenticate(cfg, g.users, rv.authorization) then Failed(AuthError)
      else if rv.oid in g.sizes then Found(rv.oid, g.sizes[rv.oid], false)
      else Failed(ObjectNotFound)
    case AddUserOp(user, password) =>
      if cfg.ldap.Some? then Failed(NotImplemented) else if user == [] then Failed(KeyRejected) else Done
    case DeleteUserOp(user) =>
      if cfg.ldap.Some? then Failed(NotImplemented) else Done
  }

  function RegistryStep(cfg: Config, g: Registry, op: Op): Registry {
    match op
    case PutOp(rv) =>
      if RegistryReply(cfg, g, op) == Found(rv.oid, rv.size, false) then g.(sizes := g.sizes[rv.oid := rv.size]) else g
    case GetOp(rv) => g
    case AddUserOp(user, password) =>
      if cfg.ldap.Some? then g else g.(users := ApplyUserOp(g.users, Add(user, password)))
    case DeleteUserOp(user) =>
      if cfg.ldap.Some? then g else g.(users := ApplyUserOp(g.users, Delete(user)))
  }

  function RegistryAfter(cfg: Config, ops: seq<Op>): Registry {
    if ops == [] then NO_REGISTRY else RegistryStep(cfg, RegistryAfter(cfg, ops[..|ops| - 1]), ops[|ops| - 1])
  }

  function UserOpOf(op: Op): seq<UserOp> {
    match op
    case AddUserOp(user, password) => [Add(user, password)]
    case DeleteUserOp(user) => [Delete(user)]
    case _ => []
  }

  /** The changes that the calls ask of the user table. */
  function UserOps(ops: seq<Op>): seq<UserOp> {
    if ops == [] then [] else UserOps(ops[..|ops| - 1]) + UserOpOf(ops[|ops| - 1])
  }

  lemma OneMoreUserOp(prior: seq<UserOp>, op: UserOp)
    ensures UsersAfter(prior + [op]) == ApplyUserOp(UsersAfter(prior), op)
  {
    assert (prior + [op])[..|prior|] == prior;
  }

  lemma StepOnUsers(cfg: Config, g: Registry, op: Op)
    requires cfg.ldap.None?
    ensures RegistryStep(cfg, g, op).users ==
      if UserOpOf(op) == [] then g.users else ApplyUserOp(g.users, UserOpOf(op)[0])
  {
  }

  lemma OneMoreChange(prior: seq<UserOp>, op: Op)
    ensures UsersAfter(prior + UserOpOf(op)) ==
      if UserOpOf(op) == [] then UsersAfter(prior) else ApplyUserOp(UsersAfter(prior), UserOpOf(op)[0])
  {
    if UserOpOf(op) == [] {
      assert prior + [] == prior;
    } else {
      OneMoreUserOp(prior, UserOpOf(op)[0]);
      assert UserOpOf(op) == [UserOpOf(op)[0]];
    }
  }

  /** Without LDAP the user table is what those changes make of it. */
  lemma {:induction false} UsersFollowOps(cfg: Config, ops: seq<Op>)
    requires cfg.ldap.None?
    ensures RegistryAfter(cfg, ops).users == UsersAfter(UserOps(ops))
    decreases |ops|
  {
    if ops != [] {
      var prior, op := ops[..|ops| - 1], ops[|ops| - 1];
      UsersFollowOps(cfg, prior);
      StepOnUsers(cfg, RegistryAfter(cfg, prior), op);
      OneMoreChange(UserOps(prior), op);
    }
  }

  /** Call `i` is an authorised registration of `oid`. */
  ghost predicate Registers(cfg: Config, ops: seq<Op>, i: int, oid: string)
    requires 0 <= i < |ops|
  {
    ops[i].PutOp? && ops[i].rv.oid == oid &&
    Authenticate(cfg, RegistryAfter(cfg, ops[..i]).users, ops[i].rv.authorization)
  }

  ghost predicate FirstRegisters(cfg: Config, ops: seq<Op>, i: int, oid: string)
    requires 0 <= i < |ops|
  {
    Registers(cfg, ops, i, oid) && forall j :: 0 <= j < i ==> !Registers(cfg, ops, j, oid)
  }

  lemma PrefixRegisters(cfg: Config, prior: seq<Op>, op: Op, oid: string)
    ensures forall i :: 0 <= i < |prior| ==> (Registers(cfg, prior + [op], i, oid) <==> Registers(cfg, prior, i, oid))
    ensures forall i :: 0 <= i < |prior| ==>
      (FirstRegisters(cfg, prior + [op], i, oid) <==> FirstRegisters(cfg, prior, i, oid))
  {
    assert forall i :: 0 <= i < |prior| ==> (prior + [op])[..i] == prior[..i];
  }

  lemma StepOnOid(cfg: Config, g: Registry, op: Op, oid: string)
    requires oid != ""
    ensures var t := RegistryStep(cfg, g, op);
      var put := op.PutOp? && op.rv.oid == oid && Authenticate(cfg, g.users, op.rv.authorization);
      if oid in g.sizes then oid in t.sizes && t.sizes[oid] == g.sizes[oid]
      else if put then oid in t.sizes && t.sizes[oid] == op.rv.size
      else oid !in t.sizes
  {
  }

  /** The registry against its history: the first authorised registration of an oid fixes its size for ever. */
  lemma {:induction false} FirstRegistrationWins(cfg: Config, ops: seq<Op>, oid: string)
    requires oid != ""
    ensures var sizes := RegistryAfter(cfg, ops).sizes;
      if oid in sizes then
        exists i :: 0 <= i < |ops| && FirstRegisters(cfg, ops, i, oid) && ops[i].rv.size == sizes[oid]
      else forall i :: 0 <= i < |ops| ==> !Registers(cfg, ops, i, oid)
    decreases |ops|
  {
    if ops != [] {
      var n := |ops| - 1;
      var prior, op := ops[..n], ops[n];
      var before := RegistryAfter(cfg, prior);
      assert ops == prior + [op];
      FirstRegistrationWins(cfg, prior, oid);
      PrefixRegisters(cfg, prior, op, oid);
      StepOnOid(cfg, before, op, oid);
      if oid in before.sizes {
        var i :| 0 <= i < n && FirstRegisters(cfg, prior, i, oid) && prior[i].rv.size == before.sizes[oid];
        assert FirstRegisters(cfg, ops, i, oid);
      } else {
        assert Registers(cfg, ops, n, oid) <==> FirstRegisters(cfg, ops, n, oid);
      }
    }
  }

  /** No authorised registration of the oid is among the calls. */
  ghost predicate NeverRegistered(cfg: Config, ops: seq<Op>, oid: string) {
    forall i :: 0 <= i < |ops| ==> !Registers(cfg, ops, i, oid)
  }

  lemma {:induction false} EmptyOidUnknown(cfg: Config, ops: seq<Op>)
    ensures "" !in RegistryAfter(cfg, ops).sizes
    decreases |ops|
  {
    if ops != [] { EmptyOidUnknown(cfg, ops[..|ops| - 1]); }
  }

  /**
    Every answer against history: the unauthorised are refused; a registered oid is found with the size
    first given, as existing by registrations only; an unknown one is registered with its own size, or
    not found; the empty oid is never registered.
  */
  lemma AnswersExactly(cfg: Config, ops: seq<Op>, op: Op)
    requires op.PutOp? || op.GetOp?
    ensures var g, oid := RegistryAfter(cfg, ops), op.rv.oid;
      var reply, authorised := RegistryReply(cfg, g, op), Authenticate(cfg, g.users, op.rv.authorization);
      (reply == Failed(AuthError) <==> !authorised) &&
      (forall i :: authorised && oid != "" && 0 <= i < |ops| && FirstRegisters(cfg, ops, i, oid) ==>
        reply == Found(oid, ops[i].rv.size, op.PutOp?)) &&
      (authorised && (oid == "" || NeverRegistered(cfg, ops, oid)) ==>
        reply == if op.GetOp? then Failed(ObjectNotFound) else if oid == "" then Failed(KeyRejected)
                 else Found(oid, op.rv.size, false))
  {
    var g, oid := RegistryAfter(cfg, ops), op.rv.oid;
    EmptyOidUnknown(cfg, ops);
    if oid != "" {
      FirstRegistrationWins(cfg, ops, oid);
      if oid in g.sizes {
        var first :| 0 <= first < |ops| && FirstRegisters(cfg, ops, first, oid) && ops[first].rv.size == g.sizes[oid];
        assert !NeverRegistered(cfg, ops, oid);
        forall i | 0 <= i < |ops| && FirstRegisters(cfg, ops, i, oid)
          ensures i == first
        {
        }
      }
    }
  }

  /** Changes of users are not implemented with LDAP; the empty name cannot be added. */
  lemma UserAnswersExactly(cfg: Config, g: Registry, user: Bytes, password: Bytes)
    ensures RegistryReply(cfg, g, AddUserOp(user, password)) ==
      if cfg.ldap.Some? then Failed(NotImplemented) else if user == [] then Failed(KeyRejected) else Done
    ensures RegistryReply(cfg, g, DeleteUserOp(user)) == if cfg.ldap.Some? then Failed(NotImplemented) else Done
  {
  }
}
