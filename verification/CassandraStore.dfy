/** The Cassandra metadata store: tables of oids, projects with a set of oids, and users. */
module CassandraStore {
  import opened Common
  import opened BasicAuth
  import opened MetaTypes

  datatype Tables = Tables(oids: map<string, int>, projects: map<string, set<string>>, users: Users)

  const NO_TABLES := Tables(map[], map[], map[])

  function Get(cfg: Config, t: Tables, rv: RequestVars): Result<MetaObject> {
    if !Authenticate(cfg, t.users, rv.authorization) then Err(AuthError)
    else if rv.oid in t.oids && rv.oid != "" then Ok(MetaObject(rv.oid, t.oids[rv.oid], [], false))
    else Err(ObjectNotFound)
  }

  function Put(cfg: Config, t: Tables, rv: RequestVars): Result<MetaObject> {
    if !Authenticate(cfg, t.users, rv.authorization) then Err(AuthError)
    else match Get(cfg, t, rv)
      case Ok(meta) => Ok(meta.(existing := true))
      case Err(_) => if rv.oid == "" then Err(Panicked) else Ok(MetaObject(rv.oid, rv.size, [], false))
  }

  /** Adds an oid to a project, which this statement creates if it is missing. */
  function WithOid(projects: map<string, set<string>>, repo: string, oid: string): map<string, set<string>> {
    projects[repo := (if repo in projects then projects[repo] else {}) + {oid}]
  }

  function TablesAfterPut(cfg: Config, t: Tables, rv: RequestVars): Tables {
    if !Authenticate(cfg, t.users, rv.authorization) || Get(cfg, t, rv).Ok? || rv.oid == "" then t
    else
      t.(oids := t.oids[rv.oid := rv.size],
         projects := if rv.repo == "" then t.projects else WithOid(t.projects, rv.repo, rv.oid))
  }

  function TablesStep(cfg: Config, t: Tables, op: Op): Tables {
    match op
    case PutOp(rv) => TablesAfterPut(cfg, t, rv)
    case GetOp(rv) => t
    case AddUserOp(user, password) =>
      if cfg.ldap.Some? then t else t.(users := ApplyUserOp(t.users, Add(user, password)))
    case DeleteUserOp(user) =>
      if cfg.ldap.Some? || user == [] then t else t.(users := ApplyUserOp(t.users, Delete(user)))
  }

  function CassandraReply(cfg: Config, t: Tables, op: Op): Reply {
    match op
    case PutOp(rv) => ReplyOf(Put(cfg, t, rv))
    case GetOp(rv) => ReplyOf(Get(cfg, t, rv))
    case AddUserOp(user, password) =>
      if cfg.ldap.Some? then Failed(NotImplemented)
      else if user in t.users && user != [] then Done
      else if user == [] then Failed(KeyRejected) else Done
    case DeleteUserOp(user) =>
      if cfg.ldap.Some? then Failed(NotImplemented) else if user == [] then Failed(KeyRejected) else Done
  }

  function CassandraAfter(cfg: Config, ops: seq<Op>): Tables {
    if ops == [] then NO_TABLES else TablesStep(cfg, CassandraAfter(cfg, ops[..|ops| - 1]), ops[|ops| - 1])
  }

  class CassandraMetaStore {
    const cfg: Config
    var oids: map<string, int>
    var projects: map<string, set<string>>
    var users: Users

    function State(): Tables
      reads this
    {
      Tables(oids, projects, users)
    }

    constructor (cfg: Config)
      ensures State() == NO_TABLES && this.cfg == cfg
    {
      this.cfg := cfg;
      oids, projects, users := map[], map[], map[];
    }

    method CreateProject(project: string)
      modifies this`projects
      ensures projects == if project in old(projects) then old(projects) else old(projects)[project := {}]
    {
      if project in projects {
        return;
      }
      projects := projects[project := {}];
    }

    method AddOidToProject(oid: string, project: string)
      modifies this`projects
      ensures projects == WithOid(old(projects), project, oid)
    {
      projects := WithOid(projects, project, oid);
    }

    /** The insert of a row; the database refuses the empty key. */
    method CreateOid(oid: string, size: int) returns (ok: bool)
      modifies this`oids
      ensures ok <==> oid != ""
      ensures oids == if ok then old(oids)[oid := size] else old(oids)
    {
      ok := oid != "";
      if ok {
        oids := oids[oid := size];
      }
    }

    method GetMeta(rv: RequestVars) returns (r: Result<MetaObject>)
      ensures r == Get(cfg, State(), rv)
    {
      if !Authenticate(cfg, users, rv.authorization) {
        return Err(AuthError);
      }
      if rv.oid !in oids || rv.oid == "" {
        return Err(ObjectNotFound);
      }
      return Ok(MetaObject(rv.oid, oids[rv.oid], [], false));
    }

    method PutMeta(rv: RequestVars) returns (r: Result<MetaObject>)
      modifies this`oids, this`projects
      ensures r == Put(cfg, old(State()), rv) && State() == TablesAfterPut(cfg, old(State()), rv)
    {
      if !Authenticate(cfg, users, rv.authorization) {
        return Err(AuthError);
      }
      var found := GetMeta(rv);
      if found.Ok? {
        return Ok(found.value.(existing := true));
      }
      var ok := CreateOid(rv.oid, rv.size);
      if !ok {
        return Err(Panicked);
      }
      if rv.repo != "" {
        if rv.repo !in projects {
          CreateProject(rv.repo);
        }
        AddOidToProject(rv.oid, rv.repo);
      }
      return Ok(MetaObject(rv.oid, rv.size, [], false));
    }

    method AddUser(user: Bytes, password: Bytes) returns (r: Reply)
      modifies this`users
      ensures r == CassandraReply(cfg, old(State()), AddUserOp(user, password))
      ensures State() == TablesStep(cfg, old(State()), AddUserOp(user, password))
    {
      if cfg.ldap.Some? {
        return Failed(NotImplemented);
      }
      if user in users && user != [] {
        return Done;
      }
      if user == [] {
        return Failed(KeyRejected);
      }
      users := users[user := password];
      return Done;
    }

    method DeleteUser(user: Bytes) returns (r: Reply)
      modifies this`users
      ensures r == CassandraReply(cfg, old(State()), DeleteUserOp(user))
      ensures State() == TablesStep(cfg, old(State()), DeleteUserOp(user))
    {
      if cfg.ldap.Some? {
        return Failed(NotImplemented);
      }
      if user == [] {
        return Failed(KeyRejected);
      }
      users := users - {user};
      return Done;
    }
  }

  ghost predicate Lists(t: Tables, repo: string, oid: string) {
    repo in t.projects && oid in t.projects[repo]
  }

  /** Call `i` registered the oid as new in the repository. */
  ghost predicate NewIn(cfg: Config, ops: seq<Op>, i: int, repo: string, oid: string)
    requires 0 <= i < |ops|
  {
    ops[i].PutOp? && ops[i].rv.oid == oid && ops[i].rv.repo == repo &&
    CassandraReply(cfg, CassandraAfter(cfg, ops[..i]), ops[i]) == Found(oid, ops[i].rv.size, false)
  }

  lemma StepLists(cfg: Config, t: Tables, op: Op, repo: string, oid: string)
    requires repo != ""
    ensures Lists(TablesStep(cfg, t, op), repo, oid) <==>
      Lists(t, repo, oid) || (op.PutOp? && op.rv.oid == oid && op.rv.repo == repo &&
                              CassandraReply(cfg, t, op) == Found(oid, op.rv.size, false))
    ensures repo in TablesStep(cfg, t, op).projects <==>
      repo in t.projects || exists other :: Lists(TablesStep(cfg, t, op), repo, other)
  {
    var after := TablesStep(cfg, t, op);
    if repo in after.projects && repo !in t.projects {
      assert Lists(after, repo, op.rv.oid);
    }
  }

  lemma PrefixNewIn(cfg: Config, prior: seq<Op>, op: Op, repo: string, oid: string)
    ensures forall i :: 0 <= i < |prior| ==>
      (NewIn(cfg, prior + [op], i, repo, oid) <==> NewIn(cfg, prior, i, repo, oid))
    ensures NewIn(cfg, prior + [op], |prior|, repo, oid) <==>
      op.PutOp? && op.rv.oid == oid && op.rv.repo == repo &&
      CassandraReply(cfg, CassandraAfter(cfg, prior), op) == Found(oid, op.rv.size, false)
  {
    assert (prior + [op])[..|prior|] == prior;
    assert forall i :: 0 <= i < |prior| ==> (prior + [op])[..i] == prior[..i];
  }

  /** After any calls a project lists exactly the oids that were registered as new in its repository. */
  lemma {:induction false} ListedExactly(cfg: Config, ops: seq<Op>, repo: string, oid: string)
    requires repo != ""
    ensures Lists(CassandraAfter(cfg, ops), repo, oid) <==> exists i :: 0 <= i < |ops| && NewIn(cfg, ops, i, repo, oid)
    decreases |ops|
  {
    if ops != [] {
      var prior, op := ops[..|ops| - 1], ops[|ops| - 1];
      assert ops == prior + [op];
      ListedExactly(cfg, prior, repo, oid);
      StepLists(cfg, CassandraAfter(cfg, prior), op, repo, oid);
      PrefixNewIn(cfg, prior, op, repo, oid);
    }
  }

  /** And there is a project exactly for each repository that lists something. */
  lemma {:induction false} ProjectsExactly(cfg: Config, ops: seq<Op>, repo: string)
    requires repo != ""
    ensures repo in CassandraAfter(cfg, ops).projects <==> exists oid :: Lists(CassandraAfter(cfg, ops), repo, oid)
    decreases |ops|
  {
    if ops != [] {
      var prior, op := ops[..|ops| - 1], ops[|ops| - 1];
      var t := CassandraAfter(cfg, prior);
      ProjectsExactly(cfg, prior, repo);
      StepLists(cfg, t, op, repo, "");
      if repo in t.projects {
        var oid :| Lists(t, repo, oid);
        StepLists(cfg, t, op, repo, oid);
      }
    }
  }
}
