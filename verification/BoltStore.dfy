/** The Bolt metadata store: buckets of objects, projects and users; one transaction is one update of a bucket. */
module BoltStore {
  import opened Common
  import opened BasicAuth
  import opened MetaTypes

  datatype Buckets = Buckets(objects: map<string, MetaObject>, projects: map<string, MetaProject>, users: Users)

  const NO_BUCKETS := Buckets(map[], map[], map[])

  function Get(cfg: Config, b: Buckets, rv: RequestVars): Result<MetaObject> {
    if !Authenticate(cfg, b.users, rv.authorization) then Err(AuthError)
    else if rv.oid in b.objects then Ok(b.objects[rv.oid])
    else Err(ObjectNotFound)
  }

  function FindProject(b: Buckets, name: string): Result<MetaProject> {
    if name in b.projects && b.projects[name].name != "" then Ok(b.projects[name]) else Err(ProjectNotFound)
  }

  function CreateProject(b: Buckets, rv: RequestVars): Buckets {
    if FindProject(b, rv.repo).Ok? || rv.repo == "" then b
    else b.(projects := b.projects[rv.repo := MetaProject(rv.repo, [rv.oid])])
  }

  function Put(cfg: Config, b: Buckets, rv: RequestVars): Result<MetaObject> {
    if !Authenticate(cfg, b.users, rv.authorization) then Err(AuthError)
    else match Get(cfg, b, rv)
      case Ok(meta) => Ok(meta.(existing := true))
      case Err(_) =>
        if rv.oid == "" then Err(KeyRejected) else Ok(MetaObject(rv.oid, rv.size, [rv.repo], false))
  }

  /** Registering a new oid: the project is committed before the object, which may then be refused. */
  function Register(b: Buckets, rv: RequestVars): Buckets {
    var c := if rv.repo != "" then CreateProject(b, rv) else b;
    if rv.oid == "" then c else c.(objects := c.objects[rv.oid := MetaObject(rv.oid, rv.size, [rv.repo], false)])
  }

  function BucketsAfterPut(cfg: Config, b: Buckets, rv: RequestVars): Buckets {
    if !Authenticate(cfg, b.users, rv.authorization) || Get(cfg, b, rv).Ok? then b else Register(b, rv)
  }

  function BucketsStep(cfg: Config, b: Buckets, op: Op): Buckets {
    match op
    case PutOp(rv) => BucketsAfterPut(cfg, b, rv)
    case GetOp(rv) => b
    case AddUserOp(user, password) =>
      if cfg.ldap.Some? then b else b.(users := ApplyUserOp(b.users, Add(user, password)))
    case DeleteUserOp(user) =>
      if cfg.ldap.Some? then b else b.(users := ApplyUserOp(b.users, Delete(user)))
  }

  function BoltReply(cfg: Config, b: Buckets, op: Op): Reply {
    match op
    case PutOp(rv) => ReplyOf(Put(cfg, b, rv))
    case GetOp(rv) => ReplyOf(Get(cfg, b, rv))
    case AddUserOp(user, password) =>
      if cfg.ldap.Some? then Failed(NotImplemented)
      else if user in b.users then Done else if user == [] then Failed(KeyRejected) else Done
    case DeleteUserOp(user) => if cfg.ldap.Some? then Failed(NotImplemented) else Done
  }

  function BoltAfter(cfg: Config, ops: seq<Op>): Buckets {
    if ops == [] then NO_BUCKETS else BucketsStep(cfg, BoltAfter(cfg, ops[..|ops| - 1]), ops[|ops| - 1])
  }

  class MetaStore {
    const cfg: Config
    var objects: map<string, MetaObject>
    var projects: map<string, MetaProject>
    var users: Users

    function State(): Buckets
      reads this
    {
      Buckets(objects, projects, users)
    }

    constructor (cfg: Config)
      ensures State() == NO_BUCKETS && this.cfg == cfg
    {
      this.cfg := cfg;
      objects, projects, users := map[], map[], map[];
    }

    method GetMeta(rv: RequestVars) returns (r: Result<MetaObject>)
      ensures r == Get(cfg, State(), rv)
    {
      if !Authenticate(cfg, users, rv.authorization) {
        return Err(AuthError);
      }
      if rv.oid !in objects {
        return Err(ObjectNotFound);
      }
      return Ok(objects[rv.oid]);
    }

    method MakeProject(rv: RequestVars)
      modifies this`projects
      ensures State() == CreateProject(old(State()), rv)
    {
      if rv.repo in projects && projects[rv.repo].name != "" {
        return;
      }
      if rv.repo == "" {
        return;
      }
      projects := projects[rv.repo := MetaProject(rv.repo, [rv.oid])];
    }

    method PutMeta(rv: RequestVars) returns (r: Result<MetaObject>)
      modifies this`objects, this`projects
      ensures r == Put(cfg, old(State()), rv) && State() == BucketsAfterPut(cfg, old(State()), rv)
    {
      if !Authenticate(cfg, users, rv.authorization) {
        return Err(AuthError);
      }
      var found := GetMeta(rv);
      if found.Ok? {
        return Ok(found.value.(existing := true));
      }
      var meta := MetaObject(rv.oid, rv.size, [rv.repo], false);
      if rv.repo != "" {
        MakeProject(rv);
      }
      if rv.oid == "" {
        return Err(KeyRejected);
      }
      objects := objects[rv.oid := meta];
      return Ok(meta);
    }

    method AddUser(user: Bytes, password: Bytes) returns (r: Reply)
      modifies this`users
      ensures r == BoltReply(cfg, old(State()), AddUserOp(user, password))
      ensures State() == BucketsStep(cfg, old(State()), AddUserOp(user, password))
    {
      if cfg.ldap.Some? {
        return Failed(NotImplemented);
      }
      if user in users {
        return Done;
      }
      if user == [] {
        return Failed(KeyRejected);
      }
      users := users[user := password];
      return Done;
    }

    method DeleteUser(user: Bytes) returns (r: Reply)
      modifies this`users
      ensures r == BoltReply(cfg, old(State()), DeleteUserOp(user))
      ensures State() == BucketsStep(cfg, old(State()), DeleteUserOp(user))
    {
      if cfg.ldap.Some? {
        return Failed(NotImplemented);
      }
      users := users - {user};
      return Done;
    }
  }

  /** Objects are stored under their own oids, never under the empty one, and projects under their own names. */
  ghost predicate WellKeyed(b: Buckets) {
    (forall oid :: oid in b.objects ==> oid != "" && b.objects[oid].oid == oid && !b.objects[oid].existing) &&
    (forall repo :: repo in b.projects ==> repo != "" && b.projects[repo].name == repo) &&
    [] !in b.users
  }

  lemma StepKeepsKeys(cfg: Config, b: Buckets, op: Op)
    requires WellKeyed(b)
    ensures WellKeyed(BucketsStep(cfg, b, op))
  {
  }

  lemma {:induction false} BoltWellKeyed(cfg: Config, ops: seq<Op>)
    ensures WellKeyed(BoltAfter(cfg, ops))
    decreases |ops|
  {
    if ops != [] {
      BoltWellKeyed(cfg, ops[..|ops| - 1]);
      StepKeepsKeys(cfg, BoltAfter(cfg, ops[..|ops| - 1]), ops[|ops| - 1]);
    }
  }

  /** Call `i` registers its oid for the first time. */
  ghost predicate New(cfg: Config, ops: seq<Op>, i: int)
    requires 0 <= i < |ops|
  {
    ops[i].PutOp? && BoltReply(cfg, BoltAfter(cfg, ops[..i]), ops[i]) == Found(ops[i].rv.oid, ops[i].rv.size, false)
  }

  ghost predicate FirstIn(cfg: Config, ops: seq<Op>, repo: string, i: int)
    requires 0 <= i < |ops|
  {
    New(cfg, ops, i) && ops[i].rv.repo == repo && forall j :: 0 <= j < i && New(cfg, ops, j) ==> ops[j].rv.repo != repo
  }

  ghost predicate ProjectIndexed(cfg: Config, ops: seq<Op>, repo: string) {
    var projects := BoltAfter(cfg, ops).projects;
    (repo in projects ==> exists i :: 0 <= i < |ops| && FirstIn(cfg, ops, repo, i)) &&
    forall i :: 0 <= i < |ops| && FirstIn(cfg, ops, repo, i) ==>
      repo in projects && projects[repo] == MetaProject(repo, [ops[i].rv.oid])
  }

  /** The projects are exactly the index of the registrations: each repository, with the first oid registered in it. */
  ghost predicate ProjectsIndexHistory(cfg: Config, ops: seq<Op>) {
    forall repo :: repo != "" ==> ProjectIndexed(cfg, ops, repo)
  }

  /**
    An authorised registration of the empty oid in a repository without a project: what a body that
    is not JSON becomes.
  */
  predicate OrphansProject(cfg: Config, b: Buckets, op: Op) {
    op.PutOp? && op.rv.oid == "" && op.rv.repo != "" && op.rv.repo !in b.projects &&
    Authenticate(cfg, b.users, op.rv.authorization)
  }

  ghost predicate NeverOrphans(cfg: Config, ops: seq<Op>) {
    forall i :: 0 <= i < |ops| ==> !OrphansProject(cfg, BoltAfter(cfg, ops[..i]), ops[i])
  }

  lemma PrefixNew(cfg: Config, prior: seq<Op>, op: Op, repo: string)
    ensures forall i :: 0 <= i < |prior| ==> (New(cfg, prior + [op], i) <==> New(cfg, prior, i))
    ensures forall i :: 0 <= i < |prior| ==> (FirstIn(cfg, prior + [op], repo, i) <==> FirstIn(cfg, prior, repo, i))
  {
    var ops := prior + [op];
    forall i | 0 <= i < |prior|
      ensures New(cfg, ops, i) <==> New(cfg, prior, i)
    {
      assert ops[..i] == prior[..i];
    }
  }

  /** What one call does to the project of a repository. */
  lemma StepOnProject(cfg: Config, b: Buckets, op: Op, repo: string)
    requires WellKeyed(b) && repo != ""
    ensures var t := BucketsStep(cfg, b, op);
      if repo in b.projects then repo in t.projects && t.projects[repo] == b.projects[repo]
      else if op.PutOp? && op.rv.repo == repo && BoltReply(cfg, b, op) == Found(op.rv.oid, op.rv.size, false) then
        repo in t.projects && t.projects[repo] == MetaProject(repo, [op.rv.oid])
      else if OrphansProject(cfg, b, op) && op.rv.repo == repo then
        repo in t.projects && t.projects[repo] == MetaProject(repo, [""])
      else repo !in t.projects
    ensures op.PutOp? && BoltReply(cfg, b, op) == Found(op.rv.oid, op.rv.size, false) ==> op.rv.oid != ""
  {
  }

  lemma {:induction false} NoneFirstNoneNew(cfg: Config, ops: seq<Op>, repo: string, n: nat)
    requires n <= |ops| && forall i :: 0 <= i < n ==> !FirstIn(cfg, ops, repo, i)
    ensures forall i :: 0 <= i < n && New(cfg, ops, i) ==> ops[i].rv.repo != repo
  {
    if n > 0 {
      NoneFirstNoneNew(cfg, ops, repo, n - 1);
      assert !FirstIn(cfg, ops, repo, n - 1);
    }
  }

  lemma IndexStep(cfg: Config, prior: seq<Op>, op: Op, repo: string)
    requires repo != "" && ProjectIndexed(cfg, prior, repo)
    requires !OrphansProject(cfg, BoltAfter(cfg, prior), op)
    ensures ProjectIndexed(cfg, prior + [op], repo)
  {
    var ops, n := prior + [op], |prior|;
    BoltWellKeyed(cfg, prior);
    PrefixNew(cfg, prior, op, repo);
    StepOnProject(cfg, BoltAfter(cfg, prior), op, repo);
    assert ops[..n] == prior;
    if repo in BoltAfter(cfg, prior).projects {
      var i :| 0 <= i < n && FirstIn(cfg, prior, repo, i);
      assert FirstIn(cfg, ops, repo, i);
    } else {
      assert forall i :: 0 <= i < n ==> !FirstIn(cfg, prior, repo, i);
      NoneFirstNoneNew(cfg, prior, repo, n);
      assert repo in BoltAfter(cfg, ops).projects <==> FirstIn(cfg, ops, repo, n);
    }
  }

  /** A project with the empty oid stays that way, and no registration explains it. */
  lemma {:induction false} OrphanStays(cfg: Config, ops: seq<Op>, i: int)
    requires 0 <= i < |ops| && OrphansProject(cfg, BoltAfter(cfg, ops[..i]), ops[i])
    ensures ops[i].rv.repo in BoltAfter(cfg, ops).projects
    ensures BoltAfter(cfg, ops).projects[ops[i].rv.repo] == MetaProject(ops[i].rv.repo, [""])
    decreases |ops|
  {
    var n, repo := |ops| - 1, ops[i].rv.repo;
    BoltWellKeyed(cfg, ops[..n]);
    StepOnProject(cfg, BoltAfter(cfg, ops[..n]), ops[n], repo);
    assert BoltAfter(cfg, ops) == BucketsStep(cfg, BoltAfter(cfg, ops[..n]), ops[n]);
    if i < n {
      assert ops[..n][..i] == ops[..i];
      OrphanStays(cfg, ops[..n], i);
    }
  }

  /**
    In sequential use the projects bucket is exactly the index of the registrations, if and only if the
    store was never asked to register the empty oid in a repository that had no project yet.
  */
  lemma {:induction false} IndexExactly(cfg: Config, ops: seq<Op>)
    ensures ProjectsIndexHistory(cfg, ops) <==> NeverOrphans(cfg, ops)
    decreases |ops|
  {
    if ops == [] {
      assert forall repo :: repo != "" ==> ProjectIndexed(cfg, ops, repo);
    } else if NeverOrphans(cfg, ops) {
      var n := |ops| - 1;
      var prior := ops[..n];
      assert ops == prior + [ops[n]];
      assert forall i :: 0 <= i < n ==> prior[..i] == ops[..i];
      IndexExactly(cfg, prior);
      forall repo | repo != ""
        ensures ProjectIndexed(cfg, ops, repo)
      {
        assert ProjectIndexed(cfg, prior, repo);
        IndexStep(cfg, prior, ops[n], repo);
      }
    } else {
      var i :| 0 <= i < |ops| && OrphansProject(cfg, BoltAfter(cfg, ops[..i]), ops[i]);
      var repo := ops[i].rv.repo;
      OrphanStays(cfg, ops, i);
      if ProjectIndexed(cfg, ops, repo) {
        var k :| 0 <= k < |ops| && FirstIn(cfg, ops, repo, k);
        BoltWellKeyed(cfg, ops[..k]);
        StepOnProject(cfg, BoltAfter(cfg, ops[..k]), ops[k], repo);
        assert false;
      }
    }
  }

  /** It can fail: on a public server, one registration of the empty oid leaves a project that no object explains. */
  lemma EmptyOidBreaksIndex(cfg: Config, repo: string, size: int)
    requires cfg.isPublic && repo != ""
    ensures var ops := [PutOp(RequestVars("", size, "", repo, ""))];
      BoltAfter(cfg, ops).projects == map[repo := MetaProject(repo, [""])] && BoltAfter(cfg, ops).objects == map[] &&
      !ProjectsIndexHistory(cfg, ops)
  {
    var ops := [PutOp(RequestVars("", size, "", repo, ""))];
    assert ops[..0] == [];
    assert BoltAfter(cfg, ops) == BucketsStep(cfg, NO_BUCKETS, ops[0]);
    assert OrphansProject(cfg, BoltAfter(cfg, ops[..0]), ops[0]);
    IndexExactly(cfg, ops);
  }
}
