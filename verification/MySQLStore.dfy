/** The MySQL metadata store: oids, projects created beforehand, and a mapping table without keys. */
module MySQLStore {
  import opened Common
  import opened BasicAuth
  import opened MetaTypes

  datatype Mapping = Mapping(oid: string, project: nat)

  datatype Schema = Schema(oids: map<string, int>, projects: map<string, nat>, maps: seq<Mapping>, nextId: nat)

  const NO_ROWS := Schema(map[], map[], [], 1)

  /** Only public servers and LDAP let anybody in: there is no user table. */
  predicate Admits(cfg: Config, authorization: string) {
    cfg.isPublic ||
    match Credentials(authorization)
    case None => false
    case Some((user, password)) => cfg.ldap.Some? && cfg.ldap.value(user, password)
  }

  function Get(cfg: Config, m: Schema, rv: RequestVars): Result<MetaObject> {
    if !Admits(cfg, rv.authorization) then Err(AuthError)
    else if rv.oid in m.oids && rv.oid != "" then Ok(MetaObject(rv.oid, m.oids[rv.oid], [], false))
    else Err(ObjectNotFound)
  }

  /** The repository is given and was never added as a project. */
  predicate UnknownRepo(m: Schema, repo: string) {
    repo != "" && repo !in m.projects
  }

  function Put(cfg: Config, m: Schema, rv: RequestVars): Result<MetaObject> {
    if !Admits(cfg, rv.authorization) then Err(AuthError)
    else match Get(cfg, m, rv)
      case Ok(meta) => Ok(meta.(existing := true))
      case Err(_) =>
        if UnknownRepo(m, rv.repo) then Err(ProjectNotFound) else Ok(MetaObject(rv.oid, rv.size, [], false))
  }

  /** The row of the oid is written before the project is looked for, and stays when there is none. */
  function SchemaAfterPut(cfg: Config, m: Schema, rv: RequestVars): Schema {
    if !Admits(cfg, rv.authorization) || Get(cfg, m, rv).Ok? then m
    else
      m.(oids := if rv.oid in m.oids then m.oids else m.oids[rv.oid := rv.size],
         maps := if rv.repo == "" || UnknownRepo(m, rv.repo) then m.maps
                 else m.maps + [Mapping(rv.oid, m.projects[rv.repo])])
  }

  function SchemaAfterAddProject(m: Schema, name: string): Schema {
    if name in m.projects then m else m.(projects := m.projects[name := m.nextId], nextId := m.nextId + 1)
  }

  class MySQLMetaStore {
    const cfg: Config
    var oids: map<string, int>
    var projects: map<string, nat>
    var maps: seq<Mapping>
    var nextId: nat

    function State(): Schema
      reads this
    {
      Schema(oids, projects, maps, nextId)
    }

    constructor (cfg: Config)
      ensures State() == NO_ROWS && this.cfg == cfg
    {
      this.cfg := cfg;
      oids, projects, maps, nextId := map[], map[], [], 1;
    }

    /** A second insert of the same oid fails, and the failure is only logged. */
    method CreateOid(oid: string, size: int)
      modifies this`oids
      ensures oids == if oid in old(oids) then old(oids) else old(oids)[oid := size]
    {
      if oid !in oids {
        oids := oids[oid := size];
      }
    }

    /** Looks the project up and maps the oid to its id; a failed lookup leaves the id at zero. */
    method AddOidToProject(oid: string, project: string)
      modifies this`maps
      ensures |maps| == |old(maps)| + 1 && old(maps) <= maps && maps[|old(maps)|].oid == oid
      ensures maps[|old(maps)|].project == if project in projects then projects[project] else 0
    {
      var id := 0;
      if project in projects {
        id := projects[project];
      }
      maps := maps + [Mapping(oid, id)];
    }

    method GetMeta(rv: RequestVars) returns (r: Result<MetaObject>)
      ensures r == Get(cfg, State(), rv)
    {
      if !Admits(cfg, rv.authorization) {
        return Err(AuthError);
      }
      if rv.oid !in oids || rv.oid == "" {
        return Err(ObjectNotFound);
      }
      return Ok(MetaObject(rv.oid, oids[rv.oid], [], false));
    }

    method PutMeta(rv: RequestVars) returns (r: Result<MetaObject>)
      modifies this`oids, this`maps
      ensures r == Put(cfg, old(State()), rv) && State() == SchemaAfterPut(cfg, old(State()), rv)
    {
      if !Admits(cfg, rv.authorization) {
        return Err(AuthError);
      }
      var found := GetMeta(rv);
      if found.Ok? {
        return Ok(found.value.(existing := true));
      }
      CreateOid(rv.oid, rv.size);
      if rv.repo != "" {
        if rv.repo !in projects {
          return Err(ProjectNotFound);
        }
        AddOidToProject(rv.oid, rv.repo);
      }
      return Ok(MetaObject(rv.oid, rv.size, [], false));
    }

    method AddProject(name: string) returns (ok: bool)
      modifies this`projects, this`nextId
      ensures ok <==> name !in old(projects)
      ensures State() == SchemaAfterAddProject(old(State()), name)
    {
      ok := name !in projects;
      if ok {
        projects, nextId := projects[name := nextId], nextId + 1;
      }
    }
  }

  /** The calls that can change a MySQL store, and those on users, which it does not implement. */
  datatype MySQLOp =
    | PutRow(rv: RequestVars)
    | AddProjectRow(name: string)
    | AddUserRow(user: Bytes, password: Bytes)
    | DeleteUserRow(user: Bytes)

  function SchemaStep(cfg: Config, m: Schema, op: MySQLOp): Schema {
    match op
    case PutRow(rv) => SchemaAfterPut(cfg, m, rv)
    case AddProjectRow(name) => SchemaAfterAddProject(m, name)
    case AddUserRow(_, _) => m
    case DeleteUserRow(_) => m
  }

  function SchemaAfter(cfg: Config, ops: seq<MySQLOp>): Schema {
    if ops == [] then NO_ROWS else SchemaStep(cfg, SchemaAfter(cfg, ops[..|ops| - 1]), ops[|ops| - 1])
  }

  /** A registration of an oid that is not in the table yet, by someone admitted. */
  predicate FirstTime(cfg: Config, m: Schema, op: MySQLOp) {
    op.PutRow? && Admits(cfg, op.rv.authorization) && op.rv.oid !in m.oids
  }

  /** First registrations that name no repository, or one that was never added: they leave no mapping. */
  function Unmapped(cfg: Config, ops: seq<MySQLOp>): nat {
    if ops == [] then 0
    else
      var m, op := SchemaAfter(cfg, ops[..|ops| - 1]), ops[|ops| - 1];
      Unmapped(cfg, ops[..|ops| - 1]) +
      (if FirstTime(cfg, m, op) && (op.rv.repo == "" || UnknownRepo(m, op.rv.repo)) then 1 else 0)
  }

  /**
    A registration that maps an oid although the table already has its row: the lookup before it
    failed all the same.
  */
  predicate MapsAgain(cfg: Config, m: Schema, op: MySQLOp) {
    op.PutRow? && Admits(cfg, op.rv.authorization) && op.rv.oid in m.oids && Get(cfg, m, op.rv).Err? &&
    op.rv.repo in m.projects && op.rv.repo != ""
  }

  function Remapped(cfg: Config, ops: seq<MySQLOp>): nat {
    if ops == [] then 0
    else
      var m := SchemaAfter(cfg, ops[..|ops| - 1]);
      Remapped(cfg, ops[..|ops| - 1]) + (if MapsAgain(cfg, m, ops[|ops| - 1]) then 1 else 0)
  }

  /** No oid is mapped twice, but perhaps the empty one. */
  ghost predicate MappedOnce(m: Schema) {
    forall i, j :: 0 <= i < j < |m.maps| && m.maps[i].oid == m.maps[j].oid ==> m.maps[i].oid == ""
  }

  ghost predicate MappingsExist(m: Schema) {
    forall i :: 0 <= i < |m.maps| ==> m.maps[i].oid in m.oids && m.maps[i].project in m.projects.Values
  }

  ghost predicate Ids(m: Schema) {
    (forall name :: name in m.projects ==> m.projects[name] < m.nextId) &&
    (forall a, b :: a in m.projects && b in m.projects && m.projects[a] == m.projects[b] ==> a == b)
  }

  lemma MappingsKept(m: Schema, name: string, i: int)
    requires 0 <= i < |m.maps| && m.maps[i].project in m.projects.Values
    ensures m.maps[i].project in SchemaAfterAddProject(m, name).projects.Values
  {
    var known :| known in m.projects && m.projects[known] == m.maps[i].project;
    assert SchemaAfterAddProject(m, name).projects[known] == m.maps[i].project;
  }

  lemma StepKeepsMappings(cfg: Config, m: Schema, op: MySQLOp)
    requires MappedOnce(m) && MappingsExist(m) && Ids(m)
    ensures var t := SchemaStep(cfg, m, op); MappedOnce(t) && MappingsExist(t) && Ids(t)
  {
    match op
    case PutRow(rv) =>
      if rv.repo in m.projects {
        assert m.projects[rv.repo] in m.projects.Values;
      }
    case AddProjectRow(name) =>
      forall i | 0 <= i < |m.maps|
        ensures m.maps[i].project in SchemaAfterAddProject(m, name).projects.Values
      {
        MappingsKept(m, name, i);
      }
    case _ =>
  }

  /** The rows that one call adds. */
  lemma StepBalances(cfg: Config, m: Schema, op: MySQLOp)
    ensures var t := SchemaStep(cfg, m, op);
      |t.oids| - |m.oids| + (if MapsAgain(cfg, m, op) then 1 else 0) ==
      |t.maps| - |m.maps| +
      if FirstTime(cfg, m, op) && (op.rv.repo == "" || UnknownRepo(m, op.rv.repo)) then 1 else 0
  {
  }

  /**
    Conservation in sequential use: every mapped oid and project exists, no oid but the empty one is
    mapped twice, and the rows balance. Each row of the oid table has its mapping or came from a first
    registration that named no repository or was refused for want of its project; each further mapping
    came from a registration that mapped an oid again.
  */
  lemma {:induction false} Conservation(cfg: Config, ops: seq<MySQLOp>)
    ensures var m := SchemaAfter(cfg, ops);
      MappedOnce(m) && MappingsExist(m) && Ids(m) && |m.oids| + Remapped(cfg, ops) == |m.maps| + Unmapped(cfg, ops)
    decreases |ops|
  {
    if ops != [] {
      var prior, op := ops[..|ops| - 1], ops[|ops| - 1];
      Conservation(cfg, prior);
      StepKeepsMappings(cfg, SchemaAfter(cfg, prior), op);
      StepBalances(cfg, SchemaAfter(cfg, prior), op);
    }
  }

  /** Call `i` is an admitted registration of the empty oid. */
  predicate RegistersEmpty(cfg: Config, ops: seq<MySQLOp>, i: int)
    requires 0 <= i < |ops|
  {
    ops[i].PutRow? && ops[i].rv.oid == "" && Admits(cfg, ops[i].rv.authorization)
  }

  /** And it names a repository that was added before. */
  predicate MapsEmpty(cfg: Config, ops: seq<MySQLOp>, i: int)
    requires 0 <= i < |ops|
  {
    RegistersEmpty(cfg, ops, i) && ops[i].rv.repo != "" && ops[i].rv.repo in SchemaAfter(cfg, ops[..i]).projects
  }

  /** How many calls map the empty oid. */
  function EmptyMappings(cfg: Config, ops: seq<MySQLOp>): nat {
    if ops == [] then 0
    else
      var n := |ops| - 1;
      EmptyMappings(cfg, ops[..n]) + (if MapsEmpty(cfg, ops, n) then 1 else 0)
  }

  function CountEmpty(maps: seq<Mapping>): nat {
    if maps == [] then 0
    else CountEmpty(maps[..|maps| - 1]) + (if maps[|maps| - 1].oid == "" then 1 else 0)
  }

  lemma CountOneMore(maps: seq<Mapping>, mapping: Mapping)
    ensures CountEmpty(maps + [mapping]) == CountEmpty(maps) + if mapping.oid == "" then 1 else 0
  {
    assert (maps + [mapping])[..|maps|] == maps;
  }

  /** A call maps the empty oid once more exactly if it is such a registration. */
  lemma StepOnEmpty(cfg: Config, m: Schema, op: MySQLOp)
    ensures CountEmpty(SchemaStep(cfg, m, op).maps) == CountEmpty(m.maps) +
      if op.PutRow? && op.rv.oid == "" && Admits(cfg, op.rv.authorization) &&
         op.rv.repo != "" && op.rv.repo in m.projects then 1 else 0
  {
    if op.PutRow? && op.rv.repo in m.projects {
      CountOneMore(m.maps, Mapping(op.rv.oid, m.projects[op.rv.repo]));
    }
  }

  /** The empty oid is mapped as often as it was registered in a known repository. */
  lemma {:induction false} EmptyIsCounted(cfg: Config, ops: seq<MySQLOp>)
    ensures CountEmpty(SchemaAfter(cfg, ops).maps) == EmptyMappings(cfg, ops)
    decreases |ops|
  {
    if ops != [] {
      var n := |ops| - 1;
      EmptyIsCounted(cfg, ops[..n]);
      StepOnEmpty(cfg, SchemaAfter(cfg, ops[..n]), ops[n]);
    }
  }

  lemma {:induction false} CountedTwice(maps: seq<Mapping>)
    ensures CountEmpty(maps) >= 1 <==> exists i :: 0 <= i < |maps| && maps[i].oid == ""
    ensures CountEmpty(maps) >= 2 <==> exists i, j :: 0 <= i < j < |maps| && maps[i].oid == "" && maps[j].oid == ""
    decreases |maps|
  {
    if maps != [] {
      var n := |maps| - 1;
      CountedTwice(maps[..n]);
      assert forall i :: 0 <= i < n ==> maps[..n][i] == maps[i];
      if maps[n].oid == "" && CountEmpty(maps[..n]) >= 1 {
        var i :| 0 <= i < n && maps[..n][i].oid == "";
        assert 0 <= i < n < |maps| && maps[i].oid == "" && maps[n].oid == "";
      } else if CountEmpty(maps[..n]) >= 2 {
        var i, j :| 0 <= i < j < n && maps[..n][i].oid == "" && maps[..n][j].oid == "";
        assert maps[i].oid == "" && maps[j].oid == "";
      }
    }
  }

  /**
    Each oid is mapped at most once, if and only if the empty oid was registered in a known
    repository at most once.
  */
  lemma MappedOnceExactly(cfg: Config, ops: seq<MySQLOp>)
    ensures var maps := SchemaAfter(cfg, ops).maps;
      (forall i, j :: 0 <= i < j < |maps| ==> maps[i].oid != maps[j].oid) <==> EmptyMappings(cfg, ops) <= 1
  {
    var maps := SchemaAfter(cfg, ops).maps;
    Conservation(cfg, ops);
    EmptyIsCounted(cfg, ops);
    CountedTwice(maps);
    if EmptyMappings(cfg, ops) > 1 {
      var i, j :| 0 <= i < j < |maps| && maps[i].oid == "" && maps[j].oid == "";
      assert maps[i].oid == maps[j].oid;
    }
  }

  lemma {:induction false} EmptyRowExactly(cfg: Config, ops: seq<MySQLOp>)
    ensures "" in SchemaAfter(cfg, ops).oids <==> exists i :: 0 <= i < |ops| && RegistersEmpty(cfg, ops, i)
    decreases |ops|
  {
    if ops != [] {
      var n := |ops| - 1;
      EmptyRowExactly(cfg, ops[..n]);
      assert forall i :: 0 <= i < n ==> (RegistersEmpty(cfg, ops[..n], i) <==> RegistersEmpty(cfg, ops, i));
      assert RegistersEmpty(cfg, ops, n) ==> "" in SchemaAfter(cfg, ops).oids;
    }
  }

  /** Call `i` maps the empty oid after an earlier call had registered it, in whatever repository. */
  ghost predicate Repeats(cfg: Config, ops: seq<MySQLOp>, i: int)
    requires 0 <= i < |ops|
  {
    MapsEmpty(cfg, ops, i) && exists j :: 0 <= j < i && RegistersEmpty(cfg, ops, j)
  }

  lemma PrefixRepeats(cfg: Config, ops: seq<MySQLOp>, n: int, i: int)
    requires 0 <= i < n <= |ops|
    ensures Repeats(cfg, ops[..n], i) <==> Repeats(cfg, ops, i)
  {
    assert ops[..n][..i] == ops[..i];
    assert forall j :: 0 <= j <= i ==> ops[..n][j] == ops[j];
    assert forall j :: 0 <= j <= i ==> (RegistersEmpty(cfg, ops[..n], j) <==> RegistersEmpty(cfg, ops, j));
  }

  lemma RepeatsMapsAgain(cfg: Config, ops: seq<MySQLOp>, n: int)
    requires 0 <= n < |ops|
    ensures MapsAgain(cfg, SchemaAfter(cfg, ops[..n]), ops[n]) <==> Repeats(cfg, ops, n)
  {
    EmptyRowExactly(cfg, ops[..n]);
    assert forall j :: 0 <= j < n ==> (RegistersEmpty(cfg, ops[..n], j) <==> RegistersEmpty(cfg, ops, j));
  }

  ghost predicate NeverRepeats(cfg: Config, ops: seq<MySQLOp>) {
    forall i :: 0 <= i < |ops| ==> !Repeats(cfg, ops, i)
  }

  lemma OneMoreNeverRepeats(cfg: Config, ops: seq<MySQLOp>)
    requires ops != []
    ensures NeverRepeats(cfg, ops) <==> NeverRepeats(cfg, ops[..|ops| - 1]) && !Repeats(cfg, ops, |ops| - 1)
  {
    var n := |ops| - 1;
    forall i | 0 <= i < n
      ensures Repeats(cfg, ops[..n], i) <==> Repeats(cfg, ops, i)
    {
      PrefixRepeats(cfg, ops, n, i);
    }
  }

  lemma {:induction false} RemappedExactly(cfg: Config, ops: seq<MySQLOp>)
    ensures Remapped(cfg, ops) == 0 <==> NeverRepeats(cfg, ops)
    decreases |ops|
  {
    if ops != [] {
      RemappedExactly(cfg, ops[..|ops| - 1]);
      RepeatsMapsAgain(cfg, ops, |ops| - 1);
      OneMoreNeverRepeats(cfg, ops);
    }
  }

  /**
    The plain balance: oids are as many as mappings and unmapped first registrations, if and only if no
    call mapped the empty oid after an earlier call had registered it.
  */
  lemma BalanceExactly(cfg: Config, ops: seq<MySQLOp>)
    ensures var m := SchemaAfter(cfg, ops);
      |m.oids| == |m.maps| + Unmapped(cfg, ops) <==> NeverRepeats(cfg, ops)
  {
    Conservation(cfg, ops);
    RemappedExactly(cfg, ops);
  }

  /** Both can fail: two registrations of the empty oid in one project, by anybody admitted, map it twice. */
  lemma EmptyOidIsMappedAgain(cfg: Config, repo: string, size: int, authorization: string)
    requires repo != "" && Admits(cfg, authorization)
    ensures var put := PutRow(RequestVars("", size, "", repo, authorization));
      var m := SchemaAfter(cfg, [AddProjectRow(repo), put, put]);
      m.maps == [Mapping("", 1), Mapping("", 1)] && |m.oids| == 1
  {
    var put := PutRow(RequestVars("", size, "", repo, authorization));
    var ops := [AddProjectRow(repo), put, put];
    assert ops[..2] == [AddProjectRow(repo), put] && ops[..2][..1] == [AddProjectRow(repo)] && ops[..2][..1][..0] == [];
    var m1 := SchemaAfterAddProject(NO_ROWS, repo);
    assert SchemaAfter(cfg, [AddProjectRow(repo)]) == SchemaStep(cfg, SchemaAfter(cfg, []), AddProjectRow(repo)) == m1;
    var m2 := SchemaStep(cfg, m1, put);
    assert SchemaAfter(cfg, ops[..2]) == m2 && m2.maps == [Mapping("", 1)];
    assert SchemaAfter(cfg, ops) == SchemaStep(cfg, m2, put);
  }

  /**
    MySQL lets in everybody on public servers, else exactly those whose header names somebody the
    directory accepts.
  */
  lemma AdmitsExactly(cfg: Config, authorization: string)
    ensures Admits(cfg, authorization) <==>
      cfg.isPublic ||
      (cfg.ldap.Some? &&
       exists user, password :: Names(authorization, user, password) && cfg.ldap.value(user, password))
  {
    forall user, password
      ensures Credentials(authorization) == Some((user, password)) <==> Names(authorization, user, password)
    {
      CredentialsExactly(authorization, user, password);
    }
    if Credentials(authorization).Some? {
      assert Names(authorization, Credentials(authorization).value.0, Credentials(authorization).value.1);
    }
  }

  /** Call `i` was answered as a new registration of the oid in the project of this id. */
  ghost predicate NewIn(cfg: Config, ops: seq<MySQLOp>, i: int, mapping: Mapping)
    requires 0 <= i < |ops|
  {
    var m := SchemaAfter(cfg, ops[..i]);
    ops[i].PutRow? && ops[i].rv.oid == mapping.oid && ops[i].rv.repo != "" && ops[i].rv.repo in m.projects &&
    m.projects[ops[i].rv.repo] == mapping.project &&
    Put(cfg, m, ops[i].rv) == Ok(MetaObject(mapping.oid, ops[i].rv.size, [], false))
  }

  ghost predicate IsMapped(m: Schema, mapping: Mapping) {
    exists i :: 0 <= i < |m.maps| && m.maps[i] == mapping
  }

  lemma StepOnMappings(cfg: Config, m: Schema, op: MySQLOp, mapping: Mapping)
    ensures IsMapped(SchemaStep(cfg, m, op), mapping) <==>
      IsMapped(m, mapping) ||
      (op.PutRow? && op.rv.oid == mapping.oid && op.rv.repo != "" && op.rv.repo in m.projects &&
       m.projects[op.rv.repo] == mapping.project &&
       Put(cfg, m, op.rv) == Ok(MetaObject(mapping.oid, op.rv.size, [], false)))
  {
    var t := SchemaStep(cfg, m, op);
    if IsMapped(m, mapping) {
      var i :| 0 <= i < |m.maps| && m.maps[i] == mapping;
      assert t.maps[i] == mapping;
    }
    if |t.maps| > |m.maps| {
      assert t.maps[|m.maps|] == Mapping(op.rv.oid, m.projects[op.rv.repo]);
    }
  }

  ghost predicate EverNewIn(cfg: Config, ops: seq<MySQLOp>, mapping: Mapping) {
    exists i :: 0 <= i < |ops| && NewIn(cfg, ops, i, mapping)
  }

  lemma OneMoreNewIn(cfg: Config, ops: seq<MySQLOp>, mapping: Mapping)
    requires ops != []
    ensures var n := |ops| - 1;
      EverNewIn(cfg, ops, mapping) <==> EverNewIn(cfg, ops[..n], mapping) || NewIn(cfg, ops, n, mapping)
  {
    var n := |ops| - 1;
    forall i | 0 <= i < n
      ensures NewIn(cfg, ops[..n], i, mapping) <==> NewIn(cfg, ops, i, mapping)
    {
      assert ops[..n][..i] == ops[..i];
    }
    if EverNewIn(cfg, ops[..n], mapping) {
      var i :| 0 <= i < n && NewIn(cfg, ops[..n], i, mapping);
      assert NewIn(cfg, ops, i, mapping);
    }
  }

  /** After any calls an oid is mapped to a project exactly if it was registered as new under the project's name. */
  lemma {:induction false} MappedExactly(cfg: Config, ops: seq<MySQLOp>, mapping: Mapping)
    ensures IsMapped(SchemaAfter(cfg, ops), mapping) <==> EverNewIn(cfg, ops, mapping)
    decreases |ops|
  {
    if ops != [] {
      var n := |ops| - 1;
      MappedExactly(cfg, ops[..n], mapping);
      StepOnMappings(cfg, SchemaAfter(cfg, ops[..n]), ops[n], mapping);
      OneMoreNewIn(cfg, ops, mapping);
    }
  }

  /** What a registration is answered, and when. */
  lemma PutAnswersExactly(cfg: Config, m: Schema, rv: RequestVars)
    ensures var admitted, known := Admits(cfg, rv.authorization), rv.oid in m.oids && rv.oid != "";
      var reply, refused := Put(cfg, m, rv), rv.repo != "" && rv.repo !in m.projects;
      (reply == Err(AuthError) <==> !admitted) &&
      (reply == Err(ProjectNotFound) <==> admitted && !known && refused) &&
      (admitted && known ==> reply == Ok(MetaObject(rv.oid, m.oids[rv.oid], [], true))) &&
      (admitted && !known && !refused ==> reply == Ok(MetaObject(rv.oid, rv.size, [], false)))
  {
  }
}
