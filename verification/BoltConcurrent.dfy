/**
  Authorised registrations in a Bolt store running side by side, one transaction at a time, with
  crashes between transactions.
*/
module BoltConcurrent {
  import opened Common
  import opened BasicAuth
  import opened MetaTypes
  import B = BoltStore
  import Race = RegistrationRace

  type Pid = nat

  datatype Object = Object(size: int, repo: string)

  /** The transaction a registration runs next. */
  datatype Phase = Lookup | FindProject | CreateProject | WriteObject
  datatype InFlight = InFlight(oid: string, size: int, repo: string, phase: Phase)

  datatype State = State(
    objects: map<string, Object>,
    projects: map<string, seq<string>>,
    puts: map<Pid, InFlight>,
    answers: map<Pid, Reply>)

  const EMPTY := State(map[], map[], map[], map[])

  datatype Action = Begin(p: Pid, oid: string, size: int, repo: string) | Advance(p: Pid) | Crash(dead: set<Pid>)

  function Answer(s: State, p: Pid, reply: Reply): State {
    s.(puts := s.puts - {p}, answers := s.answers[p := reply])
  }

  function Goto(s: State, p: Pid, phase: Phase): State
    requires p in s.puts
  {
    s.(puts := s.puts[p := s.puts[p].(phase := phase)])
  }

  /** One transaction of one registration. */
  function Transact(s: State, p: Pid): State
    requires p in s.puts
  {
    var put := s.puts[p];
    match put.phase
    case Lookup =>
      if put.oid in s.objects then Answer(s, p, Found(put.oid, s.objects[put.oid].size, true))
      else Goto(s, p, if put.repo == "" then WriteObject else FindProject)
    case FindProject =>
      Goto(s, p, if put.repo in s.projects then WriteObject else CreateProject)
    case CreateProject =>
      Goto(s.(projects := s.projects[put.repo := [put.oid]]), p, WriteObject)
    case WriteObject =>
      if put.oid == "" then Answer(s, p, Failed(KeyRejected))
      else Answer(s.(objects := s.objects[put.oid := Object(put.size, put.repo)]), p, Found(put.oid, put.size, false))
  }

  function Step(s: State, a: Action): State {
    match a
    case Begin(p, oid, size, repo) =>
      if p in s.puts || p in s.answers then s else s.(puts := s.puts[p := InFlight(oid, size, repo, Lookup)])
    case Advance(p) => if p in s.puts then Transact(s, p) else s
    case Crash(dead) => s.(puts := s.puts - dead)
  }

  function After(run: Run<Action>): State {
    match run
    case Start => EMPTY
    case Then(before, a) => Step(After(before), a)
  }

  /** Every object of a repository has its project, and so has every registration about to write one. */
  ghost predicate ObjectsHaveProjects(s: State) {
    (forall oid :: oid in s.objects && s.objects[oid].repo != "" ==> s.objects[oid].repo in s.projects) &&
    (forall p :: p in s.puts && s.puts[p].phase == WriteObject && s.puts[p].repo != "" ==> s.puts[p].repo in s.projects)
  }

  lemma ProjectsOnlyGrow(s: State, a: Action)
    ensures s.projects.Keys <= Step(s, a).projects.Keys
  {
  }

  lemma WriterHasProject(s: State, a: Action, p: Pid)
    requires ObjectsHaveProjects(s)
    requires p in Step(s, a).puts && Step(s, a).puts[p].phase == WriteObject && Step(s, a).puts[p].repo != ""
    ensures Step(s, a).puts[p].repo in Step(s, a).projects
  {
    ProjectsOnlyGrow(s, a);
    if a != Advance(p) {
      assert p in s.puts && Step(s, a).puts[p] == s.puts[p];
    }
  }

  lemma StepKeepsProjects(s: State, a: Action)
    requires ObjectsHaveProjects(s)
    ensures ObjectsHaveProjects(Step(s, a))
  {
    var t := Step(s, a);
    ProjectsOnlyGrow(s, a);
    forall p | p in t.puts && t.puts[p].phase == WriteObject && t.puts[p].repo != ""
      ensures t.puts[p].repo in t.projects
    {
      WriterHasProject(s, a, p);
    }
    forall oid | oid in t.objects && t.objects[oid].repo != ""
      ensures t.objects[oid].repo in t.projects
    {
      if !(oid in s.objects && t.objects[oid] == s.objects[oid]) {
        assert a.Advance? && s.puts[a.p].phase == WriteObject && t.objects[oid].repo == s.puts[a.p].repo;
      }
    }
  }

  /** At every step of every run, whatever crashes: the project of an object is there before the object. */
  lemma {:induction false} ProjectsComeFirst(run: Run<Action>)
    ensures ObjectsHaveProjects(After(run))
  {
    if run.Then? {
      ProjectsComeFirst(run.before);
      StepKeepsProjects(After(run.before), run.action);
    }
  }

  ghost predicate Writes(s: State, p: Pid, oid: string) {
    p in s.puts && s.puts[p].phase == WriteObject && s.puts[p].oid == oid
  }

  /** The oid is stored, or some registration in flight writes it in its next transaction. */
  ghost predicate Explained(s: State, oid: string) {
    oid in s.objects || exists p :: Writes(s, p, oid)
  }

  ghost predicate ListedAreExplained(s: State) {
    forall repo, i :: repo in s.projects && 0 <= i < |s.projects[repo]| ==> Explained(s, s.projects[repo][i])
  }

  ghost predicate AlwaysExplained(run: Run<Action>) {
    ListedAreExplained(After(run)) && (run.Then? ==> AlwaysExplained(run.before))
  }

  ghost predicate Listed(s: State, oid: string) {
    exists repo, i :: repo in s.projects && 0 <= i < |s.projects[repo]| && s.projects[repo][i] == oid
  }

  ghost predicate Stops(s: State, a: Action, p: Pid) {
    match a
    case Begin(_, _, _, _) => false
    case Advance(q) => q == p && p in s.puts && s.puts[p].phase == WriteObject && s.puts[p].oid == ""
    case Crash(dead) => p in dead
  }

  /** Some registration was about to store the oid, and the step stops all that were. */
  ghost predicate StopsWriting(s: State, a: Action, oid: string) {
    (exists p :: Writes(s, p, oid)) && (forall q :: Writes(s, q, oid) ==> Stops(s, a, q))
  }

  /**
    The step takes away the last registration that was going to store a listed oid: a crash between
    the two transactions, or the refusal of the empty oid.
  */
  ghost predicate Orphans(s: State, a: Action) {
    exists oid :: Listed(s, oid) && oid !in s.objects && StopsWriting(s, a, oid)
  }

  ghost predicate NeverOrphans(run: Run<Action>) {
    run.Then? ==> NeverOrphans(run.before) && !Orphans(After(run.before), run.action)
  }

  ghost predicate NoEmptyOid(s: State) { "" !in s.objects }

  lemma {:induction false} EmptyOidNeverStored(run: Run<Action>)
    ensures NoEmptyOid(After(run))
  {
    if run.Then? { EmptyOidNeverStored(run.before); }
  }

  lemma WritersChange(s: State, a: Action, p: Pid, oid: string)
    ensures Writes(s, p, oid) && !Stops(s, a, p) ==> Explained(Step(s, a), oid)
    ensures Writes(s, p, oid) && Stops(s, a, p) ==> !Writes(Step(s, a), p, oid)
    ensures oid in s.objects ==> oid in Step(s, a).objects
  {
    if Writes(s, p, oid) && !Stops(s, a, p) && !(a.Advance? && a.p == p) {
      assert Writes(Step(s, a), p, oid);
    }
  }

  /** What a step lists for the first time is about to be written by the registration that listed it. */
  lemma NewlyListed(s: State, a: Action, repo: string, i: int)
    requires repo in Step(s, a).projects && 0 <= i < |Step(s, a).projects[repo]|
    ensures var oid := Step(s, a).projects[repo][i];
      (repo in s.projects && i < |s.projects[repo]| && s.projects[repo][i] == oid) || Writes(Step(s, a), a.p, oid)
  {
  }

  lemma OrphanUnexplained(s: State, a: Action, oid: string)
    requires Listed(s, oid) && oid !in s.objects && NoEmptyOid(s)
    requires StopsWriting(s, a, oid)
    ensures !ListedAreExplained(Step(s, a))
  {
    var t := Step(s, a);
    assert t.objects == s.objects && t.projects == s.projects;
    forall q
      ensures !Writes(t, q, oid)
    {
      WritersChange(s, a, q, oid);
    }
    assert !Explained(t, oid);
    var repo, i :| repo in s.projects && 0 <= i < |s.projects[repo]| && s.projects[repo][i] == oid;
    assert t.projects[repo][i] == oid;
  }

  lemma StepExplainsExactly(s: State, a: Action)
    requires ListedAreExplained(s) && NoEmptyOid(s)
    ensures ListedAreExplained(Step(s, a)) <==> !Orphans(s, a)
  {
    var t := Step(s, a);
    if Orphans(s, a) {
      var oid :| Listed(s, oid) && oid !in s.objects && StopsWriting(s, a, oid);
      OrphanUnexplained(s, a, oid);
    } else {
      forall repo, i | repo in t.projects && 0 <= i < |t.projects[repo]|
        ensures Explained(t, t.projects[repo][i])
      {
        var oid := t.projects[repo][i];
        NewlyListed(s, a, repo, i);
        if repo in s.projects && i < |s.projects[repo]| && s.projects[repo][i] == oid {
          assert Listed(s, oid) && Explained(s, oid);
          if oid !in s.objects {
            var p :| Writes(s, p, oid) && !Stops(s, a, p);
            WritersChange(s, a, p, oid);
          }
        }
      }
    }
  }

  /**
    In every interleaving: each oid that a project lists is stored or about to be, at every moment of the
    run, if and only if no crash and no refusal ever removes the last registration about to store one.
  */
  lemma {:induction false} ExplainedExactly(run: Run<Action>)
    ensures AlwaysExplained(run) <==> NeverOrphans(run)
  {
    if run.Then? {
      ExplainedExactly(run.before);
      EmptyOidNeverStored(run.before);
      if AlwaysExplained(run.before) {
        StepExplainsExactly(After(run.before), run.action);
      }
    }
  }

  /** No crashes, and no registration of the empty oid. */
  ghost predicate Tame(run: Run<Action>) {
    run.Then? ==> Tame(run.before) && !run.action.Crash? && (run.action.Begin? ==> run.action.oid != "")
  }

  lemma {:induction false} TameOids(run: Run<Action>)
    requires Tame(run)
    ensures forall p :: p in After(run).puts ==> After(run).puts[p].oid != ""
  {
    if run.Then? { TameOids(run.before); }
  }

  lemma {:induction false} TameNeverOrphans(run: Run<Action>)
    requires Tame(run)
    ensures NeverOrphans(run)
  {
    if run.Then? {
      TameNeverOrphans(run.before);
      TameOids(run.before);
    }
  }

  /** So with neither, whenever no registration is in flight, every oid that a project lists is a registered object. */
  lemma QuietProjectsListObjects(run: Run<Action>, repo: string, i: int)
    requires Tame(run) && After(run).puts == map[]
    requires repo in After(run).projects && 0 <= i < |After(run).projects[repo]|
    ensures After(run).projects[repo][i] in After(run).objects
  {
    TameNeverOrphans(run);
    ExplainedExactly(run);
    assert Explained(After(run), After(run).projects[repo][i]);
  }

  /** A crash between the two transactions leaves a project listing an oid that was never registered. */
  lemma CrashOrphans(oid: string, size: int, repo: string)
    requires oid != "" && repo != ""
    ensures var found := Then(Then(Then(Start, Begin(0, oid, size, repo)), Advance(0)), Advance(0));
      var run := Then(Then(found, Advance(0)), Crash({0}));
      After(run).projects == map[repo := [oid]] && After(run).objects == map[] && After(run).puts == map[]
  {
    var r1 := Then(Start, Begin(0, oid, size, repo));
    var r3 := Then(Then(r1, Advance(0)), Advance(0));
    assert After(r1) == State(map[], map[], map[0 := InFlight(oid, size, repo, Lookup)], map[]);
    assert After(Then(r1, Advance(0))).puts[0] == InFlight(oid, size, repo, FindProject);
    assert After(r3).puts[0] == InFlight(oid, size, repo, CreateProject);
    assert After(Then(r3, Advance(0))).puts.Keys == {0};
  }

  /**
    First registration wins only sequentially: two registrations of one oid that look it up before
    either writes are both answered as new, and the later one replaces the size the first was given.
  */
  lemma RaceReplacesSize(oid: string, size: int, other: int)
    requires oid != "" && size != other
    ensures var begun := Then(Then(Start, Begin(0, oid, size, "")), Begin(1, oid, other, ""));
      var both := Then(Then(begun, Advance(0)), Advance(1));
      var first := Then(both, Advance(0));
      var last := Then(first, Advance(1));
      After(first).objects == map[oid := Object(size, "")] && After(last).objects == map[oid := Object(other, "")] &&
      After(last).answers == map[0 := Found(oid, size, false), 1 := Found(oid, other, false)]
  {
    var r1 := Then(Start, Begin(0, oid, size, ""));
    var r2 := Then(r1, Begin(1, oid, other, ""));
    var r3 := Then(r2, Advance(0));
    var both := Then(r3, Advance(1));
    var first := Then(both, Advance(0));
    assert After(r1) == Step(EMPTY, r1.action);
    assert After(r2).puts == map[0 := InFlight(oid, size, "", Lookup), 1 := InFlight(oid, other, "", Lookup)];
    assert After(r3).puts == map[0 := InFlight(oid, size, "", WriteObject), 1 := InFlight(oid, other, "", Lookup)];
    assert After(both).puts ==
      map[0 := InFlight(oid, size, "", WriteObject), 1 := InFlight(oid, other, "", WriteObject)];
    assert After(both).objects == map[] && After(both).answers == map[];
    assert After(first).puts[1] == InFlight(oid, other, "", WriteObject);
    assert After(first).objects == map[oid := Object(size, "")];
  }

  function Sizes(s: State): map<string, int> {
    map oid | oid in s.objects :: s.objects[oid].size
  }

  function Claims(s: State): map<Pid, Race.Claim> {
    map p | p in s.puts && s.puts[p].phase != Lookup :: Race.Claim(s.puts[p].oid, s.puts[p].size)
  }

  /** The state as the race for oids sees it: the sizes, and the registrations past their lookup. */
  function Seen(s: State): Race.State {
    Race.State(Sizes(s), Claims(s))
  }

  function SeenStep(s: State, a: Action): Race.Action {
    match a
    case Begin(_, _, _, _) => Race.Drop({})
    case Crash(dead) => Race.Drop(dead)
    case Advance(p) =>
      if p !in s.puts then Race.Drop({})
      else match s.puts[p].phase
        case Lookup => Race.LookUp(p, Race.Claim(s.puts[p].oid, s.puts[p].size))
        case WriteObject => if s.puts[p].oid == "" then Race.Drop({p}) else Race.Write(p)
        case _ => Race.Drop({})
  }

  /** The lookups and writes of a run. */
  function RaceOf(run: Run<Action>): Run<Race.Action> {
    match run
    case Start => Start
    case Then(before, a) => Then(RaceOf(before), SeenStep(After(before), a))
  }

  lemma StepOnSizes(s: State, a: Action)
    requires NoEmptyOid(s)
    ensures Sizes(Step(s, a)) == Race.Step(Seen(s), SeenStep(s, a)).sizes
  {
    assert a.Advance? && a.p in s.puts ==>
      (a.p in Claims(s) <==> s.puts[a.p].phase != Lookup) &&
      (a.p in Claims(s) ==> Claims(s)[a.p] == Race.Claim(s.puts[a.p].oid, s.puts[a.p].size));
  }

  lemma ClaimsOnAnswer(s: State, p: Pid, reply: Reply)
    ensures Claims(Answer(s, p, reply)) == Claims(s) - {p}
  {
  }

  lemma ClaimsOnGoto(s: State, p: Pid, phase: Phase)
    requires p in s.puts && phase != Lookup
    ensures Claims(Goto(s, p, phase)) == Claims(s)[p := Race.Claim(s.puts[p].oid, s.puts[p].size)]
  {
  }

  lemma AdvanceOnClaims(s: State, p: Pid)
    requires p in s.puts
    ensures Claims(Transact(s, p)) == Race.Step(Seen(s), SeenStep(s, Advance(p))).claims
  {
    var put, c := s.puts[p], Claims(s);
    match put.phase
    case Lookup =>
      if put.oid in s.objects {
        ClaimsOnAnswer(s, p, Found(put.oid, s.objects[put.oid].size, true));
        assert p !in c && c - {p} == c;
      } else {
        ClaimsOnGoto(s, p, if put.repo == "" then WriteObject else FindProject);
      }
    case FindProject =>
      ClaimsOnGoto(s, p, if put.repo in s.projects then WriteObject else CreateProject);
    case CreateProject =>
      var created := s.(projects := s.projects[put.repo := [put.oid]]);
      assert Claims(created) == c;
      ClaimsOnGoto(created, p, WriteObject);
    case WriteObject =>
      var written := s.(objects := s.objects[put.oid := Object(put.size, put.repo)]);
      assert Claims(written) == c;
      ClaimsOnAnswer(s, p, Failed(KeyRejected));
      ClaimsOnAnswer(written, p, Found(put.oid, put.size, false));
  }

  lemma StepOnClaims(s: State, a: Action)
    ensures Claims(Step(s, a)) == Race.Step(Seen(s), SeenStep(s, a)).claims
  {
    if a.Advance? && a.p in s.puts {
      AdvanceOnClaims(s, a.p);
    } else {
      assert Claims(Step(s, a)) == Claims(s) - (if a.Crash? then a.dead else {});
    }
  }

  lemma StepIsRace(s: State, a: Action)
    requires NoEmptyOid(s)
    ensures Seen(Step(s, a)) == Race.Step(Seen(s), SeenStep(s, a))
  {
    StepOnSizes(s, a);
    StepOnClaims(s, a);
  }

  lemma {:induction false} RaceMatches(run: Run<Action>)
    ensures Seen(After(run)) == Race.After(RaceOf(run))
  {
    if run.Then? {
      RaceMatches(run.before);
      EmptyOidNeverStored(run.before);
      StepIsRace(After(run.before), run.action);
    }
  }

  /** Once registered, a size never changes. */
  ghost predicate SizesStay(run: Run<Action>) {
    run.Then? ==> SizesStay(run.before) && Race.KeepsSizes(Sizes(After(run.before)), Sizes(After(run)))
  }

  /** The transaction writes an object over one of another size. */
  predicate Overwrites(s: State, a: Action) {
    a.Advance? && a.p in s.puts && s.puts[a.p].phase == WriteObject &&
    s.puts[a.p].oid in s.objects && s.objects[s.puts[a.p].oid].size != s.puts[a.p].size
  }

  ghost predicate NeverOverwrites(run: Run<Action>) {
    run.Then? ==> NeverOverwrites(run.before) && !Overwrites(After(run.before), run.action)
  }

  lemma {:induction false} SameRace(run: Run<Action>)
    ensures SizesStay(run) <==> Race.SizesStay(RaceOf(run))
    ensures NeverOverwrites(run) <==> Race.NeverOverwrites(RaceOf(run))
  {
    RaceMatches(run);
    if run.Then? {
      SameRace(run.before);
      RaceMatches(run.before);
      EmptyOidNeverStored(run.before);
    }
  }

  /**
    First registration wins in a concurrent run, if and only if no transaction writes over an object of
    another size; that is, if and only if between the lookup and the write of a registration no other
    one writes the same oid with another size.
  */
  lemma FirstWinsExactly(run: Run<Action>)
    ensures SizesStay(run) <==> NeverOverwrites(run)
    ensures SizesStay(run) <==> Race.NeverDisputed(RaceOf(run))
  {
    SameRace(run);
    Race.SizesStayExactly(RaceOf(run));
    Race.DisputesExactly(RaceOf(run));
  }

  /** A registration answered as new was new, exactly if no other one wrote its oid since its lookup. */
  lemma NewIsTrueExactly(run: Run<Action>, p: Pid)
    requires p in After(run).puts && After(run).puts[p].phase == WriteObject && After(run).puts[p].oid != ""
    ensures var s, t, put := After(run), After(Then(run, Advance(p))), After(run).puts[p];
      p in t.answers && t.answers[p] == Found(put.oid, put.size, false) &&
      (put.oid !in s.objects <==> !Race.WrittenSince(RaceOf(run), p, put.oid))
  {
    RaceMatches(run);
    var s := After(run);
    assert Seen(s).claims[p] == Race.Claim(s.puts[p].oid, s.puts[p].size);
    Race.StillNewExactly(RaceOf(run), p);
  }

  /** Every answer given so far names the size that is registered now. */
  ghost predicate AnswersHold(s: State) {
    forall p :: p in s.answers && s.answers[p].Found? ==>
      s.answers[p].oid in s.objects && s.objects[s.answers[p].oid].size == s.answers[p].size
  }

  ghost predicate AnswersAlwaysHold(run: Run<Action>) {
    AnswersHold(After(run)) && (run.Then? ==> AnswersAlwaysHold(run.before))
  }

  ghost predicate AnsweredWith(s: State, p: Pid, oid: string, size: int) {
    p in s.answers && s.answers[p] == Found(oid, size, false)
  }

  /** Every object was announced by an answer, and no registration is answered while in flight. */
  ghost predicate Announced(s: State) {
    (forall p :: p in s.puts ==> p !in s.answers) &&
    forall oid :: oid in s.objects ==> exists p :: AnsweredWith(s, p, oid, s.objects[oid].size)
  }

  lemma StepAnnounces(s: State, a: Action)
    requires Announced(s)
    ensures Announced(Step(s, a))
  {
    var t := Step(s, a);
    forall oid | oid in t.objects
      ensures exists p :: AnsweredWith(t, p, oid, t.objects[oid].size)
    {
      if oid in s.objects && s.objects[oid] == t.objects[oid] {
        var p :| AnsweredWith(s, p, oid, s.objects[oid].size);
        assert AnsweredWith(t, p, oid, t.objects[oid].size);
      } else {
        assert AnsweredWith(t, a.p, oid, t.objects[oid].size);
      }
    }
  }

  lemma {:induction false} AlwaysAnnounced(run: Run<Action>)
    ensures Announced(After(run))
  {
    if run.Then? {
      AlwaysAnnounced(run.before);
      StepAnnounces(After(run.before), run.action);
    }
  }

  lemma StepHoldsExactly(s: State, a: Action)
    requires AnswersHold(s) && Announced(s) && NoEmptyOid(s)
    ensures AnswersHold(Step(s, a)) <==> !Overwrites(s, a)
  {
    var t := Step(s, a);
    if Overwrites(s, a) {
      var oid := s.puts[a.p].oid;
      var p :| AnsweredWith(s, p, oid, s.objects[oid].size);
      assert t.answers[p] == Found(oid, s.objects[oid].size, false);
    }
  }

  /** Seen from outside: every size ever told to a client stays the registered one, exactly in those runs. */
  lemma {:induction false} AnswersHoldExactly(run: Run<Action>)
    ensures AnswersAlwaysHold(run) <==> NeverOverwrites(run)
  {
    if run.Then? {
      AnswersHoldExactly(run.before);
      AlwaysAnnounced(run.before);
      EmptyOidNeverStored(run.before);
      if AnswersAlwaysHold(run.before) {
        StepHoldsExactly(After(run.before), run.action);
      }
    }
  }

  ghost predicate SameObjects(objects: map<string, Object>, b: map<string, MetaObject>) {
    (forall oid :: oid in objects <==> oid in b) &&
    (forall oid :: oid in objects ==> b[oid] == MetaObject(oid, objects[oid].size, [objects[oid].repo], false))
  }

  ghost predicate SameProjects(projects: map<string, seq<string>>, b: map<string, MetaProject>) {
    (forall repo :: repo in projects <==> repo in b) &&
    (forall repo :: repo in projects ==> repo != "" && b[repo] == MetaProject(repo, projects[repo]))
  }

  /** The state holds what the buckets of the sequential store hold. */
  ghost predicate SameBuckets(s: State, b: B.Buckets) {
    SameObjects(s.objects, b.objects) && SameProjects(s.projects, b.projects)
  }

  function StepsLeft(phase: Phase): nat {
    match phase case Lookup => 4 case FindProject => 3 case CreateProject => 2 case WriteObject => 1
  }

  /** The remaining transactions of a registration, with no other in between. */
  function Finish(s: State, p: Pid): State
    decreases if p in s.puts then StepsLeft(s.puts[p].phase) else 0
  {
    if p in s.puts then Finish(Step(s, Advance(p)), p) else s
  }

  /** The state after the last transaction, with the projects as an earlier one left them. */
  function Written(s: State, p: Pid, projects: map<string, seq<string>>): State
    requires p in s.puts
  {
    var put := s.puts[p];
    if put.oid == "" then Answer(s.(projects := projects), p, Failed(KeyRejected))
    else
      Answer(s.(projects := projects, objects := s.objects[put.oid := Object(put.size, put.repo)]), p,
             Found(put.oid, put.size, false))
  }

  lemma FinishWrite(s: State, p: Pid)
    requires p in s.puts && s.puts[p].phase == WriteObject
    ensures Finish(s, p) == Written(s, p, s.projects)
  {
  }

  lemma FinishCreate(s: State, p: Pid)
    requires p in s.puts && s.puts[p].phase == CreateProject
    ensures Finish(s, p) == Written(s, p, s.projects[s.puts[p].repo := [s.puts[p].oid]])
  {
    var put := s.puts[p];
    var t := Step(s, Advance(p));
    assert t == s.(projects := s.projects[put.repo := [put.oid]], puts := s.puts[p := put.(phase := WriteObject)]);
    assert t.puts - {p} == s.puts - {p};
    FinishWrite(t, p);
    assert Finish(s, p) == Finish(t, p);
  }

  lemma FinishFind(s: State, p: Pid)
    requires p in s.puts && s.puts[p].phase == FindProject
    ensures var put := s.puts[p];
      Finish(s, p) == Written(s, p, if put.repo in s.projects then s.projects else s.projects[put.repo := [put.oid]])
  {
    var t := Step(s, Advance(p));
    assert t.puts - {p} == s.puts - {p};
    if s.puts[p].repo in s.projects {
      FinishWrite(t, p);
    } else {
      FinishCreate(t, p);
    }
  }

  lemma FinishLookup(s: State, p: Pid)
    requires p in s.puts && s.puts[p].phase == Lookup && s.puts[p].oid !in s.objects
    ensures var put := s.puts[p];
      Finish(s, p) ==
      Written(s, p, if put.repo == "" || put.repo in s.projects then s.projects else s.projects[put.repo := [put.oid]])
  {
    var t := Step(s, Advance(p));
    if s.puts[p].repo == "" {
      FinishWrite(t, p);
    } else {
      FinishFind(t, p);
    }
    assert t.puts - {p} == s.puts - {p};
  }

  lemma WrittenMatches(s: State, b: B.Buckets, p: Pid, rv: RequestVars)
    requires SameBuckets(s, b)
    requires p in s.puts && s.puts[p] == InFlight(rv.oid, rv.size, rv.repo, Lookup)
    ensures var projects :=
        if rv.repo == "" || rv.repo in s.projects then s.projects else s.projects[rv.repo := [rv.oid]];
      SameBuckets(Written(s, p, projects), B.Register(b, rv))
  {
    var c := if rv.repo != "" then B.CreateProject(b, rv) else b;
    assert c.projects ==
      if rv.repo == "" || rv.repo in s.projects then b.projects
      else b.projects[rv.repo := MetaProject(rv.repo, [rv.oid])];
  }

  lemma UndisturbedKnown(cfg: Config, s: State, b: B.Buckets, p: Pid, rv: RequestVars)
    requires SameBuckets(s, b) && p !in s.puts && p !in s.answers && Authenticate(cfg, b.users, rv.authorization)
    requires rv.oid in s.objects
    ensures Finish(Step(s, Begin(p, rv.oid, rv.size, rv.repo)), p) ==
      s.(answers := s.answers[p := ReplyOf(B.Put(cfg, b, rv))])
  {
    var begun := Step(s, Begin(p, rv.oid, rv.size, rv.repo));
    assert begun.puts - {p} == s.puts;
    assert Finish(begun, p) == Step(begun, Advance(p));
  }

  lemma UndisturbedNew(cfg: Config, s: State, b: B.Buckets, p: Pid, rv: RequestVars)
    requires SameBuckets(s, b) && p !in s.puts && p !in s.answers && Authenticate(cfg, b.users, rv.authorization)
    requires rv.oid !in s.objects
    ensures var t := Finish(Step(s, Begin(p, rv.oid, rv.size, rv.repo)), p);
      SameBuckets(t, B.Register(b, rv)) && t.puts == s.puts &&
      t.answers == s.answers[p := ReplyOf(B.Put(cfg, b, rv))]
  {
    var begun := Step(s, Begin(p, rv.oid, rv.size, rv.repo));
    assert begun.puts - {p} == s.puts;
    FinishLookup(begun, p);
    WrittenMatches(begun, b, p, rv);
  }

  /** Undisturbed, the transactions of a registration do what the sequential store does in one call. */
  lemma UndisturbedIsSequential(cfg: Config, s: State, b: B.Buckets, p: Pid, rv: RequestVars)
    requires SameBuckets(s, b) && p !in s.puts && p !in s.answers && Authenticate(cfg, b.users, rv.authorization)
    ensures var t := Finish(Step(s, Begin(p, rv.oid, rv.size, rv.repo)), p);
      SameBuckets(t, B.BucketsAfterPut(cfg, b, rv)) && t.puts == s.puts &&
      t.answers == s.answers[p := ReplyOf(B.Put(cfg, b, rv))]
  {
    var begun := Step(s, Begin(p, rv.oid, rv.size, rv.repo));
    assert begun.puts - {p} == s.puts;
    if rv.oid in s.objects {
      UndisturbedKnown(cfg, s, b, p, rv);
    } else {
      UndisturbedNew(cfg, s, b, p, rv);
    }
  }
}
