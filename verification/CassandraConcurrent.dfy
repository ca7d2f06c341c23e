/**
  Authorised registrations in a Cassandra store running side by side, one statement at a time, with
  crashes in between.
*/
module CassandraConcurrent {
  import opened Common
  import opened BasicAuth
  import opened MetaTypes
  import C = CassandraStore
  import Race = RegistrationRace

  type Pid = nat

  /** The statement a registration runs next. */
  datatype Phase = SelectOid | InsertOid | SelectProject | CountProject | InsertProject | UpdateProject
  datatype InFlight = InFlight(oid: string, size: int, repo: string, phase: Phase)

  /** An answer, with the repository the registration named. */
  datatype Answer = Answer(repo: string, reply: Reply)

  datatype State = State(
    oids: map<string, int>,
    projects: map<string, set<string>>,
    puts: map<Pid, InFlight>,
    answers: map<Pid, Answer>)

  const EMPTY := State(map[], map[], map[], map[])

  datatype Action = Begin(p: Pid, oid: string, size: int, repo: string) | Advance(p: Pid) | Crash(dead: set<Pid>)

  function Return(s: State, p: Pid, reply: Reply): State
    requires p in s.puts
  {
    s.(puts := s.puts - {p}, answers := s.answers[p := Answer(s.puts[p].repo, reply)])
  }

  function Goto(s: State, p: Pid, phase: Phase): State
    requires p in s.puts
  {
    s.(puts := s.puts[p := s.puts[p].(phase := phase)])
  }

  /** One statement of one registration. */
  function Execute(s: State, p: Pid): State
    requires p in s.puts
  {
    var put := s.puts[p];
    match put.phase
    case SelectOid =>
      if put.oid in s.oids then Return(s, p, Found(put.oid, s.oids[put.oid], true)) else Goto(s, p, InsertOid)
    case InsertOid =>
      if put.oid == "" then Return(s, p, Failed(Panicked))
      else
        var t := s.(oids := s.oids[put.oid := put.size]);
        if put.repo == "" then Return(t, p, Found(put.oid, put.size, false)) else Goto(t, p, SelectProject)
    case SelectProject =>
      Goto(s, p, if put.repo in s.projects then UpdateProject else CountProject)
    case CountProject =>
      Goto(s, p, if put.repo in s.projects then UpdateProject else InsertProject)
    case InsertProject =>
      Goto(s.(projects := if put.repo in s.projects then s.projects else s.projects[put.repo := {}]), p, UpdateProject)
    case UpdateProject =>
      Return(s.(projects := C.WithOid(s.projects, put.repo, put.oid)), p, Found(put.oid, put.size, false))
  }

  function Step(s: State, a: Action): State {
    match a
    case Begin(p, oid, size, repo) =>
      if p in s.puts || p in s.answers then s else s.(puts := s.puts[p := InFlight(oid, size, repo, SelectOid)])
    case Advance(p) => if p in s.puts then Execute(s, p) else s
    case Crash(dead) => s.(puts := s.puts - dead)
  }

  function After(run: Run<Action>): State {
    match run
    case Start => EMPTY
    case Then(before, a) => Step(After(before), a)
  }

  ghost predicate Inserted(put: InFlight) {
    put.phase != SelectOid && put.phase != InsertOid
  }

  /** Each oid a project lists, or is about to, has its row. */
  ghost predicate ListedHaveRows(s: State) {
    (forall repo :: repo in s.projects ==> s.projects[repo] <= s.oids.Keys) &&
    (forall p :: p in s.puts && Inserted(s.puts[p]) ==> s.puts[p].oid in s.oids)
  }

  ghost predicate IsListed(s: State, repo: string, oid: string) {
    repo in s.projects && oid in s.projects[repo]
  }

  /** Each registration answered as new is listed in the repository it named. */
  ghost predicate NewAreListed(s: State) {
    forall p :: p in s.answers && s.answers[p].repo != "" &&
                s.answers[p].reply.Found? && !s.answers[p].reply.existing ==>
      IsListed(s, s.answers[p].repo, s.answers[p].reply.oid)
  }

  /** No statement takes an oid out of a table or out of a project. */
  lemma TablesOnlyGrow(s: State, a: Action)
    ensures s.oids.Keys <= Step(s, a).oids.Keys
    ensures forall repo, oid :: IsListed(s, repo, oid) ==> IsListed(Step(s, a), repo, oid)
  {
  }

  lemma StepKeepsRows(s: State, a: Action)
    requires ListedHaveRows(s)
    ensures ListedHaveRows(Step(s, a))
  {
  }

  lemma StepKeepsListed(s: State, a: Action)
    requires NewAreListed(s)
    ensures NewAreListed(Step(s, a))
  {
    TablesOnlyGrow(s, a);
  }

  /** At every step of every run, with crashes anywhere: a listed oid has a row, and a new registration is listed. */
  lemma {:induction false} RowsComeFirst(run: Run<Action>)
    ensures ListedHaveRows(After(run)) && NewAreListed(After(run))
  {
    if run.Then? {
      RowsComeFirst(run.before);
      StepKeepsRows(After(run.before), run.action);
      StepKeepsListed(After(run.before), run.action);
    }
  }

  /** The step adds the oid to the project, for a registration that named it. */
  predicate ListsNow(s: State, a: Action, repo: string, oid: string) {
    a.Advance? && a.p in s.puts && s.puts[a.p].phase == UpdateProject &&
    s.puts[a.p].repo == repo && s.puts[a.p].oid == oid
  }

  ghost predicate EverListed(run: Run<Action>, repo: string, oid: string) {
    run.Then? && (EverListed(run.before, repo, oid) || ListsNow(After(run.before), run.action, repo, oid))
  }

  lemma StepLists(s: State, a: Action, repo: string, oid: string)
    ensures IsListed(Step(s, a), repo, oid) <==> IsListed(s, repo, oid) || ListsNow(s, a, repo, oid)
  {
  }

  /** Some registration of the run was of this oid, naming this repository. */
  ghost predicate Began(run: Run<Action>, repo: string, oid: string) {
    run.Then? && (Began(run.before, repo, oid) ||
      (run.action.Begin? && run.action.oid == oid && run.action.repo == repo))
  }

  lemma SameRegistration(s: State, a: Action, p: Pid)
    requires p in s.puts && p in Step(s, a).puts
    ensures Step(s, a).puts[p].repo == s.puts[p].repo && Step(s, a).puts[p].oid == s.puts[p].oid
  {
  }

  lemma {:induction false} InFlightBegan(run: Run<Action>, p: Pid)
    requires p in After(run).puts
    ensures Began(run, After(run).puts[p].repo, After(run).puts[p].oid)
  {
    var s := After(run.before);
    if p in s.puts {
      InFlightBegan(run.before, p);
      SameRegistration(s, run.action, p);
    }
  }

  /**
    In every interleaving a project lists exactly the oids that some registration added to it, and each
    of them was registered by one that named this oid and this repository.
  */
  lemma {:induction false} ListedExactly(run: Run<Action>, repo: string, oid: string)
    ensures IsListed(After(run), repo, oid) <==> EverListed(run, repo, oid)
    ensures IsListed(After(run), repo, oid) ==> Began(run, repo, oid)
  {
    if run.Then? {
      var s := After(run.before);
      ListedExactly(run.before, repo, oid);
      StepLists(s, run.action, repo, oid);
      if ListsNow(s, run.action, repo, oid) {
        InFlightBegan(run.before, run.action.p);
      }
    }
  }

  /** An oid once listed in a project is listed there for the rest of the run. */
  lemma {:induction false} ListedForGood(earlier: Run<Action>, later: Run<Action>, repo: string, oid: string)
    requires Within(earlier, later) && IsListed(After(earlier), repo, oid)
    ensures IsListed(After(later), repo, oid) && oid in After(later).oids
  {
    RowsComeFirst(later);
    if earlier != later {
      ListedForGood(earlier, later.before, repo, oid);
      TablesOnlyGrow(After(later.before), later.action);
    }
  }

  /** A registration answered as new in a repository stays listed there, and registered, for the rest of the run. */
  lemma NewStaysListed(earlier: Run<Action>, later: Run<Action>, p: Pid)
    requires Within(earlier, later) && p in After(earlier).answers
    requires var a := After(earlier).answers[p]; a.repo != "" && a.reply.Found? && !a.reply.existing
    ensures var a := After(earlier).answers[p];
      IsListed(After(later), a.repo, a.reply.oid) && a.reply.oid in After(later).oids
  {
    RowsComeFirst(earlier);
    ListedForGood(earlier, later, After(earlier).answers[p].repo, After(earlier).answers[p].reply.oid);
  }

  function Claims(s: State): map<Pid, Race.Claim> {
    map p | p in s.puts && s.puts[p].phase == InsertOid :: Race.Claim(s.puts[p].oid, s.puts[p].size)
  }

  /** The state as the race for oids sees it: the sizes, and the registrations between their select and their insert. */
  function Seen(s: State): Race.State {
    Race.State(s.oids, Claims(s))
  }

  function SeenStep(s: State, a: Action): Race.Action {
    match a
    case Begin(_, _, _, _) => Race.Drop({})
    case Crash(dead) => Race.Drop(dead)
    case Advance(p) =>
      if p !in s.puts then Race.Drop({})
      else match s.puts[p].phase
        case SelectOid => Race.LookUp(p, Race.Claim(s.puts[p].oid, s.puts[p].size))
        case InsertOid => if s.puts[p].oid == "" then Race.Drop({p}) else Race.Write(p)
        case _ => Race.Drop({})
  }

  /** The lookups and writes of a run. */
  function RaceOf(run: Run<Action>): Run<Race.Action> {
    match run
    case Start => Start
    case Then(before, a) => Then(RaceOf(before), SeenStep(After(before), a))
  }

  lemma ClaimsOnReturn(s: State, p: Pid, reply: Reply)
    requires p in s.puts
    ensures Claims(Return(s, p, reply)) == Claims(s) - {p}
  {
  }

  lemma ClaimsOnGoto(s: State, p: Pid, phase: Phase)
    requires p in s.puts
    ensures Claims(Goto(s, p, phase)) ==
      if phase == InsertOid then Claims(s)[p := Race.Claim(s.puts[p].oid, s.puts[p].size)] else Claims(s) - {p}
  {
  }

  lemma ExecuteIsRace(s: State, p: Pid)
    requires p in s.puts
    ensures Seen(Execute(s, p)) == Race.Step(Seen(s), SeenStep(s, Advance(p)))
  {
    var put, c := s.puts[p], Claims(s);
    assert p in c <==> put.phase == InsertOid;
    assert put.phase != InsertOid ==> c - {p} == c;
    match put.phase
    case SelectOid =>
      if put.oid in s.oids {
        ClaimsOnReturn(s, p, Found(put.oid, s.oids[put.oid], true));
      } else {
        ClaimsOnGoto(s, p, InsertOid);
      }
    case InsertOid =>
      var t := s.(oids := s.oids[put.oid := put.size]);
      assert Claims(t) == c;
      ClaimsOnReturn(s, p, Failed(Panicked));
      ClaimsOnReturn(t, p, Found(put.oid, put.size, false));
      ClaimsOnGoto(t, p, SelectProject);
    case SelectProject =>
      ClaimsOnGoto(s, p, if put.repo in s.projects then UpdateProject else CountProject);
    case CountProject =>
      ClaimsOnGoto(s, p, if put.repo in s.projects then UpdateProject else InsertProject);
    case InsertProject =>
      var t := s.(projects := if put.repo in s.projects then s.projects else s.projects[put.repo := {}]);
      assert Claims(t) == c;
      ClaimsOnGoto(t, p, UpdateProject);
    case UpdateProject =>
      var t := s.(projects := C.WithOid(s.projects, put.repo, put.oid));
      assert Claims(t) == c;
      ClaimsOnReturn(t, p, Found(put.oid, put.size, false));
  }

  lemma StepIsRace(s: State, a: Action)
    ensures Seen(Step(s, a)) == Race.Step(Seen(s), SeenStep(s, a))
  {
    if a.Advance? && a.p in s.puts {
      ExecuteIsRace(s, a.p);
    } else {
      assert Claims(Step(s, a)) == Claims(s) - (if a.Crash? then a.dead else {});
    }
  }

  lemma {:induction false} RaceMatches(run: Run<Action>)
    ensures Seen(After(run)) == Race.After(RaceOf(run))
  {
    if run.Then? {
      RaceMatches(run.before);
      StepIsRace(After(run.before), run.action);
    }
  }

  /** Once registered, a size never changes. */
  ghost predicate SizesStay(run: Run<Action>) {
    run.Then? ==> SizesStay(run.before) && Race.KeepsSizes(After(run.before).oids, After(run).oids)
  }

  /** The insert replaces a row of another size, as inserts in Cassandra do. */
  predicate Overwrites(s: State, a: Action) {
    a.Advance? && a.p in s.puts && s.puts[a.p].phase == InsertOid && s.puts[a.p].oid != "" &&
    s.puts[a.p].oid in s.oids && s.oids[s.puts[a.p].oid] != s.puts[a.p].size
  }

  ghost predicate NeverOverwrites(run: Run<Action>) {
    run.Then? ==> NeverOverwrites(run.before) && !Overwrites(After(run.before), run.action)
  }

  lemma SameOverwrite(s: State, a: Action)
    ensures Overwrites(s, a) <==> Race.Overwrites(Seen(s), SeenStep(s, a))
  {
    if a.Advance? && a.p in s.puts && s.puts[a.p].phase == InsertOid {
      assert Claims(s)[a.p] == Race.Claim(s.puts[a.p].oid, s.puts[a.p].size);
    }
  }

  lemma {:induction false} SameRace(run: Run<Action>)
    ensures SizesStay(run) <==> Race.SizesStay(RaceOf(run))
    ensures NeverOverwrites(run) <==> Race.NeverOverwrites(RaceOf(run))
  {
    RaceMatches(run);
    if run.Then? {
      SameRace(run.before);
      RaceMatches(run.before);
      SameOverwrite(After(run.before), run.action);
    }
  }

  /**
    First registration wins in a concurrent run, if and only if no insert replaces a row of another
    size; that is, if and only if between the select and the insert of a registration no other one
    inserts the same oid with another size.
  */
  lemma FirstWinsExactly(run: Run<Action>)
    ensures SizesStay(run) <==> NeverOverwrites(run)
    ensures SizesStay(run) <==> Race.NeverDisputed(RaceOf(run))
  {
    SameRace(run);
    Race.SizesStayExactly(RaceOf(run));
    Race.DisputesExactly(RaceOf(run));
  }

  /** A registration that inserts its oid as new finds it new, exactly if no other one inserted it since its select. */
  lemma NewIsTrueExactly(run: Run<Action>, p: Pid)
    requires p in After(run).puts && After(run).puts[p].phase == InsertOid
    ensures var s, put := After(run), After(run).puts[p];
      put.oid !in s.oids <==> !Race.WrittenSince(RaceOf(run), p, put.oid)
  {
    RaceMatches(run);
    var s := After(run);
    assert Seen(s).claims[p] == Race.Claim(s.puts[p].oid, s.puts[p].size);
    Race.StillNewExactly(RaceOf(run), p);
  }

  predicate HasRow(s: State, oid: string, size: int) {
    oid in s.oids && s.oids[oid] == size
  }

  ghost predicate ToldHold(s: State) {
    forall p :: p in s.answers && s.answers[p].reply.Found? ==>
      HasRow(s, s.answers[p].reply.oid, s.answers[p].reply.size)
  }

  ghost predicate InsertedHold(s: State) {
    forall p :: p in s.puts && Inserted(s.puts[p]) ==> HasRow(s, s.puts[p].oid, s.puts[p].size)
  }

  /** Every size told to a client, or about to be by a registration past its insert, is the one in the table. */
  ghost predicate AnswersHold(s: State) {
    ToldHold(s) && InsertedHold(s)
  }

  lemma RowsStay(s: State, a: Action)
    requires !Overwrites(s, a)
    ensures forall oid, size :: HasRow(s, oid, size) ==> HasRow(Step(s, a), oid, size)
  {
  }

  lemma InsertedStays(s: State, a: Action)
    requires AnswersHold(s) && !Overwrites(s, a)
    ensures InsertedHold(Step(s, a))
  {
    RowsStay(s, a);
  }

  lemma ToldStays(s: State, a: Action)
    requires AnswersHold(s) && !Overwrites(s, a)
    ensures ToldHold(Step(s, a))
  {
    var t := Step(s, a);
    RowsStay(s, a);
    forall p | p in t.answers && t.answers[p].reply.Found?
      ensures HasRow(t, t.answers[p].reply.oid, t.answers[p].reply.size)
    {
      if p in s.answers && s.answers[p] == t.answers[p] {
        assert HasRow(s, s.answers[p].reply.oid, s.answers[p].reply.size);
      }
    }
  }

  /** The step replaces a row whose size some client was told. */
  ghost predicate ReplacesTold(s: State, a: Action) {
    a.Advance? && a.p in s.puts && s.puts[a.p].phase == InsertOid && s.puts[a.p].oid != "" &&
    exists p :: p in s.answers && s.answers[p].reply.Found? &&
      s.answers[p].reply.oid == s.puts[a.p].oid && s.answers[p].reply.size != s.puts[a.p].size
  }

  /** The step ends a registration whose row has been replaced since it inserted it. */
  predicate TellsReplaced(s: State, a: Action) {
    a.Advance? && a.p in s.puts && s.puts[a.p].phase == UpdateProject && !HasRow(s, s.puts[a.p].oid, s.puts[a.p].size)
  }

  ghost predicate NeverMisleads(run: Run<Action>) {
    run.Then? ==>
      NeverMisleads(run.before) &&
      !ReplacesTold(After(run.before), run.action) && !TellsReplaced(After(run.before), run.action)
  }

  ghost predicate ToldAlwaysHold(run: Run<Action>) {
    ToldHold(After(run)) && (run.Then? ==> ToldAlwaysHold(run.before))
  }

  /** No registration in flight has been answered. */
  ghost predicate AnsweredAreDone(s: State) {
    forall p :: p in s.puts ==> p !in s.answers
  }

  lemma {:induction false} AlwaysDone(run: Run<Action>)
    ensures AnsweredAreDone(After(run))
  {
    if run.Then? { AlwaysDone(run.before); }
  }

  lemma MisleadingShows(s: State, a: Action)
    requires ToldHold(s) && AnsweredAreDone(s) && (ReplacesTold(s, a) || TellsReplaced(s, a))
    ensures !ToldHold(Step(s, a))
  {
    var t := Step(s, a);
    if ReplacesTold(s, a) {
      var p :| p in s.answers && s.answers[p].reply.Found? &&
        s.answers[p].reply.oid == s.puts[a.p].oid && s.answers[p].reply.size != s.puts[a.p].size;
      assert t.answers[p] == s.answers[p] && !HasRow(t, s.answers[p].reply.oid, s.answers[p].reply.size);
    } else {
      assert t.answers[a.p].reply == Found(s.puts[a.p].oid, s.puts[a.p].size, false);
    }
  }

  lemma HonestStepHolds(s: State, a: Action)
    requires ToldHold(s) && !ReplacesTold(s, a) && !TellsReplaced(s, a)
    ensures ToldHold(Step(s, a))
  {
    var t := Step(s, a);
    forall p | p in t.answers && t.answers[p].reply.Found?
      ensures HasRow(t, t.answers[p].reply.oid, t.answers[p].reply.size)
    {
      if p in s.answers && s.answers[p] == t.answers[p] {
        assert HasRow(s, s.answers[p].reply.oid, s.answers[p].reply.size);
      } else {
        assert a.Advance? && a.p == p && p in s.puts;
      }
    }
  }

  /**
    Every size ever told to a client stays the one in the table, if and only if no insert replaces a
    row whose size was told, and no registration tells its size after its own row was replaced.
  */
  lemma {:induction false} ToldHoldExactly(run: Run<Action>)
    ensures ToldAlwaysHold(run) <==> NeverMisleads(run)
  {
    if run.Then? {
      var s := After(run.before);
      ToldHoldExactly(run.before);
      AlwaysDone(run.before);
      if ToldAlwaysHold(run.before) {
        if ReplacesTold(s, run.action) || TellsReplaced(s, run.action) {
          MisleadingShows(s, run.action);
        } else {
          HonestStepHolds(s, run.action);
        }
      }
    }
  }

  /** A run without overwriting inserts is one of those. */
  lemma {:induction false} AnswersStayTrue(run: Run<Action>)
    requires NeverOverwrites(run)
    ensures AnswersHold(After(run)) && ToldAlwaysHold(run) && NeverMisleads(run)
  {
    ToldHoldExactly(run);
    if run.Then? {
      AnswersStayTrue(run.before);
      InsertedStays(After(run.before), run.action);
      ToldStays(After(run.before), run.action);
    }
  }

  /** Two registrations that both select before either inserts are both told they are new, and the later size stays. */
  lemma RaceReplacesSize(oid: string, size: int, other: int)
    requires oid != "" && size != other
    ensures var begun := Then(Then(Start, Begin(0, oid, size, "")), Begin(1, oid, other, ""));
      var both := Then(Then(begun, Advance(0)), Advance(1));
      var first := Then(both, Advance(0));
      var last := Then(first, Advance(1));
      After(first).oids == map[oid := size] && After(last).oids == map[oid := other] &&
      After(last).answers == map[0 := Answer("", Found(oid, size, false)), 1 := Answer("", Found(oid, other, false))]
  {
    var r1 := Then(Start, Begin(0, oid, size, ""));
    var r2 := Then(r1, Begin(1, oid, other, ""));
    var r3 := Then(r2, Advance(0));
    var both := Then(r3, Advance(1));
    var first := Then(both, Advance(0));
    assert After(r1) == Step(EMPTY, r1.action);
    assert After(r2).puts == map[0 := InFlight(oid, size, "", SelectOid), 1 := InFlight(oid, other, "", SelectOid)];
    assert After(r3).puts == map[0 := InFlight(oid, size, "", InsertOid), 1 := InFlight(oid, other, "", SelectOid)];
    assert After(both).puts == map[0 := InFlight(oid, size, "", InsertOid), 1 := InFlight(oid, other, "", InsertOid)];
    assert After(both).oids == map[] && After(both).answers == map[];
    assert After(first).puts[1] == InFlight(oid, other, "", InsertOid);
    assert After(first).answers == map[0 := Answer("", Found(oid, size, false))];
  }

  function StepsLeft(phase: Phase): nat {
    match phase
    case SelectOid => 6 case InsertOid => 5 case SelectProject => 4
    case CountProject => 3 case InsertProject => 2 case UpdateProject => 1
  }

  /** The remaining statements of a registration, with no other in between. */
  function Finish(s: State, p: Pid): State
    decreases if p in s.puts then StepsLeft(s.puts[p].phase) else 0
  {
    if p in s.puts then Finish(Step(s, Advance(p)), p) else s
  }

  function Listing(s: State, p: Pid): State
    requires p in s.puts
  {
    var put := s.puts[p];
    Return(s.(projects := C.WithOid(s.projects, put.repo, put.oid)), p, Found(put.oid, put.size, false))
  }

  lemma FinishUpdate(s: State, p: Pid)
    requires p in s.puts && s.puts[p].phase == UpdateProject
    ensures Finish(s, p) == Listing(s, p)
  {
  }

  lemma FinishInsertProject(s: State, p: Pid)
    requires p in s.puts && s.puts[p].phase == InsertProject
    ensures Finish(s, p) == Listing(s, p)
  {
    var t := Step(s, Advance(p));
    FinishUpdate(t, p);
    assert t.puts - {p} == s.puts - {p};
    assert C.WithOid(t.projects, s.puts[p].repo, s.puts[p].oid) == C.WithOid(s.projects, s.puts[p].repo, s.puts[p].oid);
  }

  lemma FinishCount(s: State, p: Pid)
    requires p in s.puts && s.puts[p].phase == CountProject
    ensures Finish(s, p) == Listing(s, p)
  {
    var t := Step(s, Advance(p));
    if t.puts[p].phase == UpdateProject { FinishUpdate(t, p); } else { FinishInsertProject(t, p); }
    assert t.puts - {p} == s.puts - {p};
  }

  lemma FinishSelect(s: State, p: Pid)
    requires p in s.puts && s.puts[p].phase == SelectProject
    ensures Finish(s, p) == Listing(s, p)
  {
    var t := Step(s, Advance(p));
    if t.puts[p].phase == UpdateProject { FinishUpdate(t, p); } else { FinishCount(t, p); }
    assert t.puts - {p} == s.puts - {p};
  }

  lemma FinishInsertOid(s: State, p: Pid)
    requires p in s.puts && s.puts[p].phase == InsertOid
    ensures var put := s.puts[p];
      var stored := s.(oids := s.oids[put.oid := put.size]);
      Finish(s, p) ==
      if put.oid == "" then Return(s, p, Failed(Panicked))
      else if put.repo == "" then Return(stored, p, Found(put.oid, put.size, false))
      else Listing(stored, p)
  {
    var t := Step(s, Advance(p));
    if s.puts[p].oid != "" && s.puts[p].repo != "" {
      assert t == Goto(s.(oids := s.oids[s.puts[p].oid := s.puts[p].size]), p, SelectProject);
      assert t.puts - {p} == s.puts - {p};
      FinishSelect(t, p);
    } else {
      assert Finish(s, p) == t;
    }
  }

  lemma UndisturbedNew(cfg: Config, s: State, t: C.Tables, p: Pid, rv: RequestVars)
    requires s.oids == t.oids && s.projects == t.projects && "" !in s.oids && rv.oid !in s.oids
    requires p !in s.puts && p !in s.answers && Authenticate(cfg, t.users, rv.authorization)
    ensures var u, v := Finish(Step(s, Begin(p, rv.oid, rv.size, rv.repo)), p), C.TablesAfterPut(cfg, t, rv);
      u.oids == v.oids && u.projects == v.projects && u.puts == s.puts &&
      u.answers == s.answers[p := Answer(rv.repo, ReplyOf(C.Put(cfg, t, rv)))]
  {
    var begun := Step(s, Begin(p, rv.oid, rv.size, rv.repo));
    var looked := Step(begun, Advance(p));
    assert looked == s.(puts := s.puts[p := InFlight(rv.oid, rv.size, rv.repo, InsertOid)]);
    assert looked.puts - {p} == s.puts;
    FinishInsertOid(looked, p);
  }

  /** Undisturbed, the statements of a registration do what the sequential store does in one call. */
  lemma UndisturbedIsSequential(cfg: Config, s: State, t: C.Tables, p: Pid, rv: RequestVars)
    requires s.oids == t.oids && s.projects == t.projects && "" !in s.oids
    requires p !in s.puts && p !in s.answers && Authenticate(cfg, t.users, rv.authorization)
    ensures var u, v := Finish(Step(s, Begin(p, rv.oid, rv.size, rv.repo)), p), C.TablesAfterPut(cfg, t, rv);
      u.oids == v.oids && u.projects == v.projects && u.puts == s.puts &&
      u.answers == s.answers[p := Answer(rv.repo, ReplyOf(C.Put(cfg, t, rv)))]
  {
    var begun := Step(s, Begin(p, rv.oid, rv.size, rv.repo));
    if rv.oid in s.oids {
      assert begun.puts - {p} == s.puts;
      assert Finish(begun, p) == Step(begun, Advance(p));
    } else {
      UndisturbedNew(cfg, s, t, p, rv);
    }
  }
}
