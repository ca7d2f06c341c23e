/**
  Admitted registrations in a MySQL store running side by side, one statement at a time, with projects
  being added and crashes in between. The table of oids has a key, the table of mappings has none.
*/
module MySQLConcurrent {
  import opened Common
  import opened BasicAuth
  import opened MetaTypes
  import M = MySQLStore

  type Pid = nat

  /** The statement a registration runs next; `InsertMap` carries the project id read before it. */
  datatype Phase = SelectOid | InsertOid | FindProject | SelectId | InsertMap(id: nat)
  datatype InFlight = InFlight(oid: string, size: int, repo: string, phase: Phase)

  datatype State = State(
    oids: map<string, int>,
    projects: map<string, nat>,
    maps: seq<M.Mapping>,
    nextId: nat,
    puts: map<Pid, InFlight>,
    answers: map<Pid, Reply>)

  const EMPTY := State(map[], map[], [], 1, map[], map[])

  datatype Action =
    | Begin(p: Pid, oid: string, size: int, repo: string)
    | Advance(p: Pid)
    | AddProject(name: string)
    | Crash(dead: set<Pid>)

  function Answer(s: State, p: Pid, reply: Reply): State {
    s.(puts := s.puts - {p}, answers := s.answers[p := reply])
  }

  function Goto(s: State, p: Pid, phase: Phase): State
    requires p in s.puts
  {
    s.(puts := s.puts[p := s.puts[p].(phase := phase)])
  }

  function WithRow(s: State, oid: string, size: int): State {
    if oid in s.oids then s else s.(oids := s.oids[oid := size])
  }

  /** One statement of one registration. A second insert of an oid is refused and only logged. */
  function Execute(s: State, p: Pid): State
    requires p in s.puts
  {
    var put := s.puts[p];
    match put.phase
    case SelectOid =>
      if put.oid in s.oids && put.oid != "" then Answer(s, p, Found(put.oid, s.oids[put.oid], true))
      else Goto(s, p, InsertOid)
    case InsertOid =>
      var t := WithRow(s, put.oid, put.size);
      if put.repo == "" then Answer(t, p, Found(put.oid, put.size, false)) else Goto(t, p, FindProject)
    case FindProject =>
      if put.repo in s.projects then Goto(s, p, SelectId) else Answer(s, p, Failed(ProjectNotFound))
    case SelectId =>
      Goto(s, p, InsertMap(if put.repo in s.projects then s.projects[put.repo] else 0))
    case InsertMap(id) =>
      Answer(s.(maps := s.maps + [M.Mapping(put.oid, id)]), p, Found(put.oid, put.size, false))
  }

  function Step(s: State, a: Action): State {
    match a
    case Begin(p, oid, size, repo) =>
      if p in s.puts || p in s.answers then s else s.(puts := s.puts[p := InFlight(oid, size, repo, SelectOid)])
    case Advance(p) => if p in s.puts then Execute(s, p) else s
    case AddProject(name) =>
      if name in s.projects then s else s.(projects := s.projects[name := s.nextId], nextId := s.nextId + 1)
    case Crash(dead) => s.(puts := s.puts - dead)
  }

  function After(run: Run<Action>): State {
    match run
    case Start => EMPTY
    case Then(before, a) => Step(After(before), a)
  }

  lemma StepKeepsRows(s: State, a: Action)
    ensures forall oid :: oid in s.oids ==> oid in Step(s, a).oids && Step(s, a).oids[oid] == s.oids[oid]
  {
  }

  /** Once registered, a size never changes: in every interleaving, without any condition. */
  lemma {:induction false} SizesNeverChange(earlier: Run<Action>, later: Run<Action>, oid: string)
    requires Within(earlier, later) && oid in After(earlier).oids
    ensures oid in After(later).oids && After(later).oids[oid] == After(earlier).oids[oid]
  {
    if earlier != later {
      SizesNeverChange(earlier, later.before, oid);
      StepKeepsRows(After(later.before), later.action);
    }
  }

  /** The registration has run its insert. */
  predicate Inserted(put: InFlight) {
    put.phase != SelectOid && put.phase != InsertOid
  }

  /** Every mapping names an oid with a row, and every registration about to map one has its row. */
  ghost predicate MappedHaveRows(s: State) {
    (forall i :: 0 <= i < |s.maps| ==> s.maps[i].oid in s.oids) &&
    (forall p :: p in s.puts && Inserted(s.puts[p]) ==> s.puts[p].oid in s.oids)
  }

  ghost predicate IsId(s: State, id: nat) {
    exists name :: name in s.projects && s.projects[name] == id
  }

  /** Every mapping names the id of a project, and so does every registration that has read one. */
  ghost predicate MappedHaveProjects(s: State) {
    (forall i :: 0 <= i < |s.maps| ==> IsId(s, s.maps[i].project)) &&
    (forall p :: p in s.puts && s.puts[p].phase == SelectId ==> s.puts[p].repo in s.projects) &&
    (forall p :: p in s.puts && s.puts[p].phase.InsertMap? ==> IsId(s, s.puts[p].phase.id))
  }

  lemma StepKeepsIds(s: State, a: Action, id: nat)
    requires IsId(s, id)
    ensures IsId(Step(s, a), id)
  {
    var name :| name in s.projects && s.projects[name] == id;
    assert Step(s, a).projects[name] == id;
  }

  lemma StepKeepsMappedRows(s: State, a: Action)
    requires MappedHaveRows(s)
    ensures MappedHaveRows(Step(s, a))
  {
    StepKeepsRows(s, a);
  }

  lemma MappingKeepsId(s: State, a: Action, i: int)
    requires MappedHaveProjects(s) && 0 <= i < |Step(s, a).maps|
    ensures IsId(Step(s, a), Step(s, a).maps[i].project)
  {
    if i < |s.maps| {
      StepKeepsIds(s, a, s.maps[i].project);
    } else {
      StepKeepsIds(s, a, s.puts[a.p].phase.id);
    }
  }

  /** A step leaves the registrations alone that it is not a step of. */
  lemma OthersUnmoved(s: State, a: Action, p: Pid)
    requires a != Advance(p) && p in Step(s, a).puts
    ensures if p in s.puts then Step(s, a).puts[p] == s.puts[p] else Step(s, a).puts[p].phase == SelectOid
  {
  }

  lemma ReadIdExists(s: State, a: Action, p: Pid)
    requires MappedHaveProjects(s) && p in Step(s, a).puts && Step(s, a).puts[p].phase.InsertMap?
    ensures IsId(Step(s, a), Step(s, a).puts[p].phase.id)
  {
    var t := Step(s, a);
    if a == Advance(p) {
      assert s.puts[p].phase == SelectId && t.projects[s.puts[p].repo] == t.puts[p].phase.id;
    } else {
      OthersUnmoved(s, a, p);
      StepKeepsIds(s, a, s.puts[p].phase.id);
    }
  }

  lemma SelectorsKnow(s: State, a: Action)
    requires MappedHaveProjects(s)
    ensures var t := Step(s, a);
      forall p :: p in t.puts && t.puts[p].phase == SelectId ==> t.puts[p].repo in t.projects
  {
  }

  lemma StepKeepsMappedProjects(s: State, a: Action)
    requires MappedHaveProjects(s)
    ensures MappedHaveProjects(Step(s, a))
  {
    var t := Step(s, a);
    forall i | 0 <= i < |t.maps|
      ensures IsId(t, t.maps[i].project)
    {
      MappingKeepsId(s, a, i);
    }
    forall p | p in t.puts && t.puts[p].phase.InsertMap?
      ensures IsId(t, t.puts[p].phase.id)
    {
      ReadIdExists(s, a, p);
    }
    SelectorsKnow(s, a);
  }

  /** At every step of every run, with crashes anywhere: what is mapped is registered, to a project that exists. */
  lemma {:induction false} MappingsExist(run: Run<Action>)
    ensures MappedHaveRows(After(run)) && MappedHaveProjects(After(run))
  {
    if run.Then? {
      MappingsExist(run.before);
      StepKeepsMappedRows(After(run.before), run.action);
      StepKeepsMappedProjects(After(run.before), run.action);
    }
  }

  predicate HasRow(s: State, oid: string, size: int) {
    oid in s.oids && s.oids[oid] == size
  }

  /** Every size ever told to a client is the one in the table. */
  ghost predicate ToldHold(s: State) {
    forall p :: p in s.answers && s.answers[p].Found? ==> HasRow(s, s.answers[p].oid, s.answers[p].size)
  }

  ghost predicate ToldAlwaysHold(run: Run<Action>) {
    ToldHold(After(run)) && (run.Then? ==> ToldAlwaysHold(run.before))
  }

  /** The step ends a registration, as new, whose insert was refused because the oid had a row of another size. */
  predicate Mistells(s: State, a: Action) {
    a.Advance? && a.p in s.puts && s.puts[a.p].oid in s.oids && s.oids[s.puts[a.p].oid] != s.puts[a.p].size &&
    (s.puts[a.p].phase.InsertMap? || (s.puts[a.p].phase == InsertOid && s.puts[a.p].repo == ""))
  }

  ghost predicate NeverMistells(run: Run<Action>) {
    run.Then? ==> NeverMistells(run.before) && !Mistells(After(run.before), run.action)
  }

  lemma StepToldExactly(s: State, a: Action)
    requires ToldHold(s) && MappedHaveRows(s)
    ensures ToldHold(Step(s, a)) <==> !Mistells(s, a)
  {
    var t := Step(s, a);
    StepKeepsRows(s, a);
    if Mistells(s, a) {
      assert t.answers[a.p] == Found(s.puts[a.p].oid, s.puts[a.p].size, false);
    } else {
      forall p | p in t.answers && t.answers[p].Found?
        ensures HasRow(t, t.answers[p].oid, t.answers[p].size)
      {
        if p in s.answers && s.answers[p] == t.answers[p] {
          assert HasRow(s, s.answers[p].oid, s.answers[p].size);
        } else {
          assert a.Advance? && a.p == p && p in s.puts;
        }
      }
    }
  }

  /**
    Sizes told to clients are the registered ones, if and only if no registration is answered as new
    after losing its insert.
  */
  lemma {:induction false} ToldHoldExactly(run: Run<Action>)
    ensures ToldAlwaysHold(run) <==> NeverMistells(run)
  {
    if run.Then? {
      ToldHoldExactly(run.before);
      MappingsExist(run.before);
      if ToldAlwaysHold(run.before) {
        StepToldExactly(After(run.before), run.action);
      }
    }
  }

  /** The select of the registration `p`. */
  predicate Selects(s: State, a: Action, p: Pid) {
    a == Advance(p) && p in s.puts && s.puts[p].phase == SelectOid
  }

  /** The step is the insert, or the mapping, of a registration of the oid. */
  predicate InsertsOid(s: State, a: Action, oid: string) {
    a.Advance? && a.p in s.puts && s.puts[a.p].phase == InsertOid && s.puts[a.p].oid == oid
  }

  predicate MapsOid(s: State, a: Action, oid: string) {
    a.Advance? && a.p in s.puts && s.puts[a.p].phase.InsertMap? && s.puts[a.p].oid == oid
  }

  /** Since `p` selected its oid, some other registration has inserted it. */
  ghost predicate InsertedSince(run: Run<Action>, p: Pid, oid: string) {
    run.Then? && !Selects(After(run.before), run.action, p) &&
    (InsertsOid(After(run.before), run.action, oid) || InsertedSince(run.before, p, oid))
  }

  /** Since `p` selected its oid, some other registration has mapped it. */
  ghost predicate MappedSince(run: Run<Action>, p: Pid, oid: string) {
    run.Then? && !Selects(After(run.before), run.action, p) &&
    (MapsOid(After(run.before), run.action, oid) || MappedSince(run.before, p, oid))
  }

  /** How a registration got past its select. */
  lemma PastSelect(s: State, a: Action, p: Pid)
    requires p in Step(s, a).puts && Step(s, a).puts[p].phase != SelectOid
    ensures var put := Step(s, a).puts[p];
      p in s.puts && s.puts[p].oid == put.oid &&
      (if Selects(s, a, p) then put.oid !in s.oids || put.oid == "" else s.puts[p].phase != SelectOid) &&
      (!Selects(s, a, p) && put.phase == InsertOid ==> s.puts[p].phase == InsertOid)
  {
    if a == Advance(p) {
      match s.puts[p].phase
      case SelectOid =>
      case InsertOid =>
      case FindProject =>
      case SelectId =>
      case InsertMap(_) =>
    } else {
      OthersUnmoved(s, a, p);
    }
  }

  lemma StepInserts(s: State, a: Action, oid: string)
    ensures oid in Step(s, a).oids <==> oid in s.oids || InsertsOid(s, a, oid)
  {
  }

  /** A registration about to insert finds no row exactly if no other one has inserted the oid since its select. */
  lemma {:induction false} StillNewExactly(run: Run<Action>, p: Pid)
    requires p in After(run).puts && After(run).puts[p].phase == InsertOid && After(run).puts[p].oid != ""
    ensures After(run).puts[p].oid !in After(run).oids <==> !InsertedSince(run, p, After(run).puts[p].oid)
  {
    var s, oid := After(run.before), After(run).puts[p].oid;
    PastSelect(s, run.action, p);
    StepInserts(s, run.action, oid);
    if !Selects(s, run.action, p) {
      StillNewExactly(run.before, p);
    }
  }

  ghost predicate IsMapped(maps: seq<M.Mapping>, oid: string) {
    exists i :: 0 <= i < |maps| && maps[i].oid == oid
  }

  lemma StepMaps(s: State, a: Action, oid: string)
    ensures IsMapped(Step(s, a).maps, oid) <==> IsMapped(s.maps, oid) || MapsOid(s, a, oid)
  {
    var t := Step(s, a);
    if i :| 0 <= i < |s.maps| && s.maps[i].oid == oid {
      assert t.maps[i].oid == oid;
    }
    if MapsOid(s, a, oid) {
      assert t.maps[|s.maps|].oid == oid;
    }
  }

  /** A registration past its select finds its oid mapped exactly if another one has mapped it since that select. */
  lemma {:induction false} MappedSinceExactly(run: Run<Action>, p: Pid)
    requires p in After(run).puts && After(run).puts[p].phase != SelectOid && After(run).puts[p].oid != ""
    ensures IsMapped(After(run).maps, After(run).puts[p].oid) <==> MappedSince(run, p, After(run).puts[p].oid)
  {
    var s, oid := After(run.before), After(run).puts[p].oid;
    PastSelect(s, run.action, p);
    StepMaps(s, run.action, oid);
    if Selects(s, run.action, p) {
      MappingsExist(run.before);
    } else {
      MappedSinceExactly(run.before, p);
    }
  }

  /** No oid is mapped twice, but perhaps the empty one. */
  ghost predicate MappedOnce(maps: seq<M.Mapping>) {
    forall i, j :: 0 <= i < j < |maps| && maps[i].oid == maps[j].oid ==> maps[i].oid == ""
  }

  /** No registration of a non-empty oid maps it after another one has, since the select of the first. */
  ghost predicate NeverMapsTwice(run: Run<Action>) {
    run.Then? ==>
      NeverMapsTwice(run.before) &&
      var s, a := After(run.before), run.action;
      (a.Advance? && a.p in s.puts && s.puts[a.p].phase.InsertMap? && s.puts[a.p].oid != "" ==>
        !MappedSince(run.before, a.p, s.puts[a.p].oid))
  }

  lemma OneMoreMapping(maps: seq<M.Mapping>, mapping: M.Mapping)
    ensures MappedOnce(maps + [mapping]) <==> MappedOnce(maps) && (mapping.oid != "" ==> !IsMapped(maps, mapping.oid))
  {
    var all, n := maps + [mapping], |maps|;
    assert all[n] == mapping && forall i :: 0 <= i < n ==> all[i] == maps[i];
    if MappedOnce(all) {
      assert forall i, j :: 0 <= i < j < n ==> all[i] == maps[i] && all[j] == maps[j];
      if i :| 0 <= i < n && maps[i].oid == mapping.oid {
        assert all[i].oid == all[n].oid;
      }
    }
  }

  /**
    Each non-empty oid is mapped at most once, if and only if between the select and the mapping of a
    registration no other one maps the same oid.
  */
  lemma {:induction false} MappedOnceExactly(run: Run<Action>)
    ensures MappedOnce(After(run).maps) <==> NeverMapsTwice(run)
  {
    if run.Then? {
      var s, a := After(run.before), run.action;
      MappedOnceExactly(run.before);
      if a.Advance? && a.p in s.puts && s.puts[a.p].phase.InsertMap? {
        OneMoreMapping(s.maps, M.Mapping(s.puts[a.p].oid, s.puts[a.p].phase.id));
        if s.puts[a.p].oid != "" {
          MappedSinceExactly(run.before, a.p);
        }
      } else {
        assert After(run).maps == s.maps;
      }
    }
  }

  function StepsLeft(phase: Phase): nat {
    match phase case SelectOid => 5 case InsertOid => 4 case FindProject => 3 case SelectId => 2 case InsertMap(_) => 1
  }

  /** The remaining statements of a registration, with no other in between. */
  function Finish(s: State, p: Pid): State
    decreases if p in s.puts then StepsLeft(s.puts[p].phase) else 0
  {
    if p in s.puts then Finish(Step(s, Advance(p)), p) else s
  }

  /** What the statements from the lookup of the project on make of the state. */
  function Mapped(s: State, p: Pid): State
    requires p in s.puts
  {
    var put := s.puts[p];
    if put.repo !in s.projects then Answer(s, p, Failed(ProjectNotFound))
    else
      Answer(s.(maps := s.maps + [M.Mapping(put.oid, s.projects[put.repo])]), p, Found(put.oid, put.size, false))
  }

  lemma FinishMap(s: State, p: Pid)
    requires p in s.puts && s.puts[p].repo in s.projects && s.puts[p].phase == InsertMap(s.projects[s.puts[p].repo])
    ensures Finish(s, p) == Mapped(s, p)
  {
    assert Finish(s, p) == Step(s, Advance(p));
  }

  lemma FinishProject(s: State, p: Pid)
    requires p in s.puts && s.puts[p].phase == FindProject
    ensures Finish(s, p) == Mapped(s, p)
  {
    var t := Step(s, Advance(p));
    if s.puts[p].repo in s.projects {
      var u := Step(t, Advance(p));
      assert Finish(s, p) == Finish(t, p) == Finish(u, p);
      FinishMap(u, p);
      assert u.puts - {p} == s.puts - {p};
    } else {
      assert Finish(s, p) == t;
    }
  }

  lemma FinishInsert(s: State, p: Pid)
    requires p in s.puts && s.puts[p].phase == InsertOid
    ensures var put := s.puts[p];
      var t := WithRow(s, put.oid, put.size);
      Finish(s, p) == if put.repo == "" then Answer(t, p, Found(put.oid, put.size, false)) else Mapped(t, p)
  {
    var t := Step(s, Advance(p));
    if s.puts[p].repo == "" {
      assert Finish(s, p) == t;
    } else {
      FinishProject(t, p);
      assert t.puts - {p} == s.puts - {p};
    }
  }

  lemma UndisturbedNew(cfg: Config, s: State, m: M.Schema, p: Pid, rv: RequestVars)
    requires s.oids == m.oids && s.projects == m.projects && s.maps == m.maps && (rv.oid !in s.oids || rv.oid == "")
    requires p !in s.puts && p !in s.answers && M.Admits(cfg, rv.authorization)
    ensures var selected := s.(puts := s.puts[p := InFlight(rv.oid, rv.size, rv.repo, InsertOid)]);
      var u, v := Finish(selected, p), M.SchemaAfterPut(cfg, m, rv);
      u.oids == v.oids && u.projects == v.projects && u.maps == v.maps && u.puts == s.puts &&
      u.answers == s.answers[p := ReplyOf(M.Put(cfg, m, rv))]
  {
    var selected := s.(puts := s.puts[p := InFlight(rv.oid, rv.size, rv.repo, InsertOid)]);
    FinishInsert(selected, p);
    assert selected.puts - {p} == s.puts;
  }

  lemma BeginAndSelect(s: State, p: Pid, rv: RequestVars)
    requires p !in s.puts && p !in s.answers
    ensures Finish(Step(s, Begin(p, rv.oid, rv.size, rv.repo)), p) ==
      if rv.oid in s.oids && rv.oid != "" then s.(answers := s.answers[p := Found(rv.oid, s.oids[rv.oid], true)])
      else Finish(s.(puts := s.puts[p := InFlight(rv.oid, rv.size, rv.repo, InsertOid)]), p)
  {
    var begun := Step(s, Begin(p, rv.oid, rv.size, rv.repo));
    var selected := Step(begun, Advance(p));
    assert Finish(begun, p) == Finish(selected, p);
    if rv.oid in s.oids && rv.oid != "" {
      assert begun.puts - {p} == s.puts;
    } else {
      assert selected == s.(puts := s.puts[p := InFlight(rv.oid, rv.size, rv.repo, InsertOid)]);
    }
  }

  /** Undisturbed, the statements of a registration do what the sequential store does in one call. */
  lemma UndisturbedIsSequential(cfg: Config, s: State, m: M.Schema, p: Pid, rv: RequestVars)
    requires s.oids == m.oids && s.projects == m.projects && s.maps == m.maps
    requires p !in s.puts && p !in s.answers && M.Admits(cfg, rv.authorization)
    ensures var u, v := Finish(Step(s, Begin(p, rv.oid, rv.size, rv.repo)), p), M.SchemaAfterPut(cfg, m, rv);
      u.oids == v.oids && u.projects == v.projects && u.maps == v.maps && u.puts == s.puts &&
      u.answers == s.answers[p := ReplyOf(M.Put(cfg, m, rv))]
  {
    BeginAndSelect(s, p, rv);
    if rv.oid !in s.oids || rv.oid == "" {
      UndisturbedNew(cfg, s, m, p, rv);
    }
  }
}
