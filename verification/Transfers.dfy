/**
  Registrations and uploads running side by side: an upload is judged by the size its handler looked up
  before, while registrations of the same oid may still be racing.
*/
module Transfers {
  import opened Common
  import opened KeyPath
  import opened Upload
  import opened UploadSafety
  import Race = RegistrationRace

  /** `told` is what the handler of an upload was told when it looked the oid up. */
  datatype Joint = Joint(meta: Race.State, disk: State, told: map<Pid, Race.Claim>)

  const NOTHING := Joint(Race.NOTHING, EMPTY, map[])

  datatype Event = Register(a: Race.Action) | AskSize(p: Pid, oid: string) | Transfer(u: Action)

  /** An upload opens its file for the oid and size that its handler was told. */
  predicate Allowed(s: Joint, u: Action) {
    u.Open? ==> u.p in s.told && s.told[u.p] == Race.Claim(u.key, u.size)
  }

  function Happen(h: Hash, s: Joint, e: Event): Joint {
    match e
    case Register(a) => s.(meta := Race.Step(s.meta, a))
    case AskSize(p, oid) =>
      if p !in s.told && oid in s.meta.sizes then s.(told := s.told[p := Race.Claim(oid, s.meta.sizes[oid])]) else s
    case Transfer(u) => if Allowed(s, u) then s.(disk := Step(h, s.disk, u)) else s
  }

  function Reached(h: Hash, run: Run<Event>): Joint {
    match run
    case Start => NOTHING
    case Then(before, e) => Happen(h, Reached(h, before), e)
  }

  /** The steps of a run that concern the content store. */
  function DiskOf(h: Hash, run: Run<Event>): Run<Action> {
    match run
    case Start => Start
    case Then(before, e) =>
      if e.Transfer? && Allowed(Reached(h, before), e.u) then Then(DiskOf(h, before), e.u) else DiskOf(h, before)
  }

  /** The steps that concern the race between registrations. */
  function RaceOf(run: Run<Event>): Run<Race.Action> {
    match run
    case Start => Start
    case Then(before, e) => if e.Register? then Then(RaceOf(before), e.a) else RaceOf(before)
  }

  lemma {:induction false} PartsMatch(h: Hash, run: Run<Event>)
    ensures Reached(h, run).disk == After(h, EMPTY, DiskOf(h, run))
    ensures Reached(h, run).meta == Race.After(RaceOf(run))
  {
    if run.Then? { PartsMatch(h, run.before); }
  }

  /** Every upload was told of, and every file made for, a registered oid. */
  ghost predicate Tied(s: Joint) {
    (forall p :: p in s.told ==> s.told[p].oid in s.meta.sizes) &&
    (forall p :: p in s.disk.files ==> s.disk.files[p].key in s.meta.sizes)
  }

  /** A file made by a step is made by an open, for its oid and size; the others keep theirs. */
  lemma FilesComeFromOpens(h: Hash, s: State, u: Action, p: Pid)
    requires p in Step(h, s, u).files
    ensures var t := Step(h, s, u);
      if p in s.files then t.files[p].key == s.files[p].key && t.files[p].size == s.files[p].size
      else u.Open? && u.p == p && t.files[p].key == u.key && t.files[p].size == u.size
  {
  }

  lemma StepTies(h: Hash, s: Joint, e: Event)
    requires Tied(s)
    ensures Tied(Happen(h, s, e))
  {
    var t := Happen(h, s, e);
    forall p | p in t.disk.files
      ensures t.disk.files[p].key in t.meta.sizes
    {
      if e.Transfer? && Allowed(s, e.u) {
        FilesComeFromOpens(h, s.disk, e.u, p);
      }
    }
  }

  lemma {:induction false} AlwaysTied(h: Hash, run: Run<Event>)
    ensures Tied(Reached(h, run))
  {
    if run.Then? {
      AlwaysTied(h, run.before);
      StepTies(h, Reached(h, run.before), run.action);
    }
  }

  ghost predicate RightLength(s: Joint, key: string, p: Pid) {
    p in s.disk.files && key in s.meta.sizes && |s.disk.files[p].data| == s.meta.sizes[key]
  }

  /** Every published content has the length registered for its oid. */
  ghost predicate Sized(s: Joint) {
    forall key :: Final(key) in s.disk.dir ==> RightLength(s, key, s.disk.dir[Final(key)])
  }

  ghost predicate AlwaysSized(h: Hash, run: Run<Event>) {
    Sized(Reached(h, run)) && (run.Then? ==> AlwaysSized(h, run.before))
  }

  /** A registration writes another size for an oid whose content is already published. */
  predicate ResizesPublished(s: Joint, e: Event) {
    e.Register? && e.a.Write? && e.a.p in s.meta.claims && Final(s.meta.claims[e.a.p].oid) in s.disk.dir &&
    s.meta.claims[e.a.p].oid in s.meta.sizes &&
    s.meta.sizes[s.meta.claims[e.a.p].oid] != s.meta.claims[e.a.p].size
  }

  /** A rename publishes bytes whose length is not the registered size. */
  predicate PublishesMissized(s: Joint, e: Event) {
    e.Transfer? && e.u.Rename? && e.u.ok && Live(s.disk, e.u.p) && s.disk.puts[e.u.p].phase.Checked? &&
    var key := s.disk.puts[e.u.p].key;
    Temp(key) in s.disk.dir && s.disk.dir[Temp(key)] in s.disk.files && key in s.meta.sizes &&
    |s.disk.files[s.disk.dir[Temp(key)]].data| != s.meta.sizes[key]
  }

  ghost predicate Missizes(s: Joint, e: Event) {
    ResizesPublished(s, e) || PublishesMissized(s, e) || (e.Transfer? && WritesPublished(s.disk, e.u))
  }

  ghost predicate NeverMissizes(h: Hash, run: Run<Event>) {
    run.Then? ==> NeverMissizes(h, run.before) && !Missizes(Reached(h, run.before), run.action)
  }

  lemma RegisterExactly(h: Hash, s: Joint, e: Event)
    requires e.Register? && Sized(s)
    ensures Sized(Happen(h, s, e)) <==> !ResizesPublished(s, e)
  {
    var t := Happen(h, s, e);
    if ResizesPublished(s, e) {
      var oid := s.meta.claims[e.a.p].oid;
      assert RightLength(s, oid, s.disk.dir[Final(oid)]);
      assert !RightLength(t, oid, t.disk.dir[Final(oid)]);
    } else {
      forall key | Final(key) in t.disk.dir
        ensures RightLength(t, key, t.disk.dir[Final(key)])
      {
        assert RightLength(s, key, s.disk.dir[Final(key)]);
      }
    }
  }

  lemma MissizingShows(h: Hash, s: Joint, e: Event)
    requires e.Transfer? && Allowed(s, e.u) && Sized(s) && Inv(h, s.disk)
    requires PublishesMissized(s, e) || WritesPublished(s.disk, e.u)
    ensures !Sized(Happen(h, s, e))
  {
    var t := Happen(h, s, e);
    if PublishesMissized(s, e) {
      var key := s.disk.puts[e.u.p].key;
      assert t.disk.dir[Final(key)] == s.disk.dir[Temp(key)] && t.disk.files == s.disk.files;
      assert !RightLength(t, key, t.disk.dir[Final(key)]);
    } else {
      var key :| Final(key) in s.disk.dir && s.disk.dir[Final(key)] == e.u.p;
      assert RightLength(s, key, e.u.p);
      DataChange(h, s.disk, e.u, e.u.p);
      assert t.disk.dir == s.disk.dir && !RightLength(t, key, e.u.p);
    }
  }

  lemma TransferExactly(h: Hash, s: Joint, e: Event)
    requires e.Transfer? && Allowed(s, e.u) && Sized(s) && Tied(s) && Inv(h, s.disk)
    ensures Sized(Happen(h, s, e)) <==> !PublishesMissized(s, e) && !WritesPublished(s.disk, e.u)
  {
    var t := Happen(h, s, e);
    if PublishesMissized(s, e) || WritesPublished(s.disk, e.u) {
      MissizingShows(h, s, e);
    } else {
      forall key | Final(key) in t.disk.dir
        ensures RightLength(t, key, t.disk.dir[Final(key)])
      {
        FinalsComeFromTemps(h, s.disk, e.u, key);
        var p := t.disk.dir[Final(key)];
        DataChange(h, s.disk, e.u, p);
        if Final(key) in s.disk.dir && s.disk.dir[Final(key)] == p {
          assert RightLength(s, key, p);
        }
      }
    }
  }

  /** What does not happen to the stores changes nothing about sizes. */
  lemma EventExactly(h: Hash, s: Joint, e: Event)
    requires Sized(s) && Tied(s) && Inv(h, s.disk)
    ensures Sized(Happen(h, s, e)) <==> !Missizes(s, e)
  {
    if e.Register? {
      RegisterExactly(h, s, e);
    } else if e.Transfer? && Allowed(s, e.u) {
      TransferExactly(h, s, e);
    } else {
      var t := Happen(h, s, e);
      assert t.disk == s.disk && t.meta == s.meta;
      assert forall key :: Final(key) in s.disk.dir ==> RightLength(t, key, s.disk.dir[Final(key)]);
    }
  }

  /**
    In every interleaving of registrations, uploads and crashes, published content always has the
    registered length, if and only if no registration resizes published content, no rename publishes
    bytes of another length, and no upload writes into a file that is already published.
  */
  lemma {:induction false} SizesAgreeExactly(h: Hash, run: Run<Event>)
    ensures AlwaysSized(h, run) <==> NeverMissizes(h, run)
  {
    if run.Then? {
      SizesAgreeExactly(h, run.before);
      PartsMatch(h, run.before);
      AlwaysTied(h, run.before);
      EmptyInv(h);
      RunKeepsInv(h, EMPTY, DiskOf(h, run.before));
      if AlwaysSized(h, run.before) {
        EventExactly(h, Reached(h, run.before), run.action);
      }
    }
  }

  /** A rename publishes a file that was uploaded for a size which is no longer the registered one. */
  predicate PublishesStale(s: Joint, e: Event) {
    e.Transfer? && e.u.Rename? && e.u.ok && Live(s.disk, e.u.p) && s.disk.puts[e.u.p].phase.Checked? &&
    var key := s.disk.puts[e.u.p].key;
    Temp(key) in s.disk.dir && s.disk.dir[Temp(key)] in s.disk.files && key in s.meta.sizes &&
    s.disk.files[s.disk.dir[Temp(key)]].size != s.meta.sizes[key]
  }

  ghost predicate OnlyCurrentSizes(h: Hash, run: Run<Event>) {
    run.Then? ==>
      OnlyCurrentSizes(h, run.before) &&
      !ResizesPublished(Reached(h, run.before), run.action) && !PublishesStale(Reached(h, run.before), run.action)
  }

  /** Without opens in the gap, whatever a rename publishes has been checked, and nobody writes it any more. */
  lemma GapFreeEvent(h: Hash, run: Run<Event>, e: Event)
    requires GapFree(h, DiskOf(h, Then(run, e)))
    ensures var s := Reached(h, run);
      (PublishesMissized(s, e) <==> PublishesStale(s, e)) &&
      (e.Transfer? && Allowed(s, e.u) ==> !WritesPublished(s.disk, e.u))
  {
    PartsMatch(h, run);
    GapFreeIsSafe(h, DiskOf(h, run));
    EmptyInv(h);
    RunKeepsInv(h, EMPTY, DiskOf(h, run));
    GapFreeIsSafe(h, DiskOf(h, Then(run, e)));
    if e.Transfer? && e.u.Rename? {
      assert !PublishesUnchecked(Reached(h, run).disk, e.u);
    }
  }

  /**
    Without opens in the gap, that is: if and only if no registration resizes published content and no
    rename publishes content uploaded for a size that has been replaced.
  */
  lemma {:induction false} GapFreeSizesAgreeExactly(h: Hash, run: Run<Event>)
    requires GapFree(h, DiskOf(h, run))
    ensures AlwaysSized(h, run) <==> OnlyCurrentSizes(h, run)
  {
    SizesAgreeExactly(h, run);
    if run.Then? {
      GapFreeSizesAgreeExactly(h, run.before);
      SizesAgreeExactly(h, run.before);
      GapFreeEvent(h, run.before, run.action);
    }
  }

  /** Every size that was told, and every size uploaded for, is the registered one. */
  ghost predicate UpToDate(s: Joint) {
    (forall p :: p in s.told ==> s.told[p].oid in s.meta.sizes && s.meta.sizes[s.told[p].oid] == s.told[p].size) &&
    (forall p :: p in s.disk.files ==>
      s.disk.files[p].key in s.meta.sizes && s.meta.sizes[s.disk.files[p].key] == s.disk.files[p].size)
  }

  lemma StepUpToDate(h: Hash, s: Joint, e: Event)
    requires UpToDate(s) && (e.Register? ==> !Race.Overwrites(s.meta, e.a))
    ensures UpToDate(Happen(h, s, e))
  {
    var t := Happen(h, s, e);
    forall p | p in t.disk.files
      ensures t.disk.files[p].key in t.meta.sizes && t.meta.sizes[t.disk.files[p].key] == t.disk.files[p].size
    {
      if e.Transfer? && Allowed(s, e.u) {
        FilesComeFromOpens(h, s.disk, e.u, p);
      }
    }
  }

  lemma {:induction false} NoRaceUpToDate(h: Hash, run: Run<Event>)
    requires Race.NeverOverwrites(RaceOf(run))
    ensures UpToDate(Reached(h, run)) && OnlyCurrentSizes(h, run)
  {
    if run.Then? {
      NoRaceUpToDate(h, run.before);
      PartsMatch(h, run.before);
      EmptyInv(h);
      RunKeepsInv(h, EMPTY, DiskOf(h, run.before));
      StepUpToDate(h, Reached(h, run.before), run.action);
    }
  }

  /**
    It does so in particular if no registration writes an oid that another wrote, with another size,
    since its lookup.
  */
  lemma UndisputedIsSized(h: Hash, run: Run<Event>)
    requires GapFree(h, DiskOf(h, run)) && Race.NeverDisputed(RaceOf(run))
    ensures AlwaysSized(h, run)
  {
    Race.DisputesExactly(RaceOf(run));
    Race.SizesStayExactly(RaceOf(run));
    NoRaceUpToDate(h, run);
    GapFreeSizesAgreeExactly(h, run);
  }

  /** Two registrations of the oid look it up, and the first writes the size that `body` has. */
  function Registered(oid: string, size: int, other: int): Run<Event> {
    Then(Then(Then(Start, Register(Race.LookUp(0, Race.Claim(oid, size)))),
      Register(Race.LookUp(1, Race.Claim(oid, other)))), Register(Race.Write(0)))
  }

  /** Upload 1, told that size, publishes the body. */
  function UploadedThen(oid: string, body: Bytes, other: int): Run<Event> {
    var begun := Then(Then(Registered(oid, |body|, other), AskSize(1, oid)), Transfer(Open(1, oid, |body|, true)));
    Then(Then(Then(begun, Transfer(Chunk(1, body))), Transfer(Check(1))), Transfer(Rename(1, true)))
  }

  lemma RegisteredState(h: Hash, oid: string, size: int, other: int)
    ensures Reached(h, Registered(oid, size, other)) ==
      Joint(Race.State(map[oid := size], map[1 := Race.Claim(oid, other)]), EMPTY, map[])
  {
    var r1 := Then(Start, Register(Race.LookUp(0, Race.Claim(oid, size))));
    var r2 := Then(r1, Register(Race.LookUp(1, Race.Claim(oid, other))));
    assert Reached(h, r1) == Happen(h, NOTHING, r1.action);
    assert Reached(h, r2) == Happen(h, Reached(h, r1), r2.action);
    assert Reached(h, r2).meta.claims - {0} == map[1 := Race.Claim(oid, other)];
  }

  lemma UploadedState(h: Hash, body: Bytes, other: int)
    ensures var s := Reached(h, UploadedThen(h(body), body, other));
      s.meta == Race.State(map[h(body) := |body|], map[1 := Race.Claim(h(body), other)]) &&
      s.disk == After(h, EMPTY, OnePut(h(body), body))
  {
    var oid := h(body);
    RegisteredState(h, oid, |body|, other);
    var asked := Then(Registered(oid, |body|, other), AskSize(1, oid));
    var begun := Then(asked, Transfer(Open(1, oid, |body|, true)));
    var checked := Then(Then(begun, Transfer(Chunk(1, body))), Transfer(Check(1)));
    var open := Then(Start, Open(1, oid, |body|, true));
    assert Reached(h, asked).told == map[1 := Race.Claim(oid, |body|)];
    assert Reached(h, begun).disk == After(h, EMPTY, open);
    assert Reached(h, checked).disk == After(h, EMPTY, Then(Then(open, Chunk(1, body)), Check(1)));
    assert Reached(h, checked).meta == Reached(h, asked).meta;
  }

  /** The race does break it: the second registration then gives the published content another size. */
  lemma RaceMissizes(h: Hash, body: Bytes, other: int)
    requires other != |body|
    ensures var run := Then(UploadedThen(h(body), body, other), Register(Race.Write(1)));
      var s := Reached(h, run);
      Final(h(body)) in s.disk.dir && s.meta.sizes == map[h(body) := other] && !Sized(s) && !NeverMissizes(h, run)
  {
    var key := h(body);
    UploadedState(h, body, other);
    OnePutState(h, body);
    var before := UploadedThen(key, body, other);
    var s, t := Reached(h, before), Reached(h, Then(before, Register(Race.Write(1))));
    assert t == Happen(h, s, Register(Race.Write(1)));
    assert !RightLength(t, key, 1);
  }
}
