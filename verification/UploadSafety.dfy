/**
  Safety of the upload protocol: exactly which runs keep every published file complete, the
  side condition on the gap between rename and remove that ensures it, and the run it excludes.
*/
module UploadSafety {
  import opened Common
  import opened KeyPath
  import opened Upload

  ghost predicate PublishedFile(h: Hash, key: string, file: File) {
    file.verified && file.key == key && Sound(h, file)
  }

  /** Every published file passed both checks of its own upload and matches the oid of its path. */
  ghost predicate FinalsVerified(h: Hash, s: State) {
    forall key :: Final(key) in s.dir ==>
      s.dir[Final(key)] in s.files && PublishedFile(h, key, s.files[s.dir[Final(key)]])
  }

  /** A rename whose temporary path names, at that moment, a file whose upload has not passed its checks. */
  predicate PublishesUnchecked(s: State, a: Action) {
    a.Rename? && a.ok && Live(s, a.p) && s.puts[a.p].phase.Checked? &&
    Temp(s.puts[a.p].key) in s.dir && s.dir[Temp(s.puts[a.p].key)] in s.files &&
    !s.files[s.dir[Temp(s.puts[a.p].key)]].verified
  }

  ghost predicate NeverPublishesUnchecked(h: Hash, run: Run<Action>) {
    run.Then? ==>
      NeverPublishesUnchecked(h, run.before) && !PublishesUnchecked(After(h, EMPTY, run.before), run.action)
  }

  ghost predicate AlwaysVerified(h: Hash, run: Run<Action>) {
    FinalsVerified(h, After(h, EMPTY, run)) && (run.Then? ==> AlwaysVerified(h, run.before))
  }

  /** A file that passed its checks is never changed again: its uploader is done writing. */
  lemma VerifiedIsFrozen(h: Hash, s: State, a: Action, p: Pid)
    requires PutsInv(s) && p in s.files && s.files[p].verified
    ensures p in Step(h, s, a).files && Step(h, s, a).files[p] == s.files[p]
  {
  }

  /** A step puts at a published path only what the temporary path named, and only by a rename of a checked upload. */
  lemma FinalsComeFromTemps(h: Hash, s: State, a: Action, key: string)
    requires Final(key) in Step(h, s, a).dir
    ensures var t := Step(h, s, a);
      (Final(key) in s.dir && t.dir[Final(key)] == s.dir[Final(key)]) ||
      (a.Rename? && a.ok && Live(s, a.p) && s.puts[a.p] == Put(key, s.puts[a.p].size, Checked) &&
       Temp(key) in s.dir && t.dir[Final(key)] == s.dir[Temp(key)])
  {
  }

  lemma StepVerifiedExactly(h: Hash, s: State, a: Action)
    requires Inv(h, s) && FinalsVerified(h, s)
    ensures FinalsVerified(h, Step(h, s, a)) <==> !PublishesUnchecked(s, a)
  {
    var t := Step(h, s, a);
    if PublishesUnchecked(s, a) {
      var key := s.puts[a.p].key;
      assert t.dir[Final(key)] == s.dir[Temp(key)] && t.files == s.files;
      assert !PublishedFile(h, key, t.files[t.dir[Final(key)]]);
    } else {
      forall key | Final(key) in t.dir
        ensures t.dir[Final(key)] in t.files && PublishedFile(h, key, t.files[t.dir[Final(key)]])
      {
        FinalsComeFromTemps(h, s, a, key);
        var p := t.dir[Final(key)];
        assert p in s.files && PublishedFile(h, key, s.files[p]);
        VerifiedIsFrozen(h, s, a, p);
      }
    }
  }

  lemma EmptyInv(h: Hash)
    ensures Inv(h, EMPTY)
  {
  }

  /**
    Every published file has passed the checks of its upload, at every moment, exactly if no rename
    publishes an unchecked one.
  */
  lemma {:induction false} VerifiedExactly(h: Hash, run: Run<Action>)
    ensures AlwaysVerified(h, run) <==> NeverPublishesUnchecked(h, run)
  {
    if run.Then? {
      VerifiedExactly(h, run.before);
      EmptyInv(h);
      RunKeepsInv(h, EMPTY, run.before);
      if AlwaysVerified(h, run.before) {
        StepVerifiedExactly(h, After(h, EMPTY, run.before), run.action);
      }
    }
  }

  ghost predicate CompleteFile(h: Hash, key: string, file: File) {
    file.key == key && h(file.data) == key && |file.data| == file.size
  }

  /** Every published file matches the oid of its path and has the size its upload was given. */
  ghost predicate FinalsComplete(h: Hash, s: State) {
    forall key :: Final(key) in s.dir ==>
      s.dir[Final(key)] in s.files && CompleteFile(h, key, s.files[s.dir[Final(key)]])
  }

  ghost predicate AlwaysComplete(h: Hash, run: Run<Action>) {
    FinalsComplete(h, After(h, EMPTY, run)) && (run.Then? ==> AlwaysComplete(h, run.before))
  }

  /** A rename that finds, at its temporary path, bytes that do not match the oid or the size. */
  predicate RenamesMismatch(h: Hash, s: State, a: Action) {
    a.Rename? && a.ok && Live(s, a.p) && s.puts[a.p].phase.Checked? &&
    Temp(s.puts[a.p].key) in s.dir && s.dir[Temp(s.puts[a.p].key)] in s.files &&
    var file := s.files[s.dir[Temp(s.puts[a.p].key)]];
    !(h(file.data) == s.puts[a.p].key && |file.data| == file.size)
  }

  ghost predicate Published(s: State, p: Pid) {
    exists key :: Final(key) in s.dir && s.dir[Final(key)] == p
  }

  /** An upload, still copying, that writes into a file which is already published. */
  ghost predicate WritesPublished(s: State, a: Action) {
    (a.Chunk? || a.Abort?) && Live(s, a.p) && s.puts[a.p].phase.Copying? && Published(s, a.p) &&
    if a.Chunk? then a.bytes != [] else 0 < a.kept <= |a.bytes|
  }

  ghost predicate Damages(h: Hash, s: State, a: Action) {
    RenamesMismatch(h, s, a) || WritesPublished(s, a)
  }

  ghost predicate NeverDamages(h: Hash, run: Run<Action>) {
    run.Then? ==> NeverDamages(h, run.before) && !Damages(h, After(h, EMPTY, run.before), run.action)
  }

  /** The step writes at least one byte into the file `p`. */
  predicate WritesTo(s: State, a: Action, p: Pid) {
    (a.Chunk? || a.Abort?) && a.p == p && Live(s, p) && s.puts[p].phase.Copying? &&
    if a.Chunk? then a.bytes != [] else 0 < a.kept <= |a.bytes|
  }

  /** What a step does to the bytes of a file. */
  lemma DataChange(h: Hash, s: State, a: Action, p: Pid)
    requires p in s.files
    ensures var t := Step(h, s, a);
      p in t.files && t.files[p].key == s.files[p].key && t.files[p].size == s.files[p].size &&
      |t.files[p].data| >= |s.files[p].data| &&
      (t.files[p].data == s.files[p].data <==> !(WritesTo(s, a, p)))
    ensures WritesTo(s, a, p) ==> |Step(h, s, a).files[p].data| > |s.files[p].data|
  {
  }

  lemma DamageShows(h: Hash, s: State, a: Action)
    requires Inv(h, s) && FinalsComplete(h, s) && Damages(h, s, a)
    ensures !FinalsComplete(h, Step(h, s, a))
  {
    var t := Step(h, s, a);
    if RenamesMismatch(h, s, a) {
      var key := s.puts[a.p].key;
      assert t.dir[Final(key)] == s.dir[Temp(key)] && t.files == s.files;
      assert !CompleteFile(h, key, t.files[t.dir[Final(key)]]);
    } else {
      var key :| Final(key) in s.dir && s.dir[Final(key)] == a.p;
      DataChange(h, s, a, a.p);
      assert t.dir == s.dir && !CompleteFile(h, key, t.files[a.p]);
    }
  }

  lemma StepCompleteExactly(h: Hash, s: State, a: Action)
    requires Inv(h, s) && FinalsComplete(h, s)
    ensures FinalsComplete(h, Step(h, s, a)) <==> !Damages(h, s, a)
  {
    var t := Step(h, s, a);
    if Damages(h, s, a) {
      DamageShows(h, s, a);
    } else {
      forall key | Final(key) in t.dir
        ensures t.dir[Final(key)] in t.files && CompleteFile(h, key, t.files[t.dir[Final(key)]])
      {
        FinalsComeFromTemps(h, s, a, key);
        var p := t.dir[Final(key)];
        assert p in s.files && CompleteFile(h, key, s.files[p]);
        DataChange(h, s, a, p);
      }
    }
  }

  /**
    The safety theorem, in every interleaving of any number of uploads, downloads and crashes: all
    published files match their oids and sizes at every moment of the run, if and only if no rename
    finds bytes at its temporary path that do not, and no upload writes into a file after it is published.
  */
  lemma {:induction false} SafetyExactly(h: Hash, run: Run<Action>)
    ensures AlwaysComplete(h, run) <==> NeverDamages(h, run)
  {
    if run.Then? {
      SafetyExactly(h, run.before);
      EmptyInv(h);
      RunKeepsInv(h, EMPTY, run.before);
      if AlwaysComplete(h, run.before) {
        StepCompleteExactly(h, After(h, EMPTY, run.before), run.action);
      }
    }
  }

  /** A rename that does damage publishes another upload's file: its own has passed both checks. */
  lemma DamagingRenameIsForeign(h: Hash, s: State, a: Action)
    requires Inv(h, s) && RenamesMismatch(h, s, a)
    ensures s.dir[Temp(s.puts[a.p].key)] != a.p && PublishesUnchecked(s, a)
  {
  }

  /** Publishing checked files only is enough for complete ones. */
  lemma {:induction false} VerifiedIsComplete(h: Hash, run: Run<Action>)
    requires NeverPublishesUnchecked(h, run)
    ensures AlwaysComplete(h, run) && NeverDamages(h, run)
  {
    VerifiedExactly(h, run);
    SafetyExactly(h, run);
    if run.Then? {
      VerifiedIsComplete(h, run.before);
    }
    assert FinalsComplete(h, After(h, EMPTY, run));
  }

  /** `a` creates the temporary path of an upload that has renamed its file away but not yet run its remove. */
  predicate OpensInGap(s: State, a: Action) {
    a.Open? && a.ok && Fresh(s, a.p) && Temp(a.key) !in s.dir &&
    exists q :: q in s.puts && s.puts[q].key == a.key && s.puts[q].phase == Closing(Accepted)
  }

  /** The side condition: no upload opens a temporary path between another's rename and its remove. */
  ghost predicate GapFree(h: Hash, run: Run<Action>) {
    run.Then? ==> GapFree(h, run.before) && !OpensInGap(After(h, EMPTY, run.before), run.action)
  }

  ghost predicate OwnsTemp(s: State, p: Pid)
    requires p in s.puts
  {
    var temp := Temp(s.puts[p].key);
    if s.puts[p].phase == Closing(Accepted) then temp !in s.dir else temp in s.dir && s.dir[temp] == p
  }

  /** Each live upload owns its temporary path, from opening it to renaming it, and shares its oid with no other. */
  ghost predicate TempsOwned(s: State) {
    (forall p :: p in s.puts ==> OwnsTemp(s, p)) &&
    (forall p, q :: p in s.puts && q in s.puts && s.puts[p].key == s.puts[q].key ==> p == q)
  }

  /** An upload that has returned left nothing at its temporary path. */
  ghost predicate ReturnedLeaveNothing(s: State) {
    forall e :: e in s.dir && e.Temp? ==> s.dir[e] !in s.returned
  }

  /** The upload `a` acts for, if it is one that touches a temporary path it may share. */
  predicate ActsFor(s: State, a: Action, key: string) {
    (a.Rename? || a.Remove?) && Live(s, a.p) && s.puts[a.p].key == key
  }

  lemma TempsChange(h: Hash, s: State, a: Action, key: string)
    ensures var t, temp := Step(h, s, a), Temp(key);
      (temp in t.dir && temp in s.dir && t.dir[temp] == s.dir[temp]) ||
      (temp !in t.dir && (temp !in s.dir || ActsFor(s, a, key))) ||
      (temp in t.dir && temp !in s.dir && a.Open? && a.ok && a.key == key && Fresh(s, a.p) && t.dir[temp] == a.p)
  {
  }

  lemma PutsChange(h: Hash, s: State, a: Action, p: Pid)
    requires p in Step(h, s, a).puts
    ensures var t := Step(h, s, a);
      (p in s.puts && t.puts[p].key == s.puts[p].key &&
        (t.puts[p].phase == Closing(Accepted) ==>
          (s.puts[p].phase == Closing(Accepted) || (a.Rename? && a.p == p && Live(s, p)))) &&
        (s.puts[p].phase == Closing(Accepted) ==> t.puts[p].phase == Closing(Accepted))) ||
      (a.Open? && a.ok && a.p == p && Fresh(s, p) && Temp(a.key) !in s.dir && t.dir == s.dir[Temp(a.key) := p] &&
        t.puts[p] == Put(a.key, a.size, Copying([])))
  {
  }

  lemma OwnActionOnTemp(h: Hash, s: State, a: Action, p: Pid)
    requires PutsInv(s) && p in s.puts && p in Step(h, s, a).puts
    requires OwnsTemp(s, p) && ActsFor(s, a, s.puts[p].key) && a.p == p
    ensures OwnsTemp(Step(h, s, a), p)
  {
  }

  lemma StepKeepsOwner(h: Hash, s: State, a: Action, p: Pid)
    requires PutsInv(s) && TempsOwned(s) && !OpensInGap(s, a)
    requires p in Step(h, s, a).puts
    ensures OwnsTemp(Step(h, s, a), p)
  {
    PutsChange(h, s, a, p);
    if p in s.puts {
      assert OwnsTemp(s, p);
      var key := s.puts[p].key;
      TempsChange(h, s, a, key);
      if ActsFor(s, a, key) {
        assert a.p == p;
        OwnActionOnTemp(h, s, a, p);
      }
    }
  }

  lemma StepKeepsTempsOwned(h: Hash, s: State, a: Action)
    requires PutsInv(s) && TempsOwned(s) && !OpensInGap(s, a)
    ensures TempsOwned(Step(h, s, a))
  {
    var t := Step(h, s, a);
    forall p | p in t.puts
      ensures OwnsTemp(t, p)
    {
      StepKeepsOwner(h, s, a, p);
    }
    forall p, q | p in t.puts && q in t.puts && t.puts[p].key == t.puts[q].key
      ensures p == q
    {
      PutsChange(h, s, a, p);
      PutsChange(h, s, a, q);
      assert p in s.puts ==> OwnsTemp(s, p);
      assert q in s.puts ==> OwnsTemp(s, q);
    }
  }

  lemma StepLeavesNothing(h: Hash, s: State, a: Action)
    requires Inv(h, s) && TempsOwned(s) && ReturnedLeaveNothing(s)
    ensures ReturnedLeaveNothing(Step(h, s, a))
  {
  }

  /** Under the side condition each temporary path has one owner, and finished uploads leave none behind. */
  lemma {:induction false} GapFreeOwnership(h: Hash, run: Run<Action>)
    requires GapFree(h, run)
    ensures TempsOwned(After(h, EMPTY, run)) && ReturnedLeaveNothing(After(h, EMPTY, run))
  {
    if run.Then? {
      var s := After(h, EMPTY, run.before);
      GapFreeOwnership(h, run.before);
      EmptyInv(h);
      RunKeepsInv(h, EMPTY, run.before);
      StepKeepsTempsOwned(h, s, run.action);
      StepLeavesNothing(h, s, run.action);
    }
  }

  /** The side condition rules out the bad rename, hence ensures safety. */
  lemma {:induction false} GapFreeIsSafe(h: Hash, run: Run<Action>)
    requires GapFree(h, run)
    ensures NeverPublishesUnchecked(h, run) && AlwaysVerified(h, run) && AlwaysComplete(h, run)
  {
    if run.Then? {
      GapFreeIsSafe(h, run.before);
      GapFreeOwnership(h, run.before);
      EmptyInv(h);
      RunKeepsInv(h, EMPTY, run.before);
    }
    VerifiedExactly(h, run);
    VerifiedIsComplete(h, run);
  }

  /** Upload 1 copies the body, passes its checks and renames its file. */
  function OnePut(key: string, body: Bytes): Run<Action> {
    Then(Then(Then(Then(Start, Open(1, key, |body|, true)), Chunk(1, body)), Check(1)), Rename(1, true))
  }

  /** Upload 2 then opens the temporary path; upload 1 runs its remove and takes that entry away. */
  function TwoPuts(key: string, body: Bytes): Run<Action> {
    Then(Then(OnePut(key, body), Open(2, key, |body|, true)), Remove(1))
  }

  /** Upload 2 completes its copy, upload 3 opens the temporary path, and upload 2 publishes that file. */
  function ThreePuts(key: string, body: Bytes): Run<Action> {
    Then(Then(Then(Then(Then(TwoPuts(key, body),
      Chunk(2, body)), Check(2)), Open(3, key, |body|, true)), Rename(2, true)), Remove(2))
  }

  /** An upload that has written nothing yet copies a matching body in one chunk and passes both checks. */
  lemma ChunkAndCheck(h: Hash, s: State, p: Pid, body: Bytes)
    requires Live(s, p) && s.files[p] == File(h(body), |body|, [], false)
    requires s.puts[p] == Put(h(body), |body|, Copying([]))
    ensures Step(h, Step(h, s, Chunk(p, body)), Check(p)) ==
      s.(files := s.files[p := File(h(body), |body|, body, true)], puts := s.puts[p := Put(h(body), |body|, Checked)])
  {
    var copied := Step(h, s, Chunk(p, body));
    assert [] + body == body;
    assert copied.puts[p].phase.hashed == body && copied.files[p] == File(h(body), |body|, body, false);
  }

  lemma OnePutState(h: Hash, body: Bytes)
    ensures var key, s := h(body), After(h, EMPTY, OnePut(h(body), body));
      s.dir == map[Final(key) := 1] && s.puts == map[1 := Put(key, |body|, Closing(Accepted))] &&
      s.files == map[1 := File(key, |body|, body, true)] && s.returned == map[]
  {
    var key, size := h(body), |body|;
    var r1 := Then(Start, Open(1, key, size, true));
    var r3 := Then(Then(r1, Chunk(1, body)), Check(1));
    var s1 := Step(h, EMPTY, r1.action);
    assert After(h, EMPTY, r1) == s1;
    ChunkAndCheck(h, s1, 1, body);
    var s3 := Step(h, Step(h, s1, Chunk(1, body)), Check(1));
    assert After(h, EMPTY, r3) == s3;
    assert s3.files == map[1 := File(key, size, body, true)];
    assert s3.dir == map[Temp(key) := 1] && s3.puts == map[1 := Put(key, size, Checked)];
    assert OnePut(key, body) == Then(r3, Rename(1, true));
  }

  lemma SecondOpen(h: Hash, body: Bytes)
    ensures var key := h(body);
      var s := After(h, EMPTY, Then(OnePut(key, body), Open(2, key, |body|, true)));
      s.dir == map[Final(key) := 1, Temp(key) := 2] && s.returned == map[] &&
      s.puts == map[1 := Put(key, |body|, Closing(Accepted)), 2 := Put(key, |body|, Copying([]))] &&
      s.files == map[1 := File(key, |body|, body, true), 2 := File(key, |body|, [], false)]
  {
    OnePutState(h, body);
  }

  lemma TwoPutsState(h: Hash, body: Bytes)
    ensures var key, s := h(body), After(h, EMPTY, TwoPuts(h(body), body));
      s.dir == map[Final(key) := 1] && s.puts == map[2 := Put(key, |body|, Copying([]))] &&
      2 in s.files && s.files[2] == File(key, |body|, [], false) && Fresh(s, 3)
  {
    SecondOpen(h, body);
  }

  /** Upload 3 has opened the temporary path just before upload 2, which has passed its checks, renames. */
  lemma BeforeBadRename(h: Hash, body: Bytes)
    ensures var key := h(body);
      var r9 := Then(Then(Then(TwoPuts(key, body), Chunk(2, body)), Check(2)), Open(3, key, |body|, true));
      var s := After(h, EMPTY, r9);
      s.dir == map[Final(key) := 1, Temp(key) := 3] && 2 in s.puts && s.puts[2] == Put(key, |body|, Checked) &&
      2 in s.files && 3 in s.files && s.files[3] == File(key, |body|, [], false)
  {
    var key, size := h(body), |body|;
    TwoPutsState(h, body);
    var r6 := TwoPuts(key, body);
    var r8 := Then(Then(r6, Chunk(2, body)), Check(2));
    var s6 := After(h, EMPTY, r6);
    ChunkAndCheck(h, s6, 2, body);
    var s8 := Step(h, Step(h, s6, Chunk(2, body)), Check(2));
    assert After(h, EMPTY, r8) == s8;
    assert s8.dir == map[Final(key) := 1] && s8.puts == map[2 := Put(key, size, Checked)];
  }

  /**
    The side condition cannot be dropped: for any digest and any body whose digest differs from that
    of the empty string, three well-behaved uploads of that body end with an empty file at its path,
    although upload 2 was accepted.
  */
  lemma GapBreaksSafety(h: Hash, body: Bytes)
    requires h(body) != h([])
    ensures var key, s := h(body), After(h, EMPTY, ThreePuts(h(body), body));
      2 in s.returned && s.returned[2] == Return(key, Accepted) &&
      Final(key) in s.dir && s.dir[Final(key)] in s.files && s.files[s.dir[Final(key)]].data == [] &&
      !FinalsComplete(h, s)
    ensures !AlwaysComplete(h, ThreePuts(h(body), body)) && !GapFree(h, ThreePuts(h(body), body))
  {
    var key := h(body);
    BeforeBadRename(h, body);
    var r9 := Then(Then(Then(TwoPuts(key, body), Chunk(2, body)), Check(2)), Open(3, key, |body|, true));
    var r10 := Then(r9, Rename(2, true));
    var s10 := Step(h, After(h, EMPTY, r9), Rename(2, true));
    assert After(h, EMPTY, r10) == s10;
    assert s10.dir[Final(key)] == 3 && s10.puts[2].phase == Closing(Accepted);
    var s11 := Step(h, s10, Remove(2));
    assert ThreePuts(key, body) == Then(r10, Remove(2));
    assert !CompleteFile(h, key, s11.files[3]);
    if GapFree(h, ThreePuts(key, body)) {
      GapFreeIsSafe(h, ThreePuts(key, body));
    }
  }

  lemma StepKeepsFinals(h: Hash, s: State, a: Action)
    ensures forall key :: Final(key) in s.dir ==> Final(key) in Step(h, s, a).dir
  {
  }

  /** A path once published stays published for the rest of the run, whatever happens. */
  lemma {:induction false} FinalsOnlyGrow(h: Hash, earlier: Run<Action>, later: Run<Action>, key: string)
    requires Within(earlier, later) && Final(key) in After(h, EMPTY, earlier).dir
    ensures Final(key) in After(h, EMPTY, later).dir
  {
    if earlier != later {
      FinalsOnlyGrow(h, earlier, later.before, key);
      StepKeepsFinals(h, After(h, EMPTY, later.before), later.action);
    }
  }

  ghost predicate CollisionFree(h: Hash) {
    forall a, b :: h(a) == h(b) ==> a == b
  }

  /**
    If the digest has no collisions, what is published at a path stays there, byte for byte, for the
    rest of the run.
  */
  lemma {:induction false} ContentNeverChanges(h: Hash, earlier: Run<Action>, later: Run<Action>, key: string)
    requires CollisionFree(h) && NeverDamages(h, later) && Within(earlier, later)
    requires Final(key) in After(h, EMPTY, earlier).dir
    ensures var s, t := After(h, EMPTY, earlier), After(h, EMPTY, later);
      Final(key) in t.dir && s.dir[Final(key)] in s.files && t.dir[Final(key)] in t.files &&
      t.files[t.dir[Final(key)]].data == s.files[s.dir[Final(key)]].data
  {
    SafetyExactly(h, later);
    if earlier != later {
      ContentNeverChanges(h, earlier, later.before, key);
      StepKeepsFinals(h, After(h, EMPTY, later.before), later.action);
    }
  }

  /** Every upload that was answered as accepted, or is about to be, has its path published. */
  ghost predicate AcceptedArePublished(s: State) {
    (forall p :: p in s.returned && s.returned[p].outcome == Accepted ==> Final(s.returned[p].key) in s.dir) &&
    (forall p :: p in s.puts && s.puts[p].phase == Closing(Accepted) ==> Final(s.puts[p].key) in s.dir)
  }

  lemma StepKeepsAccepted(h: Hash, s: State, a: Action)
    requires AcceptedArePublished(s)
    ensures AcceptedArePublished(Step(h, s, a))
  {
    StepKeepsFinals(h, s, a);
  }

  /** An acknowledged upload is published, for ever, in every run: with crashes, and with opens in the gap. */
  lemma {:induction false} AcceptedIsPublished(h: Hash, run: Run<Action>)
    ensures AcceptedArePublished(After(h, EMPTY, run))
  {
    if run.Then? {
      AcceptedIsPublished(h, run.before);
      StepKeepsAccepted(h, After(h, EMPTY, run.before), run.action);
    }
  }

  /** And what is published there matches its oid, as long as no step damages a published file. */
  lemma AcceptedIsComplete(h: Hash, run: Run<Action>, p: Pid)
    requires NeverDamages(h, run)
    requires p in After(h, EMPTY, run).returned && After(h, EMPTY, run).returned[p].outcome == Accepted
    ensures var s, key := After(h, EMPTY, run), After(h, EMPTY, run).returned[p].key;
      Final(key) in s.dir && s.dir[Final(key)] in s.files && CompleteFile(h, key, s.files[s.dir[Final(key)]])
  {
    AcceptedIsPublished(h, run);
    SafetyExactly(h, run);
  }

  /** What an answer says of the bytes that the upload wrote into its own file. */
  predicate AnswerFits(h: Hash, file: File, outcome: Outcome) {
    match outcome
    case Accepted => |file.data| == file.size && h(file.data) == file.key
    case SizeMismatch => |file.data| != file.size
    case HashMismatch => |file.data| == file.size && h(file.data) != file.key
    case _ => true
  }

  /** Every answer given, or about to be, fits the bytes of its upload, which nobody writes any more. */
  ghost predicate AnswersFit(h: Hash, s: State) {
    (forall p :: p in s.puts && s.puts[p].phase.Closing? ==>
      p in s.files && AnswerFits(h, s.files[p], s.puts[p].phase.outcome)) &&
    (forall p :: p in s.returned && p in s.files ==> AnswerFits(h, s.files[p], s.returned[p].outcome)) &&
    (forall p :: p in s.returned && p !in s.files ==> s.returned[p].outcome in {TempExists, IoError})
  }

  lemma CheckFits(h: Hash, s: State, p: Pid)
    requires PutsInv(s) && AnswersFit(h, s) && p in s.puts && p in DoCheck(h, s, p).puts
    ensures var t := DoCheck(h, s, p);
      p in t.files && (t.puts[p].phase.Closing? ==> AnswerFits(h, t.files[p], t.puts[p].phase.outcome))
  {
  }

  lemma RenameFits(h: Hash, s: State, p: Pid, ok: bool)
    requires PutsInv(s) && FilesInv(h, s) && AnswersFit(h, s) && p in s.puts
    ensures var t := DoRename(s, p, ok);
      p in t.puts && p in t.files && (t.puts[p].phase.Closing? ==> AnswerFits(h, t.files[p], t.puts[p].phase.outcome))
  {
  }

  lemma OwnClosingFits(h: Hash, s: State, a: Action, p: Pid)
    requires ActsAs(a, p) && PutsInv(s) && FilesInv(h, s) && AnswersFit(h, s)
    requires p in Step(h, s, a).puts && Step(h, s, a).puts[p].phase.Closing?
    ensures var t := Step(h, s, a); p in t.files && AnswerFits(h, t.files[p], t.puts[p].phase.outcome)
  {
    match a
    case Open(_, _, _, _) =>
    case Chunk(_, _) =>
    case Abort(_, _, _) =>
    case Check(_) => CheckFits(h, s, p);
    case Rename(_, ok) => RenameFits(h, s, p, ok);
    case Remove(_) =>
  }

  lemma ClosingFits(h: Hash, s: State, a: Action, p: Pid)
    requires Inv(h, s) && AnswersFit(h, s)
    requires p in Step(h, s, a).puts && Step(h, s, a).puts[p].phase.Closing?
    ensures var t := Step(h, s, a); p in t.files && AnswerFits(h, t.files[p], t.puts[p].phase.outcome)
  {
    if ActsAs(a, p) {
      OwnClosingFits(h, s, a, p);
    } else {
      OnlyTheActor(h, s, a, p);
    }
  }

  lemma OwnReturnedFits(h: Hash, s: State, a: Action, p: Pid)
    requires ActsAs(a, p) && PutsInv(s) && FilesInv(h, s) && AnswersFit(h, s) && p in Step(h, s, a).returned
    ensures var t := Step(h, s, a);
      if p in t.files then AnswerFits(h, t.files[p], t.returned[p].outcome)
      else t.returned[p].outcome in {TempExists, IoError}
  {
    match a
    case Open(_, _, _, _) =>
    case Chunk(_, _) =>
    case Abort(_, _, _) =>
    case Check(_) =>
    case Rename(_, _) =>
    case Remove(_) =>
  }

  lemma ReturnedFits(h: Hash, s: State, a: Action, p: Pid)
    requires Inv(h, s) && AnswersFit(h, s) && p in Step(h, s, a).returned
    ensures var t := Step(h, s, a);
      if p in t.files then AnswerFits(h, t.files[p], t.returned[p].outcome)
      else t.returned[p].outcome in {TempExists, IoError}
  {
    if ActsAs(a, p) {
      OwnReturnedFits(h, s, a, p);
    } else {
      OnlyTheActor(h, s, a, p);
    }
  }

  /**
    In every run the answers are true of the bytes each upload received: accepted ones match size and
    oid, a size mismatch is a wrong length, and a hash mismatch the right length with another digest.
  */
  lemma {:induction false} AnswersAreTrue(h: Hash, run: Run<Action>)
    ensures AnswersFit(h, After(h, EMPTY, run))
  {
    if run.Then? {
      var s, t := After(h, EMPTY, run.before), After(h, EMPTY, run);
      AnswersAreTrue(h, run.before);
      EmptyInv(h);
      RunKeepsInv(h, EMPTY, run.before);
      forall p | p in t.puts && t.puts[p].phase.Closing?
        ensures p in t.files && AnswerFits(h, t.files[p], t.puts[p].phase.outcome)
      {
        ClosingFits(h, s, run.action, p);
      }
      forall p | p in t.returned
        ensures if p in t.files then AnswerFits(h, t.files[p], t.returned[p].outcome)
                else t.returned[p].outcome in {TempExists, IoError}
      {
        ReturnedFits(h, s, run.action, p);
      }
    }
  }
}
