/**
  Crashes and the files they leave: what can be left over, what a leftover blocks, and that uploads
  of one oid never observe those of another.
*/
module UploadCrash {
  import opened Common
  import opened KeyPath
  import opened Upload
  import opened UploadSafety

  ghost predicate CrashFree(run: Run<Action>) {
    run.Then? ==> CrashFree(run.before) && !run.action.Crash?
  }

  /** The upload was in flight when a crash of the run ended it. */
  ghost predicate DiedInCrash(h: Hash, run: Run<Action>, p: Pid) {
    run.Then? && (DiedInCrash(h, run.before, p) ||
      (run.action.Crash? && p in run.action.dead && p in After(h, EMPTY, run.before).puts))
  }

  /** Every upload that made a file is live, has returned, or died in a crash. */
  ghost predicate Accounted(h: Hash, run: Run<Action>) {
    forall p :: p in After(h, EMPTY, run).files ==>
      p in After(h, EMPTY, run).puts || p in After(h, EMPTY, run).returned || DiedInCrash(h, run, p)
  }

  /** How one step can take an upload out of flight. */
  lemma UploadsEnd(h: Hash, s: State, a: Action, p: Pid)
    ensures var t := Step(h, s, a);
      (p in t.files && p !in s.files ==> p in t.puts) && (p in s.returned ==> p in t.returned) &&
      (p in s.puts ==> p in t.puts || p in t.returned || (a.Crash? && p in a.dead))
  {
    if !ActsAs(a, p) {
      OnlyTheActor(h, s, a, p);
    }
  }

  lemma {:induction false} FilesAreAccountedFor(h: Hash, run: Run<Action>)
    ensures Accounted(h, run)
  {
    if run.Then? {
      FilesAreAccountedFor(h, run.before);
      var s, t := After(h, EMPTY, run.before), After(h, EMPTY, run);
      forall p | p in t.files
        ensures p in t.puts || p in t.returned || DiedInCrash(h, run, p)
      {
        UploadsEnd(h, s, run.action, p);
      }
    }
  }

  lemma {:induction false} NobodyDiedWithoutCrash(h: Hash, run: Run<Action>, p: Pid)
    requires CrashFree(run)
    ensures !DiedInCrash(h, run, p)
  {
    if run.Then? { NobodyDiedWithoutCrash(h, run.before, p); }
  }

  /** A temporary file that no live upload of its oid will remove. */
  ghost predicate Leftover(s: State, key: string) {
    Temp(key) in s.dir && forall p :: p in s.puts ==> s.puts[p].key != key
  }

  /** Without crashes every temporary file belongs to exactly one live upload, the one of its oid. */
  lemma TempsBelongToLivePuts(h: Hash, run: Run<Action>, key: string)
    requires GapFree(h, run) && CrashFree(run)
    requires Temp(key) in After(h, EMPTY, run).dir
    ensures var s := After(h, EMPTY, run);
      var p := s.dir[Temp(key)];
      p in s.puts && s.puts[p].key == key && forall q :: q in s.puts && s.puts[q].key == key ==> q == p
  {
    var s := After(h, EMPTY, run);
    GapFreeOwnership(h, run);
    FilesAreAccountedFor(h, run);
    NobodyDiedWithoutCrash(h, run, s.dir[Temp(key)]);
    EmptyInv(h);
    RunKeepsInv(h, EMPTY, run);
    assert s.dir[Temp(key)] in s.files;
  }

  /**
    With crashes the only other entries are sound final files and leftovers: temporary files whose
    upload died in a crash, and which no live upload will remove.
  */
  lemma LeftoversAreCrashedTemps(h: Hash, run: Run<Action>, e: Entry)
    requires GapFree(h, run)
    requires e in After(h, EMPTY, run).dir && After(h, EMPTY, run).dir[e] !in After(h, EMPTY, run).puts
    ensures var s := After(h, EMPTY, run);
      s.dir[e] in s.files &&
      if e.Final? then PublishedFile(h, e.key, s.files[s.dir[e]])
      else s.dir[e] !in s.returned && DiedInCrash(h, run, s.dir[e]) && Leftover(s, e.key)
  {
    var s := After(h, EMPTY, run);
    GapFreeIsSafe(h, run);
    GapFreeOwnership(h, run);
    FilesAreAccountedFor(h, run);
    EmptyInv(h);
    RunKeepsInv(h, EMPTY, run);
    forall p | e.Temp? && p in s.puts
      ensures s.puts[p].key != e.key
    {
      assert OwnsTemp(s, p);
    }
  }

  ghost predicate SameBytes(s: State, t: State, p: Pid) {
    p in s.files && p in t.files && t.files[p].data == s.files[p].data
  }

  ghost predicate SamePublished(s: State, t: State, key: string) {
    if Final(key) !in s.dir then Final(key) !in t.dir
    else Final(key) in t.dir && t.dir[Final(key)] == s.dir[Final(key)] && SameBytes(s, t, s.dir[Final(key)])
  }

  lemma OnlyItsPutWrites(h: Hash, s: State, a: Action, p: Pid)
    requires p in s.files && p !in s.puts
    ensures SameBytes(s, Step(h, s, a), p)
  {
  }

  lemma PublishedUntouched(h: Hash, s: State, a: Action, key: string)
    requires Inv(h, s) && Leftover(s, key)
    ensures SamePublished(s, Step(h, s, a), key)
  {
    if Final(key) in Step(h, s, a).dir {
      FinalsComeFromTemps(h, s, a, key);
    }
    StepKeepsFinals(h, s, a);
    if Final(key) in s.dir {
      assert s.files[s.dir[Final(key)]].key == key;
      OnlyItsPutWrites(h, s, a, s.dir[Final(key)]);
    }
  }

  /** Nothing happens at the paths of a leftover's oid: its file stays, and the published one keeps its bytes. */
  lemma StepAtLeftover(h: Hash, s: State, a: Action, key: string)
    requires Inv(h, s) && Leftover(s, key)
    ensures var t := Step(h, s, a);
      Leftover(t, key) && t.dir[Temp(key)] == s.dir[Temp(key)] && SamePublished(s, t, key)
    ensures a.Open? && a.key == key && Fresh(s, a.p) ==>
      var t := Step(h, s, a); a.p in t.returned && t.returned[a.p] == Return(key, if a.ok then TempExists else IoError)
  {
    FilesGrow(h, s, a);
    PublishedUntouched(h, s, a, key);
    TempsChange(h, s, a, key);
    forall p | p in Step(h, s, a).puts
      ensures Step(h, s, a).puts[p].key != key
    {
      PutsChange(h, s, a, p);
    }
  }

  /** A leftover stays for the rest of the run, whatever happens, and with it what is published for its oid. */
  lemma {:induction false} LeftoverStays(h: Hash, init: State, run: Run<Action>, key: string)
    requires Inv(h, init) && Leftover(init, key)
    ensures var t := After(h, init, run); Leftover(t, key) && SamePublished(init, t, key)
  {
    if run.Then? {
      LeftoverStays(h, init, run.before, key);
      RunKeepsInv(h, init, run.before);
      StepAtLeftover(h, After(h, init, run.before), run.action, key);
    } else {
      assert SamePublished(init, init, key);
    }
  }

  /** Every upload of that oid attempted afterwards is refused, for ever. */
  lemma LeftoverRefusesPuts(h: Hash, init: State, run: Run<Action>, p: Pid, key: string, size: int)
    requires Inv(h, init) && Leftover(init, key)
    requires Fresh(After(h, init, run), p)
    ensures var t := After(h, init, Then(run, Open(p, key, size, true)));
      p in t.returned && t.returned[p] == Return(key, TempExists) && p !in t.puts && SamePublished(init, t, key)
  {
    LeftoverStays(h, init, run, key);
    LeftoverStays(h, init, Then(run, Open(p, key, size, true)), key);
    RunKeepsInv(h, init, run);
    StepAtLeftover(h, After(h, init, run), Open(p, key, size, true), key);
  }

  ghost predicate AgreeFresh(s: State, t: State) {
    forall p :: Fresh(s, p) <==> Fresh(t, p)
  }

  ghost predicate AgreeDir(s: State, t: State, key: string) {
    forall e: Entry :: e.key == key ==> DirAt(s, t, e)
  }

  ghost predicate FileOf(s: State, p: Pid, key: string) { p in s.files && s.files[p].key == key }
  ghost predicate PutOf(s: State, p: Pid, key: string) { p in s.puts && s.puts[p].key == key }
  ghost predicate ReturnOf(s: State, p: Pid, key: string) { p in s.returned && s.returned[p].key == key }
  ghost predicate ReaderOf(s: State, r: nat, key: string) { r in s.readers && s.readers[r].key == key }

  ghost predicate FilesAt(s: State, t: State, key: string, p: Pid) {
    if FileOf(s, p, key) then FileOf(t, p, key) && s.files[p] == t.files[p] else !FileOf(t, p, key)
  }

  ghost predicate PutsAt(s: State, t: State, key: string, p: Pid) {
    if PutOf(s, p, key) then PutOf(t, p, key) && s.puts[p] == t.puts[p] else !PutOf(t, p, key)
  }

  ghost predicate ReturnsAt(s: State, t: State, key: string, p: Pid) {
    if ReturnOf(s, p, key) then ReturnOf(t, p, key) && s.returned[p] == t.returned[p] else !ReturnOf(t, p, key)
  }

  ghost predicate ReadersAt(s: State, t: State, key: string, r: nat) {
    (r in s.readers <==> r in t.readers) &&
    if ReaderOf(s, r, key) then ReaderOf(t, r, key) && s.readers[r] == t.readers[r] else !ReaderOf(t, r, key)
  }

  ghost predicate AgreeFiles(s: State, t: State, key: string) { forall p :: FilesAt(s, t, key, p) }
  ghost predicate AgreePuts(s: State, t: State, key: string) { forall p :: PutsAt(s, t, key, p) }
  ghost predicate AgreeReturns(s: State, t: State, key: string) { forall p :: ReturnsAt(s, t, key, p) }
  ghost predicate AgreeReaders(s: State, t: State, key: string) { forall r :: ReadersAt(s, t, key, r) }

  /** Two states look the same to everything that concerns `key`: entries, files, uploads, returns and downloads. */
  ghost predicate AgreeOn(s: State, t: State, key: string) {
    AgreeFresh(s, t) && AgreeDir(s, t, key) && AgreeFiles(s, t, key) && AgreePuts(s, t, key) &&
    AgreeReturns(s, t, key) && AgreeReaders(s, t, key)
  }

  /** A name stops being fresh exactly when an upload is started under it. */
  lemma NamesAreUsedOnce(h: Hash, s: State, a: Action)
    requires PutsInv(s)
    ensures forall p :: Fresh(Step(h, s, a), p) <==> Fresh(s, p) && !(a.Open? && a.p == p)
  {
  }

  lemma StepAgreesFresh(h: Hash, s: State, t: State, a: Action)
    requires PutsInv(s) && PutsInv(t) && AgreeFresh(s, t)
    ensures AgreeFresh(Step(h, s, a), Step(h, t, a))
  {
    NamesAreUsedOnce(h, s, a);
    NamesAreUsedOnce(h, t, a);
  }

  ghost predicate Linked(s: State, p: Pid) {
    p in s.puts ==> p in s.files && p !in s.returned && s.files[p].key == s.puts[p].key
  }

  /** What the two states know of one upload. */
  ghost predicate AgreeOnPut(s: State, t: State, key: string, p: Pid) {
    PutsAt(s, t, key, p) && FilesAt(s, t, key, p) && ReturnsAt(s, t, key, p) && (Fresh(s, p) <==> Fresh(t, p)) &&
    Linked(s, p) && Linked(t, p)
  }

  ghost predicate PutAgreesAfter(s: State, t: State, key: string, p: Pid) {
    PutsAt(s, t, key, p) && FilesAt(s, t, key, p) && ReturnsAt(s, t, key, p)
  }

  lemma OpenHere(s: State, p: Pid, k: string, size: int, ok: bool)
    requires Fresh(s, p)
    ensures var s' := DoOpen(s, p, k, size, ok);
      if ok && Temp(k) !in s.dir then
        p in s'.puts && s'.puts[p] == Put(k, size, Copying([])) &&
        p in s'.files && s'.files[p] == File(k, size, [], false) && p !in s'.returned
      else
        p !in s'.puts && p !in s'.files &&
        p in s'.returned && s'.returned[p] == Return(k, if ok then TempExists else IoError)
  {
  }

  lemma OpenElsewhere(s: State, p: Pid, k: string, size: int, ok: bool, key: string)
    requires Fresh(s, p) && k != key
    ensures var s' := DoOpen(s, p, k, size, ok);
      !PutOf(s', p, key) && !FileOf(s', p, key) && !ReturnOf(s', p, key)
  {
  }

  lemma OpenAgrees(s: State, t: State, p: Pid, k: string, size: int, ok: bool, key: string)
    requires DirAt(s, t, Temp(key)) && AgreeOnPut(s, t, key, p)
    ensures PutAgreesAfter(DoOpen(s, p, k, size, ok), DoOpen(t, p, k, size, ok), key, p)
  {
    if !Fresh(s, p) {
      assert DoOpen(s, p, k, size, ok) == s && DoOpen(t, p, k, size, ok) == t;
    } else if k == key {
      OpenHere(s, p, k, size, ok);
      OpenHere(t, p, k, size, ok);
    } else {
      OpenElsewhere(s, p, k, size, ok, key);
      OpenElsewhere(t, p, k, size, ok, key);
    }
  }

  /** An action of an upload of another oid changes nothing of this one. */
  lemma OtherOids(h: Hash, s: State, a: Action, key: string, p: Pid)
    requires ActsAs(a, p) && !a.Open? && Linked(s, p) && !PutOf(s, p, key)
    ensures PutAgreesAfter(s, Step(h, s, a), key, p)
  {
  }

  lemma ChunkAgrees(s: State, t: State, p: Pid, bytes: Bytes, key: string)
    requires AgreeOnPut(s, t, key, p) && PutOf(s, p, key)
    ensures PutAgreesAfter(DoChunk(s, p, bytes), DoChunk(t, p, bytes), key, p)
  {
  }

  lemma AbortAgrees(s: State, t: State, p: Pid, bytes: Bytes, kept: nat, key: string)
    requires AgreeOnPut(s, t, key, p) && PutOf(s, p, key)
    ensures PutAgreesAfter(DoAbort(s, p, bytes, kept), DoAbort(t, p, bytes, kept), key, p)
  {
  }

  lemma CheckAgrees(h: Hash, s: State, t: State, p: Pid, key: string)
    requires AgreeOnPut(s, t, key, p) && PutOf(s, p, key)
    ensures PutAgreesAfter(DoCheck(h, s, p), DoCheck(h, t, p), key, p)
  {
  }

  lemma RenameAgrees(s: State, t: State, p: Pid, ok: bool, key: string)
    requires DirAt(s, t, Temp(key)) && AgreeOnPut(s, t, key, p) && PutOf(s, p, key)
    ensures PutAgreesAfter(DoRename(s, p, ok), DoRename(t, p, ok), key, p)
  {
  }

  lemma RemoveAgrees(s: State, t: State, p: Pid, key: string)
    requires AgreeOnPut(s, t, key, p) && PutOf(s, p, key)
    ensures PutAgreesAfter(DoRemove(s, p), DoRemove(t, p), key, p)
  {
  }

  lemma PutAgrees(h: Hash, s: State, t: State, a: Action, key: string, p: Pid)
    requires DirAt(s, t, Temp(key)) && AgreeOnPut(s, t, key, p)
    ensures PutAgreesAfter(Step(h, s, a), Step(h, t, a), key, p)
  {
    if a.Open? && a.p == p {
      OpenAgrees(s, t, p, a.key, a.size, a.ok, key);
    } else if ActsAs(a, p) && PutOf(s, p, key) {
      match a
      case Chunk(_, bytes) => ChunkAgrees(s, t, p, bytes, key);
      case Abort(_, bytes, kept) => AbortAgrees(s, t, p, bytes, kept, key);
      case Check(_) => CheckAgrees(h, s, t, p, key);
      case Rename(_, ok) => RenameAgrees(s, t, p, ok, key);
      case Remove(_) => RemoveAgrees(s, t, p, key);
    } else if ActsAs(a, p) {
      OtherOids(h, s, a, key, p);
      OtherOids(h, t, a, key, p);
    } else {
      OnlyTheActor(h, s, a, p);
      OnlyTheActor(h, t, a, p);
    }
  }

  lemma DirAgrees(h: Hash, s: State, t: State, a: Action, e: Entry)
    requires DirAt(s, t, Final(e.key)) && DirAt(s, t, Temp(e.key)) && DirAt(s, t, e)
    requires a.Open? || a.Rename? || a.Remove? ==> AgreeOnPut(s, t, e.key, a.p)
    ensures DirAt(Step(h, s, a), Step(h, t, a), e)
  {
    EntryChange(h, s, a, e);
    EntryChange(h, t, a, e);
  }

  lemma ReadAgrees(s: State, t: State, r: nat, n: nat, key: string)
    requires ReadersAt(s, t, key, r)
    requires ReaderOf(s, r, key) && s.readers[r].Reading? ==>
      FilesAt(s, t, key, s.readers[r].file) && FileOf(s, s.readers[r].file, key)
    ensures ReadersAt(DoRead(s, r, n), DoRead(t, r, n), key, r)
  {
  }

  lemma OpenReaderAgrees(s: State, t: State, r: nat, k: string, key: string)
    requires DirAt(s, t, Final(key)) && ReadersAt(s, t, key, r)
    ensures ReadersAt(DoOpenReader(s, r, k), DoOpenReader(t, r, k), key, r)
  {
  }

  lemma OtherReaders(h: Hash, s: State, a: Action, r: nat)
    requires !((a.OpenReader? || a.Read?) && a.r == r)
    ensures var t := Step(h, s, a);
      (r in t.readers <==> r in s.readers) && (r in s.readers ==> t.readers[r] == s.readers[r])
  {
  }

  lemma ReaderAgrees(h: Hash, s: State, t: State, a: Action, key: string, r: nat)
    requires DirAt(s, t, Final(key)) && ReadersAt(s, t, key, r)
    requires ReaderOf(s, r, key) && s.readers[r].Reading? ==>
      FilesAt(s, t, key, s.readers[r].file) && FileOf(s, s.readers[r].file, key)
    ensures ReadersAt(Step(h, s, a), Step(h, t, a), key, r)
  {
    if a.Read? && a.r == r {
      ReadAgrees(s, t, r, a.n, key);
    } else if a.OpenReader? && a.r == r {
      OpenReaderAgrees(s, t, r, a.key, key);
    } else {
      OtherReaders(h, s, a, r);
      OtherReaders(h, t, a, r);
    }
  }

  /** A step for one oid is the same in two states that agree on it, and a step for another oid shows in neither. */
  lemma StepKeepsAgreement(h: Hash, s: State, t: State, a: Action, key: string)
    requires Inv(h, s) && Inv(h, t) && AgreeOn(s, t, key)
    ensures AgreeOn(Step(h, s, a), Step(h, t, a), key)
  {
    StepAgreesFresh(h, s, t, a);
    forall e: Entry | e.key == key
      ensures DirAt(Step(h, s, a), Step(h, t, a), e)
    {
      assert DirAt(s, t, Final(key)) && DirAt(s, t, Temp(key));
      assert a.Open? || a.Rename? || a.Remove? ==> AgreeOnPut(s, t, key, a.p);
      DirAgrees(h, s, t, a, e);
    }
    forall p
      ensures FilesAt(Step(h, s, a), Step(h, t, a), key, p) && PutsAt(Step(h, s, a), Step(h, t, a), key, p)
      ensures ReturnsAt(Step(h, s, a), Step(h, t, a), key, p)
    {
      assert DirAt(s, t, Temp(key)) && AgreeOnPut(s, t, key, p);
      PutAgrees(h, s, t, a, key, p);
    }
    forall r
      ensures ReadersAt(Step(h, s, a), Step(h, t, a), key, r)
    {
      assert DirAt(s, t, Final(key)) && ReadersAt(s, t, key, r);
      if ReaderOf(s, r, key) && s.readers[r].Reading? {
        assert ReaderMatches(s, s.readers[r]) && FilesAt(s, t, key, s.readers[r].file);
      }
      ReaderAgrees(h, s, t, a, key, r);
    }
  }

  /**
    Uploads and downloads of one oid do not depend on what happens to any other: two stores that agree
    on the oid still agree on it after any run, with any uploads, failures and crashes of other oids.
  */
  lemma {:induction false} OidsAreIndependent(h: Hash, s: State, t: State, run: Run<Action>, key: string)
    requires Inv(h, s) && Inv(h, t) && AgreeOn(s, t, key)
    ensures AgreeOn(After(h, s, run), After(h, t, run), key)
  {
    if run.Then? {
      OidsAreIndependent(h, s, t, run.before, key);
      RunKeepsInv(h, s, run.before);
      RunKeepsInv(h, t, run.before);
      StepKeepsAgreement(h, After(h, s, run.before), After(h, t, run.before), run.action, key);
    }
  }

  /** In particular a leftover makes no difference to any other oid, in any run. */
  lemma LeftoverHarmsOnlyItsOid(h: Hash, s: State, run: Run<Action>, stuck: string, key: string)
    requires Inv(h, s) && Leftover(s, stuck) && key != stuck
    ensures AgreeOn(After(h, s, run), After(h, s.(dir := s.dir - {Temp(stuck)}), run), key)
  {
    OidsAreIndependent(h, s, s.(dir := s.dir - {Temp(stuck)}), run, key);
  }
}
