/** The file content store as the server uses it, one upload at a time, as a run of the upload protocol. */
module FileContentStore {
  import opened Common
  import opened KeyPath
  import opened Upload
  import opened UploadSafety
  import opened VerifiedUpload

  /** Whether creating the temporary file and renaming it succeed as far as the disk is concerned. */
  datatype DiskIo = DiskIo(openOk: bool, renameOk: bool)

  function ChunkActions(p: Pid, chunks: seq<Bytes>): seq<Action> {
    seq(|chunks|, i requires 0 <= i < |chunks| => Chunk(p, chunks[i]))
  }

  /** The last three steps of an upload that has copied its whole body. */
  function LastActions(p: Pid, body: Body, io: DiskIo): seq<Action> {
    [if body.fails then Abort(p, [], 0) else Check(p), Rename(p, io.renameOk), Remove(p)]
  }

  /** The steps of one upload with no other in between; those that do not apply change nothing. */
  function PutActions(p: Pid, key: string, size: int, body: Body, io: DiskIo): seq<Action> {
    [Open(p, key, size, io.openOk)] + ChunkActions(p, body.chunks) + LastActions(p, body, io)
  }

  /** The outcome of an upload whose temporary file could be created. */
  function SoloOutcome(h: Hash, key: string, size: int, body: Body, io: DiskIo): Outcome {
    var verdict := Judge(h, key, size, Joined(body.chunks));
    if body.fails then IoError else if verdict == Accepted && !io.renameOk then IoError else verdict
  }

  predicate PassesChecks(h: Hash, key: string, size: int, body: Body) {
    !body.fails && Judge(h, key, size, Joined(body.chunks)) == Accepted
  }

  /** What each answer of an upload means, and when it is given. */
  lemma SoloOutcomeExactly(h: Hash, key: string, size: int, body: Body, io: DiskIo)
    ensures var data, outcome := Joined(body.chunks), SoloOutcome(h, key, size, body, io);
      (outcome == Accepted <==> !body.fails && Matches(h, key, size, data) && io.renameOk) &&
      (outcome == SizeMismatch <==> !body.fails && |data| != size) &&
      (outcome == HashMismatch <==> !body.fails && |data| == size && h(data) != key) &&
      (outcome == IoError <==> body.fails || (Matches(h, key, size, data) && !io.renameOk))
  {
  }

  /** What one undisturbed upload makes of the state. */
  function SoloResult(h: Hash, s: State, p: Pid, key: string, size: int, body: Body, io: DiskIo): State {
    if !io.openOk then s.(returned := s.returned[p := Return(key, IoError)])
    else if Temp(key) in s.dir then s.(returned := s.returned[p := Return(key, TempExists)])
    else
      var outcome := SoloOutcome(h, key, size, body, io);
      s.(dir := if outcome == Accepted then s.dir[Final(key) := p] else s.dir,
         files := s.files[p := File(key, size, Joined(body.chunks), PassesChecks(h, key, size, body))],
         returned := s.returned[p := Return(key, outcome)])
  }

  lemma {:induction false} PlayConcat(h: Hash, s: State, xs: seq<Action>, ys: seq<Action>)
    ensures Play(h, s, xs + ys) == Play(h, Play(h, s, xs), ys)
    decreases xs
  {
    if xs == [] {
      assert xs + ys == ys;
    } else {
      assert (xs + ys)[1..] == xs[1..] + ys;
      PlayConcat(h, Step(h, s, xs[0]), xs[1..], ys);
    }
  }

  /** The state with the upload `p` having copied `data` so far. */
  function HasCopied(s: State, p: Pid, data: Bytes): State
    requires Live(s, p)
  {
    SetPhase(SetData(s, p, data), p, Copying(data))
  }

  lemma ChunkCopies(h: Hash, s: State, p: Pid, data: Bytes, chunk: Bytes)
    requires Live(s, p)
    ensures Step(h, HasCopied(s, p, data), Chunk(p, chunk)) == HasCopied(s, p, data + chunk)
  {
  }

  lemma {:induction false} PlayChunks(h: Hash, s: State, p: Pid, chunks: seq<Bytes>)
    requires Live(s, p)
    ensures Play(h, HasCopied(s, p, []), ChunkActions(p, chunks)) == HasCopied(s, p, Joined(chunks))
    decreases |chunks|
  {
    if chunks != [] {
      var n, start := |chunks| - 1, HasCopied(s, p, []);
      PlayChunks(h, s, p, chunks[..n]);
      assert ChunkActions(p, chunks) == ChunkActions(p, chunks[..n]) + [Chunk(p, chunks[n])];
      PlayConcat(h, start, ChunkActions(p, chunks[..n]), [Chunk(p, chunks[n])]);
      var copied := HasCopied(s, p, Joined(chunks[..n]));
      ChunkCopies(h, s, p, Joined(chunks[..n]), chunks[n]);
      assert Play(h, copied, [Chunk(p, chunks[n])]) == Play(h, Step(h, copied, Chunk(p, chunks[n])), []);
    }
  }

  lemma {:induction false} PlayNothing(h: Hash, s: State, p: Pid, xs: seq<Action>)
    requires p !in s.puts
    requires forall x :: x in xs ==> (x.Chunk? || x.Abort? || x.Check? || x.Rename? || x.Remove?) && x.p == p
    ensures Play(h, s, xs) == s
    decreases xs
  {
    if xs != [] {
      assert xs[0] in xs;
      PlayNothing(h, s, p, xs[1..]);
    }
  }

  lemma PlayThree(h: Hash, s: State, x: Action, y: Action, z: Action)
    ensures Play(h, s, [x, y, z]) == Step(h, Step(h, Step(h, s, x), y), z)
  {
    var s1 := Step(h, s, x);
    var s2 := Step(h, s1, y);
    assert [x, y, z][1..] == [y, z] && [y, z][1..] == [z];
    assert Play(h, s2, [z]) == Step(h, s2, z);
    assert Play(h, s1, [y, z]) == Play(h, s2, [z]);
  }

  /** The state of an upload that runs alone and has copied its whole body. */
  function Copied(s: State, p: Pid, key: string, size: int, data: Bytes, phase: Phase): State {
    s.(dir := s.dir[Temp(key) := p], files := s.files[p := File(key, size, data, phase == Checked)],
       puts := s.puts[p := Put(key, size, phase)])
  }

  lemma AfterCheck(h: Hash, s: State, p: Pid, key: string, size: int, data: Bytes)
    ensures Step(h, Copied(s, p, key, size, data, Copying(data)), Check(p)) ==
      Copied(s, p, key, size, data,
             if Judge(h, key, size, data) == Accepted then Checked else Closing(Judge(h, key, size, data)))
  {
  }

  lemma AfterAbort(h: Hash, s: State, p: Pid, key: string, size: int, data: Bytes)
    ensures Step(h, Copied(s, p, key, size, data, Copying(data)), Abort(p, [], 0)) ==
      Copied(s, p, key, size, data, Closing(IoError))
  {
    assert data + [] == data;
  }

  lemma AfterRename(h: Hash, s: State, p: Pid, key: string, size: int, data: Bytes, ok: bool)
    requires Fresh(s, p) && Temp(key) !in s.dir
    ensures Step(h, Step(h, Copied(s, p, key, size, data, Checked), Rename(p, ok)), Remove(p)) ==
      s.(dir := if ok then s.dir[Final(key) := p] else s.dir, files := s.files[p := File(key, size, data, true)],
         returned := s.returned[p := Return(key, if ok then Accepted else IoError)])
  {
    var s1 := Copied(s, p, key, size, data, Checked);
    var s2 := Step(h, s1, Rename(p, ok));
    assert s2.puts == s.puts[p := Put(key, size, Closing(if ok then Accepted else IoError))];
    assert s2.dir - {Temp(key)} == if ok then s.dir[Final(key) := p] else s.dir;
    assert s2.puts - {p} == s.puts;
  }

  lemma AfterFailure(h: Hash, s: State, p: Pid, key: string, size: int, data: Bytes, outcome: Outcome, ok: bool)
    requires Fresh(s, p) && Temp(key) !in s.dir
    ensures Step(h, Step(h, Copied(s, p, key, size, data, Closing(outcome)), Rename(p, ok)), Remove(p)) ==
      s.(files := s.files[p := File(key, size, data, false)], returned := s.returned[p := Return(key, outcome)])
  {
    var s1 := Copied(s, p, key, size, data, Closing(outcome));
    assert Step(h, s1, Rename(p, ok)) == s1;
    assert s1.dir - {Temp(key)} == s.dir && s1.puts - {p} == s.puts;
  }

  lemma SplitPutActions(h: Hash, s: State, p: Pid, key: string, size: int, body: Body, io: DiskIo)
    ensures var started := DoOpen(s, p, key, size, io.openOk);
      Play(h, s, PutActions(p, key, size, body, io)) ==
      Play(h, Play(h, started, ChunkActions(p, body.chunks)), LastActions(p, body, io))
  {
    var chunks, last := ChunkActions(p, body.chunks), LastActions(p, body, io);
    var actions := PutActions(p, key, size, body, io);
    assert actions[0] == Open(p, key, size, io.openOk) && actions[1..] == chunks + last;
    PlayConcat(h, DoOpen(s, p, key, size, io.openOk), chunks, last);
  }

  lemma CopyingOn(s: State, p: Pid, key: string, size: int, data: Bytes)
    ensures var started := Copied(s, p, key, size, [], Copying([]));
      Live(started, p) && HasCopied(started, p, data) == Copied(s, p, key, size, data, Copying(data))
  {
  }

  lemma SoloCopied(h: Hash, s: State, p: Pid, key: string, size: int, body: Body)
    requires Fresh(s, p) && Temp(key) !in s.dir
    ensures var data := Joined(body.chunks);
      Play(h, DoOpen(s, p, key, size, true), ChunkActions(p, body.chunks)) ==
      Copied(s, p, key, size, data, Copying(data))
  {
    var started := Copied(s, p, key, size, [], Copying([]));
    assert DoOpen(s, p, key, size, true) == started;
    CopyingOn(s, p, key, size, []);
    CopyingOn(s, p, key, size, Joined(body.chunks));
    PlayChunks(h, started, p, body.chunks);
  }

  lemma SoloFinished(h: Hash, s: State, p: Pid, key: string, size: int, body: Body, io: DiskIo)
    requires Fresh(s, p) && io.openOk && Temp(key) !in s.dir
    ensures var data := Joined(body.chunks);
      Play(h, Copied(s, p, key, size, data, Copying(data)), LastActions(p, body, io)) ==
      SoloResult(h, s, p, key, size, body, io)
  {
    var data := Joined(body.chunks);
    PlayThree(h, Copied(s, p, key, size, data, Copying(data)),
              LastActions(p, body, io)[0], Rename(p, io.renameOk), Remove(p));
    if body.fails {
      AfterAbort(h, s, p, key, size, data);
    } else {
      AfterCheck(h, s, p, key, size, data);
    }
    if PassesChecks(h, key, size, body) {
      AfterRename(h, s, p, key, size, data, io.renameOk);
    } else {
      AfterFailure(h, s, p, key, size, data, SoloOutcome(h, key, size, body, io), io.renameOk);
    }
  }

  /** An upload that runs undisturbed, from any state, does exactly this. */
  lemma SoloPut(h: Hash, s: State, p: Pid, key: string, size: int, body: Body, io: DiskIo)
    requires Fresh(s, p)
    ensures Play(h, s, PutActions(p, key, size, body, io)) == SoloResult(h, s, p, key, size, body, io)
  {
    SplitPutActions(h, s, p, key, size, body, io);
    if io.openOk && Temp(key) !in s.dir {
      SoloCopied(h, s, p, key, size, body);
      SoloFinished(h, s, p, key, size, body, io);
    } else {
      var started := DoOpen(s, p, key, size, io.openOk);
      PlayNothing(h, started, p, ChunkActions(p, body.chunks));
      PlayNothing(h, started, p, LastActions(p, body, io));
    }
  }

  lemma {:induction false} GapFreeContinues(h: Hash, run: Run<Action>, xs: seq<Action>)
    requires GapFree(h, run) && forall x :: x in xs ==> !x.Open?
    ensures GapFree(h, Continue(run, xs))
    decreases xs
  {
    if xs != [] {
      assert xs[0] in xs;
      GapFreeContinues(h, Then(run, xs[0]), xs[1..]);
    }
  }

  /** One upload after another satisfies the side condition of the safety theorem. */
  lemma SequentialIsGapFree(h: Hash, run: Run<Action>, p: Pid, key: string, size: int, body: Body, io: DiskIo)
    requires GapFree(h, run) && After(h, EMPTY, run).puts == map[]
    ensures GapFree(h, Continue(run, PutActions(p, key, size, body, io)))
  {
    var xs := PutActions(p, key, size, body, io);
    assert Continue(run, xs) == Continue(Then(run, xs[0]), xs[1..]);
    assert forall x :: x in xs[1..] ==> !x.Open?;
    GapFreeContinues(h, Then(run, xs[0]), xs[1..]);
  }

  /** The disk holds the directory and the bytes of the state, and no upload is in flight. */
  ghost predicate Resting(s: State, dir: map<Entry, Pid>, bytes: map<Pid, Bytes>, next: Pid) {
    s.puts == map[] && dir == s.dir &&
    bytes.Keys == s.files.Keys && (forall p :: p in bytes ==> bytes[p] == s.files[p].data) &&
    (forall p :: p in s.files || p in s.returned ==> p < next) &&
    (forall e :: e in dir ==> dir[e] in bytes)
  }

  /** The disk is where a run of the protocol ended with no upload in flight; names below `next` are used. */
  ghost predicate AtRest(h: Hash, run: Run<Action>, dir: map<Entry, Pid>, bytes: map<Pid, Bytes>, next: Pid) {
    GapFree(h, run) && Resting(After(h, EMPTY, run), dir, bytes, next)
  }

  /** `contents` are the published objects of the disk. */
  ghost predicate Holds(contents: map<string, Bytes>, dir: map<Entry, Pid>, bytes: map<Pid, Bytes>) {
    (forall key :: key in contents <==> Final(key) in dir) &&
    (forall key :: key in contents ==> dir[Final(key)] in bytes && contents[key] == bytes[dir[Final(key)]])
  }

  /** Whether an upload ends with its file published. */
  predicate Publishes(h: Hash, dir: map<Entry, Pid>, oid: string, size: int, body: Body, io: DiskIo) {
    io.openOk && Temp(oid) !in dir && SoloOutcome(h, oid, size, body, io) == Accepted
  }

  /** The entries after an upload: its temporary file is gone again, whatever the outcome. */
  function DirAfter(h: Hash, dir: map<Entry, Pid>, p: Pid, oid: string, size: int, body: Body,
                    io: DiskIo): map<Entry, Pid>
  {
    if Publishes(h, dir, oid, size, body, io) then dir[Final(oid) := p] else dir
  }

  function BytesAfter(dir: map<Entry, Pid>, bytes: map<Pid, Bytes>, p: Pid, oid: string, body: Body,
                      io: DiskIo): map<Pid, Bytes>
  {
    if io.openOk && Temp(oid) !in dir then bytes[p := Joined(body.chunks)] else bytes
  }

  lemma RestAfterSolo(h: Hash, s: State, dir: map<Entry, Pid>, bytes: map<Pid, Bytes>, p: Pid,
                      oid: string, size: int, body: Body, io: DiskIo)
    requires Resting(s, dir, bytes, p)
    ensures Resting(SoloResult(h, s, p, oid, size, body, io), DirAfter(h, dir, p, oid, size, body, io),
                    BytesAfter(dir, bytes, p, oid, body, io), p + 1)
  {
  }

  lemma RestAfterPut(h: Hash, run: Run<Action>, dir: map<Entry, Pid>, bytes: map<Pid, Bytes>, p: Pid,
                     oid: string, size: int, body: Body, io: DiskIo)
    requires AtRest(h, run, dir, bytes, p)
    ensures AtRest(h, Continue(run, PutActions(p, oid, size, body, io)), DirAfter(h, dir, p, oid, size, body, io),
                   BytesAfter(dir, bytes, p, oid, body, io), p + 1)
  {
    var s, actions := After(h, EMPTY, run), PutActions(p, oid, size, body, io);
    SequentialIsGapFree(h, run, p, oid, size, body, io);
    SoloPut(h, s, p, oid, size, body, io);
    PlayIsAfter(h, EMPTY, run, actions);
    RestAfterSolo(h, s, dir, bytes, p, oid, size, body, io);
  }

  lemma ContentsAfterPut(h: Hash, contents: map<string, Bytes>, dir: map<Entry, Pid>, bytes: map<Pid, Bytes>, p: Pid,
                         oid: string, size: int, body: Body, io: DiskIo)
    requires p !in bytes && Holds(contents, dir, bytes)
    ensures Holds(if Publishes(h, dir, oid, size, body, io) then contents[oid := Joined(body.chunks)] else contents,
                  DirAfter(h, dir, p, oid, size, body, io), BytesAfter(dir, bytes, p, oid, body, io))
  {
  }

  class ContentStore {
    const hash: Hash
    var dir: map<Entry, Pid>
    var bytes: map<Pid, Bytes>
    var next: Pid
    ghost var run: Run<Action>               // the protocol steps taken so far
    ghost var contents: map<string, Bytes>   // the published objects

    ghost predicate Valid()
      reads this
    {
      AtRest(hash, run, dir, bytes, next) && Holds(contents, dir, bytes)
    }

    /** No crashed upload left a temporary file. */
    ghost predicate NoLeftovers()
      reads this
    {
      forall e :: e in dir ==> e.Final?
    }

    constructor (hash: Hash)
      ensures Valid() && NoLeftovers() && contents == map[] && this.hash == hash
    {
      this.hash := hash;
      dir, bytes, next := map[], map[], 0;
      run, contents := Start, map[];
    }

    /** Copies the chunks into the hash and into the file. */
    method Copy(p: Pid, chunks: seq<Bytes>) returns (hashed: Bytes, written: nat)
      requires p in bytes && bytes[p] == []
      modifies this`bytes
      ensures hashed == Joined(chunks) && written == |hashed| && bytes == old(bytes)[p := hashed]
    {
      hashed, written := [], 0;
      for i := 0 to |chunks|
        invariant hashed == Joined(chunks[..i]) && written == |hashed|
        invariant bytes == old(bytes)[p := hashed]
      {
        assert chunks[..i + 1][..i] == chunks[..i];
        hashed := hashed + chunks[i];
        bytes := bytes[p := bytes[p] + chunks[i]];
        written := written + |chunks[i]|;
      }
      assert chunks[..|chunks|] == chunks;
    }

    /** Copies, compares the size, then the hash, renames, and in every case removes the temporary path. */
    method CopyAndPublish(p: Pid, oid: string, size: int, body: Body, renameOk: bool) returns (outcome: Outcome)
      requires Temp(oid) !in dir
      modifies this`dir, this`bytes
      ensures outcome == SoloOutcome(hash, oid, size, body, DiskIo(true, renameOk))
      ensures bytes == old(bytes)[p := Joined(body.chunks)]
      ensures dir == if outcome == Accepted then old(dir)[Final(oid) := p] else old(dir)
    {
      var temp := Temp(oid);
      dir, bytes := dir[temp := p], bytes[p := []];
      var hashed, written := Copy(p, body.chunks);
      if body.fails {
        outcome := IoError;
      } else if written != size {
        outcome := SizeMismatch;
      } else if hash(hashed) != oid {
        outcome := HashMismatch;
      } else if !renameOk || temp !in dir {
        outcome := IoError;
      } else {
        dir := (dir - {temp})[Final(oid) := dir[temp]];
        outcome := Accepted;
      }
      dir := dir - {temp};
    }

    /** Uploads a body; the disk then is where the undisturbed steps of the protocol lead. */
    method Put(oid: string, size: int, body: Body, io: DiskIo) returns (outcome: Outcome)
      requires Valid()
      modifies this
      ensures Valid() && run == Continue(old(run), PutActions(old(next), oid, size, body, io))
      ensures outcome == if !io.openOk then IoError else if Temp(oid) in old(dir) then TempExists
                         else SoloOutcome(hash, oid, size, body, io)
      ensures contents == Stored(old(contents), oid, Joined(body.chunks), outcome)
      ensures var data, copied := Joined(body.chunks), io.openOk && Temp(oid) !in old(dir) && !body.fails;
        (outcome == Accepted <==> copied && Matches(hash, oid, size, data) && io.renameOk) &&
        (outcome == SizeMismatch <==> copied && |data| != size) &&
        (outcome == HashMismatch <==> copied && |data| == size && hash(data) != oid)
      ensures outcome == TempExists <==> io.openOk && Temp(oid) in old(dir)
      ensures forall key :: Temp(key) in dir <==> Temp(key) in old(dir)
    {
      SoloOutcomeExactly(hash, oid, size, body, io);
      var p := next;
      ghost var before, bytesBefore, runBefore := dir, bytes, run;
      if !io.openOk {
        outcome := IoError;
      } else if Temp(oid) in dir {
        outcome := TempExists;
      } else {
        outcome := CopyAndPublish(p, oid, size, body, io.renameOk);
      }
      assert dir == DirAfter(hash, before, p, oid, size, body, io);
      assert bytes == BytesAfter(before, bytesBefore, p, oid, body, io);
      RestAfterPut(hash, runBefore, before, bytesBefore, p, oid, size, body, io);
      ContentsAfterPut(hash, contents, before, bytesBefore, p, oid, size, body, io);
      run, next := Continue(run, PutActions(p, oid, size, body, io)), next + 1;
      contents := Stored(contents, oid, Joined(body.chunks), outcome);
    }

    /** A file that cannot be opened is as good as absent. */
    method Get(oid: string, openOk: bool) returns (content: Option<Bytes>)
      requires Valid()
      ensures content == if oid in contents && openOk then Some(contents[oid]) else None
    {
      content := if Final(oid) in dir && openOk then Some(bytes[dir[Final(oid)]]) else None;
    }

    /** Only a path known to be absent counts as absent: any other failure to look does not. */
    method Exists(oid: string, statOk: bool) returns (found: bool)
      requires Valid()
      ensures found <==> oid in contents || !statOk
    {
      found := if statOk then Final(oid) in dir else true;
    }

    /** Every object the store holds matches its oid. */
    lemma ContentsMatchOids()
      requires Valid()
      ensures forall oid :: oid in contents ==> hash(contents[oid]) == oid
    {
      GapFreeIsSafe(hash, run);
      forall oid | oid in contents
        ensures hash(contents[oid]) == oid
      {
        assert PublishedFile(hash, oid, After(hash, EMPTY, run).files[dir[Final(oid)]]);
      }
    }
  }
}
