/**
  The upload protocol of the file content store, one file-system step at a time. Any number of
  uploads and downloads are in flight together, and a crash may end any of them between two steps.
*/
module Upload {
  import opened Common
  import opened KeyPath

  type Pid = nat

  /** The digest of a byte string in hexadecimal. Nothing is assumed about it. */
  type Hash = Bytes -> string

  datatype Outcome = Accepted | SizeMismatch | HashMismatch | TempExists | IoError | S3WriteError

  /**
    A file is named by the upload that created it, so a file outlives its directory entries.
    `verified` records that its upload has passed the size check and the hash check.
  */
  datatype File = File(key: string, size: int, data: Bytes, verified: bool)

  /** Where an upload is: copying the body, about to rename, or about to run the deferred remove. */
  datatype Phase = Copying(hashed: Bytes) | Checked | Closing(outcome: Outcome)
  datatype Put = Put(key: string, size: int, phase: Phase)

  datatype Return = Return(key: string, outcome: Outcome)

  /** A download holds the file it opened, whatever later happens to the path. */
  datatype Reader = Missing(key: string) | Reading(key: string, file: Pid, got: Bytes)

  datatype State = State(
    dir: map<Entry, Pid>,
    files: map<Pid, File>,
    puts: map<Pid, Put>,
    returned: map<Pid, Return>,
    readers: map<nat, Reader>)

  const EMPTY := State(map[], map[], map[], map[], map[])

  datatype Action =
    | Open(p: Pid, key: string, size: int, ok: bool)  // make the directory, create the temporary file exclusively
    | Chunk(p: Pid, bytes: Bytes)                     // one write to the hash and to the file
    | Abort(p: Pid, bytes: Bytes, kept: nat)          // an error: the hash saw `bytes`, the file `kept` of them
    | Check(p: Pid)                                   // end of body: close, compare size, compare hash
    | Rename(p: Pid, ok: bool)                        // publish whatever the temporary path names now
    | Remove(p: Pid)                                  // the deferred remove, then return
    | Crash(dead: set<Pid>)
    | OpenReader(r: nat, key: string)
    | Read(r: nat, n: nat)

  predicate Fresh(s: State, p: Pid) {
    p !in s.files && p !in s.puts && p !in s.returned
  }

  /** The upload `p` is live and its file exists. */
  predicate Live(s: State, p: Pid) {
    p in s.puts && p in s.files
  }

  function SetPhase(s: State, p: Pid, phase: Phase): State
    requires p in s.puts
  {
    s.(puts := s.puts[p := s.puts[p].(phase := phase)])
  }

  function SetData(s: State, p: Pid, data: Bytes): State
    requires p in s.files
  {
    s.(files := s.files[p := s.files[p].(data := data)])
  }

  /** Makes the directory and creates the temporary file, exclusively. */
  function DoOpen(s: State, p: Pid, key: string, size: int, ok: bool): State {
    if !Fresh(s, p) then s
    else if !ok then s.(returned := s.returned[p := Return(key, IoError)])
    else if Temp(key) in s.dir then s.(returned := s.returned[p := Return(key, TempExists)])
    else s.(dir := s.dir[Temp(key) := p],
            files := s.files[p := File(key, size, [], false)],
            puts := s.puts[p := Put(key, size, Copying([]))])
  }

  /** One write to the hash and to the file. */
  function DoChunk(s: State, p: Pid, bytes: Bytes): State {
    if Live(s, p) && s.puts[p].phase.Copying? then
      SetPhase(SetData(s, p, s.files[p].data + bytes), p, Copying(s.puts[p].phase.hashed + bytes))
    else s
  }

  /** A read or write error while copying: the hash saw `bytes`, the file only `kept` of them. */
  function DoAbort(s: State, p: Pid, bytes: Bytes, kept: nat): State {
    if Live(s, p) && s.puts[p].phase.Copying? && kept <= |bytes| then
      SetPhase(SetData(s, p, s.files[p].data + bytes[..kept]), p, Closing(IoError))
    else s
  }

  /** The end of the body: the size is compared first, then the hash. */
  function Verdict(h: Hash, put: Put): Phase
    requires put.phase.Copying?
  {
    if |put.phase.hashed| != put.size then Closing(SizeMismatch)
    else if h(put.phase.hashed) != put.key then Closing(HashMismatch)
    else Checked
  }

  function DoCheck(h: Hash, s: State, p: Pid): State {
    if Live(s, p) && s.puts[p].phase.Copying? then
      var verdict := Verdict(h, s.puts[p]);
      SetPhase(s.(files := s.files[p := s.files[p].(verified := verdict == Checked)]), p, verdict)
    else s
  }

  /** Publishes whatever file the temporary path names at this moment. */
  function DoRename(s: State, p: Pid, ok: bool): State {
    if Live(s, p) && s.puts[p].phase.Checked? then
      var key := s.puts[p].key;
      if !ok || Temp(key) !in s.dir then SetPhase(s, p, Closing(IoError))
      else SetPhase(s.(dir := (s.dir - {Temp(key)})[Final(key) := s.dir[Temp(key)]]), p, Closing(Accepted))
    else s
  }

  /** The deferred remove, of whatever the temporary path names, and the return. */
  function DoRemove(s: State, p: Pid): State {
    if Live(s, p) && s.puts[p].phase.Closing? then
      var put := s.puts[p];
      s.(dir := s.dir - {Temp(put.key)}, puts := s.puts - {p},
         returned := s.returned[p := Return(put.key, put.phase.outcome)])
    else s
  }

  function DoOpenReader(s: State, r: nat, key: string): State {
    if r in s.readers then s
    else if Final(key) in s.dir then s.(readers := s.readers[r := Reading(key, s.dir[Final(key)], [])])
    else s.(readers := s.readers[r := Missing(key)])
  }

  function DoRead(s: State, r: nat, n: nat): State {
    if r in s.readers && s.readers[r].Reading? && s.readers[r].file in s.files then
      var reader, data := s.readers[r], s.files[s.readers[r].file].data;
      var end := if |reader.got| + n <= |data| then |reader.got| + n else |data|;
      if |reader.got| <= end then
        s.(readers := s.readers[r := reader.(got := reader.got + data[|reader.got|..end])])
      else s
    else s
  }

  /** One step; an action that does not apply leaves the state as it is. */
  function Step(h: Hash, s: State, a: Action): State {
    match a
    case Open(p, key, size, ok) => DoOpen(s, p, key, size, ok)
    case Chunk(p, bytes) => DoChunk(s, p, bytes)
    case Abort(p, bytes, kept) => DoAbort(s, p, bytes, kept)
    case Check(p) => DoCheck(h, s, p)
    case Rename(p, ok) => DoRename(s, p, ok)
    case Remove(p) => DoRemove(s, p)
    case Crash(dead) => s.(puts := s.puts - dead)
    case OpenReader(r, key) => DoOpenReader(s, r, key)
    case Read(r, n) => DoRead(s, r, n)
  }

  function After(h: Hash, init: State, run: Run<Action>): State {
    match run
    case Start => init
    case Then(before, a) => Step(h, After(h, init, before), a)
  }

  /** The state after the actions `xs`, in order. */
  function Play(h: Hash, s: State, xs: seq<Action>): State
    decreases xs
  {
    if xs == [] then s else Play(h, Step(h, s, xs[0]), xs[1..])
  }

  lemma {:induction false} PlayIsAfter(h: Hash, init: State, run: Run<Action>, xs: seq<Action>)
    ensures After(h, init, Continue(run, xs)) == Play(h, After(h, init, run), xs)
    decreases xs
  {
    if xs != [] { PlayIsAfter(h, init, Then(run, xs[0]), xs[1..]); }
  }

  ghost predicate Sound(h: Hash, file: File) {
    h(file.data) == file.key && |file.data| == file.size
  }

  ghost predicate FilesInv(h: Hash, s: State) {
    forall p :: p in s.files && s.files[p].verified ==> Sound(h, s.files[p])
  }

  ghost predicate ReaderMatches(s: State, reader: Reader)
    requires reader.Reading?
  {
    reader.file in s.files && s.files[reader.file].key == reader.key && reader.got <= s.files[reader.file].data
  }

  ghost predicate ReadersInv(s: State) {
    forall r :: r in s.readers && s.readers[r].Reading? ==> ReaderMatches(s, s.readers[r])
  }

  ghost predicate PutMatches(put: Put, file: File) {
    file.key == put.key && file.size == put.size &&
    match put.phase
    case Copying(hashed) => file.data == hashed && !file.verified
    case Checked => file.verified
    case Closing(outcome) => outcome == Accepted ==> file.verified
  }

  /** A live upload has its file, which holds exactly the bytes the hash has seen while it copies. */
  ghost predicate PutsInv(s: State) {
    forall p :: p in s.puts ==> p in s.files && p !in s.returned && PutMatches(s.puts[p], s.files[p])
  }

  /** Every directory entry names a file uploaded for the same oid. */
  ghost predicate DirInv(s: State) {
    forall e :: e in s.dir ==> s.dir[e] in s.files && s.files[s.dir[e]].key == e.key
  }

  /** What holds in every run, whatever the interleaving. */
  ghost predicate Inv(h: Hash, s: State) {
    PutsInv(s) && FilesInv(h, s) && DirInv(s) && ReadersInv(s)
  }

  predicate ActsAs(a: Action, p: Pid) {
    (a.Open? || a.Chunk? || a.Abort? || a.Check? || a.Rename? || a.Remove?) && a.p == p
  }

  lemma OnlyTheActorWrites(h: Hash, s: State, a: Action, p: Pid)
    requires !ActsAs(a, p)
    ensures var t := Step(h, s, a); (p in t.files <==> p in s.files) && (p in s.files ==> t.files[p] == s.files[p])
  {
  }

  lemma OnlyTheActorReturns(h: Hash, s: State, a: Action, p: Pid)
    requires !ActsAs(a, p)
    ensures var t := Step(h, s, a);
      (p in t.returned <==> p in s.returned) && (p in s.returned ==> t.returned[p] == s.returned[p])
  {
  }

  /** A step leaves an upload that is not its own alone, unless it is a crash. */
  lemma OnlyTheActor(h: Hash, s: State, a: Action, p: Pid)
    requires !ActsAs(a, p)
    ensures var t := Step(h, s, a);
      (p in t.files <==> p in s.files) && (p in s.files ==> t.files[p] == s.files[p]) &&
      (p in t.puts <==> p in s.puts && !(a.Crash? && p in a.dead)) && (p in t.puts ==> t.puts[p] == s.puts[p]) &&
      (p in t.returned <==> p in s.returned) && (p in s.returned ==> t.returned[p] == s.returned[p])
  {
    OnlyTheActorWrites(h, s, a, p);
    OnlyTheActorReturns(h, s, a, p);
  }

  ghost predicate PutInv(s: State, p: Pid) {
    p in s.puts ==> p in s.files && p !in s.returned && PutMatches(s.puts[p], s.files[p])
  }

  lemma ActorKeepsPut(h: Hash, s: State, a: Action, p: Pid)
    requires ActsAs(a, p) && p in s.puts && PutInv(s, p)
    ensures PutInv(Step(h, s, a), p)
  {
    match a
    case Open(_, _, _, _) =>
    case Chunk(_, bytes) =>
    case Abort(_, bytes, kept) =>
    case Check(_) =>
    case Rename(_, ok) =>
    case Remove(_) =>
  }

  lemma StepKeepsPut(h: Hash, s: State, a: Action, p: Pid)
    requires PutInv(s, p)
    ensures PutInv(Step(h, s, a), p)
  {
    if !ActsAs(a, p) {
      OnlyTheActor(h, s, a, p);
    } else if p in s.puts {
      ActorKeepsPut(h, s, a, p);
    }
  }

  lemma StepKeepsPuts(h: Hash, s: State, a: Action)
    requires PutsInv(s)
    ensures PutsInv(Step(h, s, a))
  {
    forall p | p in Step(h, s, a).puts
      ensures PutInv(Step(h, s, a), p)
    {
      assert PutInv(s, p);
      StepKeepsPut(h, s, a, p);
    }
  }

  lemma StepKeepsFiles(h: Hash, s: State, a: Action)
    requires PutsInv(s) && FilesInv(h, s)
    ensures FilesInv(h, Step(h, s, a))
  {
  }

  ghost predicate Extends(before: File, after: File) {
    after.key == before.key && after.size == before.size && before.data <= after.data &&
    (before.verified ==> after.verified)
  }

  /** A step only adds files and only appends to them; the oid and the size never change. */
  lemma FilesGrow(h: Hash, s: State, a: Action)
    requires PutsInv(s)
    ensures forall p :: p in s.files ==> p in Step(h, s, a).files && Extends(s.files[p], Step(h, s, a).files[p])
  {
  }

  /** Two states have the same entry, or none. */
  ghost predicate DirAt(s: State, t: State, e: Entry) {
    if e in s.dir then e in t.dir && s.dir[e] == t.dir[e] else e !in t.dir
  }

  /** What a step does to one directory entry. */
  lemma EntryChange(h: Hash, s: State, a: Action, e: Entry)
    ensures var t := Step(h, s, a);
      if a.Open? && a.ok && e == Temp(a.key) && Fresh(s, a.p) && e !in s.dir then
        e in t.dir && t.dir[e] == a.p && a.p in t.files && t.files[a.p] == File(a.key, a.size, [], false)
      else if a.Rename? && a.ok && Live(s, a.p) && s.puts[a.p].phase.Checked? &&
              s.puts[a.p].key == e.key && Temp(e.key) in s.dir then
        if e.Final? then e in t.dir && t.dir[e] == s.dir[Temp(e.key)] else e !in t.dir
      else if a.Remove? && Live(s, a.p) && s.puts[a.p].phase.Closing? && e == Temp(s.puts[a.p].key) then e !in t.dir
      else DirAt(s, t, e)
  {
  }

  lemma StepKeepsDir(h: Hash, s: State, a: Action)
    requires PutsInv(s) && DirInv(s)
    ensures DirInv(Step(h, s, a))
  {
    var t := Step(h, s, a);
    FilesGrow(h, s, a);
    forall e | e in t.dir
      ensures t.dir[e] in t.files && t.files[t.dir[e]].key == e.key
    {
      EntryChange(h, s, a, e);
    }
  }

  lemma ReadKeepsReaders(s: State, r: nat, n: nat)
    requires ReadersInv(s)
    ensures ReadersInv(DoRead(s, r, n))
  {
  }

  lemma OtherActionsKeepReaders(h: Hash, s: State, a: Action)
    requires !a.OpenReader? && !a.Read?
    ensures Step(h, s, a).readers == s.readers
  {
  }

  lemma StepKeepsReaders(h: Hash, s: State, a: Action)
    requires PutsInv(s) && DirInv(s) && ReadersInv(s)
    ensures ReadersInv(Step(h, s, a))
  {
    var t := Step(h, s, a);
    if a.OpenReader? {
      assert forall r :: r in t.readers ==> r in s.readers || r == a.r;
    } else if a.Read? {
      ReadKeepsReaders(s, a.r, a.n);
    } else {
      FilesGrow(h, s, a);
      OtherActionsKeepReaders(h, s, a);
      forall r | r in s.readers && s.readers[r].Reading?
        ensures ReaderMatches(t, s.readers[r])
      {
        assert ReaderMatches(s, s.readers[r]) && Extends(s.files[s.readers[r].file], t.files[s.readers[r].file]);
      }
    }
  }

  lemma StepKeepsInv(h: Hash, s: State, a: Action)
    requires Inv(h, s)
    ensures Inv(h, Step(h, s, a))
  {
    StepKeepsPuts(h, s, a);
    StepKeepsFiles(h, s, a);
    StepKeepsDir(h, s, a);
    StepKeepsReaders(h, s, a);
  }

  lemma {:induction false} RunKeepsInv(h: Hash, init: State, run: Run<Action>)
    requires Inv(h, init)
    ensures Inv(h, After(h, init, run))
  {
    if run.Then? {
      RunKeepsInv(h, init, run.before);
      StepKeepsInv(h, After(h, init, run.before), run.action);
    }
  }
}
