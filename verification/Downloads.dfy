/** What downloads read while uploads go on: a download holds the file it opened, published or not. */
module Downloads {
  import opened Common
  import opened KeyPath
  import opened Upload
  import opened UploadSafety

  lemma ReadersKeepTheirFile(h: Hash, s: State, a: Action, r: nat)
    requires r in s.readers && s.readers[r].Reading?
    ensures var t := Step(h, s, a);
      r in t.readers && t.readers[r].Reading? &&
      t.readers[r].key == s.readers[r].key && t.readers[r].file == s.readers[r].file
  {
  }

  /** A read of `n` bytes delivers the next `n` of the file held, or all that are left. */
  lemma ReadDelivers(h: Hash, s: State, r: nat, n: nat)
    requires Inv(h, s) && r in s.readers && s.readers[r].Reading?
    ensures var before, after, data := s.readers[r], Step(h, s, Read(r, n)).readers[r], s.files[s.readers[r].file].data;
      after.got == if |before.got| + n <= |data| then data[..|before.got| + n] else data
  {
    assert ReaderMatches(s, s.readers[r]);
  }

  /**
    A download that opened a sound file is never affected by anything that happens later, in any run
    at all: it returns a prefix of those bytes, and what it has read when they are exhausted hashes to its oid.
  */
  lemma {:induction false} ReaderSeesSoundBytes(h: Hash, init: State, run: Run<Action>, r: nat)
    requires Inv(h, init) && r in init.readers && init.readers[r].Reading?
    requires init.files[init.readers[r].file].verified
    ensures var t, file := After(h, init, run), init.readers[r].file;
      r in t.readers && t.readers[r].Reading? && t.readers[r].file == file &&
      file in t.files && t.files[file] == init.files[file] &&
      t.readers[r].got <= init.files[file].data && h(init.files[file].data) == t.readers[r].key
  {
    RunKeepsInv(h, init, run);
    assert ReaderMatches(init, init.readers[r]);
    if run.Then? {
      var s := After(h, init, run.before);
      ReaderSeesSoundBytes(h, init, run.before, r);
      RunKeepsInv(h, init, run.before);
      ReadersKeepTheirFile(h, s, run.action, r);
      VerifiedIsFrozen(h, s, run.action, init.readers[r].file);
    }
    assert ReaderMatches(After(h, init, run), After(h, init, run).readers[r]);
  }

  /** What the download has read so far is a prefix of bytes that match the oid it asked for. */
  ghost predicate ReadsSoundBytes(h: Hash, s: State, r: nat)
    requires r in s.readers && s.readers[r].Reading?
  {
    var reader := s.readers[r];
    reader.file in s.files && s.files[reader.file].verified &&
    h(s.files[reader.file].data) == reader.key && reader.got <= s.files[reader.file].data
  }

  /** A download begins with what is published at its path, and with nothing read. */
  lemma OpenedFinal(h: Hash, s: State, a: Action, r: nat)
    requires r in Step(h, s, a).readers && Step(h, s, a).readers[r].Reading?
    requires !(r in s.readers && s.readers[r].Reading?)
    ensures var t := Step(h, s, a);
      t.files == s.files && Final(t.readers[r].key) in s.dir && t.readers[r].file == s.dir[Final(t.readers[r].key)]
  {
  }

  /**
    In every run that publishes checked files only, gap-free runs among them, every download that found
    its object reads such bytes, at every moment.
  */
  lemma {:induction false} DownloadsAreSound(h: Hash, run: Run<Action>)
    requires NeverPublishesUnchecked(h, run)
    ensures forall r :: r in After(h, EMPTY, run).readers && After(h, EMPTY, run).readers[r].Reading? ==>
      ReadsSoundBytes(h, After(h, EMPTY, run), r)
  {
    if run.Then? {
      var s, t := After(h, EMPTY, run.before), After(h, EMPTY, run);
      DownloadsAreSound(h, run.before);
      VerifiedExactly(h, run.before);
      EmptyInv(h);
      RunKeepsInv(h, EMPTY, run);
      RunKeepsInv(h, EMPTY, run.before);
      forall r | r in t.readers && t.readers[r].Reading?
        ensures ReadsSoundBytes(h, t, r)
      {
        assert ReaderMatches(t, t.readers[r]);
        if r in s.readers && s.readers[r].Reading? {
          ReadersKeepTheirFile(h, s, run.action, r);
          VerifiedIsFrozen(h, s, run.action, s.readers[r].file);
        } else {
          OpenedFinal(h, s, run.action, r);
        }
      }
    }
  }

  /** The file the download holds matches the oid it asked for, and the size of its upload. */
  ghost predicate HoldsComplete(h: Hash, s: State, r: nat)
    requires r in s.readers && s.readers[r].Reading?
  {
    s.readers[r].file in s.files && CompleteFile(h, s.readers[r].key, s.files[s.readers[r].file])
  }

  ghost predicate HeldComplete(h: Hash, s: State) {
    forall r :: r in s.readers && s.readers[r].Reading? ==> HoldsComplete(h, s, r)
  }

  ghost predicate AlwaysHeldComplete(h: Hash, run: Run<Action>) {
    HeldComplete(h, After(h, EMPTY, run)) && (run.Then? ==> AlwaysHeldComplete(h, run.before))
  }

  /** A download that opens a published file which does not match its oid or its size. */
  ghost predicate OpensIncomplete(h: Hash, s: State, a: Action) {
    a.OpenReader? && a.r !in s.readers && Final(a.key) in s.dir && s.dir[Final(a.key)] in s.files &&
    !CompleteFile(h, a.key, s.files[s.dir[Final(a.key)]])
  }

  /** A step that writes a byte into a file which a download holds. */
  ghost predicate WritesHeld(s: State, a: Action) {
    exists r :: r in s.readers && s.readers[r].Reading? && WritesTo(s, a, s.readers[r].file)
  }

  ghost predicate NeverSpoils(h: Hash, run: Run<Action>) {
    run.Then? ==>
      NeverSpoils(h, run.before) && !OpensIncomplete(h, After(h, EMPTY, run.before), run.action) &&
      !WritesHeld(After(h, EMPTY, run.before), run.action)
  }

  lemma SpoilingShows(h: Hash, s: State, a: Action)
    requires Inv(h, s) && HeldComplete(h, s) && (OpensIncomplete(h, s, a) || WritesHeld(s, a))
    ensures !HeldComplete(h, Step(h, s, a))
  {
    var t := Step(h, s, a);
    if OpensIncomplete(h, s, a) {
      assert t.readers[a.r] == Reading(a.key, s.dir[Final(a.key)], []) && t.files == s.files;
      assert !HoldsComplete(h, t, a.r);
    } else {
      var r :| r in s.readers && s.readers[r].Reading? && WritesTo(s, a, s.readers[r].file);
      assert HoldsComplete(h, s, r);
      DataChange(h, s, a, s.readers[r].file);
      ReadersKeepTheirFile(h, s, a, r);
      assert !HoldsComplete(h, t, r);
    }
  }

  lemma NewReader(h: Hash, s: State, a: Action, r: nat)
    requires r in Step(h, s, a).readers && Step(h, s, a).readers[r].Reading?
    requires !(r in s.readers && s.readers[r].Reading?)
    ensures a.OpenReader? && a.r == r && r !in s.readers && Step(h, s, a).readers[r].key == a.key
  {
  }

  lemma StepHeldExactly(h: Hash, s: State, a: Action)
    requires Inv(h, s) && HeldComplete(h, s)
    ensures HeldComplete(h, Step(h, s, a)) <==> !OpensIncomplete(h, s, a) && !WritesHeld(s, a)
  {
    var t := Step(h, s, a);
    if OpensIncomplete(h, s, a) || WritesHeld(s, a) {
      SpoilingShows(h, s, a);
    } else {
      forall r | r in t.readers && t.readers[r].Reading?
        ensures HoldsComplete(h, t, r)
      {
        if r in s.readers && s.readers[r].Reading? {
          assert HoldsComplete(h, s, r);
          ReadersKeepTheirFile(h, s, a, r);
          DataChange(h, s, a, s.readers[r].file);
        } else {
          OpenedFinal(h, s, a, r);
          NewReader(h, s, a, r);
        }
      }
    }
  }

  /**
    In every interleaving, with crashes and with opens in the gap: every file that a download holds
    matches its oid and size at every moment, if and only if no download opens a published file that does
    not, and no step writes a byte into a file that a download holds.
  */
  lemma {:induction false} DownloadsExactly(h: Hash, run: Run<Action>)
    ensures AlwaysHeldComplete(h, run) <==> NeverSpoils(h, run)
  {
    if run.Then? {
      DownloadsExactly(h, run.before);
      EmptyInv(h);
      RunKeepsInv(h, EMPTY, run.before);
      if AlwaysHeldComplete(h, run.before) {
        StepHeldExactly(h, After(h, EMPTY, run.before), run.action);
      }
    }
  }

  /** An upload of `body` in flight; its file before and after the copy. */
  function Uploading(h: Hash, body: Bytes, phase: Phase): Put { Put(h(body), |body|, phase) }

  function Nothing(h: Hash, body: Bytes): File { File(h(body), |body|, [], false) }

  function Whole(h: Hash, body: Bytes, verified: bool): File { File(h(body), |body|, body, verified) }

  /** The run has got to the state without damaging a published file. */
  ghost predicate At(h: Hash, run: Run<Action>, s: State) {
    After(h, EMPTY, run) == s && NeverDamages(h, run)
  }

  lemma AtOpened(h: Hash, run: Run<Action>, s: State, p: Pid, body: Bytes)
    requires At(h, run, s) && Fresh(s, p) && Temp(h(body)) !in s.dir
    ensures At(h, Then(run, Open(p, h(body), |body|, true)),
               s.(dir := s.dir[Temp(h(body)) := p], files := s.files[p := Nothing(h, body)],
                  puts := s.puts[p := Uploading(h, body, Copying([]))]))
  {
  }

  lemma AtChunk(h: Hash, run: Run<Action>, s: State, p: Pid, data: Bytes, chunk: Bytes, body: Bytes)
    requires At(h, run, s) && Live(s, p) && !Published(s, p)
    requires s.files[p] == File(h(body), |body|, data, false) && s.puts[p] == Uploading(h, body, Copying(data))
    ensures At(h, Then(run, Chunk(p, chunk)),
               s.(files := s.files[p := File(h(body), |body|, data + chunk, false)],
                  puts := s.puts[p := Uploading(h, body, Copying(data + chunk))]))
  {
  }

  lemma AtCopied(h: Hash, run: Run<Action>, s: State, p: Pid, body: Bytes)
    requires At(h, run, s) && Live(s, p) && !Published(s, p)
    requires s.files[p] == Nothing(h, body) && s.puts[p] == Uploading(h, body, Copying([]))
    ensures At(h, Then(Then(run, Chunk(p, body)), Check(p)),
               s.(files := s.files[p := Whole(h, body, true)], puts := s.puts[p := Uploading(h, body, Checked)]))
  {
    ChunkAndCheck(h, s, p, body);
    AtChunk(h, run, s, p, [], body, body);
  }

  lemma AtRenamed(h: Hash, run: Run<Action>, s: State, p: Pid, q: Pid, body: Bytes)
    requires At(h, run, s) && Live(s, p) && s.puts[p] == Uploading(h, body, Checked)
    requires Temp(h(body)) in s.dir && s.dir[Temp(h(body))] == q
    requires q in s.files && (s.files[q] == Whole(h, body, false) || s.files[q] == Whole(h, body, true))
    ensures At(h, Then(run, Rename(p, true)),
               s.(dir := (s.dir - {Temp(h(body))})[Final(h(body)) := q],
                  puts := s.puts[p := Uploading(h, body, Closing(Accepted))]))
  {
  }

  /** One upload of the body, from its open to its rename, with no step in between. */
  function Publishing(run: Run<Action>, p: Pid, key: string, body: Bytes): Run<Action> {
    Then(Then(Then(Then(run, Open(p, key, |body|, true)), Chunk(p, body)), Check(p)), Rename(p, true))
  }

  function Begun(h: Hash, s: State, p: Pid, body: Bytes): State {
    s.(dir := s.dir[Temp(h(body)) := p], files := s.files[p := Nothing(h, body)],
       puts := s.puts[p := Uploading(h, body, Copying([]))])
  }

  function Verified(h: Hash, s: State, p: Pid, body: Bytes): State {
    s.(dir := s.dir[Temp(h(body)) := p], files := s.files[p := Whole(h, body, true)],
       puts := s.puts[p := Uploading(h, body, Checked)])
  }

  lemma AtVerified(h: Hash, run: Run<Action>, s: State, p: Pid, body: Bytes)
    requires At(h, run, Begun(h, s, p, body)) && !Published(s, p)
    ensures At(h, Then(Then(run, Chunk(p, body)), Check(p)), Verified(h, s, p, body))
  {
    var t := Begun(h, s, p, body);
    assert Published(t, p) ==> Published(s, p);
    AtCopied(h, run, t, p, body);
    assert t.files[p := Whole(h, body, true)] == s.files[p := Whole(h, body, true)];
    assert t.puts[p := Uploading(h, body, Checked)] == s.puts[p := Uploading(h, body, Checked)];
  }

  lemma AtLinked(h: Hash, run: Run<Action>, s: State, p: Pid, body: Bytes)
    requires At(h, run, Verified(h, s, p, body)) && Temp(h(body)) !in s.dir
    ensures At(h, Then(run, Rename(p, true)),
               s.(dir := s.dir[Final(h(body)) := p], files := s.files[p := Whole(h, body, true)],
                  puts := s.puts[p := Uploading(h, body, Closing(Accepted))]))
  {
    var t, closing := Verified(h, s, p, body), Uploading(h, body, Closing(Accepted));
    AtRenamed(h, run, t, p, p, body);
    assert t.dir - {Temp(h(body))} == s.dir;
    assert t.puts[p := closing] == s.puts[p := closing];
  }

  lemma AtPublished(h: Hash, run: Run<Action>, s: State, p: Pid, body: Bytes)
    requires At(h, run, s) && Fresh(s, p) && Temp(h(body)) !in s.dir && !Published(s, p)
    ensures At(h, Publishing(run, p, h(body), body),
               s.(dir := s.dir[Final(h(body)) := p], files := s.files[p := Whole(h, body, true)],
                  puts := s.puts[p := Uploading(h, body, Closing(Accepted))]))
  {
    var begun := Then(run, Open(p, h(body), |body|, true));
    AtOpened(h, run, s, p, body);
    AtVerified(h, begun, s, p, body);
    AtLinked(h, Then(Then(begun, Chunk(p, body)), Check(p)), s, p, body);
  }

  lemma AtRemoved(h: Hash, run: Run<Action>, s: State, p: Pid, body: Bytes)
    requires At(h, run, s) && Live(s, p) && s.puts[p] == Uploading(h, body, Closing(Accepted))
    ensures At(h, Then(run, Remove(p)),
               s.(dir := s.dir - {Temp(h(body))}, puts := s.puts - {p},
                  returned := s.returned[p := Return(h(body), Accepted)]))
  {
  }

  /** Upload 1 has published the body; upload 2 has opened its file in the gap, and upload 1 removed the entry. */
  function InGap(h: Hash, body: Bytes): State {
    State(map[Final(h(body)) := 1], map[1 := Whole(h, body, true), 2 := Nothing(h, body)],
          map[2 := Uploading(h, body, Copying([]))], map[1 := Return(h(body), Accepted)], map[])
  }

  lemma InGapReached(h: Hash, body: Bytes)
    ensures At(h, TwoPuts(h(body), body), InGap(h, body))
  {
    var key := h(body);
    AtPublished(h, Start, EMPTY, 1, body);
    var s4 := EMPTY.(dir := map[Final(key) := 1], files := map[1 := Whole(h, body, true)],
                     puts := map[1 := Uploading(h, body, Closing(Accepted))]);
    assert Publishing(Start, 1, key, body) == OnePut(key, body);
    AtOpened(h, OnePut(key, body), s4, 2, body);
    var s5 := s4.(dir := map[Final(key) := 1, Temp(key) := 2], files := s4.files[2 := Nothing(h, body)],
                  puts := s4.puts[2 := Uploading(h, body, Copying([]))]);
    AtRemoved(h, Then(OnePut(key, body), Open(2, key, |body|, true)), s5, 1, body);
    assert s5.dir - {Temp(key)} == map[Final(key) := 1];
    assert s5.puts - {1} == map[2 := Uploading(h, body, Copying([]))];
  }

  /** Upload 2 has passed its checks, and upload 3 has copied a matching body into the file at the temporary path. */
  function ThirdCopied(key: string, body: Bytes): Run<Action> {
    Then(Then(Then(Then(TwoPuts(key, body), Chunk(2, body)), Check(2)), Open(3, key, |body|, true)), Chunk(3, body))
  }

  /** Upload 2 publishes the file of upload 3, and a download opens it. */
  function OpenedForeign(key: string, body: Bytes): Run<Action> {
    Then(Then(Then(ThirdCopied(key, body), Rename(2, true)), Remove(2)), OpenReader(0, key))
  }

  /** Upload 4 publishes a file of its own. */
  function FourthDone(key: string, body: Bytes): Run<Action> {
    Publishing(OpenedForeign(key, body), 4, key, body)
  }

  /** Upload 3 writes on, and the download reads what is in its file. */
  function ReadsOn(key: string, body: Bytes, extra: Bytes): Run<Action> {
    Then(Then(FourthDone(key, body), Chunk(3, extra)), Read(0, |body + extra|))
  }

  function ForeignHeld(h: Hash, body: Bytes): State {
    State(map[Final(h(body)) := 3],
          map[1 := Whole(h, body, true), 2 := Whole(h, body, true), 3 := Whole(h, body, false)],
          map[3 := Uploading(h, body, Copying(body))],
          map[1 := Return(h(body), Accepted), 2 := Return(h(body), Accepted)], map[0 := Reading(h(body), 3, [])])
  }

  lemma ThirdCopiedReached(h: Hash, body: Bytes)
    ensures At(h, ThirdCopied(h(body), body),
               State(map[Final(h(body)) := 1, Temp(h(body)) := 3],
                     map[1 := Whole(h, body, true), 2 := Whole(h, body, true), 3 := Whole(h, body, false)],
                     map[2 := Uploading(h, body, Checked), 3 := Uploading(h, body, Copying(body))],
                     map[1 := Return(h(body), Accepted)], map[]))
  {
    var key, gap := h(body), InGap(h, body);
    InGapReached(h, body);
    AtCopied(h, TwoPuts(key, body), gap, 2, body);
    var s := gap.(files := gap.files[2 := Whole(h, body, true)], puts := gap.puts[2 := Uploading(h, body, Checked)]);
    var r := Then(Then(TwoPuts(key, body), Chunk(2, body)), Check(2));
    AtOpened(h, r, s, 3, body);
    var t := s.(dir := s.dir[Temp(key) := 3], files := s.files[3 := Nothing(h, body)],
                puts := s.puts[3 := Uploading(h, body, Copying([]))]);
    AtChunk(h, Then(r, Open(3, key, |body|, true)), t, 3, [], body, body);
    assert [] + body == body;
  }

  lemma ForeignHeldReached(h: Hash, body: Bytes)
    ensures At(h, OpenedForeign(h(body), body), ForeignHeld(h, body))
  {
    var key, copied := h(body), ThirdCopied(h(body), body);
    ThirdCopiedReached(h, body);
    var s := After(h, EMPTY, copied);
    AtRenamed(h, copied, s, 2, 3, body);
    var t := s.(dir := map[Final(key) := 3], puts := s.puts[2 := Uploading(h, body, Closing(Accepted))]);
    assert (s.dir - {Temp(key)})[Final(key) := 3] == t.dir;
    AtRemoved(h, Then(copied, Rename(2, true)), t, 2, body);
    assert t.dir - {Temp(key)} == t.dir;
    assert t.puts - {2} == map[3 := Uploading(h, body, Copying(body))];
  }

  lemma FourthDoneReached(h: Hash, body: Bytes)
    ensures var held := ForeignHeld(h, body);
      At(h, FourthDone(h(body), body),
         held.(dir := map[Final(h(body)) := 4], files := held.files[4 := Whole(h, body, true)],
               puts := held.puts[4 := Uploading(h, body, Closing(Accepted))]))
  {
    ForeignHeldReached(h, body);
    AtPublished(h, OpenedForeign(h(body), body), ForeignHeld(h, body), 4, body);
    assert ForeignHeld(h, body).dir[Final(h(body)) := 4] == map[Final(h(body)) := 4];
  }

  /**
    Keeping published files complete is not enough for downloads: in this run all of them always are, and
    yet a download reads the body and whatever else another upload wrote after it.
  */
  lemma CompleteRunServesMore(h: Hash, body: Bytes, extra: Bytes)
    requires extra != []
    ensures var run := ReadsOn(h(body), body, extra);
      var s := After(h, EMPTY, run);
      AlwaysComplete(h, run) && !AlwaysHeldComplete(h, run) &&
      0 in s.readers && s.readers[0] == Reading(h(body), 3, body + extra)
  {
    var key, done, run := h(body), FourthDone(h(body), body), ReadsOn(h(body), body, extra);
    FourthDoneReached(h, body);
    var s := After(h, EMPTY, done);
    AtChunk(h, done, s, 3, body, extra, body);
    var written := Then(done, Chunk(3, extra));
    var t := After(h, EMPTY, written);
    assert t.files[3].data == body + extra && t.readers[0] == Reading(key, 3, []);
    assert [] + (body + extra)[0..|body + extra|] == body + extra;
    SafetyExactly(h, run);
    assert !HoldsComplete(h, t, 0);
  }
}
