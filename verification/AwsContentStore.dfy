/** The S3 content store: the body is read into memory and verified before anything is written. */
module S3ContentStore {
  import opened Common
  import opened KeyPath
  import opened Upload
  import opened VerifiedUpload
  import opened FileContentStore

  /** Whether writing the object and asking for its metadata succeed. */
  datatype S3Io = S3Io(putOk: bool, headOk: bool)

  /** The outcome of an upload that writes the object if `putOk`, given the bucket before it. */
  function S3Outcome(h: Hash, bucket: map<string, Bytes>, oid: string, size: int, body: Body, io: S3Io): Outcome {
    var data, path := Joined(body.chunks), TransformKey(oid);
    var verdict := Judge(h, oid, size, data);
    if verdict != Accepted then verdict
    else if !io.headOk || (!io.putOk && path !in bucket) then S3WriteError
    else if !io.putOk && |bucket[path]| != size then SizeMismatch
    else if !io.putOk then IoError
    else Accepted
  }

  /** The bucket after it. A read error of the body is not noticed: what was read is judged like any body. */
  function S3Bucket(h: Hash, bucket: map<string, Bytes>, oid: string, size: int, body: Body,
                    io: S3Io): map<string, Bytes>
  {
    var data := Joined(body.chunks);
    if Judge(h, oid, size, data) == Accepted && io.putOk then bucket[TransformKey(oid) := data] else bucket
  }

  /** What each answer of an upload means, and when it is given; only a written and confirmed body is accepted. */
  lemma S3OutcomeExactly(h: Hash, bucket: map<string, Bytes>, oid: string, size: int, body: Body, io: S3Io)
    ensures var data, path := Joined(body.chunks), TransformKey(oid);
      var outcome, after := S3Outcome(h, bucket, oid, size, body, io), S3Bucket(h, bucket, oid, size, body, io);
      var matches, kept := Matches(h, oid, size, data), io.headOk && !io.putOk && path in bucket;
      (outcome == Accepted <==> matches && io.putOk && io.headOk) &&
      (outcome == HashMismatch <==> |data| == size && h(data) != oid) &&
      (outcome == S3WriteError <==> matches && !(io.headOk && path in after)) &&
      (outcome == SizeMismatch <==> |data| != size || (matches && kept && |bucket[path]| != size)) &&
      (outcome == IoError <==> matches && kept && |bucket[path]| == size) && outcome != TempExists &&
      after == (if matches && io.putOk then bucket[path := data] else bucket)
  {
  }

  /** An upload call, with what it was given. */
  datatype Call = Call(oid: string, size: int, body: Body, io: S3Io)

  /** The bucket after a series of calls, from an empty one. */
  function BucketOf(h: Hash, calls: seq<Call>): map<string, Bytes> {
    if calls == [] then map[]
    else
      var c := calls[|calls| - 1];
      S3Bucket(h, BucketOf(h, calls[..|calls| - 1]), c.oid, c.size, c.body, c.io)
  }

  lemma OneMoreBucket(h: Hash, calls: seq<Call>, c: Call)
    ensures BucketOf(h, calls + [c]) == S3Bucket(h, BucketOf(h, calls), c.oid, c.size, c.body, c.io)
  {
    assert (calls + [c])[..|calls|] == calls;
  }

  /** The call wrote its body to the path: the body passed both checks and S3 took it. */
  predicate Wrote(h: Hash, c: Call, path: string) {
    TransformKey(c.oid) == path && Judge(h, c.oid, c.size, Joined(c.body.chunks)) == Accepted && c.io.putOk
  }

  ghost predicate EverWritten(h: Hash, calls: seq<Call>, path: string) {
    exists i :: 0 <= i < |calls| && Wrote(h, calls[i], path)
  }

  ghost predicate LatestAt(h: Hash, calls: seq<Call>, path: string, i: int) {
    0 <= i < |calls| && Wrote(h, calls[i], path) && forall j :: i < j < |calls| ==> !Wrote(h, calls[j], path)
  }

  /** `data` is the body of the latest call that wrote to the path. */
  ghost predicate LatestBody(h: Hash, calls: seq<Call>, path: string, data: Bytes) {
    exists i :: LatestAt(h, calls, path, i) && Joined(calls[i].body.chunks) == data
  }

  lemma OneMoreCall(h: Hash, prior: seq<Call>, c: Call, path: string, data: Bytes)
    ensures EverWritten(h, prior + [c], path) <==> Wrote(h, c, path) || EverWritten(h, prior, path)
    ensures Wrote(h, c, path) ==> LatestBody(h, prior + [c], path, Joined(c.body.chunks))
    ensures !Wrote(h, c, path) && LatestBody(h, prior, path, data) ==> LatestBody(h, prior + [c], path, data)
  {
    var calls, n := prior + [c], |prior|;
    assert calls[n] == c && forall i :: 0 <= i < n ==> calls[i] == prior[i];
    if Wrote(h, c, path) {
      assert LatestAt(h, calls, path, n);
    } else if LatestBody(h, prior, path, data) {
      var i :| LatestAt(h, prior, path, i) && Joined(prior[i].body.chunks) == data;
      assert LatestAt(h, calls, path, i);
    }
    if EverWritten(h, prior, path) {
      var i :| 0 <= i < n && Wrote(h, prior[i], path);
      assert Wrote(h, calls[i], path);
    }
  }

  /** The bucket against its history. */
  lemma {:induction false} BucketHoldsLatest(h: Hash, calls: seq<Call>, path: string)
    ensures path in BucketOf(h, calls) <==> EverWritten(h, calls, path)
    ensures path in BucketOf(h, calls) ==> LatestBody(h, calls, path, BucketOf(h, calls)[path])
    decreases |calls|
  {
    if calls != [] {
      var prior, c := calls[..|calls| - 1], calls[|calls| - 1];
      var before := BucketOf(h, prior);
      BucketHoldsLatest(h, prior, path);
      assert calls == prior + [c];
      OneMoreCall(h, prior, c, path, if path in before then before[path] else []);
    }
  }

  /** With plain oids throughout, whatever is found under an oid's path hashes to that oid. */
  lemma LatestMatchesOid(h: Hash, calls: seq<Call>, oid: string, data: Bytes)
    requires LatestBody(h, calls, TransformKey(oid), data)
    requires PlainKey(oid) && forall i :: 0 <= i < |calls| ==> PlainKey(calls[i].oid)
    ensures h(data) == oid
  {
    var path := TransformKey(oid);
    var i :| LatestAt(h, calls, path, i) && Joined(calls[i].body.chunks) == data;
    PathsAreInjective(Final(calls[i].oid), Final(oid));
  }

  class AwsContentStore {
    const hash: Hash
    var bucket: map<string, Bytes>
    ghost var calls: seq<Call>  // the uploads so far

    ghost predicate Valid()
      reads this
    {
      bucket == BucketOf(hash, calls)
    }

    constructor (hash: Hash)
      ensures Valid() && calls == [] && this.hash == hash
    {
      this.hash := hash;
      bucket := map[];
      calls := [];
    }

    /** Reads the body into memory, as far as it can be read. */
    method ReadAll(body: Body) returns (buf: Bytes)
      ensures buf == Joined(body.chunks)
    {
      buf := [];
      for i := 0 to |body.chunks|
        invariant buf == Joined(body.chunks[..i])
      {
        assert body.chunks[..i + 1][..i] == body.chunks[..i];
        buf := buf + body.chunks[i];
      }
      assert body.chunks[..|body.chunks|] == body.chunks;
    }

    method Put(oid: string, size: int, body: Body, io: S3Io) returns (outcome: Outcome)
      requires Valid()
      modifies this
      ensures Valid() && calls == old(calls) + [Call(oid, size, body, io)]
      ensures outcome == S3Outcome(hash, old(bucket), oid, size, body, io)
      ensures bucket == S3Bucket(hash, old(bucket), oid, size, body, io)
      ensures outcome == Accepted <==> Matches(hash, oid, size, Joined(body.chunks)) && io.putOk && io.headOk
      ensures outcome == Accepted ==> TransformKey(oid) in bucket && bucket[TransformKey(oid)] == Joined(body.chunks)
    {
      S3OutcomeExactly(hash, bucket, oid, size, body, io);
      var path := TransformKey(oid);
      OneMoreBucket(hash, calls, Call(oid, size, body, io));
      calls := calls + [Call(oid, size, body, io)];
      var buf := ReadAll(body);
      if |buf| != size {
        return SizeMismatch;
      }
      if hash(buf) != oid {
        return HashMismatch;
      }
      if io.putOk {
        bucket := bucket[path := buf];
      }
      if !io.headOk || path !in bucket {
        return S3WriteError;
      }
      if |bucket[path]| != size {
        return SizeMismatch;
      }
      return if io.putOk then Accepted else IoError;
    }

    /** The body of the latest upload written for the oid, which hashes to it, or that there was none. */
    method Get(oid: string) returns (content: Option<Bytes>)
      requires Valid()
      ensures content.Some? <==> EverWritten(hash, calls, TransformKey(oid))
      ensures content.Some? ==> LatestBody(hash, calls, TransformKey(oid), content.value)
      ensures content.Some? && PlainKey(oid) && (forall i :: 0 <= i < |calls| ==> PlainKey(calls[i].oid)) ==>
        hash(content.value) == oid
    {
      var path := TransformKey(oid);
      BucketHoldsLatest(hash, calls, path);
      content := if path in bucket then Some(bucket[path]) else None;
      if content.Some? && PlainKey(oid) && forall i :: 0 <= i < |calls| ==> PlainKey(calls[i].oid) {
        LatestMatchesOid(hash, calls, oid, content.value);
      }
    }

    /** Whether an upload was written for the oid; any error while asking for the metadata counts as absence. */
    method Exists(oid: string, headOk: bool) returns (found: bool)
      requires Valid()
      ensures found <==> headOk && EverWritten(hash, calls, TransformKey(oid))
    {
      BucketHoldsLatest(hash, calls, TransformKey(oid));
      found := headOk && TransformKey(oid) in bucket;
    }
  }

  /** One upload as both stores are given it. */
  datatype Request = Request(oid: string, size: int, body: Body)

  const QUIET_DISK := DiskIo(true, true)
  const QUIET_S3 := S3Io(true, true)

  function FileOutcomes(h: Hash, requests: seq<Request>): seq<Outcome> {
    seq(|requests|, i requires 0 <= i < |requests| =>
      SoloOutcome(h, requests[i].oid, requests[i].size, requests[i].body, QUIET_DISK))
  }

  /** What the file store holds after a series of uploads, none disturbed and no temporary file in the way. */
  function FileContents(h: Hash, contents: map<string, Bytes>, requests: seq<Request>): map<string, Bytes> {
    if requests == [] then contents
    else
      var r := requests[|requests| - 1];
      Stored(FileContents(h, contents, requests[..|requests| - 1]), r.oid, Joined(r.body.chunks),
             SoloOutcome(h, r.oid, r.size, r.body, QUIET_DISK))
  }

  function BucketAfter(h: Hash, bucket: map<string, Bytes>, requests: seq<Request>): map<string, Bytes> {
    if requests == [] then bucket
    else
      var r := requests[|requests| - 1];
      S3Bucket(h, BucketAfter(h, bucket, requests[..|requests| - 1]), r.oid, r.size, r.body, QUIET_S3)
  }

  function BucketOutcomes(h: Hash, bucket: map<string, Bytes>, requests: seq<Request>): seq<Outcome> {
    seq(|requests|, i requires 0 <= i < |requests| =>
      S3Outcome(h, BucketAfter(h, bucket, requests[..i]),
                requests[i].oid, requests[i].size, requests[i].body, QUIET_S3))
  }

  /** The bucket holds, under the sharded paths, the same objects as the file store. */
  ghost predicate SameObjects(contents: map<string, Bytes>, bucket: map<string, Bytes>) {
    forall oid :: PlainKey(oid) ==>
      if oid in contents then TransformKey(oid) in bucket && bucket[TransformKey(oid)] == contents[oid]
      else TransformKey(oid) !in bucket
  }

  lemma SameObjectsAfter(h: Hash, contents: map<string, Bytes>, bucket: map<string, Bytes>, r: Request)
    requires SameObjects(contents, bucket) && PlainKey(r.oid) && !r.body.fails
    ensures var outcome := SoloOutcome(h, r.oid, r.size, r.body, QUIET_DISK);
      SameObjects(Stored(contents, r.oid, Joined(r.body.chunks), outcome),
                  S3Bucket(h, bucket, r.oid, r.size, r.body, QUIET_S3))
  {
    forall oid | PlainKey(oid) && TransformKey(oid) == TransformKey(r.oid)
      ensures oid == r.oid
    {
      PathsAreInjective(Final(oid), Final(r.oid));
    }
  }

  /**
    Both stores give the same answers to any series of uploads, and hold the same objects afterwards,
    as long as every body can be read to its end.
  */
  lemma {:induction false} StoresAgree(h: Hash, contents: map<string, Bytes>, bucket: map<string, Bytes>,
                                       requests: seq<Request>)
    requires SameObjects(contents, bucket)
    requires forall r :: r in requests ==> PlainKey(r.oid) && !r.body.fails
    ensures FileOutcomes(h, requests) == BucketOutcomes(h, bucket, requests)
    ensures SameObjects(FileContents(h, contents, requests), BucketAfter(h, bucket, requests))
    decreases |requests|
  {
    if requests != [] {
      var n := |requests| - 1;
      StoresAgree(h, contents, bucket, requests[..n]);
      SameObjectsAfter(h, FileContents(h, contents, requests[..n]), BucketAfter(h, bucket, requests[..n]), requests[n]);
    }
  }

  /**
    That condition is exact: with nothing else going wrong, the two stores answer an upload differently
    precisely when reading the body fails, and then S3 may even accept what had been read.
  */
  lemma AnswersDifferExactlyOnReadErrors(h: Hash, bucket: map<string, Bytes>, r: Request)
    ensures SoloOutcome(h, r.oid, r.size, r.body, QUIET_DISK) == S3Outcome(h, bucket, r.oid, r.size, r.body, QUIET_S3)
      <==> !r.body.fails
    ensures r.body.fails && r == Request(h(Joined(r.body.chunks)), |Joined(r.body.chunks)|, r.body) ==>
      S3Outcome(h, bucket, r.oid, r.size, r.body, QUIET_S3) == Accepted
  {
  }
}
