/**
  Sequential runs of the server: what the registered sizes, the oids and the stored bytes have to do
  with each other.
*/
module ServerRuns {
  import opened Common
  import opened Base64
  import opened BasicAuth
  import opened MetaTypes
  import opened Upload
  import opened UploadSafety
  import opened VerifiedUpload
  import opened FileContentStore
  import opened Server
  import opened ServerBatch
  import B = BoltStore

  /** The stores after a run of requests, from empty stores. */
  function StoresAfter(cfg: Config, site: Site, h: Hash, requests: seq<Request>): Stores {
    if requests == [] then NO_STORES
    else Next(cfg, site, h, StoresAfter(cfg, site, h, requests[..|requests| - 1]), requests[|requests| - 1])
  }

  /** Every stored content belongs to a registered oid, has the registered size, and hashes to the oid. */
  ghost predicate Consistent(h: Hash, s: Stores) {
    B.WellKeyed(s.meta) &&
    forall oid :: oid in s.content ==>
      oid in s.meta.objects && |s.content[oid]| == s.meta.objects[oid].size && h(s.content[oid]) == oid
  }

  /** Registrations are never withdrawn or changed. */
  ghost predicate Keeps(b: B.Buckets, c: B.Buckets) {
    forall oid :: oid in b.objects ==> oid in c.objects && c.objects[oid] == b.objects[oid]
  }

  lemma {:induction false} BatchKeeps(cfg: Config, site: Site, b: B.Buckets, objects: seq<RequestVars>)
    ensures Keeps(b, RunBatch(cfg, site, b, objects).meta)
    ensures B.WellKeyed(b) ==> B.WellKeyed(RunBatch(cfg, site, b, objects).meta)
    decreases objects
  {
    if objects != [] {
      var one := HandleOne(cfg, site, b, objects[0]);
      assert Keeps(b, one.meta);
      if B.WellKeyed(b) {
        OneKeepsKeys(cfg, site, b, objects[0]);
      }
      BatchKeeps(cfg, site, one.meta, objects[1..]);
    }
  }

  lemma PutKeepsKeys(cfg: Config, b: B.Buckets, rv: RequestVars)
    ensures Keeps(b, B.BucketsAfterPut(cfg, b, rv))
    ensures B.WellKeyed(b) ==> B.WellKeyed(B.BucketsAfterPut(cfg, b, rv))
  {
  }

  lemma NextKeeps(cfg: Config, site: Site, h: Hash, s: Stores, r: Request)
    ensures Keeps(s.meta, Next(cfg, site, h, s, r).meta)
    ensures B.WellKeyed(s.meta) ==> B.WellKeyed(Next(cfg, site, h, s, r).meta)
  {
    match r
    case Post(rv, _) => PutKeepsKeys(cfg, s.meta, rv);
    case Batch(_, _, _, _, _) => BatchKeeps(cfg, site, s.meta, Unpacked(r));
    case _ =>
  }

  ghost predicate FirstOf(objects: seq<RequestVars>, k: int, oid: string) {
    0 <= k < |objects| && objects[k].oid == oid && FirstAt(objects, k)
  }

  /**
    The request is authorised and gives `oid` that size; in a batch the first object of the oid
    counts, if the batch gets there.
  */
  ghost predicate Gives(cfg: Config, s: Stores, r: Request, oid: string, size: int) {
    match r
    case Post(rv, _) => Authenticate(cfg, s.meta.users, rv.authorization) && rv.oid == oid && rv.size == size
    case Batch(_, _, _, _, _) => exists k :: FirstOf(Unpacked(r), k, oid) && Unpacked(r)[k].size == size &&
                                             Authorised(cfg, s.meta, Unpacked(r)[..k + 1])
    case _ => false
  }

  lemma {:induction false} FirstOfExists(objects: seq<RequestVars>, n: nat, oid: string) returns (k: nat)
    requires n < |objects| && objects[n].oid == oid
    ensures k <= n && FirstOf(objects, k, oid)
    decreases n
  {
    if FirstAt(objects, n) {
      k := n;
    } else {
      var j :| 0 <= j < n && objects[j].oid == oid;
      k := FirstOfExists(objects, j, oid);
    }
  }

  /** The objects a batch gets to before it is denied, or all of them. */
  lemma Reached(cfg: Config, site: Site, b: B.Buckets, objects: seq<RequestVars>) returns (n: nat)
    ensures n <= |objects| && RunBatch(cfg, site, b, objects).meta == RunBatch(cfg, site, b, objects[..n]).meta
    ensures forall k :: 0 <= k <= |objects| ==> (Authorised(cfg, b, objects[..k]) <==> k <= n)
  {
    n := |objects|;
    assert objects[..n] == objects;
    if !Authorised(cfg, b, objects) {
      n := FirstRefusedExists(cfg, b, objects);
      DeniedAt(cfg, site, b, objects, n);
    }
    forall k | 0 <= k <= |objects|
      ensures Authorised(cfg, b, objects[..k]) <==> k <= n
    {
      if k <= n {
        assert forall i :: 0 <= i < k ==> objects[..k][i] == objects[..n][i];
      } else {
        assert objects[..k][n] == objects[n];
      }
    }
  }

  lemma BatchGives(cfg: Config, site: Site, s: Stores, objects: seq<RequestVars>, k: int, oid: string)
    requires B.WellKeyed(s.meta) && oid != "" && oid !in s.meta.objects
    requires FirstOf(objects, k, oid) && Authorised(cfg, s.meta, objects[..k + 1])
    ensures var after := RunBatch(cfg, site, s.meta, objects).meta;
      oid in after.objects && after.objects[oid].size == objects[k].size
  {
    var n := Reached(cfg, site, s.meta, objects);
    var reached := objects[..n];
    BatchRegisters(cfg, site, s.meta, reached);
    assert reached[k] == objects[k] && FirstAt(reached, k);
  }

  lemma NamedByReached(cfg: Config, site: Site, b: B.Buckets, reached: seq<RequestVars>, oid: string) returns (i: nat)
    requires B.WellKeyed(b) && oid !in b.objects && Authorised(cfg, b, reached)
    requires oid in RunBatch(cfg, site, b, reached).meta.objects
    ensures i < |reached| && reached[i].oid == oid
  {
    BatchRegisters(cfg, site, b, reached);
    i :| 0 <= i < |reached| && reached[i].oid == oid;
  }

  lemma BatchGivesOnly(cfg: Config, site: Site, s: Stores, objects: seq<RequestVars>, oid: string) returns (k: nat)
    requires B.WellKeyed(s.meta) && oid !in s.meta.objects
    requires oid in RunBatch(cfg, site, s.meta, objects).meta.objects
    ensures FirstOf(objects, k, oid) && Authorised(cfg, s.meta, objects[..k + 1])
  {
    var n := Reached(cfg, site, s.meta, objects);
    var i := NamedByReached(cfg, site, s.meta, objects[..n], oid);
    k := FirstOfExists(objects, i, oid);
  }

  /** A new oid is registered exactly by a request that gives it a size, and with that size. */
  lemma NextRegisters(cfg: Config, site: Site, h: Hash, s: Stores, r: Request, oid: string)
    requires B.WellKeyed(s.meta) && oid != "" && oid !in s.meta.objects
    ensures var t := Next(cfg, site, h, s, r);
      (forall size :: Gives(cfg, s, r, oid, size) ==> oid in t.meta.objects && t.meta.objects[oid].size == size) &&
      (oid in t.meta.objects ==> Gives(cfg, s, r, oid, t.meta.objects[oid].size))
  {
    if r.Batch? {
      forall k | FirstOf(Unpacked(r), k, oid) && Authorised(cfg, s.meta, Unpacked(r)[..k + 1])
        ensures oid in Next(cfg, site, h, s, r).meta.objects
        ensures Next(cfg, site, h, s, r).meta.objects[oid].size == Unpacked(r)[k].size
      {
        BatchGives(cfg, site, s, Unpacked(r), k, oid);
      }
      if oid in Next(cfg, site, h, s, r).meta.objects {
        var k := BatchGivesOnly(cfg, site, s, Unpacked(r), oid);
        BatchGives(cfg, site, s, Unpacked(r), k, oid);
      }
    }
  }

  /** Request `i` of the run is the first that gives `oid` a size, and `size` is what it gives. */
  ghost predicate FirstGives(cfg: Config, site: Site, h: Hash, requests: seq<Request>, i: int, oid: string, size: int) {
    0 <= i < |requests| && Gives(cfg, StoresAfter(cfg, site, h, requests[..i]), requests[i], oid, size) &&
    forall j, other :: 0 <= j < i ==> !Gives(cfg, StoresAfter(cfg, site, h, requests[..j]), requests[j], oid, other)
  }

  lemma FirstGivesInPrefix(cfg: Config, site: Site, h: Hash, prior: seq<Request>, r: Request, i: int,
                           oid: string, size: int)
    requires FirstGives(cfg, site, h, prior, i, oid, size)
    ensures FirstGives(cfg, site, h, prior + [r], i, oid, size)
  {
    assert forall j :: 0 <= j <= i ==> (prior + [r])[..j] == prior[..j] && (prior + [r])[j] == prior[j];
  }

  /** The request uploads content for `oid` and is told that it succeeded. */
  predicate UploadsNow(cfg: Config, site: Site, h: Hash, s: Stores, r: Request, oid: string) {
    r.PutContent? && r.rv.oid == oid && Respond(cfg, site, h, s, r).status == 200
  }

  /** Content changes through acknowledged uploads only, and those pass both checks. */
  lemma NextContent(cfg: Config, site: Site, h: Hash, s: Stores, r: Request, oid: string)
    requires B.WellKeyed(s.meta)
    ensures var t, uploads := Next(cfg, site, h, s, r), UploadsNow(cfg, site, h, s, r, oid);
      if uploads then
        oid in t.content && t.content[oid] == Joined(r.body.chunks) &&
        oid in s.meta.objects && |t.content[oid]| == s.meta.objects[oid].size && h(t.content[oid]) == oid
      else (oid in t.content <==> oid in s.content) && (oid in t.content ==> t.content[oid] == s.content[oid])
  {
  }

  lemma NextConsistent(cfg: Config, site: Site, h: Hash, s: Stores, r: Request)
    requires Consistent(h, s)
    ensures Consistent(h, Next(cfg, site, h, s, r))
  {
    var t := Next(cfg, site, h, s, r);
    NextKeeps(cfg, site, h, s, r);
    forall oid | oid in t.content
      ensures oid in t.meta.objects && |t.content[oid]| == t.meta.objects[oid].size && h(t.content[oid]) == oid
    {
      NextContent(cfg, site, h, s, r, oid);
    }
  }

  /** In every sequential run, content exists only for registered oids, in the registered size and matching the oid. */
  lemma {:induction false} AlwaysConsistent(cfg: Config, site: Site, h: Hash, requests: seq<Request>)
    ensures Consistent(h, StoresAfter(cfg, site, h, requests))
    decreases |requests|
  {
    if requests != [] {
      var n := |requests| - 1;
      AlwaysConsistent(cfg, site, h, requests[..n]);
      NextConsistent(cfg, site, h, StoresAfter(cfg, site, h, requests[..n]), requests[n]);
    }
  }

  /**
    Whatever mix of requests: an oid is registered once some authorised post or batch has named it,
    with the size the first one gave.
  */
  lemma {:induction false} FirstSizeWins(cfg: Config, site: Site, h: Hash, requests: seq<Request>, oid: string)
    requires oid != ""
    ensures var objects := StoresAfter(cfg, site, h, requests).meta.objects;
      if oid in objects then exists i :: FirstGives(cfg, site, h, requests, i, oid, objects[oid].size)
      else forall i, size :: 0 <= i < |requests| ==>
        !Gives(cfg, StoresAfter(cfg, site, h, requests[..i]), requests[i], oid, size)
    decreases |requests|
  {
    if requests != [] {
      var n := |requests| - 1;
      var prior, r := requests[..n], requests[n];
      var s, t := StoresAfter(cfg, site, h, prior), StoresAfter(cfg, site, h, requests);
      assert requests == prior + [r];
      FirstSizeWins(cfg, site, h, prior, oid);
      AlwaysConsistent(cfg, site, h, prior);
      NextKeeps(cfg, site, h, s, r);
      if oid in s.meta.objects {
        var i :| FirstGives(cfg, site, h, prior, i, oid, s.meta.objects[oid].size);
        FirstGivesInPrefix(cfg, site, h, prior, r, i, oid, s.meta.objects[oid].size);
      } else {
        NextRegisters(cfg, site, h, s, r, oid);
        assert forall j :: 0 <= j < n ==> requests[..j] == prior[..j] && requests[j] == prior[j];
        if oid in t.meta.objects {
          assert FirstGives(cfg, site, h, requests, n, oid, t.meta.objects[oid].size);
        }
      }
    }
  }

  /** Request `i` of the run is an acknowledged upload of `oid`. */
  ghost predicate Uploads(cfg: Config, site: Site, h: Hash, requests: seq<Request>, i: int, oid: string)
    requires 0 <= i < |requests|
  {
    UploadsNow(cfg, site, h, StoresAfter(cfg, site, h, requests[..i]), requests[i], oid)
  }

  /** Request `i` is the latest acknowledged upload of `oid`. */
  ghost predicate LastUploads(cfg: Config, site: Site, h: Hash, requests: seq<Request>, i: int, oid: string)
    requires 0 <= i < |requests|
  {
    Uploads(cfg, site, h, requests, i, oid) &&
    forall j :: i < j < |requests| ==> !Uploads(cfg, site, h, requests, j, oid)
  }

  ghost predicate EverUploaded(cfg: Config, site: Site, h: Hash, requests: seq<Request>, oid: string) {
    exists i :: 0 <= i < |requests| && Uploads(cfg, site, h, requests, i, oid)
  }

  /** `data` is the body of the latest acknowledged upload of `oid`. */
  ghost predicate LastUploaded(cfg: Config, site: Site, h: Hash, requests: seq<Request>, oid: string, data: Bytes) {
    exists i :: 0 <= i < |requests| && LastUploads(cfg, site, h, requests, i, oid) &&
                Joined(requests[i].body.chunks) == data
  }

  lemma UploadsInPrefix(cfg: Config, site: Site, h: Hash, prior: seq<Request>, r: Request, oid: string)
    ensures forall i :: 0 <= i < |prior| ==>
      (Uploads(cfg, site, h, prior + [r], i, oid) <==> Uploads(cfg, site, h, prior, i, oid))
    ensures Uploads(cfg, site, h, prior + [r], |prior|, oid) <==>
      UploadsNow(cfg, site, h, StoresAfter(cfg, site, h, prior), r, oid)
  {
    assert (prior + [r])[..|prior|] == prior;
    assert forall i :: 0 <= i < |prior| ==> (prior + [r])[..i] == prior[..i];
  }

  /** Content exists exactly for the oids with an acknowledged upload, and it is the body of the latest one. */
  lemma {:induction false} ContentIsLastUpload(cfg: Config, site: Site, h: Hash, requests: seq<Request>, oid: string)
    ensures var content := StoresAfter(cfg, site, h, requests).content;
      (oid in content <==> EverUploaded(cfg, site, h, requests, oid)) &&
      (oid in content ==> LastUploaded(cfg, site, h, requests, oid, content[oid]))
    decreases |requests|
  {
    if requests != [] {
      var n := |requests| - 1;
      var prior, r := requests[..n], requests[n];
      var s := StoresAfter(cfg, site, h, prior);
      assert requests == prior + [r];
      ContentIsLastUpload(cfg, site, h, prior, oid);
      AlwaysConsistent(cfg, site, h, prior);
      UploadsInPrefix(cfg, site, h, prior, r, oid);
      NextContent(cfg, site, h, s, r, oid);
      if UploadsNow(cfg, site, h, s, r, oid) {
        assert LastUploads(cfg, site, h, requests, n, oid);
      } else if oid in s.content {
        var i :| 0 <= i < n && LastUploads(cfg, site, h, prior, i, oid) &&
          Joined(prior[i].body.chunks) == s.content[oid];
        assert LastUploads(cfg, site, h, requests, i, oid);
      }
    }
  }

  /**
    A download answers with the bytes of the latest acknowledged upload, exactly when there is one, it
    can be opened, and the sender is authorised.
  */
  lemma DownloadReturnsUpload(cfg: Config, site: Site, h: Hash, requests: seq<Request>, rv: RequestVars, openOk: bool)
    ensures var s := StoresAfter(cfg, site, h, requests);
      var authorised := Authenticate(cfg, s.meta.users, rv.authorization);
      var reply := Respond(cfg, site, h, s, Download(rv, openOk));
      (reply.status == 401 <==> !authorised) &&
      (reply.status == 200 <==> authorised && EverUploaded(cfg, site, h, requests, rv.oid) && openOk) &&
      reply.status in {200, 401, 404} &&
      (reply.status == 200 ==> reply.payload.Content? && rv.oid in s.meta.objects) &&
      (reply.status == 200 ==> LastUploaded(cfg, site, h, requests, rv.oid, reply.payload.bytes)) &&
      (reply.status == 200 ==> |reply.payload.bytes| == s.meta.objects[rv.oid].size && h(reply.payload.bytes) == rv.oid)
  {
    AlwaysConsistent(cfg, site, h, requests);
    ContentIsLastUpload(cfg, site, h, requests, rv.oid);
  }

  /** The registered size and an upload link to the object; a download link too if the oid was known before. */
  ghost predicate PostShows(cfg: Config, site: Site, s: Stores, rv: RequestVars, shown: Representation) {
    var known := rv.oid in s.meta.objects;
    shown.oid == rv.oid && shown.size == (if known then s.meta.objects[rv.oid].size else rv.size) &&
    shown.links.Keys == (if known then {"download", "upload"} else {"upload"}) &&
    AllLead(cfg, site, rv, shown.links)
  }

  lemma PostShowsRight(cfg: Config, site: Site, s: Stores, rv: RequestVars)
    requires B.WellKeyed(s.meta) && B.Put(cfg, s.meta, rv).Ok?
    ensures var meta := B.Put(cfg, s.meta, rv).value;
      PostShows(cfg, site, s, rv, Represent(cfg, site, rv, meta, meta.existing, true))
  {
    var meta := B.Put(cfg, s.meta, rv).value;
    var shown := Represent(cfg, site, rv, meta, meta.existing, true);
    RepresentShows(cfg, site, rv, meta, meta.existing, true);
    assert meta.existing <==> rv.oid in s.meta.objects;
    assert shown.links.Keys == if meta.existing then {"download", "upload"} else {"upload"};
  }

  /**
    A registration succeeds unless it is refused. It answers 200 exactly when the oid was known and its
    content is there, or cannot be looked for; with the content there, the size is that of the content.
  */
  lemma PostStatusExactly(cfg: Config, site: Site, h: Hash, requests: seq<Request>, rv: RequestVars, statOk: bool)
    ensures var s := StoresAfter(cfg, site, h, requests);
      var authorised, known := Authenticate(cfg, s.meta.users, rv.authorization), rv.oid in s.meta.objects;
      var uploaded, reply := EverUploaded(cfg, site, h, requests, rv.oid), Respond(cfg, site, h, s, Post(rv, statOk));
      (reply.status == 401 <==> !authorised) &&
      (reply.status == 404 <==> authorised && rv.oid == "") &&
      (reply.status == 200 <==> authorised && known && (uploaded || !statOk)) &&
      reply.status in {200, 202, 401, 404} &&
      (reply.status in {200, 202} ==> reply.payload.Object? && PostShows(cfg, site, s, rv, reply.payload.shown)) &&
      (reply.status == 200 && statOk ==> rv.oid in s.content && reply.payload.shown.size == |s.content[rv.oid]|)
  {
    var s := StoresAfter(cfg, site, h, requests);
    AlwaysConsistent(cfg, site, h, requests);
    if B.Put(cfg, s.meta, rv).Ok? {
      PostShowsRight(cfg, site, s, rv);
    }
    ContentIsLastUpload(cfg, site, h, requests, rv.oid);
  }

  /** The stores after some requests more. */
  function Continued(cfg: Config, site: Site, h: Hash, s: Stores, more: seq<Request>): Stores
    decreases more
  {
    if more == [] then s else Continued(cfg, site, h, Next(cfg, site, h, s, more[0]), more[1..])
  }

  lemma {:induction false} ContinuedConsistent(cfg: Config, site: Site, h: Hash, s: Stores, more: seq<Request>)
    requires Consistent(h, s)
    ensures var t := Continued(cfg, site, h, s, more);
      Consistent(h, t) && Keeps(s.meta, t.meta) && forall oid :: oid in s.content ==> oid in t.content
    decreases more
  {
    if more != [] {
      var t := Next(cfg, site, h, s, more[0]);
      NextConsistent(cfg, site, h, s, more[0]);
      NextKeeps(cfg, site, h, s, more[0]);
      ContinuedConsistent(cfg, site, h, t, more[1..]);
      forall oid | oid in s.content
        ensures oid in t.content
      {
        NextContent(cfg, site, h, s, more[0], oid);
      }
    }
  }

  /** Without hash collisions, what can be downloaded once is downloaded for ever, and is always the same. */
  lemma ContentStays(cfg: Config, site: Site, h: Hash, s: Stores, more: seq<Request>, oid: string)
    requires CollisionFree(h) && Consistent(h, s) && oid in s.content
    ensures var t := Continued(cfg, site, h, s, more);
      oid in t.content && t.content[oid] == s.content[oid] &&
      oid in t.meta.objects && t.meta.objects[oid] == s.meta.objects[oid]
  {
    ContinuedConsistent(cfg, site, h, s, more);
  }

  /** The one upload of `data` that nothing goes wrong with. */
  function GoodUpload(rv: RequestVars, data: Bytes): Request {
    PutContent(rv, Body([data], false), DiskIo(true, true))
  }

  lemma RightSizeUploads(cfg: Config, site: Site, h: Hash, s: Stores, data: Bytes, rv: RequestVars)
    requires B.WellKeyed(s.meta) && rv.oid in s.meta.objects
    requires h(data) == rv.oid && s.meta.objects[rv.oid].size == |data|
    requires Authenticate(cfg, s.meta.users, rv.authorization)
    ensures rv.oid in Continued(cfg, site, h, s, [GoodUpload(rv, data)]).content
  {
    var upload := GoodUpload(rv, data);
    assert Joined([data]) == data by {
      assert [data][..0] == [] && [] + data == data;
    }
    assert B.Get(cfg, s.meta, rv) == Ok(s.meta.objects[rv.oid]);
    assert UploadsNow(cfg, site, h, s, upload, rv.oid);
    NextContent(cfg, site, h, s, upload, rv.oid);
    var t := Next(cfg, site, h, s, upload);
    assert Continued(cfg, site, h, s, [upload]) == Continued(cfg, site, h, t, []) == t;
  }

  /**
    A registered oid, `data` being its preimage, can be uploaded in some continuation exactly when the
    size it was first registered with is the length of `data`.
  */
  lemma UploadableExactly(cfg: Config, site: Site, h: Hash, s: Stores, oid: string, data: Bytes, rv: RequestVars)
    requires CollisionFree(h) && Consistent(h, s) && oid in s.meta.objects && h(data) == oid
    requires rv.oid == oid && Authenticate(cfg, s.meta.users, rv.authorization)
    ensures (exists more :: oid in Continued(cfg, site, h, s, more).content) <==> s.meta.objects[oid].size == |data|
  {
    if s.meta.objects[oid].size == |data| {
      RightSizeUploads(cfg, site, h, s, data, rv);
    } else {
      forall more
        ensures oid !in Continued(cfg, site, h, s, more).content
      {
        ContinuedConsistent(cfg, site, h, s, more);
      }
    }
  }

  function UserChange(r: Request): seq<UserOp> {
    match r
    case AddUser(user, password) => if user == [] || password == [] then [] else [Add(user, password)]
    case DeleteUser(user) => if user == [] then [] else [Delete(user)]
    case _ => []
  }

  /** The changes that the requests ask of the user table; empty names and passwords are not passed on. */
  function UserChanges(requests: seq<Request>): seq<UserOp> {
    if requests == [] then [] else UserChanges(requests[..|requests| - 1]) + UserChange(requests[|requests| - 1])
  }

  lemma NextUsers(cfg: Config, site: Site, h: Hash, s: Stores, r: Request)
    requires cfg.ldap.None?
    ensures Next(cfg, site, h, s, r).meta.users ==
      if UserChange(r) == [] then s.meta.users else ApplyUserOp(s.meta.users, UserChange(r)[0])
  {
    if r.Batch? {
      DenialOfObjects(cfg, site, s.meta, Unpacked(r));
    }
  }

  lemma {:induction false} UsersFollowRequests(cfg: Config, site: Site, h: Hash, requests: seq<Request>)
    requires cfg.ldap.None?
    ensures StoresAfter(cfg, site, h, requests).meta.users == UsersAfter(UserChanges(requests))
    decreases |requests|
  {
    if requests != [] {
      var prior, r := requests[..|requests| - 1], requests[|requests| - 1];
      UsersFollowRequests(cfg, site, h, prior);
      NextUsers(cfg, site, h, StoresAfter(cfg, site, h, prior), r);
      if UserChange(r) == [] {
        assert UserChanges(prior) + [] == UserChanges(prior);
      } else {
        OneMoreUserOp(UserChanges(prior), UserChange(r)[0]);
        assert UserChange(r) == [UserChange(r)[0]];
      }
    }
  }

  lemma {:induction false} ChangesAreShort(requests: seq<Request>)
    requires forall r :: r in requests && r.AddUser? ==> |r.password| <= 72
    ensures forall i :: 0 <= i < |UserChanges(requests)| && UserChanges(requests)[i].Add? ==>
      |UserChanges(requests)[i].password| <= 72
    decreases |requests|
  {
    if requests != [] {
      var n := |requests| - 1;
      assert forall r :: r in requests[..n] ==> r in requests;
      ChangesAreShort(requests[..n]);
      assert requests[n] in requests;
    }
  }

  lemma RefusedExactly(cfg: Config, site: Site, h: Hash, s: Stores, r: Request)
    requires r.Post? || r.PutContent? || r.Download?
    ensures Respond(cfg, site, h, s, r).status == 401 <==> !Authenticate(cfg, s.meta.users, r.rv.authorization)
  {
    var granted := Authenticate(cfg, s.meta.users, r.rv.authorization);
    assert B.Get(cfg, s.meta, r.rv) == Err(AuthError) <==> !granted;
    assert B.Put(cfg, s.meta, r.rv) == Err(AuthError) <==> !granted;
  }

  /**
    Authentication of a private server without LDAP, after any mix of requests: a post, an upload or a
    download answers 401 exactly unless its header names a user and the password of the earliest
    addition of this user after the last deletion, in an alphabet the server reads.
  */
  lemma ServerAuthenticatesExactly(cfg: Config, site: Site, h: Hash, requests: seq<Request>, r: Request,
                                   written: Alphabet, user: Bytes, password: Bytes)
    requires !cfg.isPublic && cfg.ldap.None? && BcryptExact(cfg)
    requires user != [] && COLON !in user && |password| <= 72
    requires forall q :: q in requests && q.AddUser? ==> |q.password| <= 72
    requires r.Post? || r.PutContent? || r.Download?
    requires r.rv.authorization == HeaderFor(written, user, password)
    ensures Respond(cfg, site, h, StoresAfter(cfg, site, h, requests), r).status == 401 <==>
      !Proves(UserChanges(requests), written, user, password)
  {
    UsersFollowRequests(cfg, site, h, requests);
    ChangesAreShort(requests);
    AuthenticatesExactly(cfg, UserChanges(requests), written, user, password);
    RefusedExactly(cfg, site, h, StoresAfter(cfg, site, h, requests), r);
  }
}
