/** What each request is answered, said of the response alone. */
module ServerAnswers {
  import opened Common
  import opened BasicAuth
  import opened MetaTypes
  import opened Upload
  import opened VerifiedUpload
  import opened FileContentStore
  import opened Server
  import opened ServerBatch
  import opened ServerRuns
  import B = BoltStore

  /** The objects of an intact batch that are answered, as the request stands for them. */
  function Kept(r: Request): seq<RequestVars>
    requires r.Batch?
  {
    NonEmpty(r.objects)
  }

  lemma {:induction false} StampKeepsOrder(objects: seq<RequestVars>, namespace: string, repo: string,
                                           authorization: string)
    ensures var stamped, kept := NonEmpty(Stamp(objects, namespace, repo, authorization)), NonEmpty(objects);
      |stamped| == |kept| && forall i :: 0 <= i < |kept| ==>
        stamped[i] == RequestVars(kept[i].oid, kept[i].size, namespace, repo, authorization)
    decreases |objects|
  {
    if objects != [] {
      var n := |objects| - 1;
      StampKeepsOrder(objects[..n], namespace, repo, authorization);
      assert Stamp(objects, namespace, repo, authorization)[..n] == Stamp(objects[..n], namespace, repo, authorization);
    }
  }

  /**
    A batch answers 200 exactly if each of its objects is authorised, and 401 otherwise; then it shows
    each object with a non-empty oid, in order, with the registered size, an upload link for the first
    object of a new oid, and a download link for any other.
  */
  lemma BatchAnswersExactly(cfg: Config, site: Site, h: Hash, s: Stores, r: Request)
    requires r.Batch? && B.WellKeyed(s.meta)
    ensures var t, reply := Next(cfg, site, h, s, r), Respond(cfg, site, h, s, r);
      (reply.status == 200 <==> Authorised(cfg, s.meta, Unpacked(r))) && reply.status in {200, 401} &&
      t.content == s.content &&
      (reply.status == 200 ==> reply.payload.Objects? && Registered(s.meta, t.meta, NonEmpty(Unpacked(r)))) &&
      (reply.status == 200 ==>
        RightReplies(cfg, site, s.meta, t.meta, NonEmpty(Unpacked(r)), reply.payload.objects))
  {
    DenialOfObjects(cfg, site, s.meta, Unpacked(r));
    if Authorised(cfg, s.meta, Unpacked(r)) {
      BatchReplies(cfg, site, s.meta, Unpacked(r));
    }
  }

  /** The representation shown for an object of an intact batch. */
  ghost predicate ShowsObject(cfg: Config, site: Site, t: Stores, r: Request, item: RequestVars, shown: Representation)
    requires r.Batch?
  {
    shown.oid == item.oid && item.oid in t.meta.objects && shown.size == t.meta.objects[item.oid].size &&
    AllLead(cfg, site, RequestVars(item.oid, item.size, r.namespace, r.repo, r.authorization), shown.links)
  }

  /**
    An intact batch from an authorised sender is answered with its objects of non-empty oid, in order;
    every link leads to the object in the namespace and repository of the request, with its authorization.
  */
  lemma IntactBatchAnswers(cfg: Config, site: Site, h: Hash, s: Stores, r: Request)
    requires r.Batch? && r.intact && B.WellKeyed(s.meta)
    requires r.objects == [] || Authenticate(cfg, s.meta.users, r.authorization)
    ensures var t, reply := Next(cfg, site, h, s, r), Respond(cfg, site, h, s, r);
      reply.status == 200 && reply.payload.Objects? && |reply.payload.objects| == |Kept(r)| &&
      forall i :: 0 <= i < |Kept(r)| ==> ShowsObject(cfg, site, t, r, Kept(r)[i], reply.payload.objects[i])
  {
    BatchAnswersExactly(cfg, site, h, s, r);
    StampKeepsOrder(r.objects, r.namespace, r.repo, r.authorization);
    var t, shown, left := Next(cfg, site, h, s, r), Respond(cfg, site, h, s, r).payload.objects, NonEmpty(Unpacked(r));
    forall i | 0 <= i < |Kept(r)|
      ensures ShowsObject(cfg, site, t, r, Kept(r)[i], shown[i])
    {
      assert RightReply(cfg, site, s.meta, t.meta, left, i, shown[i]);
    }
  }

  /** Sent twice, a batch changes nothing the second time, and is answered with download links for the same objects. */
  lemma BatchTwice(cfg: Config, site: Site, h: Hash, s: Stores, r: Request)
    requires r.Batch? && B.WellKeyed(s.meta) && Respond(cfg, site, h, s, r).status == 200
    ensures var t := Next(cfg, site, h, s, r);
      var first, again := Respond(cfg, site, h, s, r), Respond(cfg, site, h, t, r);
      Next(cfg, site, h, t, r) == t && again.status == 200 && first.payload.Objects? && again.payload.Objects? &&
      RepliesAgain(again.payload.objects, first.payload.objects)
  {
    DenialOfObjects(cfg, site, s.meta, Unpacked(r));
    BatchAgain(cfg, site, s.meta, Unpacked(r));
  }

  /** The oid was registered by this object: in its repository, which has a project, and as the first of its oid. */
  ghost predicate PlacedBy(b: B.Buckets, oid: string, rv: RequestVars) {
    rv.oid == oid && oid in b.objects && b.objects[oid] == MetaObject(oid, rv.size, [rv.repo], false) &&
    (rv.repo != "" ==> rv.repo in b.projects)
  }

  ghost predicate AllPlaced(b: B.Buckets, after: B.Buckets, objects: seq<RequestVars>) {
    forall oid :: oid in after.objects && oid !in b.objects ==>
      exists i :: 0 <= i < |objects| && PlacedBy(after, oid, objects[i])
  }

  lemma ProjectsStay(cfg: Config, site: Site, m: B.Buckets, rv: RequestVars)
    ensures m.projects.Keys <= HandleOne(cfg, site, m, rv).meta.projects.Keys
  {
  }

  lemma PlacedStays(cfg: Config, site: Site, m: B.Buckets, rv: RequestVars, oid: string, first: RequestVars)
    requires B.WellKeyed(m) && Authenticate(cfg, m.users, rv.authorization) && PlacedBy(m, oid, first)
    ensures PlacedBy(HandleOne(cfg, site, m, rv).meta, oid, first)
  {
    OneRegisters(cfg, site, m, rv);
    ProjectsStay(cfg, site, m, rv);
  }

  lemma NewIsPlaced(cfg: Config, site: Site, m: B.Buckets, rv: RequestVars)
    requires B.WellKeyed(m) && Authenticate(cfg, m.users, rv.authorization) && rv.oid !in m.objects && rv.oid != ""
    ensures PlacedBy(HandleOne(cfg, site, m, rv).meta, rv.oid, rv)
  {
  }

  lemma OnePlaces(cfg: Config, site: Site, b: B.Buckets, m: B.Buckets, prior: seq<RequestVars>, rv: RequestVars)
    requires B.WellKeyed(m) && AllPlaced(b, m, prior) && Authenticate(cfg, m.users, rv.authorization)
    ensures AllPlaced(b, HandleOne(cfg, site, m, rv).meta, prior + [rv])
  {
    var after, objects := HandleOne(cfg, site, m, rv).meta, prior + [rv];
    OneRegisters(cfg, site, m, rv);
    forall oid | oid in after.objects && oid !in b.objects
      ensures exists i :: 0 <= i < |objects| && PlacedBy(after, oid, objects[i])
    {
      if oid in m.objects {
        var i :| 0 <= i < |prior| && PlacedBy(m, oid, prior[i]);
        PlacedStays(cfg, site, m, rv, oid, prior[i]);
        assert objects[i] == prior[i];
      } else {
        NewIsPlaced(cfg, site, m, rv);
        assert objects[|prior|] == rv;
      }
    }
  }

  lemma {:induction false} BatchPlaces(cfg: Config, site: Site, b: B.Buckets, objects: seq<RequestVars>)
    requires B.WellKeyed(b) && Authorised(cfg, b, objects)
    ensures AllPlaced(b, RunBatch(cfg, site, b, objects).meta, objects)
    decreases |objects|
  {
    if objects != [] {
      var n := |objects| - 1;
      var prior, rv := objects[..n], objects[n];
      assert objects == prior + [rv];
      BatchPlaces(cfg, site, b, prior);
      BatchRegisters(cfg, site, b, prior);
      BatchThenOne(cfg, site, b, prior, rv);
      OnePlaces(cfg, site, b, RunBatch(cfg, site, b, prior).meta, prior, rv);
    }
  }

  /** A new oid of an intact batch is registered in the repository of the request, which has a project then. */
  lemma RegisteredInRepository(cfg: Config, site: Site, h: Hash, s: Stores, r: Request, oid: string)
    requires r.Batch? && r.intact && B.WellKeyed(s.meta)
    requires r.objects == [] || Authenticate(cfg, s.meta.users, r.authorization)
    requires oid in Next(cfg, site, h, s, r).meta.objects && oid !in s.meta.objects
    ensures var t := Next(cfg, site, h, s, r);
      t.meta.objects[oid].projectNames == [r.repo] && (r.repo != "" ==> r.repo in t.meta.projects) &&
      exists i :: 0 <= i < |r.objects| && r.objects[i].oid == oid && r.objects[i].size == t.meta.objects[oid].size
  {
    var t, objects := Next(cfg, site, h, s, r), Unpacked(r);
    BatchPlaces(cfg, site, s.meta, objects);
    var i :| 0 <= i < |objects| && PlacedBy(t.meta, oid, objects[i]);
    assert objects[i] == RequestVars(r.objects[i].oid, r.objects[i].size, r.namespace, r.repo, r.authorization);
  }

  /** An upload request is answered by who asks, whether the oid is registered, and what became of the upload. */
  lemma PutStatusExactly(cfg: Config, site: Site, h: Hash, s: Stores, rv: RequestVars, body: Body, io: DiskIo)
    requires B.WellKeyed(s.meta)
    ensures var data, status := Joined(body.chunks), Respond(cfg, site, h, s, PutContent(rv, body, io)).status;
      var authorised, known := Authenticate(cfg, s.meta.users, rv.authorization), rv.oid in s.meta.objects;
      (status == 401 <==> !authorised) && (status == 404 <==> authorised && !known) &&
      (status == 200 <==> authorised && known && io.openOk && !body.fails && io.renameOk &&
                          Matches(h, rv.oid, s.meta.objects[rv.oid].size, data)) &&
      status in {200, 401, 404, 500}
  {
    if rv.oid in s.meta.objects {
      SoloOutcomeExactly(h, rv.oid, s.meta.objects[rv.oid].size, body, io);
    }
  }

  /** Changes of the user table are confirmed by a redirect exactly if they name somebody and the table is in use. */
  lemma UserStatusExactly(cfg: Config, site: Site, h: Hash, s: Stores, user: Bytes, password: Bytes)
    ensures Respond(cfg, site, h, s, AddUser(user, password)).status ==
      if user != [] && password != [] && cfg.ldap.None? then 302 else 200
    ensures Respond(cfg, site, h, s, DeleteUser(user)).status == if user != [] && cfg.ldap.None? then 302 else 200
  {
  }

  /** The header that comes with the request. */
  function HeaderOf(r: Request): string
    requires r.Post? || r.PutContent? || r.Download? || r.Batch?
  {
    if r.Batch? then r.authorization else r.rv.authorization
  }

  /** The header names nobody whom the server would accept. */
  ghost predicate Unaccepted(cfg: Config, users: Users, authorization: string) {
    forall user, password :: Names(authorization, user, password) ==> !Accepts(cfg, users, user, password)
  }

  /**
    On a private server, for any table and any directory: every post, upload, download and non-empty intact
    batch is answered 401 exactly if its header names nobody who is accepted, as the empty header does;
    then it changes nothing.
  */
  lemma RefusedExactly(cfg: Config, site: Site, h: Hash, s: Stores, r: Request)
    requires !cfg.isPublic && (r.Post? || r.PutContent? || r.Download? || (r.Batch? && r.intact && r.objects != []))
    ensures Respond(cfg, site, h, s, r).status == 401 <==> Unaccepted(cfg, s.meta.users, HeaderOf(r))
    ensures Respond(cfg, site, h, s, r).status == 401 ==> Next(cfg, site, h, s, r) == s
    ensures HeaderOf(r) == "" ==> Respond(cfg, site, h, s, r).status == 401
  {
    AdmittedExactly(cfg, s.meta.users, HeaderOf(r));
    if r.Batch? {
      DeniedExactly(cfg, site, h, s, r);
    } else {
      ServerRuns.RefusedExactly(cfg, site, h, s, r);
    }
  }
}
