/** What a batch request answers and changes. */
module ServerBatch {
  import opened Common
  import opened BasicAuth
  import opened MetaTypes
  import opened Routes
  import opened Server
  import B = BoltStore

  lemma OneKeepsUsers(cfg: Config, site: Site, b: B.Buckets, rv: RequestVars)
    ensures HandleOne(cfg, site, b, rv).meta.users == b.users
    ensures HandleOne(cfg, site, b, rv).denied <==> !Authenticate(cfg, b.users, rv.authorization)
    ensures HandleOne(cfg, site, b, rv).denied ==> HandleOne(cfg, site, b, rv).meta == b
  {
  }

  ghost predicate Authorised(cfg: Config, b: B.Buckets, objects: seq<RequestVars>) {
    forall i :: 0 <= i < |objects| ==> Authenticate(cfg, b.users, objects[i].authorization)
  }

  lemma {:induction false} DenialOfObjects(cfg: Config, site: Site, b: B.Buckets, objects: seq<RequestVars>)
    ensures RunBatch(cfg, site, b, objects).meta.users == b.users
    ensures RunBatch(cfg, site, b, objects).denied <==> !Authorised(cfg, b, objects)
    decreases objects
  {
    if objects != [] {
      OneKeepsUsers(cfg, site, b, objects[0]);
      var m := HandleOne(cfg, site, b, objects[0]).meta;
      DenialOfObjects(cfg, site, m, objects[1..]);
      if Authenticate(cfg, b.users, objects[0].authorization) && Authorised(cfg, m, objects[1..]) {
        assert forall i :: 0 < i < |objects| ==> objects[i] == objects[1..][i - 1];
      }
    }
  }

  /** A batch is a fold: its objects are handled one after another, and denial ends it. */
  lemma {:induction false} BatchConcat(cfg: Config, site: Site, b: B.Buckets, xs: seq<RequestVars>,
                                       ys: seq<RequestVars>)
    ensures var first := RunBatch(cfg, site, b, xs);
      RunBatch(cfg, site, b, xs + ys) ==
      if first.denied then first else Replied(first.replies, RunBatch(cfg, site, first.meta, ys))
    decreases xs
  {
    if xs == [] {
      assert xs + ys == ys;
      var rest := RunBatch(cfg, site, b, ys);
      assert [] + rest.replies == rest.replies;
    } else {
      var one := HandleOne(cfg, site, b, xs[0]);
      assert (xs + ys)[1..] == xs[1..] + ys;
      if !one.denied {
        BatchConcat(cfg, site, one.meta, xs[1..], ys);
        var first := RunBatch(cfg, site, one.meta, xs[1..]);
        RepliedTwice(one.replies, first.replies, RunBatch(cfg, site, first.meta, ys));
      }
    }
  }

  lemma {:induction false} BatchThenOne(cfg: Config, site: Site, b: B.Buckets, prior: seq<RequestVars>, rv: RequestVars)
    requires !RunBatch(cfg, site, b, prior).denied
    ensures var first := RunBatch(cfg, site, b, prior);
      var one := HandleOne(cfg, site, first.meta, rv);
      RunBatch(cfg, site, b, prior + [rv]) == BatchResult(one.meta, first.replies + one.replies, one.denied)
  {
    BatchConcat(cfg, site, b, prior, [rv]);
    var first := RunBatch(cfg, site, b, prior);
    var one := HandleOne(cfg, site, first.meta, rv);
    assert RunBatch(cfg, site, one.meta, [rv][1..]) == BatchResult(one.meta, [], false);
    assert one.replies + [] == one.replies;
  }

  /** The first object whose authorization is not accepted. */
  ghost predicate FirstRefused(cfg: Config, b: B.Buckets, objects: seq<RequestVars>, d: int) {
    0 <= d < |objects| && !Authenticate(cfg, b.users, objects[d].authorization) && Authorised(cfg, b, objects[..d])
  }

  lemma {:induction false} FirstRefusedExists(cfg: Config, b: B.Buckets, objects: seq<RequestVars>) returns (d: int)
    requires !Authorised(cfg, b, objects)
    ensures FirstRefused(cfg, b, objects, d)
    decreases |objects|
  {
    var n := |objects| - 1;
    if Authorised(cfg, b, objects[..n]) {
      d := n;
    } else {
      d := FirstRefusedExists(cfg, b, objects[..n]);
      assert objects[..n][..d] == objects[..d] && objects[..n][d] == objects[d];
    }
  }

  /** A denied batch has registered what stands before the first refused object, and nothing else. */
  lemma DeniedAt(cfg: Config, site: Site, b: B.Buckets, objects: seq<RequestVars>, d: int)
    requires FirstRefused(cfg, b, objects, d)
    ensures RunBatch(cfg, site, b, objects) == RunBatch(cfg, site, b, objects[..d]).(denied := true)
  {
    assert objects == objects[..d] + objects[d..] && objects[d..][0] == objects[d];
    var first := RunBatch(cfg, site, b, objects[..d]);
    DenialOfObjects(cfg, site, b, objects[..d]);
    BatchConcat(cfg, site, b, objects[..d], objects[d..]);
    OneKeepsUsers(cfg, site, first.meta, objects[d]);
    assert HandleOne(cfg, site, first.meta, objects[d]) == BatchResult(first.meta, [], true);
    assert first.replies + [] == first.replies;
  }

  /**
    An intact batch answers 401 if and only if it is not empty and its sender is not authorised; then
    it has changed nothing.
  */
  lemma DeniedExactly(cfg: Config, site: Site, h: Upload.Hash, s: Stores, r: Request)
    requires r.Batch? && r.intact
    ensures var denied := Respond(cfg, site, h, s, r).status == 401;
      (denied <==> r.objects != [] && !Authenticate(cfg, s.meta.users, r.authorization)) &&
      (denied ==> Next(cfg, site, h, s, r) == s)
  {
    var objects := Unpacked(r);
    DenialOfObjects(cfg, site, s.meta, objects);
    if r.objects != [] {
      assert objects[0].authorization == r.authorization;
      if !Authenticate(cfg, s.meta.users, r.authorization) {
        DeniedAt(cfg, site, s.meta, objects, 0);
      }
    }
  }

  /** The object is the first of its oid in the batch. */
  ghost predicate FirstAt(objects: seq<RequestVars>, i: int)
    requires 0 <= i < |objects|
  {
    forall j :: 0 <= j < i ==> objects[j].oid != objects[i].oid
  }

  /** The sizes registered after a batch: those before it, and for each new oid that of its first object. */
  ghost predicate Registered(b: B.Buckets, after: B.Buckets, objects: seq<RequestVars>) {
    after.users == b.users && B.WellKeyed(after) &&
    (forall oid :: oid in b.objects ==> oid in after.objects && after.objects[oid] == b.objects[oid]) &&
    (forall i :: 0 <= i < |objects| && objects[i].oid != "" ==> objects[i].oid in after.objects) &&
    (forall i :: 0 <= i < |objects| && objects[i].oid != "" && objects[i].oid !in b.objects && FirstAt(objects, i) ==>
      after.objects[objects[i].oid].size == objects[i].size) &&
    (forall oid :: oid in after.objects && oid !in b.objects ==>
      exists i :: 0 <= i < |objects| && objects[i].oid == oid)
  }

  /** The metadata after one object, as far as objects go. */
  function ObjectsAfterOne(b: B.Buckets, rv: RequestVars): map<string, MetaObject> {
    if rv.oid in b.objects || rv.oid == "" then b.objects
    else b.objects[rv.oid := MetaObject(rv.oid, rv.size, [rv.repo], false)]
  }

  lemma OneRegisters(cfg: Config, site: Site, b: B.Buckets, rv: RequestVars)
    requires Authenticate(cfg, b.users, rv.authorization)
    requires rv.oid in b.objects ==> rv.oid != ""
    ensures HandleOne(cfg, site, b, rv).meta.objects == ObjectsAfterOne(b, rv)
    ensures HandleOne(cfg, site, b, rv).replies ==
      if rv.oid in b.objects then [Represent(cfg, site, rv, b.objects[rv.oid], true, false)]
      else if rv.oid == "" then []
      else [Represent(cfg, site, rv, MetaObject(rv.oid, rv.size, [rv.repo], false), false, true)]
  {
  }

  lemma OneKeepsKeys(cfg: Config, site: Site, b: B.Buckets, rv: RequestVars)
    requires B.WellKeyed(b)
    ensures B.WellKeyed(HandleOne(cfg, site, b, rv).meta)
  {
    B.StepKeepsKeys(cfg, b, PutOp(rv));
    var after := HandleOne(cfg, site, b, rv).meta;
    assert after == b || after == B.BucketsStep(cfg, b, PutOp(rv));
  }

  lemma FirstInPrefix(prior: seq<RequestVars>, rv: RequestVars, i: int)
    requires 0 <= i < |prior|
    ensures FirstAt(prior + [rv], i) <==> FirstAt(prior, i)
  {
    var objects := prior + [rv];
    assert forall j :: 0 <= j <= i ==> objects[j] == prior[j];
  }

  lemma FirstIsNew(b: B.Buckets, m: B.Buckets, prior: seq<RequestVars>, rv: RequestVars)
    requires Registered(b, m, prior) && rv.oid != ""
    ensures rv.oid !in m.objects <==> rv.oid !in b.objects && FirstAt(prior + [rv], |prior|)
  {
    var objects, n := prior + [rv], |prior|;
    assert forall i :: 0 <= i < n ==> objects[i] == prior[i];
    if rv.oid in m.objects && rv.oid !in b.objects {
      var j :| 0 <= j < n && prior[j].oid == rv.oid;
      assert objects[j].oid == rv.oid;
    }
    if !FirstAt(objects, n) {
      var j :| 0 <= j < n && objects[j].oid == objects[n].oid;
      assert prior[j].oid == rv.oid;
    }
  }

  lemma RegisteredStep(b: B.Buckets, m: B.Buckets, after: B.Buckets, prior: seq<RequestVars>, rv: RequestVars)
    requires Registered(b, m, prior) && B.WellKeyed(after) && after.users == m.users
    requires after.objects == ObjectsAfterOne(m, rv)
    ensures Registered(b, after, prior + [rv])
  {
    var objects, n := prior + [rv], |prior|;
    assert forall i :: 0 <= i < n ==> objects[i] == prior[i];
    forall i | 0 <= i < |objects| && objects[i].oid != "" && objects[i].oid !in b.objects && FirstAt(objects, i)
      ensures after.objects[objects[i].oid].size == objects[i].size
    {
      if i < n {
        FirstInPrefix(prior, rv, i);
      } else {
        FirstIsNew(b, m, prior, rv);
      }
    }
    forall oid | oid in after.objects && oid !in b.objects
      ensures exists i :: 0 <= i < |objects| && objects[i].oid == oid
    {
      if oid in m.objects {
        var i :| 0 <= i < n && prior[i].oid == oid;
        assert objects[i].oid == oid;
      } else {
        assert objects[n].oid == oid;
      }
    }
  }

  lemma {:induction false} BatchRegisters(cfg: Config, site: Site, b: B.Buckets, objects: seq<RequestVars>)
    requires B.WellKeyed(b) && Authorised(cfg, b, objects)
    ensures !RunBatch(cfg, site, b, objects).denied && Registered(b, RunBatch(cfg, site, b, objects).meta, objects)
    decreases |objects|
  {
    if objects != [] {
      var n := |objects| - 1;
      var prior, rv := objects[..n], objects[n];
      assert objects == prior + [rv];
      BatchRegisters(cfg, site, b, prior);
      BatchThenOne(cfg, site, b, prior, rv);
      var m := RunBatch(cfg, site, b, prior).meta;
      OneKeepsUsers(cfg, site, m, rv);
      OneRegisters(cfg, site, m, rv);
      OneKeepsKeys(cfg, site, m, rv);
      RegisteredStep(b, m, HandleOne(cfg, site, m, rv).meta, prior, rv);
    }
  }

  /** A batch leaves the objects as they are exactly if it names no new oid but the empty one. */
  lemma NothingNewExactly(b: B.Buckets, after: B.Buckets, objects: seq<RequestVars>)
    requires Registered(b, after, objects)
    ensures after.objects == b.objects <==>
      forall i :: 0 <= i < |objects| ==> objects[i].oid in b.objects || objects[i].oid == ""
  {
    if forall i :: 0 <= i < |objects| ==> objects[i].oid in b.objects || objects[i].oid == "" {
      assert forall oid :: oid in after.objects ==> oid in b.objects;
    }
  }

  /**
    A batch whose decoding broke off is not stamped, so its objects carry whatever authorization the
    body gave them. Denied at object `d`, it leaves the objects alone exactly if nothing before `d` was new.
  */
  lemma DeniedKeepsObjectsExactly(cfg: Config, site: Site, h: Upload.Hash, s: Stores, r: Request, d: int)
    requires r.Batch? && B.WellKeyed(s.meta) && FirstRefused(cfg, s.meta, Unpacked(r), d)
    ensures Respond(cfg, site, h, s, r).status == 401
    ensures Next(cfg, site, h, s, r).meta.objects == s.meta.objects <==>
      forall i :: 0 <= i < d ==> Unpacked(r)[i].oid in s.meta.objects || Unpacked(r)[i].oid == ""
  {
    var before := Unpacked(r)[..d];
    DeniedAt(cfg, site, s.meta, Unpacked(r), d);
    BatchRegisters(cfg, site, s.meta, before);
    NothingNewExactly(s.meta, RunBatch(cfg, site, s.meta, before).meta, before);
    assert forall i :: 0 <= i < d ==> Unpacked(r)[i] == before[i];
  }

  /**
    It can register before it is denied: a batch whose decoding broke off, with an accepted authorization
    in its first object and none in its second.
  */
  lemma BrokenBatchRegisters(cfg: Config, site: Site, h: Upload.Hash, s: Stores, first: RequestVars,
                             second: RequestVars)
    requires B.WellKeyed(s.meta) && first.oid != "" && first.oid !in s.meta.objects
    requires Authenticate(cfg, s.meta.users, first.authorization)
    requires !Authenticate(cfg, s.meta.users, second.authorization)
    ensures var r := Batch([first, second], false, "", "", "");
      Respond(cfg, site, h, s, r).status == 401 && Next(cfg, site, h, s, r).meta.objects != s.meta.objects
  {
    var r := Batch([first, second], false, "", "", "");
    assert Unpacked(r) == [first, second] && [first, second][..1] == [first];
    assert FirstRefused(cfg, s.meta, Unpacked(r), 1);
    DeniedKeepsObjectsExactly(cfg, site, h, s, r, 1);
    assert Unpacked(r)[0] == first;
  }

  /** Where a link's address and path lead: to the host of the site, and to the object the request named. */
  predicate RoutesBack(site: Site, rv: RequestVars, href: string) {
    var scheme := if Contains(site.scheme, "https") then site.scheme else "http";
    match Parse(href)
    case None => false
    case Some(a) =>
      a.scheme == scheme && a.host == site.host && RouteOf(a.path) == Some(Route(rv.namespace, rv.repo, rv.oid))
  }

  /** Names that make an address: the scheme ends at its colon, the others are single segments. */
  predicate Addressable(site: Site, rv: RequestVars) {
    ':' !in site.scheme && '/' !in site.host && PlainName(rv.namespace) && PlainName(rv.repo) && PlainName(rv.oid)
  }

  /**
    The link leads to the handler of the object's content and, unless the server is public, carries the
    caller's authorization.
  */
  predicate LeadsTo(cfg: Config, site: Site, rv: RequestVars, link: Link) {
    (Addressable(site, rv) ==> RoutesBack(site, rv, link.href)) &&
    AsksContent(link.accept) && !AsksMeta(link.accept) &&
    (link.authorization.None? <==> cfg.isPublic) &&
    (link.authorization.Some? ==> link.authorization.value == rv.authorization)
  }

  lemma LinkText(site: Site, rv: RequestVars)
    ensures var scheme := if Contains(site.scheme, "https") then site.scheme else "http";
      ObjectLink(site, rv) ==
      scheme + ":" + ("//" + (site.host + "/" + (rv.namespace + "/" + (rv.repo + "/" + ("objects" + "/" + rv.oid)))))
  {
    PathText(rv);
    var scheme := if Contains(site.scheme, "https") then site.scheme else "http";
    var path := rv.namespace + "/" + (rv.repo + "/" + ("objects" + "/" + rv.oid));
    assert scheme + "://" + site.host + ("/" + path) == scheme + ":" + ("//" + (site.host + "/" + path));
  }

  lemma PathText(rv: RequestVars)
    ensures "/" + rv.namespace + "/" + rv.repo + "/objects/" + rv.oid ==
      "/" + (rv.namespace + "/" + (rv.repo + "/" + ("objects" + "/" + rv.oid)))
  {
  }

  /** Following an object's link leads back to the object. */
  lemma LinkRoutesBack(site: Site, rv: RequestVars)
    requires Addressable(site, rv)
    ensures RoutesBack(site, rv, ObjectLink(site, rv))
  {
    var scheme := if Contains(site.scheme, "https") then site.scheme else "http";
    var path := rv.namespace + "/" + (rv.repo + "/" + ("objects" + "/" + rv.oid));
    LinkText(site, rv);
    ParsesTo(scheme, site.host, path);
    RoutesTo(rv.namespace, rv.repo, rv.oid);
  }

  lemma MediaTypeAsks()
    ensures AsksContent(CONTENT_MEDIA_TYPE) && !AsksMeta(CONTENT_MEDIA_TYPE)
  {
    CutNowhere(CONTENT_MEDIA_TYPE, ';');
  }

  lemma LinkLeads(cfg: Config, site: Site, rv: RequestVars)
    ensures LeadsTo(cfg, site, rv, LinkFor(cfg, site, rv))
  {
    MediaTypeAsks();
    if Addressable(site, rv) {
      LinkRoutesBack(site, rv);
    }
  }

  /** All links lead to the object. */
  ghost predicate AllLead(cfg: Config, site: Site, rv: RequestVars, links: map<string, Link>) {
    forall rel :: rel in links ==> LeadsTo(cfg, site, rv, links[rel])
  }

  lemma SameLinksLead(cfg: Config, site: Site, rv: RequestVars, links: map<string, Link>, link: Link)
    requires LeadsTo(cfg, site, rv, link) && forall rel :: rel in links ==> links[rel] == link
    ensures AllLead(cfg, site, rv, links)
  {
  }

  lemma RepresentLinks(cfg: Config, site: Site, rv: RequestVars, meta: MetaObject, download: bool, upload: bool)
    ensures var links := Represent(cfg, site, rv, meta, download, upload).links;
      links.Keys == (if download then {"download"} else {}) + (if upload then {"upload"} else {}) &&
      forall rel :: rel in links ==> links[rel] == LinkFor(cfg, site, rv)
  {
  }

  /** A representation shows the registered oid and size and just the links asked for, all leading to the object. */
  lemma RepresentShows(cfg: Config, site: Site, rv: RequestVars, meta: MetaObject, download: bool, upload: bool)
    ensures var shown := Represent(cfg, site, rv, meta, download, upload);
      shown.oid == meta.oid && shown.size == meta.size &&
      shown.links.Keys == (if download then {"download"} else {}) + (if upload then {"upload"} else {}) &&
      AllLead(cfg, site, rv, shown.links)
  {
    LinkLeads(cfg, site, rv);
    RepresentLinks(cfg, site, rv, meta, download, upload);
    SameLinksLead(cfg, site, rv, Represent(cfg, site, rv, meta, download, upload).links, LinkFor(cfg, site, rv));
  }

  /**
    The reply for object `i`: an upload link alone for the first object of a new oid, a download link
    alone for any other, in both cases with the registered size.
  */
  ghost predicate RightReply(cfg: Config, site: Site, b: B.Buckets, after: B.Buckets,
                             objects: seq<RequestVars>, i: int, reply: Representation)
    requires 0 <= i < |objects|
  {
    var rv := objects[i];
    reply.oid == rv.oid && rv.oid in after.objects && reply.size == after.objects[rv.oid].size &&
    reply.links.Keys == (if rv.oid !in b.objects && FirstAt(objects, i) then {"upload"} else {"download"}) &&
    AllLead(cfg, site, rv, reply.links)
  }

  lemma EarlierReply(cfg: Config, site: Site, b: B.Buckets, before: B.Buckets, after: B.Buckets,
                     prior: seq<RequestVars>, rv: RequestVars, i: int, reply: Representation)
    requires 0 <= i < |prior| && RightReply(cfg, site, b, before, prior, i, reply)
    requires after.objects == ObjectsAfterOne(before, rv)
    ensures RightReply(cfg, site, b, after, prior + [rv], i, reply)
  {
    assert (prior + [rv])[i] == prior[i];
    FirstInPrefix(prior, rv, i);
  }

  lemma RightOne(cfg: Config, site: Site, b: B.Buckets, m: B.Buckets, prior: seq<RequestVars>, rv: RequestVars)
    requires Registered(b, m, prior) && rv.oid != "" && Authenticate(cfg, m.users, rv.authorization)
    ensures var one := HandleOne(cfg, site, m, rv);
      |one.replies| == 1 && one.meta.objects == ObjectsAfterOne(m, rv) &&
      RightReply(cfg, site, b, one.meta, prior + [rv], |prior|, one.replies[0])
  {
    OneRegisters(cfg, site, m, rv);
    FirstIsNew(b, m, prior, rv);
    if rv.oid in m.objects {
      RepresentShows(cfg, site, rv, m.objects[rv.oid], true, false);
    } else {
      RepresentShows(cfg, site, rv, MetaObject(rv.oid, rv.size, [rv.repo], false), false, true);
    }
  }

  /** One right reply for each object, in order. */
  ghost predicate RightReplies(cfg: Config, site: Site, b: B.Buckets, after: B.Buckets,
                               objects: seq<RequestVars>, replies: seq<Representation>)
  {
    |replies| == |objects| && forall i :: 0 <= i < |objects| ==> RightReply(cfg, site, b, after, objects, i, replies[i])
  }

  lemma OneMoreReply(cfg: Config, site: Site, b: B.Buckets, before: B.Buckets, after: B.Buckets,
                     prior: seq<RequestVars>, rv: RequestVars, replies: seq<Representation>, reply: Representation)
    requires RightReplies(cfg, site, b, before, prior, replies) && after.objects == ObjectsAfterOne(before, rv)
    requires RightReply(cfg, site, b, after, prior + [rv], |prior|, reply)
    ensures RightReplies(cfg, site, b, after, prior + [rv], replies + [reply])
  {
    forall i | 0 <= i <= |prior|
      ensures RightReply(cfg, site, b, after, prior + [rv], i, (replies + [reply])[i])
    {
      if i < |prior| {
        EarlierReply(cfg, site, b, before, after, prior, rv, i, replies[i]);
      }
    }
  }

  /** The objects that a batch answers. */
  function NonEmpty(objects: seq<RequestVars>): seq<RequestVars> {
    if objects == [] then []
    else
      var n := |objects| - 1;
      NonEmpty(objects[..n]) + (if objects[n].oid == "" then [] else [objects[n]])
  }

  lemma {:induction false} AllNonEmpty(objects: seq<RequestVars>)
    requires forall i :: 0 <= i < |objects| ==> objects[i].oid != ""
    ensures NonEmpty(objects) == objects
    decreases |objects|
  {
    if objects != [] {
      AllNonEmpty(objects[..|objects| - 1]);
      assert objects == objects[..|objects| - 1] + [objects[|objects| - 1]];
    }
  }

  /** What a batch has registered and answered so far. */
  ghost predicate Answered(cfg: Config, site: Site, b: B.Buckets, r: BatchResult, objects: seq<RequestVars>) {
    !r.denied && Registered(b, r.meta, objects) && RightReplies(cfg, site, b, r.meta, objects, r.replies)
  }

  lemma SameObjectsRightReplies(cfg: Config, site: Site, b: B.Buckets, m: B.Buckets, n: B.Buckets,
                                objects: seq<RequestVars>, replies: seq<Representation>)
    requires RightReplies(cfg, site, b, m, objects, replies) && n.objects == m.objects
    ensures RightReplies(cfg, site, b, n, objects, replies)
  {
    forall i | 0 <= i < |objects|
      ensures RightReply(cfg, site, b, n, objects, i, replies[i])
    {
      assert RightReply(cfg, site, b, m, objects, i, replies[i]);
    }
  }

  lemma EmptyAddsNothing(cfg: Config, site: Site, b: B.Buckets, prior: seq<RequestVars>, r: BatchResult,
                         rv: RequestVars)
    requires Answered(cfg, site, b, r, prior) && Authenticate(cfg, b.users, rv.authorization) && rv.oid == ""
    ensures var one := HandleOne(cfg, site, r.meta, rv);
      Answered(cfg, site, b, BatchResult(one.meta, r.replies + one.replies, one.denied), prior)
  {
    var one := HandleOne(cfg, site, r.meta, rv);
    OneKeepsUsers(cfg, site, r.meta, rv);
    OneRegisters(cfg, site, r.meta, rv);
    OneKeepsKeys(cfg, site, r.meta, rv);
    assert r.replies + [] == r.replies;
    assert one.meta.objects == r.meta.objects;
    SameObjectsRightReplies(cfg, site, b, r.meta, one.meta, prior, r.replies);
  }

  lemma NonEmptyAddsReply(cfg: Config, site: Site, b: B.Buckets, prior: seq<RequestVars>, r: BatchResult,
                          rv: RequestVars)
    requires Answered(cfg, site, b, r, prior) && Authenticate(cfg, b.users, rv.authorization) && rv.oid != ""
    ensures var one := HandleOne(cfg, site, r.meta, rv);
      Answered(cfg, site, b, BatchResult(one.meta, r.replies + one.replies, one.denied), prior + [rv])
  {
    var one := HandleOne(cfg, site, r.meta, rv);
    OneKeepsUsers(cfg, site, r.meta, rv);
    OneKeepsKeys(cfg, site, r.meta, rv);
    RightOne(cfg, site, b, r.meta, prior, rv);
    RegisteredStep(b, r.meta, one.meta, prior, rv);
    OneMoreReply(cfg, site, b, r.meta, one.meta, prior, rv, r.replies, one.replies[0]);
    assert one.replies == [one.replies[0]];
  }

  /** An authorised batch answers every object with a non-empty oid, in order, with the right links and size. */
  lemma {:induction false} BatchReplies(cfg: Config, site: Site, b: B.Buckets, objects: seq<RequestVars>)
    requires B.WellKeyed(b) && Authorised(cfg, b, objects)
    ensures Answered(cfg, site, b, RunBatch(cfg, site, b, objects), NonEmpty(objects))
    decreases |objects|
  {
    if objects != [] {
      var n := |objects| - 1;
      var prior, rv := objects[..n], objects[n];
      assert objects == prior + [rv];
      BatchReplies(cfg, site, b, prior);
      BatchThenOne(cfg, site, b, prior, rv);
      var before := RunBatch(cfg, site, b, prior);
      if rv.oid == "" {
        EmptyAddsNothing(cfg, site, b, NonEmpty(prior), before, rv);
        assert NonEmpty(objects) == NonEmpty(prior);
      } else {
        NonEmptyAddsReply(cfg, site, b, NonEmpty(prior), before, rv);
      }
    }
  }

  /** It answers every object exactly when no oid is empty; the empty ones are dropped from the reply. */
  lemma {:induction false} AnswersAllExactly(cfg: Config, site: Site, b: B.Buckets, objects: seq<RequestVars>)
    requires B.WellKeyed(b) && Authorised(cfg, b, objects)
    ensures |RunBatch(cfg, site, b, objects).replies| <= |objects|
    ensures |RunBatch(cfg, site, b, objects).replies| == |objects| <==>
      forall i :: 0 <= i < |objects| ==> objects[i].oid != ""
    decreases |objects|
  {
    if objects != [] {
      var n := |objects| - 1;
      assert objects == objects[..n] + [objects[n]];
      AnswersAllExactly(cfg, site, b, objects[..n]);
      BatchRegisters(cfg, site, b, objects[..n]);
      BatchThenOne(cfg, site, b, objects[..n], objects[n]);
      OneKeepsUsers(cfg, site, RunBatch(cfg, site, b, objects[..n]).meta, objects[n]);
      OneRegisters(cfg, site, RunBatch(cfg, site, b, objects[..n]).meta, objects[n]);
    }
  }

  /** Handling the object again changes nothing: it is registered, or it is empty and its project is there. */
  ghost predicate Settled(b: B.Buckets, rv: RequestVars) {
    rv.oid in b.objects || (rv.oid == "" && (rv.repo == "" || rv.repo in b.projects))
  }

  lemma SettledStays(cfg: Config, site: Site, b: B.Buckets, rv: RequestVars, other: RequestVars)
    requires B.WellKeyed(b) && Authenticate(cfg, b.users, other.authorization)
    ensures Settled(b, rv) ==> Settled(HandleOne(cfg, site, b, other).meta, rv)
    ensures Settled(HandleOne(cfg, site, b, other).meta, other)
  {
  }

  lemma SettledIsKept(cfg: Config, site: Site, b: B.Buckets, rv: RequestVars)
    requires B.WellKeyed(b) && Authenticate(cfg, b.users, rv.authorization) && Settled(b, rv)
    ensures HandleOne(cfg, site, b, rv).meta == b
  {
  }

  lemma {:induction false} BatchSettles(cfg: Config, site: Site, b: B.Buckets, objects: seq<RequestVars>)
    requires B.WellKeyed(b) && Authorised(cfg, b, objects)
    ensures forall i :: 0 <= i < |objects| ==> Settled(RunBatch(cfg, site, b, objects).meta, objects[i])
    decreases |objects|
  {
    if objects != [] {
      var n := |objects| - 1;
      var prior, rv := objects[..n], objects[n];
      assert objects == prior + [rv];
      BatchSettles(cfg, site, b, prior);
      BatchRegisters(cfg, site, b, prior);
      BatchThenOne(cfg, site, b, prior, rv);
      forall i | 0 <= i < |objects|
        ensures Settled(RunBatch(cfg, site, b, objects).meta, objects[i])
      {
        assert i < n ==> prior[i] == objects[i];
        SettledStays(cfg, site, RunBatch(cfg, site, b, prior).meta, objects[i], rv);
      }
    }
  }

  lemma {:induction false} SettledChangesNothing(cfg: Config, site: Site, b: B.Buckets, objects: seq<RequestVars>)
    requires B.WellKeyed(b) && Authorised(cfg, b, objects) && forall i :: 0 <= i < |objects| ==> Settled(b, objects[i])
    ensures RunBatch(cfg, site, b, objects).meta == b
    decreases objects
  {
    if objects != [] {
      SettledIsKept(cfg, site, b, objects[0]);
      assert objects[1..] == [] || objects[1..][0] == objects[1];
      SettledChangesNothing(cfg, site, b, objects[1..]);
      OneKeepsUsers(cfg, site, b, objects[0]);
    }
  }

  /** The replies to a batch that was sent before: download links only, for the same oids with the same sizes. */
  ghost predicate RepliesAgain(again: seq<Representation>, first: seq<Representation>) {
    |again| == |first| &&
    forall i :: 0 <= i < |first| ==>
      again[i].links.Keys == {"download"} && again[i].oid == first[i].oid && again[i].size == first[i].size
  }

  lemma KnownRepliesAgain(cfg: Config, site: Site, b: B.Buckets, m: B.Buckets, objects: seq<RequestVars>,
                          first: seq<Representation>, again: seq<Representation>)
    requires RightReplies(cfg, site, b, m, objects, first) && RightReplies(cfg, site, m, m, objects, again)
    ensures RepliesAgain(again, first)
  {
    forall i | 0 <= i < |objects|
      ensures again[i].links.Keys == {"download"} && again[i].oid == first[i].oid && again[i].size == first[i].size
    {
      assert RightReply(cfg, site, b, m, objects, i, first[i]);
      assert RightReply(cfg, site, m, m, objects, i, again[i]);
    }
  }

  /** Sent again, a batch changes nothing and gets download links only, with the sizes of the first reply. */
  lemma BatchAgain(cfg: Config, site: Site, b: B.Buckets, objects: seq<RequestVars>)
    requires B.WellKeyed(b) && Authorised(cfg, b, objects)
    ensures var first := RunBatch(cfg, site, b, objects);
      var again := RunBatch(cfg, site, first.meta, objects);
      again.meta == first.meta && !again.denied && RepliesAgain(again.replies, first.replies)
  {
    var first := RunBatch(cfg, site, b, objects);
    BatchReplies(cfg, site, b, objects);
    BatchSettles(cfg, site, b, objects);
    SettledChangesNothing(cfg, site, first.meta, objects);
    BatchReplies(cfg, site, first.meta, objects);
    KnownRepliesAgain(cfg, site, b, first.meta, NonEmpty(objects), first.replies,
                      RunBatch(cfg, site, first.meta, objects).replies);
  }
}
