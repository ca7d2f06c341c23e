/** The request handlers over a Bolt metadata store and a file content store. */
module Server {
  import opened Common
  import opened BasicAuth
  import opened MetaTypes
  import opened Routes
  import opened Upload
  import opened VerifiedUpload
  import opened FileContentStore
  import B = BoltStore

  const CONTENT_MEDIA_TYPE := "application/vnd.git-lfs"

  /** Where links point. */
  datatype Site = Site(scheme: string, host: string)

  datatype Link = Link(href: string, accept: string, authorization: Option<string>)
  datatype Representation = Representation(oid: string, size: int, links: map<string, Link>)

  datatype Payload =
    | NoPayload
    | Object(shown: Representation)
    | Objects(objects: seq<Representation>)
    | Content(bytes: Bytes)
  datatype Response = Response(status: int, payload: Payload)

  function ObjectLink(site: Site, rv: RequestVars): string {
    var path := "/" + rv.namespace + "/" + rv.repo + "/objects/" + rv.oid;
    if Contains(site.scheme, "https") then site.scheme + "://" + site.host + path else "http://" + site.host + path
  }

  /** A link to the object, with the header to send along. */
  function LinkFor(cfg: Config, site: Site, rv: RequestVars): Link {
    Link(ObjectLink(site, rv), CONTENT_MEDIA_TYPE, if cfg.isPublic then None else Some(rv.authorization))
  }

  function Represent(cfg: Config, site: Site, rv: RequestVars, meta: MetaObject, download: bool,
                     upload: bool): Representation
  {
    var link := LinkFor(cfg, site, rv);
    Representation(meta.oid, meta.size,
      (if download then map["download" := link] else map[]) + (if upload then map["upload" := link] else map[]))
  }

  /** The status of a metadata error. */
  function Refusal(fault: Fault): Response {
    Response(if IsAuthError(fault) then 401 else 404, NoPayload)
  }

  /** What the two stores hold. */
  datatype Stores = Stores(meta: B.Buckets, content: map<string, Bytes>)

  const NO_STORES := Stores(B.NO_BUCKETS, map[])

  /** The objects of a batch are what was decoded of its body; `intact` says whether decoding succeeded. */
  datatype Request =
    | Post(rv: RequestVars, statOk: bool)
    | Batch(objects: seq<RequestVars>, intact: bool, namespace: string, repo: string, authorization: string)
    | PutContent(rv: RequestVars, body: Body, io: DiskIo)
    | Download(rv: RequestVars, openOk: bool)
    | AddUser(user: Bytes, password: Bytes)
    | DeleteUser(user: Bytes)

  function Stamp(objects: seq<RequestVars>, namespace: string, repo: string, authorization: string): seq<RequestVars> {
    seq(|objects|, i requires 0 <= i < |objects| =>
      objects[i].(namespace := namespace, repo := repo, authorization := authorization))
  }

  /** The objects of an intact batch all get the namespace, the repository and the authorization of the request. */
  function Unpacked(r: Request): seq<RequestVars>
    requires r.Batch?
  {
    if r.intact then Stamp(r.objects, r.namespace, r.repo, r.authorization) else r.objects
  }

  /** What a batch makes of the metadata, the replies so far, and whether it was denied. */
  datatype BatchResult = BatchResult(meta: B.Buckets, replies: seq<Representation>, denied: bool)

  function Replied(reply: seq<Representation>, rest: BatchResult): BatchResult {
    rest.(replies := reply + rest.replies)
  }

  /** One object of a batch: looked up first, registered if it is unknown. */
  function HandleOne(cfg: Config, site: Site, b: B.Buckets, rv: RequestVars): BatchResult {
    match B.Get(cfg, b, rv)
    case Ok(meta) => BatchResult(b, [Represent(cfg, site, rv, meta, true, false)], false)
    case Err(fault) =>
      if IsAuthError(fault) then BatchResult(b, [], true)
      else
        BatchResult(B.BucketsAfterPut(cfg, b, rv),
          match B.Put(cfg, b, rv)
          case Ok(meta) => [Represent(cfg, site, rv, meta, meta.existing, true)]
          case Err(_) => [],
          false)
  }

  function RunBatch(cfg: Config, site: Site, b: B.Buckets, objects: seq<RequestVars>): BatchResult
    decreases objects
  {
    if objects == [] then BatchResult(b, [], false)
    else
      var one := HandleOne(cfg, site, b, objects[0]);
      if one.denied then one else Replied(one.replies, RunBatch(cfg, site, one.meta, objects[1..]))
  }

  lemma RepliedTwice(x: seq<Representation>, y: seq<Representation>, rest: BatchResult)
    ensures Replied(x, Replied(y, rest)) == Replied(x + y, rest)
  {
    assert x + (y + rest.replies) == (x + y) + rest.replies;
  }

  /** The verdict on an upload when no temporary file is in the way. */
  function UploadOutcome(h: Hash, meta: MetaObject, body: Body, io: DiskIo): Outcome {
    if io.openOk then SoloOutcome(h, meta.oid, meta.size, body, io) else IoError
  }

  function Next(cfg: Config, site: Site, h: Hash, s: Stores, r: Request): Stores {
    match r
    case Post(rv, _) => s.(meta := B.BucketsAfterPut(cfg, s.meta, rv))
    case Batch(_, _, _, _, _) => s.(meta := RunBatch(cfg, site, s.meta, Unpacked(r)).meta)
    case PutContent(rv, body, io) =>
      (match B.Get(cfg, s.meta, rv)
       case Err(_) => s
       case Ok(meta) =>
         s.(content := Stored(s.content, meta.oid, Joined(body.chunks), UploadOutcome(h, meta, body, io))))
    case Download(_, _) => s
    case AddUser(user, password) =>
      if user == [] || password == [] then s else s.(meta := B.BucketsStep(cfg, s.meta, AddUserOp(user, password)))
    case DeleteUser(user) =>
      if user == [] then s else s.(meta := B.BucketsStep(cfg, s.meta, DeleteUserOp(user)))
  }

  function Respond(cfg: Config, site: Site, h: Hash, s: Stores, r: Request): Response {
    match r
    case Post(rv, statOk) =>
      (match B.Put(cfg, s.meta, rv)
       case Err(fault) => Refusal(fault)
       case Ok(meta) =>
         Response(if meta.existing && (meta.oid in s.content || !statOk) then 200 else 202,
                  Object(Represent(cfg, site, rv, meta, meta.existing, true))))
    case Batch(_, _, _, _, _) =>
      var result := RunBatch(cfg, site, s.meta, Unpacked(r));
      if result.denied then Refusal(AuthError) else Response(200, Objects(result.replies))
    case PutContent(rv, body, io) =>
      (match B.Get(cfg, s.meta, rv)
       case Err(fault) => Refusal(fault)
       case Ok(meta) => Response(if UploadOutcome(h, meta, body, io) == Accepted then 200 else 500, NoPayload))
    case Download(rv, openOk) =>
      (match B.Get(cfg, s.meta, rv)
       case Err(fault) => Refusal(fault)
       case Ok(meta) =>
         if meta.oid in s.content && openOk then Response(200, Content(s.content[meta.oid]))
         else Response(404, NoPayload))
    case AddUser(user, password) =>
      Response(if user != [] && password != [] && B.BoltReply(cfg, s.meta, AddUserOp(user, password)) == Done then 302
               else 200, NoPayload)
    case DeleteUser(user) =>
      Response(if user != [] && B.BoltReply(cfg, s.meta, DeleteUserOp(user)) == Done then 302 else 200, NoPayload)
  }

  /** What an upload request comes to. */
  lemma PutContentResult(cfg: Config, site: Site, h: Hash, s: Stores, rv: RequestVars, body: Body, io: DiskIo)
    ensures var found, r := B.Get(cfg, s.meta, rv), PutContent(rv, body, io);
      if found.Err? then Next(cfg, site, h, s, r) == s && Respond(cfg, site, h, s, r) == Refusal(found.fault)
      else
        var outcome := UploadOutcome(h, found.value, body, io);
        Next(cfg, site, h, s, r) == s.(content := Stored(s.content, found.value.oid, Joined(body.chunks), outcome)) &&
        Respond(cfg, site, h, s, r) == Response(if outcome == Accepted then 200 else 500, NoPayload)
  {
  }

  /** Stamps the decoded objects in place, unless decoding broke off. */
  method UnpackBatch(objects: array<RequestVars>, intact: bool, namespace: string, repo: string, authorization: string)
    modifies objects
    ensures !intact ==> objects[..] == old(objects[..])
    ensures intact ==> forall i :: 0 <= i < objects.Length ==>
      objects[i] == RequestVars(old(objects[i]).oid, old(objects[i]).size, namespace, repo, authorization)
  {
    if !intact {
      return;
    }
    for i := 0 to objects.Length
      invariant forall k :: i <= k < objects.Length ==> objects[k] == old(objects[k])
      invariant forall k :: 0 <= k < i ==>
        objects[k] == RequestVars(old(objects[k]).oid, old(objects[k]).size, namespace, repo, authorization)
    {
      objects[i] := objects[i].(namespace := namespace, repo := repo, authorization := authorization);
    }
  }

  method Unpack(batch: Request) returns (objects: seq<RequestVars>)
    requires batch.Batch?
    ensures objects == Unpacked(batch)
  {
    var decoded := new RequestVars[|batch.objects|](i requires 0 <= i < |batch.objects| => batch.objects[i]);
    UnpackBatch(decoded, batch.intact, batch.namespace, batch.repo, batch.authorization);
    objects := decoded[..];
  }

  class App {
    const cfg: Config
    const site: Site
    const metaStore: B.MetaStore
    const contentStore: ContentStore

    ghost predicate Valid()
      reads this, metaStore, contentStore
    {
      metaStore.cfg == cfg && contentStore.Valid() && contentStore.NoLeftovers()
    }

    ghost function Now(): Stores
      reads this, metaStore, contentStore
    {
      Stores(metaStore.State(), contentStore.contents)
    }

    constructor (cfg: Config, site: Site, metaStore: B.MetaStore, contentStore: ContentStore)
      requires metaStore.cfg == cfg && contentStore.Valid() && contentStore.NoLeftovers()
      ensures Valid() && this.cfg == cfg && this.site == site
      ensures this.metaStore == metaStore && this.contentStore == contentStore
    {
      this.cfg, this.site, this.metaStore, this.contentStore := cfg, site, metaStore, contentStore;
    }

    method PostHandler(rv: RequestVars, statOk: bool) returns (r: Response)
      requires Valid()
      modifies metaStore
      ensures Valid() && Now() == Next(cfg, site, contentStore.hash, old(Now()), Post(rv, statOk))
      ensures r == Respond(cfg, site, contentStore.hash, old(Now()), Post(rv, statOk))
    {
      var put := metaStore.PutMeta(rv);
      if put.Err? {
        return Refusal(put.fault);
      }
      var meta, status := put.value, 202;
      if meta.existing {
        var stored := contentStore.Exists(meta.oid, statOk);
        if stored {
          status := 200;
        }
      }
      return Response(status, Object(Represent(cfg, site, rv, meta, meta.existing, true)));
    }

    /** The body of the batch loop: at most one reply for one object. */
    method HandleObject(rv: RequestVars) returns (replies: seq<Representation>, denied: bool)
      requires metaStore.cfg == cfg
      modifies metaStore
      ensures BatchResult(metaStore.State(), replies, denied) == HandleOne(cfg, site, old(metaStore.State()), rv)
    {
      replies, denied := [], false;
      var found := metaStore.GetMeta(rv);
      if found.Ok? {
        replies := [Represent(cfg, site, rv, found.value, true, false)];
        return;
      }
      if IsAuthError(found.fault) {
        denied := true;
        return;
      }
      var put := metaStore.PutMeta(rv);
      if put.Ok? {
        replies := [Represent(cfg, site, rv, put.value, put.value.existing, true)];
      }
    }

    method BatchHandler(batch: Request) returns (r: Response)
      requires Valid() && batch.Batch?
      modifies metaStore
      ensures Valid() && Now() == Next(cfg, site, contentStore.hash, old(Now()), batch)
      ensures r == Respond(cfg, site, contentStore.hash, old(Now()), batch)
    {
      var objects := Unpack(batch);
      var replies: seq<Representation> := [];
      ghost var result := RunBatch(cfg, site, metaStore.State(), objects);
      for i := 0 to |objects|
        invariant Replied(replies, RunBatch(cfg, site, metaStore.State(), objects[i..])) == result
      {
        assert objects[i..][0] == objects[i] && objects[i..][1..] == objects[i + 1..];
        var reply, denied := HandleObject(objects[i]);
        if denied {
          return Refusal(AuthError);
        }
        RepliedTwice(replies, reply, RunBatch(cfg, site, metaStore.State(), objects[i + 1..]));
        replies := replies + reply;
      }
      assert replies + [] == replies;
      return Response(200, Objects(replies));
    }

    method PutHandler(rv: RequestVars, body: Body, io: DiskIo) returns (r: Response)
      requires Valid()
      modifies contentStore
      ensures Valid() && Now() == Next(cfg, site, contentStore.hash, old(Now()), PutContent(rv, body, io))
      ensures r == Respond(cfg, site, contentStore.hash, old(Now()), PutContent(rv, body, io))
    {
      PutContentResult(cfg, site, contentStore.hash, Now(), rv, body, io);
      var found := metaStore.GetMeta(rv);
      if found.Err? {
        return Refusal(found.fault);
      }
      var meta := found.value;
      var outcome := contentStore.Put(meta.oid, meta.size, body, io);
      return Response(if outcome == Accepted then 200 else 500, NoPayload);
    }

    method GetContentHandler(rv: RequestVars, openOk: bool) returns (r: Response)
      requires Valid()
      ensures r == Respond(cfg, site, contentStore.hash, Now(), Download(rv, openOk))
    {
      var found := metaStore.GetMeta(rv);
      if found.Err? {
        return Refusal(found.fault);
      }
      var content := contentStore.Get(found.value.oid, openOk);
      return if content.Some? then Response(200, Content(content.value)) else Response(404, NoPayload);
    }
  }
}
