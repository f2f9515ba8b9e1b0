/** src/controllers/bucket_controller.ts: report the bucket with the most
    free space, and create a bucket in object storage and in the ledger.

    `createBucket` answers 400 when the request has no name but does not
    return afterwards: it goes on to create the bucket and writes a second
    reply.  `CreateBucket` models the handler as written; `CreateBucketChecked`
    is the handler with the evidently intended `return`. */
module BucketController {
  import opened Common
  import opened Http
  import opened JsonBody
  import opened Store
  import BucketService

  const NoBucketMessage := "No se encontró ningún bucket con espacio disponible."
  const NameRequired := "Debe proporcionar un nombre para el bucket."
  const CreatedMessage := "Bucket creado correctamente."

  // ---- getBucketWithMostSpace ----

  /** The reply of `getBucketWithMostSpace` for the ledger. */
  function MostSpaceReply(buckets: seq<Bucket>): (w: Write)
    ensures w.status == 404 <==> |buckets| == 0
    ensures w.status in {200, 404}
  {
    match BucketService.MostAvailable(buckets)
    case None => Write(404, JObj([("success", JBool(false)), ("message", JStr(NoBucketMessage))]))
    case Some(b) => Write(200, JObj([("success", JBool(true)), ("data", BucketJson(b))]))
  }

  method GetBucketWithMostSpace(db: Database, res: Response)
    modifies res
    ensures res.writes == old(res.writes) + [MostSpaceReply(db.buckets)]
  {
    var reply := MostSpaceReply(db.buckets);
    res.Send(reply.status, reply.body);
  }

  // ---- createBucket ----

  /** `{ success: false, message: 'Debe proporcionar ...' }` with 400. */
  function MissingNameReply(): Write {
    Write(400, JObj([("success", JBool(false)), ("message", JStr(NameRequired))]))
  }

  /** The reply to the outcome of `createNewBucket`. */
  function CreatedReply(r: Result<Bucket>): (w: Write)
    ensures w.status == 201 <==> r.Ok?
    ensures r.Err? ==>
      w == Write(500, JObj([("success", JBool(false)), ("error", JStr(r.message))]))
  {
    match r
    case Ok(b) =>
      Write(201, JObj([("success", JBool(true)), ("message", JStr(CreatedMessage)), ("data", BucketJson(b))]))
    case Err(m) => Write(500, JObj([("success", JBool(false)), ("error", JStr(m))]))
  }

  /** What `createNewBucket(name)` returns when the next id is `id`. */
  function Creation(createRemote: string -> Outcome, name: string, id: nat): Result<Bucket> {
    match createRemote(name)
    case Pass => Ok(Bucket(id, name, BucketService.DefaultStorage))
    case Fail(m) => Err(m)
  }

  /** The replies `createBucket` as written attempts: the 400 for a
      missing name does not end the handler. */
  function AsWrittenReplies(name: string, created: Result<Bucket>): seq<Write> {
    (if name == [] then [MissingNameReply()] else []) + [CreatedReply(created)]
  }

  /** The replies of the handler with the `return`. */
  function CheckedReplies(name: string, created: Result<Bucket>): seq<Write> {
    if name == [] then [MissingNameReply()] else [CreatedReply(created)]
  }

  /** `createBucket` as written.  A missing `name` is the empty string. */
  method CreateBucket(db: Database, res: Response, name: string, createRemote: string -> Outcome)
    requires db.Valid()
    modifies db, res
    ensures db.Valid()
    ensures res.writes == old(res.writes) + AsWrittenReplies(name, Creation(createRemote, name, old(db.nextBucketId)))
    ensures db.buckets == old(db.buckets)
      + (if createRemote(name).Pass? then [Bucket(old(db.nextBucketId), name, BucketService.DefaultStorage)] else [])
    ensures db.images == old(db.images) && db.labels == old(db.labels)
  {
    if name == [] {
      var missing := MissingNameReply();
      res.Send(missing.status, missing.body);
    }
    var r := BucketService.CreateNewBucket(db, name, createRemote);
    var reply := CreatedReply(r);
    res.Send(reply.status, reply.body);
  }

  /** `createBucket` with a `return` after the 400 reply: a request without
      a name gets one reply and creates nothing. */
  method CreateBucketChecked(db: Database, res: Response, name: string, createRemote: string -> Outcome)
    requires db.Valid()
    modifies db, res
    ensures db.Valid()
    ensures res.writes == old(res.writes) + CheckedReplies(name, Creation(createRemote, name, old(db.nextBucketId)))
    ensures name == [] ==> unchanged(db)
    ensures name != [] ==>
      db.buckets == old(db.buckets)
        + (if createRemote(name).Pass? then [Bucket(old(db.nextBucketId), name, BucketService.DefaultStorage)] else [])
    ensures db.images == old(db.images) && db.labels == old(db.labels)
  {
    if name == [] {
      var missing := MissingNameReply();
      res.Send(missing.status, missing.body);
      return;
    }
    var r := BucketService.CreateNewBucket(db, name, createRemote);
    var reply := CreatedReply(r);
    res.Send(reply.status, reply.body);
  }

  // ---- lemmas ----

  /** As written, a request without a name gets the 400 reply and then a
      second one (201 or 500, which Express refuses with
      `ERR_HTTP_HEADERS_SENT` because the reply has been sent). */
  lemma MissingNameRepliesTwice(created: Result<Bucket>)
    ensures var ws := AsWrittenReplies([], created);
      |ws| == 2 && ws[0].status == 400 && ws[1].status in {201, 500}
  {
  }

  /** With the `return`, every request gets exactly one reply, and it is
      the 400 exactly when the name is missing. */
  lemma CheckedRepliesOnce(name: string, created: Result<Bucket>)
    ensures var ws := CheckedReplies(name, created);
      |ws| == 1 && (ws[0].status == 400 <==> name == [])
      && (name != [] ==> ws == AsWrittenReplies(name, created))
  {
  }

  /** The reported bucket can be read back from the reply, belongs to the
      ledger and has at least as much free space as every other bucket. */
  lemma MostSpaceReplyNamesLargest(buckets: seq<Bucket>)
    requires |buckets| > 0
    ensures var w := MostSpaceReply(buckets);
      w.status == 200 && w.body.JObj? && |w.body.members| == 2
      && w.body.members[1].0 == "data"
      && var decoded := DecodeBucket(w.body.members[1].1);
         decoded.Some? && decoded.value in buckets
         && forall b :: b in buckets ==> b.storage <= decoded.value.storage
  {
    BucketRoundTrip(BucketService.MostAvailable(buckets).value);
  }

  /** A created bucket is announced with 100 MB free and the next id. */
  lemma CreatedReplyReadsBack(name: string, id: nat)
    ensures var w := CreatedReply(Ok(Bucket(id, name, BucketService.DefaultStorage)));
      w.body.JObj? && |w.body.members| == 3
      && DecodeBucket(w.body.members[2].1) == Some(Bucket(id, name, 100.0))
  {
    BucketRoundTrip(Bucket(id, name, BucketService.DefaultStorage));
  }
}
