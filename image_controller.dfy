/** src/controllers/image_controller.ts: the HTTP handlers for processing
    an uploaded image, listing stored images page by page and deleting an
    image from object storage.  Each handler answers with exactly one
    `res.status(..).json(..)`; a thrown error becomes a 500 reply with the
    error's message. */
module ImageController {
  import opened Common
  import opened Text
  import opened Http
  import opened JsonBody
  import opened Store
  import opened LocalDisk
  import JsNumber
  import VisionService
  import StorageService
  import BucketService
  import ImageService

  const FileRequired := "El archivo de imagen es obligatorio."
  const FileNameRequired := "El nombre del archivo es obligatorio."
  const DeletedMessage := "Imagen eliminada correctamente."

  /** `res.status(status).json({ error: message })`. */
  function ErrorReply(status: int, message: string): Write {
    Write(status, JObj([("error", JStr(message))]))
  }

  // ---- processImage ----

  function ProcessedJson(p: ImageService.Processed): Json {
    JObj([("image", ImageJson(p.image)), ("labels", JArr(Labels(p.labels))),
          ("storageInfo", UploadedJson(p.storageInfo))])
  }

  /** The reply to the outcome of `processAndSaveImage`. */
  function ProcessReply(r: Result<ImageService.Processed>): (w: Write)
    ensures w.status == 200 <==> r.Ok?
    ensures r.Err? ==> w == ErrorReply(500, r.message)
  {
    match r
    case Ok(p) => Write(200, JObj([("success", JBool(true)), ("data", ProcessedJson(p))]))
    case Err(m) => ErrorReply(500, m)
  }

  /** `processImage`: without an uploaded file the reply is 400 and nothing
      is touched; otherwise the image is processed from the temporary path
      multer chose, and `result` is what processing returned. */
  method ProcessImage(db: Database, disk: Disk, res: Response, file: Option<UploadedFile>,
                      config: VisionService.Config,
                      classify: string -> Result<Option<seq<VisionService.Annotation>>>,
                      uploadRemote: (string, string, string) -> Outcome)
    returns (result: Result<ImageService.Processed>)
    requires db.Valid()
    modifies db, disk, res
    ensures db.Valid()
    ensures file.None? ==>
      result == Err(FileRequired) && res.writes == old(res.writes) + [ErrorReply(400, FileRequired)]
      && unchanged(db) && unchanged(disk)
    ensures file.Some? ==> res.writes == old(res.writes) + [ProcessReply(result)]
    ensures file.Some? ==>
      var stage := ImageService.StageOf(old(db.buckets), old(disk.files), file.value.path,
                                        classify, uploadRemote);
      (result.Ok? <==> stage == ImageService.Done)
      && (stage == ImageService.NoBucket ==> result == Err(ImageService.NoBucketMessage))
      && (stage == ImageService.NoSpace ==> result == Err(ImageService.NoSpaceMessage))
      && (stage in {ImageService.NoBucket, ImageService.NoFile, ImageService.NoSpace} ==>
            unchanged(db) && unchanged(disk))
      && (stage != ImageService.Done ==> db.buckets == old(db.buckets))
  {
    if file.None? {
      res.Send(400, JObj([("error", JStr(FileRequired))]));
      return Err(FileRequired);
    }
    result := ImageService.ProcessAndSaveImage(db, disk, file.value.path, config, classify, uploadRemote);
    var reply := ProcessReply(result);
    res.Send(reply.status, reply.body);
  }

  // ---- listImages ----

  /** `parseInt(req.query.x as string) || fallback`: an absent parameter,
      one that does not parse, and one that parses to 0 all give the
      fallback. */
  function QueryNumber(q: Option<string>, fallback: int): (n: int)
    ensures fallback != 0 ==> n != 0
    ensures q.None? ==> n == fallback
  {
    match q
    case None => fallback
    case Some(s) =>
      match JsNumber.ParseInt(s)
      case None => fallback
      case Some(v) => if v == 0 then fallback else v
  }

  function PageJson(p: ImageService.Page, page: int, limit: int): Json {
    JObj([("images", JArr(Images(p.images))), ("total", Num(p.total)),
          ("page", Num(page)), ("limit", Num(limit))])
  }

  /** The reply of `listImages` for the stored rows and the raw query. */
  function ListReply(rows: seq<ImageRow>, pageQ: Option<string>, limitQ: Option<string>): (w: Write)
    ensures w.status == 200 <==>
      QueryNumber(pageQ, ImageService.DefaultPage) >= 1 && QueryNumber(limitQ, ImageService.DefaultLimit) > 0
    ensures w.status != 200 ==> w == ErrorReply(500, ImageService.SqlSyntaxError)
  {
    var page := QueryNumber(pageQ, ImageService.DefaultPage);
    var limit := QueryNumber(limitQ, ImageService.DefaultLimit);
    match ImageService.ListImages(rows, page, limit)
    case Ok(p) => Write(200, JObj([("success", JBool(true)), ("data", PageJson(p, page, limit))]))
    case Err(m) => ErrorReply(500, m)
  }

  method ListImages(db: Database, res: Response, pageQ: Option<string>, limitQ: Option<string>)
    modifies res
    ensures res.writes == old(res.writes) + [ListReply(db.images, pageQ, limitQ)]
  {
    var reply := ListReply(db.images, pageQ, limitQ);
    res.Send(reply.status, reply.body);
  }

  // ---- deleteImage ----

  /** The reply of `deleteImage` for a file name from the route. */
  function DeleteReply(buckets: seq<Bucket>, fileName: string,
                       deleteRemote: (string, string) -> Outcome): (w: Write)
    ensures w.status == 400 <==> fileName == []
    ensures w.status in {200, 400, 500}
    ensures fileName != [] ==>
      var d := StorageService.DeleteImage(buckets, fileName, deleteRemote);
      (w.status == 200 <==> d.Pass?) && (d.Fail? ==> w == ErrorReply(500, d.message))
  {
    if fileName == [] then ErrorReply(400, FileNameRequired)
    else
      match StorageService.DeleteImage(buckets, fileName, deleteRemote)
      case Pass => Write(200, JObj([("success", JBool(true)), ("message", JStr(DeletedMessage))]))
      case Fail(m) => ErrorReply(500, m)
  }

  /** The object is only removed from storage; the ledger, including the
      image and label rows, is left as it is. */
  method DeleteImage(db: Database, res: Response, fileName: string,
                     deleteRemote: (string, string) -> Outcome)
    modifies res
    ensures res.writes == old(res.writes) + [DeleteReply(db.buckets, fileName, deleteRemote)]
  {
    var reply := DeleteReply(db.buckets, fileName, deleteRemote);
    res.Send(reply.status, reply.body);
  }

  // ---- lemmas ----

  /** A query value is read up to its first non-digit: "3abc" is page 3. */
  lemma QueryNumberReadsLeadingDigits(n: nat, t: string, fallback: int)
    requires n != 0 && (t == [] || !IsDigit(t[0]))
    ensures QueryNumber(Some(JsNumber.Decimal(n) + t), fallback) == n
  {
    JsNumber.ParseIntOfDecimal(n, t);
  }

  /** Negative values are not rejected by the handler. */
  lemma QueryNumberKeepsNegative(n: nat, t: string, fallback: int)
    requires n != 0 && (t == [] || !IsDigit(t[0]))
    ensures QueryNumber(Some("-" + JsNumber.Decimal(n) + t), fallback) == -(n as int)
  {
    JsNumber.ParseIntOfNegativeDecimal(n, t);
  }

  /** "0" falls back to the default, as a value that does not parse does. */
  lemma QueryNumberZeroFallsBack(fallback: int)
    ensures QueryNumber(Some("0"), fallback) == fallback
  {
    JsNumber.ParseIntOfDecimal(0, []);
    assert JsNumber.Decimal(0) + [] == "0";
  }

  lemma QueryNumberNaNFallsBack(s: string, fallback: int)
    requires s == [] || (!IsDigit(s[0]) && !JsNumber.IsJsSpace(s[0]) && s[0] != '-' && s[0] != '+')
    ensures QueryNumber(Some(s), fallback) == fallback
  {
    JsNumber.ParseIntNaN(s);
  }

  /** Without query parameters the reply is page 1 of 50 newest rows. */
  lemma DefaultListReply(rows: seq<ImageRow>)
    ensures ListReply(rows, None, None) ==
      Write(200, JObj([("success", JBool(true)),
                       ("data", PageJson(ImageService.Page(ImageService.NewestFirst(rows)[..ImageService.Min(50, |rows|)], |rows|), 1, 50))]))
  {
    ImageService.DefaultListing(rows);
  }

  /** A negative page or limit reaches the database and fails there. */
  lemma NegativeQueryFails(rows: seq<ImageRow>, n: nat, limitQ: Option<string>)
    requires n != 0
    ensures ListReply(rows, Some("-" + JsNumber.Decimal(n)), limitQ) == ErrorReply(500, ImageService.SqlSyntaxError)
    ensures ListReply(rows, None, Some("-" + JsNumber.Decimal(n))) == ErrorReply(500, ImageService.SqlSyntaxError)
  {
    QueryNumberKeepsNegative(n, [], ImageService.DefaultPage);
    QueryNumberKeepsNegative(n, [], ImageService.DefaultLimit);
    assert "-" + JsNumber.Decimal(n) + [] == "-" + JsNumber.Decimal(n);
  }

  /** With a non-empty name and a ledger with buckets, the delete succeeds
      exactly when the most-available bucket holds the object; otherwise
      the reply is a 500 whose message reports the missing object. */
  lemma DeleteReplyAgainstStore(buckets: seq<Bucket>, objects: set<(string, string)>, fileName: string)
    requires |buckets| > 0 && fileName != []
    ensures var chosen := BucketService.MostAvailable(buckets).value.name;
      var w := DeleteReply(buckets, fileName, StorageService.ObjectStoreDelete(objects));
      (w.status == 200 <==> (chosen, fileName) in objects)
      && (w.status != 200 ==>
            exists m :: w == ErrorReply(500, m) && Contains(m, "No such object"))
  {
    StorageService.DeleteTargetsMostAvailable(buckets, objects, fileName);
    var r := StorageService.DeleteImage(buckets, fileName, StorageService.ObjectStoreDelete(objects));
    if r.Fail? {
      assert DeleteReply(buckets, fileName, StorageService.ObjectStoreDelete(objects)) == ErrorReply(500, r.message);
    }
  }

  /** With no bucket in the ledger the delete always fails. */
  lemma DeleteWithoutBuckets(fileName: string, deleteRemote: (string, string) -> Outcome)
    requires fileName != []
    ensures DeleteReply([], fileName, deleteRemote) ==
      ErrorReply(500, StorageService.DeleteErrorPrefix + StorageService.NoBucketMessage)
  {
  }
}
