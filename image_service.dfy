/** src/services/image_service.ts: the full processing of an uploaded image
    (choose a bucket, check and debit its free space, store the image row,
    classify, store one label row per result, upload, record the URL, persist
    the bucket) and the paginated listing of image rows. */
module ImageService {
  import opened Common
  import opened Text
  import opened Store
  import opened LocalDisk
  import opened VisionService
  import StorageService
  import BucketService

  const NoBucketMessage := "No se encontró ningún bucket disponible."
  /** The first sentence of the capacity error; the two sizes that follow it
      are formatted numbers, which this model does not render. */
  const NoSpaceMessage := "El bucket no tiene espacio suficiente para esta imagen."

  const BytesPerMB: real := 1048576.0

  /** `bytes / (1024 * 1024)`. */
  function SizeInMB(bytes: nat): (mb: real)
    ensures mb >= 0.0
    ensures mb * BytesPerMB == bytes as real
  {
    bytes as real / BytesPerMB
  }

  /** What a completed processing returns. */
  datatype Processed = Processed(image: ImageRow, labels: seq<LabelResult>, storageInfo: StorageService.Uploaded)

  /** The step at which processing stops, given the ledger, the temporary
      files and the answers of the classifier and of the object store. */
  datatype Stage = NoBucket | NoFile | NoSpace | LabelsFailed | UploadFailed | Done

  function StageOf(buckets: seq<Bucket>, files: map<string, nat>, filePath: string,
                   classify: string -> Result<Option<seq<Annotation>>>,
                   uploadRemote: (string, string, string) -> Outcome): Stage
  {
    match BucketService.MostAvailable(buckets)
    case None => NoBucket
    case Some(b) =>
      if filePath !in files then NoFile
      else if b.storage < SizeInMB(files[filePath]) then NoSpace
      else if classify(filePath).Err? then LabelsFailed
      else if uploadRemote(b.name, filePath, Basename(filePath)).Fail? then UploadFailed
      else Done
  }

  /** The label rows stored for `results`, one per result in result order,
      taking ids from `firstId` on. */
  function LabelRows(results: seq<LabelResult>, imageId: nat, firstId: nat): (rows: seq<LabelRow>)
    ensures |rows| == |results|
  {
    seq(|results|, i requires 0 <= i < |results| =>
      LabelRow(firstId + i, results[i].name, results[i].rawScore, imageId))
  }

  /** The classifier's results, when it answers. */
  function ClassifiedResults(classify: string -> Result<Option<seq<Annotation>>>, filePath: string,
                             minConfidence: real): seq<LabelResult>
  {
    match classify(filePath)
    case Ok(annotations) => Results(annotations, minConfidence)
    case Err(_) => []
  }

  /** `processAndSaveImage(filePath)`.  The stored image row names the
      chosen bucket; its URL is empty until the upload succeeds.  The debited
      bucket is written back only after the upload, so an early failure
      leaves every bucket as it was.  File sizes come from `files`. */
  method ProcessAndSaveImage(db: Database, disk: Disk, filePath: string, config: Config,
                             classify: string -> Result<Option<seq<Annotation>>>,
                             uploadRemote: (string, string, string) -> Outcome)
    returns (r: Result<Processed>)
    requires db.Valid()
    modifies db, disk
    ensures db.Valid()
    ensures var stage := StageOf(old(db.buckets), old(disk.files), filePath, classify, uploadRemote);
      (stage == Done <==> r.Ok?)
      && (stage == NoBucket ==> r == Err(NoBucketMessage))
      && (stage == NoFile ==> r == Err(MissingFileMessage("stat", filePath)))
      && (stage == NoSpace ==> r == Err(NoSpaceMessage))
      && (stage in {NoBucket, NoFile, NoSpace} ==> unchanged(db) && unchanged(disk))
    ensures var stage := StageOf(old(db.buckets), old(disk.files), filePath, classify, uploadRemote);
      stage !in {NoBucket, NoFile, NoSpace} ==>
        var k := BucketService.MostAvailableIndex(old(db.buckets));
        var bucket := old(db.buckets)[k];
        var size := old(disk.files)[filePath];
        var row := ImageRow(old(db.nextImageId), Basename(filePath), size, "", bucket.id);
        var results := ClassifiedResults(classify, filePath, config.minConfidence);
        db.nextImageId == old(db.nextImageId) + 1
        && db.nextBucketId == old(db.nextBucketId)
        && (stage == LabelsFailed ==>
              r == Err(ErrorPrefix + classify(filePath).message)
              && db.images == old(db.images) + [row] && db.buckets == old(db.buckets)
              && db.labels == old(db.labels) && db.nextLabelId == old(db.nextLabelId)
              && disk.files == if config.keepTempFiles then old(disk.files) else old(disk.files) - {filePath})
        && (stage in {UploadFailed, Done} ==>
              db.labels == old(db.labels) + LabelRows(results, row.id, old(db.nextLabelId))
              && db.nextLabelId == old(db.nextLabelId) + |results|)
        && (stage == UploadFailed ==>
              r == Err(StorageService.UploadErrorPrefix
                       + uploadRemote(bucket.name, filePath, Basename(filePath)).message)
              && db.images == old(db.images) + [row] && db.buckets == old(db.buckets)
              && disk.files == old(disk.files))
        && (stage == Done ==>
              var url := StorageService.PublicUrl(bucket.name, Basename(filePath));
              r.value == Processed(row.(url := url), results, StorageService.Uploaded(Basename(filePath), url))
              && db.images == old(db.images) + [row.(url := url)]
              && db.buckets == old(db.buckets)[k := bucket.(storage := bucket.storage - SizeInMB(size))]
              && db.buckets[k].storage >= 0.0
              && disk.files == old(disk.files) - {filePath})
  {
    var chosen := BucketService.MostAvailable(db.buckets);
    if chosen.None? {
      return Err(NoBucketMessage);
    }
    var bucket := chosen.value;
    if filePath !in disk.files {
      return Err(MissingFileMessage("stat", filePath));
    }
    var size := disk.files[filePath];
    if bucket.storage < SizeInMB(size) {
      return Err(NoSpaceMessage);
    }
    r := ProcessAccepted(db, disk, filePath, config, classify, uploadRemote,
                         BucketService.MostAvailableIndex(db.buckets), size);
  }

  /** The part of `processAndSaveImage` after the capacity check: the
      bucket at index k has been chosen and has room for `size` bytes. */
  method ProcessAccepted(db: Database, disk: Disk, filePath: string, config: Config,
                         classify: string -> Result<Option<seq<Annotation>>>,
                         uploadRemote: (string, string, string) -> Outcome,
                         k: nat, size: nat)
    returns (r: Result<Processed>)
    requires db.Valid()
    requires |db.buckets| > 0 && k == BucketService.MostAvailableIndex(db.buckets)
    requires filePath in disk.files && disk.files[filePath] == size
    requires db.buckets[k].storage >= SizeInMB(size)
    modifies db, disk
    ensures db.Valid()
    ensures var bucket := old(db.buckets)[k];
      var row := ImageRow(old(db.nextImageId), Basename(filePath), size, "", bucket.id);
      var results := ClassifiedResults(classify, filePath, config.minConfidence);
      var sent := uploadRemote(bucket.name, filePath, Basename(filePath));
      db.nextImageId == old(db.nextImageId) + 1
      && db.nextBucketId == old(db.nextBucketId)
      && (classify(filePath).Err? ==>
            r == Err(ErrorPrefix + classify(filePath).message)
            && db.images == old(db.images) + [row]
            && db.labels == old(db.labels) && db.nextLabelId == old(db.nextLabelId)
            && db.buckets == old(db.buckets)
            && disk.files == if config.keepTempFiles then old(disk.files) else old(disk.files) - {filePath})
      && (classify(filePath).Ok? ==>
            db.labels == old(db.labels) + LabelRows(results, row.id, old(db.nextLabelId))
            && db.nextLabelId == old(db.nextLabelId) + |results|)
      && (classify(filePath).Ok? && sent.Fail? ==>
            r == Err(StorageService.UploadErrorPrefix + sent.message)
            && db.images == old(db.images) + [row] && db.buckets == old(db.buckets)
            && disk.files == old(disk.files))
      && (classify(filePath).Ok? && sent.Pass? ==>
            var url := StorageService.PublicUrl(bucket.name, Basename(filePath));
            r == Ok(Processed(row.(url := url), results, StorageService.Uploaded(Basename(filePath), url)))
            && db.images == old(db.images) + [row.(url := url)]
            && db.buckets == old(db.buckets)[k := bucket.(storage := bucket.storage - SizeInMB(size))]
            && disk.files == old(disk.files) - {filePath})
  {
    var image := db.InsertImage(Basename(filePath), size, "", db.buckets[k].id);
    var vision := DetectLabels(disk, filePath, config, classify);
    if vision.Err? {
      return Err(vision.message);
    }
    r := SaveAndUpload(db, disk, filePath, uploadRemote, k, image, vision.value);
  }

  /** The steps of `processAndSaveImage` after a successful classification:
      store the label rows, then upload and record. */
  method SaveAndUpload(db: Database, disk: Disk, filePath: string,
                       uploadRemote: (string, string, string) -> Outcome,
                       k: nat, image: ImageRow, results: seq<LabelResult>)
    returns (r: Result<Processed>)
    requires db.Valid()
    requires |db.buckets| > 0 && k == BucketService.MostAvailableIndex(db.buckets)
    requires |db.images| > 0 && db.images[|db.images| - 1] == image
    requires filePath in disk.files
    requires db.buckets[k].storage >= SizeInMB(image.size)
    modifies db, disk
    ensures db.Valid()
    ensures db.labels == old(db.labels) + LabelRows(results, image.id, old(db.nextLabelId))
    ensures db.nextLabelId == old(db.nextLabelId) + |results|
    ensures db.nextImageId == old(db.nextImageId) && db.nextBucketId == old(db.nextBucketId)
    ensures var bucket := old(db.buckets)[k];
      var sent := uploadRemote(bucket.name, filePath, Basename(filePath));
      (sent.Fail? ==>
         r == Err(StorageService.UploadErrorPrefix + sent.message)
         && db.images == old(db.images) && db.buckets == old(db.buckets)
         && disk.files == old(disk.files))
      && (sent.Pass? ==>
         var url := StorageService.PublicUrl(bucket.name, Basename(filePath));
         r == Ok(Processed(image.(url := url), results, StorageService.Uploaded(Basename(filePath), url)))
         && db.images == old(db.images)[|old(db.images)| - 1 := image.(url := url)]
         && db.buckets == old(db.buckets)[k := bucket.(storage := bucket.storage - SizeInMB(image.size))]
         && disk.files == old(disk.files) - {filePath})
  {
    SaveLabels(db, results, image.id);
    var stored := UploadAndRecord(db, disk, filePath, uploadRemote, k, image);
    if stored.Err? {
      return Err(stored.message);
    }
    r := Ok(Processed(stored.value.0, results, stored.value.1));
  }

  /** The last steps of `processAndSaveImage`: upload the file, record the
      public URL in the image row just stored, and write back the bucket
      debited by the image's size. */
  method UploadAndRecord(db: Database, disk: Disk, filePath: string,
                         uploadRemote: (string, string, string) -> Outcome,
                         k: nat, image: ImageRow)
    returns (r: Result<(ImageRow, StorageService.Uploaded)>)
    requires db.Valid()
    requires |db.buckets| > 0 && k == BucketService.MostAvailableIndex(db.buckets)
    requires |db.images| > 0 && db.images[|db.images| - 1] == image
    requires filePath in disk.files
    requires db.buckets[k].storage >= SizeInMB(image.size)
    modifies db, disk
    ensures db.Valid()
    ensures db.labels == old(db.labels) && db.nextLabelId == old(db.nextLabelId)
    ensures db.nextImageId == old(db.nextImageId) && db.nextBucketId == old(db.nextBucketId)
    ensures var bucket := old(db.buckets)[k];
      var sent := uploadRemote(bucket.name, filePath, Basename(filePath));
      (sent.Fail? ==>
         r == Err(StorageService.UploadErrorPrefix + sent.message)
         && db.images == old(db.images) && db.buckets == old(db.buckets)
         && disk.files == old(disk.files))
      && (sent.Pass? ==>
         var url := StorageService.PublicUrl(bucket.name, Basename(filePath));
         r == Ok((image.(url := url), StorageService.Uploaded(Basename(filePath), url)))
         && db.images == old(db.images)[|old(db.images)| - 1 := image.(url := url)]
         && db.buckets == old(db.buckets)[k := bucket.(storage := bucket.storage - SizeInMB(image.size))]
         && disk.files == old(disk.files) - {filePath})
  {
    var bucket := db.buckets[k];
    BucketService.MostAvailableAt(db.buckets);
    var upload := StorageService.UploadImage(db.buckets, disk, filePath, None, uploadRemote);
    if upload.Err? {
      return Err(upload.message);
    }
    var saved := image.(url := upload.value.publicUrl);
    ReplaceImageAt(db.images, |db.images| - 1, saved, db.nextImageId);
    db.SaveImage(saved);
    var debited := bucket.(storage := bucket.storage - SizeInMB(image.size));
    ReplaceBucketAt(db.buckets, k, debited, db.nextBucketId);
    db.SaveBucket(debited);
    r := Ok((saved, upload.value));
  }

  /** The loop of `processAndSaveImage` that saves one label row per
      classifier result, in result order, with the raw score as confidence. */
  method SaveLabels(db: Database, results: seq<LabelResult>, imageId: nat)
    requires db.Valid()
    modifies db
    ensures db.Valid()
    ensures db.labels == old(db.labels) + LabelRows(results, imageId, old(db.nextLabelId))
    ensures db.nextLabelId == old(db.nextLabelId) + |results|
    ensures db.buckets == old(db.buckets) && db.images == old(db.images)
    ensures db.nextImageId == old(db.nextImageId) && db.nextBucketId == old(db.nextBucketId)
  {
    var i := 0;
    while i < |results|
      invariant 0 <= i <= |results|
      invariant db.Valid()
      invariant db.labels == old(db.labels) + LabelRows(results[..i], imageId, old(db.nextLabelId))
      invariant db.nextLabelId == old(db.nextLabelId) + i
      invariant db.buckets == old(db.buckets) && db.images == old(db.images)
      invariant db.nextImageId == old(db.nextImageId) && db.nextBucketId == old(db.nextBucketId)
    {
      var _ := db.InsertLabel(results[i].name, results[i].rawScore, imageId);
      assert LabelRows(results[..i + 1], imageId, old(db.nextLabelId))
          == LabelRows(results[..i], imageId, old(db.nextLabelId))
             + [LabelRow(old(db.nextLabelId) + i, results[i].name, results[i].rawScore, imageId)];
      i := i + 1;
    }
    assert results[..i] == results;
  }

  // ---- listing ----

  /** A page of the listing and the count of all rows. */
  datatype Page = Page(images: seq<ImageRow>, total: nat)

  const DefaultPage := 1
  const DefaultLimit := 50

  /** The database refuses a negative LIMIT or OFFSET. */
  const SqlSyntaxError := "ER_PARSE_ERROR: You have an error in your SQL syntax"

  /** `ORDER BY id DESC` over a table kept in id order. */
  function NewestFirst(rows: seq<ImageRow>): (r: seq<ImageRow>)
    ensures |r| == |rows|
    ensures forall i :: 0 <= i < |rows| ==> r[i] == rows[|rows| - 1 - i]
  {
    if |rows| == 0 then [] else [rows[|rows| - 1]] + NewestFirst(rows[..|rows| - 1])
  }

  /** `(page - 1) * limit`. */
  function Skip(page: int, limit: int): (skip: int)
    ensures limit == 0 ==> skip == 0
    ensures limit > 0 ==> (skip < 0 <==> page < 1)
  {
    MulSign(page - 1, limit);
    (page - 1) * limit
  }

  lemma MulSign(a: int, b: int)
    ensures b == 0 ==> a * b == 0
    ensures b > 0 ==> (a * b < 0 <==> a < 0)
  {
    if b > 0 && a < 0 {
      assert a * b <= -b by {
        assert a <= -1;
      }
    }
  }

  function Min(a: int, b: int): int { if a <= b then a else b }

  /** `listImages(page, limit)`: `findAndCount({skip, take: limit, order: {id:
      'DESC'}})`.  A take of 0 is no limit at all, and then the skip is 0
      too. */
  function ListImages(rows: seq<ImageRow>, page: int, limit: int): (r: Result<Page>)
    ensures r.Err? <==> limit < 0 || (limit > 0 && page < 1)
    ensures r.Err? ==> r.message == SqlSyntaxError
    ensures r.Ok? ==> r.value.total == |rows|
    ensures r.Ok? && limit == 0 ==> r.value.images == NewestFirst(rows)
  {
    var skip := Skip(page, limit);
    if limit < 0 || skip < 0 then Err(SqlSyntaxError)
    else if limit == 0 then Ok(Page(NewestFirst(rows), |rows|))
    else
      var ordered := NewestFirst(rows);
      var from := Min(skip, |rows|);
      Ok(Page(ordered[from..Min(skip + limit, |rows|)], |rows|))
  }

  // ---- lemmas ----

  /** The listing is ordered by id, highest first. */
  lemma {:induction false} NewestFirstDescending(rows: seq<ImageRow>, next: nat)
    requires ImageIdsBelow(rows, next)
    ensures var r := NewestFirst(rows);
      forall i, j :: 0 <= i < j < |r| ==> r[i].id > r[j].id
  {
    var r := NewestFirst(rows);
    forall i, j | 0 <= i < j < |r|
      ensures r[i].id > r[j].id
    {
      assert r[i] == rows[|rows| - 1 - i] && r[j] == rows[|rows| - 1 - j];
    }
  }

  /** A page with a positive limit holds the rows at positions
      [skip, skip + limit) of the id-descending order, as many as exist. */
  lemma {:induction false} PageWindow(rows: seq<ImageRow>, page: int, limit: int)
    requires limit > 0 && page >= 1
    ensures var r := ListImages(rows, page, limit);
      var skip := Skip(page, limit);
      r.Ok?
      && |r.value.images| == (if skip >= |rows| then 0 else Min(limit, |rows| - skip))
      && forall i :: 0 <= i < |r.value.images| ==> r.value.images[i] == NewestFirst(rows)[skip + i]
  {
    var skip := Skip(page, limit);
    var r := ListImages(rows, page, limit);
    var ordered := NewestFirst(rows);
    if skip < |rows| {
      assert r.value.images == ordered[skip..Min(skip + limit, |rows|)];
    }
  }

  /** Consecutive pages cover the listing once each: the row at position j
      of the id-descending order is entry j % limit of page j / limit + 1. */
  lemma {:induction false} EveryRowOnOnePage(rows: seq<ImageRow>, limit: int, j: nat)
    requires limit > 0 && j < |rows|
    ensures var r := ListImages(rows, j / limit + 1, limit);
      r.Ok? && j % limit < |r.value.images| && r.value.images[j % limit] == NewestFirst(rows)[j]
  {
    var page := j / limit + 1;
    assert Skip(page, limit) + j % limit == j;
    PageWindow(rows, page, limit);
  }

  /** With the defaults the listing is the 50 newest rows. */
  lemma {:induction false} DefaultListing(rows: seq<ImageRow>)
    ensures var r := ListImages(rows, DefaultPage, DefaultLimit);
      r.Ok? && r.value.images == NewestFirst(rows)[..Min(50, |rows|)] && r.value.total == |rows|
  {
  }

  /** Every stored label row belongs to the new image and either passed the
      confidence filter or is the placeholder, stored with confidence 0. */
  lemma {:induction false} StoredLabelsPassFilter(annotations: Option<seq<Annotation>>, minConfidence: real,
                                                  imageId: nat, firstId: nat)
    ensures var rows := LabelRows(Results(annotations, minConfidence), imageId, firstId);
      forall i :: 0 <= i < |rows| ==>
        rows[i].imageId == imageId && rows[i].id == firstId + i
        && ((rows[i].confidence != 0.0 && rows[i].confidence >= minConfidence)
            || (rows == [LabelRow(firstId, PlaceholderName, 0.0, imageId)]))
  {
  }
}
