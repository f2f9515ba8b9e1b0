/** src/services/storage_service.ts: upload a temporary file to, and delete
    an object from, the bucket that currently has the most free space.  The
    object-storage service is a parameter: `uploadRemote(bucket, path, dest)`
    and `deleteRemote(bucket, fileName)` say how it answers.  Both operations
    read the ledger by value, so neither changes a bucket's free space. */
module StorageService {
  import opened Common
  import opened Text
  import opened Store
  import opened LocalDisk
  import BucketService

  const UploadErrorPrefix := "Error al subir imagen: "
  const DeleteErrorPrefix := "Error al eliminar imagen: "
  const NoBucketMessage := "No se encontró un bucket disponible."
  const PublicUrlPrefix := "https://storage.googleapis.com/"

  /** What a successful upload returns: the object's name and public URL. */
  datatype Uploaded = Uploaded(name: string, publicUrl: string)

  /** `destinationName || path.basename(filePath)`. */
  function DestinationName(filePath: string, destinationName: Option<string>): (r: string)
    ensures destinationName.Some? && destinationName.value != [] ==> r == destinationName.value
    ensures destinationName.None? || destinationName.value == [] ==> r == Basename(filePath)
  {
    match destinationName
    case Some(d) => if |d| > 0 then d else Basename(filePath)
    case None => Basename(filePath)
  }

  function PublicUrl(bucketName: string, destName: string): string {
    PublicUrlPrefix + bucketName + "/" + destName
  }

  /** Reads a public URL back into its bucket name and object name. */
  function SplitPublicUrl(url: string): Option<(string, string)> {
    if StartsWith(url, PublicUrlPrefix) then
      var rest := url[|PublicUrlPrefix|..];
      Some((BeforeFirst(rest, '/'), AfterFirst(rest, '/')))
    else None
  }

  /** Bucket names contain no '/', so the public URL determines both the
      bucket and the object name. */
  lemma {:induction false} PublicUrlRoundTrip(bucketName: string, destName: string)
    requires forall i :: 0 <= i < |bucketName| ==> bucketName[i] != '/'
    ensures SplitPublicUrl(PublicUrl(bucketName, destName)) == Some((bucketName, destName))
  {
    var url := PublicUrl(bucketName, destName);
    assert url[..|PublicUrlPrefix|] == PublicUrlPrefix;
    assert url[|PublicUrlPrefix|..] == bucketName + ['/'] + destName;
    AfterFirstOfJoin(bucketName, '/', destName);
  }

  /** `uploadImage(filePath, destinationName)`: choose the bucket with the
      most free space, upload under the destination name, then remove the
      local file.  Every failure is rethrown with the upload prefix. */
  method UploadImage(buckets: seq<Bucket>, disk: Disk, filePath: string, destinationName: Option<string>,
                     uploadRemote: (string, string, string) -> Outcome)
    returns (r: Result<Uploaded>)
    modifies disk
    ensures BucketService.MostAvailable(buckets).None? ==>
      r == Err(UploadErrorPrefix + NoBucketMessage) && disk.files == old(disk.files)
    ensures BucketService.MostAvailable(buckets).Some? ==>
      var sent := uploadRemote(BucketService.MostAvailable(buckets).value.name, filePath,
                               DestinationName(filePath, destinationName));
      sent.Fail? ==> r == Err(UploadErrorPrefix + sent.message) && disk.files == old(disk.files)
    ensures BucketService.MostAvailable(buckets).Some? ==>
      var bucketName := BucketService.MostAvailable(buckets).value.name;
      var dest := DestinationName(filePath, destinationName);
      uploadRemote(bucketName, filePath, dest).Pass? && filePath !in old(disk.files) ==>
        r == Err(UploadErrorPrefix + MissingFileMessage("unlink", filePath))
        && disk.files == old(disk.files)
    ensures BucketService.MostAvailable(buckets).Some? ==>
      var bucketName := BucketService.MostAvailable(buckets).value.name;
      var dest := DestinationName(filePath, destinationName);
      uploadRemote(bucketName, filePath, dest).Pass? && filePath in old(disk.files) ==>
        r == Ok(Uploaded(dest, PublicUrl(bucketName, dest)))
        && disk.files == old(disk.files) - {filePath}
  {
    var bucket := BucketService.MostAvailable(buckets);
    if bucket.None? {
      return Err(UploadErrorPrefix + NoBucketMessage);
    }
    var bucketName := bucket.value.name;
    var dest := DestinationName(filePath, destinationName);
    var sent := uploadRemote(bucketName, filePath, dest);
    if sent.Fail? {
      return Err(UploadErrorPrefix + sent.message);
    }
    var removed := disk.Unlink(filePath);
    if !removed {
      return Err(UploadErrorPrefix + MissingFileMessage("unlink", filePath));
    }
    r := Ok(Uploaded(dest, PublicUrl(bucketName, dest)));
  }

  /** `deleteImage(fileName)`: delete the object from the bucket that now
      has the most free space.  Every failure is rethrown with the delete
      prefix. */
  function DeleteImage(buckets: seq<Bucket>, fileName: string, deleteRemote: (string, string) -> Outcome)
    : (r: Outcome)
    ensures |buckets| == 0 ==> r == Fail(DeleteErrorPrefix + NoBucketMessage)
    ensures r.Fail? ==> StartsWith(r.message, DeleteErrorPrefix)
  {
    match BucketService.MostAvailable(buckets)
    case None => Fail(DeleteErrorPrefix + NoBucketMessage)
    case Some(b) =>
      match deleteRemote(b.name, fileName)
      case Pass => Pass
      case Fail(m) => Fail(DeleteErrorPrefix + m)
  }

  /** How the object-storage service answers a delete, given the objects it
      holds as (bucket, name) pairs. */
  function ObjectStoreDelete(objects: set<(string, string)>): (string, string) -> Outcome {
    (bucket: string, name: string) =>
      if (bucket, name) in objects then Pass else Fail("No such object: " + bucket + "/" + name)
  }

  /** The delete goes to the most-available bucket, whichever bucket holds
      the file: it succeeds exactly when that bucket holds it, and when only
      another bucket does it fails with the service's "No such object". */
  lemma {:induction false} DeleteTargetsMostAvailable(buckets: seq<Bucket>, objects: set<(string, string)>,
                                                      fileName: string)
    requires |buckets| > 0
    ensures var chosen := BucketService.MostAvailable(buckets).value.name;
      var r := DeleteImage(buckets, fileName, ObjectStoreDelete(objects));
      (r.Pass? <==> (chosen, fileName) in objects)
      && (r.Fail? ==> Contains(r.message, "No such object"))
  {
    var chosen := BucketService.MostAvailable(buckets).value.name;
    var r := DeleteImage(buckets, fileName, ObjectStoreDelete(objects));
    if r.Fail? {
      var m := "No such object: " + chosen + "/" + fileName;
      assert r.message == DeleteErrorPrefix + m;
      assert OccursAt(m, "No such object", 0);
      ContainsAfterPrefix(DeleteErrorPrefix, m, "No such object");
    }
  }
}
