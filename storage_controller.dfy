/** src/controllers/storage_controller.ts: upload an image straight to
    object storage, and delete an object by name.  The upload accepts four
    MIME types; the delete accepts names made of word characters, '-' and
    '.', and tells a missing object (404) from other failures (500). */
module StorageController {
  import opened Common
  import opened Text
  import opened Regex
  import opened Http
  import opened Store
  import opened LocalDisk
  import StorageService
  import BucketService

  const ValidMimeTypes: seq<string> := ["image/jpeg", "image/png", "image/gif", "image/webp"]

  const NoFileMessage := "No se proporcionó ningún archivo de imagen"
  const BadTypeMessage := "Tipo de archivo no válido. Solo se permiten imágenes JPEG, PNG, GIF o WEBP"
  const UploadedMessage := "Imagen subida exitosamente"
  const UploadFailedMessage := "Error interno al procesar la imagen"
  const NoNameMessage := "Nombre de archivo no proporcionado"
  const BadNameMessage := "Nombre de archivo no válido"
  const DeletedMessage := "Imagen eliminada correctamente"
  const NotFoundMessage := "La imagen solicitada no existe"
  const DeleteFailedMessage := "Error interno al eliminar la imagen"

  /** The text the delete handler looks for in the error message. */
  const NoSuchObject := "No such object"

  /** `{ success: false, error: message }`. */
  function Failure(status: int, message: string): Write {
    Write(status, JObj([("success", JBool(false)), ("error", JStr(message))]))
  }

  /** `{ success: false, error: message, details }`. */
  function FailureWithDetails(status: int, message: string, details: string): Write {
    Write(status, JObj([("success", JBool(false)), ("error", JStr(message)), ("details", JStr(details))]))
  }

  // ---- uploadImage ----

  /** The reply to the outcome of the upload. */
  function UploadReply(r: Result<StorageService.Uploaded>): (w: Write)
    ensures w.status == 201 <==> r.Ok?
    ensures r.Err? ==> w == FailureWithDetails(500, UploadFailedMessage, r.message)
  {
    match r
    case Ok(u) =>
      Write(201, JObj([("success", JBool(true)), ("message", JStr(UploadedMessage)),
                       ("data", JObj([("fileName", JStr(u.name)), ("publicUrl", JStr(u.publicUrl))]))]))
    case Err(m) => FailureWithDetails(500, UploadFailedMessage, m)
  }

  /** `uploadImage`: a missing file or a MIME type outside the four allowed
      ones is answered with 400 before anything is uploaded; otherwise the
      temporary file goes to the bucket with the most free space under its
      own base name, and `result` is what the upload returned. */
  method UploadImage(db: Database, disk: Disk, res: Response, file: Option<UploadedFile>,
                     uploadRemote: (string, string, string) -> Outcome)
    returns (result: Result<StorageService.Uploaded>)
    modifies disk, res
    ensures file.None? ==>
      result == Err(NoFileMessage) && res.writes == old(res.writes) + [Failure(400, NoFileMessage)]
      && disk.files == old(disk.files)
    ensures file.Some? && file.value.mimetype !in ValidMimeTypes ==>
      result == Err(BadTypeMessage) && res.writes == old(res.writes) + [Failure(400, BadTypeMessage)]
      && disk.files == old(disk.files)
    ensures file.Some? && file.value.mimetype in ValidMimeTypes ==>
      var path := file.value.path;
      var dest := Basename(path);
      res.writes == old(res.writes) + [UploadReply(result)]
      && (result.Ok? <==>
            |db.buckets| > 0
            && uploadRemote(BucketService.MostAvailable(db.buckets).value.name, path, dest).Pass?
            && path in old(disk.files))
      && (result.Ok? ==>
            result.value == StorageService.Uploaded(dest, StorageService.PublicUrl(
                              BucketService.MostAvailable(db.buckets).value.name, dest))
            && disk.files == old(disk.files) - {path})
      && (result.Err? ==> disk.files == old(disk.files))
  {
    if file.None? {
      res.Send(400, JObj([("success", JBool(false)), ("error", JStr(NoFileMessage))]));
      return Err(NoFileMessage);
    }
    if file.value.mimetype !in ValidMimeTypes {
      res.Send(400, JObj([("success", JBool(false)), ("error", JStr(BadTypeMessage))]));
      return Err(BadTypeMessage);
    }
    result := StorageService.UploadImage(db.buckets, disk, file.value.path, None, uploadRemote);
    var reply := UploadReply(result);
    res.Send(reply.status, reply.body);
  }

  // ---- deleteImage ----

  /** A character of `[\w\-\.]`. */
  predicate IsNameChar(c: char) {
    ('a' <= c <= 'z') || ('A' <= c <= 'Z') || ('0' <= c <= '9') || c == '_' || c == '-' || c == '.'
  }

  predicate IsValidFileName(s: string) {
    |s| > 0 && forall i :: 0 <= i < |s| ==> IsNameChar(s[i])
  }

  /** `/^[\w\-\.]+$/`. */
  function FileNamePattern(): Re {
    Plus(Class(Union(WordChars, Union(Single('-'), Single('.')))))
  }

  /** The reply of `deleteImage` for a file name from the route. */
  function DeleteReply(buckets: seq<Bucket>, fileName: string,
                       deleteRemote: (string, string) -> Outcome): (w: Write)
    ensures w.status in {200, 400, 404, 500}
    ensures w.status == 400 <==> !IsValidFileName(fileName)
    ensures fileName == [] ==> w == Failure(400, NoNameMessage)
    ensures IsValidFileName(fileName) ==>
      var d := StorageService.DeleteImage(buckets, fileName, deleteRemote);
      (w.status == 200 <==> d.Pass?)
      && (d.Fail? && Contains(d.message, NoSuchObject) ==> w == Failure(404, NotFoundMessage))
      && (d.Fail? && !Contains(d.message, NoSuchObject) ==>
            w == FailureWithDetails(500, DeleteFailedMessage, d.message))
  {
    if fileName == [] then Failure(400, NoNameMessage)
    else if !IsValidFileName(fileName) then Failure(400, BadNameMessage)
    else
      match StorageService.DeleteImage(buckets, fileName, deleteRemote)
      case Pass =>
        Write(200, JObj([("success", JBool(true)), ("message", JStr(DeletedMessage)),
                         ("data", JObj([("fileName", JStr(fileName))]))]))
      case Fail(m) =>
        if Contains(m, NoSuchObject) then Failure(404, NotFoundMessage)
        else FailureWithDetails(500, DeleteFailedMessage, m)
  }

  method DeleteImage(db: Database, res: Response, fileName: string,
                     deleteRemote: (string, string) -> Outcome)
    modifies res
    ensures res.writes == old(res.writes) + [DeleteReply(db.buckets, fileName, deleteRemote)]
  {
    var reply := DeleteReply(db.buckets, fileName, deleteRemote);
    res.Send(reply.status, reply.body);
  }

  // ---- lemmas ----

  /** The name check is the regular expression `^[\w\-\.]+$`. */
  lemma FileNamePatternMeaning(s: string)
    ensures Matches(FileNamePattern(), s) <==> IsValidFileName(s)
  {
    var cs := Union(WordChars, Union(Single('-'), Single('.')));
    ClassPlusMatches(cs, s);
    forall i | 0 <= i < |s|
      ensures InSet(s[i], cs) <==> IsNameChar(s[i])
    {
      assert InSet(s[i], Union(Single('-'), Single('.'))) <==> s[i] == '-' || s[i] == '.';
    }
  }

  /** A valid name holds no '/', so it names an object at the top of the
      bucket. */
  lemma ValidNameHasNoSlash(s: string)
    requires IsValidFileName(s)
    ensures Free(s, '/')
  {
  }

  /** With buckets in the ledger and a valid name, the delete answers 200
      exactly when the most-available bucket holds the object, and 404 when
      it does not. */
  lemma DeleteReplyAgainstStore(buckets: seq<Bucket>, objects: set<(string, string)>, fileName: string)
    requires |buckets| > 0 && IsValidFileName(fileName)
    ensures var chosen := BucketService.MostAvailable(buckets).value.name;
      var w := DeleteReply(buckets, fileName, StorageService.ObjectStoreDelete(objects));
      (w.status == 200 <==> (chosen, fileName) in objects)
      && (w.status != 200 ==> w == Failure(404, NotFoundMessage))
  {
    StorageService.DeleteTargetsMostAvailable(buckets, objects, fileName);
  }

  /** With no bucket in the ledger a valid delete fails with 500 and the
      no-bucket message as details: that message does not mention a
      missing object. */
  lemma DeleteWithoutBuckets(fileName: string, deleteRemote: (string, string) -> Outcome)
    requires IsValidFileName(fileName)
    ensures DeleteReply([], fileName, deleteRemote) ==
      FailureWithDetails(500, DeleteFailedMessage, StorageService.DeleteErrorPrefix + StorageService.NoBucketMessage)
  {
    var m := StorageService.DeleteErrorPrefix + StorageService.NoBucketMessage;
    assert NoSuchObject[10] == 'j';
    assert Free(m, 'j');
    MissingCharNotContained(m, NoSuchObject, 10);
  }
}
