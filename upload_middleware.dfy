/** The stand-alone upload middleware: any `image/` MIME type passes, the
    file keeps its original name behind a time stamp and `_`, and files
    larger than 5 MiB are refused. */
module UploadMiddleware {
  import opened Common
  import opened Text
  import JsNumber
  import Multer

  const RejectMessage := "El archivo debe ser una imagen."

  /** `limits.fileSize`: 5 MiB. */
  const MaxFileSize: nat := 5 * 1024 * 1024

  function FileFilter(mimetype: string): (r: Verdict)
    ensures r == Accept <==> StartsWith(mimetype, "image/")
    ensures r.Reject? ==> r.message == RejectMessage
  {
    if StartsWith(mimetype, "image/") then Accept else Reject(RejectMessage)
  }

  /** `${Date.now()}_${file.originalname}`, the clock as a parameter. */
  function StoredFileName(now: nat, originalName: string): string {
    JsNumber.Decimal(now) + "_" + originalName
  }

  function Admit(mimetype: string, size: nat): (r: Verdict) {
    Multer.Admit(FileFilter(mimetype), Some(MaxFileSize), size)
  }

  // ---- lemmas ----

  lemma AdmitMeaning(mimetype: string, size: nat)
    ensures Admit(mimetype, size) == Accept <==>
      StartsWith(mimetype, "image/") && size <= MaxFileSize
  {
  }

  /** The stored name ends with the original name and starts with the time
      stamp, which the first '_' ends. */
  lemma StoredFileNameRoundTrip(now: nat, originalName: string)
    ensures EndsWith(StoredFileName(now, originalName), originalName)
    ensures AfterFirst(StoredFileName(now, originalName), '_') == originalName
    ensures BeforeFirst(StoredFileName(now, originalName), '_') == JsNumber.Decimal(now)
  {
    var d := JsNumber.Decimal(now);
    var s := StoredFileName(now, originalName);
    assert s == d + ['_'] + originalName;
    AfterFirstOfJoin(d, '_', originalName);
    assert s[|s| - |originalName|..] == originalName;
  }
}
