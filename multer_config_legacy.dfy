/** The compiled upload configuration kept under the build directory: the
    file keeps its original name behind a time stamp, the allowed formats
    are JPEG and PNG only, the MIME type is matched case-sensitively, and
    there is no size limit. */
module LegacyMulterConfig {
  import opened Common
  import opened Text
  import opened Regex
  import JsNumber
  import Multer

  /** The alternatives of `/jpeg|jpg|png/` (no `i` flag). */
  const AllowedTypes: seq<string> := ["jpeg", "jpg", "png"]

  function AllowedPattern(): Re {
    AnyWord(AllowedTypes)
  }

  const RejectMessage := "Solo se permiten imágenes en formato JPEG, JPG o PNG."

  /** The file filter: the extension is lower-cased before the search, the
      MIME type is searched as it is. */
  function FileFilter(originalName: string, mimetype: string): (r: Verdict)
    ensures r.Reject? ==> r.message == RejectMessage
  {
    if ContainsAny(Lower(Extname(originalName)), AllowedTypes)
       && ContainsAny(mimetype, AllowedTypes)
    then Accept
    else Reject(RejectMessage)
  }

  /** `${Date.now()}-${file.originalname}`, the clock as a parameter. */
  function StoredFileName(now: nat, originalName: string): string {
    JsNumber.Decimal(now) + "-" + originalName
  }

  /** What the upload middleware does with one file: no size limit. */
  function Admit(originalName: string, mimetype: string, size: nat): (r: Verdict) {
    Multer.Admit(FileFilter(originalName, mimetype), None, size)
  }

  // ---- lemmas ----

  lemma FileFilterMeaning(originalName: string, mimetype: string)
    ensures FileFilter(originalName, mimetype) == Accept <==>
      MatchesSomewhere(AllowedPattern(), Lower(Extname(originalName)))
      && MatchesSomewhere(AllowedPattern(), mimetype)
  {
    SearchAnyWord(AllowedTypes, Lower(Extname(originalName)));
    SearchAnyWord(AllowedTypes, mimetype);
  }

  /** Only the filter decides; any size passes. */
  lemma AdmitMeaning(originalName: string, mimetype: string, size: nat)
    ensures Admit(originalName, mimetype, size) == FileFilter(originalName, mimetype)
  {
  }

  /** The original name and the time stamp can both be read back from the
      stored name: the time stamp is all digits, so the first '-' ends it. */
  lemma StoredFileNameRoundTrip(now: nat, originalName: string)
    ensures AfterFirst(StoredFileName(now, originalName), '-') == originalName
    ensures BeforeFirst(StoredFileName(now, originalName), '-') == JsNumber.Decimal(now)
  {
    var d := JsNumber.Decimal(now);
    assert StoredFileName(now, originalName) == d + ['-'] + originalName;
    AfterFirstOfJoin(d, '-', originalName);
  }

  /** The MIME type is matched case-sensitively: an upper-case type is
      refused even though the extension is allowed. */
  lemma RejectsUpperCaseType()
    ensures FileFilter("photo.png", "IMAGE/PNG").Reject?
  {
    var m := "IMAGE/PNG";
    forall w, i | w in AllowedTypes && 0 <= i <= |m| - |w|
      ensures !OccursAt(m, w, i)
    {
      assert w[0] != m[i];
    }
  }
}
