/** The upload configuration used by the image routes: files are kept on
    disk under a name made of the time, a random number and the original
    extension; only images whose extension and MIME type mention one of the
    allowed formats pass; files larger than 10 MiB are refused. */
module MulterConfig {
  import opened Common
  import opened Text
  import opened Regex
  import JsNumber
  import Multer

  /** The alternatives of `/jpeg|jpg|png|gif|webp/i`. */
  const AllowedTypes: seq<string> := ["jpeg", "jpg", "png", "gif", "webp"]

  function AllowedPattern(): Re {
    AnyWord(AllowedTypes)
  }

  const RejectMessage := "Solo se permiten imágenes en formato JPEG, JPG, PNG, GIF o WEBP."

  /** `limits.fileSize`: 10 MiB. */
  const MaxFileSize: nat := 10 * 1024 * 1024

  /** The file filter.  The pattern is searched for anywhere in the string;
      the `i` flag makes the search on the MIME type case-insensitive, which
      for ASCII is the search in its lower-case form. */
  function FileFilter(originalName: string, mimetype: string): (r: Verdict)
    ensures r.Reject? ==> r.message == RejectMessage
  {
    if ContainsAny(Lower(Extname(originalName)), AllowedTypes)
       && ContainsAny(Lower(mimetype), AllowedTypes)
    then Accept
    else Reject(RejectMessage)
  }

  /** The name the disk storage gives the file:
      `${Date.now()}-${Math.round(Math.random() * 1E9)}${ext}`.  The clock
      and the random number are parameters. */
  function StoredFileName(now: nat, random: nat, originalName: string): string {
    JsNumber.Decimal(now) + "-" + JsNumber.Decimal(random) + Extname(originalName)
  }

  /** What the upload middleware does with one file. */
  function Admit(originalName: string, mimetype: string, size: nat): (r: Verdict) {
    Multer.Admit(FileFilter(originalName, mimetype), Some(MaxFileSize), size)
  }

  // ---- lemmas ----

  /** The filter accepts exactly the files whose lower-cased extension and
      MIME type each contain a match of the allowed-types pattern. */
  lemma FileFilterMeaning(originalName: string, mimetype: string)
    ensures FileFilter(originalName, mimetype) == Accept <==>
      MatchesSomewhere(AllowedPattern(), Lower(Extname(originalName)))
      && MatchesSomewhere(AllowedPattern(), Lower(mimetype))
  {
    SearchAnyWord(AllowedTypes, Lower(Extname(originalName)));
    SearchAnyWord(AllowedTypes, Lower(mimetype));
  }

  /** A file is stored exactly when the filter accepts it and it is at most
      10 MiB; a refused file carries the filter's or multer's message. */
  lemma AdmitMeaning(originalName: string, mimetype: string, size: nat)
    ensures Admit(originalName, mimetype, size) == Accept <==>
      FileFilter(originalName, mimetype) == Accept && size <= MaxFileSize
    ensures Admit(originalName, mimetype, size).Reject? ==>
      Admit(originalName, mimetype, size).message in {RejectMessage, Multer.FileTooLarge}
  {
  }

  /** The stored name keeps the original file's extension. */
  lemma StoredFileNameKeepsExtension(now: nat, random: nat, originalName: string)
    ensures Extname(StoredFileName(now, random, originalName)) == Extname(originalName)
  {
    var e := Extname(originalName);
    ExtnameShape(originalName);
    var d1 := JsNumber.Decimal(now);
    var d2 := JsNumber.Decimal(random);
    var p := d1 + "-" + d2;
    assert Free(p, '.') && Free(p, '/') by {
      forall i | 0 <= i < |p| ensures p[i] != '.' && p[i] != '/' {
        if i < |d1| { assert p[i] == d1[i]; }
        else if i > |d1| { assert p[i] == d2[i - |d1| - 1]; }
      }
    }
    assert p[0] == d1[0];
    ExtOfNameAfterPlain(p, e);
  }

  /** The filter looks for the format names anywhere in the MIME type, so
      a type that is not an image type passes when it mentions one. */
  lemma AcceptsAnyTypeMentioningAFormat()
    ensures FileFilter("photo.png", "application/x-png") == Accept
  {
    var b := "photo.png";
    assert StripTrailingSlashes(b) == b;
    BasenameOfPlain(b);
    assert b[..6] == "photo." && b[..7][..6] == b[..6] && b[..8][..7] == b[..7] && b[..8] == b[..|b| - 1];
    assert LastDot(b[..6]) == Some(5);
    assert LastDot(b[..7]) == Some(5);
    assert LastDot(b[..8]) == Some(5);
    assert LastDot(b) == Some(5);
    assert Extname(b) == ".png";
    var l := Lower(".png");
    assert l[1..4] == "png";
    assert Contains(l, AllowedTypes[2]) by { assert OccursAt(l, "png", 1); }
    var m := Lower("application/x-png");
    assert m[14..17] == "png";
    assert Contains(m, AllowedTypes[2]) by { assert OccursAt(m, "png", 14); }
  }
}
