/** How the handlers' results look once Express serialises them with
    `res.json`: entities become objects with one member per column, numbers
    become JSON numbers.  Each entity encoding can be read back. */
module JsonBody {
  import opened Common
  import opened Http
  import opened Store
  import VisionService
  import StorageService

  function Num(n: int): Json { JNum(n as real) }

  /** A JSON number that is a whole non-negative number. */
  function AsNat(j: Json): Option<nat> {
    if j.JNum? && j.n >= 0.0 && (j.n.Floor as real) == j.n then Some(j.n.Floor) else None
  }

  function AsString(j: Json): Option<string> {
    if j.JStr? then Some(j.s) else None
  }

  function AsReal(j: Json): Option<real> {
    if j.JNum? then Some(j.n) else None
  }

  /** The value of member `i` when it is named `key`. */
  function At(members: seq<(string, Json)>, i: nat, key: string): Option<Json> {
    if i < |members| && members[i].0 == key then Some(members[i].1) else None
  }

  function BucketJson(b: Bucket): Json {
    JObj([("id", Num(b.id)), ("name", JStr(b.name)), ("storage", JNum(b.storage))])
  }

  function DecodeBucket(j: Json): Option<Bucket> {
    if !j.JObj? || |j.members| != 3 then None
    else
      var id := At(j.members, 0, "id");
      var name := At(j.members, 1, "name");
      var storage := At(j.members, 2, "storage");
      if id.None? || name.None? || storage.None? then None
      else
        var i := AsNat(id.value);
        var n := AsString(name.value);
        var s := AsReal(storage.value);
        if i.None? || n.None? || s.None? then None
        else Some(Bucket(i.value, n.value, s.value))
  }

  /** An image row; the bucket it belongs to appears as its id. */
  function ImageJson(row: ImageRow): Json {
    JObj([("id", Num(row.id)), ("file_name", JStr(row.fileName)), ("size", Num(row.size)),
          ("url", JStr(row.url)), ("bucketId", Num(row.bucketId))])
  }

  function DecodeImage(j: Json): Option<ImageRow> {
    if !j.JObj? || |j.members| != 5 then None
    else
      var id := At(j.members, 0, "id");
      var name := At(j.members, 1, "file_name");
      var size := At(j.members, 2, "size");
      var url := At(j.members, 3, "url");
      var bucket := At(j.members, 4, "bucketId");
      if id.None? || name.None? || size.None? || url.None? || bucket.None? then None
      else
        var i := AsNat(id.value);
        var n := AsString(name.value);
        var z := AsNat(size.value);
        var u := AsString(url.value);
        var b := AsNat(bucket.value);
        if i.None? || n.None? || z.None? || u.None? || b.None? then None
        else Some(ImageRow(i.value, n.value, z.value, u.value, b.value))
  }

  /** A label result; a percentage is shown as the number score * 100, a
      missing one as "N/A". */
  function LabelResultJson(l: VisionService.LabelResult): Json {
    var confidence := match l.confidence
      case Percent(score) => JNum(score * 100.0)
      case NotAvailable => JStr("N/A");
    JObj([("name", JStr(l.name)), ("confidence", confidence), ("rawScore", JNum(l.rawScore))])
  }

  function UploadedJson(u: StorageService.Uploaded): Json {
    JObj([("name", JStr(u.name)), ("publicUrl", JStr(u.publicUrl))])
  }

  function Images(rows: seq<ImageRow>): seq<Json> {
    seq(|rows|, i requires 0 <= i < |rows| => ImageJson(rows[i]))
  }

  function Labels(results: seq<VisionService.LabelResult>): seq<Json> {
    seq(|results|, i requires 0 <= i < |results| => LabelResultJson(results[i]))
  }

  // ---- lemmas ----

  lemma AsNatOfNat(n: nat)
    ensures AsNat(Num(n)) == Some(n)
  {
    assert (n as real).Floor == n;
  }

  /** A client can read the bucket back from its JSON. */
  lemma BucketRoundTrip(b: Bucket)
    ensures DecodeBucket(BucketJson(b)) == Some(b)
  {
    AsNatOfNat(b.id);
  }

  /** A client can read the image row back from its JSON. */
  lemma ImageRoundTrip(row: ImageRow)
    ensures DecodeImage(ImageJson(row)) == Some(row)
  {
    AsNatOfNat(row.id);
    AsNatOfNat(row.size);
    AsNatOfNat(row.bucketId);
  }

  /** Different buckets are serialised differently. */
  lemma BucketJsonInjective(a: Bucket, b: Bucket)
    ensures BucketJson(a) == BucketJson(b) ==> a == b
  {
    BucketRoundTrip(a);
    BucketRoundTrip(b);
  }

  lemma ImageJsonInjective(a: ImageRow, b: ImageRow)
    ensures ImageJson(a) == ImageJson(b) ==> a == b
  {
    ImageRoundTrip(a);
    ImageRoundTrip(b);
  }
}
