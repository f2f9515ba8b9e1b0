/** The relational store: the `bucket`, `image` and `label` tables as the
    services use them, and the repository operations the services call
    (`create` + `save`).  Generated ids come from one auto-increment counter
    per table, so rows are kept in id order. */
module Store {

  /** A bucket of the ledger: its name and its free space in MB. */
  datatype Bucket = Bucket(id: nat, name: string, storage: real)

  /** An image row: the file's base name, its size in bytes, its public URL
      (empty until the upload is confirmed) and the bucket it was placed in. */
  datatype ImageRow = ImageRow(id: nat, fileName: string, size: nat, url: string, bucketId: nat)

  /** A label row: a classifier result attached to one image. */
  datatype LabelRow = LabelRow(id: nat, name: string, confidence: real, imageId: nat)

  ghost predicate BucketIdsBelow(bs: seq<Bucket>, next: nat) {
    (forall i, j :: 0 <= i < j < |bs| ==> bs[i].id < bs[j].id)
    && (forall i :: 0 <= i < |bs| ==> bs[i].id < next)
  }

  ghost predicate ImageIdsBelow(rows: seq<ImageRow>, next: nat) {
    (forall i, j :: 0 <= i < j < |rows| ==> rows[i].id < rows[j].id)
    && (forall i :: 0 <= i < |rows| ==> rows[i].id < next)
  }

  ghost predicate LabelIdsBelow(rows: seq<LabelRow>, next: nat) {
    (forall i, j :: 0 <= i < j < |rows| ==> rows[i].id < rows[j].id)
    && (forall i :: 0 <= i < |rows| ==> rows[i].id < next)
  }

  /** `save(x)` on an existing row: the row with x's key becomes x, and
      every other row is kept. */
  function ReplaceById<T>(xs: seq<T>, key: T -> nat, x: T): seq<T> {
    seq(|xs|, i requires 0 <= i < |xs| => if key(xs[i]) == key(x) then x else xs[i])
  }

  function BucketKey(b: Bucket): nat { b.id }
  function ImageKey(row: ImageRow): nat { row.id }

  /** `save(b)` on an existing bucket. */
  function ReplaceBucket(bs: seq<Bucket>, b: Bucket): seq<Bucket> {
    ReplaceById(bs, BucketKey, b)
  }

  /** `save(row)` on an existing image. */
  function ReplaceImage(rows: seq<ImageRow>, row: ImageRow): seq<ImageRow> {
    ReplaceById(rows, ImageKey, row)
  }

  /** Saving keeps the table's length and every row's key, so the id order
      of the table is kept too. */
  lemma {:induction false} ReplaceByIdKeepsKeys<T>(xs: seq<T>, key: T -> nat, x: T)
    ensures var r := ReplaceById(xs, key, x);
      |r| == |xs| && forall i :: 0 <= i < |xs| ==> key(r[i]) == key(xs[i])
  {
  }

  /** With strictly increasing keys, saving the row that is at index k
      replaces index k and nothing else. */
  lemma {:induction false} ReplaceByIdAt<T>(xs: seq<T>, key: T -> nat, k: nat, x: T)
    requires forall i, j :: 0 <= i < j < |xs| ==> key(xs[i]) < key(xs[j])
    requires k < |xs| && key(xs[k]) == key(x)
    ensures ReplaceById(xs, key, x) == xs[k := x]
  {
    var r := ReplaceById(xs, key, x);
    forall i | 0 <= i < |xs|
      ensures r[i] == xs[k := x][i]
    {
      if i < k { assert key(xs[i]) < key(xs[k]); }
      if i > k { assert key(xs[k]) < key(xs[i]); }
    }
  }

  lemma ReplaceBucketAt(bs: seq<Bucket>, k: nat, b: Bucket, next: nat)
    requires BucketIdsBelow(bs, next) && k < |bs| && bs[k].id == b.id
    ensures ReplaceBucket(bs, b) == bs[k := b]
  {
    ReplaceByIdAt(bs, BucketKey, k, b);
  }

  lemma ReplaceImageAt(rows: seq<ImageRow>, k: nat, row: ImageRow, next: nat)
    requires ImageIdsBelow(rows, next) && k < |rows| && rows[k].id == row.id
    ensures ReplaceImage(rows, row) == rows[k := row]
  {
    ReplaceByIdAt(rows, ImageKey, k, row);
  }

  class Database {
    var buckets: seq<Bucket>
    var images: seq<ImageRow>
    var labels: seq<LabelRow>
    var nextBucketId: nat
    var nextImageId: nat
    var nextLabelId: nat

    ghost predicate Valid()
      reads this
    {
      BucketIdsBelow(buckets, nextBucketId)
      && ImageIdsBelow(images, nextImageId)
      && LabelIdsBelow(labels, nextLabelId)
    }

    constructor ()
      ensures Valid()
      ensures buckets == [] && images == [] && labels == []
      ensures nextBucketId == 1 && nextImageId == 1 && nextLabelId == 1
    {
      buckets, images, labels := [], [], [];
      nextBucketId, nextImageId, nextLabelId := 1, 1, 1;
    }

    /** `bucketRepository.create({name, storage})` followed by `save`. */
    method InsertBucket(name: string, storage: real) returns (b: Bucket)
      requires Valid()
      modifies this
      ensures Valid()
      ensures b == Bucket(old(nextBucketId), name, storage)
      ensures buckets == old(buckets) + [b] && nextBucketId == old(nextBucketId) + 1
      ensures images == old(images) && labels == old(labels)
      ensures nextImageId == old(nextImageId) && nextLabelId == old(nextLabelId)
    {
      b := Bucket(nextBucketId, name, storage);
      buckets := buckets + [b];
      nextBucketId := nextBucketId + 1;
    }

    /** `bucketRepository.save(b)` for a bucket read from the table. */
    method SaveBucket(b: Bucket)
      requires Valid()
      modifies this
      ensures Valid()
      ensures buckets == ReplaceBucket(old(buckets), b)
      ensures images == old(images) && labels == old(labels)
      ensures nextBucketId == old(nextBucketId) && nextImageId == old(nextImageId)
      ensures nextLabelId == old(nextLabelId)
    {
      ReplaceByIdKeepsKeys(buckets, BucketKey, b);
      buckets := ReplaceBucket(buckets, b);
    }

    /** `imageRepository.create({...})` followed by the first `save`. */
    method InsertImage(fileName: string, size: nat, url: string, bucketId: nat) returns (row: ImageRow)
      requires Valid()
      modifies this
      ensures Valid()
      ensures row == ImageRow(old(nextImageId), fileName, size, url, bucketId)
      ensures images == old(images) + [row] && nextImageId == old(nextImageId) + 1
      ensures buckets == old(buckets) && labels == old(labels)
      ensures nextBucketId == old(nextBucketId) && nextLabelId == old(nextLabelId)
    {
      row := ImageRow(nextImageId, fileName, size, url, bucketId);
      images := images + [row];
      nextImageId := nextImageId + 1;
    }

    /** A later `imageRepository.save(row)` of an image already stored. */
    method SaveImage(row: ImageRow)
      requires Valid()
      modifies this
      ensures Valid()
      ensures images == ReplaceImage(old(images), row)
      ensures buckets == old(buckets) && labels == old(labels)
      ensures nextBucketId == old(nextBucketId) && nextImageId == old(nextImageId)
      ensures nextLabelId == old(nextLabelId)
    {
      ReplaceByIdKeepsKeys(images, ImageKey, row);
      images := ReplaceImage(images, row);
    }

    /** `labelRepository.create({...})` followed by `save`. */
    method InsertLabel(name: string, confidence: real, imageId: nat) returns (row: LabelRow)
      requires Valid()
      modifies this
      ensures Valid()
      ensures row == LabelRow(old(nextLabelId), name, confidence, imageId)
      ensures labels == old(labels) + [row] && nextLabelId == old(nextLabelId) + 1
      ensures buckets == old(buckets) && images == old(images)
      ensures nextBucketId == old(nextBucketId) && nextImageId == old(nextImageId)
    {
      row := LabelRow(nextLabelId, name, confidence, imageId);
      labels := labels + [row];
      nextLabelId := nextLabelId + 1;
    }
  }
}
