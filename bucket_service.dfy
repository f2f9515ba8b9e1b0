/** The bucket ledger operations of src/services/bucket_service.ts: pick the
    bucket with the most free space, and register a new bucket once the
    object-storage service has created it. */
module BucketService {
  import opened Common
  import opened Store

  /** Free space, in MB, a newly registered bucket starts with. */
  const DefaultStorage: real := 100.0

  /** Index of the bucket a `ORDER BY storage DESC` query returns first:
      a bucket with the largest free space, the earliest one in the ledger
      among equals. */
  function MostAvailableIndex(bs: seq<Bucket>): (k: nat)
    requires |bs| > 0
    ensures k < |bs|
    ensures forall i :: 0 <= i < |bs| ==> bs[i].storage <= bs[k].storage
    ensures forall i :: 0 <= i < k ==> bs[i].storage < bs[k].storage
  {
    if |bs| == 1 then 0
    else
      var j := MostAvailableIndex(bs[..|bs| - 1]);
      if bs[|bs| - 1].storage > bs[j].storage then |bs| - 1 else j
  }

  /** `getBucketWithMostAvailableSpace()`: null exactly when the ledger is
      empty, otherwise a bucket of the ledger with at least as much free
      space as every other. */
  function MostAvailable(bs: seq<Bucket>): (r: Option<Bucket>)
    ensures r.None? <==> |bs| == 0
    ensures r.Some? ==> r.value in bs
    ensures r.Some? ==> forall b :: b in bs ==> b.storage <= r.value.storage
  {
    if |bs| == 0 then None else Some(bs[MostAvailableIndex(bs)])
  }

  /** The selected bucket is the one at `MostAvailableIndex`. */
  lemma MostAvailableAt(bs: seq<Bucket>)
    requires |bs| > 0
    ensures MostAvailable(bs) == Some(bs[MostAvailableIndex(bs)])
  {
  }

  /** `createNewBucket(name)`: ask the object-storage service to create the
      bucket; only if that succeeds, insert a ledger row with 100 MB free and
      return it.  A failure is rethrown with its own message. */
  method CreateNewBucket(db: Database, name: string, createRemote: string -> Outcome)
    returns (r: Result<Bucket>)
    requires db.Valid()
    modifies db
    ensures db.Valid()
    ensures createRemote(name).Fail? ==>
      r == Err(createRemote(name).message)
      && db.buckets == old(db.buckets) && db.nextBucketId == old(db.nextBucketId)
    ensures createRemote(name).Pass? ==>
      r == Ok(Bucket(old(db.nextBucketId), name, DefaultStorage))
      && db.buckets == old(db.buckets) + [r.value]
      && db.nextBucketId == old(db.nextBucketId) + 1
    ensures db.images == old(db.images) && db.labels == old(db.labels)
    ensures db.nextImageId == old(db.nextImageId) && db.nextLabelId == old(db.nextLabelId)
  {
    var created := createRemote(name);
    if created.Fail? {
      return Err(created.message);
    }
    var b := db.InsertBucket(name, DefaultStorage);
    r := Ok(b);
  }

  /** A bucket created in an empty ledger is the one selected afterwards. */
  lemma {:induction false} CreatedBucketIsSelected(b: Bucket)
    requires b.storage == DefaultStorage
    ensures MostAvailable([b]) == Some(b) && MostAvailable([b]).value.storage == 100.0
  {
  }

  /** Selection is by free space alone: it ignores the sum of the free space,
      so with 50 MB and 10 MB free the 50 MB bucket is chosen. */
  lemma {:induction false} SelectsLargest(a: Bucket, b: Bucket)
    requires a.storage == 50.0 && b.storage == 10.0
    ensures MostAvailable([a, b]) == Some(a)
  {
    assert [a, b][..1] == [a];
  }
}
