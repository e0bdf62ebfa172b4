/**
 * boltINodeStore: inode records kept as opaque bytes in one bolt database,
 * one bucket per volume, keyed by the inode id. The record codec (Marshal,
 * Unmarshal) is passed in as functions that may fail.
 */
module INodeStore {
  import opened Wrappers
  import opened KeyCodec
  import opened Bolt

  /** A Go `error` value, known only by its message. */
  datatype Error = Error(message: string)

  /** How a call ends: it returns, or it panics on a nil *bolt.Bucket (bolt rolls the transaction back). */
  datatype Call<+T> = Returned(value: T) | NilBucketPanic

  /** What the database holds for one inode reference. */
  datatype Lookup = NoBucket | Absent | Present(bytes: Bytes)

  /** The bytes at (bucket of the volume, key of the inode), or why there are none. */
  function Read(db: DB, i: INodeRef): (l: Lookup)
    ensures l.NoBucket? <==> FormatVol(i.volume) !in db
    ensures l.Present? <==> FormatVol(i.volume) in db && FormatKey(i.inode) in db[FormatVol(i.volume)]
    ensures l.Present? ==> l.bytes == db[FormatVol(i.volume)][FormatKey(i.inode)]
  {
    var (key, vol) := FormatKeyVol(i);
    var b := Find(db, vol);
    if b.None? then NoBucket
    else
      var v := Find(b.value, key);
      if v.None? then Absent else Present(v.value)
  }

  /** The database after WriteINode's transaction stored `v` for `i`. */
  function Written(db: DB, i: INodeRef, v: Bytes): (r: DB)
    ensures r.Keys == db.Keys + {FormatVol(i.volume)}
  {
    var (key, vol) := FormatKeyVol(i);
    Put(CreateBucketIfNotExists(db, vol), vol, key, v)
  }

  /** DeleteINode's transaction: the database without `i`'s key, or the nil-bucket panic. */
  function Remove(db: DB, i: INodeRef): (c: Call<DB>)
    ensures c.NilBucketPanic? <==> FormatVol(i.volume) !in db
    ensures c.Returned? ==> c.value.Keys == db.Keys
  {
    var (key, vol) := FormatKeyVol(i);
    if Find(db, vol).None? then NilBucketPanic else Returned(Delete(db, vol, key))
  }

  /**
   * What GetINode returns: a panic without the volume's bucket; otherwise
   * Unmarshal of the stored bytes, or of nil bytes (modelled as the empty
   * sequence) when the key is absent.
   */
  function Fetch<R>(db: DB, i: INodeRef, unmarshal: Bytes -> Result<R, Error>): (c: Call<Result<R, Error>>)
    ensures c.NilBucketPanic? <==> FormatVol(i.volume) !in db
    ensures c.Returned? ==> var b := db[FormatVol(i.volume)];
      c.value == unmarshal(if FormatKey(i.inode) in b then b[FormatKey(i.inode)] else [])
  {
    var l := Read(db, i);
    if l.NoBucket? then NilBucketPanic
    else if l.Absent? then Returned(unmarshal([]))
    else Returned(unmarshal(l.bytes))
  }

  // ---- Properties of the store's state transitions ----

  /** A write is read back: bucket and key exist and hold exactly the written bytes. */
  lemma ReadAfterWrite(db: DB, i: INodeRef, v: Bytes)
    ensures Read(Written(db, i, v), i) == Present(v)
  {
  }

  /**
   * A write touches no other inode: every other reference reads as before,
   * except that a reference of the same volume whose bucket did not exist
   * now finds the bucket and reads as absent.
   */
  lemma ReadOtherAfterWrite(db: DB, i: INodeRef, j: INodeRef, v: Bytes)
    requires i != j
    ensures Read(Written(db, i, v), j) ==
      if i.volume == j.volume && Read(db, j) == NoBucket then Absent else Read(db, j)
  {
    FormatKeyVolInjective(i, j);
  }

  /** The last write wins: a second write to the same reference replaces the first entirely. */
  lemma WriteOverwrites(db: DB, i: INodeRef, u: Bytes, v: Bytes)
    ensures Written(Written(db, i, u), i, v) == Written(db, i, v)
  {
    var (key, vol) := FormatKeyVol(i);
    PutOverwrites(db, vol, key, u, v);
  }

  /** Repeating a write leaves the same state. */
  lemma WriteIdempotent(db: DB, i: INodeRef, v: Bytes)
    ensures Written(Written(db, i, v), i, v) == Written(db, i, v)
  {
    WriteOverwrites(db, i, v, v);
  }

  /** After a delete in an existing bucket the reference reads as absent. */
  lemma ReadAfterRemove(db: DB, i: INodeRef)
    requires FormatVol(i.volume) in db
    ensures Remove(db, i).Returned? && Read(Remove(db, i).value, i) == Absent
  {
  }

  /** A delete touches no other inode. */
  lemma ReadOtherAfterRemove(db: DB, i: INodeRef, j: INodeRef)
    requires FormatVol(i.volume) in db && i != j
    ensures Read(Remove(db, i).value, j) == Read(db, j)
  {
    FormatKeyVolInjective(i, j);
    assert FormatKeyVol(i) != FormatKeyVol(j);
  }

  /** Deleting a key the bucket does not hold changes nothing. */
  lemma RemoveAbsentIsNoop(db: DB, i: INodeRef)
    requires Read(db, i) == Absent
    ensures Remove(db, i) == Returned(db)
  {
    DeleteAbsentKey(db, FormatVol(i.volume), FormatKey(i.inode));
  }

  /** Deleting twice leaves the state of deleting once. */
  lemma RemoveIdempotent(db: DB, i: INodeRef)
    requires FormatVol(i.volume) in db
    ensures Remove(Remove(db, i).value, i) == Remove(db, i)
  {
    ReadAfterRemove(db, i);
    RemoveAbsentIsNoop(Remove(db, i).value, i);
  }

  // ---- Properties of what GetINode returns ----

  /** Round trip: after writing Marshal's bytes, GetINode gives the record back, if the codec round-trips. */
  lemma WriteThenGet<R>(db: DB, i: INodeRef, rec: R,
                        marshal: R -> Result<Bytes, Error>, unmarshal: Bytes -> Result<R, Error>)
    requires marshal(rec).Success? && unmarshal(marshal(rec).value) == Success(rec)
    ensures Fetch(Written(db, i, marshal(rec).value), i, unmarshal) == Returned(Success(rec))
  {
    ReadAfterWrite(db, i, marshal(rec).value);
  }

  /** A write in one volume does not change what GetINode sees in another. */
  lemma GetIsolatedByVolume<R>(db: DB, i: INodeRef, j: INodeRef, v: Bytes,
                               unmarshal: Bytes -> Result<R, Error>)
    requires i.volume != j.volume
    ensures Fetch(Written(db, j, v), i, unmarshal) == Fetch(db, i, unmarshal)
  {
    ReadOtherAfterWrite(db, j, i, v);
  }

  /** The same inode id written in two volumes keeps two independent records. */
  lemma NamespaceIsolation<R>(db: DB, v1: VolumeID, v2: VolumeID, id: INodeID, b1: Bytes, b2: Bytes,
                              unmarshal: Bytes -> Result<R, Error>)
    requires v1 != v2
    ensures var d := Written(Written(db, INodeRef(v1, id), b1), INodeRef(v2, id), b2);
      Fetch(d, INodeRef(v1, id), unmarshal) == Returned(unmarshal(b1)) &&
      Fetch(d, INodeRef(v2, id), unmarshal) == Returned(unmarshal(b2))
  {
    var d1 := Written(db, INodeRef(v1, id), b1);
    ReadAfterWrite(db, INodeRef(v1, id), b1);
    ReadOtherAfterWrite(d1, INodeRef(v2, id), INodeRef(v1, id), b2);
    ReadAfterWrite(d1, INodeRef(v2, id), b2);
  }

  /** GetINode panics exactly when the volume has no bucket yet (Fetch's first ensures, restated for the findings). */
  lemma GetPanicsWithoutBucket<R>(db: DB, i: INodeRef, unmarshal: Bytes -> Result<R, Error>)
    ensures Fetch(db, i, unmarshal) == NilBucketPanic <==> FormatVol(i.volume) !in db
  {
  }

  /** On a fresh database, reading inode 42 of volume 3 panics instead of reporting "not found". */
  lemma ColdGetPanics<R>(unmarshal: Bytes -> Result<R, Error>)
    ensures Fetch(map[], INodeRef(3, 42), unmarshal) == NilBucketPanic
  {
  }

  /** On a fresh database, deleting inode 42 of volume 3 panics instead of reporting "not found". */
  lemma ColdDeletePanics()
    ensures Remove(map[], INodeRef(3, 42)) == NilBucketPanic
  {
  }

  /** GetINode cannot tell an absent key from a record stored as empty bytes. */
  lemma AbsentReadsAsEmptyRecord<R>(db: DB, i: INodeRef, unmarshal: Bytes -> Result<R, Error>)
    requires Read(db, i) == Absent
    ensures Fetch(db, i, unmarshal) == Fetch(Written(db, i, []), i, unmarshal)
  {
    ReadAfterWrite(db, i, []);
  }

  // ---- Reads and deletes that report a missing record as NotFound ----

  /** A lookup that finds nothing, and bytes that do not parse, as distinct errors. */
  datatype Fault = NotFound | Corruption(error: Error)

  /** GetINode with a missing bucket or key reported as NotFound and a parse error as Corruption. */
  function FetchOrNotFound<R>(db: DB, i: INodeRef, unmarshal: Bytes -> Result<R, Error>): (r: Result<R, Fault>)
    ensures r == Failure(NotFound) <==>
      FormatVol(i.volume) !in db || FormatKey(i.inode) !in db[FormatVol(i.volume)]
    ensures r.Success? ==>
      unmarshal(db[FormatVol(i.volume)][FormatKey(i.inode)]) == Success(r.value)
    ensures r.Failure? && r.error.Corruption? ==>
      unmarshal(db[FormatVol(i.volume)][FormatKey(i.inode)]) == Failure(r.error.error)
  {
    var l := Read(db, i);
    if l.Present? then
      var rec := unmarshal(l.bytes);
      if rec.Success? then Success(rec.value) else Failure(Corruption(rec.error))
    else Failure(NotFound)
  }

  /** DeleteINode with a missing bucket reported as NotFound, changing nothing. */
  function RemoveOrNotFound(db: DB, i: INodeRef): (r: (DB, Outcome<Fault>))
    ensures r.1 == Pass || r.1 == Fail(NotFound)
    ensures r.1 == Fail(NotFound) <==> FormatVol(i.volume) !in db
    ensures r.1 == Fail(NotFound) ==> r.0 == db
    ensures r.1 == Pass ==> r.0.Keys == db.Keys && FormatKey(i.inode) !in r.0[FormatVol(i.volume)]
    ensures r.1 == Pass ==> r.0 == Remove(db, i).value
  {
    var c := Remove(db, i);
    if c.NilBucketPanic? then (db, Fail(NotFound)) else (c.value, Pass)
  }

  /** NotFound exactly when nothing is stored, for any volume, seen or not. */
  lemma NotFoundIffNothingStored<R>(db: DB, i: INodeRef, unmarshal: Bytes -> Result<R, Error>)
    ensures FetchOrNotFound(db, i, unmarshal) == Failure(NotFound) <==> !Read(db, i).Present?
  {
  }

  /** A stored record comes back, or its bytes' parse error as Corruption (FetchOrNotFound's ensures, restated in terms of Read). */
  lemma FetchOrNotFoundOfStored<R>(db: DB, i: INodeRef, unmarshal: Bytes -> Result<R, Error>)
    requires Read(db, i).Present?
    ensures unmarshal(Read(db, i).bytes).Success? ==>
      FetchOrNotFound(db, i, unmarshal) == Success(unmarshal(Read(db, i).bytes).value)
    ensures unmarshal(Read(db, i).bytes).Failure? ==>
      FetchOrNotFound(db, i, unmarshal) == Failure(Corruption(unmarshal(Read(db, i).bytes).error))
  {
  }

  /** Tombstone: after a delete the reference is not found. */
  lemma NotFoundAfterRemove<R>(db: DB, i: INodeRef, unmarshal: Bytes -> Result<R, Error>)
    ensures FetchOrNotFound(RemoveOrNotFound(db, i).0, i, unmarshal) == Failure(NotFound)
  {
    if FormatVol(i.volume) in db {
      ReadAfterRemove(db, i);
    }
  }

  /** Deleting twice behaves like deleting once: same state, same answer. */
  lemma RemoveOrNotFoundIdempotent(db: DB, i: INodeRef)
    ensures RemoveOrNotFound(RemoveOrNotFound(db, i).0, i) == RemoveOrNotFound(db, i)
  {
    if FormatVol(i.volume) in db {
      RemoveIdempotent(db, i);
    }
  }

  /** Round trip through the NotFound-reporting read. */
  lemma WriteThenFetchOrNotFound<R>(db: DB, i: INodeRef, rec: R,
                                    marshal: R -> Result<Bytes, Error>, unmarshal: Bytes -> Result<R, Error>)
    requires marshal(rec).Success? && unmarshal(marshal(rec).value) == Success(rec)
    ensures FetchOrNotFound(Written(db, i, marshal(rec).value), i, unmarshal) == Success(rec)
  {
    ReadAfterWrite(db, i, marshal(rec).value);
  }

  /** The inode store over an open bolt database, whose contents are `buckets`. */
  class BoltINodeStore {
    var buckets: DB

    /** A store over a database file that holds `contents`. */
    constructor (contents: DB)
      ensures buckets == contents
    {
      buckets := contents;
    }

    /** Read transaction: look up the bucket and key, then unmarshal what was found. */
    method GetINode<R>(i: INodeRef, unmarshal: Bytes -> Result<R, Error>) returns (o: Call<Result<R, Error>>)
      ensures o == Fetch(buckets, i, unmarshal)
    {
      var (key, vol) := FormatKeyVol(i);
      var b := Find(buckets, vol);
      if b.None? {
        return NilBucketPanic;
      }
      var inodeBytes := Find(b.value, key);
      o := Returned(unmarshal(inodeBytes.GetOr([])));
    }

    /** Marshal first; then create the volume's bucket if needed and put the bytes at the key. */
    method WriteINode<R>(i: INodeRef, inode: R, marshal: R -> Result<Bytes, Error>) returns (err: Outcome<Error>)
      modifies this
      ensures marshal(inode).Failure? ==> err == Fail(marshal(inode).error) && buckets == old(buckets)
      ensures marshal(inode).Success? ==> err == Pass && buckets == Written(old(buckets), i, marshal(inode).value)
    {
      var inodeBytes := marshal(inode);
      if inodeBytes.Failure? {
        return Fail(inodeBytes.error);
      }
      var (key, vol) := FormatKeyVol(i);
      buckets := CreateBucketIfNotExists(buckets, vol);
      buckets := Put(buckets, vol, key, inodeBytes.value);
      err := Pass;
    }

    /** Write transaction: delete the key from the volume's bucket, which must exist. */
    method DeleteINode(i: INodeRef) returns (o: Call<Outcome<Error>>)
      modifies this
      ensures Remove(old(buckets), i) == NilBucketPanic ==> o == NilBucketPanic && buckets == old(buckets)
      ensures Remove(old(buckets), i).Returned? ==> o == Returned(Pass) && buckets == Remove(old(buckets), i).value
    {
      var (key, vol) := FormatKeyVol(i);
      var b := Find(buckets, vol);
      if b.None? {
        return NilBucketPanic;
      }
      buckets := Delete(buckets, vol, key);
      o := Returned(Pass);
    }

    /** GetINode with a missing bucket or key reported as NotFound. */
    method GetINodeOrNotFound<R>(i: INodeRef, unmarshal: Bytes -> Result<R, Error>) returns (r: Result<R, Fault>)
      ensures r == FetchOrNotFound(buckets, i, unmarshal)
    {
      var (key, vol) := FormatKeyVol(i);
      var b := Find(buckets, vol);
      if b.None? {
        return Failure(NotFound);
      }
      var inodeBytes := Find(b.value, key);
      if inodeBytes.None? {
        return Failure(NotFound);
      }
      var rec := unmarshal(inodeBytes.value);
      r := if rec.Success? then Success(rec.value) else Failure(Corruption(rec.error));
    }

    /** DeleteINode with a missing bucket reported as NotFound. */
    method DeleteINodeOrNotFound(i: INodeRef) returns (err: Outcome<Fault>)
      modifies this
      ensures (buckets, err) == RemoveOrNotFound(old(buckets), i)
    {
      var (key, vol) := FormatKeyVol(i);
      var b := Find(buckets, vol);
      if b.None? {
        return Fail(NotFound);
      }
      buckets := Delete(buckets, vol, key);
      err := Pass;
    }
  }

  /** Write, read, delete, read and delete again inode 42 of volume 3 on a fresh store. */
  method FreshStoreWalkthrough() {
    var store := new BoltINodeStore(map[]);
    var i := INodeRef(3, 42);
    var a: Bytes := [65];
    var codec := (b: Bytes) => Success(b);
    var w := store.WriteINode(i, a, codec);
    assert w == Pass;
    var g := store.GetINode(i, codec);
    ReadAfterWrite(map[], i, a);
    assert g == Returned(Success(a));
    var d := store.DeleteINode(i);
    assert d == Returned(Pass);
    ReadAfterRemove(Written(map[], i, a), i);
    g := store.GetINode(i, codec);
    assert g == Returned(Success([]));
    var n := store.GetINodeOrNotFound(i, codec);
    assert n == Failure(NotFound);
    d := store.DeleteINode(i);
    assert d == Returned(Pass);
    g := store.GetINode(INodeRef(4, 42), codec);
    assert g == NilBucketPanic;
  }
}
