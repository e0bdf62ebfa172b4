/**
 * The part of bolt's API the inode store uses, over the contents of the
 * database file: named top-level buckets, each a map from key to value.
 * Each function is one step of a transaction.
 */
module Bolt {
  import opened Wrappers

  newtype Byte = x: int | 0 <= x < 256

  type Bytes = seq<Byte>

  /** A bucket's keys and their values. */
  type Bucket = map<string, Bytes>

  /** A database: its top-level buckets by name. */
  type DB = map<string, Bucket>

  /**
   * Tx.Bucket and Bucket.Get: what is stored under `name` (a bucket of the
   * database, a value of a bucket), or nil when there is nothing.
   */
  function Find<V>(m: map<string, V>, name: string): (r: Option<V>)
    ensures r.Some? <==> name in m
    ensures r.Some? ==> r.value == m[name]
  {
    if name in m then Some(m[name]) else None
  }

  /** Tx.CreateBucketIfNotExists: add an empty bucket unless one of that name exists. */
  function CreateBucketIfNotExists(db: DB, name: string): (r: DB)
    ensures r.Keys == db.Keys + {name}
    ensures name !in db ==> r[name] == map[]
    ensures forall n :: n in db ==> r[n] == db[n]
  {
    if name in db then db else db[name := map[]]
  }

  /** Bucket.Put: store `v` at `key` of bucket `name`, replacing any old value. */
  function Put(db: DB, name: string, key: string, v: Bytes): (r: DB)
    requires name in db
    ensures r.Keys == db.Keys
    ensures r[name].Keys == db[name].Keys + {key} && r[name][key] == v
    ensures forall k :: k in db[name] && k != key ==> r[name][k] == db[name][k]
    ensures forall n :: n in db && n != name ==> r[n] == db[n]
  {
    db[name := db[name][key := v]]
  }

  /** Bucket.Delete: drop `key` from bucket `name`; an absent key is no error. */
  function Delete(db: DB, name: string, key: string): (r: DB)
    requires name in db
    ensures r.Keys == db.Keys
    ensures r[name].Keys == db[name].Keys - {key}
    ensures forall k :: k in r[name] ==> r[name][k] == db[name][k]
    ensures forall n :: n in db && n != name ==> r[n] == db[n]
  {
    db[name := db[name] - {key}]
  }

  /** Deleting a key the bucket does not hold leaves the database as it was. */
  lemma DeleteAbsentKey(db: DB, name: string, key: string)
    requires name in db && key !in db[name]
    ensures Delete(db, name, key) == db
  {
    assert db[name] - {key} == db[name];
  }

  /** A second Put at the same key, after the bucket is ensured again, replaces the first Put entirely. */
  lemma PutOverwrites(db: DB, name: string, key: string, u: Bytes, v: Bytes)
    ensures var d1 := Put(CreateBucketIfNotExists(db, name), name, key, u);
      Put(CreateBucketIfNotExists(d1, name), name, key, v) == Put(CreateBucketIfNotExists(db, name), name, key, v)
  {
    var d1 := Put(CreateBucketIfNotExists(db, name), name, key, u);
    var l, r := Put(CreateBucketIfNotExists(d1, name), name, key, v), Put(CreateBucketIfNotExists(db, name), name, key, v);
    assert l.Keys == r.Keys;
    assert l[name] == r[name];
  }
}
