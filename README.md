# Bolt inode store, modelled in Dafny

The inode store of the storage layer keeps one metadata record per inode in an
embedded bolt database file. A reference `INodeRef{Volume, INode}` (two 64-bit
ids) is mapped by `formatKeyVol` to a bucket name and a key. The bucket name is
the volume id in decimal. The key is the inode id as 16 zero-padded lower-case
hex digits. `WriteINode` marshals the record first. It then creates the
volume's bucket if needed and puts the bytes at the key. `GetINode` reads the
bytes and unmarshals them. `DeleteINode` removes the key from the volume's
bucket.

The model has five modules:

- `Numerals` (numerals.dfy): base-b formatting as fmt and strconv write it, the
  parser `Value`, zero padding, and bolt's byte-wise key order `LexLess`.
- `KeyCodec` (key_codec.dfy): `formatKeyVol` and its properties. These are
  width, alphabet, round trip, injectivity and order.
- `Bolt` (bolt.dfy): the database as a two-level map. It holds the calls the
  store makes: `Tx.Bucket` and `Bucket.Get` (both `Find`), `CreateBucketIfNotExists`,
  `Put` and `Delete`.
- `INodeStore` (inode_store.dfy): state-level functions (`Read`, `Written`,
  `Remove`, `Fetch`) and the lemmas relating them. It also holds the class
  `BoltINodeStore`, whose only field is the bucket map, and whose methods are
  the three operations.
- `Wrappers` (wrappers.dfy): `Option`, `Result`, `Outcome`.

The record codec is opaque. `Marshal` and `Unmarshal` are passed in as
functions that may fail.

In the code, `GetINode` and `DeleteINode` call the bucket returned by
`tx.Bucket` without checking it for nil. When the volume has no bucket yet,
they dereference a nil `*bolt.Bucket` and panic. The store's intended contract
is to report "not found" there. The model follows the code: those calls end in
the distinct outcome `NilBucketPanic`, and the database is left unchanged,
because bolt rolls the transaction back. The corrected behaviour is modelled
beside it, see "## Findings". For an absent key in an existing bucket, the code
passes a nil slice to `Unmarshal`. The model's `Lookup` keeps "absent" apart
from "stored". `Fetch` passes the empty byte sequence to `Unmarshal` there: the
model has no nil slice apart from the empty one (see "## Left out").

## Model

| member | source | states |
|---|---|---|
| Numerals.Format | storage/inode/bolt.go:59-60 | the text is canonical: only digits of the base, "0" alone or no leading zero; it is one digit exactly when the number is below the base, and starts with '0' exactly when the number is 0 |
| Numerals.ZeroPad | storage/inode/bolt.go:59 | the padded text has length max(width, old length), ends with the unpadded text and is '0' before it |
| Numerals.ValueOfFormat | storage/inode/bolt.go:59-60 | parsing the formatted text gives back the number |
| Numerals.ValueOfZeroPad | storage/inode/bolt.go:59 | zero padding keeps a numeral a numeral of the same value |
| Numerals.FormatWidth | storage/inode/bolt.go:59 | a number below base^k is written with at most k digits |
| Numerals.FixedWidthOrder | storage/inode/bolt.go:59 | for numerals of equal length, byte-wise order is numeric order, and equal values mean equal text |
| Numerals.CanonicalIsFormat | storage/inode/bolt.go:60 | a canonical numeral is exactly the text Format writes for its value |
| Numerals.LexLess | storage/inode/bolt.go:59 | bolt's byte-wise key order is irreflexive: no text sorts before itself |
| Numerals.LexLessAtFirstDifference | storage/inode/bolt.go:59 | the order is decided at the first index where the texts differ or one ends: a proper prefix comes first, otherwise the smaller character |
| KeyCodec.FormatKey | storage/inode/bolt.go:59 | the key is made only of the characters 0-9a-f and parses back to the inode id |
| KeyCodec.KeyLength | storage/inode/bolt.go:59 | the key of any 64-bit inode id is exactly 16 characters |
| KeyCodec.FormatVol | storage/inode/bolt.go:60 | the bucket name is decimal digits with no leading zero and parses back to the volume id |
| KeyCodec.FormatKeyVol | storage/inode/bolt.go:58-62 | the key is hex digits parsing back to the inode id, and the bucket name is canonical decimal parsing back to the volume id |
| KeyCodec.KeyCharacterization | storage/inode/bolt.go:59 | a string is the key of id exactly when it is 16 hex digits with value id |
| KeyCodec.BucketNameCharacterization | storage/inode/bolt.go:60 | a string is the bucket name of v exactly when it is canonical decimal with value v |
| KeyCodec.KeyOrder | storage/inode/bolt.go:59 | a < b exactly when key(a) sorts byte-wise before key(b) |
| KeyCodec.FormatKeyVolInjective | storage/inode/bolt.go:58-62 | equal (key, bucket) pairs exactly for equal references; equal keys exactly for equal inode ids; equal bucket names exactly for equal volume ids |
| Bolt.Find | storage/inode/bolt.go:46-47 | Tx.Bucket and Bucket.Get: a result exactly when the name is present, and then it is what is stored under it |
| Bolt.CreateBucketIfNotExists | storage/inode/bolt.go:71 | afterwards the bucket exists, a new one is empty, and every existing bucket is kept as it was |
| Bolt.Put | storage/inode/bolt.go:75 | the key maps to the new value; every other key and every other bucket is unchanged; no bucket appears or disappears |
| Bolt.Delete | storage/inode/bolt.go:84 | the bucket loses exactly that key; other keys and buckets are unchanged |
| Bolt.PutOverwrites | storage/inode/bolt.go:71-75 | ensuring the bucket and putting at the same key twice gives the state of doing it once with the second value |
| Bolt.DeleteAbsentKey | storage/inode/bolt.go:84 | deleting a key that is not there leaves the database unchanged |
| INodeStore.Read | storage/inode/bolt.go:45-49 | NoBucket exactly when the volume has no bucket; Present exactly when bucket and key exist, with the stored bytes |
| INodeStore.Written | storage/inode/bolt.go:70-76 | a write adds at most the volume's bucket to the set of buckets |
| INodeStore.Remove | storage/inode/bolt.go:82-85 | the delete panics exactly when the volume has no bucket; otherwise the set of buckets is unchanged |
| INodeStore.Fetch | storage/inode/bolt.go:42-56 | GetINode panics exactly when the volume has no bucket; otherwise it returns Unmarshal of the bytes stored at the key, or of empty bytes when the key is absent |
| INodeStore.ReadAfterWrite | storage/inode/bolt.go:70-76 | after a write the reference reads back exactly the written bytes |
| INodeStore.ReadOtherAfterWrite | storage/inode/bolt.go:69-76 | a write leaves every other reference as it was, except that a reference in the same, newly created bucket now reads as absent |
| INodeStore.WriteOverwrites | storage/inode/bolt.go:75 | a second write to the same reference replaces the first entirely |
| INodeStore.WriteIdempotent | storage/inode/bolt.go:70-76 | repeating a write leaves the same state |
| INodeStore.ReadAfterRemove | storage/inode/bolt.go:82-85 | with the bucket present, the delete returns and the reference then reads as absent |
| INodeStore.ReadOtherAfterRemove | storage/inode/bolt.go:81-85 | a delete leaves every other reference as it was |
| INodeStore.RemoveAbsentIsNoop | storage/inode/bolt.go:84 | deleting an absent key in an existing bucket changes nothing |
| INodeStore.RemoveIdempotent | storage/inode/bolt.go:82-85 | deleting twice gives the state of deleting once |
| INodeStore.WriteThenGet | storage/inode/bolt.go:42-78 | if Unmarshal inverts Marshal on the record, GetINode after WriteINode returns the record |
| INodeStore.GetIsolatedByVolume | storage/inode/bolt.go:44-47 | a write in one volume does not change what GetINode returns in another |
| INodeStore.NamespaceIsolation | storage/inode/bolt.go:58-76 | one inode id written in two volumes keeps two independent records |
| INodeStore.GetPanicsWithoutBucket | storage/inode/bolt.go:46-47 | GetINode panics exactly when the volume has no bucket |
| INodeStore.ColdGetPanics | storage/inode/bolt.go:46-47 | on an empty database, GetINode of volume 3, inode 42 panics |
| INodeStore.ColdDeletePanics | storage/inode/bolt.go:83-84 | on an empty database, DeleteINode of volume 3, inode 42 panics |
| INodeStore.AbsentReadsAsEmptyRecord | storage/inode/bolt.go:47-55 | for an absent key GetINode returns what it returns for a record stored as empty bytes |
| INodeStore.FetchOrNotFound | storage/inode/bolt.go:42-56 | corrected read: NotFound exactly when the bucket or the key is missing; a success is what Unmarshal makes of the stored bytes, and Corruption carries Unmarshal's error |
| INodeStore.RemoveOrNotFound | storage/inode/bolt.go:80-87 | corrected delete: NotFound, with the state unchanged, exactly when the volume has no bucket; otherwise success with the state Remove's result: the same set of buckets, the key gone from the volume's bucket |
| INodeStore.NotFoundIffNothingStored | storage/inode/bolt.go:42-56 | the corrected read reports NotFound exactly when nothing is stored, whether the bucket or the key is missing |
| INodeStore.FetchOrNotFoundOfStored | storage/inode/bolt.go:53-55 | the corrected read returns a stored record, or its parse error as Corruption |
| INodeStore.NotFoundAfterRemove | storage/inode/bolt.go:80-87 | after the corrected delete, the corrected read reports NotFound |
| INodeStore.RemoveOrNotFoundIdempotent | storage/inode/bolt.go:80-87 | the corrected delete run twice gives the same state and the same answer as run once |
| INodeStore.WriteThenFetchOrNotFound | storage/inode/bolt.go:64-78 | the corrected read returns the record after a write, if the codec round-trips |
| INodeStore.BoltINodeStore.constructor | storage/inode/bolt.go:29-31 | the store starts with the contents of the database file it opened |
| INodeStore.BoltINodeStore.GetINode | storage/inode/bolt.go:42-56 | changes nothing and returns Fetch of the current state: a panic without a bucket, otherwise Unmarshal of the stored bytes, or of nil bytes for an absent key |
| INodeStore.BoltINodeStore.WriteINode | storage/inode/bolt.go:64-78 | a Marshal failure is returned and the state is unchanged (fail before mutate); otherwise the result is nil and the state is Written(old state, reference, bytes) |
| INodeStore.BoltINodeStore.DeleteINode | storage/inode/bolt.go:80-87 | a panic with the state unchanged when the volume has no bucket; otherwise nil and the key removed from the bucket |
| INodeStore.BoltINodeStore.GetINodeOrNotFound | storage/inode/bolt.go:42-56 | corrected GetINode: changes nothing and returns FetchOrNotFound of the current state |
| INodeStore.BoltINodeStore.DeleteINodeOrNotFound | storage/inode/bolt.go:80-87 | corrected DeleteINode: NotFound with the state unchanged when the volume has no bucket, otherwise the key removed |

`INodeStore.FreshStoreWalkthrough` is a verified client of the class. On an
empty database it writes, reads, deletes, reads and deletes again inode 42 of
volume 3. It shows that the read after the delete returns Unmarshal of nil
bytes and not "not found". It also shows that a read in a volume with no
bucket panics.

## Left out

- `openBoltINodeStore` (bolt.go:23-32) is not modelled: the path, `bolt.Open`, file locking and open errors. The constructor only starts from given contents.
- `Flush` and `Close` (bolt.go:34-40) are disk sync and handle teardown. The abstract map has no durability or closed state.
- The `init` registration with the backend registry and the interface-conformance assertion (bolt.go:15-19) are process-global glue.
- bolt's transaction machinery is not modelled: snapshot isolation, single-writer serialisation and crash recovery. Each call is one atomic step.
- bolt-internal failures are not modelled. These are a closed database, commit I/O errors, and key or value size limits. So the error returned by `Update` in `WriteINode` (bolt.go:77) and `DeleteINode` (bolt.go:86) is always nil here, and the `View` error branch of `GetINode` (bolt.go:50-52) is never taken. `CreateBucketIfNotExists` cannot fail on a missing name, because a decimal bucket name is never empty.
- `models.INode` and its generated `Marshal`/`Unmarshal` are opaque. They are function parameters, and the record type is a type parameter.
- When `Unmarshal` fails, `GetINode` returns the partly filled record together with the error (bolt.go:53-55). The model returns only the error.
- `GetINode` unmarshals `inodeBytes` after the `View` transaction has ended (bolt.go:45-49 against 53-54). bolt guarantees a slice returned by `Get` only while its transaction is open; after that, a remap of the file can unmap or reuse that memory. The model treats the bytes as a value that stays valid.
- Fetch: a missing key gives Go a nil slice, and the model identifies nil with a stored zero-length value. A Go `Unmarshal` could tell them apart by testing for `nil`; the generated `Unmarshal` of `models.INode` is not part of this model. `AbsentReadsAsEmptyRecord` depends on this identification.
- A panic is modelled as a result value (`NilBucketPanic`). The stack unwinding into the caller is not modelled.
- The unused `context.Context` parameter has no behaviour.
- Keys and bucket names are modelled as strings of characters. All of them are ASCII, so their byte-wise order is bolt's order.

## Findings

| source | as written | input that shows it | evidently intended | confidence | as-written member | corrected member |
|---|---|---|---|---|---|---|
| storage/inode/bolt.go:46-47 | `GetINode` calls `Get` on the bucket from `tx.Bucket` with no nil check | `GetINode({Volume: 3, INode: 42})` on an empty database | report "not found" | high; not executed | INodeStore.ColdGetPanics | INodeStore.BoltINodeStore.GetINodeOrNotFound |
| storage/inode/bolt.go:83-84 | `DeleteINode` calls `Delete` on the bucket from `tx.Bucket` with no nil check | `DeleteINode({Volume: 3, INode: 42})` on an empty database | report "not found" and change nothing | high; not executed | INodeStore.ColdDeletePanics | INodeStore.BoltINodeStore.DeleteINodeOrNotFound |
| storage/inode/bolt.go:47-55 | an absent key passes nil bytes to `Unmarshal`, so an absent record reads like a record stored as empty bytes | `GetINode({3, 42})` after `WriteINode({3, 7}, r)` | report "not found" | medium; not executed; depends on what the generated `Unmarshal` makes of empty input | INodeStore.AbsentReadsAsEmptyRecord | INodeStore.FetchOrNotFound |
