/**
 * formatKeyVol: where an inode lives in the bolt file. The key is the inode
 * id as 16 lower-case hex digits, zero padded (fmt's %016x); the bucket name
 * is the volume id in decimal (strconv.FormatUint(v, 10)).
 */
module KeyCodec {
  import opened Numerals

  const TwoTo64: nat := 0x1_0000_0000_0000_0000

  type VolumeID = v: nat | v < TwoTo64
  type INodeID = i: nat | i < TwoTo64

  /** Names one inode of the whole store. */
  datatype INodeRef = INodeRef(volume: VolumeID, inode: INodeID)

  /** Number of characters in a key. */
  const KeyWidth: nat := 16

  /** Sixteen hex digits cover exactly the 64-bit ids. */
  lemma KeySpace()
    ensures Pow(16, KeyWidth) == TwoTo64
  {
    assert Pow(16, 4) == 0x1_0000;
    assert Pow(16, 8) == 0x1_0000_0000;
    assert Pow(16, 12) == 0x1_0000_0000_0000;
  }

  /** fmt.Sprintf("%016x", id): the shortest hex text, left-padded with zeros to 16. */
  function FormatKey(id: INodeID): (key: string)
    ensures IsNumeral(key, 16) && Value(key, 16) == id
  {
    KeySpace();
    FormatWidth(id, 16, KeyWidth);
    ValueOfFormat(id, 16);
    ValueOfZeroPad(Format(id, 16), KeyWidth, 16);
    ZeroPad(Format(id, 16), KeyWidth)
  }

  /** strconv.FormatUint(v, 10): decimal digits without a leading zero that parse back to `v`. */
  function FormatVol(v: VolumeID): (name: string)
    ensures IsCanonical(name, 10) && Value(name, 10) == v
  {
    ValueOfFormat(v, 10);
    Format(v, 10)
  }

  /** formatKeyVol: the (key, bucket name) pair of an inode reference; each parses back to its id. */
  function FormatKeyVol(i: INodeRef): (kv: (string, string))
    ensures IsNumeral(kv.0, 16) && Value(kv.0, 16) == i.inode
    ensures IsCanonical(kv.1, 10) && Value(kv.1, 10) == i.volume
  {
    (FormatKey(i.inode), FormatVol(i.volume))
  }

  /** Every key is exactly 16 characters, whatever the id. */
  lemma KeyLength(id: INodeID)
    ensures |FormatKey(id)| == KeyWidth
  {
    KeySpace();
    FormatWidth(id, 16, KeyWidth);
  }

  /** A string is the key of `id` exactly when it is 16 hex digits whose value is `id`. */
  lemma KeyCharacterization(key: string, id: INodeID)
    ensures key == FormatKey(id) <==>
      (|key| == KeyWidth && IsNumeral(key, 16) && Value(key, 16) == id)
  {
    KeyLength(id);
    if |key| == KeyWidth && IsNumeral(key, 16) && Value(key, 16) == id {
      FixedWidthOrder(key, FormatKey(id), 16);
    }
  }

  /** A string is the bucket name of `v` exactly when it is v's decimal text without leading zeros. */
  lemma BucketNameCharacterization(name: string, v: VolumeID)
    ensures name == FormatVol(v) <==> (IsCanonical(name, 10) && Value(name, 10) == v)
  {
    if IsCanonical(name, 10) && Value(name, 10) == v {
      CanonicalIsFormat(name, 10);
    }
  }

  /** Keys sort byte-wise in the numeric order of the inode ids. */
  lemma KeyOrder(a: INodeID, b: INodeID)
    ensures a < b <==> LexLess(FormatKey(a), FormatKey(b))
  {
    KeyLength(a);
    KeyLength(b);
    FixedWidthOrder(FormatKey(a), FormatKey(b), 16);
  }

  /** Distinct references never share both key and bucket name; distinct volumes never share a bucket. */
  lemma FormatKeyVolInjective(i: INodeRef, j: INodeRef)
    ensures FormatKeyVol(i) == FormatKeyVol(j) <==> i == j
    ensures FormatKey(i.inode) == FormatKey(j.inode) <==> i.inode == j.inode
    ensures FormatVol(i.volume) == FormatVol(j.volume) <==> i.volume == j.volume
  {
  }
}
