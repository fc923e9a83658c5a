/**
 * The SQL Server codec for UUIDs: the `uniqueidentifier` column stores the
 * 16 bytes of a UUID in Microsoft's GUID order, where the first three
 * groups (4, 2 and 2 bytes) are little-endian, while a UUID keeps every
 * group big-endian. Encoding and decoding both apply the same reordering.
 */
module MssqlUuid {
  import opened Wrappers
  import opened Bytes
  import opened ProtocolTypeInfo

  /** Length of a UUID in bytes, canonical or on the wire. */
  const UuidLen: nat := 16

  type Bytes16 = s: seq<Byte> | |s| == UuidLen witness seq(16, _ => 0)

  /** A UUID, held as its 16 bytes in canonical (big-endian group) order. */
  datatype Uuid = Uuid(bytes: Bytes16)

  function FromBytes(b: Bytes16): Uuid { Uuid(b) }

  function AsBytes(u: Uuid): Bytes16 { u.bytes }

  /** The null marker an encoder reports to its caller. */
  datatype IsNull = Yes | No

  /** What an encoder hands back: its null marker and the grown buffer. */
  datatype Encoded = Encoded(isNull: IsNull, buf: seq<Byte>)

  /** The error of a slice-to-array conversion of the wrong length. */
  datatype TryFromSliceError = TryFromSliceError

  /** Why decoding failed: the column's bytes could not be read (the
      accessor's own error, kept as it is) or there were not 16 of them. */
  datatype DecodeError<E> = AccessFailed(cause: E) | WrongLength

  /**
   * The position whose byte moves to position `i` when the layout changes:
   * mirrored inside each of the groups 0..4, 4..6 and 6..8, kept in place
   * in the last eight bytes.
   */
  function Mirror(i: nat): (j: nat)
    requires i < UuidLen
    ensures j < UuidLen
  {
    if i < 4 then 3 - i
    else if i < 6 then 9 - i
    else if i < 8 then 13 - i
    else i
  }

  /** The fixed reordering between the UUID and the GUID layouts. */
  function ReorderBytes(b: Bytes16): (r: Bytes16)
    ensures r[0] == b[3] && r[1] == b[2] && r[2] == b[1] && r[3] == b[0]
    ensures r[4] == b[5] && r[5] == b[4] && r[6] == b[7] && r[7] == b[6]
    ensures r[8..] == b[8..]
  {
    var s1 := Swap(b, 0, 3);
    var s2 := Swap(s1, 1, 2);
    var s3 := Swap(s2, 4, 5);
    var r := Swap(s3, 6, 7);
    assert r[8..] == b[8..] by {
      forall k | 8 <= k < UuidLen ensures r[k] == b[k] {
        assert r[k] == s3[k] == s2[k] == s1[k];
      }
    }
    r
  }

  /** The reordering is a permutation: the same bytes, as often each. */
  lemma ReorderBytesPermutes(b: Bytes16)
    ensures multiset(ReorderBytes(b)) == multiset(b)
  {
    var s1 := Swap(b, 0, 3);
    var s2 := Swap(s1, 1, 2);
    var s3 := Swap(s2, 4, 5);
    SwapPermutes(b, 0, 3);
    SwapPermutes(s1, 1, 2);
    SwapPermutes(s2, 4, 5);
    SwapPermutes(s3, 6, 7);
  }

  /** Every wire position `i` holds the canonical byte at `Mirror(i)`. */
  lemma ReorderBytesMirror(b: Bytes16)
    ensures forall i | 0 <= i < UuidLen :: ReorderBytes(b)[i] == b[Mirror(i)]
  {
  }

  /** Reordering twice gives back the bytes one started from. */
  lemma ReorderBytesInvolution(b: Bytes16)
    ensures ReorderBytes(ReorderBytes(b)) == b
  {
  }

  /** The reordering reverses the groups 0..4, 4..6 and 6..8 each on its own
      and leaves the last eight bytes as they are; it is not a reversal of
      the first eight bytes as a whole. */
  lemma ReorderBytesReversesGroups(b: Bytes16)
    ensures ReorderBytes(b) == Reverse(b[..4]) + Reverse(b[4..6]) + Reverse(b[6..8]) + b[8..]
  {
  }

  /** The byte-position table on the counting vector 0, 1, ..., 15. */
  lemma ReorderBytesExample()
    ensures ReorderBytes([0, 1, 2, 3, 4, 5, 6, 7, 8, 9, 10, 11, 12, 13, 14, 15])
         == [3, 2, 1, 0, 5, 4, 7, 6, 8, 9, 10, 11, 12, 13, 14, 15]
  {
  }

  /** The column type a UUID is bound as: a GUID column of 16 bytes. */
  function UuidTypeInfo(): (t: TypeInfo)
    ensures t.ty == Guid
    ensures t.size == UuidLen
  {
    TypeInfo(Guid, 16)
  }

  /** Whether a UUID may be read from or bound to a column of type `ty`:
      only the tag is compared with the declared one, never the size. */
  function Compatible(ty: TypeInfo): (b: bool)
    ensures b <==> ty.ty == UuidTypeInfo().ty
  {
    ty.ty.Guid?
  }

  /** The declared column type is accepted, and the size field never
      changes the answer. */
  lemma CompatibleIgnoresSize(ty: TypeInfo, size: nat)
    ensures Compatible(UuidTypeInfo())
    ensures Compatible(ty) <==> Compatible(TypeInfo(ty.ty, size))
  {
  }

  /** Appends the wire form of `u` to `buf`. Never fails, never null. */
  function EncodeByRef(u: Uuid, buf: seq<Byte>): (r: Encoded)
    ensures r.isNull == No
    ensures |r.buf| == |buf| + UuidLen
    ensures r.buf[..|buf|] == buf
    ensures forall i | 0 <= i < UuidLen :: r.buf[|buf| + i] == AsBytes(u)[Mirror(i)]
  {
    var bytes := ReorderBytes(AsBytes(u));
    Encoded(No, buf + bytes)
  }

  /** `uuid::Bytes::try_from`: succeeds exactly on slices of 16 bytes. */
  function TryIntoBytes16(s: seq<Byte>): (r: Result<Bytes16, TryFromSliceError>)
    ensures r.Success? <==> |s| == UuidLen
    ensures r.Success? ==> r.value == s
  {
    if |s| == UuidLen then Success(s) else Failure(TryFromSliceError)
  }

  /**
   * Reads a UUID from a column value whose byte accessor gave `value`.
   * An accessor error is passed on untouched; a slice that is not 16 bytes
   * long is rejected; otherwise the wire bytes are reordered.
   */
  function Decode<E>(value: Result<seq<Byte>, E>): (r: Result<Uuid, DecodeError<E>>)
    ensures value.Failure? ==> r == Failure(AccessFailed(value.error))
    ensures value.Success? && |value.value| != UuidLen ==> r == Failure(WrongLength)
    ensures r.Success? <==> value.Success? && |value.value| == UuidLen
    ensures r.Success? ==>
      forall i | 0 <= i < UuidLen :: AsBytes(r.value)[i] == value.value[Mirror(i)]
  {
    match value
    case Failure(e) => Failure(AccessFailed(e))
    case Success(slice) =>
      match TryIntoBytes16(slice)
      case Failure(_) => Failure(WrongLength)
      case Success(bytes) => Success(FromBytes(ReorderBytes(bytes)))
  }

  /** Decoding the 16 bytes an encode appended gives back the UUID. */
  lemma DecodeEncode<E>(u: Uuid, buf: seq<Byte>)
    ensures Decode<E>(Success(EncodeByRef(u, buf).buf[|buf|..])) == Success(u)
  {
    var wire := EncodeByRef(u, buf).buf[|buf|..];
    assert wire == ReorderBytes(AsBytes(u));
    ReorderBytesInvolution(AsBytes(u));
  }

  /** Every 16-byte wire value decodes, and encoding the result appends
      exactly that wire value. */
  lemma EncodeDecode<E>(w: seq<Byte>, buf: seq<Byte>)
    requires |w| == UuidLen
    ensures Decode<E>(Success(w)).Success?
    ensures EncodeByRef(Decode<E>(Success(w)).value, buf).buf == buf + w
  {
  }

  /** Two UUIDs with the same wire form are the same UUID. */
  lemma EncodeInjective(u: Uuid, v: Uuid)
    requires EncodeByRef(u, []).buf == EncodeByRef(v, []).buf
    ensures u == v
  {
  }
}
