/**
 * What the 16 bytes mean. A UUID is four fields: a 4-byte, a 2-byte and a
 * 2-byte number and eight loose bytes. The canonical layout (section 4.1.2
 * of RFC 4122) writes the three numbers big-endian; the GUID structure that
 * SQL Server puts on the wire (section 2.3.4 of MS-DTYP) writes them
 * little-endian. The reordering changes the layout and keeps the fields.
 */
module GuidLayout {
  import opened Wrappers
  import opened Bytes
  import opened MssqlUuid

  /** The fields of a GUID: `Data1` (32 bits), `Data2` and `Data3` (16 bits
      each) and `Data4` (eight bytes, never reordered). */
  datatype GuidFields = GuidFields(data1: nat, data2: nat, data3: nat, data4: seq<Byte>)

  predicate WellFormed(g: GuidFields) {
    && g.data1 < 0x1_0000_0000
    && g.data2 < 0x1_0000
    && g.data3 < 0x1_0000
    && |g.data4| == 8
  }

  /** The fields of canonical bytes `b`: every group big-endian. */
  function CanonicalFields(b: Bytes16): (g: GuidFields)
    ensures WellFormed(g)
  {
    GuidFields(BigEndian(b[..4]), BigEndian(b[4..6]), BigEndian(b[6..8]), b[8..])
  }

  /** The fields of wire bytes `w`: the first three groups little-endian. */
  function WireFields(w: Bytes16): (g: GuidFields)
    ensures WellFormed(g)
  {
    GuidFields(LittleEndian(w[..4]), LittleEndian(w[4..6]), LittleEndian(w[6..8]), w[8..])
  }

  /** The fields determine the bytes: different UUIDs have different
      fields. */
  lemma CanonicalFieldsInjective(a: Bytes16, b: Bytes16)
    requires CanonicalFields(a) == CanonicalFields(b)
    ensures a == b
  {
    BigEndianInjective(a[..4], b[..4]);
    BigEndianInjective(a[4..6], b[4..6]);
    BigEndianInjective(a[6..8], b[6..8]);
    assert a == a[..4] + a[4..6] + a[6..8] + a[8..];
    assert b == b[..4] + b[4..6] + b[6..8] + b[8..];
  }

  /** Reordering canonical bytes gives wire bytes with the same fields. */
  lemma WireFieldsOfReorder(b: Bytes16)
    ensures WireFields(ReorderBytes(b)) == CanonicalFields(b)
  {
    var w := ReorderBytes(b);
    ReorderBytesReversesGroups(b);
    assert w[..4] == Reverse(b[..4]);
    assert w[4..6] == Reverse(b[4..6]);
    assert w[6..8] == Reverse(b[6..8]);
    LittleEndianOfReverse(b[..4]);
    LittleEndianOfReverse(b[4..6]);
    LittleEndianOfReverse(b[6..8]);
  }

  /** Reordering wire bytes gives canonical bytes with the same fields. */
  lemma CanonicalFieldsOfReorder(w: Bytes16)
    ensures CanonicalFields(ReorderBytes(w)) == WireFields(w)
  {
    var b := ReorderBytes(w);
    ReorderBytesInvolution(w);
    WireFieldsOfReorder(b);
  }

  /** The 16 bytes an encode appends carry the UUID's fields in the GUID
      layout. */
  lemma EncodePreservesFields(u: Uuid, buf: seq<Byte>)
    ensures WireFields(EncodeByRef(u, buf).buf[|buf|..]) == CanonicalFields(AsBytes(u))
  {
    assert EncodeByRef(u, buf).buf[|buf|..] == ReorderBytes(AsBytes(u));
    WireFieldsOfReorder(AsBytes(u));
  }

  /** A decoded UUID carries the fields the wire bytes held. */
  lemma DecodePreservesFields<E>(w: seq<Byte>)
    requires |w| == UuidLen
    ensures Decode<E>(Success(w)).Success?
    ensures CanonicalFields(AsBytes(Decode<E>(Success(w)).value)) == WireFields(w)
  {
    CanonicalFieldsOfReorder(w);
  }

  /** Decoding is determined by the fields alone: a wire value decodes to
      the one UUID whose canonical fields equal the wire fields. */
  lemma DecodeByFields<E>(w: seq<Byte>, u: Uuid)
    requires |w| == UuidLen
    requires CanonicalFields(AsBytes(u)) == WireFields(w)
    ensures Decode<E>(Success(w)) == Success(u)
  {
    DecodePreservesFields<E>(w);
    CanonicalFieldsInjective(AsBytes(Decode<E>(Success(w)).value), AsBytes(u));
  }
}
