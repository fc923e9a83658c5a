# SQL Server UUID codec

A Dafny model of how sqlx's SQL Server driver encodes and decodes a `Uuid`
for a `uniqueidentifier` column (`sqlx-core/src/mssql/types/uuid.rs`).

A UUID is 16 bytes. In the canonical layout (section 4.1.2 of RFC 4122)
its three leading groups of 4, 2 and 2 bytes are big-endian. SQL Server
sends the same value as a GUID structure (section 2.3.4 of MS-DTYP), which
stores those three groups little-endian. The last 8 bytes are the same in
both layouts. The driver moves between the two layouts with one fixed
reordering, `reorder_bytes`, made of four swaps. Encoding and decoding both
use it.

Files:

- `wrappers.dfy`: module `Wrappers`, the `Result` type that stands in for
  Rust's `Result`.
- `bytes.dfy`: module `Bytes`. It holds `Swap` (as `<[u8]>::swap`),
  `Reverse`, and the big-endian and little-endian readings of a byte group,
  with their lemmas.
- `type_info.dfy`: module `ProtocolTypeInfo`, the protocol's column type
  descriptor (a tag plus a size).
- `uuid.dfy`: module `MssqlUuid`, the codec. It holds `ReorderBytes`,
  `EncodeByRef`, `Decode`, `UuidTypeInfo` and `Compatible`, plus the
  round-trip lemmas.
- `guid_layout.dfy`: module `GuidLayout`, what the bytes mean. It reads the
  bytes as GUID fields (`Data1`, `Data2`, `Data3`, `Data4`) in each layout
  and proves the reordering keeps the fields.

Modelling choices:

- A `Uuid` is its 16 canonical bytes (`Bytes16`, a subset type of
  `seq<bv8>`). `FromBytes` and `AsBytes` are identity wrappers.
- The caller's output `Vec<u8>` is a value. `EncodeByRef` returns the
  grown buffer together with the `IsNull` marker.
- `MssqlValueRef::as_bytes` is not part of this model. `Decode` takes the
  accessor's outcome as its input, a `Result<seq<bv8>, E>`. The accessor's
  error type `E` is left generic and is passed on unchanged.
- Rust's boxed error becomes `DecodeError<E>`. It is either
  `AccessFailed(cause)` or `WrongLength`, the failure of
  `uuid::Bytes::try_from`.

## Model

| member | source | states |
|---|---|---|
| Bytes.Swap | sqlx-core/src/mssql/types/uuid.rs:44-47 | Positions i and j are exchanged; every other position and the length are unchanged. Its requires, both indices below the length, stands in for the out-of-bounds panic of `<[u8]>::swap`; every call passes constants below 16, so no reachable behaviour is lost. |
| MssqlUuid.ReorderBytes | sqlx-core/src/mssql/types/uuid.rs:43-48 | The result is the input with positions 0↔3, 1↔2, 4↔5 and 6↔7 exchanged. Bytes 8..16 are unchanged. |
| MssqlUuid.ReorderBytesMirror | sqlx-core/src/mssql/types/uuid.rs:43-48 | Every output position `i` holds the input byte at `Mirror(i)`. `Mirror` is an independent index map that mirrors each of the groups 0..4, 4..6 and 6..8 and fixes the rest. |
| MssqlUuid.ReorderBytesInvolution | sqlx-core/src/mssql/types/uuid.rs:43-48 | Reordering twice returns the original 16 bytes, so one transform serves both directions. |
| MssqlUuid.ReorderBytesPermutes | sqlx-core/src/mssql/types/uuid.rs:43-48 | The reordering is a permutation: the output has the same multiset of bytes as the input. |
| MssqlUuid.ReorderBytesReversesGroups | sqlx-core/src/mssql/types/uuid.rs:39-48 | The result is reverse(bytes 0..4) ++ reverse(4..6) ++ reverse(6..8) ++ bytes 8..16. That is three separate group reversals, not one reversal of the first eight bytes. |
| MssqlUuid.ReorderBytesExample | sqlx-core/src/mssql/types/uuid.rs:43-48 | The input 0,1,...,15 becomes 3,2,1,0,5,4,7,6,8,...,15. |
| MssqlUuid.UuidTypeInfo | sqlx-core/src/mssql/types/uuid.rs:12-14 | The declared column type has tag `Guid` and size 16. |
| MssqlUuid.Compatible | sqlx-core/src/mssql/types/uuid.rs:16-18 | A descriptor is compatible exactly when its tag equals the declared type's tag, in both directions. |
| MssqlUuid.CompatibleIgnoresSize | sqlx-core/src/mssql/types/uuid.rs:12-18 | The declared type is itself compatible. Changing a descriptor's size never changes the answer. |
| MssqlUuid.EncodeByRef | sqlx-core/src/mssql/types/uuid.rs:21-27 | Encoding always reports `IsNull::No` and cannot fail. It keeps the existing buffer as a prefix and appends exactly 16 bytes. Appended byte `i` is the UUID's byte at `Mirror(i)`. |
| MssqlUuid.TryIntoBytes16 | sqlx-core/src/mssql/types/uuid.rs:32 | Conversion to a 16-byte array succeeds exactly when the slice has 16 bytes, and it keeps those bytes. |
| MssqlUuid.Decode | sqlx-core/src/mssql/types/uuid.rs:30-36 | An accessor error comes back unchanged as `AccessFailed`. A slice of any length other than 16 gives `WrongLength` and no value. Decode succeeds exactly for a 16-byte slice, and then byte `i` of the UUID is the wire byte at `Mirror(i)`. |
| MssqlUuid.DecodeEncode | sqlx-core/src/mssql/types/uuid.rs:21-36 | Decoding the 16 bytes that an encode appended returns the original UUID, whatever the buffer held before. |
| MssqlUuid.EncodeDecode | sqlx-core/src/mssql/types/uuid.rs:21-36 | Every 16-byte wire value decodes. Re-encoding the result appends exactly that wire value. |
| MssqlUuid.EncodeInjective | sqlx-core/src/mssql/types/uuid.rs:21-27 | Two UUIDs with the same wire form are equal. |
| Bytes.LittleEndianOfReverse | sqlx-core/src/mssql/types/uuid.rs:39-40 | A byte group read little-endian after reversal has the same value as the group read big-endian. |
| Bytes.BigEndianOfReverse | sqlx-core/src/mssql/types/uuid.rs:39-40 | A byte group read big-endian after reversal has the same value as the group read little-endian. |
| Bytes.BigEndianInjective | sqlx-core/src/mssql/types/uuid.rs:39-40 | Two groups of equal length with the same big-endian value are equal. |
| GuidLayout.CanonicalFieldsInjective | sqlx-core/src/mssql/types/uuid.rs:39-40 | The GUID fields read from the canonical layout determine the 16 bytes. |
| GuidLayout.WireFieldsOfReorder | sqlx-core/src/mssql/types/uuid.rs:39-48 | Reordering canonical bytes gives wire bytes that, read in the GUID layout, have the same fields as the canonical reading. |
| GuidLayout.CanonicalFieldsOfReorder | sqlx-core/src/mssql/types/uuid.rs:39-48 | Reordering wire bytes gives canonical bytes that, read in the UUID layout, have the same fields as the wire reading. |
| GuidLayout.EncodePreservesFields | sqlx-core/src/mssql/types/uuid.rs:21-27 | The 16 bytes an encode appends carry the UUID's `Data1`..`Data4` in the GUID layout. |
| GuidLayout.DecodeByFields | sqlx-core/src/mssql/types/uuid.rs:30-36 | A 16-byte wire value decodes to exactly the UUID whose canonical fields equal the wire fields. |
| GuidLayout.DecodePreservesFields | sqlx-core/src/mssql/types/uuid.rs:30-36 | Every 16-byte wire value decodes, and the UUID keeps the fields the wire bytes held. |

## Left out

- The `uuid` crate's internals: `Uuid` is its 16 bytes, and `as_bytes` and `from_bytes` are identity wrappers.
- `MssqlValueRef::as_bytes`, rows, connections and the rest of the TDS protocol are not part of this model. The accessor's outcome is an input to `Decode`.
- The generic `Type`/`Encode`/`Decode` trait dispatch and the `BoxDynError` type erasure are not modelled. The operations are plain functions with an explicit error datatype.
- The full `DataType` registry is not part of this model. Three other tags stand in for the non-GUID tags, and `TypeInfo` keeps only the tag and the size. The size is a `nat` rather than the protocol's fixed-width integer, which makes no difference for the constant 16.
- The `MssqlTypeInfo` newtype around the protocol's `TypeInfo` is collapsed into `TypeInfo` itself: `UuidTypeInfo` returns the inner descriptor and `Compatible` reads its tag directly, where the source goes through `.0`.
- The in-place mutation of `reorder_bytes(&mut bytes)` is modelled as a pure function on a 16-byte value, which is what the mutation computes.
