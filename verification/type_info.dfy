/**
 * Column type descriptors of the TDS protocol, reduced to the tag and the
 * declared byte length. Only a handful of the protocol's tags are listed;
 * they are enough to tell the GUID tag apart from the others.
 */
module ProtocolTypeInfo {

  /** Column type tags: the GUID column (`uniqueidentifier`) and a few others. */
  datatype DataType = Guid | IntN | NVarChar | BigVarBinary

  /** A column type descriptor, built as `TypeInfo::new(ty, size)`. */
  datatype TypeInfo = TypeInfo(ty: DataType, size: nat)
}
