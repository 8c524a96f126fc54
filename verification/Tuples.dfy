/** Typed rows. */
module Tuples {
  import opened Bytes
  import opened BPlusNodes

  /** std::string: bytes, compared as bytes. */
  type Text = seq<byte>

  datatype DataType = Integer | Text | Boolean

  datatype Column = Column(name: Text, dataType: DataType, nullable: bool)

  type Schema = seq<Column>

  datatype Value = Null | IntValue(i: int64) | TextValue(s: Text) | BoolValue(b: bool)

  type Tuple = seq<Value>
}
