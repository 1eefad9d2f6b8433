/** Bytes and strings of them. */
module ByteStrings {
  type Byte = x: nat | x < 256

  type Bytes = seq<Byte>
}
