/** File contents and cipher texts: sequences of bytes. */
module ByteStrings {
  type Bytes = seq<bv8>
}
