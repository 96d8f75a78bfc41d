/** Bytes and byte strings. */
module ByteStrings {

  type Byte = n: nat | n < 256

  type Bytes = seq<Byte>

  function At(s: Bytes, i: nat): nat
    requires i < |s|
  {
    s[i]
  }
}
