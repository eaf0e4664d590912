/** Bytes as bit vectors and as integers. */
module Bytes {
  lemma ByteOfInt(k: int)
    requires 0 <= k < 256
    ensures (k as bv8) as int == k
  {
  }

  lemma IntOfByte(x: bv8)
    ensures 0 <= x as int < 256 && (x as int) as bv8 == x
  {
  }
}
