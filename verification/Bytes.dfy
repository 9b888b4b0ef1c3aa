/** Bytes as numbers. */
module Bytes {
  function ByteOf(m: nat): bv8
    requires m < 256
  {
    m as bv8
  }

  function Value(b: bv8): nat {
    b as int
  }

  lemma ThereAndBack(m: nat)
    requires m < 256
    ensures (m as bv8) as int == m
  {
  }

  lemma ByteValue(m: nat)
    requires m < 256
    ensures Value(ByteOf(m)) == m
  {
    ThereAndBack(m);
  }

  lemma ByteBound(b: bv8)
    ensures Value(b) < 256
  {
  }
}
