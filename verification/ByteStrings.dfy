/** Byte strings and 32-bit integers. */
module ByteStrings {
  const HALF := 0x8000_0000  // 2^31

  ghost predicate IsInt32(v: int) {
    -HALF <= v < HALF
  }

  ghost predicate Bytes(bs: seq<int>) {
    forall i :: 0 <= i < |bs| ==> 0 <= bs[i] < 256
  }

  function Zeros(n: nat): seq<int> {
    seq(n, _ => 0)
  }

  lemma Assoc(a: seq<int>, b: seq<int>, c: seq<int>)
    ensures a + b + c == a + (b + c)
  {
  }
}
