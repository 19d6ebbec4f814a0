/** The bit vectors that nodes own: allocation filled with zeros and the bit-by-bit deep copy. */
module BitVectors {

  /** new pasta::BitVector(n, 0): a fresh vector of n zero bits. */
  method Zeros(n: nat) returns (bv: array<bool>)
    ensures fresh(bv)
    ensures bv.Length == n && forall j :: 0 <= j < n ==> !bv[j]
  {
    bv := new bool[n](_ => false);
  }

  /** A fresh vector of src's size, then each bit copied in a loop. */
  method CopyBits(src: array<bool>) returns (dst: array<bool>)
    ensures fresh(dst)
    ensures dst.Length == src.Length && dst[..] == src[..]
  {
    dst := Zeros(src.Length);
    for i := 0 to src.Length
      invariant forall j :: 0 <= j < i ==> dst[j] == src[j]
    {
      dst[i] := src[i];
    }
  }
}
