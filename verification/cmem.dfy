/** Bytes and `memcpy`, shared by the C containers. */
module CMem {
  /** `uint8_t`. */
  type byte = bv8

  /** `memcpy(dst + dstOff, src + srcOff, n)` between two distinct buffers:
      the `n` bytes land at `dstOff`, every other byte of `dst` is kept. */
  method Memcpy(dst: array<byte>, dstOff: nat, src: array<byte>, srcOff: nat, n: nat)
    requires dst != src
    requires dstOff + n <= dst.Length && srcOff + n <= src.Length
    modifies dst
    ensures forall i :: 0 <= i < dst.Length ==>
      dst[i] == if dstOff <= i < dstOff + n then src[srcOff + i - dstOff] else old(dst[i])
  {
    var i := 0;
    while i < n
      invariant 0 <= i <= n
      invariant forall j :: 0 <= j < dst.Length ==>
        dst[j] == if dstOff <= j < dstOff + i then src[srcOff + j - dstOff] else old(dst[j])
    {
      dst[dstOff + i] := src[srcOff + i];
      i := i + 1;
    }
  }
}
