/** The linear byte buffer of src_c/hat/buff.h: `size` bytes of storage
    and a position that writes fill from and reads consume from. */
module Buff {
  import opened Wrappers
  import opened CMem

  class Buff {
    const data: array<byte>
    const size: nat
    var pos: nat

    /** The storage holds at least `size` bytes. */
    ghost predicate Valid()
      reads this
    {
      size <= data.Length
    }

    constructor (data: array<byte>, size: nat, pos: nat)
      requires size <= data.Length
      ensures Valid() && this.data == data && this.size == size && this.pos == pos
    {
      this.data := data;
      this.size := size;
      this.pos := pos;
    }

    /** `hat_buff_available`: the room between the position and the end,
        none once the position has reached or passed it. */
    function Available(): (r: nat)
      reads this
      ensures r <= size
      ensures pos <= size ==> pos + r == size
      ensures pos >= size ==> r == 0
    {
      if size > pos then size - pos else 0
    }

    /** `hat_buff_write`: copy `dataLen` bytes of `src` to the position
        and advance it when they fit; otherwise change nothing. */
    method Write(src: array<byte>, dataLen: nat) returns (ok: bool)
      requires Valid() && src != data && dataLen <= src.Length
      modifies this, data
      ensures Valid()
      ensures ok <==> old(Available()) >= dataLen
      ensures pos == if ok then old(pos) + dataLen else old(pos)
      ensures forall i :: 0 <= i < data.Length ==>
        data[i] == if ok && old(pos) <= i < old(pos) + dataLen then src[i - old(pos)] else old(data[i])
      ensures old(pos) <= size ==> pos <= size
    {
      if Available() < dataLen {
        return false;
      }
      if dataLen > 0 {
        Memcpy(data, pos, src, 0, dataLen);
      }
      pos := pos + dataLen;
      ok := true;
    }

    /** `hat_buff_read`: the offset of the next `n` bytes, consumed, when
        that many are available; otherwise None (`NULL`) and nothing
        changes. */
    method Read(n: nat) returns (r: Option<nat>)
      requires Valid()
      modifies this
      ensures Valid()
      ensures r.Some? <==> old(Available()) >= n
      ensures r.Some? ==> r.value == old(pos) && pos == old(pos) + n
      ensures r.None? ==> pos == old(pos)
      ensures r.Some? && n > 0 ==> r.value + n <= size
      ensures old(pos) <= size ==> pos <= size
    {
      if Available() < n {
        return None;
      }
      r := Some(pos);
      pos := pos + n;
    }
  }
}
