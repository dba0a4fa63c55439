/** `BytesBuffer` of src_py/hat/util/bytes.py (and its older copy in
    src_py/hat/util.py): a queue of non-empty byte chunks and the total of
    their lengths. Adding appends a chunk; reading takes whole chunks from
    the front and splits the one that straddles the requested length. */
module BytesBuffer {
  import opened CMem

  /** The bytes of the chunks, in order. */
  function Concat(chunks: seq<seq<byte>>): seq<byte> {
    if chunks == [] then [] else chunks[0] + Concat(chunks[1..])
  }

  lemma {:induction false} ConcatAppend(a: seq<seq<byte>>, b: seq<seq<byte>>)
    ensures Concat(a + b) == Concat(a) + Concat(b)
    decreases |a|
  {
    if a == [] {
      assert a + b == b;
    } else {
      assert (a + b)[1..] == a[1..] + b;
      ConcatAppend(a[1..], b);
    }
  }

  lemma ConcatOne(x: seq<byte>)
    ensures Concat([x]) == x
  {
    assert [x][1..] == [];
  }

  predicate NoEmptyChunk(chunks: seq<seq<byte>>) {
    forall i :: 0 <= i < |chunks| ==> chunks[i] != []
  }

  /** Moving the first chunk whole into `data` keeps the bytes in order. */
  lemma TakeWhole(data: seq<seq<byte>>, chunks: seq<seq<byte>>)
    requires chunks != [] && NoEmptyChunk(chunks)
    ensures Concat(data + [chunks[0]]) + Concat(chunks[1..]) == Concat(data) + Concat(chunks)
    ensures |Concat(data + [chunks[0]])| == |Concat(data)| + |chunks[0]|
    ensures NoEmptyChunk(chunks[1..])
  {
    assert Concat(chunks) == chunks[0] + Concat(chunks[1..]);
    ConcatAppend(data, [chunks[0]]);
    ConcatOne(chunks[0]);
  }

  /** Moving the first `m` bytes of the first chunk into `data`, the rest of
      it staying in front, keeps the bytes in order. */
  lemma TakeSplit(data: seq<seq<byte>>, chunks: seq<seq<byte>>, m: nat)
    requires chunks != [] && NoEmptyChunk(chunks) && m < |chunks[0]|
    ensures var h := chunks[0];
      Concat(data + [h[..m]]) + Concat([h[m..]] + chunks[1..]) == Concat(data) + Concat(chunks) &&
      |Concat(data + [h[..m]])| == |Concat(data)| + m &&
      NoEmptyChunk([h[m..]] + chunks[1..])
  {
    var h, tail := chunks[0], chunks[1..];
    var rest := [h[m..]] + tail;
    assert Concat(chunks) == h + Concat(tail);
    ConcatAppend(data, [h[..m]]);
    ConcatOne(h[..m]);
    assert rest[0] == h[m..] && rest[1..] == tail;
    assert Concat(rest) == h[m..] + Concat(tail);
    assert h == h[..m] + h[m..];
    assert forall i :: 1 <= i < |rest| ==> rest[i] == chunks[i];
  }

  class BytesBuffer {
    var chunks: seq<seq<byte>>
    var dataLen: nat

    /** `_data_len` is the total length, and no chunk is empty. */
    ghost predicate Valid()
      reads this
    {
      dataLen == |Concat(chunks)| && NoEmptyChunk(chunks)
    }

    ghost function Contents(): seq<byte>
      reads this
    {
      Concat(chunks)
    }

    constructor ()
      ensures Valid() && Contents() == []
    {
      chunks := [];
      dataLen := 0;
    }

    /** `__len__`. */
    function Len(): (r: nat)
      reads this
      requires Valid()
      ensures r == |Contents()|
    {
      dataLen
    }

    /** `add`: empty data is ignored, anything else is appended. */
    method Add(data: seq<byte>)
      requires Valid()
      modifies this
      ensures Valid()
      ensures Contents() == old(Contents()) + data
      ensures data == [] ==> chunks == old(chunks)
    {
      if data == [] {
        return;
      }
      ConcatAppend(chunks, [data]);
      ConcatOne(data);
      chunks := chunks + [data];
      dataLen := dataLen + |data|;
    }

    /** `read`: the first `n` bytes, or everything when `n` is negative or
        at least the length; what is returned is gone from the buffer. */
    method Read(n: int) returns (r: seq<byte>)
      requires Valid()
      modifies this
      ensures Valid()
      ensures var k := if n < 0 || n >= old(dataLen) then old(dataLen) else n;
        r == old(Contents())[..k] && Contents() == old(Contents())[k..]
      ensures n == 0 ==> r == [] && chunks == old(chunks)
    {
      if n == 0 {
        return [];
      }
      ghost var all := Contents();
      var data: seq<seq<byte>>;
      var total: nat;
      if n < 0 || n >= dataLen {
        data, chunks := chunks, [];
        total, dataLen := dataLen, 0;
        assert all[..|all|] == all;
      } else {
        data := [];
        total := 0;
        while total < n
          invariant 0 <= total <= n < |all|
          invariant Valid()
          invariant Concat(data) + Concat(chunks) == all
          invariant |Concat(data)| == total
          decreases n - total
        {
          var head := chunks[0];
          if total + |head| <= n {
            TakeWhole(data, chunks);
          } else {
            TakeSplit(data, chunks, n - total);
          }
          chunks := chunks[1..];
          dataLen := dataLen - |head|;
          if total + |head| <= n {
            data := data + [head];
            total := total + |head|;
          } else {
            var head1, head2 := head[..n - total], head[n - total..];
            data := data + [head1];
            total := total + |head1|;
            chunks := [head2] + chunks;
            dataLen := dataLen + |head2|;
          }
        }
        assert all[..n] == Concat(data);
      }
      r := JoinChunks(data, total);
    }

    /** `clear`: empty the buffer and return how many bytes it held. */
    method Clear() returns (r: nat)
      requires Valid()
      modifies this
      ensures Valid()
      ensures r == |old(Contents())| && Contents() == []
    {
      chunks := [];
      r, dataLen := dataLen, 0;
    }
  }

  /** The end of `read`: no chunk gives no bytes, one chunk is returned as
      it is, and more are copied one after the other into a fresh buffer of
      `total` bytes. */
  method JoinChunks(data: seq<seq<byte>>, total: nat) returns (r: seq<byte>)
    requires total == |Concat(data)|
    ensures r == Concat(data)
  {
    if |data| < 1 {
      return [];
    }
    if |data| < 2 {
      ConcatOne(data[0]);
      assert data == [data[0]];
      return data[0];
    }
    var bytes := new byte[total];
    var off := 0;
    var q := 0;
    while q < |data|
      invariant 0 <= q <= |data|
      invariant off == |Concat(data[..q])| <= total
      invariant bytes[..off] == Concat(data[..q])
    {
      var head := data[q];
      assert data[..q + 1] == data[..q] + [head];
      ConcatAppend(data[..q], [head]);
      ConcatOne(head);
      assert data == data[..q + 1] + data[q + 1..];
      ConcatAppend(data[..q + 1], data[q + 1..]);
      forall k | 0 <= k < |head| {
        bytes[off + k] := head[k];
      }
      off := off + |head|;
      q := q + 1;
    }
    assert data[..q] == data;
    assert bytes[..] == bytes[..off];
    r := bytes[..];
  }
}
