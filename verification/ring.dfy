/** The byte ring buffer of src_c/hat/ring.c. The buffer holds `size + 1`
    bytes; `head` and `tail` are offsets in it, and the stored bytes are
    the ones after `head` up to and including `tail`, going round. */
module Ring {
  import opened CMem

  /** `i % m` for an `i` below `2 * m`. */
  function Wrap(i: nat, m: nat): (r: nat)
    requires i < 2 * m
    ensures r < m
    ensures r == if i < m then i else i - m
  {
    if i < m then i else i - m
  }

  lemma ModIsWrap(i: nat, m: nat)
    requires i < 2 * m
    ensures i % m == Wrap(i, m)
  {
    if i >= m {
      assert i == m * 1 + (i - m);
    } else {
      assert i == m * 0 + i;
    }
  }

  /** The number of bytes stored between `head` and `tail` in a buffer of
      `m` bytes. */
  function Distance(m: nat, head: nat, tail: nat): (r: nat)
    requires head < m && tail < m
    ensures r < m
    ensures Wrap(head + r, m) == tail
  {
    if head <= tail then tail - head else m - (head - tail)
  }

  class Ring {
    const size: nat
    const data: array<byte>
    var head: nat
    var tail: nat

    ghost predicate Valid()
      reads this
    {
      data.Length == size + 1 && head <= size && tail <= size
    }

    /** `hat_ring_len`: going forward `len` bytes from `head` reaches `tail`,
        and at most `size` bytes are stored. */
    function Len(): (r: nat)
      reads this
      requires Valid()
      ensures r <= size
      ensures Wrap(head + r, size + 1) == tail
    {
      if head <= tail then tail - head else size + 1 - (head - tail)
    }

    /** The stored bytes, oldest first. */
    ghost function Contents(): seq<byte>
      reads this, data
      requires Valid()
    {
      var h, n, m := head, Len(), size + 1;
      seq(n, k requires 0 <= k < n reads data => data[Wrap(h + 1 + k, m)])
    }

    /** The first `m` free bytes after `tail`, which advancing the tail
        would expose. */
    ghost function Free(m: nat): seq<byte>
      reads this, data
      requires Valid() && m <= size - Len()
    {
      var t, w := tail, size + 1;
      seq(m, j requires 0 <= j < m reads data => data[Wrap(t + 1 + j, w)])
    }

    /** `hat_ring_create`, for an allocation that succeeds. */
    constructor (size: nat)
      ensures Valid() && this.size == size && Contents() == []
    {
      this.size := size;
      data := new byte[size + 1];
      head := 0;
      tail := 0;
    }

    /** The internal `move_head`: advance `head` modulo `size + 1`. */
    method MoveHeadBy(len: nat)
      requires Valid()
      modifies this
      ensures Valid()
      ensures head == (old(head) + len) % (size + 1) && tail == old(tail)
    {
      head := (head + len) % (size + 1);
    }

    /** The internal `move_tail`: advance `tail` modulo `size + 1`. */
    method MoveTailBy(len: nat)
      requires Valid()
      modifies this
      ensures Valid()
      ensures tail == (old(tail) + len) % (size + 1) && head == old(head)
    {
      tail := (tail + len) % (size + 1);
    }

    /** `hat_ring_move_head`: drop up to `len` of the oldest bytes. */
    method MoveHead(len: nat)
      requires Valid()
      modifies this
      ensures Valid()
      ensures Contents() == old(Contents())[(if len < old(Len()) then len else old(Len()))..]
    {
      var maxLen := Len();
      ghost var before := Contents();
      var m := if len < maxLen then len else maxLen;
      ghost var oldHead := head;
      MoveHeadBy(m);
      AfterHeadAdvance(before, oldHead, m);
    }

    /** `hat_ring_move_tail`: take up to `len` free bytes into the ring, as
        they are in the buffer. */
    method MoveTail(len: nat)
      requires Valid()
      modifies this
      ensures Valid()
      ensures var m := if len < size - old(Len()) then len else size - old(Len());
        Contents() == old(Contents() + Free(m))
    {
      var maxLen := size - Len();
      var m := if len < maxLen then len else maxLen;
      ghost var before := Contents() + Free(m);
      ghost var oldLen, oldTail := Len(), tail;
      forall k | 0 <= k < |before|
        ensures before[k] == data[Wrap(head + 1 + k, size + 1)]
      {
        if k >= oldLen {
          assert Wrap(head + 1 + k, size + 1) == Wrap(oldTail + 1 + (k - oldLen), size + 1);
        }
      }
      MoveTailBy(m);
      AfterTailAdvance(before, oldTail, m);
    }

    /** After `head` has moved `m` bytes forward, the stored bytes are the
        old ones without the first `m`. */
    lemma AfterHeadAdvance(before: seq<byte>, oldHead: nat, m: nat)
      requires Valid()
      requires oldHead <= size && m <= |before|
      requires head == (oldHead + m) % (size + 1)
      requires |before| == Distance(size + 1, oldHead, tail)
      requires forall k :: 0 <= k < |before| ==> before[k] == data[Wrap(oldHead + 1 + k, size + 1)]
      ensures Contents() == before[m..]
    {
      ModIsWrap(oldHead + m, size + 1);
      assert Len() == |before| - m;
      forall k | 0 <= k < Len()
        ensures Contents()[k] == before[m + k]
      {
        assert Wrap(head + 1 + k, size + 1) == Wrap(oldHead + 1 + m + k, size + 1);
      }
    }

    /** `hat_ring_read`: copy out and drop the `min(dataLen, len)` oldest
        bytes. */
    method Read(dst: array<byte>, dataLen: nat) returns (n: nat)
      requires Valid() && dst != data && dataLen <= dst.Length
      modifies this, dst
      ensures Valid()
      ensures n == if dataLen < old(Len()) then dataLen else old(Len())
      ensures dst[..n] == old(Contents())[..n]
      ensures dst[n..] == old(dst[n..])
      ensures Contents() == old(Contents())[n..]
    {
      var maxLen := Len();
      n := dataLen;
      if n > maxLen {
        n := maxLen;
      }
      if n == 0 {
        return 0;
      }
      ghost var before := Contents();
      var h := head;
      CopyOut(dst, h, n);
      assert dst[..n] == before[..n];
      MoveHeadBy(n);
      AfterHeadAdvance(before, h, n);
    }

    /** The copy of Read: the `n` bytes after `h` go to the start of `dst`,
        with one `memcpy` or, when they go round, two. */
    method CopyOut(dst: array<byte>, h: nat, n: nat)
      requires Valid() && dst != data && h <= size && n <= size && n <= dst.Length
      modifies dst
      ensures forall j :: 0 <= j < n ==> dst[j] == data[Wrap(h + 1 + j, size + 1)]
      ensures dst[n..] == old(dst[n..])
    {
      if size - h >= n {
        Memcpy(dst, 0, data, h + 1, n);
      } else {
        Memcpy(dst, 0, data, h + 1, size - h);
        Memcpy(dst, size - h, data, 0, n - size + h);
      }
      forall j | 0 <= j < n
        ensures dst[j] == data[Wrap(h + 1 + j, size + 1)]
      {
        if j < size - h {
          assert Wrap(h + 1 + j, size + 1) == h + 1 + j;
        } else {
          assert Wrap(h + 1 + j, size + 1) == j - (size - h);
        }
      }
    }

    /** `hat_ring_write`: append the first `min(dataLen, size - len)` bytes
        of `src`. */
    method Write(src: array<byte>, dataLen: nat) returns (n: nat)
      requires Valid() && src != data && dataLen <= src.Length
      modifies this, data
      ensures Valid()
      ensures n == if dataLen < size - old(Len()) then dataLen else size - old(Len())
      ensures Contents() == old(Contents()) + src[..n]
    {
      var maxLen := size - Len();
      n := dataLen;
      if n > maxLen {
        n := maxLen;
      }
      if n == 0 {
        return 0;
      }
      ghost var before := Contents();
      ghost var oldLen := Len();
      var t := tail;
      CopyIn(src, t, n);
      ghost var after := before + src[..n];
      forall k | 0 <= k < |after|
        ensures after[k] == data[Wrap(head + 1 + k, size + 1)]
      {
        if k < oldLen {
          assert !Written(Wrap(head + 1 + k, size + 1), t, n);
        } else {
          assert Wrap(head + 1 + k, size + 1) == Wrap(t + 1 + (k - oldLen), size + 1);
        }
      }
      MoveTailBy(n);
      AfterTailAdvance(after, t, n);
    }

    /** After `tail` has moved `m` bytes forward, the stored bytes are the
        old ones followed by the `m` bytes that were free after it. */
    lemma AfterTailAdvance(after: seq<byte>, oldTail: nat, m: nat)
      requires Valid() && oldTail <= size
      requires tail == (oldTail + m) % (size + 1)
      requires |after| == Distance(size + 1, head, oldTail) + m <= size
      requires forall k :: 0 <= k < |after| ==> after[k] == data[Wrap(head + 1 + k, size + 1)]
      ensures Contents() == after
    {
      ModIsWrap(oldTail + m, size + 1);
      assert Len() == |after|;
    }

    /** Whether position `p` is among the `n` positions after `t`, going
        round. */
    ghost predicate Written(p: nat, t: nat, n: nat)
      reads this
    {
      (t + 1 <= p < t + 1 + n) || (p + size + 1 < t + 1 + n)
    }

    /** The copy of Write: the first `n` bytes of `src` go to the `n`
        positions after `t`, with one `memcpy` or, when they go round, two. */
    method CopyIn(src: array<byte>, t: nat, n: nat)
      requires Valid() && src != data && t <= size && n <= size && n <= src.Length
      modifies data
      ensures forall j :: 0 <= j < n ==> data[Wrap(t + 1 + j, size + 1)] == src[j]
      ensures forall p :: 0 <= p < data.Length && !Written(p, t, n) ==> data[p] == old(data[p])
    {
      if size - t >= n {
        Memcpy(data, t + 1, src, 0, n);
      } else {
        Memcpy(data, t + 1, src, 0, size - t);
        Memcpy(data, 0, src, size - t, n - size + t);
      }
      forall j | 0 <= j < n
        ensures data[Wrap(t + 1 + j, size + 1)] == src[j]
      {
        if j < size - t {
          assert Wrap(t + 1 + j, size + 1) == t + 1 + j;
        } else {
          assert Wrap(t + 1 + j, size + 1) == j - (size - t);
        }
      }
    }

    /** `hat_ring_used`: the stored bytes as at most two regions of the
        buffer, the second always at its start. */
    method Used() returns (start0: nat, len0: nat, start1: nat, len1: nat)
      requires Valid()
      ensures start1 == 0 && start0 + len0 <= data.Length && len1 <= data.Length
      ensures len0 + len1 == Len()
      ensures data[start0..start0 + len0] + data[start1..start1 + len1] == Contents()
    {
      var h := head;
      var usedLen := Len();
      start0 := if h == size then 0 else h + 1;
      start1 := 0;
      if usedLen <= size - h || h == size {
        len0, len1 := usedLen, 0;
      } else {
        len0, len1 := size - h, usedLen - size + h;
      }
      var regions := data[start0..start0 + len0] + data[start1..start1 + len1];
      forall k | 0 <= k < usedLen
        ensures regions[k] == Contents()[k]
      {
        var p := Wrap(h + 1 + k, size + 1);
        if k < len0 {
          assert p == start0 + k;
        } else {
          assert p == k - len0;
        }
      }
    }

    /** `hat_ring_unused`: the free bytes after the tail as at most two
        regions of the buffer, the second always at its start. */
    method Unused() returns (start0: nat, len0: nat, start1: nat, len1: nat)
      requires Valid()
      ensures start1 == 0 && start0 + len0 <= data.Length && len1 <= data.Length
      ensures len0 + len1 == size - Len()
      ensures data[start0..start0 + len0] + data[start1..start1 + len1] == Free(size - Len())
    {
      var t := tail;
      var unusedLen := size - Len();
      start0 := if t == size then 0 else t + 1;
      start1 := 0;
      if unusedLen <= size - t || t == size {
        len0, len1 := unusedLen, 0;
      } else {
        len0, len1 := size - t, unusedLen - size + t;
      }
      var regions := data[start0..start0 + len0] + data[start1..start1 + len1];
      forall k | 0 <= k < unusedLen
        ensures regions[k] == Free(unusedLen)[k]
      {
        var p := Wrap(t + 1 + k, size + 1);
        if k < len0 {
          assert p == start0 + k;
        } else {
          assert p == k - len0;
        }
      }
    }
  }
}
