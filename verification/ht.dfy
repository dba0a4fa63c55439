/** The chained hash table of src_c/hat/ht.c. Keys are byte strings hashed
    with 64-bit FNV-1a; every element lives in the chain of slot
    `hash % cap`. The linked chains become sequences of entries held in an
    array of slots, and the values (`void *` in C) a type parameter. */
module HashTable {
  import opened Wrappers
  import opened CMem

  /** `size_t` on a 64-bit target. */
  const Word: nat := 0x1_0000_0000_0000_0000
  const FnvPrime: nat := 1099511628211
  const FnvBasis: nat := 14695981039346656037

  /** `hash ^= byte`: only the low eight bits of the hash change. */
  function XorByte(h: nat, b: byte): (r: nat)
    ensures r / 256 == h / 256
    ensures r % 256 == ((h % 256) as byte ^ b) as int
  {
    var low := (h % 256) as byte;
    var x := (low ^ b) as int;
    DivModLow(h / 256, x);
    h / 256 * 256 + x
  }

  lemma DivModLow(q: nat, x: nat)
    requires x < 256
    ensures (q * 256 + x) / 256 == q && (q * 256 + x) % 256 == x
  {
  }

  /** One round of FNV-1a: xor the byte in, then multiply by the prime,
      wrapping at the word size. */
  function FnvStep(h: nat, b: byte): (r: nat)
    ensures r < Word
  {
    XorByte(h, b) * FnvPrime % Word
  }

  /** The 64-bit FNV-1a hash of a key. */
  function Fnv(key: seq<byte>): (r: nat)
    ensures r < Word
  {
    if key == [] then FnvBasis else FnvStep(Fnv(key[..|key| - 1]), key[|key| - 1])
  }

  lemma FnvSnoc(key: seq<byte>, i: nat)
    requires i < |key|
    ensures Fnv(key[..i + 1]) == FnvStep(Fnv(key[..i]), key[i])
  {
    assert key[..i + 1][..i] == key[..i];
  }

  /** `hash_function`: the byte loop computes FNV-1a. */
  method HashFunction(key: seq<byte>) returns (hash: nat)
    ensures hash == Fnv(key)
    ensures hash < Word
  {
    hash := FnvBasis;
    var i := 0;
    while i < |key|
      invariant 0 <= i <= |key|
      invariant hash == Fnv(key[..i])
    {
      FnvSnoc(key, i);
      hash := XorByte(hash, key[i]);
      hash := hash * FnvPrime % Word;
      i := i + 1;
    }
    assert key[..i] == key;
  }

  /** The published FNV-1a 64-bit test vector for the one-byte key "a". */
  lemma FnvOfA()
    ensures Fnv([0x61]) == 0xaf63dc4c8601ec8c
  {
    assert [0x61 as byte][..0] == [];
    assert XorByte(FnvBasis, 0x61) == 0xcbf29ce484222344;
  }

  /** A stored element: its cached hash, its key and its value. */
  datatype Entry<V> = Entry(hash: nat, key: seq<byte>, value: V)

  /** The comparison of the chain walks: same hash, same size, same bytes. */
  predicate Matches<V>(e: Entry<V>, hash: nat, key: seq<byte>) {
    e.hash == hash && |e.key| == |key| && e.key == key
  }

  /** The value the first element of a chain with the key holds. */
  function Lookup<V>(chain: seq<Entry<V>>, key: seq<byte>): Option<V> {
    if chain == [] then None
    else if chain[0].key == key then Some(chain[0].value)
    else Lookup(chain[1..], key)
  }

  /** The slot a key belongs to. */
  function Home(key: seq<byte>, cap: nat): (r: nat)
    requires cap >= 1
    ensures r < cap
  {
    Fnv(key) % cap
  }

  /** A chain of slot `i` in a table of `cap` slots: every element caches
      its own hash, belongs to slot `i`, and no key appears twice. */
  ghost predicate ChainOk<V>(chain: seq<Entry<V>>, i: nat, cap: nat)
    requires cap >= 1
  {
    (forall j :: 0 <= j < |chain| ==>
      chain[j].hash == Fnv(chain[j].key) && chain[j].hash % cap == i) &&
    (forall a, b :: 0 <= a < b < |chain| ==> chain[a].key != chain[b].key)
  }

  lemma {:induction false} LookupNone<V>(chain: seq<Entry<V>>, key: seq<byte>)
    ensures Lookup(chain, key).None? <==> forall j :: 0 <= j < |chain| ==> chain[j].key != key
    decreases |chain|
  {
    if chain != [] {
      LookupNone(chain[1..], key);
      if chain[0].key != key {
        forall j | 1 <= j < |chain|
          ensures chain[j] == chain[1..][j - 1]
        {
        }
      }
    }
  }

  lemma {:induction false} LookupAt<V>(chain: seq<Entry<V>>, j: nat)
    requires j < |chain|
    requires forall a, b :: 0 <= a < b < |chain| ==> chain[a].key != chain[b].key
    ensures Lookup(chain, chain[j].key) == Some(chain[j].value)
    decreases j
  {
    if j > 0 {
      assert chain[0].key != chain[j].key;
      assert chain[1..][j - 1] == chain[j];
      LookupAt(chain[1..], j - 1);
    }
  }

  /** Overwriting the value of the element at `j`. */
  lemma LookupUpdate<V>(chain: seq<Entry<V>>, j: nat, e: Entry<V>, key: seq<byte>)
    requires j < |chain| && chain[j].key == e.key
    requires forall a, b :: 0 <= a < b < |chain| ==> chain[a].key != chain[b].key
    ensures Lookup(chain[j := e], key) == if key == e.key then Some(e.value) else Lookup(chain, key)
  {
    var c := chain[j := e];
    assert forall a, b :: 0 <= a < b < |c| ==> c[a].key != c[b].key;
    if key == e.key {
      LookupAt(c, j);
    } else {
      LookupNone(chain, key);
      LookupNone(c, key);
      if Lookup(chain, key).Some? {
        var i :| 0 <= i < |chain| && chain[i].key == key;
        LookupAt(chain, i);
        LookupAt(c, i);
      }
    }
  }

  /** Linking a new element at the end of a chain that lacks its key. */
  lemma LookupAppend<V>(chain: seq<Entry<V>>, e: Entry<V>, key: seq<byte>)
    requires Lookup(chain, e.key).None?
    requires forall a, b :: 0 <= a < b < |chain| ==> chain[a].key != chain[b].key
    ensures forall a, b :: 0 <= a < b < |chain + [e]| ==> (chain + [e])[a].key != (chain + [e])[b].key
    ensures Lookup(chain + [e], key) == if key == e.key then Some(e.value) else Lookup(chain, key)
  {
    var c := chain + [e];
    LookupNone(chain, e.key);
    assert forall a, b :: 0 <= a < b < |c| ==> c[a].key != c[b].key;
    if key == e.key {
      LookupAt(c, |chain|);
    } else {
      LookupNone(chain, key);
      LookupNone(c, key);
      if Lookup(chain, key).Some? {
        var i :| 0 <= i < |chain| && chain[i].key == key;
        LookupAt(chain, i);
        LookupAt(c, i);
      }
    }
  }

  /** Linking a new element at the front of a chain that lacks its key. */
  lemma LookupPrepend<V>(chain: seq<Entry<V>>, e: Entry<V>, key: seq<byte>)
    requires Lookup(chain, e.key).None?
    requires forall a, b :: 0 <= a < b < |chain| ==> chain[a].key != chain[b].key
    ensures forall a, b :: 0 <= a < b < |[e] + chain| ==> ([e] + chain)[a].key != ([e] + chain)[b].key
    ensures Lookup([e] + chain, key) == if key == e.key then Some(e.value) else Lookup(chain, key)
  {
    var c := [e] + chain;
    LookupNone(chain, e.key);
    assert c[1..] == chain;
    forall a, b | 0 <= a < b < |c|
      ensures c[a].key != c[b].key
    {
      if a > 0 {
        assert c[a] == chain[a - 1] && c[b] == chain[b - 1];
      } else {
        assert c[b] == chain[b - 1];
      }
    }
  }

  /** Unlinking the element at `j`. */
  lemma LookupRemove<V>(chain: seq<Entry<V>>, j: nat, key: seq<byte>)
    requires j < |chain|
    requires forall a, b :: 0 <= a < b < |chain| ==> chain[a].key != chain[b].key
    ensures var c := chain[..j] + chain[j + 1..];
      (forall a, b :: 0 <= a < b < |c| ==> c[a].key != c[b].key) &&
      Lookup(c, key) == if key == chain[j].key then None else Lookup(chain, key)
  {
    var c := chain[..j] + chain[j + 1..];
    RemovedIndex(chain, j);
    assert forall a, b :: 0 <= a < b < |c| ==> c[a].key != c[b].key;
    LookupNone(chain, key);
    LookupNone(c, key);
    if Lookup(c, key).Some? {
      var i :| 0 <= i < |c| && c[i].key == key;
      LookupAt(c, i);
      LookupAt(chain, if i < j then i else i + 1);
    } else {
      forall i | 0 <= i < |chain| && i != j
        ensures chain[i].key != key
      {
        assert c[if i < j then i else i - 1] == chain[i];
      }
    }
  }

  /** What a map holds for a key. */
  function Find<V>(m: map<seq<byte>, V>, key: seq<byte>): Option<V> {
    if key in m then Some(m[key]) else None
  }

  /** Every chain of the slot array is well placed. */
  ghost predicate ChainsOk<V>(ss: seq<seq<Entry<V>>>) {
    |ss| >= 1 && forall i :: 0 <= i < |ss| ==> ChainOk(ss[i], i, |ss|)
  }

  /** Looking a key up in its home chain finds what the map holds. */
  ghost predicate Represents<V>(ss: seq<seq<Entry<V>>>, m: map<seq<byte>, V>)
    requires |ss| >= 1
  {
    forall key :: Lookup(ss[Home(key, |ss|)], key) == Find(m, key)
  }

  /** The chains are well placed, represent `m`, and hold |m| elements. */
  ghost predicate Stores<V>(ss: seq<seq<Entry<V>>>, m: map<seq<byte>, V>) {
    ChainsOk(ss) && Represents(ss, m) && TotalLen(ss) == |m|
  }

  /** The number of elements across all chains. */
  function TotalLen<V>(ss: seq<seq<Entry<V>>>): nat {
    if ss == [] then 0 else TotalLen(ss[..|ss| - 1]) + |ss[|ss| - 1]|
  }

  lemma {:induction false} TotalLenUpdate<V>(ss: seq<seq<Entry<V>>>, s: nat, c: seq<Entry<V>>)
    requires s < |ss|
    ensures TotalLen(ss[s := c]) == TotalLen(ss) - |ss[s]| + |c|
    decreases |ss|
  {
    var n := |ss| - 1;
    if s < n {
      assert ss[s := c][..n] == ss[..n][s := c];
      TotalLenUpdate(ss[..n], s, c);
    } else {
      assert ss[s := c][..n] == ss[..n];
    }
  }

  /** Replacing the chain of slot `s` changes the map only at keys whose
      home is `s`. */
  lemma RepresentsChange<V>(ss: seq<seq<Entry<V>>>, m: map<seq<byte>, V>, s: nat, c: seq<Entry<V>>, m2: map<seq<byte>, V>)
    requires |ss| >= 1 && s < |ss| && Represents(ss, m)
    requires forall key :: Home(key, |ss|) == s ==> Lookup(c, key) == Find(m2, key)
    requires forall key :: Home(key, |ss|) != s ==> Find(m, key) == Find(m2, key)
    ensures Represents(ss[s := c], m2)
  {
    forall key
      ensures Lookup(ss[s := c][Home(key, |ss|)], key) == Find(m2, key)
    {
      if Home(key, |ss|) != s {
        assert Lookup(ss[Home(key, |ss|)], key) == Find(m, key);
      }
    }
  }

  /** The capacity `resize` moves to, or None when it keeps the table:
      below four elements, or while the count stays strictly between a
      quarter of and the whole of 80% of `cap - 1`. */
  function NewCap(count: nat, cap: nat): (r: Option<nat>)
    requires cap >= 1
    ensures r.Some? ==> r.value > 2 * count
    ensures r.None? <==> count * 2 < 8 || (count < (cap - 1) * 8 / 10 && count > (cap - 1) * 8 / 10 / 4)
  {
    if count * 2 < 8 then None
    else
      var avgCount := (cap - 1) * 8 / 10;
      if count < avgCount && count > avgCount / 4 then None
      else Some(count * 2 * 10 / 8 + 1)
  }

  /** Right after a resize the same count is within the band, so the next
      check keeps the table. */
  lemma ResizeSettles(count: nat, cap: nat)
    requires cap >= 1 && NewCap(count, cap).Some?
    ensures NewCap(count, NewCap(count, cap).value).None?
  {
    var q := count / 2;
    var c2 := NewCap(count, cap).value;
    if count % 2 == 0 {
      assert count == 2 * q;
      assert c2 - 1 == 5 * q;
      assert (c2 - 1) * 8 / 10 == 4 * q;
    } else {
      assert count == 2 * q + 1;
      assert count * 2 * 10 == 8 * (5 * q + 2) + 4;
      assert c2 - 1 == 5 * q + 2;
      assert (c2 - 1) * 8 == 10 * (4 * q + 1) + 6;
      assert (c2 - 1) * 8 / 10 == 4 * q + 1;
    }
  }

  /** An iterator: the element at `index` in the chain of `slot`. */
  datatype Pos = Pos(slot: nat, index: nat)

  /** Slot order, then chain order. */
  predicate Before(x: Pos, y: Pos) {
    x.slot < y.slot || (x.slot == y.slot && x.index < y.index)
  }

  class Table<V> {
    var count: nat
    var cap: nat
    var slots: array<seq<Entry<V>>>
    /** The key-to-value map the chains hold. */
    ghost var contents: map<seq<byte>, V>

    ghost predicate Valid()
      reads this, slots
    {
      slots.Length == cap && Stores(slots[..], contents) && count == |contents|
    }

    /** `hat_ht_create`, for allocations that succeed: eleven empty
        slots. */
    constructor ()
      ensures Valid() && contents == map[] && cap == 8 * 10 / 8 + 1
    {
      count := 0;
      cap := 8 * 10 / 8 + 1;
      slots := new seq<Entry<V>>[8 * 10 / 8 + 1](_ => []);
      contents := map[];
      new;
      assert forall i :: 0 <= i < slots.Length ==> slots[..][i] == [];
      TotalLenEmpty(slots[..]);
    }

    /** `hat_ht_count`. */
    function Count(): (r: nat)
      reads this, slots
      requires Valid()
      ensures r == |contents| && r == TotalLen(slots[..])
    {
      count
    }

    /** The walk over one chain of `hat_ht_get`, `hat_ht_set`,
        `hat_ht_pop` and `hat_ht_del`: the index of the first element
        matching the key, or the chain's length. */
    method FindInChain(chain: seq<Entry<V>>, hash: nat, key: seq<byte>) returns (j: nat)
      requires hash == Fnv(key)
      requires forall i :: 0 <= i < |chain| ==> chain[i].hash == Fnv(chain[i].key)
      ensures j <= |chain|
      ensures j < |chain| ==> chain[j].key == key
      ensures forall i :: 0 <= i < j ==> chain[i].key != key
    {
      j := 0;
      while j < |chain| && !Matches(chain[j], hash, key)
        invariant j <= |chain|
        invariant forall i :: 0 <= i < j ==> chain[i].key != key
      {
        j := j + 1;
      }
    }

    /** `hat_ht_get`: the value stored for the key, or None (`NULL`). */
    method Get(key: seq<byte>) returns (r: Option<V>)
      requires Valid()
      ensures r == Find(contents, key)
    {
      var hash := HashFunction(key);
      var chain := slots[hash % cap];
      assert slots[..][Home(key, cap)] == chain;
      var j := FindInChain(chain, hash, key);
      LookupNone(chain, key);
      if j < |chain| {
        LookupAt(chain, j);
        return Some(chain[j].value);
      }
      return None;
    }

    /** `hat_ht_set`: overwrite the value of a present key, or link a new
        element at the end of its chain and resize. `allocOk` is whether
        the element's allocation succeeds, `resizeAllocOk` whether the
        resize's does; the resize's outcome is ignored. */
    method Set(key: seq<byte>, value: V, allocOk: bool, resizeAllocOk: bool) returns (ok: bool)
      requires Valid()
      modifies this, slots
      ensures Valid()
      ensures ok <==> key in old(contents) || allocOk
      ensures contents == if ok then old(contents)[key := value] else old(contents)
      ensures count == if key !in old(contents) && allocOk then old(count) + 1 else old(count)
    {
      var hash := HashFunction(key);
      var s := hash % cap;
      ghost var ss := slots[..];
      var chain := slots[s];
      var j := FindInChain(chain, hash, key);
      if j < |chain| {
        var e := Entry(chain[j].hash, chain[j].key, value);
        SetFoundStep(ss, contents, key, j, value);
        slots[s] := chain[j := e];
        assert slots[..] == ss[s := chain[j := e]];
        contents := contents[key := value];
        return true;
      }
      LookupNone(chain, key);
      if !allocOk {
        return false;
      }
      var e := Entry(hash, key, value);
      LinkStep(ss, contents, e);
      slots[s] := chain + [e];
      assert slots[..] == ss[s := chain + [e]];
      count := count + 1;
      contents := contents[key := value];
      ok := true;
      var _ := Resize(resizeAllocOk);
    }

    /** `hat_ht_pop`: unlink the key's element and resize; the removed
        value, or None when the key is absent and nothing changes. */
    method Pop(key: seq<byte>, resizeAllocOk: bool) returns (r: Option<V>)
      requires Valid()
      modifies this, slots
      ensures Valid()
      ensures r == Find(old(contents), key)
      ensures contents == old(contents) - {key}
      ensures count == if key in old(contents) then old(count) - 1 else old(count)
    {
      var hash := HashFunction(key);
      var s := hash % cap;
      ghost var ss := slots[..];
      ghost var m := contents;
      assert s == Home(key, |ss|);
      var chain := slots[s];
      var j := FindInChain(chain, hash, key);
      if j == |chain| {
        AbsentStep(ss, contents, key);
        RemoveAbsent(contents, key);
        return None;
      }
      var value := chain[j].value;
      var c := chain[..j] + chain[j + 1..];
      UnlinkStep(ss, m, key, s, j, c);
      slots[s] := c;
      assert slots[..] == ss[s := c];
      count := count - 1;
      contents := m - {key};
      r := Some(value);
      var _ := Resize(resizeAllocOk);
    }

    /** `hat_ht_del`: the same walk as `hat_ht_pop`, reporting only
        whether the key was present. */
    method Del(key: seq<byte>, resizeAllocOk: bool) returns (ok: bool)
      requires Valid()
      modifies this, slots
      ensures Valid()
      ensures ok <==> key in old(contents)
      ensures contents == old(contents) - {key}
      ensures count == if ok then old(count) - 1 else old(count)
    {
      var r := Pop(key, resizeAllocOk);
      ok := r.Some?;
    }

    /** The slot array has `cap` slots, all the iteration needs. */
    ghost predicate Shaped()
      reads this
    {
      slots.Length == cap
    }

    /** Whether `p` names a stored element. */
    ghost predicate IsPos(p: Pos)
      reads this, slots
      requires Shaped()
    {
      p.slot < cap && p.index < |slots[p.slot]|
    }

    /** The first element of the first non-empty slot at or after `s`. */
    ghost function FirstFrom(s: nat): Option<Pos>
      reads this, slots
      requires Shaped()
      decreases if s < cap then cap - s else 0
    {
      if s >= cap then None
      else if slots[s] != [] then Some(Pos(s, 0))
      else FirstFrom(s + 1)
    }

    /** The element after `prev` in slot order, chain order within a slot;
        the first element when `prev` is None. */
    ghost function Successor(prev: Option<Pos>): Option<Pos>
      reads this, slots
      requires Shaped() && (prev.Some? ==> IsPos(prev.value))
    {
      if prev.None? then FirstFrom(0)
      else if prev.value.index + 1 < |slots[prev.value.slot]| then Some(Pos(prev.value.slot, prev.value.index + 1))
      else FirstFrom(prev.value.slot + 1)
    }

    /** `hat_ht_iter_next`: the next element of the chain, else the head
        of the next non-empty slot after the element's own
        (`hash % cap`). */
    method IterNext(prev: Option<Pos>) returns (r: Option<Pos>)
      requires Valid() && (prev.Some? ==> IsPos(prev.value))
      ensures r == Successor(prev)
    {
      if prev.Some? && prev.value.index + 1 < |slots[prev.value.slot]| {
        return Some(Pos(prev.value.slot, prev.value.index + 1));
      }
      var i := 0;
      if prev.Some? {
        assert ChainOk(slots[..][prev.value.slot], prev.value.slot, cap);
        i := slots[prev.value.slot][prev.value.index].hash % cap + 1;
      }
      ghost var start := i;
      while i < cap
        invariant start <= i
        invariant FirstFrom(start) == FirstFrom(i)
        decreases cap - i
      {
        if slots[i] != [] {
          return Some(Pos(i, 0));
        }
        i := i + 1;
      }
      return None;
    }

    /** Every element from slot `s` on, in the order of the iteration. */
    ghost function Positions(s: nat): seq<Pos>
      reads this, slots
      requires Shaped()
      decreases if s < cap then cap - s else 0
    {
      if s >= cap then []
      else seq(|slots[s]|, j requires 0 <= j => Pos(s, j)) + Positions(s + 1)
    }

    /** Each position from slot `s` on names an element at or after `s`. */
    lemma {:induction false} PositionAt(s: nat, p: nat)
      requires Shaped() && p < |Positions(s)|
      ensures IsPos(Positions(s)[p]) && Positions(s)[p].slot >= s
      decreases if s < cap then cap - s else 0
    {
      var row := seq(|slots[s]|, j requires 0 <= j => Pos(s, j));
      assert Positions(s) == row + Positions(s + 1);
      if p >= |row| {
        PositionAt(s + 1, p - |row|);
      }
    }

    /** Searching the slots from `s` on finds the first position. */
    lemma {:induction false} FirstFromIsHead(s: nat)
      requires Shaped()
      ensures FirstFrom(s) == if Positions(s) == [] then None else Some(Positions(s)[0])
      decreases if s < cap then cap - s else 0
    {
      if s < cap {
        FirstFromIsHead(s + 1);
      }
    }

    /** The successor of each position from slot `s` on is the next
        position, and None after the last. */
    lemma {:induction false} WalkStep(s: nat, p: nat)
      requires Shaped() && p < |Positions(s)|
      ensures IsPos(Positions(s)[p])
      ensures Successor(Some(Positions(s)[p])) ==
        if p + 1 < |Positions(s)| then Some(Positions(s)[p + 1]) else None
      decreases if s < cap then cap - s else 0
    {
      PositionAt(s, p);
      var row := seq(|slots[s]|, j requires 0 <= j => Pos(s, j));
      var rest := Positions(s + 1);
      assert Positions(s) == row + rest;
      if p >= |row| {
        WalkStep(s + 1, p - |row|);
        assert Positions(s)[p] == rest[p - |row|];
        if p + 1 < |Positions(s)| {
          assert Positions(s)[p + 1] == rest[p + 1 - |row|];
        }
      } else if p + 1 == |row| {
        FirstFromIsHead(s + 1);
        assert Positions(s)[p] == Pos(s, p);
        if rest != [] {
          assert Positions(s)[p + 1] == rest[0];
        }
      } else {
        assert Positions(s)[p] == Pos(s, p);
        assert Positions(s)[p + 1] == Pos(s, p + 1);
      }
    }

    /** The positions are strictly increasing: slot, then index. */
    lemma {:induction false} PositionsSorted(s: nat)
      requires Shaped()
      ensures forall a, b :: 0 <= a < b < |Positions(s)| ==> Before(Positions(s)[a], Positions(s)[b])
      decreases if s < cap then cap - s else 0
    {
      if s < cap {
        PositionsSorted(s + 1);
        var row := seq(|slots[s]|, j requires 0 <= j => Pos(s, j));
        var rest := Positions(s + 1);
        assert Positions(s) == row + rest;
        forall a, b | 0 <= a < b < |Positions(s)|
          ensures Before(Positions(s)[a], Positions(s)[b])
        {
          if a >= |row| {
            assert Positions(s)[a] == rest[a - |row|] && Positions(s)[b] == rest[b - |row|];
          } else if b >= |row| {
            PositionAt(s + 1, b - |row|);
            assert Positions(s)[b] == rest[b - |row|];
          }
        }
      }
    }

    /** Every element at or after slot `s` has a position. */
    lemma {:induction false} PositionsCover(s: nat)
      requires Shaped()
      ensures forall x: Pos :: x.slot >= s && x.slot < cap && x.index < |slots[x.slot]| ==> x in Positions(s)
      decreases if s < cap then cap - s else 0
    {
      if s < cap {
        PositionsCover(s + 1);
        var row := seq(|slots[s]|, j requires 0 <= j => Pos(s, j));
        var rest := Positions(s + 1);
        assert Positions(s) == row + rest;
        forall x: Pos | x.slot >= s && x.slot < cap && x.index < |slots[x.slot]|
          ensures x in Positions(s)
        {
          if x.slot == s {
            assert Positions(s)[x.index] == x;
          } else {
            assert x in rest;
          }
        }
      }
    }

    /** There are as many positions as elements in the slots from `s` on. */
    lemma {:induction false} PositionsCount(s: nat)
      requires Shaped() && s <= cap
      ensures |Positions(s)| == TotalLen(slots[..][s..])
      decreases cap - s
    {
      if s < cap {
        PositionsCount(s + 1);
        assert |Positions(s)| == |slots[s]| + |Positions(s + 1)|;
        assert slots[..][s..] == [slots[s]] + slots[..][s + 1..];
        TotalLenAppend([slots[s]], slots[..][s + 1..]);
        assert TotalLen([slots[s]]) == |slots[s]| by {
          assert [slots[s]][..0] == [];
        }
      } else {
        assert slots[..][s..] == [];
      }
    }

    /** Repeated `hat_ht_iter_next` from None walks the positions in
        order: it starts at the first, steps to the next, and yields None
        after the last. */
    lemma IterationWalks()
      requires Shaped()
      ensures Successor(None) == if Positions(0) == [] then None else Some(Positions(0)[0])
      ensures IsWalk(Positions(0))
    {
      FirstFromIsHead(0);
      var ps := Positions(0);
      forall p | 0 <= p < |ps|
        ensures IsPos(ps[p]) && Successor(Some(ps[p])) == if p + 1 < |ps| then Some(ps[p + 1]) else None
      {
        WalkStep(0, p);
      }
      assert IsWalk(ps);
    }

    /** The positions walked are every element, each once: `count` of
        them, pairwise distinct. */
    lemma IterationVisitsAll()
      requires Valid()
      ensures |Positions(0)| == count
      ensures forall x :: IsPos(x) <==> x in Positions(0)
      ensures forall a, b :: 0 <= a < b < |Positions(0)| ==> Positions(0)[a] != Positions(0)[b]
    {
      PositionsSorted(0);
      PositionsCover(0);
      PositionsCount(0);
      assert slots[..][0..] == slots[..];
      forall x | x in Positions(0)
        ensures IsPos(x)
      {
        var p :| 0 <= p < |Positions(0)| && Positions(0)[p] == x;
        PositionAt(0, p);
      }
    }

    /** Each position of `ps` is an element whose successor is the next
        position, and the last one's is None. */
    ghost predicate IsWalk(ps: seq<Pos>)
      reads this, slots
      requires Shaped()
    {
      forall p :: 0 <= p < |ps| ==>
        IsPos(ps[p]) && Successor(Some(ps[p])) == if p + 1 < |ps| then Some(ps[p + 1]) else None
    }

    /** `resize`: when `NewCap` asks for it and the allocation succeeds,
        rehash every element into a fresh slot array of the new capacity. */
    method Resize(allocOk: bool) returns (ok: bool)
      requires Valid()
      modifies this
      ensures Valid()
      ensures contents == old(contents) && count == old(count)
      ensures ok <==> NewCap(old(count), old(cap)).None? || allocOk
      ensures cap == if ok && NewCap(old(count), old(cap)).Some? then NewCap(old(count), old(cap)).value else old(cap)
    {
      var target := NewCap(count, cap);
      if target.None? {
        return true;
      }
      if !allocOk {
        return false;
      }
      var newSlots := Rehash(slots[..], target.value, contents);
      cap := target.value;
      slots := newSlots;
      ok := true;
    }
  }

  /** The relinking loops of `resize`: each element of each old chain, in
      order, goes to the front of the chain of slot `hash % newCap`. */
  method Rehash<V>(ss: seq<seq<Entry<V>>>, newCap: nat, ghost m: map<seq<byte>, V>) returns (newSlots: array<seq<Entry<V>>>)
    requires newCap >= 1 && Stores(ss, m)
    ensures fresh(newSlots) && newSlots.Length == newCap
    ensures Stores(newSlots[..], m)
  {
    newSlots := new seq<Entry<V>>[newCap](_ => []);
    assert forall d :: 0 <= d < newCap ==> newSlots[..][d] == [];
    TotalLenEmpty(newSlots[..]);
    ghost var moved: map<seq<byte>, V> := map[];
    var i := 0;
    while i < |ss|
      invariant 0 <= i <= |ss|
      invariant newSlots.Length == newCap
      invariant Stores(newSlots[..], moved)
      invariant Moved(ss, m, moved, i, [])
    {
      moved := RehashChain(ss, m, i, newSlots, moved);
      i := i + 1;
    }
    MovedAll(ss, m, moved);
  }

  /** The inner loop of `resize` over the chain of old slot `i`. */
  method RehashChain<V>(ss: seq<seq<Entry<V>>>, ghost m: map<seq<byte>, V>, i: nat, newSlots: array<seq<Entry<V>>>,
                        ghost moved0: map<seq<byte>, V>) returns (ghost moved: map<seq<byte>, V>)
    requires ChainsOk(ss) && Represents(ss, m) && i < |ss|
    requires Stores(newSlots[..], moved0)
    requires Moved(ss, m, moved0, i, [])
    modifies newSlots
    ensures Stores(newSlots[..], moved)
    ensures Moved(ss, m, moved, i + 1, [])
  {
    var chain := ss[i];
    var newCap := newSlots.Length;
    moved := moved0;
    assert chain[..0] == [];
    var j := 0;
    while j < |chain|
      invariant 0 <= j <= |chain|
      invariant Stores(newSlots[..], moved)
      invariant Moved(ss, m, moved, i, chain[..j])
    {
      var e := chain[j];
      MoveOne(ss, m, i, j, moved);
      LinkFrontStep(newSlots[..], moved, e);
      moved := moved[e.key := e.value];
      var d := e.hash % newCap;
      newSlots[d] := [e] + newSlots[d];
      j := j + 1;
    }
    MovedChain(ss, m, moved, i);
  }

  /** The elements moved so far: the stored ones whose home is before
      slot `i`, or slot `i` with a key among `done`. */
  ghost predicate Moved<V>(ss: seq<seq<Entry<V>>>, m: map<seq<byte>, V>, moved: map<seq<byte>, V>, i: nat, done: seq<Entry<V>>)
    requires |ss| >= 1
  {
    Agrees(moved, m) && MovedKeys(ss, m, moved, i, done)
  }

  /** Every key of `moved` is in `m` with the same value. */
  ghost predicate Agrees<V>(moved: map<seq<byte>, V>, m: map<seq<byte>, V>) {
    forall k :: k in moved ==> k in m && moved[k] == m[k]
  }

  ghost predicate MovedKeys<V>(ss: seq<seq<Entry<V>>>, m: map<seq<byte>, V>, moved: map<seq<byte>, V>, i: nat, done: seq<Entry<V>>)
    requires |ss| >= 1
  {
    forall k :: k in m ==>
      (k in moved <==> Home(k, |ss|) < i || (Home(k, |ss|) == i && Lookup(done, k).Some?))
  }

  /** One step of the inner loop of `Rehash`: the `j`-th element of chain
      `i` is stored and not yet moved, and moving it extends `done` by it. */
  lemma MoveOne<V>(ss: seq<seq<Entry<V>>>, m: map<seq<byte>, V>, i: nat, j: nat, moved: map<seq<byte>, V>)
    requires ChainsOk(ss) && Represents(ss, m)
    requires i < |ss| && j < |ss[i]|
    requires Moved(ss, m, moved, i, ss[i][..j])
    ensures ss[i][j].hash == Fnv(ss[i][j].key) && ss[i][j].key !in moved
    ensures Moved(ss, m, moved[ss[i][j].key := ss[i][j].value], i, ss[i][..j + 1])
  {
    var chain := ss[i];
    var e := chain[j];
    StoredUnmoved(ss, m, i, j, moved);
    PrefixSnoc(chain, j);
    MovedExtend(ss, m, moved, i, chain[..j], e);
  }

  /** Moving a stored, unmoved element of slot `i` that `done` lacks. */
  lemma MovedExtend<V>(ss: seq<seq<Entry<V>>>, m: map<seq<byte>, V>, moved: map<seq<byte>, V>, i: nat,
                       done: seq<Entry<V>>, e: Entry<V>)
    requires |ss| >= 1 && Moved(ss, m, moved, i, done)
    requires Home(e.key, |ss|) == i && Find(m, e.key) == Some(e.value) && e.key !in moved
    requires Lookup(done, e.key).None?
    requires forall a, b :: 0 <= a < b < |done| ==> done[a].key != done[b].key
    ensures Moved(ss, m, moved[e.key := e.value], i, done + [e])
  {
    var moved2 := moved[e.key := e.value];
    assert Agrees(moved2, m);
    forall k | k in m
      ensures k in moved2 <==> Home(k, |ss|) < i || (Home(k, |ss|) == i && Lookup(done + [e], k).Some?)
    {
      LookupAppend(done, e, k);
    }
    assert MovedKeys(ss, m, moved2, i, done + [e]);
  }

  lemma StoredUnmoved<V>(ss: seq<seq<Entry<V>>>, m: map<seq<byte>, V>, i: nat, j: nat, moved: map<seq<byte>, V>)
    requires ChainsOk(ss) && Represents(ss, m)
    requires i < |ss| && j < |ss[i]|
    requires Moved(ss, m, moved, i, ss[i][..j])
    ensures ss[i][j].hash == Fnv(ss[i][j].key) && Home(ss[i][j].key, |ss|) == i
    ensures Find(m, ss[i][j].key) == Some(ss[i][j].value) && ss[i][j].key !in moved
    ensures Lookup(ss[i][..j], ss[i][j].key).None?
    ensures forall a, b :: 0 <= a < b < j ==> ss[i][..j][a].key != ss[i][..j][b].key
  {
    var chain := ss[i];
    var e := chain[j];
    assert ChainOk(chain, i, |ss|);
    LookupAt(chain, j);
    assert Lookup(ss[Home(e.key, |ss|)], e.key) == Find(m, e.key);
    LookupNone(chain[..j], e.key);
  }

  /** After a whole chain every stored key of its slot is moved. */
  lemma MovedChain<V>(ss: seq<seq<Entry<V>>>, m: map<seq<byte>, V>, moved: map<seq<byte>, V>, i: nat)
    requires ChainsOk(ss) && Represents(ss, m) && i < |ss|
    requires Moved(ss, m, moved, i, ss[i][..|ss[i]|])
    ensures Moved(ss, m, moved, i + 1, [])
  {
    assert ss[i][..|ss[i]|] == ss[i];
    forall k | k in m && Home(k, |ss|) == i
      ensures Lookup(ss[i], k).Some?
    {
      assert Lookup(ss[Home(k, |ss|)], k) == Find(m, k);
    }
  }

  lemma MovedAll<V>(ss: seq<seq<Entry<V>>>, m: map<seq<byte>, V>, moved: map<seq<byte>, V>)
    requires |ss| >= 1 && Moved(ss, m, moved, |ss|, [])
    ensures moved == m
  {
    assert moved.Keys == m.Keys;
  }

  /** Overwriting the value of a present key in its home chain. */
  lemma SetFoundStep<V>(ss: seq<seq<Entry<V>>>, m: map<seq<byte>, V>, key: seq<byte>, j: nat, value: V)
    requires Stores(ss, m)
    requires j < |ss[Home(key, |ss|)]| && ss[Home(key, |ss|)][j].key == key
    ensures var s := Home(key, |ss|);
      var c := ss[s][j := Entry(ss[s][j].hash, key, value)];
      var ss2 := ss[s := c];
      key in m && Stores(ss2, m[key := value])
  {
    var s := Home(key, |ss|);
    var chain := ss[s];
    var e := Entry(chain[j].hash, key, value);
    var c := chain[j := e];
    assert ChainOk(chain, s, |ss|);
    LookupAt(chain, j);
    assert Lookup(ss[Home(key, |ss|)], key) == Find(m, key);
    forall k | Home(k, |ss|) == s
      ensures Lookup(c, k) == Find(m[key := value], k)
    {
      LookupUpdate(chain, j, e, k);
      assert Lookup(ss[Home(k, |ss|)], k) == Find(m, k);
    }
    RepresentsChange(ss, m, s, c, m[key := value]);
    TotalLenUpdate(ss, s, c);
    assert ChainOk(c, s, |ss|);
  }

  /** Replacing the chain of slot `s` by a well-placed chain that
      represents `m2` at the keys of slot `s`. */
  lemma ReplaceChain<V>(ss: seq<seq<Entry<V>>>, m: map<seq<byte>, V>, s: nat, c: seq<Entry<V>>, m2: map<seq<byte>, V>)
    requires ChainsOk(ss) && Represents(ss, m) && s < |ss| && ChainOk(c, s, |ss|)
    requires forall key :: Home(key, |ss|) == s ==> Lookup(c, key) == Find(m2, key)
    requires forall key :: Home(key, |ss|) != s ==> Find(m, key) == Find(m2, key)
    ensures ChainsOk(ss[s := c]) && Represents(ss[s := c], m2)
    ensures TotalLen(ss[s := c]) == TotalLen(ss) - |ss[s]| + |c|
  {
    RepresentsChange(ss, m, s, c, m2);
    TotalLenUpdate(ss, s, c);
  }

  /** Linking an element with an absent key at the end of its home chain,
      as `hat_ht_set` does. */
  lemma LinkStep<V>(ss: seq<seq<Entry<V>>>, m: map<seq<byte>, V>, e: Entry<V>)
    requires Stores(ss, m)
    requires e.hash == Fnv(e.key) && e.key !in m
    ensures var s := e.hash % |ss|;
      s == Home(e.key, |ss|) && Stores(ss[s := ss[s] + [e]], m[e.key := e.value])
  {
    var n := |ss|;
    var s := e.hash % n;
    var chain := ss[s];
    assert ChainOk(chain, s, n);
    HomeChain(ss, m, s);
    AppendToChain(chain, e, m, s, n);
    OtherSlotsSet(m, e.key, e.value, n);
    ReplaceChain(ss, m, s, chain + [e], m[e.key := e.value]);
    AddOneKey(m, e.key, e.value);
  }

  /** Linking an element with an absent key at the front of its home
      chain, as `resize` does. */
  lemma LinkFrontStep<V>(ss: seq<seq<Entry<V>>>, m: map<seq<byte>, V>, e: Entry<V>)
    requires Stores(ss, m)
    requires e.hash == Fnv(e.key) && e.key !in m
    ensures var s := e.hash % |ss|;
      Stores(ss[s := [e] + ss[s]], m[e.key := e.value])
  {
    var n := |ss|;
    var s := e.hash % n;
    var chain := ss[s];
    assert ChainOk(chain, s, n);
    HomeChain(ss, m, s);
    PrependToChain(chain, e, m, s, n);
    OtherSlotsSet(m, e.key, e.value, n);
    ReplaceChain(ss, m, s, [e] + chain, m[e.key := e.value]);
    AddOneKey(m, e.key, e.value);
  }

  /** Appending an element whose key the chain's map lacks. */
  lemma AppendToChain<V>(chain: seq<Entry<V>>, e: Entry<V>, m: map<seq<byte>, V>, s: nat, n: nat)
    requires n >= 1 && ChainOk(chain, s, n)
    requires forall k :: Home(k, n) == s ==> Lookup(chain, k) == Find(m, k)
    requires e.hash == Fnv(e.key) && e.hash % n == s && e.key !in m
    ensures ChainOk(chain + [e], s, n)
    ensures forall k :: Home(k, n) == s ==> Lookup(chain + [e], k) == Find(m[e.key := e.value], k)
  {
    var c := chain + [e];
    assert Lookup(chain, e.key) == Find(m, e.key);
    forall k | Home(k, n) == s
      ensures Lookup(c, k) == Find(m[e.key := e.value], k)
    {
      LookupAppend(chain, e, k);
    }
    ChainOkAppend(chain, e, s, n);
  }

  lemma ChainOkAppend<V>(chain: seq<Entry<V>>, e: Entry<V>, s: nat, n: nat)
    requires n >= 1 && ChainOk(chain, s, n) && Lookup(chain, e.key).None?
    requires e.hash == Fnv(e.key) && e.hash % n == s
    ensures ChainOk(chain + [e], s, n)
  {
    var c := chain + [e];
    LookupNone(chain, e.key);
    forall a, b | 0 <= a < b < |c|
      ensures c[a].key != c[b].key
    {
      assert c[a] == chain[a];
    }
    forall y | 0 <= y < |c|
      ensures c[y].hash == Fnv(c[y].key) && c[y].hash % n == s
    {
      if y < |chain| {
        assert c[y] == chain[y];
      } else {
        assert c[y] == e;
      }
    }
  }

  /** Prepending an element whose key the chain's map lacks. */
  lemma PrependToChain<V>(chain: seq<Entry<V>>, e: Entry<V>, m: map<seq<byte>, V>, s: nat, n: nat)
    requires n >= 1 && ChainOk(chain, s, n)
    requires forall k :: Home(k, n) == s ==> Lookup(chain, k) == Find(m, k)
    requires e.hash == Fnv(e.key) && e.hash % n == s && e.key !in m
    ensures ChainOk([e] + chain, s, n)
    ensures forall k :: Home(k, n) == s ==> Lookup([e] + chain, k) == Find(m[e.key := e.value], k)
  {
    var c := [e] + chain;
    assert Lookup(chain, e.key) == Find(m, e.key);
    forall k | Home(k, n) == s
      ensures Lookup(c, k) == Find(m[e.key := e.value], k)
    {
      LookupPrepend(chain, e, k);
    }
    LookupPrepend(chain, e, e.key);
    forall y | 0 <= y < |c|
      ensures c[y].hash == Fnv(c[y].key) && c[y].hash % n == s
    {
      if y > 0 {
        assert c[y] == chain[y - 1];
      }
    }
  }

  lemma AddOneKey<V>(m: map<seq<byte>, V>, key: seq<byte>, v: V)
    requires key !in m
    ensures |m[key := v]| == |m| + 1
  {
    assert m[key := v].Keys == m.Keys + {key};
  }

  /** A key missing from its home chain is not stored. */
  lemma AbsentStep<V>(ss: seq<seq<Entry<V>>>, m: map<seq<byte>, V>, key: seq<byte>)
    requires ChainsOk(ss) && Represents(ss, m)
    requires forall i :: 0 <= i < |ss[Home(key, |ss|)]| ==> ss[Home(key, |ss|)][i].key != key
    ensures key !in m
  {
    LookupNone(ss[Home(key, |ss|)], key);
  }

  /** Unlinking the element of a present key from its home chain. */
  lemma UnlinkStep<V>(ss: seq<seq<Entry<V>>>, m: map<seq<byte>, V>, key: seq<byte>, s: nat, j: nat, c: seq<Entry<V>>)
    requires Stores(ss, m) && s == Home(key, |ss|)
    requires j < |ss[s]| && ss[s][j].key == key && c == ss[s][..j] + ss[s][j + 1..]
    ensures Find(m, key) == Some(ss[s][j].value)
    ensures Stores(ss[s := c], m - {key}) && |m - {key}| == |m| - 1
  {
    var n := |ss|;
    var chain := ss[s];
    assert ChainOk(chain, s, n);
    HomeChain(ss, m, s);
    RemoveFromChain(chain, j, m, s, n);
    OtherSlotsRemove(m, key, n);
    ReplaceChain(ss, m, s, c, m - {key});
    RemoveOneKey(m, key);
  }

  /** The lookups in the chain of slot `s` are what the map holds. */
  lemma HomeChain<V>(ss: seq<seq<Entry<V>>>, m: map<seq<byte>, V>, s: nat)
    requires |ss| >= 1 && s < |ss| && Represents(ss, m)
    ensures forall k :: Home(k, |ss|) == s ==> Lookup(ss[s], k) == Find(m, k)
  {
    forall k | Home(k, |ss|) == s
      ensures Lookup(ss[s], k) == Find(m, k)
    {
      assert Lookup(ss[Home(k, |ss|)], k) == Find(m, k);
    }
  }

  /** Unlinking element `j` of a well-placed chain that represents `m` at
      the keys of slot `s`. */
  lemma RemoveFromChain<V>(chain: seq<Entry<V>>, j: nat, m: map<seq<byte>, V>, s: nat, n: nat)
    requires n >= 1 && j < |chain| && ChainOk(chain, s, n)
    requires forall k :: Home(k, n) == s ==> Lookup(chain, k) == Find(m, k)
    ensures Find(m, chain[j].key) == Some(chain[j].value)
    ensures var c := chain[..j] + chain[j + 1..];
      ChainOk(c, s, n) &&
      forall k :: Home(k, n) == s ==> Lookup(c, k) == Find(m - {chain[j].key}, k)
  {
    var key := chain[j].key;
    var c := chain[..j] + chain[j + 1..];
    LookupAt(chain, j);
    forall k | Home(k, n) == s
      ensures Lookup(c, k) == Find(m - {key}, k)
    {
      LookupRemove(chain, j, k);
    }
    ChainOkRemove(chain, j, s, n);
  }

  lemma ChainOkRemove<V>(chain: seq<Entry<V>>, j: nat, s: nat, n: nat)
    requires n >= 1 && j < |chain| && ChainOk(chain, s, n)
    ensures ChainOk(chain[..j] + chain[j + 1..], s, n)
  {
    LookupRemove(chain, j, chain[j].key);
    RemovedIndex(chain, j);
  }

  /** Where each element of a chain with one element cut out came from. */
  lemma RemovedIndex<T>(s: seq<T>, j: nat)
    requires j < |s|
    ensures var c := s[..j] + s[j + 1..];
      |c| == |s| - 1 && forall a :: 0 <= a < |c| ==> c[a] == s[if a < j then a else a + 1]
  {
  }

  /** Removing a key changes nothing at the keys of other slots. */
  lemma OtherSlotsRemove<V>(m: map<seq<byte>, V>, key: seq<byte>, n: nat)
    requires n >= 1
    ensures forall k :: Home(k, n) != Home(key, n) ==> Find(m, k) == Find(m - {key}, k)
  {
  }

  /** Setting a key changes nothing at the keys of other slots. */
  lemma OtherSlotsSet<V>(m: map<seq<byte>, V>, key: seq<byte>, v: V, n: nat)
    requires n >= 1
    ensures forall k :: Home(k, n) != Home(key, n) ==> Find(m, k) == Find(m[key := v], k)
  {
  }

  lemma RemoveAbsent<V>(m: map<seq<byte>, V>, key: seq<byte>)
    requires key !in m
    ensures m - {key} == m
  {
  }

  lemma RemoveOneKey<V>(m: map<seq<byte>, V>, key: seq<byte>)
    requires key in m
    ensures |m - {key}| == |m| - 1
  {
    assert (m - {key}).Keys == m.Keys - {key};
  }

  lemma PrefixSnoc<T>(s: seq<T>, j: nat)
    requires j < |s|
    ensures s[..j + 1] == s[..j] + [s[j]]
  {
  }

  lemma {:induction false} TotalLenAppend<V>(a: seq<seq<Entry<V>>>, b: seq<seq<Entry<V>>>)
    ensures TotalLen(a + b) == TotalLen(a) + TotalLen(b)
    decreases |b|
  {
    if b == [] {
      assert a + b == a;
    } else {
      var n := |b| - 1;
      assert (a + b)[..|a + b| - 1] == a + b[..n];
      TotalLenAppend(a, b[..n]);
    }
  }

  lemma {:induction false} TotalLenEmpty<V>(ss: seq<seq<Entry<V>>>)
    requires forall i :: 0 <= i < |ss| ==> ss[i] == []
    ensures TotalLen(ss) == 0
    decreases |ss|
  {
    if ss != [] {
      TotalLenEmpty(ss[..|ss| - 1]);
    }
  }
}
