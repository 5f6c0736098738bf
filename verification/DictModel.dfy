/** The string dictionary as values: hash keys, string pools and the chained table. */
module DictModel {
  type Bytes = seq<bv8>

  const MIN_DICT_SIZE := 128
  const MAX_HASH_LEN := 3
  const COLON: bv8 := 58

  // Hash keys.

  function MixByte(hash: bv32, b: bv8): bv32 {
    var h := hash + (b as bv32);
    var h := h + (h << 10);
    h ^ (h >> 6)
  }

  function Mix(hash: bv32, data: Bytes): bv32 {
    if data == [] then hash else MixByte(Mix(hash, data[..|data| - 1]), data[|data| - 1])
  }

  function Finish(hash: bv32): bv32 {
    var h := hash + (hash << 3);
    var h := h ^ (h >> 11);
    h + (h << 15)
  }

  function BigKey(data: Bytes, seed: bv32): bv32 {
    if data == [] then 0 else Finish(Mix(seed, data))
  }

  function BigQKey(prefix: Bytes, name: Bytes, seed: bv32): bv32 {
    Finish(Mix(MixByte(Mix(seed, prefix), COLON), name))
  }

  /** xmlDictComputeBigKey. */
  method ComputeBigKey(data: Bytes, seed: bv32) returns (hash: bv32)
    ensures hash == BigKey(data, seed)
  {
    if |data| <= 0 { return 0; }
    hash := seed;
    for i := 0 to |data|
      invariant hash == Mix(seed, data[..i])
    {
      assert data[..i + 1][..i] == data[..i];
      hash := MixByte(hash, data[i]);
    }
    assert data[..|data|] == data;
    hash := Finish(hash);
  }

  /** xmlDictComputeBigQKey. */
  method ComputeBigQKey(prefix: Bytes, name: Bytes, seed: bv32) returns (hash: bv32)
    ensures hash == BigQKey(prefix, name, seed)
  {
    hash := seed;
    for i := 0 to |prefix|
      invariant hash == Mix(seed, prefix[..i])
    {
      assert prefix[..i + 1][..i] == prefix[..i];
      hash := MixByte(hash, prefix[i]);
    }
    assert prefix[..|prefix|] == prefix;
    hash := MixByte(hash, COLON);
    ghost var middle := hash;
    for i := 0 to |name|
      invariant hash == Mix(middle, name[..i])
    {
      assert name[..i + 1][..i] == name[..i];
      hash := MixByte(hash, name[i]);
    }
    assert name[..|name|] == name;
    hash := Finish(hash);
  }

  lemma {:induction false} MixConcat(hash: bv32, a: Bytes, b: Bytes)
    ensures Mix(hash, a + b) == Mix(Mix(hash, a), b)
  {
    if b == [] {
      assert a + b == a;
    } else {
      MixConcat(hash, a, b[..|b| - 1]);
      assert (a + b)[..|a + b| - 1] == a + b[..|b| - 1];
    }
  }

  /** The key of a qualified name is the key of the joined string, for every seed. */
  lemma BigQKeyIsBigKey(prefix: Bytes, name: Bytes, seed: bv32)
    ensures BigQKey(prefix, name, seed) == BigKey(Joined(prefix, name), seed)
  {
    MixConcat(seed, prefix, [COLON]);
    MixConcat(seed, prefix + [COLON], name);
    assert [COLON][..0] == [];
  }

  function Joined(prefix: Bytes, name: Bytes): Bytes {
    prefix + [COLON] + name
  }

  /** xmlStrQEqual: the first byte of the prefix is compared before its end is looked for,
      so an empty prefix never matches. */
  predicate QEqual(prefix: Bytes, name: Bytes, str: Bytes) {
    prefix != [] && str == Joined(prefix, name)
  }

  function Sum(data: Bytes): nat {
    if data == [] then 0 else Sum(data[..|data| - 1]) + data[|data| - 1] as nat
  }

  /** xmlDictComputeFastKey: the first byte of the memory is used whatever the length; the seed is not. */
  function FastKey(mem: Bytes, len: nat): nat
    requires len <= |mem|
  {
    var first := if mem == [] then 0 else mem[0] as nat;
    var last := if len > 10 then mem[len - 1] as nat else 0;
    var n := if len > 10 then 10 else len;
    first * 32 + last + (if n > 1 then Sum(mem[1..n]) else 0)
  }

  /** xmlDictComputeKey on a string of length len at the start of mem. */
  function ComputeKey(size: nat, seed: bv32, mem: Bytes, len: nat): nat
    requires len <= |mem|
  {
    if size == MIN_DICT_SIZE then FastKey(mem, len) else BigKey(mem[..len], seed) as nat
  }

  /** The key of a string that ends where its memory ends. */
  function KeyOf(size: nat, seed: bv32, s: Bytes): nat {
    ComputeKey(size, seed, s, |s|)
  }

  /** The key only depends on the string, except for an empty string in front of other bytes. */
  lemma KeyOfMemory(size: nat, seed: bv32, mem: Bytes, len: nat)
    requires len <= |mem| && (len > 0 || mem == [] || size != MIN_DICT_SIZE)
    ensures ComputeKey(size, seed, mem, len) == KeyOf(size, seed, mem[..len])
  {
    var s := mem[..len];
    assert s[..len] == s;
    if len > 1 {
      var n := if len > 10 then 10 else len;
      assert mem[1..n] == s[1..n];
    }
  }

  lemma KeyOfBeyondMinimum(size: nat, seed: bv32, s: Bytes)
    requires size != MIN_DICT_SIZE
    ensures KeyOf(size, seed, s) == BigKey(s, seed) as nat
  {
    assert s[..|s|] == s;
  }

  lemma EmptyKey(size: nat, seed: bv32)
    ensures KeyOf(size, seed, []) == 0
  {
    var s: Bytes := [];
    assert s[..0] == [];
  }

  /** `key` is the key function of a table of this size. */
  ghost predicate KeysOf(key: Bytes -> nat, size: nat, seed: bv32) {
    forall s {:trigger KeyOf(size, seed, s)} :: key(s) == KeyOf(size, seed, s)
  }

  // String pools.

  /** One block of pool memory: `used` is what lies below the free pointer. */
  datatype Pool = Pool(size: nat, used: Bytes)

  datatype Ptr = Ptr(owner: nat, pool: nat, offset: nat)

  datatype Entry = Entry(name: Ptr, len: nat, okey: nat)

  /** The pointer is a zero-terminated string of this length in the pools of dictionary `id`. */
  ghost predicate PtrOk(pools: seq<Pool>, id: nat, p: Ptr, len: nat) {
    && p.owner == id && p.pool < |pools|
    && p.offset + len < |pools[p.pool].used| && pools[p.pool].used[p.offset + len] == 0
  }

  function StringAt(pools: seq<Pool>, p: Ptr, len: nat): Bytes {
    if p.pool < |pools| && p.offset + len <= |pools[p.pool].used|
    then pools[p.pool].used[p.offset..p.offset + len] else []
  }

  /** Room for n bytes and a terminator. */
  predicate HasSpace(pool: Pool, n: nat) {
    |pool.used| + n < pool.size
  }

  function TotalSize(pools: seq<Pool>): nat {
    if pools == [] then 0 else TotalSize(pools[..|pools| - 1]) + pools[|pools| - 1].size
  }

  function Largest(pools: seq<Pool>): (size: nat)
    ensures forall i :: 0 <= i < |pools| ==> pools[i].size <= size
    ensures size > 0 ==> exists i :: 0 <= i < |pools| && pools[i].size == size
  {
    if pools == [] then 0 else Max(Largest(pools[..|pools| - 1]), pools[|pools| - 1].size)
  }

  function Max(a: nat, b: nat): nat {
    if a < b then b else a
  }

  /** The pools from i on, gone through from the end: their largest size and the sum of their sizes. */
  ghost predicate Scanned(pools: seq<Pool>, i: nat, size: nat, total: nat) {
    forall k: nat :: k == i ==> ScannedTo(pools, k, size, total)
  }

  predicate ScannedTo(pools: seq<Pool>, i: nat, size: nat, total: nat) {
    && i <= |pools|
    && TotalSize(pools[..i]) + total == TotalSize(pools) && Max(Largest(pools[..i]), size) == Largest(pools)
  }

  lemma ScannedFromEnd(pools: seq<Pool>)
    ensures Scanned(pools, |pools|, 0, 0)
  {
    assert pools[..|pools|] == pools;
    assert ScannedTo(pools, |pools|, 0, 0);
  }

  lemma ScannedNext(pools: seq<Pool>, i: nat, size: nat, total: nat)
    requires i < |pools| && Scanned(pools, i + 1, size, total)
    ensures Scanned(pools, i, Max(pools[i].size, size), total + pools[i].size)
  {
    assert ScannedTo(pools, i + 1, size, total);
    assert pools[..i + 1][..i] == pools[..i];
    assert ScannedTo(pools, i, Max(pools[i].size, size), total + pools[i].size);
  }

  lemma ScannedAll(pools: seq<Pool>, size: nat, total: nat)
    requires Scanned(pools, 0, size, total)
    ensures size == Largest(pools) && total == TotalSize(pools)
  {
    assert ScannedTo(pools, 0, size, total);
  }

  /** A further pool is four times as large as the largest one, and as n bytes. */
  function NewSize(pools: seq<Pool>, n: nat): (size: nat)
    ensures size > n
  {
    Max(if Largest(pools) == 0 then 1000 else Largest(pools) * 4, 4 * n)
  }

  /** No pool has room, and the limit forbids another one. */
  ghost predicate Full(pools: seq<Pool>, limit: nat, n: nat) {
    limit > 0 && TotalSize(pools) > limit && forall i :: 0 <= i < |pools| ==> !HasSpace(pools[i], n)
  }

  /** Where n bytes go: into the pool allocated last that has room, else into a new one. */
  ghost predicate MadeRoom(before: seq<Pool>, after: seq<Pool>, i: nat, n: nat) {
    if exists j :: 0 <= j < |before| && HasSpace(before[j], n) then
      && after == before && i < |before| && HasSpace(before[i], n)
      && forall j :: i < j < |before| ==> !HasSpace(before[j], n)
    else
      after == before + [Pool(NewSize(before, n), [])] && i == |before|
  }

  /** Pools only grow, and what was written stays. */
  ghost predicate Appended(before: seq<Pool>, after: seq<Pool>) {
    |before| <= |after| && forall i :: 0 <= i < |before| ==> before[i].used <= after[i].used
  }

  lemma AppendedKeeps(before: seq<Pool>, after: seq<Pool>, id: nat, p: Ptr, len: nat)
    requires Appended(before, after) && PtrOk(before, id, p, len)
    ensures PtrOk(after, id, p, len) && StringAt(after, p, len) == StringAt(before, p, len)
  {
    assert before[p.pool].used <= after[p.pool].used;
  }

  // The table.

  type Table = seq<seq<Entry>>

  ghost function Entries(t: Table): set<Entry> {
    set i, e | 0 <= i < |t| && e in t[i] :: e
  }

  /** Every entry is in the chain its key selects. */
  ghost predicate Filed(t: Table) {
    |t| > 0 && forall i, e :: 0 <= i < |t| && e in t[i] ==> e.okey % |t| == i
  }

  /** How an entry enters a chain while the table grows: behind the head. */
  function Linked(chain: seq<Entry>, e: Entry): seq<Entry> {
    if chain == [] then [e] else [chain[0], e] + chain[1..]
  }

  function Put(t: Table, e: Entry): Table
    requires |t| > 0
  {
    var key := e.okey % |t|;
    t[key := Linked(t[key], e)]
  }

  lemma ChangedChain(t: Table, key: nat, chain: seq<Entry>, e: Entry)
    requires key < |t| && Filed(t) && e.okey % |t| == key
    requires forall x :: x in chain <==> x == e || x in t[key]
    ensures Filed(t[key := chain]) && Entries(t[key := chain]) == Entries(t) + {e}
  {
    var t' := t[key := chain];
    forall x
      ensures x in Entries(t') <==> x in Entries(t) + {e}
    {
      if x in Entries(t) {
        var i :| 0 <= i < |t| && x in t[i];
        assert x in t'[i];
      }
      assert e in t'[key];
      if x in Entries(t') {
        var i :| 0 <= i < |t'| && x in t'[i];
        assert i != key ==> x in t[i];
        assert i == key ==> x == e || x in t[key];
      }
    }
  }

  lemma PutAdds(t: Table, e: Entry)
    requires Filed(t)
    ensures Filed(Put(t, e)) && Entries(Put(t, e)) == Entries(t) + {e}
  {
    var key := e.okey % |t|;
    assert t[key] == [] || t[key] == [t[key][0]] + t[key][1..];
    ChangedChain(t, key, Linked(t[key], e), e);
  }

  function Emptied(size: nat): Table {
    seq(size, _ => [])
  }

  lemma EmptiedEntries(size: nat)
    requires size > 0
    ensures Filed(Emptied(size)) && Entries(Emptied(size)) == {}
  {
  }

  /** All entries of a list put into a fresh table, in that order. */
  function Rehashed(order: seq<Entry>, size: nat): (t: Table)
    requires size > 0
    ensures |t| == size
  {
    if order == [] then Emptied(size) else Put(Rehashed(order[..|order| - 1], size), order[|order| - 1])
  }

  lemma {:induction false} RehashedEntries(order: seq<Entry>, size: nat)
    requires size > 0
    ensures Filed(Rehashed(order, size))
    ensures forall e :: e in Entries(Rehashed(order, size)) <==> e in order
  {
    if order == [] {
      EmptiedEntries(size);
    } else {
      var front, last := order[..|order| - 1], order[|order| - 1];
      RehashedEntries(front, size);
      PutAdds(Rehashed(front, size), last);
      assert order == front + [last];
    }
  }
}
