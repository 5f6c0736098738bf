/** The dictionary of dict.c: a chained hash table over append-only string pools. */
module Dict {
  import opened XmlStrings
  import opened DictModel
  import opened DictTable

  const INT_MAX := 0x7FFF_FFFF

  class Dictionary {
    const id: nat  // tells the memory of one dictionary from that of another
    const seed: bv32
    const subdict: Dictionary?
    var table: array<seq<Entry>>
    var nbElems: nat
    var pools: seq<Pool>  // in the order of allocation; the list of dict.c starts at the end
    var limit: nat
    ghost var names: Names
    ghost var key: Bytes -> nat  // the key function in force

    ghost function Content(): set<Entry>
      reads `table, table
    {
      Entries(table[..])
    }

    /** Every entry is filed in the chain of its key and points into the pools. */
    ghost predicate Valid()
      reads `table, `pools, `key, table
    {
      && table.Length in {128, 768, 4608}
      && Filed(table[..])
      && KeysOf(key, table.Length, seed)
      && EntriesOk(Content(), pools, id, table.Length != MIN_DICT_SIZE, key)
      && forall i :: 0 <= i < |pools| ==> |pools[i].used| <= pools[i].size
    }

    /** The entries are those of an interning dictionary. */
    ghost predicate Interns()
      reads this, table
    {
      && Interning(Content(), pools, key, names)
      && nbElems == |names.interned| + |names.empties|
    }

    /** xmlDictCreate and xmlDictCreateSub. */
    constructor (id: nat, seed: bv32, sub: Dictionary?)
      requires sub != null ==> sub.id != id
      ensures this.id == id && subdict == sub && this.seed == (if sub == null then seed else sub.seed)
      ensures fresh(table) && Valid() && Interns() && Content() == {}
      ensures names == Names(map[], map[]) && limit == 0 && table.Length == MIN_DICT_SIZE
    {
      this.id := id;
      this.subdict := sub;
      this.seed := if sub == null then seed else sub.seed;
      table := new seq<Entry>[MIN_DICT_SIZE](_ => []);
      nbElems, pools, limit := 0, [], 0;
      names := Names(map[], map[]);
      ghost var sd := if sub == null then seed else sub.seed;
      key := s => KeyOf(MIN_DICT_SIZE, sd, s);
      new;
      assert table[..] == Emptied(MIN_DICT_SIZE);
      EmptiedEntries(MIN_DICT_SIZE);
    }

    /** The pool scan shared by xmlDictAddString and xmlDictAddQString: a pool with more than n bytes left. */
    method RoomFor(n: nat) returns (found: Option<nat>)
      requires Valid()
      modifies this`pools
      ensures found.None? <==> Full(old(pools), limit, n)
      ensures found.None? ==> pools == old(pools)
      ensures found.Some? ==> MadeRoom(old(pools), pools, found.value, n)
      ensures found.Some? ==> found.value < |pools| && HasSpace(pools[found.value], n)
      ensures forall i :: 0 <= i < |pools| ==> |pools[i].used| <= pools[i].size
    {
      var size, total;
      found, size, total := ScanPools(n);
      if found.Some? { return; }
      if limit > 0 && total > limit {
        return None;
      }
      found := AddPool(n, size);
    }

    /** The loop: the pool with room, or the largest size and the sum of all. */
    method ScanPools(n: nat) returns (found: Option<nat>, size: nat, total: nat)
      requires Valid()
      ensures found.Some? ==> MadeRoom(pools, pools, found.value, n) && found.value < |pools|
      ensures found.Some? ==> HasSpace(pools[found.value], n)
      ensures found.None? ==> forall i :: 0 <= i < |pools| ==> !HasSpace(pools[i], n)
      ensures found.None? ==> total == TotalSize(pools) && size == Largest(pools)
    {
      found, size, total := None, 0, 0;
      ghost var ps := pools;
      var i := |pools|;
      ScannedFromEnd(ps);
      while i > 0
        invariant 0 <= i <= |ps| && Scanned(ps, i, size, total)
        invariant forall j :: i <= j < |ps| ==> !HasSpace(ps[j], n)
      {
        i := i - 1;
        if pools[i].size - |pools[i].used| > n {
          return Some(i), size, total;
        }
        ScannedNext(ps, i, size, total);
        if pools[i].size > size {
          size := pools[i].size;
        }
        total := total + pools[i].size;
      }
      ScannedAll(ps, size, total);
    }

    /** The allocation of another pool. */
    method AddPool(n: nat, largest: nat) returns (found: Option<nat>)
      requires largest == Largest(pools) && forall i :: 0 <= i < |pools| ==> |pools[i].used| <= pools[i].size
      modifies this`pools
      ensures pools == old(pools) + [Pool(NewSize(old(pools), n), [])] && found == Some(|old(pools)|)
      ensures forall i :: 0 <= i < |pools| ==> |pools[i].used| <= pools[i].size
    {
      var size := if largest == 0 then 1000 else largest * 4;
      if size < 4 * n {
        size := 4 * n;
      }
      pools := pools + [Pool(size, [])];
      found := Some(|pools| - 1);
    }

    /** What adding a string to the pools guarantees: only appended, at a fresh place, zero-terminated. */
    ghost predicate Stored(before: seq<Pool>, p: Ptr, s: Bytes)
      reads this
    {
      && Appended(before, pools)
      && PtrOk(pools, id, p, |s|) && StringAt(pools, p, |s|) == s
      && (p.pool < |before| ==> p.offset >= |before[p.pool].used|)
      && forall i :: 0 <= i < |pools| ==> |pools[i].used| <= pools[i].size
    }

    /** xmlDictAddString. */
    method AddString(name: Bytes) returns (ret: Option<Ptr>)
      requires Valid()
      modifies this`pools
      ensures ret.Some? ==> Stored(old(pools), ret.value, name)
      ensures ret.None? <==> Full(old(pools), limit, |name|)
      ensures ret.None? ==> pools == old(pools)
    {
      var room := RoomFor(|name|);
      if room.None? { return None; }
      var p := Append(room.value, name + [0]);
      ret := Some(p);
      assert StringAt(pools, ret.value, |name|) == name;
    }

    /** xmlDictAddQString, for a non-NULL prefix: three copies into one place. */
    method AddQString(prefix: Bytes, name: Bytes) returns (ret: Option<Ptr>)
      requires Valid()
      modifies this`pools
      ensures ret.Some? ==> Stored(old(pools), ret.value, Joined(prefix, name))
      ensures ret.None? <==> Full(old(pools), limit, |Joined(prefix, name)|)
      ensures ret.None? ==> pools == old(pools)
    {
      var room := RoomFor(|name| + |prefix| + 1);
      if room.None? { return None; }
      var p := Append(room.value, prefix + [COLON] + name + [0]);
      ret := Some(p);
      assert StringAt(pools, ret.value, |Joined(prefix, name)|) == Joined(prefix, name);
    }

    /** Copies bytes to the free pointer of a pool that has room for them. */
    method Append(i: nat, bytes: Bytes) returns (ret: Ptr)
      requires i < |pools| && |pools[i].used| + |bytes| <= pools[i].size
      requires forall j :: 0 <= j < |pools| ==> |pools[j].used| <= pools[j].size
      modifies this`pools
      ensures ret == Ptr(id, i, |old(pools)[i].used|)
      ensures pools == old(pools)[i := old(pools)[i].(used := old(pools)[i].used + bytes)]
    {
      ret := Ptr(id, i, |pools[i].used|);
      pools := pools[i := pools[i].(used := pools[i].used + bytes)];
    }

    /** The loop over one non-empty chain: stops at the first match, else counts the links followed. */
    method Scan(chain: seq<Entry>, okey: nat, s: Bytes) returns (found: Option<Ptr>, nbi: nat)
      requires chain != []
      ensures found == FirstIn(chain, pools, okey, s)
      ensures found.None? ==> nbi == |chain| - 1
    {
      nbi := 0;
      while nbi < |chain| - 1
        invariant nbi < |chain|
        invariant forall j :: 0 <= j < nbi ==> !Matches(pools, chain[j], okey, s)
      {
        var insert := chain[nbi];
        if insert.okey == okey && insert.len == |s| && StringAt(pools, insert.name, |s|) == s {
          FirstInIs(chain, pools, okey, s, nbi);
          return Some(insert.name), nbi;
        }
        nbi := nbi + 1;
      }
      var insert := chain[nbi];
      FirstInIs(chain, pools, okey, s, nbi);
      if insert.okey == okey && insert.len == |s| && StringAt(pools, insert.name, |s|) == s {
        return Some(insert.name), nbi;
      }
      FirstInIs(chain, pools, okey, s, nbi + 1);
      found := None;
    }

    /** The same loop with xmlStrQEqual in place of the byte comparison, which refuses an empty prefix. */
    method QScan(chain: seq<Entry>, okey: nat, prefix: Bytes, name: Bytes) returns (found: Option<Ptr>, nbi: nat)
      requires chain != []
      ensures found == if prefix == [] then None else FirstIn(chain, pools, okey, Joined(prefix, name))
      ensures found.None? ==> nbi == |chain| - 1
    {
      var len := |prefix| + 1 + |name|;
      ghost var s := Joined(prefix, name);
      nbi := 0;
      while nbi < |chain| - 1
        invariant nbi < |chain|
        invariant prefix != [] ==> forall j :: 0 <= j < nbi ==> !Matches(pools, chain[j], okey, s)
      {
        var insert := chain[nbi];
        if insert.okey == okey && insert.len == len && QEqual(prefix, name, StringAt(pools, insert.name, len)) {
          FirstInIs(chain, pools, okey, s, nbi);
          return Some(insert.name), nbi;
        }
        nbi := nbi + 1;
      }
      var insert := chain[nbi];
      if prefix != [] {
        FirstInIs(chain, pools, okey, s, nbi);
      }
      if insert.okey == okey && insert.len == len && QEqual(prefix, name, StringAt(pools, insert.name, len)) {
        return Some(insert.name), nbi;
      }
      if prefix != [] {
        FirstInIs(chain, pools, okey, s, nbi + 1);
      }
      found := None;
    }

    /** What searching one chain finds. */
    ghost function Hit(okey: nat, s: Bytes): Option<Ptr>
      requires table.Length > 0
      reads `table, `pools, table
    {
      FirstIn(table[okey % table.Length], pools, okey, s)
    }

    /** The search of one dictionary for s: all its entries with this key are in one chain. */
    method Find(okey: nat, s: Bytes) returns (found: Option<Ptr>, nbi: nat)
      requires Valid()
      ensures found == Hit(okey, s)
      ensures found.Some? ==> FoundAs(Content(), pools, okey, s, found.value)
      ensures found.None? ==> NotFound(Content(), pools, okey, s)
      ensures Content() == {} ==> nbi == 0
    {
      var key := okey % table.Length;
      if table[key] == [] {
        found, nbi := None, 0;
      } else {
        assert table[key][0] in table[..][key] && table[key][0] in Content();
        found, nbi := Scan(table[key], okey, s);
      }
      ChainIsEnough(table[..], pools, okey, s);
    }

    method QFind(okey: nat, prefix: Bytes, name: Bytes) returns (found: Option<Ptr>, nbi: nat)
      requires Valid()
      ensures found == if prefix == [] then None else Hit(okey, Joined(prefix, name))
      ensures Content() == {} ==> nbi == 0
    {
      var key := okey % table.Length;
      if table[key] == [] {
        found, nbi := None, 0;
      } else {
        assert table[key][0] in table[..][key] && table[key][0] in Content();
        found, nbi := QScan(table[key], okey, prefix, name);
      }
    }

    /** xmlDictGrow, for a size between 8 and 8 * 2048. */
    method Grow(size: nat)
      requires Valid() && size in {768, 4608} && size == 6 * table.Length
      modifies this
      ensures Valid() && fresh(table) && table.Length == size && pools == old(pools)
      ensures nbElems == old(nbElems) && limit == old(limit)
      ensures names == Regrown(old(table.Length) != MIN_DICT_SIZE, old(names))
      ensures old(Interns()) ==> Interns()
      ensures old(table.Length) != MIN_DICT_SIZE ==> Content() == old(Content()) && key == old(key)
    {
      var keepKeys := table.Length != MIN_DICT_SIZE;
      ghost var sd := seed;
      ghost var key': Bytes -> nat := if keepKeys then key else (s => KeyOf(size, sd, s));
      GrowthKeys(keepKeys, table.Length, size, seed, key, key');
      GrownTable(table[..], size, keepKeys, pools, id, key, key', names);
      RegrownSize(keepKeys, names);
      var grown := Rehash(size, keepKeys, key');
      table := grown;
      key := key';
      names := Regrown(keepKeys, names);
    }

    /** The two passes of xmlDictGrow: first the entries in the array, then the linked ones. */
    method Rehash(size: nat, keepKeys: bool, ghost key': Bytes -> nat) returns (grown: array<seq<Entry>>)
      requires size > 0 && BigKeys(key', seed)
      ensures fresh(grown) && grown.Length == size
      ensures grown[..] == Grown(table[..], size, pools, keepKeys, key')
    {
      grown := new seq<Entry>[size](_ => []);
      assert grown[..] == Refilled(pools, keepKeys, key', [], size);
      ghost var heads := PutBackHeads(grown, keepKeys, key');
      PutBackTails(grown, keepKeys, heads, key');
    }

    method PutBackHeads(grown: array<seq<Entry>>, keepKeys: bool, ghost key': Bytes -> nat)
      returns (ghost order: seq<Entry>)
      requires BigKeys(key', seed) && grown.Length > 0 && grown != table
      requires grown[..] == Refilled(pools, keepKeys, key', [], grown.Length)
      modifies grown
      ensures order == HeadsOf(table[..], table.Length)
      ensures grown[..] == Refilled(pools, keepKeys, key', order, grown.Length)
    {
      ghost var t := table[..];
      order := [];
      for i := 0 to table.Length
        invariant table[..] == t && order == HeadsOf(t, i)
        invariant grown[..] == Refilled(pools, keepKeys, key', order, grown.Length)
      {
        if table[i] != [] {
          PutBack(grown, keepKeys, table[i][0], order, key');
          order := order + [t[i][0]];
        }
      }
    }

    method PutBackTails(grown: array<seq<Entry>>, keepKeys: bool, ghost heads: seq<Entry>, ghost key': Bytes -> nat)
      requires BigKeys(key', seed) && grown.Length > 0 && grown != table
      requires grown[..] == Refilled(pools, keepKeys, key', heads, grown.Length)
      modifies grown
      ensures grown[..] == Refilled(pools, keepKeys, key', WithTails(heads, table[..], table.Length), grown.Length)
    {
      ghost var t := table[..];
      ghost var order := heads;
      for i := 0 to table.Length
        invariant table[..] == t && order == WithTails(heads, t, i)
        invariant grown[..] == Refilled(pools, keepKeys, key', order, grown.Length)
      {
        PutBackLinks(grown, keepKeys, table[i], order, key');
        order := WithLinks(order, t[i], |t[i]|);
      }
    }

    method PutBackLinks(grown: array<seq<Entry>>, keepKeys: bool, chain: seq<Entry>, ghost before: seq<Entry>,
                        ghost key': Bytes -> nat)
      requires BigKeys(key', seed) && grown.Length > 0 && grown != table
      requires grown[..] == Refilled(pools, keepKeys, key', before, grown.Length)
      modifies grown
      ensures grown[..] == Refilled(pools, keepKeys, key', WithLinks(before, chain, |chain|), grown.Length)
    {
      var iter := 1;
      ghost var order := before;
      while iter < |chain|
        invariant 1 <= iter && (iter <= |chain| || |chain| == 0)
        invariant order == WithLinks(before, chain, if iter <= |chain| then iter else 0)
        invariant grown[..] == Refilled(pools, keepKeys, key', order, grown.Length)
      {
        PutBack(grown, keepKeys, chain[iter], order, key');
        order := order + [chain[iter]];
        iter := iter + 1;
      }
    }

    /** Puts one entry into the grown table under its new key. */
    method PutBack(grown: array<seq<Entry>>, keepKeys: bool, e: Entry, ghost order: seq<Entry>,
                   ghost key': Bytes -> nat)
      requires BigKeys(key', seed) && grown.Length > 0 && grown != table
      requires grown[..] == Refilled(pools, keepKeys, key', order, grown.Length)
      modifies grown
      ensures grown[..] == Refilled(pools, keepKeys, key', order + [e], grown.Length)
    {
      RefilledSnoc(pools, keepKeys, key', order, e, grown.Length);
      var entry := e;
      if !keepKeys {
        var okey := ComputeBigKey(StringAt(pools, e.name, e.len), seed);
        entry := e.(okey := okey as nat);
      }
      var key := entry.okey % grown.Length;
      if grown[key] == [] {
        grown[key] := [entry];
      } else {
        grown[key] := [grown[key][0], entry] + grown[key][1..];
      }
    }

    /** Links a stored string at the end of its chain, and grows the table if that chain was long. */
    method Insert(p: Ptr, s: Bytes, okey: nat, nbi: nat)
      requires Valid() && PtrOk(pools, id, p, |s|) && StringAt(pools, p, |s|) == s
      requires forall e :: e in Content() ==> e.name != p
      requires table.Length != MIN_DICT_SIZE ==> okey == key(s)
      modifies this, table
      ensures Valid() && (table == old(table) || fresh(table)) && pools == old(pools) && limit == old(limit)
      ensures names == Regrown(KeysStay(old(table.Length)), old(Named(names, s, p, okey)))
      ensures KeysStay(old(table.Length)) ==> key == old(key) && Content() == old(Content()) + {Entry(p, |s|, okey)}
      ensures nbi <= MAX_HASH_LEN ==> table.Length == old(table.Length)
      ensures old(Interns()) && (s != [] ==> okey == old(key)(s) && s !in old(names.interned)) ==> Interns()
    {
      AddEntry(p, s, okey);
      GrowIfLong(nbi);
    }

    method GrowIfLong(nbi: nat)
      requires Valid()
      modifies this
      ensures Valid() && (table == old(table) || fresh(table)) && pools == old(pools) && limit == old(limit)
      ensures names == Regrown(KeysStay(old(table.Length)), old(names))
      ensures KeysStay(old(table.Length)) ==> key == old(key) && Content() == old(Content())
      ensures nbi <= MAX_HASH_LEN ==> table.Length == old(table.Length)
      ensures old(Interns()) ==> Interns()
    {
      if nbi > MAX_HASH_LEN && table.Length <= 8 * 2048 / 2 / MAX_HASH_LEN {
        Grow(MAX_HASH_LEN * 2 * table.Length);
      }
    }

    /** Growing from the minimal size changes the keys. */
    predicate KeysStay(before: nat)
      reads `table
    {
      table.Length == before || before != MIN_DICT_SIZE
    }

    /** Both sizes are minimal, or neither is. */
    predicate SameKeys(before: nat)
      reads `table
    {
      table.Length == MIN_DICT_SIZE <==> before == MIN_DICT_SIZE
    }

    method AddEntry(p: Ptr, s: Bytes, okey: nat)
      requires Valid() && PtrOk(pools, id, p, |s|) && StringAt(pools, p, |s|) == s
      requires forall e :: e in Content() ==> e.name != p
      requires table.Length != MIN_DICT_SIZE ==> okey == key(s)
      modifies table, `names, `nbElems
      ensures Valid() && Content() == old(Content()) + {Entry(p, |s|, okey)}
      ensures names == Named(old(names), s, p, okey)
      ensures old(Interns()) && (s != [] ==> okey == key(s) && s !in old(names.interned)) ==> Interns()
    {
      if Interns() && (s != [] ==> okey == key(s) && s !in names.interned) {
        FreshPtr(Content(), pools, key, names, p);
        InterningAdd(Content(), pools, key, names, p, s, okey);
      }
      LinkEntry(Entry(p, |s|, okey));
      names := Named(names, s, p, okey);
      nbElems := nbElems + 1;
    }

    method LinkEntry(e: Entry)
      requires Filed(table[..])
      modifies table
      ensures Filed(table[..]) && Content() == old(Content()) + {e}
    {
      var key := e.okey % table.Length;
      ChangedChain(table[..], key, table[key] + [e], e);
      ghost var before := table[..];
      table[key] := table[key] + [e];
      assert table[..] == before[key := before[key] + [e]];
    }

    ghost function SubTables(): set<object>
      reads subdict
    {
      if subdict == null then {} else {subdict.table}
    }

    /** The sub-dictionary is a separate one with the same seed. */
    ghost predicate SubValid()
      reads `table, subdict, SubTables()
    {
      subdict != null ==>
        && subdict != this && subdict.id != id && subdict.table != table
        && subdict.seed == seed && subdict.Valid()
    }

    ghost predicate SubInterns()
      reads subdict, SubTables()
    {
      subdict != null ==> subdict.Interns()
    }

    ghost function SubNames(): Names
      reads subdict
    {
      if subdict == null then Names(map[], map[]) else subdict.names
    }

    /** p is a copy of s, here or in the sub-dictionary. */
    ghost predicate PointsTo(p: Ptr, s: Bytes)
      reads `pools, subdict
    {
      || (PtrOk(pools, id, p, |s|) && StringAt(pools, p, |s|) == s)
      || (subdict != null && PtrOk(subdict.pools, subdict.id, p, |s|) && StringAt(subdict.pools, p, |s|) == s)
    }

    /** The key of a string in the sub-dictionary: recomputed only if just one of the tables has the minimal size. */
    method SubKey(mem: Bytes, len: nat, okey: nat) returns (skey: nat)
      requires subdict != null && SubValid() && table.Length > 0 && len <= |mem|
      requires okey == ComputeKey(table.Length, seed, mem, len)
      ensures skey == ComputeKey(subdict.table.Length, subdict.seed, mem, len)
    {
      if (table.Length == MIN_DICT_SIZE && subdict.table.Length != MIN_DICT_SIZE)
        || (table.Length != MIN_DICT_SIZE && subdict.table.Length == MIN_DICT_SIZE) {
        skey := ComputeKey(subdict.table.Length, subdict.seed, mem, len);
      } else {
        skey := okey;
      }
    }

    /** The string is looked up under its own key: it has one by itself, or the big hash is in use. */
    ghost predicate Canonical(mem: Bytes, len: nat)
      reads `table, subdict
    {
      || Plain(mem, len)
      || (table.Length != MIN_DICT_SIZE && (subdict != null ==> subdict.table.Length != MIN_DICT_SIZE))
    }

    ghost predicate SubMissed(s: Bytes, canonical: bool)
      reads subdict, SubTables()
    {
      subdict != null ==> exists skey :: Missed(subdict.Content(), subdict.pools, subdict.key, skey, s, canonical)
    }

    ghost predicate SubFound(s: Bytes, p: Ptr)
      reads subdict, SubTables()
    {
      subdict != null && exists skey :: FoundAs(subdict.Content(), subdict.pools, skey, s, p)
    }

    /** What a search under okey, then in the sub-dictionary, found. */
    ghost predicate Searched(okey: nat, s: Bytes, canonical: bool, found: Option<Ptr>)
      reads `table, `pools, `key, table, subdict, SubTables()
    {
      match found
      case Some(p) =>
        || FoundAs(Content(), pools, okey, s, p)
        || (Missed(Content(), pools, key, okey, s, canonical) && SubFound(s, p))
      case None =>
        Missed(Content(), pools, key, okey, s, canonical) && SubMissed(s, canonical)
    }

    /** Where a search for s finds it: the first match of one chain here, else of one there. */
    ghost function HeldUnder(okey: nat, skey: nat, s: Bytes): Option<Ptr>
      requires table.Length > 0 && (subdict != null ==> subdict.table.Length > 0)
      reads `table, `pools, table, subdict, SubTables()
    {
      var own := Hit(okey, s);
      if own.Some? || subdict == null then own else subdict.Hit(skey, s)
    }

    /** The same under the keys of s in both tables. */
    ghost function Held(s: Bytes): Option<Ptr>
      requires table.Length > 0 && (subdict != null ==> subdict.table.Length > 0)
      reads this, table, subdict, SubTables()
    {
      HeldUnder(key(s), if subdict == null then 0 else subdict.key(s), s)
    }

    /** The key computed for the first len bytes of mem. */
    ghost function KeyAt(mem: Bytes, len: nat): nat
      requires len <= |mem|
      reads `table, `key
    {
      if table.Length == MIN_DICT_SIZE then FastKey(mem, len) else key(mem[..len])
    }

    /** And under the keys computed for the first len bytes of mem. */
    ghost function HeldAt(mem: Bytes, len: nat): Option<Ptr>
      requires len <= |mem| && table.Length > 0 && (subdict != null ==> subdict.table.Length > 0)
      reads this, table, subdict, SubTables()
    {
      HeldUnder(KeyAt(mem, len), if subdict == null then 0 else subdict.KeyAt(mem, len), mem[..len])
    }

    /** A canonical search is one under the keys of the string. */
    lemma CanonicalIsHeld(mem: Bytes, len: nat)
      requires Valid() && SubValid() && len <= |mem| && Canonical(mem, len)
      ensures HeldAt(mem, len) == Held(mem[..len])
    {
      KeyIsRight(key, table.Length, seed, mem, len);
      if subdict != null {
        KeyIsRight(subdict.key, subdict.table.Length, seed, mem, len);
      }
    }

    /** The two searches common to xmlDictLookup and xmlDictExists. */
    method Search(mem: Bytes, len: nat) returns (found: Option<Ptr>, okey: nat, nbi: nat)
      requires Valid() && SubValid() && len <= |mem|
      ensures okey == ComputeKey(table.Length, seed, mem, len)
      ensures table.Length != MIN_DICT_SIZE ==> okey == key(mem[..len])
      ensures Searched(okey, mem[..len], Canonical(mem, len), found)
      ensures found == HeldAt(mem, len)
      ensures subdict == null && Content() == {} ==> nbi == 0
    {
      var s := mem[..len];
      ghost var canonical := Canonical(mem, len);
      okey := ComputeKey(table.Length, seed, mem, len);
      KeyIsRight(key, table.Length, seed, mem, len);
      found, nbi := Find(okey, s);
      if found.Some? { return; }
      if subdict != null {
        var skey := SubKey(mem, len, okey);
        KeyIsRight(subdict.key, subdict.table.Length, seed, mem, len);
        var n;
        found, n := subdict.Find(skey, s);
        nbi := nbi + n;
        if found.None? {
          assert Missed(subdict.Content(), subdict.pools, subdict.key, skey, s, canonical);
        }
      }
    }

    /** The strings longer than the limit or than half the integer range are refused. */
    predicate TooLong(len: nat)
      reads `limit
    {
      (limit > 0 && len >= limit) || len > INT_MAX / 2
    }

    /** What a successful search means for the names. */
    lemma SearchedSome(okey: nat, s: Bytes, canonical: bool, p: Ptr)
      requires Valid() && SubValid() && Searched(okey, s, canonical, Some(p))
      ensures PointsTo(p, s)
      ensures Interns() && SubInterns() ==> Looked(names, SubNames(), s, p, names, canonical)
    {
      if FoundAs(Content(), pools, okey, s, p) {
        if Interns() {
          LookedOwn(Content(), pools, key, names, SubNames(), okey, s, p, canonical);
        }
      } else {
        var skey :| FoundAs(subdict.Content(), subdict.pools, skey, s, p);
        if Interns() && SubInterns() {
          LookedSub(Content(), pools, key, names, subdict.Content(), subdict.pools, subdict.key, subdict.names,
                    okey, skey, s, p, canonical);
        }
      }
    }

    /** Nothing of the sub-dictionary gets in the way of a new string. */
    lemma SubMissedMeans(s: Bytes, canonical: bool, p: Ptr)
      requires SubValid() && SubInterns() && SubMissed(s, canonical) && p.owner == id
      ensures canonical && Settled(s, SubNames()) ==> s !in View(SubNames())
      ensures p !in View(SubNames()).Values && p !in SubNames().interned.Values
    {
      if subdict != null {
        var skey :| Missed(subdict.Content(), subdict.pools, subdict.key, skey, s, canonical);
        MissedInView(subdict.Content(), subdict.pools, subdict.key, subdict.names, skey, s, canonical);
        FreshPtr(subdict.Content(), subdict.pools, subdict.key, subdict.names, p);
      }
    }

    /** A string that has just been stored becomes an entry; `missed` says that it was in neither dictionary. */
    method Commit(p: Ptr, s: Bytes, okey: nat, nbi: nat, ghost before: seq<Pool>, ghost missed: bool,
                  ghost canonical: bool)
      requires Filed(table[..]) && table.Length in {128, 768, 4608} && KeysOf(key, table.Length, seed)
      requires EntriesOk(Content(), before, id, table.Length != MIN_DICT_SIZE, key)
      requires Stored(before, p, s) && SubValid()
      requires missed ==> SubMissed(s, canonical) && Missed(Content(), before, key, okey, s, canonical)
      requires table.Length != MIN_DICT_SIZE ==> okey == key(s)
      modifies this, table
      ensures Valid() && SubValid() && (table == old(table) || fresh(table))
      ensures pools == old(pools) && limit == old(limit) && PointsTo(p, s)
      ensures forall e :: e in old(Content()) ==> e.name != p
      ensures names == Regrown(KeysStay(old(table.Length)), Named(old(names), s, p, okey))
      ensures KeysStay(old(table.Length)) ==> key == old(key) && Content() == old(Content()) + {Entry(p, |s|, okey)}
      ensures nbi <= MAX_HASH_LEN ==> table.Length == old(table.Length)
      ensures missed && old(InternsIn(before)) && SubInterns() ==>
                Interns() && Looked(old(names), SubNames(), s, p, names, canonical)
    {
      ghost var entries0, key0, names0, interns := Content(), key, names, missed && InternsIn(before);
      InterningAppended(entries0, before, pools, id, table.Length != MIN_DICT_SIZE, key, names);
      FreshEntry(before, p, s);
      if interns {
        MissedInView(entries0, before, key0, names0, okey, s, canonical);
      }
      Insert(p, s, okey, nbi);
      if interns && SubInterns() {
        SubMissedMeans(s, canonical, p);
        LookedNew(entries0, before, key0, names0, SubNames(), okey, s, p, names, canonical);
      }
    }

    /** Interning with respect to the pools before the last string was stored. */
    ghost predicate InternsIn(before: seq<Pool>)
      reads this, table
    {
      Interning(Content(), before, key, names) && nbElems == |names.interned| + |names.empties|
    }

    lemma FreshEntry(before: seq<Pool>, p: Ptr, s: Bytes)
      requires EntriesOk(Content(), before, id, table.Length != MIN_DICT_SIZE, key) && Stored(before, p, s)
      ensures forall e :: e in Content() ==> e.name != p
    {
    }

    /** What has been entered is found under its key from then on. */
    lemma Findable(p: Ptr, s: Bytes, okey: nat, before: set<Entry>, pools0: seq<Pool>, size: nat, key0: Bytes -> nat)
      requires EntriesOk(before, pools0, id, size != MIN_DICT_SIZE, key0) && NotFound(before, pools0, okey, s)
      requires Valid() && Appended(pools0, pools) && StringAt(pools, p, |s|) == s
      requires KeysStay(size) ==> Content() == before + {Entry(p, |s|, okey)}
      ensures KeysStay(size) ==> Hit(okey, s) == Some(p)
    {
      if KeysStay(size) {
        FoundAgain(table[..], before, pools0, pools, id, size != MIN_DICT_SIZE, key0, okey, s, p);
      }
    }

    /** The end of xmlDictLookup: s is in neither dictionary. */
    method Add(s: Bytes, okey: nat, nbi: nat, ghost canonical: bool) returns (result: Option<Ptr>)
      requires Valid() && SubValid() && Searched(okey, s, canonical, None)
      requires table.Length != MIN_DICT_SIZE ==> okey == key(s)
      requires subdict == null && Content() == {} ==> nbi == 0
      modifies this, table
      ensures Valid() && SubValid() && (table == old(table) || fresh(table))
      ensures Appended(old(pools), pools) && limit == old(limit)
      ensures result.None? <==> Full(old(pools), limit, |s|)
      ensures result.None? ==> Content() == old(Content()) && names == old(names) && (old(Interns()) ==> Interns())
      ensures result.Some? && KeysStay(old(table.Length)) ==> key == old(key) && Hit(okey, s) == result
      ensures result.Some? ==>
        && (forall e :: e in old(Content()) ==> e.name != result.value)
        && Came(result.value, s, canonical, okey, old(Content()), old(pools), old(names), old(Interns()),
                old(table.Length))
    {
      ghost var skey :| subdict != null ==>
                          Missed(subdict.Content(), subdict.pools, subdict.key, skey, s, canonical);
      result := AddString(s);
      assert subdict != null ==> Missed(subdict.Content(), subdict.pools, subdict.key, skey, s, canonical);
      if result.Some? {
        Commit(result.value, s, okey, nbi, old(pools), true, canonical);
        Findable(result.value, s, okey, old(Content()), old(pools), old(table.Length), old(key));
      }
    }

    /** xmlDictLookup.  A negative length stands for the length of the zero-terminated string. */
    method Lookup(mem: Bytes, len: int) returns (result: Option<Ptr>)
      requires Valid() && SubValid() && len <= |mem|
      modifies this, table
      ensures Valid() && SubValid() && (table == old(table) || fresh(table))
      ensures Appended(old(pools), pools) && limit == old(limit)
      ensures var l := if len < 0 then |mem| else len;
        result.None? <==> TooLong(l) || (old(HeldAt(mem, l)).None? && Full(old(pools), limit, l))
      ensures result.None? ==> Content() == old(Content()) && names == old(names) && (old(Interns()) ==> Interns())
      ensures result.Some? ==>
        var l := if len < 0 then |mem| else len;
        && PointsTo(result.value, mem[..l])
        && (old(Interns()) && SubInterns() ==>
              Interns() && Looked(old(names), SubNames(), mem[..l], result.value, names, old(Canonical(mem, l))))
      ensures var l := if len < 0 then |mem| else len;
        !TooLong(l) ==> HeldOrNew(old(HeldAt(mem, l)), old(Content()), Content(), result)
      ensures var l := if len < 0 then |mem| else len;
        result.Some? && SameKeys(old(table.Length)) ==> HeldAt(mem, l) == result
      ensures result.Some? && subdict == null ==>
        var l := if len < 0 then |mem| else len;
        && Entered(old(Content()), old(pools), old(names), ComputeKey(old(table.Length), seed, mem, l), mem[..l],
                   result.value, KeysStay(old(table.Length)), names)
        && (old(Content()) == {} ==> table.Length == old(table.Length))
    {
      var l := if len < 0 then |mem| else len;
      if TooLong(l) { return None; }
      ghost var canonical, okey := Canonical(mem, l), ComputeKey(table.Length, seed, mem, l);
      ghost var before, pools0, names0, interned, size := Content(), pools, names, Interns(), table.Length;
      result := FindOrAdd(mem, l, mem[..l]);
      assert result.Some? ==> CameAs(result.value, mem[..l], canonical, okey, before, pools0, names0, interned, size);
    }

    /** Its work on the first l bytes, which are s. */
    method FindOrAdd(mem: Bytes, l: nat, s: Bytes) returns (result: Option<Ptr>)
      requires Valid() && SubValid() && l <= |mem| && s == mem[..l]
      modifies this, table
      ensures Valid() && SubValid() && (table == old(table) || fresh(table))
      ensures Appended(old(pools), pools) && limit == old(limit)
      ensures result.None? <==> old(HeldAt(mem, l)).None? && Full(old(pools), limit, l)
      ensures result.None? ==> Content() == old(Content()) && names == old(names) && (old(Interns()) ==> Interns())
      ensures result.Some? ==>
        Came(result.value, s, old(Canonical(mem, l)), ComputeKey(old(table.Length), seed, mem, l), old(Content()),
             old(pools), old(names), old(Interns()), old(table.Length))
      ensures HeldOrNew(old(HeldAt(mem, l)), old(Content()), Content(), result)
      ensures result.Some? && SameKeys(old(table.Length)) ==> HeldAt(mem, l) == result
    {
      ghost var canonical := Canonical(mem, l);
      var okey, nbi;
      result, okey, nbi := Search(mem, l);
      assert Content() == old(Content()) && HeldAt(mem, l) == old(HeldAt(mem, l)) && Interns() == old(Interns());
      if result.Some? {
        FoundCame(okey, s, canonical, result.value);
      } else {
        result := AddMissing(mem, l, s, okey, nbi, canonical);
      }
    }

    method AddMissing(mem: Bytes, l: nat, s: Bytes, okey: nat, nbi: nat, ghost canonical: bool)
      returns (result: Option<Ptr>)
      requires Valid() && SubValid() && l <= |mem| && s == mem[..l] && Searched(okey, s, canonical, None)
      requires okey == KeyAt(mem, l) && (table.Length != MIN_DICT_SIZE ==> okey == key(s))
      requires subdict == null && Content() == {} ==> nbi == 0
      modifies this, table
      ensures Valid() && SubValid() && (table == old(table) || fresh(table))
      ensures Appended(old(pools), pools) && limit == old(limit)
      ensures result.None? <==> Full(old(pools), limit, |s|)
      ensures result.None? ==> Content() == old(Content()) && names == old(names) && (old(Interns()) ==> Interns())
      ensures result.Some? ==>
        && (forall e :: e in old(Content()) ==> e.name != result.value)
        && Came(result.value, s, canonical, okey, old(Content()), old(pools), old(names), old(Interns()),
                old(table.Length))
      ensures result.Some? && SameKeys(old(table.Length)) ==> HeldAt(mem, l) == result
    {
      ghost var size := table.Length;
      result := Add(s, okey, nbi, canonical);
      if result.Some? && SameKeys(size) {
        HitIsHeld(mem, l, okey, result.value);
      }
    }

    lemma HitIsHeld(mem: Bytes, l: nat, okey: nat, p: Ptr)
      requires Valid() && SubValid() && l <= |mem| && okey == KeyAt(mem, l) && Hit(okey, mem[..l]) == Some(p)
      ensures HeldAt(mem, l) == Some(p)
    {
    }

    /** What a lookup promises of the pointer it returns, from the state it found. */
    ghost predicate Came(p: Ptr, s: Bytes, canonical: bool, okey: nat, before: set<Entry>, pools0: seq<Pool>,
                         names0: Names, interned: bool, size: nat)
      reads this, table, subdict, SubTables()
    {
      forall q: Ptr :: q == p ==> CameAs(q, s, canonical, okey, before, pools0, names0, interned, size)
    }

    ghost predicate CameAs(p: Ptr, s: Bytes, canonical: bool, okey: nat, before: set<Entry>, pools0: seq<Pool>,
                           names0: Names, interned: bool, size: nat)
      reads this, table, subdict, SubTables()
    {
      && PointsTo(p, s)
      && (interned && SubInterns() ==> Interns() && Looked(names0, SubNames(), s, p, names, canonical))
      && (subdict == null ==>
            && Entered(before, pools0, names0, okey, s, p, KeysStay(size), names)
            && (before == {} ==> table.Length == size))
    }

    lemma FoundCame(okey: nat, s: Bytes, canonical: bool, p: Ptr)
      requires Valid() && SubValid() && Searched(okey, s, canonical, Some(p))
      ensures Came(p, s, canonical, okey, Content(), pools, names, Interns(), table.Length)
    {
      SearchedSome(okey, s, canonical, p);
    }

    /** The key of a qualified name; the fast one is a parameter. */
    ghost function QKey(s: Bytes, fastKey: nat): nat
      reads `table, `key
    {
      if table.Length == MIN_DICT_SIZE then fastKey else key(s)
    }

    /** Where a search for a qualified name finds it: nowhere if its prefix is empty. */
    ghost function HeldAsQ(prefix: Bytes, name: Bytes, fastKey: nat): Option<Ptr>
      requires table.Length > 0 && (subdict != null ==> subdict.table.Length > 0)
      reads this, table, subdict, SubTables()
    {
      var s := Joined(prefix, name);
      if prefix == [] then None
      else HeldUnder(QKey(s, fastKey), if subdict == null then 0 else subdict.QKey(s, fastKey), s)
    }

    method ComputeQKey(prefix: Bytes, name: Bytes) returns (okey: nat)
      requires KeysOf(key, table.Length, seed) && table.Length != MIN_DICT_SIZE
      ensures okey == key(Joined(prefix, name))
    {
      QKeyIsRight(key, table.Length, prefix, name, seed);
      var hash := ComputeBigQKey(prefix, name, seed);
      okey := hash as nat;
    }

    /** The two searches of xmlDictQLookup.  `fastKey` is the value of xmlDictComputeFastQKey. */
    method QSearch(prefix: Bytes, name: Bytes, fastKey: nat) returns (found: Option<Ptr>, okey: nat, nbi: nat)
      requires Valid() && SubValid()
      ensures okey == QKey(Joined(prefix, name), fastKey) && found == HeldAsQ(prefix, name, fastKey)
      ensures subdict == null && Content() == {} ==> nbi == 0
    {
      okey := fastKey;
      if table.Length != MIN_DICT_SIZE {
        okey := ComputeQKey(prefix, name);
      }
      found, nbi := QFind(okey, prefix, name);
      if found.Some? { return; }
      if subdict != null {
        var n;
        found, n := QSearchSub(prefix, name, fastKey, okey);
        nbi := nbi + n;
      }
    }

    method QSearchSub(prefix: Bytes, name: Bytes, fastKey: nat, okey: nat) returns (found: Option<Ptr>, n: nat)
      requires Valid() && SubValid() && subdict != null
      requires okey == QKey(Joined(prefix, name), fastKey)
      ensures found == if prefix == [] then None
                       else subdict.Hit(subdict.QKey(Joined(prefix, name), fastKey), Joined(prefix, name))
    {
      var skey := okey;
      if table.Length == MIN_DICT_SIZE && subdict.table.Length != MIN_DICT_SIZE {
        skey := subdict.ComputeQKey(prefix, name);
      } else if table.Length != MIN_DICT_SIZE && subdict.table.Length == MIN_DICT_SIZE {
        skey := fastKey;
      }
      BigKeysAgree(key, table.Length, subdict.key, subdict.table.Length, seed, Joined(prefix, name));
      found, n := subdict.QFind(skey, prefix, name);
    }

    /** What these searches mean. */
    lemma HeldAsQMeans(prefix: Bytes, name: Bytes, fastKey: nat)
      requires Valid() && SubValid()
      ensures var s, held := Joined(prefix, name), HeldAsQ(prefix, name, fastKey); var okey := QKey(s, fastKey);
        && (table.Length != MIN_DICT_SIZE ==> okey == key(s))
        && (held.Some? ==> prefix != [] && PointsTo(held.value, s) && (subdict == null ==> Content() != {}))
        && (held.None? && prefix != [] ==> NotFound(Content(), pools, okey, s))
        && (prefix != [] && BigTables() ==> Searched(okey, s, true, held))
    {
      var s, okey := Joined(prefix, name), QKey(Joined(prefix, name), fastKey);
      QKeyIsRight(key, table.Length, prefix, name, seed);
      HitMeans(okey, s);
      if subdict != null {
        var skey := subdict.QKey(s, fastKey);
        QKeyIsRight(subdict.key, subdict.table.Length, prefix, name, seed);
        subdict.HitMeans(skey, s);
        if subdict.Hit(skey, s).None? && BigTables() {
          assert Missed(subdict.Content(), subdict.pools, subdict.key, skey, s, true);
        }
      }
    }

    lemma HitMeans(okey: nat, s: Bytes)
      requires Valid()
      ensures var found := Hit(okey, s);
        && (found.Some? ==> FoundAs(Content(), pools, okey, s, found.value)
                            && PtrOk(pools, id, found.value, |s|) && StringAt(pools, found.value, |s|) == s)
        && (found.None? ==> NotFound(Content(), pools, okey, s))
    {
      ChainIsEnough(table[..], pools, okey, s);
    }

    /** Both tables have left the minimal size. */
    ghost predicate BigTables()
      reads `table, subdict
    {
      table.Length != MIN_DICT_SIZE && (subdict != null ==> subdict.table.Length != MIN_DICT_SIZE)
    }

    /** xmlDictQLookup, for a non-NULL prefix.  Beyond the minimal size it keeps the promise that Lookup gives
        for the joined string; an empty prefix, though, never finds an existing entry. */
    method QLookup(prefix: Bytes, name: Bytes, fastKey: nat) returns (result: Option<Ptr>)
      requires Valid() && SubValid()
      modifies this, table
      ensures Valid() && SubValid() && (table == old(table) || fresh(table))
      ensures Appended(old(pools), pools) && limit == old(limit)
      ensures result.None? <==>
        old(HeldAsQ(prefix, name, fastKey)).None? && Full(old(pools), limit, |Joined(prefix, name)|)
      ensures result.None? ==> Content() == old(Content()) && names == old(names)
      ensures result.Some? ==> PointsTo(result.value, Joined(prefix, name))
      ensures HeldOrNew(old(HeldAsQ(prefix, name, fastKey)), old(Content()), Content(), result)
      ensures result.Some? && prefix != [] && SameKeys(old(table.Length)) ==>
        HeldAsQ(prefix, name, fastKey) == result
      ensures result.Some? && subdict == null && old(Content()) == {} ==>
        OneMore(old(table.Length), {}, result.value, |Joined(prefix, name)|, old(QKey(Joined(prefix, name), fastKey)))
      ensures result.Some? && prefix != [] && old(BigTables()) && old(Interns()) && SubInterns() ==>
        Interns() && Looked(old(names), SubNames(), Joined(prefix, name), result.value, names, true)
    {
      ghost var names0, full := names, prefix != [] && BigTables() && Interns() && SubInterns();
      result := QFindOrAdd(prefix, name, Joined(prefix, name), fastKey);
      assert result.Some? ==> QCameAs(result.value, Joined(prefix, name), full, names0);
    }

    method QFindOrAdd(prefix: Bytes, name: Bytes, s: Bytes, fastKey: nat) returns (result: Option<Ptr>)
      requires Valid() && SubValid() && s == Joined(prefix, name)
      modifies this, table
      ensures Valid() && SubValid() && (table == old(table) || fresh(table))
      ensures Appended(old(pools), pools) && limit == old(limit)
      ensures result.None? <==> old(HeldAsQ(prefix, name, fastKey)).None? && Full(old(pools), limit, |s|)
      ensures result.None? ==> Content() == old(Content()) && names == old(names)
      ensures HeldOrNew(old(HeldAsQ(prefix, name, fastKey)), old(Content()), Content(), result)
      ensures result.Some? && prefix != [] && SameKeys(old(table.Length)) ==>
        HeldAsQ(prefix, name, fastKey) == result
      ensures result.Some? && subdict == null && old(Content()) == {} ==>
        OneMore(old(table.Length), {}, result.value, |Joined(prefix, name)|, old(QKey(Joined(prefix, name), fastKey)))
      ensures result.Some? ==>
        QCame(result.value, s, prefix != [] && old(BigTables() && Interns() && SubInterns()), old(names))
    {
      ghost var missed, size := prefix != [] && BigTables(), table.Length;
      var okey, nbi;
      HeldAsQMeans(prefix, name, fastKey);
      result, okey, nbi := QSearch(prefix, name, fastKey);
      if result.Some? {
        if missed {
          SearchedSome(okey, s, true, result.value);
        }
      } else {
        result := QAdd(prefix, name, s, okey, nbi, missed);
        if result.Some? && prefix != [] && SameKeys(size) {
          assert QKey(s, fastKey) == okey;
        }
      }
    }

    /** The table has its size, and one entry more. */
    ghost predicate OneMore(size: nat, before: set<Entry>, p: Ptr, len: nat, okey: nat)
      reads `table, table
    {
      table.Length == size && Content() == before + {Entry(p, len, okey)}
    }

    /** What a qualified lookup promises of the pointer it returns, if `full` the same as Lookup. */
    ghost predicate QCame(p: Ptr, s: Bytes, full: bool, names0: Names)
      reads this, table, subdict, SubTables()
    {
      forall q: Ptr :: q == p ==> QCameAs(q, s, full, names0)
    }

    ghost predicate QCameAs(p: Ptr, s: Bytes, full: bool, names0: Names)
      reads this, table, subdict, SubTables()
    {
      PointsTo(p, s) && (full ==> Interns() && SubInterns() && Looked(names0, SubNames(), s, p, names, true))
    }

    /** Beyond the minimal size a qualified name is searched as the joined string. */
    lemma QualifiedIsHeld(prefix: Bytes, name: Bytes, fastKey: nat)
      requires Valid() && SubValid() && prefix != [] && BigTables()
      ensures HeldAsQ(prefix, name, fastKey) == Held(Joined(prefix, name))
    {
      QKeyIsRight(key, table.Length, prefix, name, seed);
      if subdict != null {
        QKeyIsRight(subdict.key, subdict.table.Length, prefix, name, seed);
      }
    }

    /** Its end: the joined string s is in neither dictionary, which is known if `missed`. */
    method QAdd(prefix: Bytes, name: Bytes, s: Bytes, okey: nat, nbi: nat, ghost missed: bool)
      returns (result: Option<Ptr>)
      requires Valid() && SubValid() && s == Joined(prefix, name) && (missed ==> Searched(okey, s, true, None))
      requires prefix != [] ==> NotFound(Content(), pools, okey, s)
      requires table.Length != MIN_DICT_SIZE ==> okey == key(s)
      modifies this, table
      ensures Valid() && SubValid() && (table == old(table) || fresh(table))
      ensures Appended(old(pools), pools) && limit == old(limit)
      ensures result.None? <==> Full(old(pools), limit, |s|)
      ensures result.None? ==> Content() == old(Content()) && names == old(names)
      ensures result.Some? && nbi == 0 ==> OneMore(old(table.Length), old(Content()), result.value, |s|, okey)
      ensures result.Some? && prefix != [] && KeysStay(old(table.Length)) ==> key == old(key) && Hit(okey, s) == result
      ensures result.Some? ==>
        && (forall e :: e in old(Content()) ==> e.name != result.value)
        && QCame(result.value, s, missed && old(Interns() && SubInterns()), old(names))
    {
      ghost var skey: nat := 0;
      if missed && subdict != null {
        skey :| Missed(subdict.Content(), subdict.pools, subdict.key, skey, s, true);
      }
      result := AddQString(prefix, name);
      if result.Some? {
        assert missed && subdict != null ==>
          Missed(subdict.Content(), subdict.pools, subdict.key, skey, s, true);
        Commit(result.value, s, okey, nbi, old(pools), missed, true);
        if prefix != [] {
          Findable(result.value, s, okey, old(Content()), old(pools), old(table.Length), old(key));
        }
      }
    }

    ghost predicate SettledHere(s: Bytes)
      reads this, table, subdict, SubTables()
    {
      Interns() && SubInterns() && Settled(s, names) && Settled(s, SubNames())
    }

    /** xmlDictExists: what a lookup would return, without inserting. */
    method Exists(mem: Bytes, len: int) returns (result: Option<Ptr>)
      requires Valid() && SubValid() && len <= |mem|
      ensures var l := if len < 0 then |mem| else len;
        var s := mem[..l];
        && (result.Some? ==> PointsTo(result.value, s))
        && result == (if TooLong(l) then None else HeldAt(mem, l))
        && (!TooLong(l) && SettledHere(s) && Canonical(mem, l) ==>
              result == if s in View(names) then Some(View(names)[s])
                        else if s in View(SubNames()) then Some(View(SubNames())[s]) else None)
    {
      var l := if len < 0 then |mem| else len;
      if TooLong(l) { return None; }
      ghost var s, canonical := mem[..l], Canonical(mem, l);
      var okey, nbi;
      result, okey, nbi := Search(mem, l);
      if result.Some? {
        SearchedSome(okey, s, canonical, result.value);
      }
      if SettledHere(s) && canonical {
        SearchedView(okey, s, result);
      }
    }

    /** A canonical search finds exactly what the views say. */
    lemma SearchedView(okey: nat, s: Bytes, found: Option<Ptr>)
      requires Valid() && SubValid() && Interns() && SubInterns() && Searched(okey, s, true, found)
      requires Settled(s, names) && Settled(s, SubNames())
      ensures found == if s in View(names) then Some(View(names)[s])
                       else if s in View(SubNames()) then Some(View(SubNames())[s]) else None
    {
      if found.Some? && FoundAs(Content(), pools, okey, s, found.value) {
        FoundInView(Content(), pools, key, names, okey, s, found.value);
      } else {
        MissedInView(Content(), pools, key, names, okey, s, true);
        if found.Some? {
          var skey :| FoundAs(subdict.Content(), subdict.pools, skey, s, found.value);
          FoundInView(subdict.Content(), subdict.pools, subdict.key, subdict.names, skey, s, found.value);
        } else if subdict != null {
          var skey :| Missed(subdict.Content(), subdict.pools, subdict.key, skey, s, true);
          MissedInView(subdict.Content(), subdict.pools, subdict.key, subdict.names, skey, s, true);
        }
      }
    }

    /** xmlDictOwns, for a pointer into allocated memory of the given owner. */
    method Owns(p: Ptr) returns (owns: bool)
      requires subdict != null ==> subdict.subdict == null
      ensures owns == (InPools(p) || (subdict != null && subdict.InPools(p)))
    {
      owns := OwnsHere(p);
      if !owns && subdict != null {
        owns := subdict.OwnsHere(p);
      }
    }

    ghost predicate InPools(p: Ptr)
      reads `pools
    {
      p.owner == id && p.pool < |pools| && p.offset <= |pools[p.pool].used|
    }

    method OwnsHere(p: Ptr) returns (owns: bool)
      ensures owns == InPools(p)
    {
      var i := |pools|;
      while i > 0
        invariant 0 <= i <= |pools|
        invariant p.owner == id && p.pool < |pools| && p.pool >= i ==> p.offset > |pools[p.pool].used|
      {
        i := i - 1;
        if p.owner == id && p.pool == i && p.offset <= |pools[i].used| {
          return true;
        }
      }
      owns := false;
    }
  }

  /** What was held is returned and nothing changes; what was not is new. */
  ghost predicate HeldOrNew(held: Option<Ptr>, before: set<Entry>, after: set<Entry>, result: Option<Ptr>) {
    if held.Some? then result == held && after == before
    else result.Some? ==> forall e :: e in before ==> e.name != result.value
  }

  lemma BigKeysAgree(key: Bytes -> nat, size: nat, key': Bytes -> nat, size': nat, seed: bv32, s: Bytes)
    requires KeysOf(key, size, seed) && KeysOf(key', size', seed)
    ensures size != MIN_DICT_SIZE && size' != MIN_DICT_SIZE ==> key(s) == key'(s)
  {
    if size != MIN_DICT_SIZE && size' != MIN_DICT_SIZE {
      KeyOfBeyondMinimum(size, seed, s);
      KeyOfBeyondMinimum(size', seed, s);
    }
  }

  lemma QKeyIsRight(key: Bytes -> nat, size: nat, prefix: Bytes, name: Bytes, seed: bv32)
    requires KeysOf(key, size, seed)
    ensures size != MIN_DICT_SIZE ==> BigQKey(prefix, name, seed) as nat == key(Joined(prefix, name))
    ensures key([]) == 0
  {
    BigQKeyIsBigKey(prefix, name, seed);
    EmptyKey(size, seed);
    if size != MIN_DICT_SIZE {
      KeyOfBeyondMinimum(size, seed, Joined(prefix, name));
    }
  }

  lemma KeyIsRight(key: Bytes -> nat, size: nat, seed: bv32, mem: Bytes, len: nat)
    requires len <= |mem| && KeysOf(key, size, seed)
    ensures Plain(mem, len) || size != MIN_DICT_SIZE ==> ComputeKey(size, seed, mem, len) == key(mem[..len])
    ensures key([]) == 0
  {
    if len > 0 || mem == [] || size != MIN_DICT_SIZE {
      KeyOfMemory(size, seed, mem, len);
    } else {
      assert mem[..len] == [];
    }
    EmptyKey(size, seed);
  }

  /** A string that is not empty, or an empty one that nothing follows. */
  predicate Plain(mem: Bytes, len: nat) {
    len > 0 || mem == [] || mem[0] == 0
  }

  /** The key function of every table beyond the minimal size. */
  ghost predicate BigKeys(key: Bytes -> nat, seed: bv32) {
    forall s {:trigger BigKey(s, seed)} :: key(s) == BigKey(s, seed) as nat
  }

  lemma GrowthKeys(keep: bool, size: nat, size': nat, seed: bv32, key: Bytes -> nat, key': Bytes -> nat)
    requires keep == (size != MIN_DICT_SIZE) && size' != MIN_DICT_SIZE && KeysOf(key, size, seed)
    requires if keep then key' == key else forall s :: key'(s) == KeyOf(size', seed, s)
    ensures KeysOf(key', size', seed) && BigKeys(key', seed) && key'([]) == 0
  {
    forall s: Bytes
      ensures key'(s) == KeyOf(size', seed, s) == BigKey(s, seed) as nat
    {
      KeyOfBeyondMinimum(size', seed, s);
      if keep {
        KeyOfBeyondMinimum(size, seed, s);
        assert key(s) == KeyOf(size, seed, s);
      }
    }
    EmptyKey(size', seed);
  }

  lemma RegrownSize(keep: bool, names: Names)
    ensures |Regrown(keep, names).empties| == |names.empties|
  {
    assert Regrown(keep, names).empties.Keys == names.empties.Keys;
    assert |Regrown(keep, names).empties.Keys| == |names.empties.Keys|;
  }
}
