/** The entries of a dictionary as values: what they intern, and what growing does to them.
    `key` stands for the key function in force; growing replaces it by key'. */
module DictTable {
  import opened XmlStrings
  import opened DictModel

  /** An entry with the key it gets in a table of the new size: kept, unless the old table had the minimal size. */
  function Rekey(pools: seq<Pool>, keep: bool, key: Bytes -> nat, e: Entry): Entry {
    if keep then e else e.(okey := key(StringAt(pools, e.name, e.len)))
  }

  function RekeyAll(pools: seq<Pool>, keep: bool, key: Bytes -> nat, order: seq<Entry>): seq<Entry> {
    seq(|order|, i requires 0 <= i < |order| => Rekey(pools, keep, key, order[i]))
  }

  /** The entries stored in the array itself, then those linked behind them. */
  function HeadsOf(t: Table, n: nat): seq<Entry>
    requires n <= |t|
  {
    if n == 0 then [] else HeadsOf(t, n - 1) + (if t[n - 1] == [] then [] else [t[n - 1][0]])
  }

  /** `order` followed by the linked entries of one chain. */
  function WithLinks(order: seq<Entry>, chain: seq<Entry>, n: nat): seq<Entry>
    requires n <= |chain|
  {
    if n <= 1 then order else WithLinks(order, chain, n - 1) + [chain[n - 1]]
  }

  function WithTails(order: seq<Entry>, t: Table, n: nat): seq<Entry>
    requires n <= |t|
  {
    if n == 0 then order else WithLinks(WithTails(order, t, n - 1), t[n - 1], |t[n - 1]|)
  }

  /** The order in which the entries are put back. */
  function GrowOrder(t: Table): seq<Entry> {
    WithTails(HeadsOf(t, |t|), t, |t|)
  }

  lemma {:induction false} HeadsElements(t: Table, n: nat, e: Entry)
    requires n <= |t|
    ensures e in HeadsOf(t, n) <==> exists i :: 0 <= i < n && t[i] != [] && t[i][0] == e
  {
    if n > 0 {
      HeadsElements(t, n - 1, e);
    }
  }

  lemma {:induction false} LinksElements(order: seq<Entry>, chain: seq<Entry>, n: nat, e: Entry)
    requires n <= |chain|
    ensures e in WithLinks(order, chain, n) <==> e in order || exists j :: 1 <= j < n && chain[j] == e
  {
    if n > 1 {
      LinksElements(order, chain, n - 1, e);
    }
  }

  lemma {:induction false} TailsElements(order: seq<Entry>, t: Table, n: nat, e: Entry)
    requires n <= |t|
    ensures e in WithTails(order, t, n) <==> e in order || exists i, j :: 0 <= i < n && 1 <= j < |t[i]| && t[i][j] == e
  {
    if n > 0 {
      TailsElements(order, t, n - 1, e);
      LinksElements(WithTails(order, t, n - 1), t[n - 1], |t[n - 1]|, e);
    }
  }

  lemma GrowOrderElements(t: Table, e: Entry)
    ensures e in GrowOrder(t) <==> e in Entries(t)
  {
    HeadsElements(t, |t|, e);
    TailsElements(HeadsOf(t, |t|), t, |t|, e);
    if e in Entries(t) {
      var i :| 0 <= i < |t| && e in t[i];
      var j :| 0 <= j < |t[i]| && t[i][j] == e;
      assert j == 0 || 1 <= j;
    }
    if i, j :| 0 <= i < |t| && 1 <= j < |t[i]| && t[i][j] == e {
      assert e in t[i];
    }
    if i :| 0 <= i < |t| && t[i] != [] && t[i][0] == e {
      assert e in t[i];
    }
  }

  /** Growing keeps exactly the entries, each under its new key. */
  lemma GrownEntries(t: Table, size: nat, pools: seq<Pool>, keep: bool, key: Bytes -> nat)
    requires size > 0
    ensures var t' := Rehashed(RekeyAll(pools, keep, key, GrowOrder(t)), size);
            Filed(t') && GrownFrom(Entries(t), Entries(t'), pools, keep, key)
  {
    var order := GrowOrder(t);
    var rekeyed := RekeyAll(pools, keep, key, order);
    RehashedEntries(rekeyed, size);
    forall e
      ensures e in order <==> e in Entries(t)
    {
      GrowOrderElements(t, e);
    }
    forall e | e in Entries(t)
      ensures Rekey(pools, keep, key, e) in rekeyed
    {
      assert e in order;
      var i :| 0 <= i < |order| && order[i] == e;
      assert rekeyed[i] == Rekey(pools, keep, key, e);
    }
    forall e' | e' in rekeyed
      ensures exists e :: e in Entries(t) && e' == Rekey(pools, keep, key, e)
    {
      var i :| 0 <= i < |rekeyed| && rekeyed[i] == e';
      assert order[i] in order;
    }
  }

  // What the entries mean.

  /** What is interned: the non-empty strings with their pointers, and the copies of the empty string with their
      keys. */
  datatype Names = Names(interned: map<Bytes, Ptr>, empties: map<Ptr, nat>)

  /** Entries point to stored strings; beyond the minimal size they are filed under the big key. */
  ghost predicate EntriesOk(entries: set<Entry>, pools: seq<Pool>, id: nat, big: bool, key: Bytes -> nat) {
    forall e :: e in entries ==>
      PtrOk(pools, id, e.name, e.len) && (big ==> e.okey == key(StringAt(pools, e.name, e.len)))
  }

  /** The entries intern exactly the names: each non-empty string is stored once, under the key a lookup computes. */
  ghost predicate Interning(entries: set<Entry>, pools: seq<Pool>, key: Bytes -> nat, names: Names) {
    && (forall e :: Accounted(e, entries, pools, key, names))
    && (forall s :: StringFiled(s, entries, pools, key, names))
    && (forall p :: EmptyFiled(p, entries, names))
    && (forall s1, s2 :: DistinctPtrs(s1, s2, names))
  }

  ghost predicate Accounted(e: Entry, entries: set<Entry>, pools: seq<Pool>, key: Bytes -> nat, names: Names) {
    e in entries ==>
      if e.len == 0 then e.name in names.empties && names.empties[e.name] == e.okey
      else
        var s := StringAt(pools, e.name, e.len);
        e.okey == key(s) && s in names.interned && names.interned[s] == e.name
  }

  ghost predicate StringFiled(s: Bytes, entries: set<Entry>, pools: seq<Pool>, key: Bytes -> nat, names: Names) {
    s in names.interned ==>
      && s != [] && names.interned[s] !in names.empties
      && Entry(names.interned[s], |s|, key(s)) in entries && StringAt(pools, names.interned[s], |s|) == s
  }

  ghost predicate EmptyFiled(p: Ptr, entries: set<Entry>, names: Names) {
    p in names.empties ==> Entry(p, 0, names.empties[p]) in entries
  }

  ghost predicate DistinctPtrs(s1: Bytes, s2: Bytes, names: Names) {
    s1 in names.interned && s2 in names.interned && names.interned[s1] == names.interned[s2] ==> s1 == s2
  }

  /** At most one copy of the empty string, filed under its own key. */
  ghost predicate Tidy(names: Names) {
    forall p, q :: p in names.empties && q in names.empties ==> p == q && names.empties[p] == 0
  }

  ghost function Pick(empties: map<Ptr, nat>): Ptr
    requires empties != map[]
  {
    var p :| p in empties; p
  }

  /** The strings of a tidy dictionary with their pointers. */
  ghost function View(names: Names): map<Bytes, Ptr> {
    if names.empties == map[] then names.interned else names.interned[[] := Pick(names.empties)]
  }

  /** The strings whose pointers are unique: all of them if tidy, else the non-empty ones. */
  ghost predicate Settled(s: Bytes, names: Names) {
    s != [] || Tidy(names)
  }

  /** A chain search for s under okey came back with p. */
  ghost predicate FoundAs(entries: set<Entry>, pools: seq<Pool>, okey: nat, s: Bytes, p: Ptr) {
    Entry(p, |s|, okey) in entries && StringAt(pools, p, |s|) == s
  }

  predicate Matches(pools: seq<Pool>, e: Entry, okey: nat, s: Bytes) {
    e.okey == okey && e.len == |s| && StringAt(pools, e.name, |s|) == s
  }

  /** The pointer of the first match in a chain. */
  function FirstIn(chain: seq<Entry>, pools: seq<Pool>, okey: nat, s: Bytes): Option<Ptr> {
    if chain == [] then None
    else if Matches(pools, chain[0], okey, s) then Some(chain[0].name)
    else FirstIn(chain[1..], pools, okey, s)
  }

  lemma {:induction false} FirstInIs(chain: seq<Entry>, pools: seq<Pool>, okey: nat, s: Bytes, n: nat)
    requires n <= |chain| && forall j :: 0 <= j < n ==> !Matches(pools, chain[j], okey, s)
    ensures n == |chain| ==> FirstIn(chain, pools, okey, s) == None
    ensures n < |chain| && Matches(pools, chain[n], okey, s) ==> FirstIn(chain, pools, okey, s) == Some(chain[n].name)
  {
    if n > 0 {
      FirstInIs(chain[1..], pools, okey, s, n - 1);
    }
  }

  lemma {:induction false} FirstInMeans(chain: seq<Entry>, pools: seq<Pool>, okey: nat, s: Bytes)
    ensures var found := FirstIn(chain, pools, okey, s);
      && (found.Some? ==> Entry(found.value, |s|, okey) in chain && StringAt(pools, found.value, |s|) == s)
      && (found.None? ==> forall e :: e in chain ==> !Matches(pools, e, okey, s))
  {
    if chain != [] {
      FirstInMeans(chain[1..], pools, okey, s);
      assert forall e :: e in chain <==> e == chain[0] || e in chain[1..];
    }
  }

  ghost predicate NotFound(entries: set<Entry>, pools: seq<Pool>, okey: nat, s: Bytes) {
    forall p :: !FoundAs(entries, pools, okey, s, p)
  }

  /** Looking through the chain of a key looks at every entry with that key. */
  lemma ChainIsEnough(t: Table, pools: seq<Pool>, okey: nat, s: Bytes)
    requires Filed(t)
    ensures var found := FirstIn(t[okey % |t|], pools, okey, s);
      && (found.Some? ==> FoundAs(Entries(t), pools, okey, s, found.value))
      && (found.None? ==> NotFound(Entries(t), pools, okey, s))
  {
    var found := FirstIn(t[okey % |t|], pools, okey, s);
    FirstInMeans(t[okey % |t|], pools, okey, s);
    if found.None? {
      forall p
        ensures !FoundAs(Entries(t), pools, okey, s, p)
      {
        var e := Entry(p, |s|, okey);
        if e in Entries(t) {
          var i :| 0 <= i < |t| && e in t[i];
          assert i == okey % |t|;
        }
      }
    }
  }

  lemma FoundInView(entries: set<Entry>, pools: seq<Pool>, key: Bytes -> nat, names: Names, okey: nat, s: Bytes, p: Ptr)
    requires Interning(entries, pools, key, names) && Settled(s, names) && FoundAs(entries, pools, okey, s, p)
    ensures s in View(names) && View(names)[s] == p
  {
    assert Accounted(Entry(p, |s|, okey), entries, pools, key, names);
  }

  lemma NotFoundInView(entries: set<Entry>, pools: seq<Pool>, key: Bytes -> nat, names: Names, s: Bytes)
    requires Interning(entries, pools, key, names) && Settled(s, names)
    requires NotFound(entries, pools, key(s), s) && key([]) == 0
    ensures s !in View(names)
  {
    assert StringFiled(s, entries, pools, key, names);
    assert s in names.interned ==> FoundAs(entries, pools, key(s), s, names.interned[s]);
    if s == [] && names.empties != map[] {
      var p := Pick(names.empties);
      assert EmptyFiled(p, entries, names);
      assert FoundAs(entries, pools, 0, [], p) by { assert StringAt(pools, p, 0) == []; }
      assert false;
    }
  }

  /** A pointer that no entry has is not in the view either. */
  lemma FreshPtr(entries: set<Entry>, pools: seq<Pool>, key: Bytes -> nat, names: Names, p: Ptr)
    requires Interning(entries, pools, key, names)
    requires forall e :: e in entries ==> e.name != p
    ensures p !in names.empties && p !in names.interned.Values && p !in View(names).Values
  {
    assert EmptyFiled(p, entries, names);
    forall s | s in names.interned
      ensures names.interned[s] != p
    {
      assert StringFiled(s, entries, pools, key, names);
    }
  }

  lemma InterningAppended(entries: set<Entry>, before: seq<Pool>, after: seq<Pool>, id: nat, big: bool,
                          key: Bytes -> nat, names: Names)
    requires Appended(before, after) && EntriesOk(entries, before, id, big, key)
    ensures EntriesOk(entries, after, id, big, key)
    ensures Interning(entries, before, key, names) ==> Interning(entries, after, key, names)
  {
    forall e | e in entries
      ensures PtrOk(after, id, e.name, e.len) && StringAt(after, e.name, e.len) == StringAt(before, e.name, e.len)
    {
      AppendedKeeps(before, after, id, e.name, e.len);
    }
    if Interning(entries, before, key, names) {
      forall e
        ensures Accounted(e, entries, after, key, names)
      {
        assert Accounted(e, entries, before, key, names);
      }
      forall s
        ensures StringFiled(s, entries, after, key, names)
      {
        assert StringFiled(s, entries, before, key, names);
      }
    }
  }

  /** The names after one more entry for s. */
  ghost function Named(names: Names, s: Bytes, p: Ptr, okey: nat): Names {
    if s == [] then names.(empties := names.empties[p := okey]) else names.(interned := names.interned[s := p])
  }

  /** One more entry: a new non-empty string, or a further copy of the empty one. */
  lemma InterningAdd(entries: set<Entry>, pools: seq<Pool>, key: Bytes -> nat, names: Names, p: Ptr, s: Bytes,
                     okey: nat)
    requires Interning(entries, pools, key, names)
    requires forall e :: e in entries ==> e.name != p
    requires StringAt(pools, p, |s|) == s
    requires s != [] ==> s !in names.interned && okey == key(s)
    ensures Interning(entries + {Entry(p, |s|, okey)}, pools, key, Named(names, s, p, okey))
  {
    var entries' := entries + {Entry(p, |s|, okey)};
    var names' := Named(names, s, p, okey);
    FreshPtr(entries, pools, key, names, p);
    forall e
      ensures Accounted(e, entries', pools, key, names')
    {
      assert Accounted(e, entries, pools, key, names);
    }
    forall s1
      ensures StringFiled(s1, entries', pools, key, names')
    {
      assert StringFiled(s1, entries, pools, key, names);
    }
    forall q
      ensures EmptyFiled(q, entries', names')
    {
      assert EmptyFiled(q, entries, names);
    }
    forall s1, s2
      ensures DistinctPtrs(s1, s2, names')
    {
      assert DistinctPtrs(s1, s2, names);
    }
  }

  /** After growing out of the minimal size, every copy of the empty string has the key zero. */
  ghost function Regrown(keep: bool, names: Names): Names {
    if keep then names else names.(empties := map p | p in names.empties :: 0)
  }

  /** A lookup without a sub-dictionary: p is what the computed key led to, or a new pointer entered under it. */
  ghost predicate Entered(entries: set<Entry>, pools: seq<Pool>, names: Names, okey: nat, s: Bytes, p: Ptr,
                          keep: bool, names': Names) {
    || (FoundAs(entries, pools, okey, s, p) && names' == names)
    || ((forall e :: e in entries ==> e.name != p) && names' == Regrown(keep, Named(names, s, p, okey)))
  }

  ghost predicate GrownFrom(before: set<Entry>, after: set<Entry>, pools: seq<Pool>, keep: bool, key: Bytes -> nat) {
    && (forall e :: e in before ==> Rekey(pools, keep, key, e) in after)
    && (forall e' :: e' in after ==> exists e :: e in before && e' == Rekey(pools, keep, key, e))
  }

  lemma SameEntries(before: set<Entry>, after: set<Entry>, pools: seq<Pool>, key: Bytes -> nat)
    requires GrownFrom(before, after, pools, true, key)
    ensures after == before
  {
    forall e
      ensures e in after <==> e in before
    {
      assert e in before ==> Rekey(pools, true, key, e) in after;
    }
  }

  /** A string that was not found and has been entered is found, whatever other copies there are. */
  lemma FoundAgain(t: Table, before: set<Entry>, pools0: seq<Pool>, pools: seq<Pool>, id: nat, big: bool,
                   key: Bytes -> nat, okey: nat, s: Bytes, p: Ptr)
    requires EntriesOk(before, pools0, id, big, key) && NotFound(before, pools0, okey, s) && Appended(pools0, pools)
    requires Filed(t) && |t| > 0 && Entries(t) == before + {Entry(p, |s|, okey)} && StringAt(pools, p, |s|) == s
    ensures FirstIn(t[okey % |t|], pools, okey, s) == Some(p)
  {
    ChainIsEnough(t, pools, okey, s);
    assert FoundAs(Entries(t), pools, okey, s, p);
    forall q | FoundAs(Entries(t), pools, okey, s, q)
      ensures q == p
    {
      if q != p {
        assert Entry(q, |s|, okey) in before;
        AppendedKeeps(pools0, pools, id, q, |s|);
        assert FoundAs(before, pools0, okey, s, q);
      }
    }
  }

  lemma GrownEntriesOk(before: set<Entry>, after: set<Entry>, big: bool, pools: seq<Pool>, id: nat,
                       key: Bytes -> nat, key': Bytes -> nat)
    requires (big ==> key' == key) && EntriesOk(before, pools, id, big, key)
    requires GrownFrom(before, after, pools, big, key')
    ensures EntriesOk(after, pools, id, true, key')
  {
  }

  /** Growing keeps what is interned, with the same pointers. */
  lemma GrownInterning(before: set<Entry>, after: set<Entry>, big: bool, pools: seq<Pool>, id: nat,
                       key: Bytes -> nat, key': Bytes -> nat, names: Names)
    requires (big ==> key' == key) && key'([]) == 0 && EntriesOk(before, pools, id, big, key)
    requires GrownFrom(before, after, pools, big, key') && Interning(before, pools, key, names)
    ensures Interning(after, pools, key', Regrown(big, names))
  {
    var names' := Regrown(big, names);
    forall e'
      ensures Accounted(e', after, pools, key', names')
    {
      if e' in after {
        var e :| e in before && e' == Rekey(pools, big, key', e);
        assert Accounted(e, before, pools, key, names);
        assert e.len == 0 ==> StringAt(pools, e.name, e.len) == [];
      }
    }
    forall s
      ensures StringFiled(s, after, pools, key', names')
    {
      assert StringFiled(s, before, pools, key, names);
      if s in names.interned {
        assert Rekey(pools, big, key', Entry(names.interned[s], |s|, key(s))) in after;
      }
    }
    forall p
      ensures EmptyFiled(p, after, names')
    {
      assert EmptyFiled(p, before, names);
      if p in names.empties {
        assert Rekey(pools, big, key', Entry(p, 0, names.empties[p])) in after;
        assert StringAt(pools, p, 0) == [];
      }
    }
    forall s1, s2
      ensures DistinctPtrs(s1, s2, names')
    {
      assert DistinctPtrs(s1, s2, names);
    }
  }

  /** A fresh table filled with rekeyed entries. */
  function Refilled(pools: seq<Pool>, keep: bool, key: Bytes -> nat, order: seq<Entry>, size: nat): (t: Table)
    requires size > 0
    ensures |t| == size
  {
    Rehashed(RekeyAll(pools, keep, key, order), size)
  }

  lemma RefilledSnoc(pools: seq<Pool>, keep: bool, key: Bytes -> nat, order: seq<Entry>, e: Entry, size: nat)
    requires size > 0
    ensures Refilled(pools, keep, key, order + [e], size) ==
              Put(Refilled(pools, keep, key, order, size), Rekey(pools, keep, key, e))
  {
    var rekeyed := RekeyAll(pools, keep, key, order);
    assert RekeyAll(pools, keep, key, order + [e]) == rekeyed + [Rekey(pools, keep, key, e)];
    assert (rekeyed + [Rekey(pools, keep, key, e)])[..|rekeyed|] == rekeyed;
  }

  function Grown(t: Table, size: nat, pools: seq<Pool>, keep: bool, key: Bytes -> nat): Table
    requires size > 0
  {
    Refilled(pools, keep, key, GrowOrder(t), size)
  }

  lemma GrownTable(t: Table, size: nat, big: bool, pools: seq<Pool>, id: nat,
                   key: Bytes -> nat, key': Bytes -> nat, names: Names)
    requires size > 0 && (big ==> key' == key) && key'([]) == 0 && EntriesOk(Entries(t), pools, id, big, key)
    ensures var t' := Grown(t, size, pools, big, key');
            && Filed(t') && EntriesOk(Entries(t'), pools, id, true, key')
            && (Interning(Entries(t), pools, key, names) ==> Interning(Entries(t'), pools, key', Regrown(big, names)))
            && (big ==> Entries(t') == Entries(t))
  {
    var t' := Grown(t, size, pools, big, key');
    GrownEntries(t, size, pools, big, key');
    if big {
      SameEntries(Entries(t), Entries(t'), pools, key');
    }
    GrownEntriesOk(Entries(t), Entries(t'), big, pools, id, key, key');
    if Interning(Entries(t), pools, key, names) {
      GrownInterning(Entries(t), Entries(t'), big, pools, id, key, key', names);
    }
  }

  // Lookups.

  /** One successful lookup of s in a dictionary over its sub-dictionary, returning p. */
  ghost predicate LookupStep(own: map<Bytes, Ptr>, sub: map<Bytes, Ptr>, s: Bytes, p: Ptr, own': map<Bytes, Ptr>) {
    if s in own then p == own[s] && own' == own
    else if s in sub then p == sub[s] && own' == own
    else own' == own[s := p] && p !in own.Values && p !in sub.Values
  }

  /** The non-empty strings are always interned properly; the empty one is as long as it is only looked
      up canonically, that is, not through a pointer to other bytes while the table has its minimal size. */
  ghost predicate Looked(names: Names, sub: Names, s: Bytes, p: Ptr, names': Names, canonical: bool) {
    && (if s == [] then names'.interned == names.interned
        else LookupStep(names.interned, sub.interned, s, p, names'.interned))
    && (Tidy(names) && Tidy(sub) && canonical ==>
        Tidy(names') && LookupStep(View(names), View(sub), s, p, View(names')))
  }

  lemma LookedOwn(entries: set<Entry>, pools: seq<Pool>, key: Bytes -> nat, names: Names, sub: Names,
                  okey: nat, s: Bytes, p: Ptr, canonical: bool)
    requires Interning(entries, pools, key, names) && FoundAs(entries, pools, okey, s, p)
    ensures Looked(names, sub, s, p, names, canonical)
  {
    if Settled(s, names) {
      FoundInView(entries, pools, key, names, okey, s, p);
    }
  }

  /** Looked up in the own entries in vain, under the right key. */
  ghost predicate Missed(entries: set<Entry>, pools: seq<Pool>, key: Bytes -> nat, okey: nat, s: Bytes,
                         canonical: bool) {
    NotFound(entries, pools, okey, s) && (canonical ==> okey == key(s)) && (s != [] ==> canonical) && key([]) == 0
  }

  lemma MissedInView(entries: set<Entry>, pools: seq<Pool>, key: Bytes -> nat, names: Names,
                     okey: nat, s: Bytes, canonical: bool)
    requires Interning(entries, pools, key, names) && Missed(entries, pools, key, okey, s, canonical)
    ensures canonical && Settled(s, names) ==> s !in View(names)
    ensures s !in names.interned
  {
    if canonical && Settled(s, names) {
      NotFoundInView(entries, pools, key, names, s);
    }
    assert StringFiled(s, entries, pools, key, names);
  }

  lemma LookedSub(entries: set<Entry>, pools: seq<Pool>, key: Bytes -> nat, names: Names,
                  entries2: set<Entry>, pools2: seq<Pool>, key2: Bytes -> nat, sub: Names,
                  okey: nat, skey: nat, s: Bytes, p: Ptr, canonical: bool)
    requires Interning(entries, pools, key, names) && Missed(entries, pools, key, okey, s, canonical)
    requires Interning(entries2, pools2, key2, sub) && FoundAs(entries2, pools2, skey, s, p)
    ensures Looked(names, sub, s, p, names, canonical)
  {
    MissedInView(entries, pools, key, names, okey, s, canonical);
    if Settled(s, sub) {
      FoundInView(entries2, pools2, key2, sub, skey, s, p);
    }
  }

  lemma ViewNamed(names: Names, s: Bytes, p: Ptr, okey: nat, names': Names)
    requires Tidy(names) && s !in View(names) && p !in names.empties && (s == [] ==> okey == 0)
    requires names' == Named(names, s, p, okey) || names' == Regrown(false, Named(names, s, p, okey))
    ensures Tidy(names') && View(names') == View(names)[s := p]
  {
    if s == [] {
      assert names.empties == map[];
      assert names'.empties.Keys == {p};
    } else {
      assert names'.empties.Keys == names.empties.Keys;
      if names.empties != map[] {
        assert Pick(names.empties) in names.empties.Keys;
        assert Pick(names'.empties) in names.empties.Keys;
      }
    }
  }

  lemma LookedNew(entries: set<Entry>, pools: seq<Pool>, key: Bytes -> nat, names: Names, sub: Names,
                  okey: nat, s: Bytes, p: Ptr, names': Names, canonical: bool)
    requires Interning(entries, pools, key, names) && Missed(entries, pools, key, okey, s, canonical)
    requires canonical && Settled(s, sub) ==> s !in View(sub)
    requires forall e :: e in entries ==> e.name != p
    requires p !in View(sub).Values && p !in sub.interned.Values
    requires names' == Named(names, s, p, okey) || names' == Regrown(false, Named(names, s, p, okey))
    ensures Looked(names, sub, s, p, names', canonical)
  {
    MissedInView(entries, pools, key, names, okey, s, canonical);
    FreshPtr(entries, pools, key, names, p);
    if Tidy(names) && Tidy(sub) && canonical {
      ViewNamed(names, s, p, okey, names');
    }
  }
}
