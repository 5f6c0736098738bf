/** Whole runs of lookups on a dictionary and its sub-dictionary, and where interning ends. */
module DictRuns {
  import opened XmlStrings
  import opened DictModel
  import opened DictTable
  import opened Dict

  datatype State = State(own: map<Bytes, Ptr>, sub: map<Bytes, Ptr>)

  /** A lookup in the dictionary or directly in its sub-dictionary with the pointer it returned, or one that
      was refused. */
  datatype Event = OwnLookup(s: Bytes, p: Ptr) | SubLookup(s: Bytes, p: Ptr) | Refused

  ghost predicate Injective(m: map<Bytes, Ptr>) {
    forall s1, s2 :: s1 in m && s2 in m && m[s1] == m[s2] ==> s1 == s2
  }

  ghost predicate StateOk(st: State) {
    Injective(st.own) && Injective(st.sub) && st.own.Values !! st.sub.Values
  }

  ghost predicate Step(before: State, ev: Event, after: State) {
    match ev
    case OwnLookup(s, p) => LookupStep(before.own, before.sub, s, p, after.own) && after.sub == before.sub
    case SubLookup(s, p) =>
      LookupStep(before.sub, map[], s, p, after.sub) && after.own == before.own
      && (s !in before.sub ==> p !in before.own.Values)
    case Refused => after == before
  }

  ghost predicate Run(states: seq<State>, events: seq<Event>) {
    && |states| == |events| + 1 && StateOk(states[0])
    && forall i :: 0 <= i < |events| ==> Step(states[i], events[i], states[i + 1])
  }

  lemma AddedValue(m: map<Bytes, Ptr>, s: Bytes, p: Ptr)
    requires Injective(m) && s !in m && p !in m.Values
    ensures Injective(m[s := p]) && m[s := p].Values == m.Values + {p}
  {
    var m' := m[s := p];
    assert m'[s] == p;
    forall q
      ensures q in m'.Values <==> q in m.Values + {p}
    {
      if q in m.Values {
        var t :| t in m && m[t] == q;
        assert m'[t] == q;
      }
    }
  }

  lemma StepOk(before: State, ev: Event, after: State)
    requires StateOk(before) && Step(before, ev, after)
    ensures StateOk(after)
  {
    match ev
    case OwnLookup(s, p) =>
      if s !in before.own && s !in before.sub { AddedValue(before.own, s, p); }
    case SubLookup(s, p) =>
      if s !in before.sub { AddedValue(before.sub, s, p); }
    case Refused =>
  }

  ghost predicate Extends(a: map<Bytes, Ptr>, b: map<Bytes, Ptr>) {
    forall s :: s in a ==> s in b && b[s] == a[s]
  }

  /** Later states keep everything that was interned, and keep reading a string through the sub-dictionary
      once it was found there. */
  lemma {:induction false} Later(states: seq<State>, events: seq<Event>, i: nat, j: nat)
    requires Run(states, events) && i <= j < |states|
    ensures StateOk(states[j])
    ensures Extends(states[i].own, states[j].own) && Extends(states[i].sub, states[j].sub)
    ensures forall s :: s in states[i].sub && s !in states[i].own ==> s !in states[j].own
    decreases j
  {
    if j > 0 {
      Later(states, events, if i < j then i else j - 1, j - 1);
      assert Step(states[j - 1], events[j - 1], states[j]);
      StepOk(states[j - 1], events[j - 1], states[j]);
    }
  }

  /** What a lookup returned is what the dictionary resolves to from then on. */
  ghost predicate Resolves(st: State, s: Bytes, p: Ptr) {
    if s in st.own then st.own[s] == p else s in st.sub && st.sub[s] == p
  }

  lemma LaterResolves(states: seq<State>, events: seq<Event>, i: nat, j: nat)
    requires Run(states, events) && i < |events| && i < j < |states| && events[i].OwnLookup?
    ensures StateOk(states[j]) && Resolves(states[j], events[i].s, events[i].p)
  {
    assert Step(states[i], events[i], states[i + 1]);
    Later(states, events, i + 1, j);
  }

  /** Over any run of lookups in the dictionary, with lookups in the sub-dictionary in between,
      two lookups return the same pointer exactly if they were given the same string. */
  lemma PointersAreUnique(states: seq<State>, events: seq<Event>, i: nat, j: nat)
    requires Run(states, events) && i < |events| && j < |events|
    requires events[i].OwnLookup? && events[j].OwnLookup?
    ensures events[i].p == events[j].p <==> events[i].s == events[j].s
  {
    LaterResolves(states, events, i, |events|);
    LaterResolves(states, events, j, |events|);
    ResolvesUnique(states[|events|], events[i].s, events[i].p, events[j].s, events[j].p);
  }

  lemma ResolvesUnique(st: State, s: Bytes, p: Ptr, t: Bytes, q: Ptr)
    requires StateOk(st) && Resolves(st, s, p) && Resolves(st, t, q)
    ensures p == q <==> s == t
  {
    assert s in st.own ==> p in st.own.Values;
    assert s !in st.own ==> p in st.sub.Values;
    assert t in st.own ==> q in st.own.Values;
    assert t !in st.own ==> q in st.sub.Values;
  }

  /** A lookup that went directly to the sub-dictionary shares the pointer exactly if the string is the
      same and the dictionary has no copy of its own. */
  lemma SharedWithSub(states: seq<State>, events: seq<Event>, i: nat, j: nat)
    requires Run(states, events) && i < |events| && j < |events|
    requires events[i].OwnLookup? && events[j].SubLookup?
    ensures events[i].p == events[j].p <==> events[i].s == events[j].s && events[i].s !in states[|events|].own
  {
    var last := states[|events|];
    LaterResolves(states, events, i, |events|);
    assert Step(states[j], events[j], states[j + 1]);
    Later(states, events, j + 1, |events|);
    var t, q := events[j].s, events[j].p;
    assert last.sub[t] == q && q in last.sub.Values;
    assert events[i].s in last.own ==> events[i].p in last.own.Values;
  }

  // Calls on a dictionary form such a run

  /** A lookup as a caller asks for it: where, and for the first len bytes of mem, or all if len is negative. */
  datatype Request = Request(direct: bool, mem: Bytes, len: int)

  function Wanted(r: Request): Bytes {
    if 0 <= r.len <= |r.mem| then r.mem[..r.len] else r.mem
  }

  /** The dictionary and its sub-dictionary, which has none of its own, intern properly. */
  ghost predicate Ready(d: Dictionary)
    reads d, d.table, d.subdict, d.SubTables()
  {
    && d.Valid() && d.SubValid() && d.Interns() && d.SubInterns()
    && (d.subdict != null ==> d.subdict.subdict == null)
  }

  /** What both intern: all strings if `full`, which asks for at most one copy of the empty one, else the
      non-empty ones. */
  ghost function Interned(d: Dictionary, full: bool): State
    reads d, d.subdict
  {
    if full then State(View(d.names), View(d.SubNames())) else State(d.names.interned, d.SubNames().interned)
  }

  ghost predicate Orderly(d: Dictionary, full: bool)
    reads d, d.subdict
  {
    full ==> Tidy(d.names) && Tidy(d.SubNames())
  }

  /** What a request is in the run: an empty string counts only if `full`. */
  ghost function EventOf(r: Request, result: Option<Ptr>, full: bool): Event {
    if result.None? || (Wanted(r) == [] && !full) then Refused
    else if r.direct then SubLookup(Wanted(r), result.value)
    else OwnLookup(Wanted(r), result.value)
  }

  /** The pointers of a dictionary carry its number. */
  ghost predicate OwnedBy(m: map<Bytes, Ptr>, id: nat) {
    forall s :: s in m ==> m[s].owner == id
  }

  lemma NamesOwned(d: Dictionary)
    requires d.Valid() && d.Interns()
    ensures OwnedBy(d.names.interned, d.id) && OwnedBy(View(d.names), d.id)
    ensures Injective(d.names.interned) && Injective(View(d.names))
  {
    forall s | s in d.names.interned
      ensures d.names.interned[s].owner == d.id && s != [] && d.names.interned[s] !in d.names.empties
    {
      assert StringFiled(s, d.Content(), d.pools, d.key, d.names);
    }
    forall p | p in d.names.empties
      ensures p.owner == d.id
    {
      assert EmptyFiled(p, d.Content(), d.names);
    }
    forall s1, s2 | s1 in d.names.interned && s2 in d.names.interned && d.names.interned[s1] == d.names.interned[s2]
      ensures s1 == s2
    {
      assert DistinctPtrs(s1, s2, d.names);
    }
  }

  lemma InternedOk(d: Dictionary, full: bool)
    requires Ready(d)
    ensures StateOk(Interned(d, full)) && OwnedBy(Interned(d, full).own, d.id)
    ensures d.subdict != null ==> OwnedBy(Interned(d, full).sub, d.subdict.id)
  {
    NamesOwned(d);
    if d.subdict != null {
      NamesOwned(d.subdict);
    }
  }

  /** One lookup in the dictionary. */
  method LookupOwn(d: Dictionary, r: Request, ghost full: bool) returns (result: Option<Ptr>)
    requires Ready(d) && r.len <= |r.mem| && !r.direct && Orderly(d, full) && (full ==> Plain(r.mem, |Wanted(r)|))
    modifies d, d.table
    ensures Ready(d) && Orderly(d, full) && (d.table == old(d.table) || fresh(d.table))
    ensures Step(old(Interned(d, full)), EventOf(r, result, full), Interned(d, full))
  {
    assert r.mem[..|Wanted(r)|] == Wanted(r);
    result := d.Lookup(r.mem, r.len);
  }

  /** One lookup that goes to the sub-dictionary directly. */
  method LookupSub(d: Dictionary, r: Request, ghost full: bool) returns (result: Option<Ptr>)
    requires Ready(d) && r.len <= |r.mem| && r.direct && Orderly(d, full) && (full ==> Plain(r.mem, |Wanted(r)|))
    requires d.subdict != null
    modifies d.subdict, d.subdict.table
    ensures Ready(d) && Orderly(d, full) && (d.subdict.table == old(d.subdict.table) || fresh(d.subdict.table))
    ensures Step(old(Interned(d, full)), EventOf(r, result, full), Interned(d, full))
  {
    assert r.mem[..|Wanted(r)|] == Wanted(r);
    InternedOk(d, full);
    ghost var before := Interned(d, full);
    result := d.subdict.Lookup(r.mem, r.len);
    InternedOk(d, full);
    ghost var after := Interned(d, full);
    assert after.own == before.own;
    assert EventOf(r, result, full).SubLookup? ==>
      LookupStep(before.sub, map[], Wanted(r), result.value, after.sub);
  }

  ghost predicate Asked(d: Dictionary, requests: seq<Request>, full: bool) {
    forall i :: 0 <= i < |requests| ==>
      && requests[i].len <= |requests[i].mem| && (requests[i].direct ==> d.subdict != null)
      && (full ==> Plain(requests[i].mem, |Wanted(requests[i])|))
  }

  /** Over any list of lookups, wherever the dictionary starts from and however it grows on the way: two lookups
      in the dictionary return the same pointer exactly if they were given the same string, and one in the
      dictionary and one directly in its sub-dictionary exactly if moreover the dictionary has no copy of
      its own.  That holds of the empty string too if `full`, that is, if it is never asked for through a
      pointer to other bytes and was not before. */
  method LookupAll(d: Dictionary, requests: seq<Request>, ghost full: bool) returns (results: seq<Option<Ptr>>)
    requires Ready(d) && Orderly(d, full) && Asked(d, requests, full)
    modifies d, d.table, d.subdict, d.SubTables()
    ensures Ready(d) && Orderly(d, full) && |results| == |requests|
    ensures forall i, j :: 0 <= i < |requests| && 0 <= j < |requests| ==>
      SameIff(Interned(d, full).own, requests[i], results[i], requests[j], results[j], full)
  {
    ghost var states, events := [Interned(d, full)], [];
    results := [];
    InternedOk(d, full);
    for k := 0 to |requests|
      invariant Ready(d) && Orderly(d, full) && |results| == k
      invariant d.table == old(d.table) || fresh(d.table)
      invariant d.subdict != null ==> d.subdict.table == old(d.subdict.table) || fresh(d.subdict.table)
      invariant |states| == k + 1 && |events| == k && Run(states, events) && states[k] == Interned(d, full)
      invariant forall i :: 0 <= i < k ==> events[i] == EventOf(requests[i], results[i], full)
    {
      var result;
      if requests[k].direct {
        result := LookupSub(d, requests[k], full);
      } else {
        result := LookupOwn(d, requests[k], full);
      }
      RunSnoc(states, events, EventOf(requests[k], result, full), Interned(d, full));
      states, events := states + [Interned(d, full)], events + [EventOf(requests[k], result, full)];
      results := results + [result];
    }
    RunGivesAll(states, events, requests, results, full);
  }

  /** The promise about the results of two requests, with the strings of the dictionary in the end. */
  ghost predicate SameIff(own: map<Bytes, Ptr>, r: Request, x: Option<Ptr>, q: Request, y: Option<Ptr>, full: bool) {
    x.Some? && y.Some? && (full || (Wanted(r) != [] && Wanted(q) != [])) && !r.direct ==>
      (x.value == y.value <==> Wanted(r) == Wanted(q) && (q.direct ==> Wanted(r) !in own))
  }

  lemma RunSnoc(states: seq<State>, events: seq<Event>, ev: Event, after: State)
    requires Run(states, events) && Step(states[|events|], ev, after)
    ensures Run(states + [after], events + [ev])
  {
    var ss, es := states + [after], events + [ev];
    forall i | 0 <= i < |es|
      ensures Step(ss[i], es[i], ss[i + 1])
    {
      if i < |events| {
        assert Step(states[i], events[i], states[i + 1]);
      }
    }
  }

  lemma RunGivesAll(states: seq<State>, events: seq<Event>, requests: seq<Request>, results: seq<Option<Ptr>>,
                    full: bool)
    requires Run(states, events) && |events| == |requests| == |results|
    requires forall i :: 0 <= i < |events| ==> events[i] == EventOf(requests[i], results[i], full)
    ensures forall i, j :: 0 <= i < |requests| && 0 <= j < |requests| ==>
      SameIff(states[|events|].own, requests[i], results[i], requests[j], results[j], full)
  {
    forall i, j | 0 <= i < |requests| && 0 <= j < |requests|
      ensures SameIff(states[|events|].own, requests[i], results[i], requests[j], results[j], full)
    {
      RunGives(states, events, i, j, requests[i], results[i], requests[j], results[j], full);
    }
  }

  lemma RunGives(states: seq<State>, events: seq<Event>, i: nat, j: nat,
                 r: Request, x: Option<Ptr>, q: Request, y: Option<Ptr>, full: bool)
    requires Run(states, events) && i < |events| && j < |events|
    requires events[i] == EventOf(r, x, full) && events[j] == EventOf(q, y, full)
    ensures SameIff(states[|events|].own, r, x, q, y, full)
  {
    if events[i].OwnLookup? && events[j].OwnLookup? {
      PointersAreUnique(states, events, i, j);
    } else if events[i].OwnLookup? && events[j].SubLookup? {
      SharedWithSub(states, events, i, j);
    }
  }

  // Where interning ends.

  /** The key computed for a string is its own key except for an empty string read through a pointer to
      other bytes while the table has the minimal size. */
  lemma KeyIsOwnIff(size: nat, seed: bv32, mem: Bytes, len: nat)
    requires len <= |mem|
    ensures ComputeKey(size, seed, mem, len) == KeyOf(size, seed, mem[..len])
            <==> len > 0 || mem == [] || mem[0] == 0 || size != MIN_DICT_SIZE
  {
    if len > 0 || mem == [] || size != MIN_DICT_SIZE {
      KeyOfMemory(size, seed, mem, len);
    } else {
      assert mem[..len] == [];
      EmptyKey(size, seed);
      assert ComputeKey(size, seed, mem, len) == (mem[0] as nat) * 32;
    }
  }

  /** So a copy of the empty string interned that way is not found again under the empty string's own key. */
  lemma EmptyStringMissed(entries: set<Entry>, pools: seq<Pool>, key: Bytes -> nat, names: Names,
                          seed: bv32, mem: Bytes, p: Ptr)
    requires Interning(entries, pools, key, names) && KeysOf(key, MIN_DICT_SIZE, seed)
    requires mem != [] && mem[0] != 0
    requires names.empties == map[p := ComputeKey(MIN_DICT_SIZE, seed, mem, 0)]
    ensures FoundAs(entries, pools, ComputeKey(MIN_DICT_SIZE, seed, mem, 0), [], p)
    ensures NotFound(entries, pools, key([]), [])
  {
    KeyIsOwnIff(MIN_DICT_SIZE, seed, mem, 0);
    assert mem[..0] == [];
    assert EmptyFiled(p, entries, names);
    assert StringAt(pools, p, 0) == [];
    forall q
      ensures !FoundAs(entries, pools, key([]), [], q)
    {
      assert Accounted(Entry(q, 0, key([])), entries, pools, key, names);
    }
  }

  /** And a lookup of the empty string by itself then enters a second copy. */
  lemma EmptyEnteredTwice(entries: set<Entry>, pools: seq<Pool>, key: Bytes -> nat, names: Names, seed: bv32,
                          mem: Bytes, p: Ptr, q: Ptr, keep: bool, names': Names)
    requires Interning(entries, pools, key, names) && KeysOf(key, MIN_DICT_SIZE, seed)
    requires mem != [] && mem[0] != 0
    requires names == Named(Names(map[], map[]), [], p, ComputeKey(MIN_DICT_SIZE, seed, mem, 0))
    requires Entered(entries, pools, names, ComputeKey(MIN_DICT_SIZE, seed, [], 0), [], q, keep, names')
    ensures q != p
  {
    EmptyStringMissed(entries, pools, key, names, seed, mem, p);
    KeyIsRight(key, MIN_DICT_SIZE, seed, [], 0);
    var empty: Bytes := [];
    assert empty[..0] == empty;
    assert !FoundAs(entries, pools, key([]), [], q);
  }

  /** A run that shows it: "a" looked up with length 0 and then the empty string, in a new dictionary. */
  method EmptyTwice(id: nat, seed: bv32) returns (d: Dictionary, first: Ptr, second: Ptr)
    ensures d.Valid() && d.PointsTo(first, []) && d.PointsTo(second, []) && first != second
  {
    d := new Dictionary(id, seed, null);
    var mem: Bytes, empty: Bytes := [97], [];
    assert mem[..0] == [] && empty[..0] == [];
    var p := d.Lookup(mem, 0);
    assert p.Some?;
    first := p.value;
    ghost var entries, pools, key, names := d.Content(), d.pools, d.key, d.names;
    assert first == p.value && d.PointsTo(first, []);
    var q := d.Lookup(empty, 0);
    assert q.Some?;
    second := q.value;
    EmptyEnteredTwice(entries, pools, key, names, seed, mem, first, second, d.KeysStay(MIN_DICT_SIZE), d.names);
  }

  /** Two qualified lookups of one name in a row give the same pointer, in any dictionary that does not leave the
      minimal size at the first one. */
  method QualifiedTwice(d: Dictionary, prefix: Bytes, name: Bytes, fastKey: nat)
    returns (first: Option<Ptr>, again: Option<Ptr>, size: nat)
    requires d.Valid() && d.SubValid() && prefix != []
    modifies d, d.table
    ensures d.Valid() && d.SubValid()
    ensures first.Some? && (size == MIN_DICT_SIZE <==> old(d.table.Length) == MIN_DICT_SIZE) ==> again == first
  {
    first := d.QLookup(prefix, name, fastKey);
    size := d.table.Length;
    again := d.QLookup(prefix, name, fastKey);
  }

  /** A qualified lookup and then one of the joined string, in a new dictionary: they give the same pointer exactly if
      the fast key of the qualified name is that of the string. */
  method QualifiedThenPlain(id: nat, seed: bv32, prefix: Bytes, name: Bytes, fastKey: nat)
    returns (d: Dictionary, first: Ptr, plain: Ptr)
    requires prefix != [] && |Joined(prefix, name)| <= INT_MAX / 2
    ensures d.Valid() && d.PointsTo(plain, Joined(prefix, name))
    ensures plain == first <==> fastKey == FastKey(Joined(prefix, name), |Joined(prefix, name)|)
  {
    d := new Dictionary(id, seed, null);
    var s := Joined(prefix, name);
    var p := d.QLookup(prefix, name, fastKey);
    assert p.Some?;
    first := p.value;
    assert s[..|s|] == s;
    OnlyEntry(d, s, first, fastKey, FastKey(s, |s|));
    var r := d.Lookup(s, |s|);
    assert r.Some?;
    plain := r.value;
  }

  lemma OnlyEntry(d: Dictionary, s: Bytes, p: Ptr, okey: nat, k: nat)
    requires d.Valid() && d.subdict == null && d.Content() == {Entry(p, |s|, okey)} && d.PointsTo(p, s)
    ensures d.Hit(k, s) == if k == okey then Some(p) else None
  {
    d.HitMeans(k, s);
    if k == okey {
      assert FoundAs(d.Content(), d.pools, k, s, p);
    }
  }
}
