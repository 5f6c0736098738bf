/** Two runs of the catalog resolver in which the state it keeps shows. */
module CatalogRuns {
  import opened XmlStrings
  import opened CatalogIds
  import opened CatalogModel
  import opened CatalogMarks
  import opened CatalogFrames
  import opened CatalogTrace
  import opened CatalogState
  import opened Catalog

  // A single node of the tree

  lemma {:induction false} NamesLength(fs: seq<Frame>)
    ensures |Names(fs)| == |fs|
    ensures forall i :: 0 <= i < |fs| ==> Names(fs)[i] == fs[i].v
  {
    if fs != [] {
      NamesLength(fs[..|fs| - 1]);
    }
  }

  /** A list with one catalog asks that one. */
  lemma OneCatalog(urls: seq<string>, es: seq<Entry>, ids: (Id, Id), depth: seq<nat>, fs: seq<Frame>, w: nat)
    requires RootConsulted(urls, es, ids, depth, fs) && Targets(urls, es, Catalogs) == [w]
    ensures |fs| == 1 && fs == [fs[0]] && fs[0].v == w && fs[0].pub == ids.0 && fs[0].sys == ids.1
  {
    NamesLength(fs);
    assert |Names(fs)| <= |Targets(urls, es, Catalogs)|;
  }

  lemma OneNode(urls: seq<string>, a: seq<seq<Entry>>, depth: seq<nat>, f: Frame, b: seq<seq<Entry>>)
    requires Ran(depth, [f]) && Explained(urls, [f]) && Dated(urls, a, [f], b)
    ensures RanFrame(depth, f) && Told(urls, f) && (f.Frame? ==> Explained(urls, f.inner))
    ensures f.v < |a| && f.v < |b| && Aged(urls, a[f.v], f.list)
    ensures f.Frame? ==> Aged(urls, f.left, b[f.v]) && Dated(urls, a, f.inner, b)
    ensures After(depth, [f]) == AfterFrame(depth, f) && Got([f]) == AnswerOf(f)
  {
    assert [f][..|[f]| - 1] == [] && After(depth, []) == depth;
  }

  /** A frame whose plan is to ask one next catalog asks it. */
  lemma AsksTheNext(urls: seq<string>, f: Frame, w: nat)
    requires f.Frame? && f.plan == Ask([w], f.pub, f.sys, false) && Told(urls, f) && Final(f.pub, f.sys)
    requires f.inner == [] ==> !f.stuck
    ensures |f.inner| == 1 && f.inner == [f.inner[0]] && f.inner[0].v == w
    ensures f.inner[0].pub == f.pub && f.inner[0].sys == f.sys
  {
    NamesLength(f.inner);
    var n: nat :| n <= 1 && (Got(f.inner) == Nothing && !f.stuck ==> n == 1) && Names(f.inner) == [w][..n];
  }

  // A file that names itself as its next catalog

  const SELF := Entry(NextCatalog, None, "u", true)

  lemma SelfPlan(pub: Id, sys: Id)
    requires pub.Some? || sys.Some?
    ensures Planned(["u"], [SELF], pub, sys) == Ask([0], pub, sys, false)
  {
    var es := [SELF];
    assert es[..0] == [] && IndexOf(["u"], "u") == Some(0);
    assert Targets(["u"], es, Nexts) == Targets(["u"], [], Nexts) + [0] == [0];
  }

  /** A node of the tree on that file while its counter is at d, under a quantifier to keep it closed. */
  ghost predicate OnSelf(a: seq<seq<Entry>>, d: nat, f: Frame, b: seq<seq<Entry>>) {
    forall e: nat :: e == d ==> OnSelfAt(a, e, f, b)
  }

  ghost predicate OnSelfAt(a: seq<seq<Entry>>, d: nat, f: Frame, b: seq<seq<Entry>>) {
    && Ran([d], [f]) && Explained(["u"], [f]) && Dated(["u"], a, [f], b) && a == [[SELF]] && f.v == 0
    && d <= MAX_CATAL_DEPTH + 1 && Final(f.pub, f.sys) && (f.pub.Some? || f.sys.Some?)
  }

  /** What is claimed of it. */
  ghost predicate Stuck(d: nat, f: Frame) {
    After([d], [f]) == [MAX_CATAL_DEPTH + 1] && AnswerOf(f) == Nothing
  }

  /** The counter ends past the limit, wherever it starts. */
  lemma {:induction false} SelfSticks(a: seq<seq<Entry>>, d: nat, f: Frame, b: seq<seq<Entry>>)
    requires OnSelf(a, d, f, b)
    ensures Stuck(d, f)
    decreases f
  {
    if d <= MAX_CATAL_DEPTH {
      var g := SelfChild(a, d, f, b);
      SelfSticks(a, d + 1, g, b);
      SelfStuck(a, d, f, b, g);
    } else {
      SelfRefused(a, d, f, b);
    }
  }

  lemma SelfChild(a: seq<seq<Entry>>, d: nat, f: Frame, b: seq<seq<Entry>>) returns (g: Frame)
    requires OnSelf(a, d, f, b) && d <= MAX_CATAL_DEPTH
    ensures f.Frame? && f.inner == [g] && g < f && OnSelf(a, d + 1, g, b)
  {
    assert OnSelfAt(a, d, f, b);
    OneNode(["u"], a, [d], f, b);
    SelfFrame(a, d, f);
    g := f.inner[0];
  }

  lemma SelfRefused(a: seq<seq<Entry>>, d: nat, f: Frame, b: seq<seq<Entry>>)
    requires OnSelf(a, d, f, b) && d > MAX_CATAL_DEPTH
    ensures Stuck(d, f)
  {
    assert OnSelfAt(a, d, f, b);
    OneNode(["u"], a, [d], f, b);
  }

  lemma SelfStuck(a: seq<seq<Entry>>, d: nat, f: Frame, b: seq<seq<Entry>>, g: Frame)
    requires OnSelf(a, d, f, b) && d <= MAX_CATAL_DEPTH && f.Frame? && f.inner == [g] && Stuck(d + 1, g)
    ensures Stuck(d, f)
  {
    assert OnSelfAt(a, d, f, b);
    OneNode(["u"], a, [d], f, b);
    SelfFrame(a, d, f);
    assert Got(f.inner) == Nothing;
  }

  /** It asks itself for the same identifiers. */
  lemma SelfFrame(a: seq<seq<Entry>>, d: nat, f: Frame)
    requires RanFrame([d], f) && Told(["u"], f) && a == [[SELF]] && f.v == 0 && Aged(["u"], a[0], f.list)
    requires d <= MAX_CATAL_DEPTH && Final(f.pub, f.sys) && (f.pub.Some? || f.sys.Some?)
    ensures f.Frame? && f.plan == Ask([0], f.pub, f.sys, false) && f.inner != [] && f.inner == [f.inner[0]]
    ensures f.inner[0].v == 0 && f.inner[0].pub == f.pub && f.inner[0].sys == f.sys
    ensures Raised([d], 0) == [d + 1] && Ran([d + 1], f.inner) && Stops([d + 1], f)
  {
    assert f.list[0] == SELF && f.list == [SELF];
    SelfPlan(f.pub, f.sys);
    assert Raised([d], 0) == [d + 1];
    AsksTheNext(["u"], f, 0);
  }

  ghost predicate SelfState(r: Resolver, d: nat)
    reads r
  {
    && r.Valid() && r.urls == ["u"] && r.files == [[SELF]] && r.root == [Entry(Catalog, None, "u", true)]
    && r.depth == [d] && d <= MAX_CATAL_DEPTH + 1
  }

  method ResolveSelf(r: Resolver, pub: Id, sys: Id, ghost d: nat) returns (uri: Option<string>)
    requires SelfState(r, d) && (Reduced(pub, sys).0.Some? || Reduced(pub, sys).1.Some?)
    modifies r
    ensures SelfState(r, MAX_CATAL_DEPTH + 1) && uri.None?
  {
    ghost var frames, lists := [], r.lists;
    ReducedIsFinal(pub, sys);
    uri, frames := r.Resolve(pub, sys, []);
    DatedFrom([[SELF]], lists, frames, r.lists);
    SelfTurn(r.urls, Reduced(pub, sys), d, frames, r.lists);
    assert r.root[0] == Entry(Catalog, None, "u", true);
  }

  /** One request takes the counter of such a file past the limit for good: this one and all later ones find nothing. */
  method SelfReference(pub: Id, sys: Id) returns (r: Resolver, first: Option<string>, second: Option<string>)
    requires Reduced(pub, sys).0.Some? || Reduced(pub, sys).1.Some?
    ensures r.Valid() && r.depth == [MAX_CATAL_DEPTH + 1] && first.None? && second.None?
  {
    r := new Resolver(["u"], [[SELF]], [Entry(Catalog, None, "u", true)]);
    first := ResolveSelf(r, pub, sys, 0);
    second := ResolveSelf(r, pub, sys, MAX_CATAL_DEPTH + 1);
  }

  lemma SelfTurn(urls: seq<string>, ids: (Id, Id), d: nat, fs: seq<Frame>, b: seq<seq<Entry>>)
    requires urls == ["u"] && RootConsulted(urls, [Entry(Catalog, None, "u", true)], ids, [d], fs)
    requires Final(ids.0, ids.1) && (ids.0.Some? || ids.1.Some?) && d <= MAX_CATAL_DEPTH + 1
    requires Ran([d], fs) && Explained(urls, fs) && Dated(urls, [[SELF]], fs, b)
    ensures After([d], fs) == [MAX_CATAL_DEPTH + 1] && Got(fs) == Nothing
  {
    SelfRoot([Entry(Catalog, None, "u", true)]);
    OneCatalog(urls, [Entry(Catalog, None, "u", true)], ids, [d], fs, 0);
    SelfSticks([[SELF]], d, fs[0], b);
  }

  lemma DatedFrom(files: seq<seq<Entry>>, a: seq<seq<Entry>>, fs: seq<Frame>, b: seq<seq<Entry>>)
    requires Dated(["u"], a, fs, b) && |a| == |files| && forall v :: 0 <= v < |a| ==> Aged(["u"], files[v], a[v])
    ensures Dated(["u"], files, fs, b)
  {
    DatedWider(["u"], files, a, fs, b, b);
  }

  lemma SelfRoot(root: seq<Entry>)
    requires root == [Entry(Catalog, None, "u", true)]
    ensures Targets(["u"], root, Catalogs) == [0]
  {
    assert root[..0] == [] && IndexOf(["u"], "u") == Some(0);
    assert Targets(["u"], root, Catalogs) == Targets(["u"], [], Catalogs) + [0];
  }

  // A file with a delegate that is missing

  const GONE := Entry(DelegateSystem, Some("s"), "gone", true)
  const MARKED := Entry(BrokenCatalog, Some("s"), "gone", true)
  const FURTHER := Entry(NextCatalog, None, "b", true)
  const ANSWER := Entry(System, Some("s1"), "r", true)

  lemma GoneFirst()
    ensures var urls, sys := ["a", "b"], Some("s1");
      && Planned(urls, [GONE, FURTHER], None, sys) == Ask([], None, sys, true)
      && Tried(urls, [GONE, FURTHER], SystemDelegates("s1")) == [MARKED, FURTHER]
  {
    var urls, es, sel := ["a", "b"], [GONE, FURTHER], SystemDelegates("s1");
    Lookups();
    assert es[..1] == [GONE] && [GONE][..0] == [] && Selects(sel, es[0]);
    assert Targets(urls, [GONE], sel) == Targets(urls, [], sel) == [];
    assert Targets(urls, es, sel) == [];
    assert Tries(es, 0, sel) && !Selects(sel, es[1]);
  }

  lemma GoneSecond()
    ensures Planned(["a", "b"], [MARKED, FURTHER], None, Some("s1")) == Ask([1], None, Some("s1"), false)
  {
    var urls, es := ["a", "b"], [MARKED, FURTHER];
    Lookups();
    assert es[..1] == [MARKED] && [MARKED][..0] == [] && !HasSelected(es, SystemDelegates("s1"));
    assert Targets(urls, [MARKED], Nexts) == Targets(urls, [], Nexts) == [];
    assert Targets(urls, es, Nexts) == [] + [1];
  }

  lemma AnswerPlan()
    ensures Planned(["a", "b"], [ANSWER], None, Some("s1")) == Done(Resource("r"))
    ensures Final(None, Some("s1")) && Reduced(None, Some("s1")) == (None, Some("s1"))
  {
    assert IsExact([ANSWER][0], System, "s1");
    assert !IsUrn("s1");
  }

  lemma Lookups()
    ensures var urls := ["a", "b"];
      IndexOf(urls, "gone") == None && IndexOf(urls, "b") == Some(1) && IndexOf(urls, "a") == Some(0)
  {
    var urls := ["a", "b"];
    assert urls[..1] == ["a"] && ["a"][..0] == [];
  }

  lemma GoneRoot(root: seq<Entry>)
    requires root == [Entry(Catalog, None, "a", true)]
    ensures Targets(["a", "b"], root, Catalogs) == [0]
  {
    Lookups();
    assert root[..0] == [];
    assert Targets(["a", "b"], root, Catalogs) == Targets(["a", "b"], [], Catalogs) + [0];
  }

  /** The tree of a resolution on these files, with the first list as it stands. */
  ghost predicate GoneTree(list: seq<Entry>, fs: seq<Frame>, b: seq<seq<Entry>>) {
    forall a: seq<seq<Entry>> :: a == [list, [ANSWER]] ==> GoneTreeFrom(a, fs, b)
  }

  ghost predicate GoneTreeFrom(a: seq<seq<Entry>>, fs: seq<Frame>, b: seq<seq<Entry>>) {
    && RootConsulted(["a", "b"], [Entry(Catalog, None, "a", true)], (None, Some("s1")), [0, 0], fs)
    && Ran([0, 0], fs) && Explained(["a", "b"], fs) && Dated(["a", "b"], a, fs, b) && FirstFound(a, fs, b)
  }

  lemma GoneNode(list: seq<Entry>, fs: seq<Frame>, b: seq<seq<Entry>>) returns (f: Frame)
    requires GoneTree(list, fs, b) && list != []
    ensures fs == [f] && f.Frame? && f.v == 0 && f.list == list && f.pub == None && f.sys == Some("s1")
    ensures RanFrame([0, 0], f) && Told(["a", "b"], f) && After([0, 0], fs) == AfterFrame([0, 0], f)
    ensures Got(fs) == f.answer && |b| > 0 && Aged(["a", "b"], f.left, b[0]) && Explained(["a", "b"], f.inner)
    ensures Dated(["a", "b"], [list, [ANSWER]], f.inner, b)
  {
    var a := [list, [ANSWER]];
    assert GoneTreeFrom(a, fs, b);
    GoneRoot([Entry(Catalog, None, "a", true)]);
    OneCatalog(["a", "b"], [Entry(Catalog, None, "a", true)], (None, Some("s1")), [0, 0], fs, 0);
    f := fs[0];
    OneNode(["a", "b"], a, [0, 0], f, b);
  }

  lemma FirstTold(fs: seq<Frame>, b: seq<seq<Entry>>)
    requires GoneTree([GONE, FURTHER], fs, b)
    ensures Got(fs) == Cut && After([0, 0], fs) == [0, 0] && |b| > 0 && Aged(["a", "b"], [MARKED, FURTHER], b[0])
  {
    var f := GoneNode([GONE, FURTHER], fs, b);
    GoneFirst();
    NamesLength(f.inner);
    assert Names(f.inner) == [];
    assert Raised([0, 0], 0) == [1, 0] && Lowered([1, 0], 0) == [0, 0];
  }

  lemma SecondTold(fs: seq<Frame>, b: seq<seq<Entry>>)
    requires GoneTree([MARKED, FURTHER], fs, b)
    ensures Got(fs) == Resource("r")
  {
    var f := GoneNode([MARKED, FURTHER], fs, b);
    GoneSecond();
    AnswerPlan();
    AsksTheNext(["a", "b"], f, 1);
    var g := f.inner[0];
    assert Raised([0, 0], 0) == [1, 0];
    OneNode(["a", "b"], [[MARKED, FURTHER], [ANSWER]], [1, 0], g, b);
    assert g.list[0] == ANSWER && g.list == [ANSWER];
  }

  ghost predicate GoneState(r: Resolver, list: seq<Entry>)
    reads r
  {
    && r.Valid() && r.urls == ["a", "b"] && r.files == [[GONE, FURTHER], [ANSWER]] && r.depth == [0, 0]
    && r.root == [Entry(Catalog, None, "a", true)] && r.lists == [list, [ANSWER]]
  }

  method AskGoneFirst(r: Resolver) returns (uri: Option<string>)
    requires GoneState(r, [GONE, FURTHER])
    modifies r
    ensures GoneState(r, [MARKED, FURTHER]) && uri.None?
  {
    ghost var frames, lists := [], r.lists;
    AnswerPlan();
    uri, frames := r.Resolve(None, Some("s1"), []);
    assert GoneTreeFrom(lists, frames, r.lists);
    FirstTold(frames, r.lists);
    FirstLists(r.lists, r.root);
  }

  /** What can be loaded is not marked. */
  lemma FirstLists(lists: seq<seq<Entry>>, root: seq<Entry>)
    requires |lists| == 2 && Aged(["a", "b"], [MARKED, FURTHER], lists[0]) && Aged(["a", "b"], [ANSWER], lists[1])
    requires Aged(["a", "b"], [Entry(Catalog, None, "a", true)], root)
    ensures lists == [[MARKED, FURTHER], [ANSWER]] && root == [Entry(Catalog, None, "a", true)]
  {
    Lookups();
    assert lists[0][0] == MARKED && lists[0][1] == FURTHER && lists[1][0] == ANSWER;
    assert lists[0] == [MARKED, FURTHER] && lists[1] == [ANSWER];
    assert root[0] == Entry(Catalog, None, "a", true);
  }

  method AskGoneAgain(r: Resolver) returns (uri: Option<string>)
    requires GoneState(r, [MARKED, FURTHER])
    modifies r
    ensures uri == Some("r")
  {
    ghost var frames, lists := [], r.lists;
    AnswerPlan();
    uri, frames := r.Resolve(None, Some("s1"), []);
    assert GoneTreeFrom(lists, frames, r.lists);
    SecondTold(frames, r.lists);
  }

  /** The same request twice: the missing delegate cuts the first one, and the second one finds the answer
      behind it. */
  method ResolveTwice() returns (first: Option<string>, second: Option<string>)
    ensures first.None? && second == Some("r")
  {
    var r := new Resolver(["a", "b"], [[GONE, FURTHER], [ANSWER]], [Entry(Catalog, None, "a", true)]);
    first := AskGoneFirst(r);
    second := AskGoneAgain(r);
  }
}
