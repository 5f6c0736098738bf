/** Which identifiers a request is about: URNs in public and system identifiers, end to end. */
module CatalogUrns {
  import opened XmlStrings
  import opened CatalogIds
  import opened CatalogModel
  import opened CatalogMeaning
  import opened CatalogFrames
  import opened CatalogTrace
  import opened CatalogState
  import opened Catalog

  // What the catalogs mean for them

  /** A system identifier that is a URN is asked for as the public identifier it stands for. */
  lemma SystemUrnIsPublic(g: Graph, root: seq<Entry>, urn: string)
    requires Ranked(g) && IsUrn(urn)
    ensures RootMeaning(g, root, None, Some(urn)) == RootMeaning(g, root, Some(Unwrapped(urn)), None)
  {
    assert Reduced(None, Some(urn)) == Reduced(Some(Unwrapped(urn)), None);
  }

  /** So is a public identifier that is a URN once it is normalised; the system identifier waits. */
  lemma PublicUrnIsUnwrapped(g: Graph, root: seq<Entry>, pub: string, sys: Id)
    requires Ranked(g) && IsUrn(Normalised(pub))
    ensures RootMeaning(g, root, Some(pub), sys) == RootMeaning(g, root, Some(Unwrapped(Normalised(pub))), sys)
  {
    assert Reduced(Some(pub), sys) == Reduced(Some(Unwrapped(Normalised(pub))), sys);
  }

  /** A URN in the system identifier is dropped if it says what the public identifier says, else unwrapped to a
      system identifier. */
  lemma SystemUrnBesidePublic(g: Graph, root: seq<Entry>, pub: string, urn: string)
    requires Ranked(g) && Normalised(pub) != "" && !IsUrn(Normalised(pub)) && IsUrn(urn)
    ensures Normalised(pub) == Unwrapped(urn) ==>
      RootMeaning(g, root, Some(pub), Some(urn)) == RootMeaning(g, root, Some(pub), None)
    ensures Normalised(pub) != Unwrapped(urn) ==>
      RootMeaning(g, root, Some(pub), Some(urn)) == RootMeaning(g, root, Some(pub), Some(Unwrapped(urn)))
  {
    var p := Normalised(pub);
    NormalIffFixed(pub);
    ReducedOfNormal(pub, None);
    ReducedOfNormal(pub, Some(Unwrapped(urn)));
    assert Reduced(Some(pub), Some(urn)) ==
      if p == Unwrapped(urn) then Reduced(Some(p), None) else Reduced(Some(p), Some(Unwrapped(urn)));
  }

  lemma ReducedOfNormal(pub: string, sys: Id)
    ensures Reduced(Some(Normalised(pub)), sys) == Reduced(Some(pub), sys)
  {
    NormalIffFixed(pub);
  }

  /** A blank public identifier is none. */
  lemma BlankPublicIsNone(g: Graph, root: seq<Entry>, pub: string, sys: Id)
    requires Ranked(g) && Normalised(pub) == ""
    ensures RootMeaning(g, root, Some(pub), sys) == RootMeaning(g, root, None, sys)
  {
    assert Reduced(Some(pub), sys) == Reduced(None, sys);
    if sys.None? {
      TargetsHaveRank(g, root, Catalogs);
      FirstAnswerSilent(g, CatalogMeaning.Top(g.rank), Targets(g.urls, root, Catalogs), None, None);
      forall v | v in Targets(g.urls, root, Catalogs)
        ensures v < |g.files| && FileMeaning(g, v, None, None) == Nothing
      {
      }
    }
  }

  /** Identifiers that are no URNs are asked for as they are, the public one normalised: of the catalogs in turn,
      each of which looks at its own entries. */
  lemma OthersAreAskedFor(g: Graph, root: seq<Entry>, pub: Id, sys: Id)
    requires Ranked(g) && (pub.Some? || sys.Some?) && (sys.Some? ==> !IsUrn(sys.value))
    requires pub.Some? ==> Normalised(pub.value) != "" && !IsUrn(Normalised(pub.value))
    ensures AllBelow(g, Targets(g.urls, root, Catalogs), CatalogMeaning.Top(g.rank))
    ensures var p := if pub.Some? then Some(Normalised(pub.value)) else None;
      && RootMeaning(g, root, pub, sys) ==
           FirstAnswer(g, CatalogMeaning.Top(g.rank), Targets(g.urls, root, Catalogs), p, sys)
      && forall v :: 0 <= v < |g.files| ==>
           FileMeaning(g, v, p, sys) == if g.files[v] == [] then Nothing else Meaning(g, v, p, sys)
  {
    if pub.Some? {
      NormalIffFixed(pub.value);
    }
    TargetsHaveRank(g, root, Catalogs);
  }

  // The identifiers searched for in the end, each by itself

  /** A system identifier with its URNs unwrapped. */
  function SystemForm(sys: string): (r: string)
    ensures !IsUrn(r)
    decreases Weight(Some(sys))
  {
    if IsUrn(sys) then UnwrappedWeighsLess(sys); SystemForm(Unwrapped(sys)) else sys
  }

  /** A public identifier normalised and unwrapped; a blank one is none. */
  function PublicForm(pub: string): (r: Id)
    ensures r.Some? ==> !IsUrn(r.value) && r.value != ""
    decreases Weight(NormalId(Some(pub)))
  {
    var p := Normalised(pub);
    if p == "" then None
    else if IsUrn(p) then UnwrappedWeighsLess(p); PublicForm(Unwrapped(p))
    else Some(p)
  }

  /** A system URN beside a public identifier is left out if they agree in the end; without one it is public. */
  function FinalIds(pub: Id, sys: Id): (Id, Id) {
    var p := if pub.Some? then PublicForm(pub.value) else None;
    if sys.None? || !IsUrn(sys.value) then (p, sys)
    else if p.None? then (PublicForm(Unwrapped(sys.value)), None)
    else (p, if p.value == SystemForm(sys.value) then None else Some(SystemForm(sys.value)))
  }

  /** The recursion that unwraps one URN at a time ends there. */
  lemma {:induction false} ReducedIsFinalIds(pub: Id, sys: Id)
    ensures Reduced(pub, sys) == FinalIds(pub, sys)
    decreases Weight(NormalId(pub)) + Weight(sys)
  {
    var p := NormalId(pub);
    if p.Some? {
      NormalIffFixed(pub.value);
      if IsUrn(p.value) {
        UnwrappedWeighsLess(p.value);
        ReducedIsFinalIds(Some(Unwrapped(p.value)), sys);
      } else if sys.Some? && IsUrn(sys.value) {
        UnwrappedWeighsLess(sys.value);
        assert PublicForm(p.value) == p == PublicForm(pub.value);
        assert SystemForm(sys.value) == SystemForm(Unwrapped(sys.value));
        ReducedIsFinalIds(p, if p.value == Unwrapped(sys.value) then None else Some(Unwrapped(sys.value)));
      }
    } else if sys.Some? && IsUrn(sys.value) {
      UnwrappedWeighsLess(sys.value);
      ReducedIsFinalIds(Some(Unwrapped(sys.value)), None);
    }
  }

  // A request that the first catalog answers, on any catalog graph

  lemma {:induction false} FirstOfRun(urls: seq<string>, depth: seq<nat>, fs: seq<Frame>)
    requires fs != [] && Ran(depth, fs) && Explained(urls, fs)
    ensures RanFrame(depth, fs[0]) && Told(urls, fs[0])
    ensures Names(fs) != [] && Names(fs)[0] == fs[0].v
    decreases |fs|
  {
    if |fs| > 1 {
      FirstOfRun(urls, depth, fs[..|fs| - 1]);
    } else {
      assert fs[..0] == [] && Names([]) == [];
    }
  }

  /** If the first catalog to be asked has an entry that answers by itself, that is the answer. */
  lemma FirstCatalogAnswers(urls: seq<string>, root: seq<Entry>, ids: (Id, Id), depth: seq<nat>, fs: seq<Frame>,
                            a: seq<seq<Entry>>, b: seq<seq<Entry>>, v: nat, url: string)
    requires RootConsulted(urls, root, ids, depth, fs) && Ran(depth, fs) && Explained(urls, fs) && FirstFound(a, fs, b)
    requires Targets(urls, root, Catalogs) != [] && Targets(urls, root, Catalogs)[0] == v && v < |a| && v < |depth|
    requires depth[v] <= MAX_CATAL_DEPTH && a[v] != [] && (ids.0.Some? || ids.1.Some?)
    requires Planned(urls, a[v], ids.0, ids.1) == Done(Resource(url))
    ensures Got(fs) == Resource(url)
  {
    FirstOfRun(urls, depth, fs);
    DirectAnswer(urls, depth, fs[0], ids, a[v], url);
    FirstIsLast(fs);
  }

  lemma DirectAnswer(urls: seq<string>, depth: seq<nat>, f: Frame, ids: (Id, Id), es: seq<Entry>, url: string)
    requires RanFrame(depth, f) && Told(urls, f) && f.list == es != [] && f.pub == ids.0 && f.sys == ids.1
    requires depth[f.v] <= MAX_CATAL_DEPTH && (ids.0.Some? || ids.1.Some?)
    requires Planned(urls, es, ids.0, ids.1) == Done(Resource(url))
    ensures AnswerOf(f) == Resource(url)
  {
  }

  lemma FirstIsLast(fs: seq<Frame>)
    requires Tells(fs, Got(fs)) && fs != [] && AnswerOf(fs[0]) != Nothing
    ensures Got(fs) == AnswerOf(fs[0])
  {
  }

  /** Any resolver whose first catalog has an answer of its own for the identifiers a request comes down to. */
  method ResolveFirst(r: Resolver, pub: Id, sys: Id, ghost v: nat, ghost url: string) returns (uri: Option<string>)
    requires r.Valid() && Targets(r.urls, r.root, Catalogs) != [] && Targets(r.urls, r.root, Catalogs)[0] == v
    requires v < |r.depth| && v < |r.lists| && r.depth[v] <= MAX_CATAL_DEPTH && r.lists[v] != []
    requires FinalIds(pub, sys).0.Some? || FinalIds(pub, sys).1.Some?
    requires Planned(r.urls, r.lists[v], FinalIds(pub, sys).0, FinalIds(pub, sys).1) == Done(Resource(url))
    modifies r
    ensures r.Valid() && uri == Some(url)
  {
    ghost var frames, lists, depth, root := [], r.lists, r.depth, r.root;
    ReducedIsFinalIds(pub, sys);
    uri, frames := r.Resolve(pub, sys, []);
    FirstCatalogAnswers(r.urls, root, FinalIds(pub, sys), depth, frames, lists, r.lists, v, url);
  }

  ghost predicate FirstEntry(es: seq<Entry>, kind: Kind, id: string, k: nat) {
    k < |es| && IsExact(es[k], kind, id) && forall j :: 0 <= j < k ==> !IsExact(es[j], kind, id)
  }

  lemma FirstEntryIsExact(es: seq<Entry>, kind: Kind, id: string, k: nat)
    requires FirstEntry(es, kind, id, k)
    ensures FirstExact(es, kind, id) == Some(k)
  {
  }

  /** The first catalog asked, which may be asked, starts with these entries. */
  ghost predicate AsksFirst(r: Resolver, v: nat, es: seq<Entry>)
    reads r
  {
    && r.Valid() && Targets(r.urls, r.root, Catalogs) != [] && Targets(r.urls, r.root, Catalogs)[0] == v
    && v < |r.depth| && v < |r.lists| && r.depth[v] <= MAX_CATAL_DEPTH && r.lists[v] == es
  }

  /** A system URN alone finds the public entry for what it stands for. */
  method ResolveSystemUrn(r: Resolver, urn: string, ghost v: nat, ghost es: seq<Entry>, ghost k: nat)
    returns (uri: Option<string>)
    requires AsksFirst(r, v, es) && IsUrn(urn)
    requires var id := Normalised(Unwrapped(urn)); id != "" && !IsUrn(id) && FirstEntry(es, Public, id, k)
    modifies r
    ensures r.Valid() && uri == Some(es[k].url)
  {
    FirstEntryIsExact(es, Public, Normalised(Unwrapped(urn)), k);
    uri := ResolveFirst(r, None, Some(urn), v, es[k].url);
  }

  /** So does a public URN, unless the list has more to say about the system identifier. */
  method ResolvePublicUrn(r: Resolver, pub: string, sys: Id, ghost v: nat, ghost es: seq<Entry>, ghost k: nat)
    returns (uri: Option<string>)
    requires AsksFirst(r, v, es) && IsUrn(Normalised(pub)) && (sys.Some? ==> !IsUrn(sys.value))
    requires sys.Some? ==> SystemSilent(es, sys.value)
    requires var id := Normalised(Unwrapped(Normalised(pub)));
      id != "" && !IsUrn(id) && FirstEntry(es, Public, id, k)
    modifies r
    ensures r.Valid() && uri == Some(es[k].url)
  {
    ghost var id := Normalised(Unwrapped(Normalised(pub)));
    FirstEntryIsExact(es, Public, id, k);
    assert PublicForm(Unwrapped(Normalised(pub))) == Some(id) == PublicForm(pub);
    if sys.Some? {
      SilentHasNoPlan(r.urls, es, sys.value);
    }
    uri := ResolveFirst(r, Some(pub), sys, v, es[k].url);
  }

  lemma SilentHasNoPlan(urls: seq<string>, es: seq<Entry>, sys: string)
    requires SystemSilent(es, sys)
    ensures SystemPlan(urls, es, sys).None?
  {
  }

  /** Beside a public identifier a system URN finds the system entry for what it stands for, if that is not the same;
      if it is, only the public identifier counts. */
  method ResolveSystemUrnBeside(r: Resolver, pub: string, urn: string, ghost v: nat, ghost es: seq<Entry>, ghost k: nat)
    returns (uri: Option<string>)
    requires AsksFirst(r, v, es) && Normalised(pub) != "" && !IsUrn(Normalised(pub))
    requires IsUrn(urn) && !IsUrn(Unwrapped(urn))
    requires if Normalised(pub) == Unwrapped(urn) then FirstEntry(es, Public, Normalised(pub), k)
             else FirstEntry(es, System, Unwrapped(urn), k)
    modifies r
    ensures r.Valid() && uri == Some(es[k].url)
  {
    assert SystemForm(Unwrapped(urn)) == Unwrapped(urn) == SystemForm(urn);
    if Normalised(pub) == Unwrapped(urn) {
      FirstEntryIsExact(es, Public, Normalised(pub), k);
    } else {
      FirstEntryIsExact(es, System, Unwrapped(urn), k);
    }
    uri := ResolveFirst(r, Some(pub), Some(urn), v, es[k].url);
  }

  /** Where no file refers back to itself, a new resolver answers a system URN and the public identifier it stands
      for alike, whatever its catalogs are. */
  method ResolveAlike(urls: seq<string>, files: seq<seq<Entry>>, root: seq<Entry>, urn: string, ghost rank: seq<nat>)
    returns (byUrn: Option<string>, byPublic: Option<string>)
    requires |urls| == |files| && Ranked(Graph(urls, files, rank)) && IsUrn(urn)
    ensures byUrn == byPublic
  {
    ghost var g := Graph(urls, files, rank);
    var r := new Resolver(urls, files, root);
    FreshIsCalm(g, r.Now(), CatalogMeaning.Top(rank), None, Some(urn));
    ghost var frames;
    byUrn, frames := r.Resolve(None, Some(urn), rank);
    var s := new Resolver(urls, files, root);
    FreshIsCalm(g, s.Now(), CatalogMeaning.Top(rank), Some(Unwrapped(urn)), None);
    byPublic, frames := s.Resolve(Some(Unwrapped(urn)), None, rank);
    SystemUrnIsPublic(g, root, urn);
  }
}
