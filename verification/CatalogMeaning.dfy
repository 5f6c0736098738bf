/** The answer of a catalog graph in which no file refers back to itself, by recursion on the
    rank of a file and without any counter. */
module CatalogMeaning {
  import opened XmlStrings
  import opened CatalogModel

  datatype Graph = Graph(urls: seq<string>, files: seq<seq<Entry>>, rank: seq<nat>)

  predicate LeadsOn(e: Entry) {
    e.kind == NextCatalog || e.kind == DelegateSystem || e.kind == DelegatePublic
  }

  ghost predicate Shaped(g: Graph) {
    |g.urls| == |g.files| == |g.rank|
  }

  ghost predicate Below(g: Graph, v: nat, r: nat)
    requires Shaped(g)
  {
    v < |g.rank| && g.rank[v] < r
  }

  ghost predicate AllBelow(g: Graph, vs: seq<nat>, r: nat)
    requires Shaped(g)
  {
    forall i :: 0 <= i < |vs| ==> Below(g, vs[i], r)
  }

  /** Every file refers to files of lower rank only. */
  ghost predicate Ranked(g: Graph) {
    Shaped(g) && forall u: nat :: RankedFile(g, u)
  }

  ghost predicate RankedFile(g: Graph, u: nat)
    requires Shaped(g)
  {
    u < |g.files| ==>
      forall k :: 0 <= k < |g.files[u]| && LeadsOn(g.files[u][k]) ==>
        var v := IndexOf(g.urls, g.files[u][k].url);
        v.Some? ==> Below(g, v.value, g.rank[u])
  }

  lemma PlanStaysBelow(g: Graph, v: nat, pub: Id, sys: Id)
    requires Ranked(g) && v < |g.files|
    ensures var plan := Planned(g.urls, g.files[v], pub, sys);
      plan.Ask? ==> AllBelow(g, plan.lists, g.rank[v])
  {
    var plan := Planned(g.urls, g.files[v], pub, sys);
    assert RankedFile(g, v);
    if plan.Ask? {
      forall i | 0 <= i < |plan.lists|
        ensures Below(g, plan.lists[i], g.rank[v])
      {
        assert plan.lists[i] in plan.lists;
      }
    }
  }

  /** The answer of the entries of file v. */
  ghost function Meaning(g: Graph, v: nat, pub: Id, sys: Id): Answer
    requires Ranked(g) && v < |g.files|
    decreases g.rank[v], 1, 0
  {
    match Planned(g.urls, g.files[v], pub, sys)
    case Done(answer) => answer
    case Ask(vs, p, s, cut) =>
      PlanStaysBelow(g, v, pub, sys);
      var answer := FirstAnswer(g, g.rank[v], vs, p, s);
      if answer == Nothing && cut then Cut else answer
  }

  /** The answer of file v as a catalog of its own; an empty file has none. */
  ghost function FileMeaning(g: Graph, v: nat, pub: Id, sys: Id): Answer
    requires Ranked(g) && v < |g.files|
    decreases g.rank[v], 2, 0
  {
    if (pub.None? && sys.None?) || g.files[v] == [] then Nothing
    else Meaning(g, v, Reduced(pub, sys).0, Reduced(pub, sys).1)
  }

  /** Catalogs are asked in order, and the first answer counts, be it a cut. */
  ghost function FirstAnswer(g: Graph, r: nat, vs: seq<nat>, pub: Id, sys: Id): Answer
    requires Ranked(g) && AllBelow(g, vs, r)
    decreases r, 0, |vs|
  {
    if vs == [] then Nothing else
    var answer := FileMeaning(g, vs[0], pub, sys);
    if answer != Nothing then answer else FirstAnswer(g, r, vs[1..], pub, sys)
  }

  /** The first catalog with an answer decides; what comes later, even after a cut, is not looked at. */
  lemma {:induction false} FirstAnswerDecides(g: Graph, r: nat, vs: seq<nat>, k: nat, pub: Id, sys: Id)
    requires Ranked(g) && AllBelow(g, vs, r) && k <= |vs|
    requires forall j :: 0 <= j < k ==> FileMeaning(g, vs[j], pub, sys) == Nothing
    ensures k == |vs| ==> FirstAnswer(g, r, vs, pub, sys) == Nothing
    ensures k < |vs| && FileMeaning(g, vs[k], pub, sys) != Nothing ==>
      FirstAnswer(g, r, vs, pub, sys) == FileMeaning(g, vs[k], pub, sys)
    decreases |vs|
  {
    if k > 0 {
      FirstAnswerDecides(g, r, vs[1..], k - 1, pub, sys);
    }
  }

  /** The answer of the list of catalogs the resolver starts from. */
  ghost function RootMeaning(g: Graph, root: seq<Entry>, pub: Id, sys: Id): Answer
    requires Ranked(g)
  {
    if pub.None? && sys.None? then Nothing else
    TargetsHaveRank(g, root, Catalogs);
    FirstAnswer(g, Top(g.rank), Targets(g.urls, root, Catalogs), Reduced(pub, sys).0, Reduced(pub, sys).1)
  }

  ghost function Top(rank: seq<nat>): (r: nat)
    ensures forall v :: 0 <= v < |rank| ==> rank[v] < r
  {
    if rank == [] then 0 else
    var r := Top(rank[..|rank| - 1]);
    if rank[|rank| - 1] < r then r else rank[|rank| - 1] + 1
  }

  lemma TargetsHaveRank(g: Graph, es: seq<Entry>, sel: Selection)
    requires Shaped(g)
    ensures AllBelow(g, Targets(g.urls, es, sel), Top(g.rank))
  {
  }

  // What the plan says, clause by clause

  /** An exact system entry decides wherever it stands in the list. */
  lemma ExactSystemWins(g: Graph, v: nat, k: nat, pub: Id, sys: string)
    requires Ranked(g) && v < |g.files| && k < |g.files[v]|
    requires IsExact(g.files[v][k], System, sys) && forall j :: 0 <= j < k ==> !IsExact(g.files[v][j], System, sys)
    ensures Meaning(g, v, pub, Some(sys)) == Resource(g.files[v][k].url)
  {
  }

  /** Without one, the earliest of the longest matching rewriting rules does; a rule with an empty start string
      never. */
  lemma LongestRewriteWins(g: Graph, v: nat, k: nat, pub: Id, sys: string)
    requires Ranked(g) && v < |g.files| && k < |g.files[v]|
    requires forall j :: 0 <= j < |g.files[v]| ==> !IsExact(g.files[v][j], System, sys)
    requires Rewrites(g.files[v][k], sys)
    requires forall j :: 0 <= j < |g.files[v]| && j != k && Rewrites(g.files[v][j], sys) ==>
      |Prefix(g.files[v][j])| < |Prefix(g.files[v][k])| || (|Prefix(g.files[v][j])| == |Prefix(g.files[v][k])| && k < j)
    ensures Meaning(g, v, pub, Some(sys)) == Resource(g.files[v][k].url + sys[|Prefix(g.files[v][k])|..])
  {
    var r := LongestRewrite(g.files[v], sys);
    assert r.Some? && !(r.value < k) && !(r.value > k);
  }

  predicate SystemSilent(es: seq<Entry>, sys: string) {
    forall j :: 0 <= j < |es| ==>
      !IsExact(es[j], System, sys) && !Rewrites(es[j], sys) && !Selects(SystemDelegates(sys), es[j])
  }

  predicate PublicSilent(es: seq<Entry>, pub: string) {
    forall j :: 0 <= j < |es| ==> !IsExact(es[j], Public, pub) && !Selects(PublicDelegates(pub), es[j])
  }

  /** With a matching system delegate and nothing better, public entries and next catalogs are never
      consulted: the file answers what its delegates answer for the system identifier, or cuts. */
  lemma DelegatesCut(g: Graph, v: nat, pub: Id, pub': Id, sys: string)
    requires Ranked(g) && v < |g.files| && HasSelected(g.files[v], SystemDelegates(sys))
    requires forall j :: 0 <= j < |g.files[v]| ==> !IsExact(g.files[v][j], System, sys) && !Rewrites(g.files[v][j], sys)
    ensures Meaning(g, v, pub, Some(sys)) == Meaning(g, v, pub', Some(sys)) != Nothing
    ensures AllBelow(g, Targets(g.urls, g.files[v], SystemDelegates(sys)), g.rank[v])
    ensures Meaning(g, v, pub, Some(sys)) ==
      OrCut(FirstAnswer(g, g.rank[v], Targets(g.urls, g.files[v], SystemDelegates(sys)), None, Some(sys)))
  {
    PlanStaysBelow(g, v, pub, Some(sys));
  }

  function OrCut(answer: Answer): Answer {
    if answer == Nothing then Cut else answer
  }

  /** Where the system identifier is not mentioned, matching public delegates decide in the same way: they are asked
      for the public identifier alone, and next catalogs are not. */
  lemma PublicDelegatesCut(g: Graph, v: nat, pub: string, sys: Id)
    requires Ranked(g) && v < |g.files| && HasSelected(g.files[v], PublicDelegates(pub))
    requires sys.Some? ==> SystemSilent(g.files[v], sys.value)
    requires forall j :: 0 <= j < |g.files[v]| ==> !IsExact(g.files[v][j], Public, pub)
    ensures AllBelow(g, Targets(g.urls, g.files[v], PublicDelegates(pub)), g.rank[v])
    ensures Meaning(g, v, Some(pub), sys) ==
      OrCut(FirstAnswer(g, g.rank[v], Targets(g.urls, g.files[v], PublicDelegates(pub)), Some(pub), None))
  {
    PlanStaysBelow(g, v, Some(pub), sys);
  }

  /** A file that mentions neither identifier leaves both to its next catalogs, and their silence cuts nothing. */
  lemma NextCatalogsDecide(g: Graph, v: nat, pub: Id, sys: Id)
    requires Ranked(g) && v < |g.files| && (pub.Some? || sys.Some?)
    requires sys.Some? ==> SystemSilent(g.files[v], sys.value)
    requires pub.Some? ==> PublicSilent(g.files[v], pub.value)
    ensures AllBelow(g, Targets(g.urls, g.files[v], Nexts), g.rank[v])
    ensures Meaning(g, v, pub, sys) == FirstAnswer(g, g.rank[v], Targets(g.urls, g.files[v], Nexts), pub, sys)
  {
    PlanStaysBelow(g, v, pub, sys);
  }

  /** A file answers nothing only if it has no entry that matches and no next catalog answers. */
  lemma SilentIff(g: Graph, v: nat, pub: Id, sys: Id)
    requires Ranked(g) && v < |g.files| && (pub.Some? || sys.Some?)
    ensures Meaning(g, v, pub, sys) == Nothing <==>
      && (sys.Some? ==> SystemSilent(g.files[v], sys.value))
      && (pub.Some? ==> PublicSilent(g.files[v], pub.value))
      && forall w :: w in Targets(g.urls, g.files[v], Nexts) ==> w < |g.files| && FileMeaning(g, w, pub, sys) == Nothing
  {
    var es := g.files[v];
    PlanStaysBelow(g, v, pub, sys);
    if sys.Some? {
      assert SystemPlan(g.urls, es, sys.value).None? <==> SystemSilent(es, sys.value);
    }
    if pub.Some? {
      assert PublicPlan(g.urls, es, pub.value).None? <==> PublicSilent(es, pub.value);
    }
    if (sys.Some? ==> SystemSilent(es, sys.value)) && (pub.Some? ==> PublicSilent(es, pub.value)) {
      FirstAnswerSilent(g, g.rank[v], Targets(g.urls, es, Nexts), pub, sys);
    }
  }

  lemma {:induction false} FirstAnswerSilent(g: Graph, r: nat, vs: seq<nat>, pub: Id, sys: Id)
    requires Ranked(g) && AllBelow(g, vs, r)
    ensures FirstAnswer(g, r, vs, pub, sys) == Nothing <==>
      forall w :: w in vs ==> w < |g.files| && FileMeaning(g, w, pub, sys) == Nothing
    decreases |vs|
  {
    if vs != [] {
      FirstAnswerSilent(g, r, vs[1..], pub, sys);
      assert vs[0] in vs && forall w :: w in vs <==> w == vs[0] || w in vs[1..];
    }
  }

  /** Only matching delegates of the identifier asked for are consulted, and the system identifier goes before the
      public one. */
  lemma PublicAfterSystem(g: Graph, v: nat, k: nat, pub: string, sys: Id)
    requires Ranked(g) && v < |g.files| && k < |g.files[v]|
    requires sys.Some? ==> SystemSilent(g.files[v], sys.value)
    requires IsExact(g.files[v][k], Public, pub) && forall j :: 0 <= j < k ==> !IsExact(g.files[v][j], Public, pub)
    ensures Meaning(g, v, Some(pub), sys) == Resource(g.files[v][k].url)
  {
  }

  // Asking the catalogs of a list one after the other

  /** All of these catalogs have been asked in vain. */
  ghost predicate AllSilent(g: Graph, vs: seq<nat>, pub: Id, sys: Id)
    requires Ranked(g)
  {
    forall i :: 0 <= i < |vs| ==> vs[i] < |g.files| && FileMeaning(g, vs[i], pub, sys) == Nothing
  }

  /** The answer for entry i, if its catalog is to be asked at all. */
  ghost predicate Answers(g: Graph, e: Entry, sel: Selection, pub: Id, sys: Id, answer: Answer)
    requires Ranked(g)
  {
    var v := IndexOf(g.urls, e.url);
    if Selects(sel, e) && v.Some? then answer == FileMeaning(g, v.value, pub, sys) else answer == Nothing
  }

  lemma OneMoreAsked(g: Graph, r: nat, es: seq<Entry>, i: nat, sel: Selection, pub: Id, sys: Id, answer: Answer)
    requires Ranked(g) && i < |es| && AllBelow(g, Targets(g.urls, es, sel), r)
    requires AllSilent(g, Targets(g.urls, es[..i], sel), pub, sys) && Answers(g, es[i], sel, pub, sys, answer)
    ensures answer == Nothing ==> AllSilent(g, Targets(g.urls, es[..i + 1], sel), pub, sys)
    ensures answer != Nothing ==> FirstAnswer(g, r, Targets(g.urls, es, sel), pub, sys) == answer
  {
    TargetsNext(g.urls, es, sel, i);
    var before := Targets(g.urls, es[..i], sel);
    if Selects(sel, es[i]) && IndexOf(g.urls, es[i].url).Some? {
      var v := IndexOf(g.urls, es[i].url).value;
      if answer == Nothing {
        SilentSnoc(g, before, v, pub, sys);
      } else {
        TargetsStart(g.urls, es, sel, i + 1);
        FoundAfter(g, r, Targets(g.urls, es, sel), before, v, pub, sys);
      }
    }
  }

  lemma SilentSnoc(g: Graph, vs: seq<nat>, v: nat, pub: Id, sys: Id)
    requires Ranked(g) && AllSilent(g, vs, pub, sys) && v < |g.files| && FileMeaning(g, v, pub, sys) == Nothing
    ensures AllSilent(g, vs + [v], pub, sys)
  {
    forall i | 0 <= i < |vs + [v]|
      ensures (vs + [v])[i] < |g.files| && FileMeaning(g, (vs + [v])[i], pub, sys) == Nothing
    {
      assert (vs + [v])[i] == if i < |vs| then vs[i] else v;
    }
  }

  lemma FoundAfter(g: Graph, r: nat, vs: seq<nat>, before: seq<nat>, v: nat, pub: Id, sys: Id)
    requires Ranked(g) && AllBelow(g, vs, r) && before + [v] <= vs && AllSilent(g, before, pub, sys)
    requires v < |g.files| && FileMeaning(g, v, pub, sys) != Nothing
    ensures FirstAnswer(g, r, vs, pub, sys) == FileMeaning(g, v, pub, sys)
  {
    assert vs[|before|] == (before + [v])[|before|];
    forall j | 0 <= j < |before|
      ensures FileMeaning(g, vs[j], pub, sys) == Nothing
    {
      assert vs[j] == (before + [v])[j] == before[j];
    }
    FirstAnswerDecides(g, r, vs, |before|, pub, sys);
  }

  lemma AllAsked(g: Graph, r: nat, es: seq<Entry>, sel: Selection, pub: Id, sys: Id)
    requires Ranked(g) && AllBelow(g, Targets(g.urls, es, sel), r)
    requires AllSilent(g, Targets(g.urls, es[..|es|], sel), pub, sys)
    ensures FirstAnswer(g, r, Targets(g.urls, es, sel), pub, sys) == Nothing
  {
    assert es[..|es|] == es;
    FirstAnswerDecides(g, r, Targets(g.urls, es, sel), |Targets(g.urls, es, sel)|, pub, sys);
  }

  /** URLs remembered are those of catalogs asked already. */
  ghost predicate Recorded(urls: seq<string>, delegates: seq<string>, vs: seq<nat>) {
    forall d :: d in delegates && IndexOf(urls, d).Some? ==> IndexOf(urls, d).value in vs
  }

  lemma RecordedNext(urls: seq<string>, delegates: seq<string>, es: seq<Entry>, i: nat, sel: Selection)
    requires i < |es| && Recorded(urls, delegates, Targets(urls, es[..i], sel))
    ensures Recorded(urls, delegates, Targets(urls, es[..i + 1], sel))
    ensures Selects(sel, es[i]) ==> Recorded(urls, delegates + [es[i].url], Targets(urls, es[..i + 1], sel))
  {
    TargetsNext(urls, es, sel, i);
  }

  lemma AskedBefore(g: Graph, es: seq<Entry>, i: nat, sel: Selection, pub: Id, sys: Id, delegates: seq<string>)
    requires Ranked(g) && i < |es| && AllSilent(g, Targets(g.urls, es[..i], sel), pub, sys)
    requires Recorded(g.urls, delegates, Targets(g.urls, es[..i], sel)) && es[i].url in delegates
    ensures Answers(g, es[i], sel, pub, sys, Nothing)
  {
  }
}
