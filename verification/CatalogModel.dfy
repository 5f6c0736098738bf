/** What an XML catalog means: the plan that one scan of an entry list makes (section 7.1 of the
    OASIS XML Catalogs draft of 06 August 2001), and the answer of catalogs that do not refer
    back to themselves. */
module CatalogModel {
  import opened XmlStrings
  import opened CatalogIds

  datatype Kind = Catalog | BrokenCatalog | NextCatalog | Public | System | RewriteSystem
                | DelegatePublic | DelegateSystem | Other

  datatype Entry = Entry(kind: Kind, name: Option<string>, url: string, preferPublic: bool)

  /** NULL, a string, and XML_CATAL_BREAK. */
  datatype Answer = Nothing | Resource(uri: string) | Cut

  type Id = Option<string>

  /** The catalog file behind a URL, if it can be loaded. */
  function IndexOf(urls: seq<string>, url: string): (r: Option<nat>)
    ensures r.Some? ==> r.value < |urls| && urls[r.value] == url
    ensures r.None? ==> url !in urls
  {
    if urls == [] then None
    else if urls[|urls| - 1] == url then Some(|urls| - 1)
    else IndexOf(urls[..|urls| - 1], url)
  }

  /** An entry name used as a prefix; a missing name is an empty one. */
  function Prefix(e: Entry): string {
    if e.name.Some? then e.name.value else ""
  }

  predicate IsExact(e: Entry, kind: Kind, id: string) {
    e.kind == kind && e.name == Some(id)
  }

  predicate Rewrites(e: Entry, sys: string) {
    e.kind == RewriteSystem && Prefix(e) != "" && Prefix(e) <= sys
  }

  /** Which entries lead on to other catalogs. */
  datatype Selection = Catalogs | Nexts | SystemDelegates(sys: string) | PublicDelegates(pub: string)

  predicate Selects(sel: Selection, e: Entry) {
    match sel
    case Catalogs => e.kind == Catalog
    case Nexts => e.kind == NextCatalog
    case SystemDelegates(sys) => e.kind == DelegateSystem && Prefix(e) <= sys
    case PublicDelegates(pub) => e.kind == DelegatePublic && e.preferPublic && Prefix(e) <= pub
  }

  function FirstExact(es: seq<Entry>, kind: Kind, id: string): (r: Option<nat>)
    ensures r.Some? ==> r.value < |es| && IsExact(es[r.value], kind, id)
                        && forall j :: 0 <= j < r.value ==> !IsExact(es[j], kind, id)
    ensures r.None? ==> forall j :: 0 <= j < |es| ==> !IsExact(es[j], kind, id)
  {
    if es == [] then None else
    var r := FirstExact(es[..|es| - 1], kind, id);
    if r.None? && IsExact(es[|es| - 1], kind, id) then Some(|es| - 1) else r
  }

  /** The earliest of the longest rewriting rules. */
  function LongestRewrite(es: seq<Entry>, sys: string): (r: Option<nat>)
    ensures r.Some? ==> r.value < |es| && Rewrites(es[r.value], sys)
    ensures r.Some? ==> forall j :: 0 <= j < |es| && Rewrites(es[j], sys) ==>
              |Prefix(es[j])| <= |Prefix(es[r.value])| && (j < r.value ==> |Prefix(es[j])| < |Prefix(es[r.value])|)
    ensures r.None? ==> forall j :: 0 <= j < |es| ==> !Rewrites(es[j], sys)
  {
    if es == [] then None else
    var r, e := LongestRewrite(es[..|es| - 1], sys), es[|es| - 1];
    if Rewrites(e, sys) && (r.None? || |Prefix(e)| > |Prefix(es[r.value])|) then Some(|es| - 1) else r
  }

  predicate HasSelected(es: seq<Entry>, sel: Selection) {
    exists k :: 0 <= k < |es| && Selects(sel, es[k])
  }

  /** The loadable catalogs that the selected entries name, in order. */
  function Targets(urls: seq<string>, es: seq<Entry>, sel: Selection): (vs: seq<nat>)
    ensures forall v :: v in vs ==> v < |urls|
    ensures forall v :: v in vs ==>
      exists k :: 0 <= k < |es| && Selects(sel, es[k]) && IndexOf(urls, es[k].url) == Some(v)
  {
    if es == [] then [] else
    var vs, e := Targets(urls, es[..|es| - 1], sel), es[|es| - 1];
    if Selects(sel, e) && IndexOf(urls, e.url).Some? then vs + [IndexOf(urls, e.url).value] else vs
  }

  lemma {:induction false} TargetsStart(urls: seq<string>, es: seq<Entry>, sel: Selection, i: nat)
    requires i <= |es|
    ensures Targets(urls, es[..i], sel) <= Targets(urls, es, sel)
  {
    if i == |es| {
      assert es[..i] == es;
    } else {
      TargetsStart(urls, es[..|es| - 1], sel, i);
      assert es[..|es| - 1][..i] == es[..i];
    }
  }

  lemma TargetsNext(urls: seq<string>, es: seq<Entry>, sel: Selection, i: nat)
    requires i < |es|
    ensures Targets(urls, es[..i + 1], sel) ==
      if Selects(sel, es[i]) && IndexOf(urls, es[i].url).Some?
      then Targets(urls, es[..i], sel) + [IndexOf(urls, es[i].url).value] else Targets(urls, es[..i], sel)
  {
    assert es[..i + 1][..i] == es[..i];
  }

  /** What one scan decides: an answer, or which catalogs to ask for what, and whether a failure of
      all of them cuts the resolution short. */
  datatype Plan = Done(answer: Answer) | Ask(lists: seq<nat>, pub: Id, sys: Id, cut: bool)

  function SystemPlan(urls: seq<string>, es: seq<Entry>, sys: string): Option<Plan> {
    var exact, rewrite := FirstExact(es, System, sys), LongestRewrite(es, sys);
    if exact.Some? then
      Some(Done(Resource(es[exact.value].url)))
    else if rewrite.Some? then
      Some(Done(Resource(es[rewrite.value].url + sys[|Prefix(es[rewrite.value])|..])))
    else if HasSelected(es, SystemDelegates(sys)) then
      Some(Ask(Targets(urls, es, SystemDelegates(sys)), None, Some(sys), true))
    else None
  }

  function PublicPlan(urls: seq<string>, es: seq<Entry>, pub: string): Option<Plan> {
    var exact := FirstExact(es, Public, pub);
    if exact.Some? then
      Some(Done(Resource(es[exact.value].url)))
    else if HasSelected(es, PublicDelegates(pub)) then
      Some(Ask(Targets(urls, es, PublicDelegates(pub)), Some(pub), None, true))
    else None
  }

  function Planned(urls: seq<string>, es: seq<Entry>, pub: Id, sys: Id): Plan {
    var bySystem := if sys.Some? then SystemPlan(urls, es, sys.value) else None;
    var byPublic := if pub.Some? then PublicPlan(urls, es, pub.value) else None;
    if bySystem.Some? then bySystem.value
    else if byPublic.Some? then byPublic.value
    else if pub.None? && sys.None? then Ask([], pub, sys, false)
    else Ask(Targets(urls, es, Nexts), pub, sys, false)
  }

  // Identifiers: normalised, and unwrapped until no URN is left

  function Weight(id: Id): nat {
    if id.Some? && IsUrn(id.value) then 1 + Percents(id.value) else 0
  }

  lemma UnwrappedWeighsLess(urn: string)
    requires IsUrn(urn)
    ensures Weight(Some(Unwrapped(urn))) < Weight(Some(urn))
    ensures Weight(NormalId(Some(Unwrapped(urn)))) < Weight(Some(urn))
  {
    if IsUrn(Unwrapped(urn)) {
      UnwrapAgainHasFewerPercents(urn);
    }
    if IsUrn(Normalised(Unwrapped(urn))) {
      UnwrapThenNormalise(urn);
    }
  }

  /** The identifiers that a list of catalogs is searched for in the end (sections 7.1.1 and 6.4). */
  function Reduced(pub: Id, sys: Id): (r: (Id, Id))
    ensures (r.0.Some? ==> !IsUrn(r.0.value) && r.0.value != "" && Normalised(r.0.value) == r.0.value)
    ensures (r.1.Some? ==> !IsUrn(r.1.value))
    decreases Weight(NormalId(pub)) + Weight(sys)
  {
    var p := NormalId(pub);
    if p.Some? then NormalIffFixed(pub.value); NormalIffFixed(p.value);
      if IsUrn(p.value) then
        UnwrappedWeighsLess(p.value);
        Reduced(Some(Unwrapped(p.value)), sys)
      else if sys.Some? && IsUrn(sys.value) then
        UnwrappedWeighsLess(sys.value);
        if p.value == Unwrapped(sys.value) then Reduced(p, None) else Reduced(p, Some(Unwrapped(sys.value)))
      else (p, sys)
    else if sys.Some? && IsUrn(sys.value) then
      UnwrappedWeighsLess(sys.value);
      Reduced(Some(Unwrapped(sys.value)), None)
    else (None, sys)
  }

  /** A catalog asked by another one searches for the same identifiers. */
  lemma ReducedIsFinal(pub: Id, sys: Id)
    ensures var r := Reduced(pub, sys); Reduced(r.0, r.1) == r
    ensures var r := Reduced(pub, sys); Reduced(None, r.1) == (None, r.1) && Reduced(r.0, None) == (r.0, None)
  {
  }

  // Where an answer comes from

  /** An entry answers one of the identifiers with this URI. */
  predicate Offers(e: Entry, pub: Id, sys: Id, uri: string) {
    || (sys.Some? && IsExact(e, System, sys.value) && uri == e.url)
    || (sys.Some? && Rewrites(e, sys.value) && uri == e.url + sys.value[|Prefix(e)|..])
    || (pub.Some? && IsExact(e, Public, pub.value) && uri == e.url)
  }

  ghost predicate Offered(files: seq<seq<Entry>>, pub: Id, sys: Id, uri: string) {
    exists v, k :: 0 <= v < |files| && 0 <= k < |files[v]| && Offers(files[v][k], pub, sys, uri)
  }

  /** An answer for identifiers that are in their final form is one that some catalog file offers. */
  ghost predicate Justified(files: seq<seq<Entry>>, pub: Id, sys: Id, answer: Answer) {
    answer.Resource? && Reduced(pub, sys) == (pub, sys) ==> Offered(files, pub, sys, answer.uri)
  }

  /** What a plan answers by itself is offered by its list. */
  lemma DoneIsOffered(urls: seq<string>, es: seq<Entry>, pub: Id, sys: Id)
    ensures var plan := Planned(urls, es, pub, sys);
      plan.Done? ==>
        && plan.answer.Resource?
        && exists k :: 0 <= k < |es| && !LeadsToCatalog(es[k]) && Offers(es[k], pub, sys, plan.answer.uri)
  {
    var plan := Planned(urls, es, pub, sys);
    if plan.Done? {
      if sys.Some? && SystemPlan(urls, es, sys.value).Some? {
        SystemPlanIsOffered(urls, es, pub, sys.value);
      } else {
        var exact := FirstExact(es, Public, pub.value);
        assert Offers(es[exact.value], pub, sys, plan.answer.uri);
      }
    }
  }

  lemma SystemPlanIsOffered(urls: seq<string>, es: seq<Entry>, pub: Id, sys: string)
    ensures var plan := SystemPlan(urls, es, sys);
      plan.Some? && plan.value.Done? ==>
        && plan.value.answer.Resource?
        && exists k :: 0 <= k < |es| && !LeadsToCatalog(es[k]) && Offers(es[k], pub, Some(sys), plan.value.answer.uri)
  {
    var exact, rewrite := FirstExact(es, System, sys), LongestRewrite(es, sys);
    if exact.Some? {
      assert Offers(es[exact.value], pub, Some(sys), es[exact.value].url);
    } else if rewrite.Some? {
      var e := es[rewrite.value];
      assert Offers(e, pub, Some(sys), e.url + sys[|Prefix(e)|..]);
    }
  }

  /** Entries that may turn out broken. */
  predicate LeadsToCatalog(e: Entry) {
    || e.kind == Catalog || e.kind == BrokenCatalog || e.kind == NextCatalog
    || e.kind == DelegateSystem || e.kind == DelegatePublic
  }

  /** An answer for one of two identifiers is an answer for both. */
  lemma OfferedWider(files: seq<seq<Entry>>, pub: Id, sys: Id, pub': Id, sys': Id, uri: string)
    requires Offered(files, pub', sys', uri) && (pub'.Some? ==> pub' == pub) && (sys'.Some? ==> sys' == sys)
    ensures Offered(files, pub, sys, uri)
  {
    var v, k :| 0 <= v < |files| && 0 <= k < |files[v]| && Offers(files[v][k], pub', sys', uri);
    assert Offers(files[v][k], pub, sys, uri);
  }
}
