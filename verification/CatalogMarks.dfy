/** What a resolution leaves on the entry lists: entries whose file cannot be loaded are marked broken. */
module CatalogMarks {
  import opened XmlStrings
  import opened CatalogModel
  import opened CatalogMeaning

  const MAX_DELEGATE := 50

  /** b is a after some entries were marked. */
  ghost predicate Aged(urls: seq<string>, a: seq<Entry>, b: seq<Entry>) {
    && |a| == |b|
    && forall k :: 0 <= k < |a| ==> b[k] == a[k] || MarkedBroken(urls, a[k], b[k])
  }

  ghost predicate MarkedBroken(urls: seq<string>, a: Entry, b: Entry) {
    && (LeadsOn(a) || a.kind == Catalog) && IndexOf(urls, a.url).None?
    && b == a.(kind := BrokenCatalog)
  }

  lemma {:induction false} AgedTargets(urls: seq<string>, a: seq<Entry>, b: seq<Entry>, sel: Selection)
    requires Aged(urls, a, b)
    ensures Targets(urls, b, sel) == Targets(urls, a, sel)
  {
    if a != [] {
      AgedTargets(urls, a[..|a| - 1], b[..|b| - 1], sel);
    }
  }

  lemma {:induction false} AgedExact(urls: seq<string>, a: seq<Entry>, b: seq<Entry>, kind: Kind, id: string)
    requires Aged(urls, a, b) && (kind == System || kind == Public)
    ensures FirstExact(b, kind, id) == FirstExact(a, kind, id)
    ensures FirstExact(a, kind, id).Some? ==> var k := FirstExact(a, kind, id).value; b[k] == a[k]
  {
    if a != [] {
      AgedExact(urls, a[..|a| - 1], b[..|b| - 1], kind, id);
    }
  }

  lemma {:induction false} AgedRewrite(urls: seq<string>, a: seq<Entry>, b: seq<Entry>, sys: string)
    requires Aged(urls, a, b)
    ensures LongestRewrite(b, sys) == LongestRewrite(a, sys)
    ensures LongestRewrite(a, sys).Some? ==> var k := LongestRewrite(a, sys).value; b[k] == a[k]
  {
    if a != [] {
      AgedRewrite(urls, a[..|a| - 1], b[..|b| - 1], sys);
    }
  }

  /** Marks take entries out of a selection, but none whose catalog can be loaded. */
  lemma AgedSelected(urls: seq<string>, a: seq<Entry>, b: seq<Entry>, sel: Selection)
    requires Aged(urls, a, b)
    ensures HasSelected(b, sel) ==> HasSelected(a, sel)
    ensures Targets(urls, a, sel) != [] ==> HasSelected(b, sel)
  {
    if HasSelected(b, sel) {
      var k :| 0 <= k < |b| && Selects(sel, b[k]);
      assert Selects(sel, a[k]);
    }
    if Targets(urls, a, sel) != [] {
      assert Targets(urls, a, sel)[0] in Targets(urls, a, sel);
      var k :| 0 <= k < |a| && Selects(sel, a[k]) && IndexOf(urls, a[k].url).Some?;
      assert b[k] == a[k];
    }
  }

  // Dead ends: delegates match, nothing goes before them, and none of them can be loaded

  predicate SystemDeadEnd(urls: seq<string>, es: seq<Entry>, sys: string) {
    && FirstExact(es, System, sys).None? && LongestRewrite(es, sys).None?
    && HasSelected(es, SystemDelegates(sys)) && Targets(urls, es, SystemDelegates(sys)) == []
  }

  predicate PublicDeadEnd(urls: seq<string>, es: seq<Entry>, pub: string) {
    && FirstExact(es, Public, pub).None?
    && HasSelected(es, PublicDelegates(pub)) && Targets(urls, es, PublicDelegates(pub)) == []
  }

  /** Marks change what a list plans for a system identifier exactly if it is at a dead end and every
      delegate that matches has been marked. */
  lemma AgedSystemPlanIff(urls: seq<string>, a: seq<Entry>, b: seq<Entry>, sys: string)
    requires Aged(urls, a, b)
    ensures SystemPlan(urls, b, sys) != SystemPlan(urls, a, sys) <==>
      SystemDeadEnd(urls, a, sys) && !HasSelected(b, SystemDelegates(sys))
  {
    AgedExact(urls, a, b, System, sys);
    AgedRewrite(urls, a, b, sys);
    AgedSelected(urls, a, b, SystemDelegates(sys));
    AgedTargets(urls, a, b, SystemDelegates(sys));
  }

  lemma AgedPublicPlanIff(urls: seq<string>, a: seq<Entry>, b: seq<Entry>, pub: string)
    requires Aged(urls, a, b)
    ensures PublicPlan(urls, b, pub) != PublicPlan(urls, a, pub) <==>
      PublicDeadEnd(urls, a, pub) && !HasSelected(b, PublicDelegates(pub))
  {
    AgedExact(urls, a, b, Public, pub);
    AgedSelected(urls, a, b, PublicDelegates(pub));
    AgedTargets(urls, a, b, PublicDelegates(pub));
  }

  // What the delegate loops mark

  /** The URLs remembered after the matching entries of a list, none of which can be loaded: the first
      fifty different ones. */
  function Known(es: seq<Entry>, sel: Selection): (urls: seq<string>)
    ensures |urls| <= MAX_DELEGATE
    ensures forall u :: u in urls ==> exists k :: 0 <= k < |es| && Selects(sel, es[k]) && es[k].url == u
  {
    if es == [] then [] else
    var front, last := Known(es[..|es| - 1], sel), es[|es| - 1];
    if Selects(sel, last) && last.url !in front && |front| < MAX_DELEGATE then front + [last.url] else front
  }

  function Marked(urls: seq<string>, e: Entry): Entry {
    if (LeadsOn(e) || e.kind == Catalog) && IndexOf(urls, e.url).None? then e.(kind := BrokenCatalog) else e
  }

  /** An entry is passed over if its URL is remembered. */
  predicate Tries(es: seq<Entry>, k: nat, sel: Selection)
    requires k < |es|
  {
    Selects(sel, es[k]) && es[k].url !in Known(es[..k], sel)
  }

  /** The list after the first n turns of a loop over such entries. */
  function TriedUpTo(urls: seq<string>, es: seq<Entry>, n: nat, sel: Selection): (r: seq<Entry>)
    ensures |r| == |es|
    ensures forall k :: 0 <= k < |es| ==> r[k] == if k < n && Tries(es, k, sel) then Marked(urls, es[k]) else es[k]
  {
    seq(|es|, k requires 0 <= k < |es| => if k < n && Tries(es, k, sel) then Marked(urls, es[k]) else es[k])
  }

  function Tried(urls: seq<string>, es: seq<Entry>, sel: Selection): seq<Entry> {
    TriedUpTo(urls, es, |es|, sel)
  }

  /** A matching entry repeats a URL that is remembered. */
  predicate Repeated(es: seq<Entry>, sel: Selection) {
    exists k :: 0 <= k < |es| && Selects(sel, es[k]) && !Tries(es, k, sel)
  }

  lemma TriedAged(urls: seq<string>, es: seq<Entry>, n: nat, sel: Selection)
    ensures Aged(urls, es, TriedUpTo(urls, es, n, sel))
  {
  }

  lemma TriedSelects(urls: seq<string>, es: seq<Entry>, sel: Selection)
    requires Targets(urls, es, sel) == [] && !sel.Catalogs?
    ensures HasSelected(Tried(urls, es, sel), sel) <==> Repeated(es, sel)
  {
    var r := Tried(urls, es, sel);
    forall k | 0 <= k < |es| && Selects(sel, es[k])
      ensures Selects(sel, r[k]) <==> !Tries(es, k, sel)
    {
      NoneLoads(urls, es, sel, k);
    }
    if HasSelected(r, sel) {
      var k :| 0 <= k < |r| && Selects(sel, r[k]);
      assert Selects(sel, es[k]) && !Tries(es, k, sel);
    }
    if Repeated(es, sel) {
      var k :| 0 <= k < |es| && Selects(sel, es[k]) && !Tries(es, k, sel);
      assert Selects(sel, r[k]);
    }
  }

  lemma NoneLoads(urls: seq<string>, es: seq<Entry>, sel: Selection, k: nat)
    requires Targets(urls, es, sel) == [] && k < |es| && Selects(sel, es[k])
    ensures IndexOf(urls, es[k].url).None?
  {
    TargetsNext(urls, es, sel, k);
    TargetsStart(urls, es, sel, k + 1);
  }

  /** Which entries of its list a plan asks. */
  function PlanSel(plan: Plan): Selection
    requires plan.Ask?
  {
    if !plan.cut || (plan.sys.None? && plan.pub.None?) then Nexts
    else if plan.sys.Some? then SystemDelegates(plan.sys.value)
    else PublicDelegates(plan.pub.value)
  }

  /** Nothing to ask, and no way on. */
  predicate DeadEnd(plan: Plan) {
    plan.Ask? && plan.cut && plan.lists == []
  }

  /** Asking a list a second time, after the loop over its delegates has run once, is different exactly if it
      is at a dead end and no matching entry was passed over for a URL that was remembered. */
  lemma SecondAskIff(urls: seq<string>, es: seq<Entry>, pub: Id, sys: Id)
    ensures var plan := Planned(urls, es, pub, sys);
      plan.Ask? ==>
        (Planned(urls, Tried(urls, es, PlanSel(plan)), pub, sys) != plan <==>
          DeadEnd(plan) && !Repeated(es, PlanSel(plan)))
  {
    var plan := Planned(urls, es, pub, sys);
    if plan.Ask? {
      var sel := PlanSel(plan);
      var b := Tried(urls, es, sel);
      TriedAged(urls, es, |es|, sel);
      AgedTargets(urls, es, b, Nexts);
      if plan.cut {
        SecondCutIff(urls, es, pub, sys, plan, sel, b);
      } else {
        if sys.Some? { AgedSystemPlanIff(urls, es, b, sys.value); }
        if pub.Some? { AgedPublicPlanIff(urls, es, b, pub.value); }
      }
    }
  }

  lemma SecondCutIff(urls: seq<string>, es: seq<Entry>, pub: Id, sys: Id, plan: Plan, sel: Selection, b: seq<Entry>)
    requires plan == Planned(urls, es, pub, sys) && plan.Ask? && plan.cut && sel == PlanSel(plan)
    requires b == Tried(urls, es, sel) && Aged(urls, es, b)
    ensures Planned(urls, b, pub, sys) != plan <==> DeadEnd(plan) && !Repeated(es, sel)
  {
    AgedTargets(urls, es, b, Nexts);
    if DeadEnd(plan) {
      TriedSelects(urls, es, sel);
    }
    if sys.Some? {
      AgedSystemPlanIff(urls, es, b, sys.value);
    }
    if pub.Some? {
      AgedPublicPlanIff(urls, es, b, pub.value);
    }
  }

  /** With at most fifty matching entries that is so exactly if two of them have the same URL. */
  lemma RepeatedIff(es: seq<Entry>, sel: Selection)
    requires |es| <= MAX_DELEGATE
    ensures Repeated(es, sel) <==>
      exists i, k :: 0 <= i < k < |es| && Selects(sel, es[i]) && Selects(sel, es[k]) && es[i].url == es[k].url
  {
    if Repeated(es, sel) {
      var k :| 0 <= k < |es| && Selects(sel, es[k]) && !Tries(es, k, sel);
      var i :| 0 <= i < k && Selects(sel, es[..k][i]) && es[..k][i].url == es[k].url;
      assert es[i] == es[..k][i];
    }
    if i, k :| 0 <= i < k < |es| && Selects(sel, es[i]) && Selects(sel, es[k]) && es[i].url == es[k].url {
      KnownAll(es[..k], sel);
      assert es[..k][i] == es[i];
      assert !Tries(es, k, sel);
    }
  }

  lemma {:induction false} KnownAll(es: seq<Entry>, sel: Selection)
    requires |es| <= MAX_DELEGATE
    ensures |Known(es, sel)| <= |es|
    ensures forall k :: 0 <= k < |es| && Selects(sel, es[k]) ==> es[k].url in Known(es, sel)
  {
    if es != [] {
      KnownAll(es[..|es| - 1], sel);
      assert forall k :: 0 <= k < |es| - 1 ==> es[..|es| - 1][k] == es[k];
    }
  }

  /** Two matching delegates with one missing URL: the second keeps its list at the dead end for good. */
  lemma RepeatedDelegateStays(urls: seq<string>, e: Entry, sys: string)
    requires e.kind == DelegateSystem && Prefix(e) <= sys && IndexOf(urls, e.url).None?
    ensures DeadEnd(Planned(urls, [e, e], None, Some(sys)))
    ensures Tried(urls, [e, e], SystemDelegates(sys)) == [e.(kind := BrokenCatalog), e]
    ensures Planned(urls, [e.(kind := BrokenCatalog), e], None, Some(sys)) == Planned(urls, [e, e], None, Some(sys))
  {
    var es, sel := [e, e], SystemDelegates(sys);
    assert es[..1] == [e] && [e][..0] == [] && es[..0] == [];
    assert Known([], sel) == [] && Known([e], sel) == [e.url];
    assert Tries(es, 0, sel) && !Tries(es, 1, sel);
    assert Selects(sel, es[0]);
    assert Targets(urls, [e], sel) == Targets(urls, [], sel) == [] && Targets(urls, es, sel) == [];
    SecondAskIff(urls, es, None, Some(sys));
  }

  /** The entries of a selection that cannot be loaded are marked up to entry n, except perhaps for delegates
      that repeat a URL. */
  ghost predicate MarkedUpTo(urls: seq<string>, es: seq<Entry>, n: nat, sel: Selection, now: seq<Entry>) {
    && |now| == |es|
    && forall k :: 0 <= k < n && k < |es| ==> MarkedAt(urls, es, k, sel, now[k])
  }

  ghost predicate MarkedAt(urls: seq<string>, es: seq<Entry>, k: nat, sel: Selection, e: Entry)
    requires k < |es|
  {
    Selects(sel, es[k]) && IndexOf(urls, es[k].url).None? && (sel.Nexts? || IsFirst(es, k, sel)) ==>
      e.kind == BrokenCatalog
  }

  predicate IsFirst(es: seq<Entry>, k: nat, sel: Selection)
    requires k < |es|
  {
    forall j :: 0 <= j < k ==> !(Selects(sel, es[j]) && es[j].url == es[k].url)
  }

  lemma MarkedStays(urls: seq<string>, es: seq<Entry>, n: nat, sel: Selection, a: seq<Entry>, b: seq<Entry>)
    requires MarkedUpTo(urls, es, n, sel, a) && Aged(urls, a, b)
    ensures MarkedUpTo(urls, es, n, sel, b)
  {
    forall k | 0 <= k < n && k < |es|
      ensures MarkedAt(urls, es, k, sel, b[k])
    {
      assert MarkedAt(urls, es, k, sel, a[k]);
    }
  }

  /** What is different: the dead end cuts the resolution, and once the delegates are marked it goes on with
      the public identifier and the next catalogs. */
  lemma DeadEndCutsOnce(urls: seq<string>, a: seq<Entry>, b: seq<Entry>, pub: Id, sys: string)
    requires Aged(urls, a, b)
    ensures SystemDeadEnd(urls, a, sys) ==> Planned(urls, a, pub, Some(sys)) == Ask([], None, Some(sys), true)
    ensures SystemDeadEnd(urls, a, sys) && !HasSelected(b, SystemDelegates(sys)) ==>
      Planned(urls, b, pub, Some(sys)) ==
        if pub.Some? && PublicPlan(urls, b, pub.value).Some? then PublicPlan(urls, b, pub.value).value
        else Ask(Targets(urls, a, Nexts), pub, Some(sys), false)
  {
    AgedExact(urls, a, b, System, sys);
    AgedRewrite(urls, a, b, sys);
    AgedTargets(urls, a, b, Nexts);
  }

  /** Both lists plan the same for these identifiers, asked for together or alone. */
  predicate SamePlans(urls: seq<string>, a: seq<Entry>, b: seq<Entry>, pub: Id, sys: Id) {
    && (sys.Some? ==> SystemPlan(urls, b, sys.value) == SystemPlan(urls, a, sys.value))
    && (pub.Some? ==> PublicPlan(urls, b, pub.value) == PublicPlan(urls, a, pub.value))
  }

  lemma SamePlanned(urls: seq<string>, a: seq<Entry>, b: seq<Entry>, pub: Id, sys: Id)
    requires Aged(urls, a, b) && SamePlans(urls, a, b, pub, sys)
    ensures Planned(urls, b, pub, sys) == Planned(urls, a, pub, sys)
  {
    AgedTargets(urls, a, b, Nexts);
  }

  lemma AliveKeepsPlans(urls: seq<string>, a: seq<Entry>, b: seq<Entry>, pub: Id, sys: Id)
    requires Aged(urls, a, b)
    requires sys.Some? ==> !SystemDeadEnd(urls, a, sys.value)
    requires pub.Some? ==> !PublicDeadEnd(urls, a, pub.value)
    ensures SamePlans(urls, a, b, pub, sys)
  {
    if sys.Some? {
      AgedSystemPlanIff(urls, a, b, sys.value);
    }
    if pub.Some? {
      AgedPublicPlanIff(urls, a, b, pub.value);
    }
  }

  /** A mark on a next catalog changes no plan. */
  lemma MarkedNextKeepsPlans(urls: seq<string>, a: seq<Entry>, k: nat, pub: Id, sys: Id)
    requires k < |a| && a[k].kind == NextCatalog && IndexOf(urls, a[k].url).None?
    ensures SamePlans(urls, a, a[k := a[k].(kind := BrokenCatalog)], pub, sys)
  {
    var b := a[k := a[k].(kind := BrokenCatalog)];
    assert Aged(urls, a, b);
    if sys.Some? {
      SameSelected(a, b, SystemDelegates(sys.value), k);
      AgedSystemPlanIff(urls, a, b, sys.value);
    }
    if pub.Some? {
      SameSelected(a, b, PublicDelegates(pub.value), k);
      AgedPublicPlanIff(urls, a, b, pub.value);
    }
  }

  lemma SameSelected(a: seq<Entry>, b: seq<Entry>, sel: Selection, k: nat)
    requires k < |a| == |b| && b == a[k := b[k]] && !Selects(sel, a[k])
    ensures HasSelected(a, sel) ==> HasSelected(b, sel)
  {
    if HasSelected(a, sel) {
      var j :| 0 <= j < |a| && Selects(sel, a[j]);
      assert Selects(sel, b[j]);
    }
  }

  /** The lists outside `but` still plan for these identifiers what they did. */
  ghost predicate Spared(urls: seq<string>, a: seq<seq<Entry>>, b: seq<seq<Entry>>, but: set<nat>, pub: Id, sys: Id) {
    |a| == |b| && forall v: nat :: SparedAt(urls, a, b, but, v, pub, sys)
  }

  predicate SparedAt(urls: seq<string>, a: seq<seq<Entry>>, b: seq<seq<Entry>>, but: set<nat>, v: nat, pub: Id,
                     sys: Id) {
    v < |a| && v < |b| && v !in but ==> SamePlans(urls, a[v], b[v], pub, sys)
  }

  lemma SparedTwice(urls: seq<string>, a: seq<seq<Entry>>, b: seq<seq<Entry>>, c: seq<seq<Entry>>, but: set<nat>,
                    pub: Id, sys: Id)
    requires Spared(urls, a, b, but, pub, sys) && Spared(urls, b, c, but, pub, sys)
    ensures Spared(urls, a, c, but, pub, sys)
  {
    forall v: nat
      ensures SparedAt(urls, a, c, but, v, pub, sys)
    {
      assert SparedAt(urls, a, b, but, v, pub, sys) && SparedAt(urls, b, c, but, v, pub, sys);
    }
  }

  lemma SparedBut(urls: seq<string>, a: seq<seq<Entry>>, b: seq<seq<Entry>>, but: set<nat>, pub: Id, sys: Id)
    requires Spared(urls, a, b, {}, pub, sys)
    ensures Spared(urls, a, b, but, pub, sys)
  {
    forall v: nat
      ensures SparedAt(urls, a, b, but, v, pub, sys)
    {
      assert SparedAt(urls, a, b, {}, v, pub, sys);
    }
  }

  /** Marks do not touch the entries that answer by themselves. */
  lemma DoneIsJustified(urls: seq<string>, files: seq<seq<Entry>>, v: nat, es: seq<Entry>, pub: Id, sys: Id)
    requires v < |files| && Aged(urls, files[v], es)
    ensures var plan := Planned(urls, es, pub, sys); plan.Done? ==> Justified(files, pub, sys, plan.answer)
  {
    var plan := Planned(urls, es, pub, sys);
    DoneIsOffered(urls, es, pub, sys);
    if plan.Done? {
      var k :| 0 <= k < |es| && !LeadsToCatalog(es[k]) && Offers(es[k], pub, sys, plan.answer.uri);
      assert files[v][k] == es[k];
    }
  }

  lemma AgedTransitive(urls: seq<string>, a: seq<Entry>, b: seq<Entry>, c: seq<Entry>)
    requires Aged(urls, a, b) && Aged(urls, b, c)
    ensures Aged(urls, a, c)
  {
  }
}
