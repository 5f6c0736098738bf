/** The XML catalog resolver of catalog.c over a fixed set of catalog files. */
module Catalog {
  import opened XmlStrings
  import opened CatalogIds
  import opened CatalogModel
  import opened CatalogMeaning
  import opened CatalogMarks
  import opened CatalogFrames
  import opened CatalogTrace
  import opened CatalogState

  /** A list of catalogs: the one resolution starts from, or the single entry made for a file. */
  datatype Start = Root | Document(v: nat)

  lemma SelectedSnoc(es: seq<Entry>, sel: Selection, i: nat)
    requires i < |es|
    ensures HasSelected(es[..i + 1], sel) <==> HasSelected(es[..i], sel) || Selects(sel, es[i])
  {
    if Selects(sel, es[i]) {
      assert Selects(sel, es[..i + 1][i]);
    }
    if HasSelected(es[..i], sel) {
      var k :| 0 <= k < i && Selects(sel, es[..i][k]);
      assert Selects(sel, es[..i + 1][k]);
    }
    if HasSelected(es[..i + 1], sel) && !Selects(sel, es[i]) {
      var k :| 0 <= k < i + 1 && Selects(sel, es[..i + 1][k]);
      assert Selects(sel, es[..i][k]);
    }
  }

  ghost predicate SystemScanned(es: seq<Entry>, sys: string, rewrite: Option<nat>, haveDelegate: nat, haveNext: nat) {
    && FirstExact(es, System, sys).None? && rewrite == LongestRewrite(es, sys)
    && (haveDelegate > 0 <==> HasSelected(es, SystemDelegates(sys)))
    && (haveNext > 0 <==> HasSelected(es, Nexts))
  }

  lemma SystemScannedNext(es: seq<Entry>, sys: string, i: nat)
    requires i < |es| && FirstExact(es[..i], System, sys).None?
    ensures IsExact(es[i], System, sys) ==> FirstExact(es, System, sys) == Some(i)
    ensures !IsExact(es[i], System, sys) ==> FirstExact(es[..i + 1], System, sys).None?
    ensures var r := LongestRewrite(es[..i], sys);
      LongestRewrite(es[..i + 1], sys) ==
        if Rewrites(es[i], sys) && (r.None? || |Prefix(es[i])| > |Prefix(es[r.value])|) then Some(i) else r
    ensures HasSelected(es[..i + 1], SystemDelegates(sys)) <==>
      HasSelected(es[..i], SystemDelegates(sys)) || Selects(SystemDelegates(sys), es[i])
    ensures HasSelected(es[..i + 1], Nexts) <==> HasSelected(es[..i], Nexts) || Selects(Nexts, es[i])
  {
    assert es[..i + 1][..i] == es[..i];
    SelectedSnoc(es, SystemDelegates(sys), i);
    SelectedSnoc(es, Nexts, i);
    if IsExact(es[i], System, sys) {
      FirstExactAt(es, System, sys, i);
    }
  }

  lemma PublicScannedNext(es: seq<Entry>, pub: string, i: nat)
    requires i < |es| && FirstExact(es[..i], Public, pub).None?
    ensures IsExact(es[i], Public, pub) ==> FirstExact(es, Public, pub) == Some(i)
    ensures !IsExact(es[i], Public, pub) ==> FirstExact(es[..i + 1], Public, pub).None?
    ensures HasSelected(es[..i + 1], PublicDelegates(pub)) <==>
      HasSelected(es[..i], PublicDelegates(pub)) || Selects(PublicDelegates(pub), es[i])
    ensures HasSelected(es[..i + 1], Nexts) <==> HasSelected(es[..i], Nexts) || Selects(Nexts, es[i])
  {
    assert es[..i + 1][..i] == es[..i];
    SelectedSnoc(es, PublicDelegates(pub), i);
    SelectedSnoc(es, Nexts, i);
    if IsExact(es[i], Public, pub) {
      FirstExactAt(es, Public, pub, i);
    }
  }

  /** The first pass for a system identifier. */
  method ScanSystem(es: seq<Entry>, sys: string)
    returns (exact: Option<nat>, rewrite: Option<nat>, haveDelegate: nat, haveNext: nat)
    ensures exact == FirstExact(es, System, sys)
    ensures exact.None? ==> SystemScanned(es, sys, rewrite, haveDelegate, haveNext)
  {
    exact, rewrite, haveDelegate, haveNext := None, None, 0, 0;
    var lenrewrite, i := 0, 0;
    while i < |es|
      invariant 0 <= i <= |es|
      invariant SystemScanned(es[..i], sys, rewrite, haveDelegate, haveNext)
      invariant lenrewrite == if rewrite.Some? then |Prefix(es[rewrite.value])| else 0
    {
      SystemScannedNext(es, sys, i);
      var cur := es[i];
      match cur.kind {
        case System =>
          if cur.name == Some(sys) {
            return Some(i), None, 0, 0;
          }
        case RewriteSystem =>
          var len := |Prefix(cur)|;
          if len > lenrewrite && Prefix(cur) <= sys {
            lenrewrite, rewrite := len, Some(i);
          }
        case DelegateSystem =>
          if Prefix(cur) <= sys { haveDelegate := haveDelegate + 1; }
        case NextCatalog =>
          haveNext := haveNext + 1;
        case _ =>
      }
      i := i + 1;
    }
    assert es[..|es|] == es;
  }

  lemma FirstExactAt(es: seq<Entry>, kind: Kind, id: string, i: nat)
    requires i < |es| && FirstExact(es[..i], kind, id).None? && IsExact(es[i], kind, id)
    ensures FirstExact(es, kind, id) == Some(i)
  {
    var r := FirstExact(es, kind, id);
    forall j | 0 <= j < i
      ensures !IsExact(es[j], kind, id)
    {
      assert es[..i][j] == es[j];
    }
    assert r.Some?;
  }

  ghost predicate PublicScanned(es: seq<Entry>, pub: string, haveDelegate: nat, haveNext: nat) {
    && FirstExact(es, Public, pub).None?
    && (haveDelegate > 0 <==> HasSelected(es, PublicDelegates(pub)))
    && (haveNext > 0 <==> HasSelected(es, Nexts))
  }

  /** The first pass for a public identifier. */
  method ScanPublic(es: seq<Entry>, pub: string) returns (exact: Option<nat>, haveDelegate: nat, haveNext: nat)
    ensures exact == FirstExact(es, Public, pub)
    ensures exact.None? ==> PublicScanned(es, pub, haveDelegate, haveNext)
  {
    exact, haveDelegate, haveNext := None, 0, 0;
    var i := 0;
    while i < |es|
      invariant 0 <= i <= |es|
      invariant PublicScanned(es[..i], pub, haveDelegate, haveNext)
    {
      PublicScannedNext(es, pub, i);
      var cur := es[i];
      match cur.kind {
        case Public =>
          if cur.name == Some(pub) {
            return Some(i), 0, 0;
          }
        case DelegatePublic =>
          if Prefix(cur) <= pub && cur.preferPublic { haveDelegate := haveDelegate + 1; }
        case NextCatalog =>
          haveNext := haveNext + 1;
        case _ =>
      }
      i := i + 1;
    }
    assert es[..|es|] == es;
  }

  /** What the public functions return. */
  function Uri(answer: Answer): Option<string> {
    if answer.Resource? then Some(answer.uri) else None
  }

  /** What the passes over one list come to: an answer, catalogs to ask, or neither. */
  datatype Choice = Answered(answer: Answer) | Consult(sel: Selection) | Neither

  ghost predicate Chosen(urls: seq<string>, es: seq<Entry>, pub: Id, sys: Id, choice: Choice) {
    Planned(urls, es, pub, sys) ==
    match choice
    case Answered(answer) => Done(answer)
    case Consult(sel) => Ask(Targets(urls, es, sel), PubFor(sel, pub), SysFor(sel, sys), !sel.Nexts?)
    case Neither => Ask([], pub, sys, false)
  }

  /** Delegates are asked for the one identifier that selected them. */
  function PubFor(sel: Selection, pub: Id): Id {
    if sel.SystemDelegates? then None else pub
  }

  function SysFor(sel: Selection, sys: Id): Id {
    if sel.PublicDelegates? then None else sys
  }

  lemma {:induction false} NoneSelected(urls: seq<string>, es: seq<Entry>, sel: Selection)
    requires !HasSelected(es, sel)
    ensures Targets(urls, es, sel) == []
  {
    if es != [] {
      assert !Selects(sel, es[|es| - 1]);
      assert forall k :: 0 <= k < |es| - 1 ==> es[..|es| - 1][k] == es[k];
      NoneSelected(urls, es[..|es| - 1], sel);
    }
  }

  /** Both first passes of xmlCatalogXMLResolve. */
  method Decide(ghost urls: seq<string>, es: seq<Entry>, pub: Id, sys: Id) returns (choice: Choice)
    ensures Chosen(urls, es, pub, sys, choice)
    ensures choice.Consult? ==>
      var plan := Planned(urls, es, pub, sys); !choice.sel.Catalogs? && plan.Ask? && choice.sel == PlanSel(plan)
    ensures choice.Neither? && (pub.Some? || sys.Some?) ==> !HasSelected(es, Nexts)
  {
    var haveNext := 0;
    if sys.Some? {
      var exact, rewrite, haveDelegate, next := ScanSystem(es, sys.value);
      if exact.Some? { return Answered(Resource(es[exact.value].url)); }
      if rewrite.Some? {
        return Answered(Resource(es[rewrite.value].url + sys.value[|Prefix(es[rewrite.value])|..]));
      }
      if haveDelegate > 0 { return Consult(SystemDelegates(sys.value)); }
      haveNext := next;
    }
    if pub.Some? {
      var exact, haveDelegate, next := ScanPublic(es, pub.value);
      if exact.Some? { return Answered(Resource(es[exact.value].url)); }
      if haveDelegate > 0 { return Consult(PublicDelegates(pub.value)); }
      if sys.None? { haveNext := next; }
    }
    if haveNext > 0 { return Consult(Nexts); }
    if pub.Some? || sys.Some? {
      NoneSelected(urls, es, Nexts);
    }
    choice := Neither;
  }

  /** What a delegate answers for the one identifier it is asked for is an answer for both. */
  lemma ConsultedIsJustified(files: seq<seq<Entry>>, sel: Selection, pub: Id, sys: Id, answer: Answer)
    requires Justified(files, PubFor(sel, pub), SysFor(sel, sys), answer)
    ensures Justified(files, pub, sys, answer)
  {
    if answer.Resource? && Reduced(pub, sys) == (pub, sys) {
      ReducedIsFinal(pub, sys);
      OfferedWider(files, pub, sys, PubFor(sel, pub), SysFor(sel, sys), answer.uri);
    }
  }

  /** The meaning of file v, from the answer of the catalogs that were asked. */
  lemma MeaningByChoice(g: Graph, v: nat, es: seq<Entry>, pub: Id, sys: Id, choice: Choice, got: Answer)
    requires Ranked(g) && v < |g.files| && Aged(g.urls, g.files[v], es) && Chosen(g.urls, es, pub, sys, choice)
    requires SamePlans(g.urls, g.files[v], es, pub, sys)
    requires choice.Consult? ==>
      && AllBelow(g, Targets(g.urls, es, choice.sel), g.rank[v])
      && got == FirstAnswer(g, g.rank[v], Targets(g.urls, es, choice.sel),
                            PubFor(choice.sel, pub), SysFor(choice.sel, sys))
    ensures Meaning(g, v, pub, sys) == Concluded(choice, got)
  {
    SamePlanned(g.urls, g.files[v], es, pub, sys);
  }

  /** What the frame did by this choice. */
  ghost predicate Taken(urls: seq<string>, f: Frame, choice: Choice)
    requires f.Frame?
  {
    match choice
    case Answered(_) => f.inner == [] && f.left == f.list
    case Neither =>
      f.inner == [] && f.left == f.list && !f.stuck && (f.pub.Some? || f.sys.Some? ==> !HasSelected(f.list, Nexts))
    case Consult(sel) =>
      f.plan.Ask? && sel == PlanSel(f.plan) &&
      Consulted(urls, f.list, sel, Targets(urls, f.list, sel), PubFor(sel, f.pub), SysFor(sel, f.sys),
                f.inner, f.stuck, f.left)
  }

  lemma ToldByChoice(urls: seq<string>, f: Frame, choice: Choice, got: Answer)
    requires f.Frame? && Chosen(urls, f.list, f.pub, f.sys, choice) && f.plan == Planned(urls, f.list, f.pub, f.sys)
    requires f.answer == Concluded(choice, got) && got == Got(f.inner) && Taken(urls, f, choice)
    ensures Told(urls, f)
  {
    if choice.Neither? {
      forall k | 0 <= k < |f.list|
        ensures f.pub.Some? || f.sys.Some? ==> MarkedAt(urls, f.list, k, Nexts, f.left[k])
      {
      }
      var none: seq<nat> := [];
      assert none[..0] == none;
      assert InTurn(Nexts, none, Names(f.inner), true);
    }
  }

  /** Delegates that found nothing cut the resolution. */
  function Concluded(choice: Choice, got: Answer): Answer {
    match choice
    case Answered(answer) => answer
    case Consult(sel) => if got == Nothing && !sel.Nexts? then Cut else got
    case Neither => Nothing
  }

  /** The normalised public identifier, or none if it is blank. */
  method Normalise(pub: Id) returns (r: Id)
    ensures r == NormalId(pub)
  {
    if pub.None? { return None; }
    NormalIffFixed(pub.value);
    var normid := NormalizePublic(pub.value);
    if normid.None? { return pub; }
    r := if normid.value != "" then normid else None;
  }

  /** Normalises the public identifier and unwraps one URN, the public one first; `again` if there was one. */
  method ReduceOnce(pub: Id, sys: Id) returns (pubID: Id, sysID: Id, again: bool)
    requires pub.Some? || sys.Some?
    ensures again ==> Reduced(pubID, sysID) == Reduced(pub, sys) && (pubID.Some? || sysID.Some?)
    ensures again ==> Weight(NormalId(pubID)) + Weight(sysID) < Weight(NormalId(pub)) + Weight(sys)
    ensures !again ==> Reduced(pub, sys) == (pubID, sysID)
  {
    sysID, again := sys, false;
    pubID := Normalise(pub);
    if pub.Some? { NormalIffFixed(pub.value); }
    if pubID.Some? {
      NormalIffFixed(pubID.value);
      if IsUrn(pubID.value) {
        UnwrappedWeighsLess(pubID.value);
        var urnID := UnWrapURN(pubID.value);
        return urnID, sys, true;
      }
    }
    if sys.Some? && IsUrn(sys.value) {
      UnwrappedWeighsLess(sys.value);
      var urnID := UnWrapURN(sys.value);
      if pubID.None? {
        return urnID, None, true;
      } else if pubID == urnID {
        return pubID, None, true;
      } else {
        return pubID, urnID, true;
      }
    }
  }

  class Resolver {
    const urls: seq<string>
    const files: seq<seq<Entry>>
    var lists: seq<seq<Entry>>  // the entries of each file as they stand
    var root: seq<Entry>
    var depth: seq<nat>

    ghost function Now(): State
      reads this
    {
      State(lists, root, depth)
    }

    ghost predicate Valid()
      reads this
    {
      Sane(urls, files, Now())
    }

    /** The catalog files with a rank for each of them. */
    ghost function Graph(rank: seq<nat>): Graph {
      CatalogMeaning.Graph(urls, files, rank)
    }

    constructor (urls: seq<string>, files: seq<seq<Entry>>, root: seq<Entry>)
      requires |urls| == |files|
      ensures Valid() && this.urls == urls && this.files == files && this.root == root && lists == files
      ensures forall v :: 0 <= v < |depth| ==> depth[v] == 0
    {
      this.urls, this.files, this.root, lists := urls, files, root, files;
      depth := seq(|files|, _ => 0);
    }

    /** xmlFetchXMLCatalogFile for entry k of list v. */
    method Fetch(v: nat, k: nat) returns (child: Option<nat>)
      requires Valid() && v < |lists| && k < |lists[v]| && LeadsOn(lists[v][k])
      modifies `lists
      ensures Valid() && Later(urls, old(Now()), Now())
      ensures child == IndexOf(urls, old(lists[v][k].url)) && (child.Some? ==> child.value < |lists|)
      ensures lists == if child.Some? then old(lists)
                       else old(lists)[v := old(lists[v])[k := old(lists[v][k]).(kind := BrokenCatalog)]]
    {
      child := IndexOf(urls, lists[v][k].url);
      if child.None? {
        var marked := lists[v][k := lists[v][k].(kind := BrokenCatalog)];
        assert Aged(urls, lists[v], marked);
        AgedTransitive(urls, files[v], lists[v], marked);
        lists := lists[v := marked];
      }
    }

    /** The same for an entry of the list of catalogs. */
    method FetchRoot(k: nat) returns (child: Option<nat>)
      requires Valid() && k < |root| && root[k].kind == Catalog
      modifies `root
      ensures Valid() && Later(urls, old(Now()), Now())
      ensures child == IndexOf(urls, old(root[k].url)) && (child.Some? ==> child.value < |lists|)
      ensures root == if child.Some? then old(root) else old(root)[k := old(root[k]).(kind := BrokenCatalog)]
    {
      child := IndexOf(urls, root[k].url);
      if child.None? {
        root := root[k := root[k].(kind := BrokenCatalog)];
      }
    }

    /** No frame is at work on file v nor on the files it may lead to, and they plan what they say. */
    ghost predicate CalmAt(rank: seq<nat>, s: State, v: nat, pub: Id, sys: Id) {
      v < |rank| && Calm(Graph(rank), s, rank[v] + 1, pub, sys)
    }

    ghost predicate CalmBelow(rank: seq<nat>, s: State, v: nat, pub: Id, sys: Id) {
      v < |rank| && Calm(Graph(rank), s, rank[v], pub, sys)
    }

    /** What every step keeps: marks and counters only grow, and the frames account for the counters. */
    ghost predicate Kept(before: State, frames: seq<Frame>)
      reads this
    {
      Moved(urls, files, before, frames, Now())
    }

    /** The same for steps on the entries of file v, which start frames on files it leads to. */
    ghost predicate KeptUnder(v: nat, before: State, frames: seq<Frame>)
      reads this
    {
      Kept(before, frames) && ChildrenOf(urls, files, v, frames)
    }

    lemma KeptNothing()
      requires Valid()
      ensures Kept(Now(), [])
    {
      Recount(urls, files, depth, []);
    }

    /** Marks alone start no frame. */
    lemma KeptMarking(a: State, b: State, gs: seq<Frame>)
      requires Later(urls, a, b) && b.depth == a.depth && Kept(b, gs)
      ensures Kept(a, gs)
    {
      LaterTransitive(urls, a, b, Now());
      DatedWider(urls, a.lists, b.lists, gs, lists, lists);
    }

    lemma KeptRefusal(v: nat, pub: Id, sys: Id)
      requires Valid() && v < |files|
      requires depth[v] > MAX_CATAL_DEPTH || lists[v] == [] || (pub.None? && sys.None?)
      ensures Kept(Now(), [Refused(v, lists[v], pub, sys)]) && Clean([Refused(v, lists[v], pub, sys)])
      ensures !Met(depth, [Refused(v, lists[v], pub, sys)])
    {
      var f := Refused(v, lists[v], pub, sys);
      RefusalMoved(urls, files, Now(), f);
      assert [f][..|[f]| - 1] == [];
    }

    /** A search for final identifiers that finds nothing leaves all plans for them as they are. */
    ghost predicate SparedIfNothing(before: State, but: set<nat>, pub: Id, sys: Id, answer: Answer)
      reads this
    {
      answer == Nothing && Final(pub, sys) ==> Spared(urls, before.lists, lists, but, pub, sys)
    }

    /** xmlCatalogXMLResolve on the entries of file v. */
    method XMLResolve(v: nat, pub: Id, sys: Id, ghost rank: seq<nat>) returns (answer: Answer, ghost frames: seq<Frame>)
      requires Valid() && v < |files|
      modifies this
      decreases Headroom(depth), 0, 1
      ensures Kept(old(Now()), frames) && AsOne(frames, v, old(lists[v]), (pub, sys), answer)
      ensures !Met(old(depth), frames) ==> depth == old(depth)
      ensures frames[0].Frame? <==> old(depth[v]) <= MAX_CATAL_DEPTH
      ensures old(depth[v]) > MAX_CATAL_DEPTH ==> answer == Nothing && Now() == old(Now())
      ensures old(depth[v]) <= MAX_CATAL_DEPTH ==> PlanKept(Planned(urls, old(lists[v]), pub, sys), answer)
      ensures CalmAt(rank, old(Now()), v, pub, sys) ==> Clean(frames) && answer == Meaning(Graph(rank), v, pub, sys)
      ensures SparedIfNothing(old(Now()), {}, pub, sys, answer)
      ensures Justified(files, pub, sys, answer)
    {
      CalmInside(rank, Now(), v, pub, sys);
      if depth[v] > MAX_CATAL_DEPTH {
        KeptRefusal(v, pub, sys);
        return Nothing, [Refused(v, lists[v], pub, sys)];
      }
      answer, frames := OneFrame(v, pub, sys, rank);
    }

    /** The rest of it: one frame at work on file v, counted while it is. */
    method OneFrame(v: nat, pub: Id, sys: Id, ghost rank: seq<nat>) returns (answer: Answer, ghost frames: seq<Frame>)
      requires Valid() && v < |files| && depth[v] <= MAX_CATAL_DEPTH
      modifies this
      decreases Headroom(depth), 0, 0
      ensures Kept(old(Now()), frames) && AsOne(frames, v, old(lists[v]), (pub, sys), answer) && frames[0].Frame?
      ensures PlanKept(Planned(urls, old(lists[v]), pub, sys), answer)
      ensures CalmAt(rank, old(Now()), v, pub, sys) ==> Clean(frames) && answer == Meaning(Graph(rank), v, pub, sys)
      ensures SparedIfNothing(old(Now()), {}, pub, sys, answer)
      ensures Justified(files, pub, sys, answer)
    {
      ghost var s0 := Now();
      CalmInside(rank, s0, v, pub, sys);
      Enter(v);
      var stuck;
      answer, stuck, frames := Search(v, pub, sys, rank);
      ghost var f, s1 := FrameAt(v, s0.lists[v], pub, sys, frames, stuck, answer), Now();
      FrameMoved(urls, files, s0, f, s1);
      Leave(v, stuck);
      assert Now() == Left(f, s1);
      frames := [f];
    }

    /** The frame that searched the entries es of file v. */
    ghost function FrameAt(v: nat, es: seq<Entry>, pub: Id, sys: Id, inner: seq<Frame>, stuck: bool,
                           answer: Answer): Frame
      requires v < |lists|
      reads this
    {
      Frame(v, es, pub, sys, Planned(urls, es, pub, sys), inner, stuck, answer, lists[v])
    }

    /** The counter goes down again, except at the early return. */
    method Leave(v: nat, stuck: bool)
      requires v < |depth| && depth[v] > 0
      modifies `depth
      ensures depth == if stuck then old(depth) else Lowered(old(depth), v)
    {
      if stuck { return; }
      depth := depth[v := depth[v] - 1];
    }

    lemma CalmInside(rank: seq<nat>, s: State, v: nat, pub: Id, sys: Id)
      requires v < |s.depth|
      ensures CalmAt(rank, s, v, pub, sys) ==>
        && s.depth[v] == 0 && v < |s.lists| == |files| && SamePlans(urls, files[v], s.lists[v], pub, sys)
        && CalmBelow(rank, s.(depth := Raised(s.depth, v)), v, pub, sys)
    {
      if CalmAt(rank, s, v, pub, sys) {
        CalmHere(Graph(rank), s, v, pub, sys);
        CalmRaised(Graph(rank), s, v, pub, sys);
      }
    }

    /** Its work between the two updates of the counter; `stuck` is the early return after a next catalog. */
    method Search(v: nat, pub: Id, sys: Id, ghost rank: seq<nat>)
      returns (answer: Answer, stuck: bool, ghost frames: seq<Frame>)
      requires Valid() && v < |files|
      modifies this
      decreases Headroom(depth), Weight(NormalId(pub)) + Weight(sys), 11
      ensures Searched(rank, old(Now()), v, pub, sys, answer, stuck, frames)
    {
      var choice := Decide(urls, lists[v], pub, sys);
      if choice.Consult? {
        answer, stuck, frames := SearchByAsking(v, pub, sys, rank, choice);
      } else {
        answer, stuck, frames := if choice.Answered? then choice.answer else Nothing, false, [];
        SearchedDirectly(rank, v, pub, sys, choice);
      }
    }

    /** What the work of one frame comes to. */
    ghost predicate Searched(rank: seq<nat>, s0: State, v: nat, pub: Id, sys: Id, answer: Answer, stuck: bool,
                             frames: seq<Frame>)
      reads this
    {
      && v < |lists| && v < |s0.lists| && v < |s0.depth| && v < |files| && KeptUnder(v, s0, frames)
      && (var f := FrameAt(v, s0.lists[v], pub, sys, frames, stuck, answer); Told(urls, f) && Stops(s0.depth, f))
      && PlanKept(Planned(urls, s0.lists[v], pub, sys), answer)
      && (Undisturbed(rank, s0, v, pub, sys) ==>
            Clean(frames) && !stuck && answer == Meaning(Graph(rank), v, pub, sys))
      && SparedIfNothing(s0, {}, pub, sys, answer)
      && Justified(files, pub, sys, answer)
    }

    ghost predicate Undisturbed(rank: seq<nat>, s0: State, v: nat, pub: Id, sys: Id)
      requires v < |s0.lists| && v < |s0.depth| && v < |files|
    {
      && CalmBelow(rank, s0, v, pub, sys) && s0.depth[v] <= MAX_CATAL_DEPTH
      && SamePlans(urls, files[v], s0.lists[v], pub, sys)
    }

    lemma SearchedDirectly(rank: seq<nat>, v: nat, pub: Id, sys: Id, choice: Choice)
      requires Valid() && v < |files| && Chosen(urls, lists[v], pub, sys, choice) && !choice.Consult?
      requires choice.Neither? && (pub.Some? || sys.Some?) ==> !HasSelected(lists[v], Nexts)
      ensures Searched(rank, Now(), v, pub, sys, Concluded(choice, Nothing), false, [])
    {
      KeptNothing();
      DoneIsJustified(urls, files, v, lists[v], pub, sys);
      if Undisturbed(rank, Now(), v, pub, sys) {
        MeaningByChoice(Graph(rank), v, lists[v], pub, sys, choice, Nothing);
      }
      ToldByChoice(urls, FrameAt(v, lists[v], pub, sys, [], false, Concluded(choice, Nothing)), choice, Nothing);
    }

    method SearchByAsking(v: nat, pub: Id, sys: Id, ghost rank: seq<nat>, choice: Choice)
      returns (answer: Answer, stuck: bool, ghost frames: seq<Frame>)
      requires Valid() && v < |files| && Chosen(urls, lists[v], pub, sys, choice) && choice.Consult?
      requires var plan := Planned(urls, lists[v], pub, sys);
        !choice.sel.Catalogs? && plan.Ask? && choice.sel == PlanSel(plan)
      modifies this
      decreases Headroom(depth), Weight(NormalId(pub)) + Weight(sys), 10, 1
      ensures Searched(rank, old(Now()), v, pub, sys, answer, stuck, frames)
    {
      ghost var s0 := Now();
      CalmForChoice(rank, s0, v, choice.sel, pub, sys);
      answer, stuck, frames := Ask(v, choice.sel, PubFor(choice.sel, pub), SysFor(choice.sel, sys), rank);
      SearchedByAsking(rank, s0, v, pub, sys, choice, answer, stuck, frames);
      if answer == Nothing && !choice.sel.Nexts? {
        answer := Cut;
      }
    }

    lemma SearchedByAsking(rank: seq<nat>, s0: State, v: nat, pub: Id, sys: Id, choice: Choice, got: Answer,
                           stuck: bool, frames: seq<Frame>)
      requires Sane(urls, files, s0) && v < |files| && Chosen(urls, s0.lists[v], pub, sys, choice) && choice.Consult?
      requires var plan := Planned(urls, s0.lists[v], pub, sys);
        !choice.sel.Catalogs? && plan.Ask? && choice.sel == PlanSel(plan)
      requires CalmBelow(rank, s0, v, pub, sys) ==>
        CalmBelow(rank, s0, v, PubFor(choice.sel, pub), SysFor(choice.sel, sys))
      requires AskOutcome(rank, s0, v, choice.sel, PubFor(choice.sel, pub), SysFor(choice.sel, sys), got, stuck, frames)
      ensures Searched(rank, s0, v, pub, sys, Concluded(choice, got), stuck, frames)
    {
      ConsultedIsJustified(files, choice.sel, pub, sys, got);
      if Undisturbed(rank, s0, v, pub, sys) {
        MeaningByChoice(Graph(rank), v, s0.lists[v], pub, sys, choice, got);
      }
      ToldByChoice(urls, FrameAt(v, s0.lists[v], pub, sys, frames, stuck, Concluded(choice, got)), choice, got);
    }

    lemma CalmForChoice(rank: seq<nat>, s: State, v: nat, sel: Selection, pub: Id, sys: Id)
      ensures CalmBelow(rank, s, v, pub, sys) ==> CalmBelow(rank, s, v, PubFor(sel, pub), SysFor(sel, sys))
    {
      if CalmBelow(rank, s, v, pub, sys) {
        CalmForOne(Graph(rank), s, rank[v], pub, sys);
      }
    }

    /** Delegates may turn out broken, which can change the plan of the list they are in. */
    function But(sel: Selection, v: nat): set<nat> {
      if sel.Nexts? then {} else {v}
    }

    method Ask(v: nat, sel: Selection, pub: Id, sys: Id, ghost rank: seq<nat>)
      returns (answer: Answer, stuck: bool, ghost frames: seq<Frame>)
      requires Valid() && v < |files| && !sel.Catalogs?
      modifies this
      decreases Headroom(depth), Weight(NormalId(pub)) + Weight(sys), 10, 0
      ensures AskOutcome(rank, old(Now()), v, sel, pub, sys, answer, stuck, frames)
    {
      ghost var s0 := Now();
      if sel.Nexts? {
        answer, stuck, frames := AskNexts(v, pub, sys, rank);
        assert NextsOutcomeAt(rank, s0, v, pub, sys, answer, stuck, frames);
      } else {
        stuck := false;
        answer, frames := AskDelegates(v, sel, pub, sys, rank);
        assert OutcomeAt(rank, s0, v, sel, pub, sys, answer, frames);
      }
    }

    ghost predicate AskOutcome(rank: seq<nat>, s0: State, v: nat, sel: Selection, pub: Id, sys: Id, answer: Answer,
                               stuck: bool, frames: seq<Frame>)
      reads this
    {
      && KeptUnder(v, s0, frames) && ConsultedHere(s0, v, sel, pub, sys, answer, stuck, frames)
      && (if stuck then sel.Nexts? && StuckAt(rank, s0, v, pub, sys, answer)
          else Asked(rank, s0, v, sel, pub, sys, answer, frames))
      && SparedIfNothing(s0, But(sel, v), pub, sys, answer)
    }

    /** The catalogs that the entries of file v select were asked in turn. */
    ghost predicate ConsultedHere(s0: State, v: nat, sel: Selection, pub: Id, sys: Id, answer: Answer, stuck: bool,
                                  frames: seq<Frame>)
      reads this
    {
      && v < |s0.lists| && v < |lists| && v < |s0.depth| && answer == Got(frames)
      && Consulted(urls, s0.lists[v], sel, Targets(urls, s0.lists[v], sel), pub, sys, frames, stuck, lists[v])
      && HaltsAt(s0.depth, v, sel.Nexts?, frames, stuck)
    }

    /** The early return, which calm surroundings exclude. */
    ghost predicate StuckAt(rank: seq<nat>, s0: State, v: nat, pub: Id, sys: Id, answer: Answer)
      reads this
    {
      && v < |depth| && depth[v] > MAX_CATAL_DEPTH && answer == Nothing
      && !(v < |s0.depth| && CalmBelow(rank, s0, v, pub, sys) && s0.depth[v] <= MAX_CATAL_DEPTH)
    }

    /** The selected catalogs of file v have been asked: without any there is no answer, and in calm
        surroundings no frame got stuck and the answer is the first one of these catalogs. */
    ghost predicate Asked(rank: seq<nat>, s0: State, v: nat, sel: Selection, pub: Id, sys: Id, answer: Answer,
                          frames: seq<Frame>)
    {
      && v < |s0.lists| && (Targets(urls, s0.lists[v], sel) == [] ==> answer == Nothing)
      && (CalmBelow(rank, s0, v, pub, sys) ==>
            Clean(frames) && Settled(rank, v, s0.lists[v], sel, pub, sys, answer))
      && Justified(files, pub, sys, answer)
    }

    /** The delegate loops: the first fifty URLs are remembered so as not to ask a catalog twice. */
    method AskDelegates(v: nat, sel: Selection, pub: Id, sys: Id, ghost rank: seq<nat>)
      returns (answer: Answer, ghost frames: seq<Frame>)
      requires Valid() && v < |files| && (sel.SystemDelegates? || sel.PublicDelegates?)
      modifies this
      decreases Headroom(depth), Weight(NormalId(pub)) + Weight(sys), 9
      ensures Outcome(rank, old(Now()), v, sel, pub, sys, answer, frames)
      ensures SparedIfNothing(old(Now()), But(sel, v), pub, sys, answer)
    {
      ghost var s0 := Now();
      var delegates: seq<string> := [];
      answer, frames := Nothing, [];
      var i := 0;
      BeginDelegates(rank, s0, v, sel, pub, sys);
      while i < |lists[v]|
        invariant answer == Nothing && AskingDelegates(rank, s0, v, i, sel, pub, sys, frames, delegates)
        decreases |s0.lists[v]| - i
      {
        answer, delegates, frames := AskDelegate(v, i, sel, pub, sys, rank, s0, frames, delegates);
        if answer != Nothing {
          return;
        }
        i := i + 1;
      }
      EndDelegates(rank, s0, v, i, sel, pub, sys, frames, delegates);
    }

    /** The catalogs have been asked, and these frames tell of it. */
    ghost predicate Outcome(rank: seq<nat>, s0: State, v: nat, sel: Selection, pub: Id, sys: Id, answer: Answer,
                            frames: seq<Frame>)
      reads this
    {
      forall w: nat :: w == v ==> OutcomeAt(rank, s0, w, sel, pub, sys, answer, frames)
    }

    ghost predicate OutcomeAt(rank: seq<nat>, s0: State, v: nat, sel: Selection, pub: Id, sys: Id, answer: Answer,
                              frames: seq<Frame>)
      reads this
    {
      && KeptUnder(v, s0, frames) && Asked(rank, s0, v, sel, pub, sys, answer, frames)
      && ConsultedHere(s0, v, sel, pub, sys, answer, false, frames)
    }

    lemma BeginDelegates(rank: seq<nat>, s0: State, v: nat, sel: Selection, pub: Id, sys: Id)
      requires Valid() && s0 == Now() && v < |files| && !sel.Catalogs?
      ensures AskingDelegates(rank, s0, v, 0, sel, pub, sys, [], [])
    {
      BeginAsking(rank, s0, v, sel, pub, sys);
    }

    lemma EndDelegates(rank: seq<nat>, s0: State, v: nat, i: nat, sel: Selection, pub: Id, sys: Id,
                       frames: seq<Frame>, delegates: seq<string>)
      requires AskingDelegates(rank, s0, v, i, sel, pub, sys, frames, delegates) && i >= |lists[v]| && !sel.Nexts?
      ensures Outcome(rank, s0, v, sel, pub, sys, Nothing, frames)
      ensures SparedIfNothing(s0, But(sel, v), pub, sys, Nothing)
    {
      assert DelegatesAskedAt(rank, s0, v, i, sel, pub, sys, frames, delegates);
      EndAsking(rank, s0, v, i, sel, pub, sys, frames);
      EndConsulting(rank, s0, v, i, sel, pub, sys, frames);
    }

    /** The delegate loops before entry i.  The quantifier keeps the loop itself from looking into it. */
    ghost predicate AskingDelegates(rank: seq<nat>, s0: State, v: nat, i: nat, sel: Selection, pub: Id, sys: Id,
                                    frames: seq<Frame>, delegates: seq<string>)
      reads this
    {
      && v < |lists| && v < |s0.lists| && i <= |lists[v]| == |s0.lists[v]|
      && forall w: nat :: w == v ==> DelegatesAskedAt(rank, s0, w, i, sel, pub, sys, frames, delegates)
    }

    ghost predicate DelegatesAskedAt(rank: seq<nat>, s0: State, v: nat, i: nat, sel: Selection, pub: Id, sys: Id,
                                     frames: seq<Frame>, delegates: seq<string>)
      requires v < |s0.lists|
      reads this
    {
      && Asking(rank, s0, v, i, sel, pub, sys, frames) && Remembered(urls, s0.lists[v], i, sel, delegates)
      && Noted(urls, s0.lists[v], i, frames, delegates)
    }

    /** One turn of the delegate loops. */
    method AskDelegate(v: nat, i: nat, sel: Selection, pub: Id, sys: Id, ghost rank: seq<nat>, ghost s0: State,
                       ghost frames0: seq<Frame>, delegates: seq<string>)
      returns (answer: Answer, known: seq<string>, ghost frames: seq<Frame>)
      requires AskingDelegates(rank, s0, v, i, sel, pub, sys, frames0, delegates)
      requires i < |lists[v]| && (sel.SystemDelegates? || sel.PublicDelegates?)
      modifies this
      decreases Headroom(s0.depth), Weight(NormalId(pub)) + Weight(sys), 8, 1
      ensures if answer == Nothing then AskingDelegates(rank, s0, v, i + 1, sel, pub, sys, frames, known)
              else Outcome(rank, s0, v, sel, pub, sys, answer, frames)
    {
      var cur := lists[v][i];
      known, answer, frames := delegates, Nothing, frames0;
      if Selects(sel, cur) && cur.url !in delegates {
        if |delegates| < MAX_DELEGATE {
          known := delegates + [cur.url];
        }
        answer, frames := AskNewDelegate(v, i, sel, pub, sys, rank, s0, frames0, delegates, known);
      } else {
        PassDelegate(rank, s0, v, i, sel, pub, sys, frames, delegates);
      }
    }

    /** A matching delegate that is not remembered. */
    method AskNewDelegate(v: nat, i: nat, sel: Selection, pub: Id, sys: Id, ghost rank: seq<nat>, ghost s0: State,
                          ghost frames0: seq<Frame>, ghost delegates: seq<string>, ghost known: seq<string>)
      returns (answer: Answer, ghost frames: seq<Frame>)
      requires AskingDelegates(rank, s0, v, i, sel, pub, sys, frames0, delegates)
      requires i < |lists[v]| && (sel.SystemDelegates? || sel.PublicDelegates?)
      requires Selects(sel, lists[v][i]) && lists[v][i].url !in delegates
      requires known == if |delegates| < MAX_DELEGATE then delegates + [lists[v][i].url] else delegates
      modifies this
      decreases Headroom(s0.depth), Weight(NormalId(pub)) + Weight(sys), 8, 0
      ensures if answer == Nothing then AskingDelegates(rank, s0, v, i + 1, sel, pub, sys, frames, known)
              else Outcome(rank, s0, v, sel, pub, sys, answer, frames)
    {
      assert DelegatesAskedAt(rank, s0, v, i, sel, pub, sys, frames0, delegates);
      RememberedTurn(rank, s0, v, i, sel, pub, sys, frames0, delegates);
      var child;
      answer, child, frames := AskTarget(v, i, sel, pub, sys, rank, s0, frames0);
      DelegateAsked(s0.lists[v], i, sel, pub, sys, frames0, delegates, child, frames, lists[v]);
    }

    lemma PassDelegate(rank: seq<nat>, s0: State, v: nat, i: nat, sel: Selection, pub: Id, sys: Id,
                       frames: seq<Frame>, delegates: seq<string>)
      requires AskingDelegates(rank, s0, v, i, sel, pub, sys, frames, delegates) && i < |lists[v]| && !sel.Nexts?
      requires Selects(sel, lists[v][i]) ==> lists[v][i].url in delegates
      ensures AskingDelegates(rank, s0, v, i + 1, sel, pub, sys, frames, delegates)
    {
      assert DelegatesAskedAt(rank, s0, v, i, sel, pub, sys, frames, delegates);
      RememberedTurn(rank, s0, v, i, sel, pub, sys, frames, delegates);
      PassOver(rank, s0, v, i, sel, pub, sys, frames, delegates);
    }

    lemma RememberedTurn(rank: seq<nat>, s0: State, v: nat, i: nat, sel: Selection, pub: Id, sys: Id,
                         frames: seq<Frame>, delegates: seq<string>)
      requires v < |s0.lists| && DelegatesAskedAt(rank, s0, v, i, sel, pub, sys, frames, delegates) && i < |lists[v]|
      ensures var es, cur := s0.lists[v], lists[v][i];
        && i < |es| && cur.url == es[i].url && (Selects(sel, cur) ==> cur == es[i])
        && (if Selects(sel, cur) && cur.url !in delegates then
              && Remembered(urls, es, i + 1, sel,
                            if |delegates| < MAX_DELEGATE then delegates + [cur.url] else delegates)
              && (Targets(urls, es, sel) == [] && !sel.Nexts? ==> Tries(es, i, sel))
            else Remembered(urls, es, i + 1, sel, delegates))
    {
      var es, cur := s0.lists[v], lists[v][i];
      assert cur == es[i] || MarkedBroken(urls, es[i], cur);
      RememberedNext(urls, es, i, sel, delegates);
    }

    lemma DelegateAsked(es: seq<Entry>, i: nat, sel: Selection, pub: Id, sys: Id, frames0: seq<Frame>,
                        delegates: seq<string>, child: Option<nat>, frames: seq<Frame>, left: seq<Entry>)
      requires i < |es| && !sel.Nexts? && es[i].url !in delegates && Noted(urls, es, i, frames0, delegates)
      requires OneMore(es[i], frames0, child, frames)
      ensures Noted(urls, es, i + 1, frames, if |delegates| < MAX_DELEGATE then delegates + [es[i].url] else delegates)
      ensures InTurnHere(es, sel, pub, sys, frames) ==>
        Consulted(urls, es, sel, Targets(urls, es, sel), pub, sys, frames, false, left)
    {
      var f := if child.Some? then frames[|frames0|] else Refused(0, [], None, None);
      NotedNext(urls, es, i, frames0, delegates, f);
      if InTurnHere(es, sel, pub, sys, frames) {
        FoundConsulted(urls, es, sel, pub, sys, frames, left);
      }
    }

    /** The catalog of entry e was asked, if there is one. */
    ghost predicate OneMore(e: Entry, before: seq<Frame>, child: Option<nat>, after: seq<Frame>) {
      && child == IndexOf(urls, e.url)
      && if child.None? then after == before
         else |after| == |before| + 1 && after == before + [after[|before|]] && after[|before|].v == child.value
    }

    /** The last of the catalogs asked has given an answer. */
    ghost predicate InTurnHere(es: seq<Entry>, sel: Selection, pub: Id, sys: Id, frames: seq<Frame>) {
      && frames != [] && Tells(frames, Got(frames)) && Got(frames) != Nothing && SearchedFor(frames, Reduced(pub, sys))
      && InTurn(sel, Targets(urls, es, sel), Names(frames), false) && Targets(urls, es, sel) != []
    }

    ghost predicate Settled(rank: seq<nat>, v: nat, es: seq<Entry>, sel: Selection, pub: Id, sys: Id, answer: Answer)
      requires v < |rank|
    {
      && Ranked(Graph(rank)) && AllBelow(Graph(rank), Targets(urls, es, sel), rank[v])
      && answer == FirstAnswer(Graph(rank), rank[v], Targets(urls, es, sel), pub, sys)
    }

    lemma AllBelowTargets(rank: seq<nat>, v: nat, es: seq<Entry>, sel: Selection)
      requires Ranked(Graph(rank)) && v < |files| && Aged(urls, files[v], es) && !sel.Catalogs?
      ensures AllBelow(Graph(rank), Targets(urls, es, sel), rank[v])
    {
      var vs := Targets(urls, es, sel);
      assert RankedFile(Graph(rank), v);
      forall i | 0 <= i < |vs|
        ensures Below(Graph(rank), vs[i], rank[v])
      {
        assert vs[i] in vs;
      }
    }

    /** The catalogs of the first i entries of file v, as they were in state s0, have been asked in vain. */
    ghost predicate InVain(rank: seq<nat>, s0: State, v: nat, i: nat, sel: Selection, pub: Id, sys: Id,
                           frames: seq<Frame>)
    {
      && v < |s0.lists| && i <= |s0.lists[v]|
      && (CalmBelow(rank, s0, v, pub, sys) ==>
            Clean(frames) && AllSilent(Graph(rank), Targets(urls, s0.lists[v][..i], sel), pub, sys))
    }

    /** The loops before entry i: what has been asked for since state s0 was asked for in vain. */
    ghost predicate Asking(rank: seq<nat>, s0: State, v: nat, i: nat, sel: Selection, pub: Id, sys: Id,
                           frames: seq<Frame>)
      reads this
    {
      && Sane(urls, files, s0) && v < |files| && !sel.Catalogs? && KeptUnder(v, s0, frames)
      && InVain(rank, s0, v, i, sel, pub, sys, frames) && SparedIfNothing(s0, But(sel, v), pub, sys, Nothing)
      && SoFar(urls, s0.lists[v], i, sel, Reduced(pub, sys), frames, lists[v])
    }

    lemma BeginAsking(rank: seq<nat>, s0: State, v: nat, sel: Selection, pub: Id, sys: Id)
      requires Valid() && s0 == Now() && v < |files| && !sel.Catalogs?
      ensures Asking(rank, s0, v, 0, sel, pub, sys, []) && Noted(urls, lists[v], 0, [], [])
      ensures Remembered(urls, lists[v], 0, sel, [])
    {
      KeptNothing();
      SoFarBegin(urls, lists[v], sel, Reduced(pub, sys));
    }

    lemma EndAsking(rank: seq<nat>, s0: State, v: nat, i: nat, sel: Selection, pub: Id, sys: Id, frames: seq<Frame>)
      requires Asking(rank, s0, v, i, sel, pub, sys, frames) && i >= |lists[v]|
      ensures Asked(rank, s0, v, sel, pub, sys, Nothing, frames)
    {
      assert i == |s0.lists[v]|;
      if CalmBelow(rank, s0, v, pub, sys) {
        AllSettled(rank, v, s0.lists[v], sel, pub, sys);
      }
    }

    lemma EndConsulting(rank: seq<nat>, s0: State, v: nat, i: nat, sel: Selection, pub: Id, sys: Id,
                        frames: seq<Frame>)
      requires Asking(rank, s0, v, i, sel, pub, sys, frames) && i >= |lists[v]|
      requires if sel.Nexts? then Patient(s0.depth, v, frames)
               else |s0.lists[v]| <= MAX_DELEGATE ==> NoneTwice(Names(frames))
      ensures ConsultedHere(s0, v, sel, pub, sys, Nothing, false, frames)
    {
      assert i == |s0.lists[v]|;
      SoFarEnd(urls, s0.lists[v], sel, pub, sys, frames, lists[v]);
      if sel.Nexts? {
        PatientHalts(s0.depth, v, frames);
      }
    }

    lemma AllSettled(rank: seq<nat>, v: nat, es: seq<Entry>, sel: Selection, pub: Id, sys: Id)
      requires Ranked(Graph(rank)) && v < |files| && Aged(urls, files[v], es) && !sel.Catalogs?
      requires AllSilent(Graph(rank), Targets(urls, es[..|es|], sel), pub, sys)
      ensures Settled(rank, v, es, sel, pub, sys, Nothing)
    {
      AllBelowTargets(rank, v, es, sel);
      AllAsked(Graph(rank), rank[v], es, sel, pub, sys);
    }

    /** An entry that is not selected (any more), or whose catalog was asked already. */
    lemma PassOver(rank: seq<nat>, s0: State, v: nat, i: nat, sel: Selection, pub: Id, sys: Id,
                   frames: seq<Frame>, delegates: seq<string>)
      requires Asking(rank, s0, v, i, sel, pub, sys, frames) && i < |lists[v]|
      requires Remembered(urls, s0.lists[v], i, sel, delegates) && (sel.Nexts? ==> delegates == [])
      requires Selects(sel, lists[v][i]) ==> lists[v][i].url in delegates
      ensures Asking(rank, s0, v, i + 1, sel, pub, sys, frames)
    {
      SoFarPassed(urls, s0.lists[v], i, sel, Reduced(pub, sys), frames, lists[v], delegates);
      if CalmBelow(rank, s0, v, pub, sys) {
        var es := s0.lists[v];
        assert lists[v][i] == es[i] || MarkedBroken(urls, es[i], lists[v][i]);
        if es[i].url in delegates {
          AskedBefore(Graph(rank), es, i, sel, pub, sys, delegates);
        }
        AllBelowTargets(rank, v, es, sel);
        OneMoreAsked(Graph(rank), rank[v], es, i, sel, pub, sys, Nothing);
      }
    }

    /** One turn of a loop over the selected entries of file v. */
    method AskTarget(v: nat, i: nat, sel: Selection, pub: Id, sys: Id, ghost rank: seq<nat>, ghost s0: State,
                     ghost frames0: seq<Frame>)
      returns (answer: Answer, child: Option<nat>, ghost frames: seq<Frame>)
      requires Asking(rank, s0, v, i, sel, pub, sys, frames0) && i < |lists[v]| && Selects(sel, lists[v][i])
      requires Targets(urls, s0.lists[v], sel) == [] && !sel.Nexts? ==> Tries(s0.lists[v], i, sel)
      modifies this
      decreases Headroom(s0.depth), Weight(NormalId(pub)) + Weight(sys), 7
      ensures if answer == Nothing then Asking(rank, s0, v, i + 1, sel, pub, sys, frames)
              else KeptUnder(v, s0, frames) && Asked(rank, s0, v, sel, pub, sys, answer, frames)
                   && InTurnHere(s0.lists[v], sel, pub, sys, frames) && answer == Got(frames)
      ensures OneMore(s0.lists[v][i], frames0, child, frames)
    {
      ghost var s1, es := Now(), s0.lists[v];
      assert es[i] == lists[v][i];
      StillCalm(rank, s0, v, sel, pub, sys, frames0);
      answer, child, frames := AskEntry(v, i, sel, pub, sys, rank);
      KeptUnderTwice(v, s0, s1, frames0, frames);
      if CalmBelow(rank, s0, v, pub, sys) {
        TargetAnswers(rank, s0, v, i, sel, pub, sys, child, answer);
      }
      if answer == Nothing && Final(pub, sys) {
        SparedTwice(urls, s0.lists, s1.lists, lists, But(sel, v), pub, sys);
      }
      TargetsNext(urls, es, sel, i);
      TargetsStart(urls, es, sel, i + 1);
      TurnTold(es, i, sel, pub, sys, frames0, s1.lists[v], child, frames, lists[v], answer);
      frames := frames0 + frames;
    }

    lemma TurnTold(es: seq<Entry>, i: nat, sel: Selection, pub: Id, sys: Id, frames0: seq<Frame>, before: seq<Entry>,
                   child: Option<nat>, frames: seq<Frame>, now: seq<Entry>, answer: Answer)
      requires SoFar(urls, es, i, sel, Reduced(pub, sys), frames0, before) && i < |es| && before[i] == es[i]
      requires Aged(urls, es, before) && Selects(sel, es[i]) && child == IndexOf(urls, es[i].url)
      requires Targets(urls, es, sel) == [] && !sel.Nexts? ==> Tries(es, i, sel)
      requires EntryTold(es[i], pub, sys, child, frames, answer)
      requires if child.Some? then Aged(urls, before, now) else now == before[i := es[i].(kind := BrokenCatalog)]
      ensures OneMore(es[i], frames0, child, frames0 + frames)
      ensures if answer == Nothing then SoFar(urls, es, i + 1, sel, Reduced(pub, sys), frames0 + frames, now)
              else InTurnHere(es, sel, pub, sys, frames0 + frames) && answer == Got(frames0 + frames)
    {
      if child.None? {
        assert frames0 + frames == frames0;
        SoFarMissed(urls, es, i, sel, Reduced(pub, sys), frames0, before, now);
      } else {
        assert frames == [frames[0]];
        NamesSnoc(frames0, frames[0]);
        AskedInTurn(urls, es, i, sel, Reduced(pub, sys), frames0, before, frames[0]);
        if answer == Nothing {
          SoFarAsked(urls, es, i, sel, Reduced(pub, sys), frames0, before, frames[0], now);
        }
      }
    }

    /** The catalog that entry e names was asked, or there is none. */
    ghost predicate EntryTold(e: Entry, pub: Id, sys: Id, child: Option<nat>, frames: seq<Frame>, answer: Answer) {
      if child.None? then frames == [] && answer == Nothing
      else
        && |frames| == 1 && frames[0].v == child.value && (frames[0].Frame? ==> frames[0].list != [])
        && frames[0].pub == Reduced(pub, sys).0 && frames[0].sys == Reduced(pub, sys).1 && AnswerOf(frames[0]) == answer
    }

    lemma KeptUnderTwice(v: nat, a: State, b: State, fs: seq<Frame>, gs: seq<Frame>)
      requires Moved(urls, files, a, fs, b) && Kept(b, gs)
      requires ChildrenOf(urls, files, v, fs) && ChildrenOf(urls, files, v, gs)
      ensures KeptUnder(v, a, fs + gs) && (Clean(fs + gs) <==> Clean(fs) && Clean(gs))
    {
      MovedTwice(urls, files, a, fs, b, gs, Now());
    }

    /** While all catalogs asked find nothing, those below stay calm. */
    lemma StillCalm(rank: seq<nat>, s0: State, v: nat, sel: Selection, pub: Id, sys: Id, frames: seq<Frame>)
      requires v < |files| && Kept(s0, frames) && SparedIfNothing(s0, But(sel, v), pub, sys, Nothing)
      ensures CalmBelow(rank, s0, v, pub, sys) && Clean(frames) ==> CalmBelow(rank, Now(), v, pub, sys)
    {
      if CalmBelow(rank, s0, v, pub, sys) && Clean(frames) {
        CalmAgain(Graph(rank), s0, Now(), v, But(sel, v), pub, sys);
      }
    }

    lemma TargetAnswers(rank: seq<nat>, s0: State, v: nat, i: nat, sel: Selection, pub: Id, sys: Id,
                        child: Option<nat>, answer: Answer)
      requires Sane(urls, files, s0) && v < |files| && i < |s0.lists[v]| && !sel.Catalogs?
      requires Selects(sel, s0.lists[v][i]) && CalmBelow(rank, s0, v, pub, sys)
      requires AllSilent(Graph(rank), Targets(urls, s0.lists[v][..i], sel), pub, sys)
      requires child == IndexOf(urls, s0.lists[v][i].url)
      requires answer == if child.Some? then FileMeaning(Graph(rank), child.value, pub, sys) else Nothing
      ensures answer == Nothing ==> AllSilent(Graph(rank), Targets(urls, s0.lists[v][..i + 1], sel), pub, sys)
      ensures answer != Nothing ==> Settled(rank, v, s0.lists[v], sel, pub, sys, answer)
    {
      var es := s0.lists[v];
      AllBelowTargets(rank, v, es, sel);
      assert Answers(Graph(rank), es[i], sel, pub, sys, answer);
      OneMoreAsked(Graph(rank), rank[v], es, i, sel, pub, sys, answer);
    }

    /** Loads the catalog that entry i of file v names, and asks it. */
    method AskEntry(v: nat, i: nat, ghost sel: Selection, pub: Id, sys: Id, ghost rank: seq<nat>)
      returns (answer: Answer, child: Option<nat>, ghost frames: seq<Frame>)
      requires Valid() && v < |files| && i < |lists[v]| && !sel.Catalogs? && Selects(sel, lists[v][i])
      modifies this
      decreases Headroom(depth), Weight(NormalId(pub)) + Weight(sys), 6
      ensures KeptUnder(v, old(Now()), frames)
      ensures child == IndexOf(urls, old(lists[v][i].url)) && (child.Some? ==> child.value < |files|)
      ensures EntryTold(old(lists[v][i]), pub, sys, child, frames, answer)
      ensures child.None? ==>
        lists == old(lists)[v := old(lists[v])[i := old(lists[v][i]).(kind := BrokenCatalog)]]
      ensures CalmBelow(rank, old(Now()), v, pub, sys) ==>
        && Clean(frames) && Ranked(Graph(rank))
        && answer == if child.Some? then FileMeaning(Graph(rank), child.value, pub, sys) else Nothing
      ensures SparedIfNothing(old(Now()), But(sel, v), pub, sys, answer)
      ensures Justified(files, pub, sys, answer)
    {
      ghost var s0 := Now();
      assert files[v][i] == lists[v][i];
      child := Fetch(v, i);
      answer, frames := Nothing, [];
      if child.Some? {
        CalmChild(rank, s0, v, i, child.value, pub, sys);
        assert LeadsTo(urls, files, v, child.value);
        answer, frames := AskChild(s0.lists[v][i], v, child.value, sel, pub, sys, rank);
      } else {
        OnlyMarked(s0, v, i, sel, pub, sys);
      }
    }

    /** A file that is loaded is asked as a catalog of its own. */
    method AskChild(ghost e: Entry, ghost v: nat, w: nat, ghost sel: Selection, pub: Id, sys: Id, ghost rank: seq<nat>)
      returns (answer: Answer, ghost frames: seq<Frame>)
      requires Valid() && v < |files| && w < |files| && LeadsTo(urls, files, v, w)
      modifies this
      decreases Headroom(depth), Weight(NormalId(pub)) + Weight(sys), 6, 0
      ensures KeptUnder(v, old(Now()), frames) && EntryTold(e, pub, sys, Some(w), frames, answer)
      ensures CalmAt(rank, old(Now()), w, pub, sys) ==>
        Clean(frames) && Ranked(Graph(rank)) && answer == FileMeaning(Graph(rank), w, pub, sys)
      ensures SparedIfNothing(old(Now()), But(sel, v), pub, sys, answer)
      ensures Justified(files, pub, sys, answer)
    {
      ghost var s0 := Now();
      answer, frames := ListXMLResolve(Document(w), pub, sys, rank);
      if answer == Nothing && Final(pub, sys) {
        SparedBut(urls, s0.lists, lists, But(sel, v), pub, sys);
      }
    }

    /** A missing file leaves a mark and starts no frame. */
    lemma OnlyMarked(s0: State, v: nat, i: nat, sel: Selection, pub: Id, sys: Id)
      requires Valid() && Later(urls, s0, Now()) && s0.depth == depth
      requires v < |s0.lists| && i < |s0.lists[v]| && Selects(sel, s0.lists[v][i])
      requires IndexOf(urls, s0.lists[v][i].url).None?
      requires lists == s0.lists[v := s0.lists[v][i := s0.lists[v][i].(kind := BrokenCatalog)]]
      ensures KeptUnder(v, s0, []) && SparedIfNothing(s0, But(sel, v), pub, sys, Nothing)
    {
      KeptNothing();
      KeptMarking(s0, Now(), []);
      if Final(pub, sys) {
        MarkSpares(s0, v, i, sel, pub, sys);
      }
    }

    lemma CalmChild(rank: seq<nat>, s: State, v: nat, i: nat, w: nat, pub: Id, sys: Id)
      requires v < |files| == |urls| && i < |files[v]| && LeadsOn(files[v][i])
      requires IndexOf(urls, files[v][i].url) == Some(w)
      ensures CalmBelow(rank, s, v, pub, sys) ==> CalmAt(rank, s, w, pub, sys)
    {
      if CalmBelow(rank, s, v, pub, sys) {
        CalmBehind(Graph(rank), s, v, i, w, pub, sys);
      }
    }

    /** Marking one entry of list v. */
    lemma MarkSpares(s: State, v: nat, i: nat, sel: Selection, pub: Id, sys: Id)
      requires v < |s.lists| && i < |s.lists[v]| && Selects(sel, s.lists[v][i])
      requires IndexOf(urls, s.lists[v][i].url).None?
      requires lists == s.lists[v := s.lists[v][i := s.lists[v][i].(kind := BrokenCatalog)]]
      ensures Spared(urls, s.lists, lists, But(sel, v), pub, sys)
    {
      if sel.Nexts? {
        MarkedNextKeepsPlans(urls, s.lists[v], i, pub, sys);
      }
    }

    /** The loop over the next catalogs. */
    method AskNexts(v: nat, pub: Id, sys: Id, ghost rank: seq<nat>)
      returns (answer: Answer, stuck: bool, ghost frames: seq<Frame>)
      requires Valid() && v < |files|
      modifies this
      decreases Headroom(depth), Weight(NormalId(pub)) + Weight(sys), 9
      ensures NextsOutcome(rank, old(Now()), v, pub, sys, answer, stuck, frames)
    {
      ghost var s0 := Now();
      answer, stuck, frames := Nothing, false, [];
      var i := 0;
      BeginNexts(rank, s0, v, pub, sys);
      while i < |lists[v]|
        invariant answer == Nothing && !stuck && AskingNexts(rank, s0, v, i, pub, sys, frames)
        decreases |s0.lists[v]| - i
      {
        answer, stuck, frames := AskNext(v, i, pub, sys, rank, s0, frames);
        if answer != Nothing || stuck {
          return;
        }
        i := i + 1;
      }
      EndNexts(rank, s0, v, i, pub, sys, frames);
    }

    /** The loop before entry i, likewise. */
    ghost predicate AskingNexts(rank: seq<nat>, s0: State, v: nat, i: nat, pub: Id, sys: Id, frames: seq<Frame>)
      reads this
    {
      && v < |lists| && v < |s0.lists| && i <= |lists[v]| == |s0.lists[v]|
      && forall w: nat :: w == v ==> NextsAskedAt(rank, s0, w, i, pub, sys, frames)
    }

    ghost predicate NextsAskedAt(rank: seq<nat>, s0: State, v: nat, i: nat, pub: Id, sys: Id, frames: seq<Frame>)
      reads this
    {
      Asking(rank, s0, v, i, Nexts, pub, sys, frames) && Patient(s0.depth, v, frames)
    }

    ghost predicate NextsOutcome(rank: seq<nat>, s0: State, v: nat, pub: Id, sys: Id, answer: Answer, stuck: bool,
                                 frames: seq<Frame>)
      reads this
    {
      forall w: nat :: w == v ==> NextsOutcomeAt(rank, s0, w, pub, sys, answer, stuck, frames)
    }

    ghost predicate NextsOutcomeAt(rank: seq<nat>, s0: State, v: nat, pub: Id, sys: Id, answer: Answer, stuck: bool,
                                   frames: seq<Frame>)
      reads this
    {
      && KeptUnder(v, s0, frames) && ConsultedHere(s0, v, Nexts, pub, sys, answer, stuck, frames)
      && (if stuck then StuckAt(rank, s0, v, pub, sys, answer)
          else Asked(rank, s0, v, Nexts, pub, sys, answer, frames))
      && SparedIfNothing(s0, But(Nexts, v), pub, sys, answer)
    }

    lemma BeginNexts(rank: seq<nat>, s0: State, v: nat, pub: Id, sys: Id)
      requires Valid() && s0 == Now() && v < |files|
      ensures AskingNexts(rank, s0, v, 0, pub, sys, [])
    {
      BeginAsking(rank, s0, v, Nexts, pub, sys);
    }

    lemma EndNexts(rank: seq<nat>, s0: State, v: nat, i: nat, pub: Id, sys: Id, frames: seq<Frame>)
      requires AskingNexts(rank, s0, v, i, pub, sys, frames) && i >= |lists[v]|
      ensures NextsOutcome(rank, s0, v, pub, sys, Nothing, false, frames)
    {
      assert NextsAskedAt(rank, s0, v, i, pub, sys, frames);
      EndAsking(rank, s0, v, i, Nexts, pub, sys, frames);
      EndConsulting(rank, s0, v, i, Nexts, pub, sys, frames);
    }

    /** One turn of that loop. */
    method AskNext(v: nat, i: nat, pub: Id, sys: Id, ghost rank: seq<nat>, ghost s0: State, ghost frames0: seq<Frame>)
      returns (answer: Answer, stuck: bool, ghost frames: seq<Frame>)
      requires AskingNexts(rank, s0, v, i, pub, sys, frames0) && i < |lists[v]|
      modifies this
      decreases Headroom(s0.depth), Weight(NormalId(pub)) + Weight(sys), 8, 1
      ensures if answer == Nothing && !stuck then AskingNexts(rank, s0, v, i + 1, pub, sys, frames)
              else NextsOutcome(rank, s0, v, pub, sys, answer, stuck, frames)
    {
      answer, stuck, frames := Nothing, false, frames0;
      if lists[v][i].kind == NextCatalog {
        answer, stuck, frames := AskSelectedNext(v, i, pub, sys, rank, s0, frames0);
      } else {
        PassNext(rank, s0, v, i, pub, sys, frames);
      }
    }

    method AskSelectedNext(v: nat, i: nat, pub: Id, sys: Id, ghost rank: seq<nat>, ghost s0: State,
                           ghost frames0: seq<Frame>)
      returns (answer: Answer, stuck: bool, ghost frames: seq<Frame>)
      requires AskingNexts(rank, s0, v, i, pub, sys, frames0) && i < |lists[v]| && lists[v][i].kind == NextCatalog
      modifies this
      decreases Headroom(s0.depth), Weight(NormalId(pub)) + Weight(sys), 8, 0
      ensures if answer == Nothing && !stuck then AskingNexts(rank, s0, v, i + 1, pub, sys, frames)
              else NextsOutcome(rank, s0, v, pub, sys, answer, stuck, frames)
    {
      assert NextsAskedAt(rank, s0, v, i, pub, sys, frames0);
      var child;
      answer, child, frames := AskTarget(v, i, Nexts, pub, sys, rank, s0, frames0);
      stuck := child.Some? && answer == Nothing && depth[v] > MAX_CATAL_DEPTH;
      NextTurn(rank, s0, v, i, pub, sys, frames0, child, frames, answer, stuck);
    }

    lemma NextTurn(rank: seq<nat>, s0: State, v: nat, i: nat, pub: Id, sys: Id, frames0: seq<Frame>,
                   child: Option<nat>, frames: seq<Frame>, answer: Answer, stuck: bool)
      requires v < |s0.depth| && v < |s0.lists| && v < |lists| && v < |depth| && i < |s0.lists[v]| == |lists[v]|
      requires Patient(s0.depth, v, frames0) && OneMore(s0.lists[v][i], frames0, child, frames)
      requires stuck == (child.Some? && answer == Nothing && depth[v] > MAX_CATAL_DEPTH)
      requires if answer == Nothing then Asking(rank, s0, v, i + 1, Nexts, pub, sys, frames)
              else KeptUnder(v, s0, frames) && Asked(rank, s0, v, Nexts, pub, sys, answer, frames)
                   && InTurnHere(s0.lists[v], Nexts, pub, sys, frames) && answer == Got(frames)
      ensures if answer == Nothing && !stuck then AskingNexts(rank, s0, v, i + 1, pub, sys, frames)
              else NextsOutcome(rank, s0, v, pub, sys, answer, stuck, frames)
    {
      if answer == Nothing {
        NextAsked(s0, v, i, pub, sys, frames0, child, frames, stuck);
      } else {
        NextFound(s0, v, i, pub, sys, frames0, child, frames, answer);
      }
    }

    lemma PassNext(rank: seq<nat>, s0: State, v: nat, i: nat, pub: Id, sys: Id, frames: seq<Frame>)
      requires AskingNexts(rank, s0, v, i, pub, sys, frames) && i < |lists[v]| && lists[v][i].kind != NextCatalog
      ensures AskingNexts(rank, s0, v, i + 1, pub, sys, frames)
    {
      assert NextsAskedAt(rank, s0, v, i, pub, sys, frames);
      assert Remembered(urls, s0.lists[v], i, Nexts, []) by {
        assert Recorded(urls, [], Targets(urls, s0.lists[v][..i], Nexts));
      }
      PassOver(rank, s0, v, i, Nexts, pub, sys, frames, []);
    }

    lemma NextAsked(s0: State, v: nat, i: nat, pub: Id, sys: Id, frames0: seq<Frame>, child: Option<nat>,
                    frames: seq<Frame>, stuck: bool)
      requires v < |s0.depth| && v < |s0.lists| && v < |lists| && v < |depth| && i < |s0.lists[v]|
      requires Patient(s0.depth, v, frames0) && OneMore(s0.lists[v][i], frames0, child, frames)
      requires After(s0.depth, frames) == depth && stuck == (child.Some? && depth[v] > MAX_CATAL_DEPTH)
      requires SoFar(urls, s0.lists[v], i + 1, Nexts, Reduced(pub, sys), frames, lists[v])
      ensures if stuck then ConsultedHere(s0, v, Nexts, pub, sys, Nothing, true, frames)
              else Patient(s0.depth, v, frames)
    {
      if child.Some? {
        PatientSnoc(s0.depth, v, frames0, frames[|frames0|]);
        if stuck {
          assert frames[..|frames| - 1] == frames0;
          StuckConsulted(urls, s0.lists[v], i + 1, pub, sys, frames, lists[v]);
        }
      }
    }

    lemma NextFound(s0: State, v: nat, i: nat, pub: Id, sys: Id, frames0: seq<Frame>, child: Option<nat>,
                    frames: seq<Frame>, answer: Answer)
      requires v < |s0.depth| && v < |s0.lists| && v < |lists| && i < |s0.lists[v]|
      requires Patient(s0.depth, v, frames0) && OneMore(s0.lists[v][i], frames0, child, frames)
      requires InTurnHere(s0.lists[v], Nexts, pub, sys, frames) && answer == Got(frames)
      ensures ConsultedHere(s0, v, Nexts, pub, sys, answer, false, frames)
    {
      FoundConsulted(urls, s0.lists[v], Nexts, pub, sys, frames, lists[v]);
      if child.Some? {
        assert frames[..|frames| - 1] == frames0;
      } else {
        PatientLess(s0.depth, v, frames0);
      }
    }

    ghost predicate CalmTop(rank: seq<nat>, s: State, pub: Id, sys: Id) {
      Calm(Graph(rank), s, Top(rank), pub, sys)
    }

    /** What the list means for final identifiers: the entry of one file, or all catalogs of the root list in order. */
    ghost predicate Means(at: Start, rank: seq<nat>, s0: State, pub: Id, sys: Id, answer: Answer, frames: seq<Frame>) {
      var ids := Reduced(pub, sys);
      match at
      case Document(v) =>
        v < |files| && CalmAt(rank, s0, v, ids.0, ids.1) ==>
          Clean(frames) && answer == FileMeaning(Graph(rank), v, pub, sys)
      case Root =>
        CalmTop(rank, s0, ids.0, ids.1) ==>
          Clean(frames) && answer == RootMeaning(Graph(rank), s0.root, pub, sys)
    }

    /** xmlCatalogListXMLResolve: URNs are unwrapped first, and both identifiers may turn out to be one. */
    method ListXMLResolve(at: Start, pub: Id, sys: Id, ghost rank: seq<nat>)
      returns (answer: Answer, ghost frames: seq<Frame>)
      requires Valid() && (at.Document? ==> at.v < |files|)
      modifies this
      decreases Headroom(depth), Weight(NormalId(pub)) + Weight(sys), 5
      ensures Kept(old(Now()), frames)
      ensures at.Document? ==> AsOne(frames, at.v, old(lists[at.v]), Reduced(pub, sys), answer)
      ensures at.Document? && frames[0].Frame? ==> frames[0].list != []
      ensures at.Root? && (pub.Some? || sys.Some?) ==>
        && RootConsulted(urls, old(root), Reduced(pub, sys), old(depth), frames) && answer == Got(frames)
        && FirstFound(old(lists), frames, lists)
      ensures !Met(old(depth), frames) ==> depth == old(depth)
      ensures Means(at, rank, old(Now()), pub, sys, answer, frames)
      ensures at.Document? ==> SparedIfNothing(old(Now()), {}, Reduced(pub, sys).0, Reduced(pub, sys).1, answer)
      ensures answer.Resource? ==> Offered(files, Reduced(pub, sys).0, Reduced(pub, sys).1, answer.uri)
    {
      if pub.None? && sys.None? {
        if at.Document? {
          KeptRefusal(at.v, None, None);
          return Nothing, [Refused(at.v, lists[at.v], None, None)];
        }
        KeptNothing();
        return Nothing, [];
      }
      var pubID, sysID, again := ReduceOnce(pub, sys);
      if again {
        answer, frames := ListXMLResolve(at, pubID, sysID, rank);
        SameMeaning(at, rank, old(Now()), pub, sys, pubID, sysID, answer, frames);
      } else if at.Document? {
        ReducedIsFinal(pub, sys);
        answer, frames := Consult(at.v, pubID, sysID, rank);
      } else {
        ReducedIsFinal(pub, sys);
        answer, frames := AskCatalogs(pubID, sysID, rank);
      }
    }

    lemma SameMeaning(at: Start, rank: seq<nat>, s0: State, pub: Id, sys: Id,
                      pubID: Id, sysID: Id, answer: Answer, frames: seq<Frame>)
      requires (pub.Some? || sys.Some?) && (pubID.Some? || sysID.Some?) && Reduced(pub, sys) == Reduced(pubID, sysID)
      requires Means(at, rank, s0, pubID, sysID, answer, frames)
      ensures Means(at, rank, s0, pub, sys, answer, frames)
    {
    }

    /** The one entry made for file v. */
    method Consult(v: nat, pub: Id, sys: Id, ghost rank: seq<nat>) returns (answer: Answer, ghost frames: seq<Frame>)
      requires Valid() && v < |files|
      modifies this
      decreases Headroom(depth), 0, 2, 0
      ensures Kept(old(Now()), frames) && AsOne(frames, v, old(lists[v]), (pub, sys), answer)
      ensures frames[0].Frame? ==> frames[0].list != []
      ensures CalmAt(rank, old(Now()), v, pub, sys) ==>
        Clean(frames) && answer == if files[v] == [] then Nothing else Meaning(Graph(rank), v, pub, sys)
      ensures SparedIfNothing(old(Now()), {}, pub, sys, answer)
      ensures Justified(files, pub, sys, answer)
    {
      if lists[v] == [] {
        KeptRefusal(v, pub, sys);
        return Nothing, [Refused(v, [], pub, sys)];
      }
      answer, frames := XMLResolve(v, pub, sys, rank);
    }

    /** The loop over the catalogs of the root list. */
    method AskCatalogs(pub: Id, sys: Id, ghost rank: seq<nat>) returns (answer: Answer, ghost frames: seq<Frame>)
      requires Valid() && Final(pub, sys)
      modifies this
      decreases Headroom(depth), 0, 4
      ensures RootOutcome(rank, old(Now()), pub, sys, answer, frames)
    {
      ghost var s0 := Now();
      answer, frames := Nothing, [];
      var i := 0;
      RootBegin(rank, pub, sys);
      while i < |root|
        invariant answer == Nothing && AskingRoot(rank, s0, i, pub, sys, frames)
        decreases |s0.root| - i
      {
        if root[i].kind == Catalog {
          var broken;
          answer, broken, frames := AskCatalog(i, pub, sys, rank, s0, frames);
          if answer != Nothing || broken {
            return;
          }
        } else {
          RootPassOver(rank, s0, i, pub, sys, frames);
        }
        i := i + 1;
      }
      RootEnd(rank, s0, i, pub, sys, frames);
    }

    /** That loop before entry i, closed like the others. */
    ghost predicate AskingRoot(rank: seq<nat>, s0: State, i: nat, pub: Id, sys: Id, frames: seq<Frame>)
      reads this
    {
      |root| == |s0.root| && i <= |root| && forall j: nat :: j == i ==> RootAskedTo(rank, s0, j, pub, sys, frames)
    }

    ghost predicate RootAskedTo(rank: seq<nat>, s0: State, i: nat, pub: Id, sys: Id, frames: seq<Frame>)
      reads this
    {
      && Sane(urls, files, s0) && Kept(s0, frames) && Final(pub, sys) && RootInVain(rank, s0, i, pub, sys, frames)
      && FirstFound(s0.lists, frames, lists)
    }

    ghost predicate RootOutcome(rank: seq<nat>, s0: State, pub: Id, sys: Id, answer: Answer, frames: seq<Frame>)
      reads this
    {
      && Kept(s0, frames)
      && (CalmTop(rank, s0, pub, sys) ==> Clean(frames) && RootSettled(rank, s0.root, pub, sys, answer))
      && RootConsulted(urls, s0.root, (pub, sys), s0.depth, frames) && answer == Got(frames)
      && FirstFound(s0.lists, frames, lists) && Justified(files, pub, sys, answer)
    }

    lemma RootBegin(rank: seq<nat>, pub: Id, sys: Id)
      requires Valid() && Final(pub, sys)
      ensures AskingRoot(rank, Now(), 0, pub, sys, [])
    {
      KeptNothing();
    }

    lemma RootEnd(rank: seq<nat>, s0: State, i: nat, pub: Id, sys: Id, frames: seq<Frame>)
      requires AskingRoot(rank, s0, i, pub, sys, frames) && i >= |root|
      ensures RootOutcome(rank, s0, pub, sys, Nothing, frames)
    {
      assert RootAskedTo(rank, s0, i, pub, sys, frames);
      RootSoFarEnd(urls, s0.root, (pub, sys), s0.depth, frames);
      if CalmTop(rank, s0, pub, sys) {
        TargetsHaveRank(Graph(rank), s0.root, Catalogs);
        AllAsked(Graph(rank), Top(rank), s0.root, Catalogs, pub, sys);
      }
    }

    ghost predicate RootInVain(rank: seq<nat>, s0: State, i: nat, pub: Id, sys: Id, frames: seq<Frame>)
      reads this
    {
      && RootSoFar(urls, s0.root, i, (pub, sys), s0.depth, frames) && Spared(urls, s0.lists, lists, {}, pub, sys)
      && (CalmTop(rank, s0, pub, sys) ==>
            Clean(frames) && AllSilent(Graph(rank), Targets(urls, s0.root[..i], Catalogs), pub, sys))
    }

    lemma RootPassOver(rank: seq<nat>, s0: State, i: nat, pub: Id, sys: Id, frames: seq<Frame>)
      requires AskingRoot(rank, s0, i, pub, sys, frames) && i < |root| && root[i].kind != Catalog
      ensures AskingRoot(rank, s0, i + 1, pub, sys, frames)
    {
      assert RootAskedTo(rank, s0, i, pub, sys, frames);
      TargetsNext(urls, s0.root, Catalogs, i);
    }

    /** One turn of that loop; `broken` is the way out for a catalog whose counter is past the limit. */
    method AskCatalog(i: nat, pub: Id, sys: Id, ghost rank: seq<nat>, ghost s0: State, ghost frames0: seq<Frame>)
      returns (answer: Answer, broken: bool, ghost frames: seq<Frame>)
      requires AskingRoot(rank, s0, i, pub, sys, frames0) && i < |root| && root[i].kind == Catalog
      modifies this
      decreases Headroom(s0.depth), 0, 3
      ensures if answer == Nothing && !broken then AskingRoot(rank, s0, i + 1, pub, sys, frames)
              else RootOutcome(rank, s0, pub, sys, answer, frames)
    {
      ghost var s1 := Now();
      assert RootAskedTo(rank, s0, i, pub, sys, frames0);
      assert s0.root[i] == root[i];
      RootStillCalm(rank, s0, i, pub, sys, frames0);
      answer, broken, frames := ConsultCatalog(i, pub, sys, rank);
      RootTurnTold(rank, s0, i, pub, sys, frames0, s1, frames, answer, broken);
      frames := frames0 + frames;
    }

    /** What ConsultCatalog promises, seen from state s1 before it. */
    ghost predicate CatalogConsulted(rank: seq<nat>, s1: State, e: Entry, pub: Id, sys: Id, answer: Answer,
                                     broken: bool, frames: seq<Frame>)
      reads this
    {
      && Kept(s1, frames) && (broken ==> answer == Nothing)
      && EntryTold(e, pub, sys, IndexOf(urls, e.url), frames, answer)
      && broken == (answer == Nothing && frames != [] && Over(depth, frames[0]))
      && FirstFound(s1.lists, frames, lists)
      && (CalmTop(rank, s1, pub, sys) ==>
            !broken && Clean(frames) && Answers(Graph(rank), e, Catalogs, pub, sys, answer))
      && (answer == Nothing ==> Spared(urls, s1.lists, lists, {}, pub, sys))
      && Justified(files, pub, sys, answer)
    }

    lemma RootTurnTold(rank: seq<nat>, s0: State, i: nat, pub: Id, sys: Id, frames0: seq<Frame>, s1: State,
                       frames: seq<Frame>, answer: Answer, broken: bool)
      requires RootWasAskedTo(rank, s0, i, pub, sys, frames0, s1) && i < |s0.root| == |root|
      requires s0.root[i].kind == Catalog && (CalmTop(rank, s0, pub, sys) ==> CalmTop(rank, s1, pub, sys))
      requires CatalogConsulted(rank, s1, s0.root[i], pub, sys, answer, broken, frames)
      ensures if answer == Nothing && !broken then AskingRoot(rank, s0, i + 1, pub, sys, frames0 + frames)
              else RootOutcome(rank, s0, pub, sys, answer, frames0 + frames)
    {
      MovedTwice(urls, files, s0, frames0, s1, frames, Now());
      RootTurn(s0, i, pub, sys, frames0, frames, answer, broken);
      RootTurnSettled(rank, s0, i, pub, sys, answer);
      if answer == Nothing {
        SparedTwice(urls, s0.lists, s1.lists, lists, {}, pub, sys);
      }
    }

    /** RootAskedTo of state s1. */
    ghost predicate RootWasAskedTo(rank: seq<nat>, s0: State, i: nat, pub: Id, sys: Id, frames: seq<Frame>, s1: State) {
      && Sane(urls, files, s0) && Moved(urls, files, s0, frames, s1) && Final(pub, sys)
      && RootSoFar(urls, s0.root, i, (pub, sys), s0.depth, frames) && Spared(urls, s0.lists, s1.lists, {}, pub, sys)
      && (CalmTop(rank, s0, pub, sys) ==>
            Clean(frames) && AllSilent(Graph(rank), Targets(urls, s0.root[..i], Catalogs), pub, sys))
      && FirstFound(s0.lists, frames, s1.lists)
    }

    lemma RootTurnSettled(rank: seq<nat>, s0: State, i: nat, pub: Id, sys: Id, answer: Answer)
      requires i < |s0.root|
      requires CalmTop(rank, s0, pub, sys) ==>
        && AllSilent(Graph(rank), Targets(urls, s0.root[..i], Catalogs), pub, sys)
        && Answers(Graph(rank), s0.root[i], Catalogs, pub, sys, answer)
      ensures CalmTop(rank, s0, pub, sys) ==>
        if answer == Nothing then AllSilent(Graph(rank), Targets(urls, s0.root[..i + 1], Catalogs), pub, sys)
        else RootSettled(rank, s0.root, pub, sys, answer)
    {
      if CalmTop(rank, s0, pub, sys) {
        TargetsHaveRank(Graph(rank), s0.root, Catalogs);
        OneMoreAsked(Graph(rank), Top(rank), s0.root, i, Catalogs, pub, sys, answer);
      }
    }

    lemma RootTurn(s0: State, i: nat, pub: Id, sys: Id, frames0: seq<Frame>, frames: seq<Frame>, answer: Answer,
                   broken: bool)
      requires RootSoFar(urls, s0.root, i, (pub, sys), s0.depth, frames0) && i < |s0.root|
      requires s0.root[i].kind == Catalog && Final(pub, sys) && After(s0.depth, frames0 + frames) == depth
      requires EntryTold(s0.root[i], pub, sys, IndexOf(urls, s0.root[i].url), frames, answer)
      requires broken == (answer == Nothing && frames != [] && Over(depth, frames[0]))
      ensures if answer != Nothing || broken
              then
                && RootConsulted(urls, s0.root, (pub, sys), s0.depth, frames0 + frames)
                && answer == Got(frames0 + frames)
              else RootSoFar(urls, s0.root, i + 1, (pub, sys), s0.depth, frames0 + frames)
    {
      if frames == [] {
        assert frames0 + frames == frames0;
        TargetsNext(urls, s0.root, Catalogs, i);
      } else {
        assert frames == [frames[0]];
        RootAsked(urls, s0.root, i, (pub, sys), s0.depth, frames0, frames[0]);
      }
    }

    lemma RootStillCalm(rank: seq<nat>, s0: State, i: nat, pub: Id, sys: Id, frames: seq<Frame>)
      requires Kept(s0, frames) && RootInVain(rank, s0, i, pub, sys, frames)
      ensures CalmTop(rank, s0, pub, sys) ==> CalmTop(rank, Now(), pub, sys)
    {
      if CalmTop(rank, s0, pub, sys) {
        forall w: nat
          ensures CalmFile(Graph(rank), lists, Top(rank), w, pub, sys)
        {
          assert CalmFile(Graph(rank), s0.lists, Top(rank), w, pub, sys);
          assert SparedAt(urls, s0.lists, lists, {}, w, pub, sys);
        }
      }
    }

    lemma CalmCatalog(rank: seq<nat>, s: State, t: State, w: nat, pub: Id, sys: Id)
      requires w < |files| && t == s.(root := t.root)
      ensures CalmTop(rank, s, pub, sys) ==> CalmAt(rank, t, w, pub, sys) && w < |s.depth| && s.depth[w] == 0
    {
      if CalmTop(rank, s, pub, sys) {
        CalmUnderTop(Graph(rank), s, t, w, pub, sys);
      }
    }

    /** Loads catalog i of the root list and searches it. */
    method ConsultCatalog(i: nat, pub: Id, sys: Id, ghost rank: seq<nat>)
      returns (answer: Answer, broken: bool, ghost frames: seq<Frame>)
      requires Valid() && i < |root| && root[i].kind == Catalog && Final(pub, sys)
      modifies this
      decreases Headroom(depth), 0, 2, 1
      ensures CatalogConsulted(rank, old(Now()), old(root[i]), pub, sys, answer, broken, frames)
    {
      ghost var s1, e := Now(), root[i];
      answer, broken, frames := Nothing, false, [];
      var child := FetchRoot(i);
      KeptNothing();
      ghost var s2 := Now();
      if child.Some? {
        CalmCatalog(rank, s1, s2, child.value, pub, sys);
        answer, frames := Consult(child.value, pub, sys, rank);
        broken := answer == Nothing && lists[child.value] != [] && depth[child.value] > MAX_CATAL_DEPTH;
      }
      KeptMarking(s1, s2, frames);
      if CalmTop(rank, s1, pub, sys) {
        CatalogAnswers(rank, e, pub, sys, answer);
      }
    }

    ghost predicate RootSettled(rank: seq<nat>, es: seq<Entry>, pub: Id, sys: Id, answer: Answer) {
      && Ranked(Graph(rank)) && AllBelow(Graph(rank), Targets(urls, es, Catalogs), Top(rank))
      && answer == FirstAnswer(Graph(rank), Top(rank), Targets(urls, es, Catalogs), pub, sys)
    }

    /** Asking for reduced identifiers leaves them as they are. */
    lemma CatalogAnswers(rank: seq<nat>, e: Entry, pub: Id, sys: Id, answer: Answer)
      requires Ranked(Graph(rank)) && e.kind == Catalog && Final(pub, sys)
      requires var v := IndexOf(urls, e.url);
        if v.None? then answer == Nothing
        else answer == if files[v.value] == [] then Nothing else Meaning(Graph(rank), v.value, pub, sys)
      ensures Answers(Graph(rank), e, Catalogs, pub, sys, answer)
    {
    }

    method Enter(v: nat)
      requires Valid() && v < |depth| && depth[v] <= MAX_CATAL_DEPTH
      modifies `depth
      ensures Valid() && Now() == old(Now()).(depth := Raised(old(depth), v))
      ensures Headroom(depth) < old(Headroom(depth))
    {
      depth := depth[v := depth[v] + 1];
      HeadroomShrinks(old(depth), depth);
    }

    /** xmlACatalogResolve on an XML catalog: the cut marker does not leave the resolver.  The counters come
        back exactly if no frame of the call got stuck, which takes a counter past the limit; where no file
        refers back to itself they always do, and the answer is what the files mean unless an earlier call
        has marked all matching delegates of a dead end. */
    method Resolve(pub: Id, sys: Id, ghost rank: seq<nat>) returns (r: Option<string>, ghost frames: seq<Frame>)
      requires Valid()
      modifies this
      ensures Kept(old(Now()), frames) && r == Uri(Got(frames))
      ensures FirstFound(old(lists), frames, lists)
      ensures pub.Some? || sys.Some? ==> RootConsulted(urls, old(root), Reduced(pub, sys), old(depth), frames)
      ensures Targets(urls, root, Catalogs) == old(Targets(urls, root, Catalogs))
      ensures !Met(old(depth), frames) ==> depth == old(depth)
      ensures Quiet(Graph(rank), old(depth), Top(rank)) ==> depth == old(depth)
      ensures CalmTop(rank, old(Now()), Reduced(pub, sys).0, Reduced(pub, sys).1) ==>
        r == Uri(RootMeaning(Graph(rank), old(root), pub, sys))
      ensures r.Some? ==> Offered(files, Reduced(pub, sys).0, Reduced(pub, sys).1, r.value)
    {
      if pub.None? && sys.None? {
        KeptNothing();
        return None, [];
      }
      var answer;
      answer, frames := ListXMLResolve(Root, pub, sys, rank);
      AgedTargets(urls, old(root), root, Catalogs);
      if Quiet(Graph(rank), old(depth), Top(rank)) {
        RankedRestores(Graph(rank), old(depth), frames, depth);
      }
      r := if answer.Resource? then Some(answer.uri) else None;
    }

    /** xmlACatalogResolveSystem. */
    method ResolveSystem(sys: Id, ghost rank: seq<nat>) returns (r: Option<string>, ghost frames: seq<Frame>)
      requires Valid()
      modifies this
      ensures Kept(old(Now()), frames) && r == Uri(Got(frames))
      ensures sys.Some? ==> RootConsulted(urls, old(root), Reduced(None, sys), old(depth), frames)
      ensures !Met(old(depth), frames) || Quiet(Graph(rank), old(depth), Top(rank)) ==> depth == old(depth)
      ensures CalmTop(rank, old(Now()), Reduced(None, sys).0, Reduced(None, sys).1) ==>
        r == Uri(RootMeaning(Graph(rank), old(root), None, sys))
      ensures r.Some? ==> Offered(files, Reduced(None, sys).0, Reduced(None, sys).1, r.value)
    {
      r, frames := Resolve(None, sys, rank);
    }

    /** xmlACatalogResolvePublic. */
    method ResolvePublic(pub: Id, ghost rank: seq<nat>) returns (r: Option<string>, ghost frames: seq<Frame>)
      requires Valid()
      modifies this
      ensures Kept(old(Now()), frames) && r == Uri(Got(frames))
      ensures pub.Some? ==> RootConsulted(urls, old(root), Reduced(pub, None), old(depth), frames)
      ensures !Met(old(depth), frames) || Quiet(Graph(rank), old(depth), Top(rank)) ==> depth == old(depth)
      ensures CalmTop(rank, old(Now()), Reduced(pub, None).0, Reduced(pub, None).1) ==>
        r == Uri(RootMeaning(Graph(rank), old(root), pub, None))
      ensures r.Some? ==> Offered(files, Reduced(pub, None).0, Reduced(pub, None).1, r.value)
    {
      r, frames := Resolve(pub, None, rank);
    }

    /** Whatever the catalogs asked say, the answer keeps to the plan. */
    ghost predicate PlanKept(plan: Plan, answer: Answer) {
      match plan
      case Done(a) => answer == a
      case Ask(lists, p, s, cut) => if cut then answer != Nothing else lists == [] ==> answer == Nothing
    }
  }
}
