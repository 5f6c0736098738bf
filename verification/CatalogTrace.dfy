/** What the frames of a resolution tell of its answer, on any catalog graph: which catalogs each frame asked,
    in which order, for what, and why it stopped. */
module CatalogTrace {
  import opened XmlStrings
  import opened CatalogModel
  import opened CatalogMeaning
  import opened CatalogMarks
  import opened CatalogFrames

  // The catalogs asked in turn

  predicate Vain(fs: seq<Frame>) {
    forall i :: 0 <= i < |fs| ==> AnswerOf(fs[i]) == Nothing
  }

  /** Nothing is asked after an answer or a cut: that one is the answer. */
  predicate Tells(fs: seq<Frame>, answer: Answer) {
    answer == Got(fs) && (fs != [] ==> Vain(fs[..|fs| - 1]))
  }

  function Names(fs: seq<Frame>): seq<nat> {
    if fs == [] then [] else Names(fs[..|fs| - 1]) + [fs[|fs| - 1].v]
  }

  /** They are searched for the final form of the identifiers. */
  predicate SearchedFor(fs: seq<Frame>, ids: (Id, Id)) {
    forall i :: 0 <= i < |fs| ==> fs[i].pub == ids.0 && fs[i].sys == ids.1 && (fs[i].Frame? ==> fs[i].list != [])
  }

  /** The elements of vs in their order, where some that came before may be left out. */
  predicate WithoutRepeats(vs: seq<nat>, asked: seq<nat>) {
    if vs == [] then asked == [] else
    var front, last := vs[..|vs| - 1], vs[|vs| - 1];
    || (asked != [] && asked[|asked| - 1] == last && WithoutRepeats(front, asked[..|asked| - 1]))
    || (last in front && WithoutRepeats(front, asked))
  }

  predicate InOrder(sel: Selection, vs: seq<nat>, asked: seq<nat>) {
    if sel.Nexts? then asked == vs else WithoutRepeats(vs, asked)
  }

  /** The catalogs asked are those of the list from its start, and all of them if `whole`. */
  ghost predicate InTurn(sel: Selection, vs: seq<nat>, asked: seq<nat>, whole: bool) {
    exists n: nat :: n <= |vs| && (whole ==> n == |vs|) && InOrder(sel, vs[..n], asked)
  }

  lemma {:induction false} AskedElements(vs: seq<nat>, asked: seq<nat>)
    requires WithoutRepeats(vs, asked)
    ensures |asked| <= |vs| && forall v :: v in asked <==> v in vs
    ensures NoneTwice(vs) ==> asked == vs
  {
    if vs != [] {
      var front, last := vs[..|vs| - 1], vs[|vs| - 1];
      assert vs == front + [last];
      if asked != [] && asked[|asked| - 1] == last && WithoutRepeats(front, asked[..|asked| - 1]) {
        AskedElements(front, asked[..|asked| - 1]);
        assert asked == asked[..|asked| - 1] + [last];
      } else {
        AskedElements(front, asked);
        assert exists i :: 0 <= i < |front| && vs[i] == last;
      }
    }
  }

  // What one frame tells

  /** The loop over the selected entries of the list es. */
  ghost predicate Consulted(urls: seq<string>, es: seq<Entry>, sel: Selection, vs: seq<nat>, pub: Id, sys: Id,
                            inner: seq<Frame>, stuck: bool, left: seq<Entry>) {
    && Tells(inner, Got(inner)) && SearchedFor(inner, Reduced(pub, sys))
    && InTurn(sel, vs, Names(inner), Got(inner) == Nothing && !stuck)
    && (Got(inner) == Nothing && !stuck && (pub.Some? || sys.Some?) ==> MarkedUpTo(urls, es, |es|, sel, left))
    && (vs == [] && !sel.Nexts? ==> left == Tried(urls, es, sel))
    && (!sel.Nexts? && |es| <= MAX_DELEGATE ==> NoneTwice(Names(inner)))
  }

  predicate NoneTwice(vs: seq<nat>) {
    forall i, j :: 0 <= i < j < |vs| ==> vs[i] != vs[j]
  }

  /** A frame answers what its plan says, from the answers of the catalogs that it asked for it. */
  ghost predicate Told(urls: seq<string>, f: Frame) {
    f.Frame? ==>
      && f.plan == Planned(urls, f.list, f.pub, f.sys)
      && match f.plan
         case Done(answer) => f.inner == [] && f.answer == answer && f.left == f.list
         case Ask(vs, p, s, cut) =>
           && Consulted(urls, f.list, PlanSel(f.plan), vs, p, s, f.inner, f.stuck, f.left)
           && f.answer == if Got(f.inner) == Nothing && cut then Cut else Got(f.inner)
  }

  /** So do all frames of the tree. */
  ghost predicate Explained(urls: seq<string>, fs: seq<Frame>) {
    fs == [] ||
    (var f := fs[|fs| - 1];
     Explained(urls, fs[..|fs| - 1]) && Told(urls, f) && (f.Frame? ==> Explained(urls, f.inner)))
  }

  lemma {:induction false} ExplainedInRow(urls: seq<string>, a: seq<Frame>, b: seq<Frame>)
    requires Explained(urls, a) && Explained(urls, b)
    ensures Explained(urls, a + b)
  {
    if b == [] {
      assert a + b == a;
    } else {
      ExplainedInRow(urls, a, b[..|b| - 1]);
      assert (a + b)[..|a + b| - 1] == a + b[..|b| - 1] && (a + b)[|a + b| - 1] == b[|b| - 1];
    }
  }

  lemma ExplainedOne(urls: seq<string>, f: Frame)
    requires Told(urls, f) && (f.Frame? ==> Explained(urls, f.inner))
    ensures Explained(urls, [f])
  {
    assert [f][..|[f]| - 1] == [] && Explained(urls, []);
  }

  /** The lists that the frames found and left lie between those before and those after. */
  ghost predicate Dated(urls: seq<string>, a: seq<seq<Entry>>, fs: seq<Frame>, b: seq<seq<Entry>>) {
    fs == [] ||
    (var f := fs[|fs| - 1];
     && Dated(urls, a, fs[..|fs| - 1], b)
     && f.v < |a| && f.v < |b| && Aged(urls, a[f.v], f.list)
     && (f.Frame? ==> Aged(urls, f.left, b[f.v]) && Dated(urls, a, f.inner, b)))
  }

  lemma {:induction false} DatedWider(urls: seq<string>, a0: seq<seq<Entry>>, a: seq<seq<Entry>>, fs: seq<Frame>,
                                      b: seq<seq<Entry>>, b0: seq<seq<Entry>>)
    requires Dated(urls, a, fs, b) && |a0| == |a| && |b0| == |b|
    requires forall v :: 0 <= v < |a| ==> Aged(urls, a0[v], a[v])
    requires forall v :: 0 <= v < |b| ==> Aged(urls, b[v], b0[v])
    ensures Dated(urls, a0, fs, b0)
    decreases fs
  {
    if fs != [] {
      var f := fs[|fs| - 1];
      DatedWider(urls, a0, a, fs[..|fs| - 1], b, b0);
      AgedTransitive(urls, a0[f.v], a[f.v], f.list);
      if f.Frame? {
        AgedTransitive(urls, f.left, b[f.v], b0[f.v]);
        DatedWider(urls, a0, a, f.inner, b, b0);
      }
    }
  }

  lemma {:induction false} DatedInRow(urls: seq<string>, a: seq<seq<Entry>>, fs: seq<Frame>, gs: seq<Frame>,
                                      b: seq<seq<Entry>>)
    requires Dated(urls, a, fs, b) && Dated(urls, a, gs, b)
    ensures Dated(urls, a, fs + gs, b)
  {
    if gs == [] {
      assert fs + gs == fs;
    } else {
      DatedInRow(urls, a, fs, gs[..|gs| - 1], b);
      assert (fs + gs)[..|fs + gs| - 1] == fs + gs[..|gs| - 1] && (fs + gs)[|fs + gs| - 1] == gs[|gs| - 1];
    }
  }

  lemma DatedOne(urls: seq<string>, a: seq<seq<Entry>>, f: Frame, b: seq<seq<Entry>>)
    requires f.v < |a| && f.v < |b| && Aged(urls, a[f.v], f.list)
    requires f.Frame? ==> Aged(urls, f.left, b[f.v]) && Dated(urls, a, f.inner, b)
    ensures Dated(urls, a, [f], b)
  {
    assert [f][..|[f]| - 1] == [] && Dated(urls, a, [], b);
  }

  // The loops, turn by turn

  /** Before entry i of the list, which stood at es when the loop began and stands at `now`: what has been
      asked was asked in vain. */
  ghost predicate SoFar(urls: seq<string>, es: seq<Entry>, i: nat, sel: Selection, ids: (Id, Id), fs: seq<Frame>,
                        now: seq<Entry>) {
    && i <= |es| && !sel.Catalogs? && Vain(fs) && SearchedFor(fs, ids)
    && InOrder(sel, Targets(urls, es[..i], sel), Names(fs))
    && MarkedUpTo(urls, es, i, sel, now)
    && (Targets(urls, es, sel) == [] && !sel.Nexts? ==> now == TriedUpTo(urls, es, i, sel))
  }

  lemma SoFarBegin(urls: seq<string>, es: seq<Entry>, sel: Selection, ids: (Id, Id))
    requires !sel.Catalogs?
    ensures SoFar(urls, es, 0, sel, ids, [], es)
  {
    assert es[..0] == [];
  }

  lemma NamesSnoc(fs: seq<Frame>, f: Frame)
    ensures Names(fs + [f]) == Names(fs) + [f.v] && Got(fs + [f]) == AnswerOf(f)
    ensures Vain(fs) ==> Tells(fs + [f], AnswerOf(f))
    ensures Vain(fs) && AnswerOf(f) == Nothing ==> Vain(fs + [f])
  {
    assert (fs + [f])[..|fs|] == fs;
  }

  lemma InOrderSnoc(sel: Selection, vs: seq<nat>, asked: seq<nat>, w: nat)
    requires InOrder(sel, vs, asked)
    ensures InOrder(sel, vs + [w], asked + [w])
    ensures w in vs && !sel.Nexts? ==> InOrder(sel, vs + [w], asked)
  {
    assert (vs + [w])[..|vs|] == vs && (asked + [w])[..|asked|] == asked;
  }

  /** Entry i named a catalog, which was asked as f. */
  ghost predicate AskedAs(urls: seq<string>, es: seq<Entry>, i: nat, sel: Selection, ids: (Id, Id), f: Frame) {
    && i < |es| && Selects(sel, es[i]) && IndexOf(urls, es[i].url) == Some(f.v)
    && f.pub == ids.0 && f.sys == ids.1 && (f.Frame? ==> f.list != [])
  }

  lemma SoFarAsked(urls: seq<string>, es: seq<Entry>, i: nat, sel: Selection, ids: (Id, Id), fs: seq<Frame>,
                   before: seq<Entry>, f: Frame, now: seq<Entry>)
    requires SoFar(urls, es, i, sel, ids, fs, before) && AskedAs(urls, es, i, sel, ids, f)
    requires Aged(urls, before, now) && AnswerOf(f) == Nothing
    ensures SoFar(urls, es, i + 1, sel, ids, fs + [f], now)
  {
    TargetsNext(urls, es, sel, i);
    SomeTarget(urls, es, i, sel, f.v);
    NamesSnoc(fs, f);
    InOrderSnoc(sel, Targets(urls, es[..i], sel), Names(fs), f.v);
    MarkedOneMore(urls, es, i, sel, before, now);
    SearchedForSnoc(fs, f, ids);
  }

  lemma SearchedForSnoc(fs: seq<Frame>, f: Frame, ids: (Id, Id))
    requires SearchedFor(fs, ids) && f.pub == ids.0 && f.sys == ids.1 && (f.Frame? ==> f.list != [])
    ensures SearchedFor(fs + [f], ids)
  {
  }

  lemma SomeTarget(urls: seq<string>, es: seq<Entry>, i: nat, sel: Selection, w: nat)
    requires i < |es| && Selects(sel, es[i]) && IndexOf(urls, es[i].url) == Some(w)
    ensures Targets(urls, es[..i], sel) + [w] <= Targets(urls, es, sel) != []
  {
    TargetsNext(urls, es, sel, i);
    TargetsStart(urls, es, sel, i + 1);
  }

  /** And its answer may end the loop. */
  lemma AskedInTurn(urls: seq<string>, es: seq<Entry>, i: nat, sel: Selection, ids: (Id, Id), fs: seq<Frame>,
                    before: seq<Entry>, f: Frame)
    requires SoFar(urls, es, i, sel, ids, fs, before) && AskedAs(urls, es, i, sel, ids, f)
    ensures Tells(fs + [f], AnswerOf(f)) && SearchedFor(fs + [f], ids) && Targets(urls, es, sel) != []
    ensures InTurn(sel, Targets(urls, es, sel), Names(fs + [f]), false)
  {
    var part := Targets(urls, es[..i], sel);
    SomeTarget(urls, es, i, sel, f.v);
    NamesSnoc(fs, f);
    InOrderSnoc(sel, part, Names(fs), f.v);
    PartInTurn(sel, Targets(urls, es, sel), part + [f.v], Names(fs + [f]));
  }

  lemma PartInTurn(sel: Selection, vs: seq<nat>, part: seq<nat>, asked: seq<nat>)
    requires part <= vs && InOrder(sel, part, asked)
    ensures InTurn(sel, vs, asked, false)
  {
    assert vs[..|part|] == part;
  }

  lemma MarkedOneMore(urls: seq<string>, es: seq<Entry>, i: nat, sel: Selection, before: seq<Entry>, now: seq<Entry>)
    requires MarkedUpTo(urls, es, i, sel, before) && i < |es| && Aged(urls, before, now)
    requires MarkedAt(urls, es, i, sel, now[i])
    ensures MarkedUpTo(urls, es, i + 1, sel, now)
  {
    MarkedStays(urls, es, i, sel, before, now);
    assert forall k :: 0 <= k < i ==> MarkedAt(urls, es, k, sel, now[k]);
  }

  /** The catalog of entry i cannot be loaded. */
  lemma SoFarMissed(urls: seq<string>, es: seq<Entry>, i: nat, sel: Selection, ids: (Id, Id), fs: seq<Frame>,
                    before: seq<Entry>, now: seq<Entry>)
    requires SoFar(urls, es, i, sel, ids, fs, before) && i < |es| && before[i] == es[i] && Aged(urls, es, before)
    requires Selects(sel, es[i]) && IndexOf(urls, es[i].url).None?
    requires Targets(urls, es, sel) == [] && !sel.Nexts? ==> Tries(es, i, sel)
    requires now == before[i := es[i].(kind := BrokenCatalog)]
    ensures SoFar(urls, es, i + 1, sel, ids, fs, now)
  {
    TargetsNext(urls, es, sel, i);
    MarkedOneMore(urls, es, i, sel, before, now);
    if Targets(urls, es, sel) == [] && !sel.Nexts? {
      assert now == TriedUpTo(urls, es, i + 1, sel);
    }
  }

  /** Entry i is not selected, or its URL is remembered. */
  lemma SoFarPassed(urls: seq<string>, es: seq<Entry>, i: nat, sel: Selection, ids: (Id, Id), fs: seq<Frame>,
                    now: seq<Entry>, delegates: seq<string>)
    requires SoFar(urls, es, i, sel, ids, fs, now) && i < |es| && Aged(urls, es, now)
    requires Remembered(urls, es, i, sel, delegates) && (sel.Nexts? ==> delegates == [])
    requires Selects(sel, now[i]) ==> now[i].url in delegates
    ensures SoFar(urls, es, i + 1, sel, ids, fs, now)
  {
    TargetsNext(urls, es, sel, i);
    assert now[i] == es[i] || MarkedBroken(urls, es[i], now[i]);
    if now[i] == es[i] && Selects(sel, es[i]) {
      RememberedIsNotFirst(urls, es, i, sel, delegates);
      if IndexOf(urls, es[i].url).Some? {
        InOrderSnoc(sel, Targets(urls, es[..i], sel), Names(fs), IndexOf(urls, es[i].url).value);
      }
    }
    MarkedOneMore(urls, es, i, sel, now, now);
    if Targets(urls, es, sel) == [] && !sel.Nexts? {
      PassedTries(urls, es, i, sel, now, delegates);
    }
  }

  lemma PassedTries(urls: seq<string>, es: seq<Entry>, i: nat, sel: Selection, now: seq<Entry>, delegates: seq<string>)
    requires i < |es| && now == TriedUpTo(urls, es, i, sel) && delegates == Known(es[..i], sel)
    requires Selects(sel, now[i]) ==> now[i].url in delegates
    ensures now == TriedUpTo(urls, es, i + 1, sel)
  {
  }

  /** The URLs remembered are those of earlier matching entries, and known exactly if nothing can be loaded. */
  ghost predicate Remembered(urls: seq<string>, es: seq<Entry>, i: nat, sel: Selection, delegates: seq<string>) {
    && i <= |es| && Recorded(urls, delegates, Targets(urls, es[..i], sel))
    && (forall d :: d in delegates ==> exists k :: 0 <= k < i && Selects(sel, es[k]) && es[k].url == d)
    && (Targets(urls, es, sel) == [] && !sel.Nexts? ==> delegates == Known(es[..i], sel))
  }

  lemma RememberedIsNotFirst(urls: seq<string>, es: seq<Entry>, i: nat, sel: Selection, delegates: seq<string>)
    requires Remembered(urls, es, i, sel, delegates) && i < |es| && es[i].url in delegates
    ensures !IsFirst(es, i, sel)
  {
  }

  lemma RememberedNext(urls: seq<string>, es: seq<Entry>, i: nat, sel: Selection, delegates: seq<string>)
    requires Remembered(urls, es, i, sel, delegates) && i < |es|
    ensures var known := if Selects(sel, es[i]) && es[i].url !in delegates && |delegates| < MAX_DELEGATE
                         then delegates + [es[i].url] else delegates;
      Remembered(urls, es, i + 1, sel, known)
    ensures !(Targets(urls, es, sel) == [] && !sel.Nexts? && Selects(sel, es[i]) && es[i].url !in delegates) ==>
      Remembered(urls, es, i + 1, sel, delegates)
  {
    RecordedNext(urls, delegates, es, i, sel);
    assert es[..i + 1][..i] == es[..i];
  }

  /** In a short list all catalogs asked are remembered, so none is asked twice. */
  ghost predicate Noted(urls: seq<string>, es: seq<Entry>, i: nat, fs: seq<Frame>, delegates: seq<string>) {
    |es| <= MAX_DELEGATE ==>
      && |delegates| <= i && NoneTwice(Names(fs))
      && forall v :: v in Names(fs) ==> v < |urls| && urls[v] in delegates
  }

  lemma NotedNext(urls: seq<string>, es: seq<Entry>, i: nat, fs: seq<Frame>, delegates: seq<string>,
                  f: Frame)
    requires Noted(urls, es, i, fs, delegates) && i < |es| && es[i].url !in delegates
    ensures Noted(urls, es, i + 1, fs, if |delegates| < MAX_DELEGATE then delegates + [es[i].url] else delegates)
    ensures IndexOf(urls, es[i].url) == Some(f.v) ==>
      Noted(urls, es, i + 1, fs + [f], if |delegates| < MAX_DELEGATE then delegates + [es[i].url] else delegates)
  {
    NamesSnoc(fs, f);
  }

  lemma FoundConsulted(urls: seq<string>, es: seq<Entry>, sel: Selection, pub: Id, sys: Id, fs: seq<Frame>,
                       left: seq<Entry>)
    requires fs != [] && Tells(fs, Got(fs)) && Got(fs) != Nothing && SearchedFor(fs, Reduced(pub, sys))
    requires InTurn(sel, Targets(urls, es, sel), Names(fs), false) && Targets(urls, es, sel) != []
    requires !sel.Nexts? && |es| <= MAX_DELEGATE ==> NoneTwice(Names(fs))
    ensures Consulted(urls, es, sel, Targets(urls, es, sel), pub, sys, fs, false, left)
  {
  }

  /** The early return. */
  lemma StuckConsulted(urls: seq<string>, es: seq<Entry>, i: nat, pub: Id, sys: Id, fs: seq<Frame>, now: seq<Entry>)
    requires SoFar(urls, es, i, Nexts, Reduced(pub, sys), fs, now)
    ensures Consulted(urls, es, Nexts, Targets(urls, es, Nexts), pub, sys, fs, true, now) && Got(fs) == Nothing
  {
    TargetsStart(urls, es, Nexts, i);
    PartInTurn(Nexts, Targets(urls, es, Nexts), Targets(urls, es[..i], Nexts), Names(fs));
  }

  /** One catalog was asked. */
  predicate AsOne(fs: seq<Frame>, v: nat, list: seq<Entry>, ids: (Id, Id), answer: Answer) {
    && |fs| == 1 && fs[0].v == v && fs[0].list == list && fs[0].pub == ids.0 && fs[0].sys == ids.1
    && AnswerOf(fs[0]) == answer
  }

  /** At the end of the loop. */
  lemma SoFarEnd(urls: seq<string>, es: seq<Entry>, sel: Selection, pub: Id, sys: Id, fs: seq<Frame>, now: seq<Entry>)
    requires SoFar(urls, es, |es|, sel, Reduced(pub, sys), fs, now)
    requires !sel.Nexts? && |es| <= MAX_DELEGATE ==> NoneTwice(Names(fs))
    ensures Consulted(urls, es, sel, Targets(urls, es, sel), pub, sys, fs, false, now) && Got(fs) == Nothing
  {
    assert es[..|es|] == es;
    var vs := Targets(urls, es, sel);
    assert vs[..|vs|] == vs;
  }

  // The list of catalogs

  /** The counter of a catalog just asked is past the limit. */
  predicate Over(depth: seq<nat>, f: Frame) {
    f.list != [] && f.v < |depth| && depth[f.v] > MAX_CATAL_DEPTH
  }

  predicate NoneOver(depth: seq<nat>, fs: seq<Frame>) {
    forall n :: 0 < n <= |fs| ==> !Over(After(depth, fs[..n]), fs[n - 1])
  }

  /** The catalogs of the root list are asked in order up to the first answer or the first one that leaves its
      counter past the limit. */
  predicate RootConsulted(urls: seq<string>, es: seq<Entry>, ids: (Id, Id), depth: seq<nat>, fs: seq<Frame>) {
    && Tells(fs, Got(fs)) && SearchedFor(fs, ids) && Names(fs) <= Targets(urls, es, Catalogs)
    && (fs != [] ==> NoneOver(depth, fs[..|fs| - 1]))
    && (Got(fs) == Nothing && (fs != [] ==> !Over(After(depth, fs), fs[|fs| - 1])) ==>
          Names(fs) == Targets(urls, es, Catalogs))
  }

  /** The first catalog asked was found as it stood. */
  predicate FirstFound(a: seq<seq<Entry>>, fs: seq<Frame>, b: seq<seq<Entry>>) {
    if fs == [] then b == a else fs[0].v < |a| && fs[0].list == a[fs[0].v]
  }

  ghost predicate RootSoFar(urls: seq<string>, es: seq<Entry>, i: nat, ids: (Id, Id), depth: seq<nat>, fs: seq<Frame>) {
    && i <= |es| && Vain(fs) && SearchedFor(fs, ids) && Names(fs) == Targets(urls, es[..i], Catalogs)
    && NoneOver(depth, fs)
  }

  lemma NoneOverSnoc(depth: seq<nat>, fs: seq<Frame>, f: Frame)
    requires NoneOver(depth, fs)
    ensures !Over(After(depth, fs + [f]), f) ==> NoneOver(depth, fs + [f])
  {
    var gs := fs + [f];
    if !Over(After(depth, gs), f) {
      forall n | 0 < n <= |gs|
        ensures !Over(After(depth, gs[..n]), gs[n - 1])
      {
        assert gs[..n] == if n <= |fs| then fs[..n] else gs;
      }
    }
  }

  lemma RootAsked(urls: seq<string>, es: seq<Entry>, i: nat, ids: (Id, Id), depth: seq<nat>, fs: seq<Frame>, f: Frame)
    requires RootSoFar(urls, es, i, ids, depth, fs) && AskedAs(urls, es, i, Catalogs, ids, f)
    ensures AnswerOf(f) == Nothing && !Over(After(depth, fs + [f]), f) ==>
      RootSoFar(urls, es, i + 1, ids, depth, fs + [f])
    ensures AnswerOf(f) != Nothing || Over(After(depth, fs + [f]), f) ==>
      RootConsulted(urls, es, ids, depth, fs + [f])
    ensures Got(fs + [f]) == AnswerOf(f)
  {
    TargetsNext(urls, es, Catalogs, i);
    SomeTarget(urls, es, i, Catalogs, f.v);
    NamesSnoc(fs, f);
    NoneOverSnoc(depth, fs, f);
    assert (fs + [f])[..|fs|] == fs;
  }

  lemma RootSoFarEnd(urls: seq<string>, es: seq<Entry>, ids: (Id, Id), depth: seq<nat>, fs: seq<Frame>)
    requires RootSoFar(urls, es, |es|, ids, depth, fs)
    ensures RootConsulted(urls, es, ids, depth, fs) && Got(fs) == Nothing
  {
    assert es[..|es|] == es;
    if fs != [] {
      NoneOverLess(depth, fs);
      assert fs[..|fs|] == fs;
    }
  }

  lemma NoneOverLess(depth: seq<nat>, fs: seq<Frame>)
    requires NoneOver(depth, fs) && fs != []
    ensures NoneOver(depth, fs[..|fs| - 1])
  {
    var front := fs[..|fs| - 1];
    forall n | 0 < n <= |front|
      ensures !Over(After(depth, front[..n]), front[n - 1])
    {
      assert front[..n] == fs[..n];
    }
  }
}
