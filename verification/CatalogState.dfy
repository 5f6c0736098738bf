/** What the resolver changes while it works: entries whose file cannot be loaded are marked broken,
    and each loaded list counts the frames at work on it. */
module CatalogState {
  import opened XmlStrings
  import opened CatalogModel
  import opened CatalogMeaning
  import opened CatalogMarks
  import opened CatalogFrames
  import opened CatalogTrace

  datatype State = State(lists: seq<seq<Entry>>, root: seq<Entry>, depth: seq<nat>)

  /** The states the resolver can be in. */
  ghost predicate Sane(urls: seq<string>, files: seq<seq<Entry>>, s: State) {
    && |urls| == |files| == |s.lists| == |s.depth|
    && (forall v :: 0 <= v < |files| ==> Aged(urls, files[v], s.lists[v]))
    && (forall v :: 0 <= v < |s.depth| ==> s.depth[v] <= MAX_CATAL_DEPTH + 1)
  }

  /** Marks stay, and no counter is below where it was. */
  ghost predicate Later(urls: seq<string>, a: State, b: State) {
    && |a.lists| == |b.lists| && |a.depth| == |b.depth|
    && (forall v :: 0 <= v < |a.lists| ==> Aged(urls, a.lists[v], b.lists[v]))
    && Aged(urls, a.root, b.root)
    && (forall v :: 0 <= v < |a.depth| ==> a.depth[v] <= b.depth[v])
  }

  lemma LaterTransitive(urls: seq<string>, a: State, b: State, c: State)
    requires Later(urls, a, b) && Later(urls, b, c)
    ensures Later(urls, a, c)
  {
    forall v | 0 <= v < |a.lists|
      ensures Aged(urls, a.lists[v], c.lists[v])
    {
      AgedTransitive(urls, a.lists[v], b.lists[v], c.lists[v]);
    }
    AgedTransitive(urls, a.root, b.root, c.root);
  }

  /** How many more frames the counters let through. */
  ghost function Headroom(depth: seq<nat>): nat {
    if depth == [] then 0 else
    Headroom(depth[..|depth| - 1]) +
    if depth[|depth| - 1] <= MAX_CATAL_DEPTH then MAX_CATAL_DEPTH + 1 - depth[|depth| - 1] else 0
  }

  lemma {:induction false} HeadroomShrinks(a: seq<nat>, b: seq<nat>)
    requires |a| == |b| && forall v :: 0 <= v < |a| ==> a[v] <= b[v]
    ensures Headroom(b) <= Headroom(a)
    ensures forall v :: 0 <= v < |a| && a[v] < b[v] && a[v] <= MAX_CATAL_DEPTH ==> Headroom(b) < Headroom(a)
  {
    if a != [] {
      HeadroomShrinks(a[..|a| - 1], b[..|b| - 1]);
      forall v | 0 <= v < |a| && a[v] < b[v] && a[v] <= MAX_CATAL_DEPTH
        ensures Headroom(b) < Headroom(a)
      {
        if v < |a| - 1 {
          assert a[..|a| - 1][v] < b[..|b| - 1][v];
        }
      }
    }
  }

  /** From state a to state b: marks stay, no counter ends below where it was, the limit comes no further,
      the frames account for the counters, and each tells how it came to its answer. */
  ghost predicate Moved(urls: seq<string>, files: seq<seq<Entry>>, a: State, frames: seq<Frame>, b: State) {
    && Sane(urls, files, b) && Later(urls, a, b) && Headroom(b.depth) <= Headroom(a.depth)
    && Recounted(urls, files, a.depth, frames, b.depth)
    && Explained(urls, frames) && Dated(urls, a.lists, frames, b.lists)
  }

  lemma MovedTwice(urls: seq<string>, files: seq<seq<Entry>>, a: State, fs: seq<Frame>, b: State, gs: seq<Frame>,
                   c: State)
    requires Moved(urls, files, a, fs, b) && Moved(urls, files, b, gs, c)
    ensures Moved(urls, files, a, fs + gs, c) && (Clean(fs + gs) <==> Clean(fs) && Clean(gs))
  {
    LaterTransitive(urls, a, b, c);
    RecountedTwice(urls, files, a.depth, fs, b.depth, gs, c.depth);
    ExplainedInRow(urls, fs, gs);
    DatedTwice(urls, a, fs, b, gs, c);
  }

  lemma DatedTwice(urls: seq<string>, a: State, fs: seq<Frame>, b: State, gs: seq<Frame>, c: State)
    requires Later(urls, a, b) && Later(urls, b, c)
    requires Dated(urls, a.lists, fs, b.lists) && Dated(urls, b.lists, gs, c.lists)
    ensures Dated(urls, a.lists, fs + gs, c.lists)
  {
    DatedWider(urls, a.lists, a.lists, fs, b.lists, c.lists);
    DatedWider(urls, a.lists, b.lists, gs, c.lists, c.lists);
    DatedInRow(urls, a.lists, fs, gs, c.lists);
  }

  /** The state after a frame f that began in state a and whose work ended in state c. */
  function Left(f: Frame, c: State): State {
    if f.Refused? || f.stuck then c else c.(depth := Lowered(c.depth, f.v))
  }

  lemma FrameMoved(urls: seq<string>, files: seq<seq<Entry>>, a: State, f: Frame, c: State)
    requires f.Frame? && f.v < |a.depth| && a.depth[f.v] <= MAX_CATAL_DEPTH
    requires Moved(urls, files, a.(depth := Raised(a.depth, f.v)), f.inner, c) && ChildrenOf(urls, files, f.v, f.inner)
    requires Stops(Raised(a.depth, f.v), f) && Told(urls, f)
    requires f.v < |a.lists| && f.v < |c.lists| && f.list == a.lists[f.v] && f.left == c.lists[f.v]
    ensures c.depth[f.v] > 0 && Moved(urls, files, a, [f], Left(f, c)) && (Clean([f]) <==> !f.stuck && Clean(f.inner))
  {
    var d := Left(f, c);
    FrameKeepsCounters(a.depth, f.v, c.depth, d.depth);
    FrameRecounted(urls, files, a.depth, f, c.depth);
    ExplainedOne(urls, f);
    DatedOne(urls, a.lists, f, c.lists);
  }

  lemma RefusalMoved(urls: seq<string>, files: seq<seq<Entry>>, a: State, f: Frame)
    requires Sane(urls, files, a) && f.Refused? && RanFrame(a.depth, f) && f.v < |a.lists| && f.list == a.lists[f.v]
    ensures Moved(urls, files, a, [f], a) && Clean([f])
  {
    RefusalRecounted(urls, files, a.depth, f);
    ExplainedOne(urls, f);
    DatedOne(urls, a.lists, f, a.lists);
  }

  lemma FrameKeepsCounters(a: seq<nat>, v: nat, c: seq<nat>, d: seq<nat>)
    requires v < |a| == |c| && (forall w :: 0 <= w < |a| ==> Raised(a, v)[w] <= c[w]) && (d == c || d == Lowered(c, v))
    ensures c[v] > 0 && (forall w :: 0 <= w < |a| ==> a[w] <= d[w] <= c[w]) && Headroom(d) <= Headroom(a)
  {
    assert Raised(a, v)[v] <= c[v];
    forall w | 0 <= w < |a|
      ensures a[w] <= d[w] <= c[w]
    {
      assert Raised(a, v)[w] <= c[w];
    }
    HeadroomShrinks(a, d);
  }

  predicate Final(pub: Id, sys: Id) {
    Reduced(pub, sys) == (pub, sys)
  }

  /** No file refers back to itself, no frame is at work on a file of rank below r, and the lists of
      those files still plan for these identifiers what the files say. */
  ghost predicate Calm(g: Graph, s: State, r: nat, pub: Id, sys: Id) {
    && Quiet(g, s.depth, r) && |s.lists| == |g.files| && Final(pub, sys)
    && forall v: nat :: CalmFile(g, s.lists, r, v, pub, sys)
  }

  ghost predicate CalmFile(g: Graph, lists: seq<seq<Entry>>, r: nat, v: nat, pub: Id, sys: Id)
    requires Shaped(g) && |lists| == |g.files|
  {
    Below(g, v, r) ==> SamePlans(g.urls, g.files[v], lists[v], pub, sys)
  }

  /** Fewer files are calm as well; counters of other files and the list of catalogs do not matter. */
  lemma CalmAbove(g: Graph, a: State, r: nat, b: State, below: nat, pub: Id, sys: Id)
    requires Calm(g, a, r, pub, sys) && below <= r && b.lists == a.lists && Quiet(g, b.depth, below)
    ensures Calm(g, b, below, pub, sys)
  {
    forall v: nat
      ensures CalmFile(g, b.lists, below, v, pub, sys)
    {
      assert CalmFile(g, a.lists, r, v, pub, sys);
    }
  }

  lemma CalmOne(g: Graph, a: State, r: nat, b: State, w: nat, pub: Id, sys: Id)
    requires Calm(g, a, r, pub, sys) && Below(g, w, r) && b.lists == a.lists && b.depth == a.depth
    ensures Calm(g, b, g.rank[w] + 1, pub, sys)
  {
    QuietBelow(g, a.depth, r, g.rank[w] + 1);
    CalmAbove(g, a, r, b, g.rank[w] + 1, pub, sys);
  }

  lemma CalmUnderTop(g: Graph, a: State, b: State, w: nat, pub: Id, sys: Id)
    requires Calm(g, a, Top(g.rank), pub, sys) && w < |g.rank| && b.lists == a.lists && b.depth == a.depth
    ensures Calm(g, b, g.rank[w] + 1, pub, sys) && a.depth[w] == 0
  {
    assert QuietFile(g, a.depth, Top(g.rank), w);
    CalmOne(g, a, Top(g.rank), b, w, pub, sys);
  }

  lemma CalmBehind(g: Graph, s: State, v: nat, i: nat, w: nat, pub: Id, sys: Id)
    requires v < |g.rank| && Calm(g, s, g.rank[v], pub, sys) && i < |g.files[v]| && LeadsOn(g.files[v][i])
    requires IndexOf(g.urls, g.files[v][i].url) == Some(w)
    ensures Below(g, w, g.rank[v]) && Calm(g, s, g.rank[w] + 1, pub, sys)
  {
    assert RankedFile(g, v);
    CalmOne(g, s, g.rank[v], s, w, pub, sys);
  }

  lemma CalmHere(g: Graph, s: State, v: nat, pub: Id, sys: Id)
    requires v < |g.rank| && Calm(g, s, g.rank[v] + 1, pub, sys)
    ensures SamePlans(g.urls, g.files[v], s.lists[v], pub, sys)
  {
    assert CalmFile(g, s.lists, g.rank[v] + 1, v, pub, sys);
  }

  /** While a frame is at work on file v the files below it are calm. */
  lemma CalmRaised(g: Graph, s: State, v: nat, pub: Id, sys: Id)
    requires v < |g.rank| && Calm(g, s, g.rank[v] + 1, pub, sys)
    ensures s.depth[v] == 0 && Calm(g, s.(depth := Raised(s.depth, v)), g.rank[v], pub, sys)
  {
    var t := s.(depth := Raised(s.depth, v));
    RaisedStaysQuiet(g, s.depth, g.rank[v] + 1, v);
    CalmAbove(g, s, g.rank[v] + 1, t, g.rank[v], pub, sys);
  }

  /** It stays so while nothing is found, on files below the one at work. */
  lemma CalmAgain(g: Graph, a: State, b: State, v: nat, but: set<nat>, pub: Id, sys: Id)
    requires v < |g.rank| && Calm(g, a, g.rank[v], pub, sys) && b.depth == a.depth
    requires Spared(g.urls, a.lists, b.lists, but, pub, sys) && but <= {v}
    ensures Calm(g, b, g.rank[v], pub, sys)
  {
    forall w: nat
      ensures CalmFile(g, b.lists, g.rank[v], w, pub, sys)
    {
      assert CalmFile(g, a.lists, g.rank[v], w, pub, sys) && SparedAt(g.urls, a.lists, b.lists, but, w, pub, sys);
    }
  }

  /** Asking for one of two identifiers is calm if asking for both is. */
  lemma CalmForOne(g: Graph, s: State, r: nat, pub: Id, sys: Id)
    requires Calm(g, s, r, pub, sys)
    ensures Calm(g, s, r, pub, None) && Calm(g, s, r, None, sys)
  {
    ReducedIsFinal(pub, sys);
    forall v: nat
      ensures CalmFile(g, s.lists, r, v, pub, None) && CalmFile(g, s.lists, r, v, None, sys)
    {
      assert CalmFile(g, s.lists, r, v, pub, sys);
    }
  }

  /** A resolver that has not marked anything yet is calm for all identifiers. */
  lemma FreshIsCalm(g: Graph, s: State, r: nat, pub: Id, sys: Id)
    requires Quiet(g, s.depth, r) && s.lists == g.files
    ensures Calm(g, s, r, Reduced(pub, sys).0, Reduced(pub, sys).1)
  {
    ReducedIsFinal(pub, sys);
  }

  /** And whatever has been marked, it is calm for identifiers that lead no file into a dead end. */
  lemma AliveIsCalm(g: Graph, s: State, r: nat, pub: Id, sys: Id)
    requires Quiet(g, s.depth, r) && Sane(g.urls, g.files, s)
    requires var ids := Reduced(pub, sys); forall v :: 0 <= v < |g.files| ==>
      && (ids.0.Some? ==> !PublicDeadEnd(g.urls, g.files[v], ids.0.value))
      && (ids.1.Some? ==> !SystemDeadEnd(g.urls, g.files[v], ids.1.value))
    ensures Calm(g, s, r, Reduced(pub, sys).0, Reduced(pub, sys).1)
  {
    var ids := Reduced(pub, sys);
    ReducedIsFinal(pub, sys);
    forall v: nat | Below(g, v, r)
      ensures SamePlans(g.urls, g.files[v], s.lists[v], ids.0, ids.1)
    {
      AliveKeepsPlans(g.urls, g.files[v], s.lists[v], ids.0, ids.1);
    }
  }
}
