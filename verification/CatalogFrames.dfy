/** The frames of a resolution as a tree, and what they do to the depth counters. */
module CatalogFrames {
  import opened XmlStrings
  import opened CatalogModel
  import opened CatalogMeaning

  const MAX_CATAL_DEPTH := 50

  /** A catalog file v that was asked for two identifiers, with its entries at that time.  A frame of
      xmlCatalogXMLResolve has its plan, the catalogs asked in turn, the answer and the entries it left; it is
      stuck if it took the early return after a next catalog, which does not lower the counter again.  No
      frame is started past the limit or for an empty list. */
  datatype Frame =
    | Frame(v: nat, list: seq<Entry>, pub: Id, sys: Id,
            plan: Plan, inner: seq<Frame>, stuck: bool, answer: Answer, left: seq<Entry>)
    | Refused(v: nat, list: seq<Entry>, pub: Id, sys: Id)

  function AnswerOf(f: Frame): Answer {
    if f.Refused? then Nothing else f.answer
  }

  /** The answer of the catalog asked last. */
  function Got(fs: seq<Frame>): Answer {
    if fs == [] then Nothing else AnswerOf(fs[|fs| - 1])
  }

  function Raised(depth: seq<nat>, v: nat): seq<nat> {
    if v < |depth| then depth[v := depth[v] + 1] else depth
  }

  function Lowered(depth: seq<nat>, v: nat): seq<nat> {
    if v < |depth| && depth[v] > 0 then depth[v := depth[v] - 1] else depth
  }

  /** The counters after the frames. */
  function After(depth: seq<nat>, fs: seq<Frame>): (r: seq<nat>)
    ensures |r| == |depth|
    decreases fs
  {
    if fs == [] then depth else AfterFrame(After(depth, fs[..|fs| - 1]), fs[|fs| - 1])
  }

  function AfterFrame(depth: seq<nat>, f: Frame): (r: seq<nat>)
    ensures |r| == |depth|
    decreases f
  {
    if f.Refused? then depth else
    var d := After(Raised(depth, f.v), f.inner);
    if f.stuck then d else Lowered(d, f.v)
  }

  /** The guards of the source held: a frame is started exactly up to the limit, unless there is nothing to
      search or nothing to search for. */
  predicate Ran(depth: seq<nat>, fs: seq<Frame>)
    decreases fs
  {
    fs == [] || (Ran(depth, fs[..|fs| - 1]) && RanFrame(After(depth, fs[..|fs| - 1]), fs[|fs| - 1]))
  }

  predicate RanFrame(depth: seq<nat>, f: Frame)
    decreases f
  {
    && f.v < |depth|
    && if f.Refused? then depth[f.v] > MAX_CATAL_DEPTH || f.list == [] || (f.pub.None? && f.sys.None?)
       else depth[f.v] <= MAX_CATAL_DEPTH && Ran(Raised(depth, f.v), f.inner) && Stops(Raised(depth, f.v), f)
  }

  /** A frame stops asking next catalogs exactly when one has found nothing and left the counter past the limit. */
  predicate Stops(depth: seq<nat>, f: Frame)
    requires f.Frame? && f.v < |depth|
  {
    HaltsAt(depth, f.v, f.plan.Ask? && !f.plan.cut, f.inner, f.stuck)
  }

  predicate HaltsAt(depth: seq<nat>, v: nat, nexts: bool, inner: seq<Frame>, stuck: bool)
    requires v < |depth|
  {
    && (nexts && inner != [] ==> Patient(depth, v, inner[..|inner| - 1]))
    && (stuck <==> nexts && inner != [] && Got(inner) == Nothing && After(depth, inner)[v] > MAX_CATAL_DEPTH)
  }

  /** After each of the catalogs asked the counter of v was within the limit. */
  predicate Patient(depth: seq<nat>, v: nat, fs: seq<Frame>)
    requires v < |depth|
  {
    forall n :: 0 < n <= |fs| ==> After(depth, fs[..n])[v] <= MAX_CATAL_DEPTH
  }

  lemma PatientSnoc(depth: seq<nat>, v: nat, fs: seq<Frame>, f: Frame)
    requires v < |depth| && Patient(depth, v, fs)
    ensures After(depth, fs + [f])[v] <= MAX_CATAL_DEPTH ==> Patient(depth, v, fs + [f])
  {
    var gs := fs + [f];
    if After(depth, gs)[v] <= MAX_CATAL_DEPTH {
      forall n | 0 < n <= |gs|
        ensures After(depth, gs[..n])[v] <= MAX_CATAL_DEPTH
      {
        assert gs[..n] == if n <= |fs| then fs[..n] else gs;
      }
    }
  }

  /** Some counter was raised past the limit. */
  predicate Met(depth: seq<nat>, fs: seq<Frame>)
    decreases fs
  {
    fs != [] && (Met(depth, fs[..|fs| - 1]) || MetByFrame(After(depth, fs[..|fs| - 1]), fs[|fs| - 1]))
  }

  predicate MetByFrame(depth: seq<nat>, f: Frame)
    decreases f
  {
    f.Frame? && ((f.v < |depth| && depth[f.v] + 1 > MAX_CATAL_DEPTH) || Met(Raised(depth, f.v), f.inner))
  }

  /** No frame got stuck. */
  predicate Clean(fs: seq<Frame>) {
    fs == [] ||
    (var f := fs[|fs| - 1];
     Clean(fs[..|fs| - 1]) && (f.Frame? ==> !f.stuck && Clean(f.inner)))
  }

  ghost predicate LeadsTo(urls: seq<string>, files: seq<seq<Entry>>, v: nat, w: nat) {
    v < |files| && exists k :: 0 <= k < |files[v]| && LeadsOn(files[v][k]) && IndexOf(urls, files[v][k].url) == Some(w)
  }

  /** Frames started from file v are on files that v leads to. */
  ghost predicate ChildrenOf(urls: seq<string>, files: seq<seq<Entry>>, v: nat, fs: seq<Frame>) {
    forall i :: 0 <= i < |fs| ==> LeadsTo(urls, files, v, fs[i].v)
  }

  /** Frames follow the references between the files. */
  ghost predicate Traced(urls: seq<string>, files: seq<seq<Entry>>, fs: seq<Frame>) {
    fs == [] ||
    (var f := fs[|fs| - 1];
     && Traced(urls, files, fs[..|fs| - 1])
     && (f.Frame? ==> ChildrenOf(urls, files, f.v, f.inner) && Traced(urls, files, f.inner)))
  }

  lemma {:induction false} InRow(urls: seq<string>, files: seq<seq<Entry>>, depth: seq<nat>, a: seq<Frame>,
                                 b: seq<Frame>)
    ensures After(depth, a + b) == After(After(depth, a), b)
    ensures Ran(depth, a + b) <==> Ran(depth, a) && Ran(After(depth, a), b)
    ensures Met(depth, a + b) <==> Met(depth, a) || Met(After(depth, a), b)
    ensures Clean(a + b) <==> Clean(a) && Clean(b)
    ensures Traced(urls, files, a + b) <==> Traced(urls, files, a) && Traced(urls, files, b)
  {
    if b == [] {
      assert a + b == a;
    } else {
      var front := b[..|b| - 1];
      InRow(urls, files, depth, a, front);
      assert (a + b)[..|a + b| - 1] == a + front && (a + b)[|a + b| - 1] == b[|b| - 1];
    }
  }

  /** No counter ends below its start, and all are back where they were exactly if no frame got stuck. */
  lemma {:induction false} RestoredIff(depth: seq<nat>, fs: seq<Frame>)
    requires Ran(depth, fs)
    ensures forall w :: 0 <= w < |depth| ==> depth[w] <= After(depth, fs)[w]
    ensures After(depth, fs) == depth <==> Clean(fs)
    decreases fs
  {
    if fs != [] {
      var front, f := fs[..|fs| - 1], fs[|fs| - 1];
      var d := After(depth, front);
      RestoredIff(depth, front);
      if f.Frame? {
        RestoredIff(Raised(d, f.v), f.inner);
        FrameRestoredIff(d, f);
      }
      if After(depth, fs) == depth {
        assert d == depth by {
          assert forall w :: 0 <= w < |depth| ==> depth[w] <= d[w] <= AfterFrame(d, f)[w];
        }
      }
    }
  }

  lemma FrameRestoredIff(d: seq<nat>, f: Frame)
    requires f.Frame? && RanFrame(d, f)
    requires var u := Raised(d, f.v); var a := After(u, f.inner);
      (forall w :: 0 <= w < |u| ==> u[w] <= a[w]) && (a == u <==> Clean(f.inner))
    ensures forall w :: 0 <= w < |d| ==> d[w] <= AfterFrame(d, f)[w]
    ensures AfterFrame(d, f) == d <==> !f.stuck && Clean(f.inner)
  {
    var u := Raised(d, f.v);
    var a := After(u, f.inner);
    assert a[f.v] >= d[f.v] + 1;
    forall w | 0 <= w < |d|
      ensures d[w] <= AfterFrame(d, f)[w]
    {
      assert u[w] <= a[w];
    }
    if !f.stuck && AfterFrame(d, f) == d {
      assert forall w :: 0 <= w < |d| ==> a[w] == u[w];
    }
  }

  /** A frame gets stuck only when the limit is met; so without that all counters come back. */
  lemma {:induction false} RestoredUnlessMet(depth: seq<nat>, fs: seq<Frame>)
    requires Ran(depth, fs) && !Met(depth, fs)
    ensures Clean(fs) && After(depth, fs) == depth
    decreases fs
  {
    if fs != [] {
      var front, f := fs[..|fs| - 1], fs[|fs| - 1];
      RestoredUnlessMet(depth, front);
      if f.Frame? {
        RestoredUnlessMet(Raised(depth, f.v), f.inner);
      }
    }
  }

  /** The counters of files of rank below r are at zero. */
  ghost predicate Quiet(g: Graph, depth: seq<nat>, r: nat) {
    Ranked(g) && |depth| == |g.files| && forall v: nat :: QuietFile(g, depth, r, v)
  }

  ghost predicate QuietFile(g: Graph, depth: seq<nat>, r: nat, v: nat)
    requires Shaped(g) && |depth| == |g.files|
  {
    Below(g, v, r) ==> depth[v] == 0
  }

  lemma QuietBelow(g: Graph, depth: seq<nat>, r: nat, below: nat)
    requires Quiet(g, depth, r) && below <= r
    ensures Quiet(g, depth, below)
  {
    forall v: nat
      ensures QuietFile(g, depth, below, v)
    {
      assert QuietFile(g, depth, r, v);
    }
  }

  ghost predicate FramesBelow(g: Graph, fs: seq<Frame>, r: nat)
    requires Shaped(g)
  {
    forall i :: 0 <= i < |fs| ==> Below(g, fs[i].v, r)
  }

  /** If no file refers back to itself the limit is never met. */
  lemma {:induction false} RankedNeverMeets(g: Graph, depth: seq<nat>, r: nat, fs: seq<Frame>)
    requires Quiet(g, depth, r) && Ran(depth, fs) && Traced(g.urls, g.files, fs) && FramesBelow(g, fs, r)
    ensures !Met(depth, fs) && Clean(fs) && After(depth, fs) == depth
    decreases fs
  {
    if fs != [] {
      var front, f := fs[..|fs| - 1], fs[|fs| - 1];
      RankedNeverMeets(g, depth, r, front);
      assert Below(g, f.v, r);
      if f.Frame? {
        RaisedStaysQuiet(g, depth, r, f.v);
        ChildrenAreBelow(g, f.v, f.inner);
        RankedNeverMeets(g, Raised(depth, f.v), g.rank[f.v], f.inner);
      }
      RestoredUnlessMet(depth, fs);
    }
  }

  lemma RaisedStaysQuiet(g: Graph, depth: seq<nat>, r: nat, v: nat)
    requires Quiet(g, depth, r) && Below(g, v, r)
    ensures depth[v] == 0 && Quiet(g, Raised(depth, v), g.rank[v])
  {
    assert QuietFile(g, depth, r, v);
    forall w: nat
      ensures QuietFile(g, Raised(depth, v), g.rank[v], w)
    {
      assert QuietFile(g, depth, r, w);
    }
  }

  lemma ChildrenAreBelow(g: Graph, v: nat, fs: seq<Frame>)
    requires Ranked(g) && ChildrenOf(g.urls, g.files, v, fs) && v < |g.rank|
    ensures FramesBelow(g, fs, g.rank[v])
  {
    assert RankedFile(g, v);
    forall i | 0 <= i < |fs|
      ensures Below(g, fs[i].v, g.rank[v])
    {
      assert LeadsTo(g.urls, g.files, v, fs[i].v);
    }
  }

  // What the resolver keeps track of

  /** The frames took the counters from a to b, along the references between the files; the counters are
      back exactly if no frame got stuck, which none does unless the limit is met. */
  ghost predicate Recounted(urls: seq<string>, files: seq<seq<Entry>>, a: seq<nat>, fs: seq<Frame>, b: seq<nat>) {
    && b == After(a, fs) && Ran(a, fs) && Traced(urls, files, fs)
    && (Clean(fs) <==> b == a)
    && (Met(a, fs) || Clean(fs))
  }

  lemma Recount(urls: seq<string>, files: seq<seq<Entry>>, a: seq<nat>, fs: seq<Frame>)
    requires Ran(a, fs) && Traced(urls, files, fs)
    ensures Recounted(urls, files, a, fs, After(a, fs))
  {
    RestoredIff(a, fs);
    if !Met(a, fs) {
      RestoredUnlessMet(a, fs);
    }
  }

  lemma RecountedTwice(urls: seq<string>, files: seq<seq<Entry>>, a: seq<nat>, fs: seq<Frame>, b: seq<nat>,
               gs: seq<Frame>, c: seq<nat>)
    requires Recounted(urls, files, a, fs, b) && Recounted(urls, files, b, gs, c)
    ensures Recounted(urls, files, a, fs + gs, c)
    ensures Clean(fs + gs) <==> Clean(fs) && Clean(gs)
  {
    InRow(urls, files, a, fs, gs);
    Recount(urls, files, a, fs + gs);
  }

  lemma FrameRecounted(urls: seq<string>, files: seq<seq<Entry>>, a: seq<nat>, f: Frame, b: seq<nat>)
    requires f.Frame? && f.v < |a| && a[f.v] <= MAX_CATAL_DEPTH && Recounted(urls, files, Raised(a, f.v), f.inner, b)
    requires ChildrenOf(urls, files, f.v, f.inner) && Stops(Raised(a, f.v), f)
    ensures Recounted(urls, files, a, [f], if f.stuck then b else Lowered(b, f.v))
    ensures Clean([f]) <==> !f.stuck && Clean(f.inner)
  {
    assert [f][..|[f]| - 1] == [] && After(a, []) == a && RanFrame(a, f);
    Recount(urls, files, a, [f]);
  }

  lemma PatientLess(depth: seq<nat>, v: nat, fs: seq<Frame>)
    requires v < |depth| && Patient(depth, v, fs) && fs != []
    ensures Patient(depth, v, fs[..|fs| - 1])
  {
    var front := fs[..|fs| - 1];
    forall n | 0 < n <= |front|
      ensures After(depth, front[..n])[v] <= MAX_CATAL_DEPTH
    {
      assert front[..n] == fs[..n];
    }
  }

  lemma PatientHalts(depth: seq<nat>, v: nat, fs: seq<Frame>)
    requires v < |depth| && Patient(depth, v, fs) && Got(fs) == Nothing
    ensures HaltsAt(depth, v, true, fs, false)
  {
    if fs != [] {
      PatientLess(depth, v, fs);
      assert fs[..|fs|] == fs;
    }
  }

  lemma RefusalRecounted(urls: seq<string>, files: seq<seq<Entry>>, a: seq<nat>, f: Frame)
    requires f.Refused? && RanFrame(a, f)
    ensures Recounted(urls, files, a, [f], a) && Clean([f])
  {
    assert [f][..|[f]| - 1] == [] && After(a, []) == a;
    Recount(urls, files, a, [f]);
  }

  lemma {:induction false} FramesInRange(depth: seq<nat>, fs: seq<Frame>)
    requires Ran(depth, fs)
    ensures forall i :: 0 <= i < |fs| ==> fs[i].v < |depth|
  {
    if fs != [] {
      FramesInRange(depth, fs[..|fs| - 1]);
    }
  }

  /** Where no file refers back to itself, a resolution brings all counters back. */
  lemma RankedRestores(g: Graph, a: seq<nat>, fs: seq<Frame>, b: seq<nat>)
    requires Quiet(g, a, Top(g.rank)) && Recounted(g.urls, g.files, a, fs, b)
    ensures b == a && !Met(a, fs)
  {
    FramesInRange(a, fs);
    RankedNeverMeets(g, a, Top(g.rank), fs);
  }
}
