/** Reading canonical output back: the namespace declarations that were printed give
    every element the context it had in the source, and none of them is redundant. */
module C14nContexts {
  import opened XmlStrings
  import opened XmlLists
  import opened C14nModel
  import opened C14nOrder
  import opened C14nScope

  /** The bindings in scope: declarations further in override those further out. */
  function Scope(axis: seq<Ns>): Bindings {
    if axis == [] then map[]
    else if axis[0].prefix == "xml" then Scope(axis[1..])
    else Scope(axis[1..])[axis[0].prefix := axis[0].href]
  }

  lemma {:induction false} ScopeAt(axis: seq<Ns>, p: string)
    ensures p in Scope(axis) <==> SearchIndex(axis, p) < |axis|
    ensures p in Scope(axis) ==> Scope(axis)[p] == axis[SearchIndex(axis, p)].href
  {
    if axis != [] {
      ScopeAt(axis[1..], p);
    }
  }

  lemma ScopeIsSelected(axis: seq<Ns>)
    ensures Scope(axis) == Bound(Selected(axis, |axis|))
  {
    forall p
      ensures p in Scope(axis) <==> p in Bound(Selected(axis, |axis|))
      ensures p in Scope(axis) ==> Scope(axis)[p] == Bound(Selected(axis, |axis|))[p]
    {
      ScopeAt(axis, p);
      SelectedBinds(axis, |axis|, p);
    }
  }

  /** A namespace context: an empty default namespace is the same as none. */
  function Context(b: Bindings): Bindings {
    map p | p in b && !(p == "" && b[p] == "") :: b[p]
  }

  // Reading tokens back.

  datatype Reading = Reading(prefix: string, name: string, context: Bindings)

  /** The open elements with their contexts, the elements seen so far, and whether a
      declaration repeated what was already in force. */
  datatype Replay = Replay(open: seq<Reading>, seen: seq<Reading>, redundant: bool)

  const START := Replay([], [], false)

  function Top(r: Replay): Bindings {
    if r.open == [] then map[] else r.open[|r.open| - 1].context
  }

  function Declare(ctx: Bindings, ns: Ns): Bindings {
    if ns == EMPTY_DEFAULT then ctx - {""} else ctx[ns.prefix := ns.href]
  }

  function Step(r: Replay, t: Token): Replay {
    match t
    case StartTag(prefix, name) => r.(open := r.open + [Reading(prefix, name, Top(r))])
    case NsDecl(ns) =>
      if r.open == [] then r
      else
        var last := r.open[|r.open| - 1];
        var ctx := Declare(last.context, ns);
        r.(open := r.open[..|r.open| - 1] + [last.(context := ctx)], redundant := r.redundant || ctx == last.context)
    case Attribute(_) => r
    case EndOfStart => if r.open == [] then r else r.(seen := r.seen + [r.open[|r.open| - 1]])
    case Characters(_) => r
    case EndTag(_, _) => if r.open == [] then r else r.(open := r.open[..|r.open| - 1])
  }

  function Play(r: Replay, tokens: seq<Token>): Replay {
    if tokens == [] then r else Step(Play(r, tokens[..|tokens| - 1]), tokens[|tokens| - 1])
  }

  lemma {:induction false} PlayConcat(r: Replay, a: seq<Token>, b: seq<Token>)
    ensures Play(r, a + b) == Play(Play(r, a), b)
  {
    if b == [] {
      assert a + b == a;
    } else {
      PlayConcat(r, a, b[..|b| - 1]);
      assert (a + b)[..|a + b| - 1] == a + b[..|b| - 1];
    }
  }

  lemma PlayOne(r: Replay, t: Token)
    ensures Play(r, [t]) == Step(r, t)
  {
    assert [t][..0] == [];
  }

  lemma {:induction false} PlayAttrs(r: Replay, l: seq<Attr>)
    ensures Play(r, AttrTokens(l)) == r
  {
    if l != [] {
      PlayAttrs(r, l[..|l| - 1]);
      PlayConcat(r, AttrTokens(l[..|l| - 1]), [Attribute(l[|l| - 1])]);
      PlayOne(r, Attribute(l[|l| - 1]));
    }
  }

  function DeclareAll(ctx: Bindings, l: seq<Ns>): Bindings {
    if l == [] then ctx else Declare(DeclareAll(ctx, l[..|l| - 1]), l[|l| - 1])
  }

  ghost predicate SamePrefixBinding(a: Bindings, b: Bindings, p: string) {
    (p in a <==> p in b) && (p in a ==> a[p] == b[p])
  }

  /** Prefixes that are not declared keep their binding; declared ones get the declared URI. */
  lemma {:induction false} DeclareAllAt(ctx: Bindings, l: seq<Ns>, p: string)
    requires StrictlySorted(NsCompare, l)
    ensures (forall i :: 0 <= i < |l| ==> l[i].prefix != p) ==> SamePrefixBinding(DeclareAll(ctx, l), ctx, p)
    ensures forall i :: 0 <= i < |l| && l[i].prefix == p ==>
      SamePrefixBinding(DeclareAll(ctx, l), Declare(map[], l[i]), p)
  {
    if l != [] {
      var n := |l| - 1;
      DeclareAllAt(ctx, l[..n], p);
      LastPrefixIsNew(l);
      DeclareLastAt(ctx, DeclareAll(ctx, l[..n]), l[..n], l[n], p);
      assert l == l[..n] + [l[n]];
    }
  }

  lemma LastPrefixIsNew(l: seq<Ns>)
    requires l != [] && StrictlySorted(NsCompare, l)
    ensures forall i :: 0 <= i < |l| - 1 ==> l[i].prefix != l[|l| - 1].prefix
  {
    forall i | 0 <= i < |l| - 1
      ensures l[i].prefix != l[|l| - 1].prefix
    {
      assert NsCompare(l[i], l[|l| - 1]) < 0;
      StrCmpZero(l[i].prefix, l[|l| - 1].prefix);
    }
  }

  /** One more declaration; `before` is the context of those in front of it. */
  lemma DeclareLastAt(ctx: Bindings, before: Bindings, front: seq<Ns>, last: Ns, p: string)
    requires forall i :: 0 <= i < |front| ==> front[i].prefix != last.prefix
    requires (forall i :: 0 <= i < |front| ==> front[i].prefix != p) ==> SamePrefixBinding(before, ctx, p)
    requires forall i :: 0 <= i < |front| && front[i].prefix == p ==>
      SamePrefixBinding(before, Declare(map[], front[i]), p)
    ensures var l, after := front + [last], Declare(before, last);
      && ((forall i :: 0 <= i < |l| ==> l[i].prefix != p) ==> SamePrefixBinding(after, ctx, p))
      && (forall i :: 0 <= i < |l| && l[i].prefix == p ==> SamePrefixBinding(after, Declare(map[], l[i]), p))
  {
    var l := front + [last];
    assert l[|front|] == last && forall i :: 0 <= i < |front| ==> l[i] == front[i];
  }

  function WithTop(r: Replay, ctx: Bindings): Replay
    requires r.open != []
  {
    r.(open := r.open[..|r.open| - 1] + [r.open[|r.open| - 1].(context := ctx)])
  }

  /** A sorted list of declarations none of which is in force yet changes the context and is not redundant. */
  lemma {:induction false} PlayNsTokens(r: Replay, l: seq<Ns>)
    requires r.open != [] && StrictlySorted(NsCompare, l)
    requires forall i :: 0 <= i < |l| ==> !SamePrefixBinding(Top(r), Declare(map[], l[i]), l[i].prefix)
    ensures Play(r, NsTokens(l)) == WithTop(r, DeclareAll(Top(r), l))
  {
    if l == [] {
      assert WithTop(r, Top(r)) == r;
    } else {
      var n := |l| - 1;
      var ns := l[n];
      PlayNsTokens(r, l[..n]);
      PlayConcat(r, NsTokens(l[..n]), [NsDecl(ns)]);
      var mid := WithTop(r, DeclareAll(Top(r), l[..n]));
      PlayOne(mid, NsDecl(ns));
      forall i | 0 <= i < n
        ensures l[..n][i].prefix != ns.prefix
      {
        assert NsCompare(l[i], l[n]) < 0;
        StrCmpZero(l[i].prefix, ns.prefix);
      }
      DeclareAllAt(Top(r), l[..n], ns.prefix);
      assert SamePrefixBinding(Top(mid), Top(r), ns.prefix);
      assert SamePrefixBinding(Declare(Top(mid), ns), Declare(map[], ns), ns.prefix);
    }
  }

  // What an element prints.

  /** Every used declaration is the one in scope for its prefix. */
  ghost predicate FromScope(used: seq<Ns>, scope: Bindings) {
    forall i :: 0 <= i < |used| ==> used[i].prefix in scope && scope[used[i].prefix] == used[i].href
  }

  lemma {:induction false} BoundFromScope(used: seq<Ns>, scope: Bindings, p: string)
    requires FromScope(used, scope) && p in Bound(used)
    ensures p in scope && Bound(used)[p] == scope[p]
  {
    var n := |used| - 1;
    if used[n].prefix != p {
      assert forall i :: 0 <= i < n ==> used[..n][i] == used[i];
      BoundFromScope(used[..n], scope, p);
    }
  }

  /** The printed list is strictly sorted and holds exactly the used declarations not rendered yet. */
  lemma {:induction false} UnrenderedElements(out: Bindings, used: seq<Ns>, scope: Bindings)
    requires FromScope(used, scope)
    ensures StrictlySorted(NsCompare, Unrendered(out, used))
    ensures forall ns :: ns in Unrendered(out, used) <==> ns in used && !Rendered(out, ns)
  {
    if used != [] {
      var front, last := used[..|used| - 1], used[|used| - 1];
      FromScopeFront(used, scope);
      UnrenderedElements(out, front, scope);
      if last.prefix in Bound(front) {
        BoundBefore(used, scope);
        assert Rendered(out + Bound(front), last);
      } else {
        OneMorePrinted(out, front, last, Unrendered(out, front));
      }
      InSnoc(used);
    }
  }

  lemma InSnoc(used: seq<Ns>)
    requires used != []
    ensures forall ns :: ns in used <==> ns in used[..|used| - 1] || ns == used[|used| - 1]
  {
    assert used == used[..|used| - 1] + [used[|used| - 1]];
  }

  /** A prefix that was bound before is bound to the same URI, by the very declaration. */
  lemma BoundBefore(used: seq<Ns>, scope: Bindings)
    requires FromScope(used, scope) && used != []
    requires used[|used| - 1].prefix in Bound(used[..|used| - 1])
    ensures var front, last := used[..|used| - 1], used[|used| - 1];
      last in front && Bound(front)[last.prefix] == last.href
  {
    var front, last := used[..|used| - 1], used[|used| - 1];
    FromScopeFront(used, scope);
    BoundFromScope(front, scope, last.prefix);
    BoundNowhere(front, last.prefix);
    var i :| 0 <= i < |front| && front[i].prefix == last.prefix;
    assert used[i] == front[i] == last;
  }

  lemma FromScopeFront(used: seq<Ns>, scope: Bindings)
    requires FromScope(used, scope) && used != []
    ensures FromScope(used[..|used| - 1], scope)
  {
    assert forall i :: 0 <= i < |used| - 1 ==> used[..|used| - 1][i] == used[i];
  }

  lemma OneMorePrinted(out: Bindings, front: seq<Ns>, last: Ns, printed: seq<Ns>)
    requires last.prefix !in Bound(front) && StrictlySorted(NsCompare, printed)
    requires forall ns :: ns in printed <==> ns in front && !Rendered(out, ns)
    ensures Rendered(out + Bound(front), last) == Rendered(out, last) && last !in front
    ensures var list := if Rendered(out, last) then printed else Inserted(NsCompare, printed, last);
      StrictlySorted(NsCompare, list) && forall ns :: ns in list <==> (ns in front || ns == last) && !Rendered(out, ns)
  {
    PrefixIsNew(front, last, printed);
    if !Rendered(out, last) {
      InsertedStrict(NsCompare, printed, last);
      InsertedElements(NsCompare, printed, last);
    }
  }

  lemma PrefixIsNew(front: seq<Ns>, last: Ns, printed: seq<Ns>)
    requires last.prefix !in Bound(front) && forall ns :: ns in printed ==> ns in front
    ensures (forall ns :: ns in printed ==> NsCompare(ns, last) != 0) && TotalPreorder(NsCompare) && last !in front
  {
    NsCompareLaws();
    BoundNowhere(front, last.prefix);
    forall ns | ns in printed
      ensures NsCompare(ns, last) != 0
    {
      var i :| 0 <= i < |front| && front[i] == ns;
      StrCmpZero(ns.prefix, last.prefix);
    }
  }

  lemma RenderedMeans(out: Bindings, ns: Ns)
    ensures Rendered(out, ns) <==> SamePrefixBinding(Context(out), Declare(map[], ns), ns.prefix)
  {
  }

  /** Declaring the unrendered part of `used` on top of what was rendered binds all of `used`. */
  lemma DeclaringUnrendered(out: Bindings, used: seq<Ns>, scope: Bindings)
    requires FromScope(used, scope)
    ensures DeclareAll(Context(out), Unrendered(out, used)) == Context(out + Bound(used))
  {
    var l := Unrendered(out, used);
    UnrenderedElements(out, used, scope);
    forall p
      ensures SamePrefixBinding(DeclareAll(Context(out), l), Context(out + Bound(used)), p)
    {
      DeclaringAt(out, used, scope, p);
    }
    SameEverywhere(DeclareAll(Context(out), l), Context(out + Bound(used)));
  }

  lemma SameEverywhere(a: Bindings, b: Bindings)
    requires forall p :: SamePrefixBinding(a, b, p)
    ensures a == b
  {
    forall p
      ensures (p in a <==> p in b) && (p in a ==> a[p] == b[p])
    {
      assert SamePrefixBinding(a, b, p);
    }
  }

  lemma DeclaringAt(out: Bindings, used: seq<Ns>, scope: Bindings, p: string)
    requires FromScope(used, scope)
    requires StrictlySorted(NsCompare, Unrendered(out, used))
    requires forall ns :: ns in Unrendered(out, used) <==> ns in used && !Rendered(out, ns)
    ensures SamePrefixBinding(DeclareAll(Context(out), Unrendered(out, used)), Context(out + Bound(used)), p)
  {
    var l := Unrendered(out, used);
    DeclareAllAt(Context(out), l, p);
    BoundNowhere(used, p);
    if p in Bound(used) {
      BoundFromScope(used, scope, p);
      var i :| 0 <= i < |used| && used[i].prefix == p;
      var ns := used[i];
      RenderedMeans(out, ns);
      if ns in l {
        var j :| 0 <= j < |l| && l[j] == ns;
      } else {
        forall j | 0 <= j < |l|
          ensures l[j].prefix != p
        {
          assert l[j] in l;
          var k :| 0 <= k < |used| && used[k] == l[j];
        }
      }
    } else {
      forall j | 0 <= j < |l|
        ensures l[j].prefix != p
      {
        assert l[j] in l;
        var k :| 0 <= k < |used| && used[k] == l[j];
      }
    }
  }

  /** Every element and attribute namespace is the one in scope for its prefix. */
  ghost predicate ConsistentElement(node: Node, axis: seq<Ns>)
    requires node.Element?
  {
    && (node.ns.Some? && !IsXmlNs(node.ns.value) ==> NsInScope(node.ns.value, axis))
    && forall i :: 0 <= i < |node.attrs| && node.attrs[i].ns.Some? && !IsXmlNs(node.attrs[i].ns.value) ==>
         NsInScope(node.attrs[i].ns.value, axis)
  }

  ghost predicate NsInScope(ns: Ns, axis: seq<Ns>) {
    ns.prefix in Scope(axis) && Scope(axis)[ns.prefix] == ns.href
  }

  ghost predicate Consistent(node: Node, anc: seq<Node>)
    decreases node, 1
  {
    node.Element? ==>
      ConsistentElement(node, Axis([node] + anc)) && ConsistentList(node.children, [node] + anc)
  }

  ghost predicate ConsistentList(nodes: seq<Node>, anc: seq<Node>)
    decreases nodes, 0
  {
    forall i :: 0 <= i < |nodes| ==> Consistent(nodes[i], anc)
  }

  /** What an element uses comes from its scope: always in inclusive mode, by consistency in exclusive mode. */
  lemma UsedFromScope(mode: Mode, node: Node, axis: seq<Ns>)
    requires node.Element? && (mode == Exclusive10 ==> ConsistentElement(node, axis))
    ensures FromScope(Used(mode, node, axis), Scope(axis))
  {
    if mode == Canonical10 {
      SelectedFromScope(axis, |axis|);
    } else {
      ScopeAt(axis, "");
      AttrNssFromScope(node.attrs, axis);
    }
  }

  lemma {:induction false} SelectedFromScope(axis: seq<Ns>, k: nat)
    requires k <= |axis|
    ensures FromScope(Selected(axis, k), Scope(axis))
  {
    if k > 0 {
      SelectedFromScope(axis, k - 1);
      SelectedSnoc(axis, k - 1);
      ScopeAt(axis, axis[k - 1].prefix);
    }
  }

  lemma {:induction false} AttrNssFromScope(attrs: seq<Attr>, axis: seq<Ns>)
    requires forall i :: 0 <= i < |attrs| && attrs[i].ns.Some? && !IsXmlNs(attrs[i].ns.value) ==>
               NsInScope(attrs[i].ns.value, axis)
    ensures FromScope(AttrNss(attrs), Scope(axis))
  {
    if attrs != [] {
      var n := |attrs| - 1;
      assert forall i :: 0 <= i < n ==> attrs[..n][i] == attrs[i];
      AttrNssFromScope(attrs[..n], axis);
    }
  }

  /** The extra xmlns="" is never needed: a default that was rendered is still in scope. */
  lemma NoExtraDefault(mode: Mode, node: Node, axis: seq<Ns>, out: Bindings)
    requires node.Element? && (mode == Exclusive10 ==> ConsistentElement(node, axis))
    requires out.Keys <= Scope(axis).Keys
    ensures !NeedsEmptyDefault(mode, node, axis, out)
  {
    var used := Used(mode, node, axis);
    if "" in Scope(axis) {
      ScopeAt(axis, "");
      if mode == Canonical10 {
        ScopeIsSelected(axis);
        BoundNowhere(used, "");
      } else if node.ns.None? {
        assert used[0].prefix == "";
      }
    } else {
      UsedFromScope(mode, node, axis);
      if "" in Bound(used) {
        BoundFromScope(used, Scope(axis), "");
      }
    }
  }

  /** The context of the output inside an element. */
  function Inside(mode: Mode, node: Node, axis: seq<Ns>, out: Bindings): Bindings
    requires node.Element?
  {
    out + Bound(Used(mode, node, axis))
  }

  /** Reading back the start tag of a visible element. */
  lemma PlayStart(mode: Mode, node: Node, anc: seq<Node>, out: Bindings, r: Replay)
    requires node.Element? && Top(r) == Context(out)
    requires mode == Exclusive10 ==> ConsistentElement(node, Axis([node] + anc))
    requires out.Keys <= Scope(Axis([node] + anc)).Keys
    ensures var reading := Reading(TagPrefix(node), node.name, Context(Inside(mode, node, Axis([node] + anc), out)));
            Play(r, StartTokens(mode, node, anc, out)) == r.(open := r.open + [reading], seen := r.seen + [reading])
  {
    var axis := Axis([node] + anc);
    var used := Used(mode, node, axis);
    var l := Unrendered(out, used);
    NoExtraDefault(mode, node, axis, out);
    UsedFromScope(mode, node, axis);
    UnrenderedElements(out, used, Scope(axis));
    DeclaringUnrendered(out, used, Scope(axis));
    assert NsAxis(mode, node, axis, out) == l;
    NoneInForce(out, l);
    PlayTag(r, TagPrefix(node), node.name, l, AttrAxis(mode, node, anc));
  }

  lemma NoneInForce(out: Bindings, l: seq<Ns>)
    requires forall ns :: ns in l ==> !Rendered(out, ns)
    ensures forall i :: 0 <= i < |l| ==> !SamePrefixBinding(Context(out), Declare(map[], l[i]), l[i].prefix)
  {
    forall i | 0 <= i < |l|
      ensures !SamePrefixBinding(Context(out), Declare(map[], l[i]), l[i].prefix)
    {
      assert l[i] in l;
      RenderedMeans(out, l[i]);
    }
  }

  /** Reading back a start tag with declarations none of which is redundant. */
  lemma PlayTag(r: Replay, prefix: string, name: string, l: seq<Ns>, attrs: seq<Attr>)
    requires StrictlySorted(NsCompare, l)
    requires forall i :: 0 <= i < |l| ==> !SamePrefixBinding(Top(r), Declare(map[], l[i]), l[i].prefix)
    ensures var reading := Reading(prefix, name, DeclareAll(Top(r), l));
            Play(r, [StartTag(prefix, name)] + NsTokens(l) + AttrTokens(attrs) + [EndOfStart])
            == r.(open := r.open + [reading], seen := r.seen + [reading])
  {
    var open := Play(r, [StartTag(prefix, name)]);
    PlayOne(r, StartTag(prefix, name));
    PlayNsTokens(open, l);
    var declared := WithTop(open, DeclareAll(Top(open), l));
    PlayAttrs(declared, attrs);
    PlayOne(declared, EndOfStart);
    PlayParts(r, [StartTag(prefix, name)], NsTokens(l), AttrTokens(attrs), [EndOfStart]);
  }

  lemma PlayParts(r: Replay, a: seq<Token>, b: seq<Token>, c: seq<Token>, d: seq<Token>)
    ensures Play(r, a + b + c + d) == Play(Play(Play(Play(r, a), b), c), d)
  {
    PlayConcat(r, a, b);
    PlayConcat(r, a + b, c);
    PlayConcat(r, a + b + c, d);
  }

  /** The elements of the output with their contexts, in document order. */
  function Readings(mode: Mode, node: Node, anc: seq<Node>, out: Bindings): seq<Reading>
    decreases node, 1
  {
    if node.Text? then []
    else if !node.visible then ReadingsList(mode, node.children, [node] + anc, out)
    else
      var inside := Inside(mode, node, Axis([node] + anc), out);
      [Reading(TagPrefix(node), node.name, Context(inside))] + ReadingsList(mode, node.children, [node] + anc, inside)
  }

  function ReadingsList(mode: Mode, nodes: seq<Node>, anc: seq<Node>, out: Bindings): seq<Reading>
    decreases nodes, 0
  {
    if nodes == [] then []
    else ReadingsList(mode, nodes[..|nodes| - 1], anc, out) + Readings(mode, nodes[|nodes| - 1], anc, out)
  }

  lemma ScopeKeysGrow(node: Node, anc: seq<Node>)
    ensures Scope(Axis(anc)).Keys <= Scope(Axis([node] + anc)).Keys
  {
    ScopeIsSelected(Axis(anc));
    ScopeIsSelected(Axis([node] + anc));
    forall p | p in Scope(Axis(anc))
      ensures p in Scope(Axis([node] + anc))
    {
      ScopeGrows(node, anc, p);
    }
  }

  lemma InsideKeys(mode: Mode, node: Node, axis: seq<Ns>, out: Bindings)
    requires node.Element? && (mode == Exclusive10 ==> ConsistentElement(node, axis))
    requires out.Keys <= Scope(axis).Keys
    ensures Inside(mode, node, axis, out).Keys <= Scope(axis).Keys
  {
    UsedFromScope(mode, node, axis);
    forall p | p in Bound(Used(mode, node, axis))
      ensures p in Scope(axis)
    {
      BoundFromScope(Used(mode, node, axis), Scope(axis), p);
    }
  }

  lemma CanonVisible(mode: Mode, node: Node, anc: seq<Node>, out: Bindings)
    requires node.Element? && node.visible
    ensures var inside := Inside(mode, node, Axis([node] + anc), out);
            && Canon(mode, node, anc, out) ==
                 StartTokens(mode, node, anc, out) + CanonList(mode, node.children, [node] + anc, inside)
                 + [EndTag(TagPrefix(node), node.name)]
            && Readings(mode, node, anc, out) ==
                 [VisibleReading(mode, node, anc, out)] + ReadingsList(mode, node.children, [node] + anc, inside)
  {
  }

  /** Reading back an element from its three parts. */
  lemma PlayElement(r: Replay, start: seq<Token>, content: seq<Token>, end: Token, reading: Reading,
                    inner: seq<Reading>)
    requires end.EndTag?
    requires Play(r, start) == r.(open := r.open + [reading], seen := r.seen + [reading])
    requires var r1 := r.(open := r.open + [reading], seen := r.seen + [reading]);
             Play(r1, content) == r1.(seen := r1.seen + inner)
    ensures Play(r, start + content + [end]) == r.(seen := r.seen + ([reading] + inner))
  {
    var r1 := r.(open := r.open + [reading], seen := r.seen + [reading]);
    var r2 := r1.(seen := r1.seen + inner);
    PlayConcat(r, start, content);
    PlayConcat(r, start + content, [end]);
    PlayOne(r2, end);
    EndCloses(r, reading, inner, end);
  }

  lemma EndCloses(r: Replay, reading: Reading, inner: seq<Reading>, end: Token)
    requires end.EndTag?
    ensures Step(r.(open := r.open + [reading], seen := r.seen + [reading] + inner), end)
         == r.(seen := r.seen + ([reading] + inner))
  {
    assert (r.open + [reading])[..|r.open|] == r.open;
    assert r.seen + [reading] + inner == r.seen + ([reading] + inner);
  }

  function VisibleReading(mode: Mode, node: Node, anc: seq<Node>, out: Bindings): Reading
    requires node.Element?
  {
    Reading(TagPrefix(node), node.name, Context(Inside(mode, node, Axis([node] + anc), out)))
  }

  /** Reading back a whole subtree. */
  lemma {:induction false} PlayCanon(mode: Mode, node: Node, anc: seq<Node>, out: Bindings, r: Replay)
    requires Top(r) == Context(out) && out.Keys <= Scope(Axis(anc)).Keys
    requires mode == Exclusive10 ==> Consistent(node, anc)
    ensures Play(r, Canon(mode, node, anc, out)) == r.(seen := r.seen + Readings(mode, node, anc, out))
    decreases node, 1
  {
    if node.Text? {
      if node.visible {
        PlayOne(r, Characters(node.content));
      }
    } else {
      ScopeKeysGrow(node, anc);
      if !node.visible {
        PlayCanonList(mode, node.children, [node] + anc, out, r);
      } else {
        var axis := Axis([node] + anc);
        var reading := VisibleReading(mode, node, anc, out);
        var r1 := r.(open := r.open + [reading], seen := r.seen + [reading]);
        InsideKeys(mode, node, axis, out);
        PlayCanonList(mode, node.children, [node] + anc, Inside(mode, node, axis, out), r1);
        CanonVisible(mode, node, anc, out);
        PlayStart(mode, node, anc, out, r);
        PlayElement(r, StartTokens(mode, node, anc, out),
                    CanonList(mode, node.children, [node] + anc, Inside(mode, node, axis, out)),
                    EndTag(TagPrefix(node), node.name), reading,
                    ReadingsList(mode, node.children, [node] + anc, Inside(mode, node, axis, out)));
      }
    }
  }

  lemma {:induction false} PlayCanonList(mode: Mode, nodes: seq<Node>, anc: seq<Node>, out: Bindings, r: Replay)
    requires Top(r) == Context(out) && out.Keys <= Scope(Axis(anc)).Keys
    requires mode == Exclusive10 ==> ConsistentList(nodes, anc)
    ensures Play(r, CanonList(mode, nodes, anc, out)) == r.(seen := r.seen + ReadingsList(mode, nodes, anc, out))
    decreases nodes, 0
  {
    if nodes != [] {
      var n := |nodes| - 1;
      var front, last := nodes[..n], nodes[n];
      var before := ReadingsList(mode, front, anc, out);
      ListSnoc(mode, nodes, anc, out);
      ConsistentListSnoc(mode, nodes, anc);
      PlayCanonList(mode, front, anc, out, r);
      PlayCanon(mode, last, anc, out, r.(seen := r.seen + before));
      PlayTwo(r, CanonList(mode, front, anc, out), Canon(mode, last, anc, out), before, Readings(mode, last, anc, out));
    }
  }

  lemma PlayTwo(r: Replay, a: seq<Token>, b: seq<Token>, before: seq<Reading>, after: seq<Reading>)
    requires Play(r, a) == r.(seen := r.seen + before)
    requires Play(r.(seen := r.seen + before), b) == r.(seen := r.seen + before + after)
    ensures Play(r, a + b) == r.(seen := r.seen + (before + after))
  {
    PlayConcat(r, a, b);
    assert r.seen + before + after == r.seen + (before + after);
  }

  lemma ListSnoc(mode: Mode, nodes: seq<Node>, anc: seq<Node>, out: Bindings)
    requires nodes != []
    ensures var front, last := nodes[..|nodes| - 1], nodes[|nodes| - 1];
            && CanonList(mode, nodes, anc, out) == CanonList(mode, front, anc, out) + Canon(mode, last, anc, out)
            && ReadingsList(mode, nodes, anc, out) ==
                 ReadingsList(mode, front, anc, out) + Readings(mode, last, anc, out)
  {
  }

  lemma ConsistentListSnoc(mode: Mode, nodes: seq<Node>, anc: seq<Node>)
    requires nodes != [] && (mode == Exclusive10 ==> ConsistentList(nodes, anc))
    ensures mode == Exclusive10 ==>
              ConsistentList(nodes[..|nodes| - 1], anc) && Consistent(nodes[|nodes| - 1], anc)
  {
  }

  // The main results.

  /** The visible elements of the source with their namespace contexts, in document order. */
  function SourceContexts(node: Node, anc: seq<Node>): seq<Reading>
    decreases node, 1
  {
    if node.Text? then []
    else
      (if node.visible then [Reading(TagPrefix(node), node.name, Context(Scope(Axis([node] + anc))))] else [])
      + SourceContextsList(node.children, [node] + anc)
  }

  function SourceContextsList(nodes: seq<Node>, anc: seq<Node>): seq<Reading>
    decreases nodes, 0
  {
    if nodes == [] then []
    else SourceContextsList(nodes[..|nodes| - 1], anc) + SourceContexts(nodes[|nodes| - 1], anc)
  }

  /** In inclusive mode the output context inside a visible element is its source context. */
  lemma InclusiveInside(node: Node, axis: seq<Ns>, out: Bindings)
    requires node.Element? && out.Keys <= Scope(axis).Keys
    ensures Inside(Canonical10, node, axis, out) == Scope(axis)
  {
    ScopeIsSelected(axis);
  }

  lemma {:induction false} InclusiveReadings(node: Node, anc: seq<Node>, out: Bindings)
    requires out.Keys <= Scope(Axis(anc)).Keys
    ensures Readings(Canonical10, node, anc, out) == SourceContexts(node, anc)
    decreases node, 1
  {
    if node.Element? {
      var axis := Axis([node] + anc);
      ScopeKeysGrow(node, anc);
      InclusiveInside(node, axis, out);
      InclusiveReadingsList(node.children, [node] + anc, if node.visible then Scope(axis) else out);
    }
  }

  lemma {:induction false} InclusiveReadingsList(nodes: seq<Node>, anc: seq<Node>, out: Bindings)
    requires out.Keys <= Scope(Axis(anc)).Keys
    ensures ReadingsList(Canonical10, nodes, anc, out) == SourceContextsList(nodes, anc)
    decreases nodes, 0
  {
    if nodes != [] {
      InclusiveReadingsList(nodes[..|nodes| - 1], anc, out);
      InclusiveReadings(nodes[|nodes| - 1], anc, out);
    }
  }

  /** Canonical XML 1.0 preserves meaning: for every tree and every choice of visible elements,
      reading the output back gives each printed element exactly its source namespace context,
      every tag is closed, and no declaration repeats one in force. */
  lemma InclusivePreservesContexts(root: Node)
    ensures Play(START, Canon(Canonical10, root, [], map[])) == START.(seen := SourceContexts(root, []))
  {
    PlayCanon(Canonical10, root, [], map[], START);
    InclusiveReadings(root, [], map[]);
  }

  /** An element of the source with the prefixes it visibly utilizes. */
  datatype Utilization = Utilization(prefix: string, name: string, prefixes: set<string>, context: Bindings)

  function Prefixes(l: seq<Ns>): set<string> {
    set i | 0 <= i < |l| :: l[i].prefix
  }

  /** The prefixes of the element and its attributes; an element without a prefix utilizes the default
      namespace even if there is none in scope. */
  function UtilizedPrefixes(node: Node, axis: seq<Ns>): set<string>
    requires node.Element?
  {
    Prefixes(Used(Exclusive10, node, axis)) + if node.ns.None? then {""} else {}
  }

  function Utilized(node: Node, anc: seq<Node>): seq<Utilization>
    decreases node, 1
  {
    if node.Text? then []
    else
      var axis := Axis([node] + anc);
      (if node.visible then
         [Utilization(TagPrefix(node), node.name, UtilizedPrefixes(node, axis), Context(Scope(axis)))]
       else [])
      + UtilizedList(node.children, [node] + anc)
  }

  function UtilizedList(nodes: seq<Node>, anc: seq<Node>): seq<Utilization>
    decreases nodes, 0
  {
    if nodes == [] then []
    else UtilizedList(nodes[..|nodes| - 1], anc) + Utilized(nodes[|nodes| - 1], anc)
  }

  /** The output gives each utilized prefix the meaning it has in the source. */
  ghost predicate Resolves(r: Reading, u: Utilization) {
    && r.prefix == u.prefix && r.name == u.name
    && forall p :: p in u.prefixes ==> SamePrefixBinding(r.context, u.context, p)
  }

  ghost predicate AllResolve(rs: seq<Reading>, us: seq<Utilization>) {
    |rs| == |us| && forall i :: 0 <= i < |rs| ==> Resolves(rs[i], us[i])
  }

  lemma AllResolveConcat(r1: seq<Reading>, u1: seq<Utilization>, r2: seq<Reading>, u2: seq<Utilization>)
    requires AllResolve(r1, u1) && AllResolve(r2, u2)
    ensures AllResolve(r1 + r2, u1 + u2)
  {
  }

  lemma ExclusiveInside(node: Node, axis: seq<Ns>, out: Bindings, p: string)
    requires node.Element? && ConsistentElement(node, axis)
    requires p in UtilizedPrefixes(node, axis) && out.Keys <= Scope(axis).Keys
    ensures SamePrefixBinding(Context(Inside(Exclusive10, node, axis, out)), Context(Scope(axis)), p)
  {
    var used := Used(Exclusive10, node, axis);
    UsedFromScope(Exclusive10, node, axis);
    BoundNowhere(used, p);
    if p in Bound(used) {
      BoundFromScope(used, Scope(axis), p);
    } else {
      NoDefaultInScope(node, axis);
    }
  }

  lemma NoDefaultInScope(node: Node, axis: seq<Ns>)
    requires node.Element? && node.ns.None?
    ensures "" in Scope(axis) ==>
      exists i :: 0 <= i < |Used(Exclusive10, node, axis)| && Used(Exclusive10, node, axis)[i].prefix == ""
  {
    ScopeAt(axis, "");
    if "" in Scope(axis) {
      assert Used(Exclusive10, node, axis)[0].prefix == "";
    }
  }

  lemma {:induction false} ExclusiveReadings(node: Node, anc: seq<Node>, out: Bindings)
    requires Consistent(node, anc) && out.Keys <= Scope(Axis(anc)).Keys
    ensures AllResolve(Readings(Exclusive10, node, anc, out), Utilized(node, anc))
    decreases node, 1
  {
    if node.Element? {
      var axis := Axis([node] + anc);
      ScopeKeysGrow(node, anc);
      if node.visible {
        var inside := Inside(Exclusive10, node, axis, out);
        InsideKeys(Exclusive10, node, axis, out);
        forall p | p in UtilizedPrefixes(node, axis)
          ensures SamePrefixBinding(Context(inside), Context(Scope(axis)), p)
        {
          ExclusiveInside(node, axis, out, p);
        }
        ExclusiveReadingsList(node.children, [node] + anc, inside);
        AllResolveConcat(
          [Reading(TagPrefix(node), node.name, Context(inside))],
          [Utilization(TagPrefix(node), node.name, UtilizedPrefixes(node, axis), Context(Scope(axis)))],
          ReadingsList(Exclusive10, node.children, [node] + anc, inside), UtilizedList(node.children, [node] + anc));
      } else {
        ExclusiveReadingsList(node.children, [node] + anc, out);
      }
    }
  }

  lemma {:induction false} ExclusiveReadingsList(nodes: seq<Node>, anc: seq<Node>, out: Bindings)
    requires ConsistentList(nodes, anc) && out.Keys <= Scope(Axis(anc)).Keys
    ensures AllResolve(ReadingsList(Exclusive10, nodes, anc, out), UtilizedList(nodes, anc))
    decreases nodes, 0
  {
    if nodes != [] {
      var n := |nodes| - 1;
      ConsistentListSnoc(Exclusive10, nodes, anc);
      ExclusiveReadingsList(nodes[..n], anc, out);
      ExclusiveReadings(nodes[n], anc, out);
      AllResolveConcat(ReadingsList(Exclusive10, nodes[..n], anc, out), UtilizedList(nodes[..n], anc),
                       Readings(Exclusive10, nodes[n], anc, out), Utilized(nodes[n], anc));
    }
  }

  /** Exclusive canonicalization of a consistently scoped tree: every prefix an element or one of its
      attributes uses is bound in the output as in the source, an element without a prefix is in no default
      namespace that it was not in, every tag is closed, and no declaration repeats one in force. */
  lemma ExclusiveResolvesUtilizedPrefixes(root: Node)
    requires Consistent(root, [])
    ensures var r := Play(START, Canon(Exclusive10, root, [], map[]));
            r.open == [] && !r.redundant && AllResolve(r.seen, Utilized(root, []))
  {
    PlayCanon(Exclusive10, root, [], map[], START);
    ExclusiveReadings(root, [], map[]);
  }
}
