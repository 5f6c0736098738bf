/** The canonical form does not depend on the order in which an element's
    namespace declarations and attributes were written. */
module C14nShuffle {
  import opened XmlStrings
  import opened XmlLists
  import opened C14nModel
  import opened C14nOrder
  import opened C14nContexts

  ghost predicate DistinctDecls(l: seq<Ns>) {
    forall i, j :: 0 <= i < j < |l| ==> l[i].prefix != l[j].prefix
  }

  /** The same element up to the order of its declarations and attributes; its content is not compared. */
  ghost predicate Shuffled(a: Node, b: Node) {
    if a.Text? then a == b
    else
      && b.Element? && a.name == b.name && a.ns == b.ns && a.visible == b.visible
      && multiset(a.nsDef) == multiset(b.nsDef) && DistinctDecls(a.nsDef) && DistinctDecls(b.nsDef)
      && multiset(a.attrs) == multiset(b.attrs) && DistinctAttrs(a.attrs) && DistinctAttrs(b.attrs)
  }

  ghost predicate ShuffledTree(a: Node, b: Node)
    decreases a, 1
  {
    Shuffled(a, b) && (a.Element? ==> ShuffledTrees(a.children, b.children))
  }

  ghost predicate ShuffledTrees(a: seq<Node>, b: seq<Node>)
    decreases a, 0
  {
    |a| == |b| && forall i :: 0 <= i < |a| ==> ShuffledTree(a[i], b[i])
  }

  ghost predicate ShuffledPath(p: seq<Node>, q: seq<Node>) {
    |p| == |q| && forall i :: 0 <= i < |p| ==> Shuffled(p[i], q[i])
  }

  lemma SameMembers<T>(a: seq<T>, b: seq<T>)
    requires multiset(a) == multiset(b)
    ensures forall x :: x in a <==> x in b
  {
    forall x
      ensures x in a <==> x in b
    {
      assert x in a <==> multiset(a)[x] > 0;
      assert x in b <==> multiset(b)[x] > 0;
    }
  }

  // The scope.

  lemma {:induction false} ScopeConcat(a: seq<Ns>, b: seq<Ns>)
    ensures Scope(a + b) == Scope(b) + Scope(a)
  {
    if a == [] {
      assert a + b == b;
    } else {
      ScopeConcat(a[1..], b);
      assert (a + b)[1..] == a[1..] + b;
    }
  }

  lemma {:induction false} ScopeOfDecls(l: seq<Ns>, ns: Ns)
    requires DistinctDecls(l)
    ensures ns in l && ns.prefix != "xml" <==> ns.prefix in Scope(l) && Scope(l)[ns.prefix] == ns.href
  {
    ScopeAt(l, ns.prefix);
    if ns in l {
      var i :| 0 <= i < |l| && l[i] == ns;
    }
  }

  lemma ScopeOfShuffledDecls(a: seq<Ns>, b: seq<Ns>)
    requires multiset(a) == multiset(b) && DistinctDecls(a) && DistinctDecls(b)
    ensures Scope(a) == Scope(b)
  {
    SameMembers(a, b);
    forall p
      ensures SamePrefixBinding(Scope(a), Scope(b), p)
    {
      if p in Scope(a) {
        ScopeOfDecls(a, Ns(p, Scope(a)[p]));
        ScopeOfDecls(b, Ns(p, Scope(a)[p]));
      } else if p in Scope(b) {
        ScopeOfDecls(a, Ns(p, Scope(b)[p]));
        ScopeOfDecls(b, Ns(p, Scope(b)[p]));
      }
    }
    SameEverywhere(Scope(a), Scope(b));
  }

  lemma {:induction false} ScopeOfShuffledPath(p: seq<Node>, q: seq<Node>)
    requires ShuffledPath(p, q)
    ensures Scope(Axis(p)) == Scope(Axis(q))
  {
    if p != [] {
      var n := |p| - 1;
      ScopeOfShuffledPath(p[..n], q[..n]);
      ScopeConcat(Axis(p[..n]), Decls(p[n]));
      ScopeConcat(Axis(q[..n]), Decls(q[n]));
      assert Shuffled(p[n], q[n]);
      ScopeOfShuffledDecls(Decls(p[n]), Decls(q[n]));
    }
  }

  // The namespace axis.

  lemma SelectedElements(axis: seq<Ns>, ns: Ns)
    ensures ns in Selected(axis, |axis|) <==> NsInScope(ns, axis)
  {
    var used := Selected(axis, |axis|);
    ScopeIsSelected(axis);
    SelectedFromScope(axis, |axis|);
    BoundNowhere(used, ns.prefix);
    if ns in used {
      var i :| 0 <= i < |used| && used[i] == ns;
    }
    if NsInScope(ns, axis) {
      var i :| 0 <= i < |used| && used[i].prefix == ns.prefix;
      assert used[i] == ns;
    }
  }

  lemma {:induction false} AttrNssElements(attrs: seq<Attr>, ns: Ns)
    ensures ns in AttrNss(attrs) <==> !IsXmlNs(ns) && exists a :: a in attrs && a.ns.Some? && a.ns.value == ns
  {
    if attrs != [] {
      var front, last := attrs[..|attrs| - 1], attrs[|attrs| - 1];
      AttrNssElements(front, ns);
      assert attrs == front + [last];
      assert forall a :: a in attrs <==> a in front || a == last;
    }
  }

  lemma ElementNsByScope(node: Node, axis: seq<Ns>)
    requires node.Element?
    ensures ElementNs(node, axis) ==
      if node.ns.Some? then (if IsXmlNs(node.ns.value) then [] else [node.ns.value])
      else if "" in Scope(axis) then [Ns("", Scope(axis)[""])] else []
  {
    ScopeAt(axis, "");
  }

  lemma UsedElements(mode: Mode, a: Node, b: Node, axisA: seq<Ns>, axisB: seq<Ns>)
    requires a.Element? && Shuffled(a, b) && Scope(axisA) == Scope(axisB)
    ensures forall ns :: ns in Used(mode, a, axisA) <==> ns in Used(mode, b, axisB)
  {
    ElementNsByScope(a, axisA);
    ElementNsByScope(b, axisB);
    SameMembers(a.attrs, b.attrs);
    forall ns
      ensures ns in Used(mode, a, axisA) <==> ns in Used(mode, b, axisB)
    {
      if mode == Canonical10 {
        SelectedElements(axisA, ns);
        SelectedElements(axisB, ns);
      } else {
        AttrNssElements(a.attrs, ns);
        AttrNssElements(b.attrs, ns);
      }
    }
  }

  lemma BoundOfSameElements(u: seq<Ns>, v: seq<Ns>, scope: Bindings)
    requires FromScope(u, scope) && FromScope(v, scope) && forall ns :: ns in u <==> ns in v
    ensures Bound(u) == Bound(v)
  {
    forall p
      ensures SamePrefixBinding(Bound(u), Bound(v), p)
    {
      BoundNowhere(u, p);
      BoundNowhere(v, p);
      if i :| 0 <= i < |u| && u[i].prefix == p { assert u[i] in v; BoundFromScope(u, scope, p); }
      if i :| 0 <= i < |v| && v[i].prefix == p { assert v[i] in u; BoundFromScope(v, scope, p); }
    }
    SameEverywhere(Bound(u), Bound(v));
  }

  lemma UnrenderedOfSameElements(out: Bindings, u: seq<Ns>, v: seq<Ns>, scope: Bindings)
    requires FromScope(u, scope) && FromScope(v, scope) && forall ns :: ns in u <==> ns in v
    ensures Unrendered(out, u) == Unrendered(out, v)
  {
    NsCompareLaws();
    UnrenderedElements(out, u, scope);
    UnrenderedElements(out, v, scope);
    StrictlySortedUnique(NsCompare, Unrendered(out, u), Unrendered(out, v));
  }

  ghost predicate ConsistentWhenExclusive(mode: Mode, node: Node, axis: seq<Ns>)
    requires node.Element?
  {
    mode == Exclusive10 ==> ConsistentElement(node, axis)
  }

  lemma ShuffledConsistent(mode: Mode, a: Node, b: Node, axisA: seq<Ns>, axisB: seq<Ns>)
    requires a.Element? && Shuffled(a, b) && Scope(axisA) == Scope(axisB) && ConsistentWhenExclusive(mode, a, axisA)
    ensures ConsistentWhenExclusive(mode, b, axisB)
  {
    SameMembers(a.attrs, b.attrs);
    forall i | 0 <= i < |b.attrs|
      ensures exists j :: 0 <= j < |a.attrs| && a.attrs[j] == b.attrs[i]
    {
      assert b.attrs[i] in a.attrs;
    }
  }

  lemma NsAxisOfShuffled(mode: Mode, a: Node, b: Node, axisA: seq<Ns>, axisB: seq<Ns>, out: Bindings)
    requires a.Element? && Shuffled(a, b) && Scope(axisA) == Scope(axisB) && ConsistentWhenExclusive(mode, a, axisA)
    requires out.Keys <= Scope(axisA).Keys
    ensures NsAxis(mode, a, axisA, out) == NsAxis(mode, b, axisB, out)
    ensures Inside(mode, a, axisA, out) == Inside(mode, b, axisB, out)
  {
    ShuffledConsistent(mode, a, b, axisA, axisB);
    NoExtraDefault(mode, a, axisA, out);
    NoExtraDefault(mode, b, axisB, out);
    UsedFromScope(mode, a, axisA);
    UsedFromScope(mode, b, axisB);
    UsedElements(mode, a, b, axisA, axisB);
    BoundOfSameElements(Used(mode, a, axisA), Used(mode, b, axisB), Scope(axisA));
    UnrenderedOfSameElements(out, Used(mode, a, axisA), Used(mode, b, axisB), Scope(axisA));
  }

  // The attribute axis.

  lemma OwnAttrsOfShuffled(a: seq<Attr>, b: seq<Attr>)
    requires multiset(a) == multiset(b) && DistinctAttrs(a) && DistinctAttrs(b)
    ensures OwnAttrs(a) == OwnAttrs(b) && StrictlySorted(AttrCompare, OwnAttrs(a))
  {
    SameMembers(a, b);
    OwnAttrsSorted(a);
    OwnAttrsSorted(b);
    AttrCompareLaws();
    StrictlySortedUnique(AttrCompare, OwnAttrs(a), OwnAttrs(b));
  }

  lemma XmlNamesOfShuffled(a: seq<Attr>, b: seq<Attr>, name: (Option<string>, string))
    requires multiset(a) == multiset(b) && HasXmlName(a, name)
    ensures HasXmlName(b, name)
  {
    SameMembers(a, b);
    var i :| 0 <= i < |a| && IsXmlAttr(a[i]) && ExpandedName(a[i]) == name;
    assert a[i] in b;
    var j :| 0 <= j < |b| && b[j] == a[i];
  }

  lemma AttrsOfShuffled(a: Node, b: Node)
    requires Shuffled(a, b)
    ensures multiset(Attrs(a)) == multiset(Attrs(b)) && DistinctAttrs(Attrs(a)) && DistinctAttrs(Attrs(b))
  {
  }

  lemma NearestOfShuffled(own: seq<Attr>, p: seq<Node>, q: seq<Node>, a: Attr)
    requires ShuffledPath(p, q) && NearestXmlAttr(own, p, a)
    ensures NearestXmlAttr(own, q, a)
  {
    var k :| 0 <= k < |p| && NearestAt(own, p, k, a);
    AttrsOfShuffled(p[k], q[k]);
    SameMembers(Attrs(p[k]), Attrs(q[k]));
    forall j | 0 <= j < k
      ensures !HasXmlName(Attrs(q[j]), ExpandedName(a))
    {
      AttrsOfShuffled(p[j], q[j]);
      if HasXmlName(Attrs(q[j]), ExpandedName(a)) {
        XmlNamesOfShuffled(Attrs(q[j]), Attrs(p[j]), ExpandedName(a));
      }
    }
    assert NearestAt(own, q, k, a);
  }

  lemma ShuffledPathFlip(p: seq<Node>, q: seq<Node>)
    requires ShuffledPath(p, q)
    ensures ShuffledPath(q, p)
  {
    forall i | 0 <= i < |p|
      ensures Shuffled(q[i], p[i])
    {
      assert Shuffled(p[i], q[i]);
    }
  }

  lemma ImportsOfShuffled(own: seq<Attr>, p: seq<Node>, q: seq<Node>)
    requires ShuffledPath(p, q) && StrictlySorted(AttrCompare, own)
    ensures InheritAll(own, p) == InheritAll(own, q)
  {
    ShuffledPathFlip(p, q);
    forall k | 0 <= k < |p|
      ensures DistinctAttrs(Attrs(p[k])) && DistinctAttrs(Attrs(q[k]))
    {
      AttrsOfShuffled(p[k], q[k]);
    }
    OrphanImports(own, p);
    OrphanImports(own, q);
    forall a
      ensures a in InheritAll(own, p) <==> a in InheritAll(own, q)
    {
      if NearestXmlAttr(own, p, a) { NearestOfShuffled(own, p, q, a); }
      if NearestXmlAttr(own, q, a) { NearestOfShuffled(own, q, p, a); }
    }
    AttrCompareLaws();
    StrictlySortedUnique(AttrCompare, InheritAll(own, p), InheritAll(own, q));
  }

  lemma AttrAxisOfShuffled(mode: Mode, a: Node, b: Node, p: seq<Node>, q: seq<Node>)
    requires Shuffled(a, b) && ShuffledPath(p, q)
    ensures AttrAxis(mode, a, p) == AttrAxis(mode, b, q)
  {
    AttrsOfShuffled(a, b);
    OwnAttrsOfShuffled(Attrs(a), Attrs(b));
    ImportsOfShuffled(OwnAttrs(Attrs(a)), p, q);
    assert p != [] ==> Shuffled(p[0], q[0]);
  }

  // The whole tree.

  lemma ShuffledPathCons(a: Node, b: Node, p: seq<Node>, q: seq<Node>)
    requires Shuffled(a, b) && ShuffledPath(p, q)
    ensures ShuffledPath([a] + p, [b] + q)
  {
    forall i | 0 <= i < |p| + 1
      ensures Shuffled(([a] + p)[i], ([b] + q)[i])
    {
      assert i > 0 ==> Shuffled(p[i - 1], q[i - 1]);
    }
  }

  lemma {:induction false} CanonOfShuffled(mode: Mode, a: Node, b: Node, p: seq<Node>, q: seq<Node>, out: Bindings)
    requires ShuffledTree(a, b) && ShuffledPath(p, q)
    requires out.Keys <= Scope(Axis(p)).Keys && (mode == Exclusive10 ==> Consistent(a, p))
    ensures Canon(mode, a, p, out) == Canon(mode, b, q, out)
    decreases a, 1
  {
    if a.Element? {
      var axisA, axisB := Axis([a] + p), Axis([b] + q);
      ShuffledPathCons(a, b, p, q);
      ScopeOfShuffledPath([a] + p, [b] + q);
      ScopeKeysGrow(a, p);
      NsAxisOfShuffled(mode, a, b, axisA, axisB, out);
      InsideKeys(mode, a, axisA, out);
      AttrAxisOfShuffled(mode, a, b, p, q);
      CanonOfShuffledList(mode, a.children, b.children, [a] + p, [b] + q,
                          if a.visible then Inside(mode, a, axisA, out) else out);
      if a.visible {
        CanonVisible(mode, a, p, out);
        CanonVisible(mode, b, q, out);
      }
    }
  }

  lemma {:induction false} CanonOfShuffledList(mode: Mode, a: seq<Node>, b: seq<Node>,
                                               p: seq<Node>, q: seq<Node>, out: Bindings)
    requires ShuffledTrees(a, b) && ShuffledPath(p, q)
    requires out.Keys <= Scope(Axis(p)).Keys && (mode == Exclusive10 ==> ConsistentList(a, p))
    ensures CanonList(mode, a, p, out) == CanonList(mode, b, q, out)
    decreases a, 0
  {
    if a != [] {
      var n := |a| - 1;
      ListSnoc(mode, a, p, out);
      ListSnoc(mode, b, q, out);
      ConsistentListSnoc(mode, a, p);
      assert ShuffledTree(a[n], b[n]);
      CanonOfShuffledList(mode, a[..n], b[..n], p, q, out);
      CanonOfShuffled(mode, a[n], b[n], p, q, out);
    }
  }

  /** Shuffling the declarations and attributes of any elements leaves the canonical form alone. */
  lemma CanonicalFormIgnoresOrder(mode: Mode, a: Node, b: Node)
    requires ShuffledTree(a, b) && (mode == Exclusive10 ==> Consistent(a, []))
    ensures Canon(mode, a, [], map[]) == Canon(mode, b, [], map[])
  {
    CanonOfShuffled(mode, a, b, [], [], map[]);
  }
}
