/** The tree walk of c14n.c, proved to write exactly `Canon`. */
module C14nWalk {
  import opened XmlStrings
  import opened XmlLists
  import opened C14nModel
  import opened C14nScope
  import opened C14nStack
  import opened C14nContent

  class C14nContext {
    const mode: Mode
    const nsRendered: VisibleNsStack
    var buf: seq<Token>

    constructor (mode: Mode)
      ensures this.mode == mode && buf == [] && fresh(nsRendered)
      ensures Renders(map[]) && nsRendered.Position() == StackPosition(0, 0, 0)
    {
      this.mode := mode;
      buf := [];
      nsRendered := new VisibleNsStack();
      new;
      assert nsRendered.Entries() == [] && nsRendered.Recent() == [];
    }

    /** The stack stands for the context `out` rendered so far, whichever search is used. */
    ghost predicate Renders(out: Bindings)
      reads nsRendered
    {
      && nsRendered.Valid()
      && nsRendered.nsPrevEnd == nsRendered.nsCurEnd
      && Bound(nsRendered.Entries()) == out
      && (mode == Canonical10 ==> Bound(nsRendered.Recent()) == out)
    }

    /** Like Renders, in the middle of an element that has already pushed `used`. */
    ghost predicate Renders2(out: Bindings, used: seq<Ns>)
      reads nsRendered
    {
      && nsRendered.Valid()
      && Bound(nsRendered.Entries()) == out + Bound(used)
      && (mode == Canonical10 ==> Bound(nsRendered.Recent()) == out + Bound(used))
    }

    method Push(ns: Ns, ghost out: Bindings, ghost used: seq<Ns>)
      requires Renders2(out, used)
      modifies nsRendered
      ensures Renders2(out, used + [ns])
      ensures nsRendered.Entries() == old(nsRendered.Entries()) + [ns]
      ensures nsRendered.nsPrevStart == old(nsRendered.nsPrevStart)
      ensures nsRendered.nsPrevEnd == old(nsRendered.nsPrevEnd)
    {
      BoundSnoc(nsRendered.Entries(), ns);
      BoundSnoc(nsRendered.Recent(), ns);
      OverrideSnoc(out, used, ns);
      nsRendered.Add(ns);
    }

    /** xmlC14NPrintNamespaces, walked over the sorted list. */
    method PrintNamespaces(list: seq<Ns>)
      modifies this
      ensures buf == old(buf) + NsTokens(list)
    {
      for i := 0 to |list|
        invariant buf == old(buf) + NsTokens(list[..i])
      {
        assert list[..i + 1][..i] == list[..i];
        buf := buf + [NsDecl(list[i])];
      }
      assert list[..|list|] == list;
    }

    /** xmlC14NPrintAttrs, walked over the sorted list. */
    method PrintAttrs(list: seq<Attr>)
      modifies this
      ensures buf == old(buf) + AttrTokens(list)
    {
      for i := 0 to |list|
        invariant buf == old(buf) + AttrTokens(list[..i])
      {
        assert list[..i + 1][..i] == list[..i];
        buf := buf + [Attribute(list[i])];
      }
      assert list[..|list|] == list;
    }

    /** The middle of an axis walk that started on the entries `base`: what has been pushed,
        listed for printing and noticed after the declarations `used`. */
    ghost predicate Visiting(visible: bool, out: Bindings, base: seq<Ns>, prevStart: nat, prevEnd: nat,
                             used: seq<Ns>, list: seq<Ns>, hasEmptyNs: bool)
      reads nsRendered
    {
      && nsRendered.Valid()
      && nsRendered.nsPrevStart == prevStart && nsRendered.nsPrevEnd == prevEnd
      && (if visible then
            && Renders2(out, used) && nsRendered.Entries() == base + used
            && list == Unrendered(out, used) && hasEmptyNs == HasDefault(used)
          else
            Renders(out) && nsRendered.Entries() == base && list == [])
    }

    method AlreadyRendered(ns: Ns, ghost out: Bindings, ghost used: seq<Ns>) returns (r: bool)
      requires mode == Canonical10 && Renders2(out, used)
      ensures r == Rendered(out + Bound(used), ns)
    {
      r := nsRendered.Find(ns);
    }

    /** One declaration of the inclusive walk. */
    method VisitDeclaration(ns: Ns, visible: bool, list: seq<Ns>, hasEmptyNs: bool,
                            ghost out: Bindings, ghost base: seq<Ns>, ghost prevStart: nat, ghost prevEnd: nat,
                            ghost used: seq<Ns>)
      returns (list': seq<Ns>, hasEmptyNs': bool)
      requires mode == Canonical10 && visible
      requires Visiting(visible, out, base, prevStart, prevEnd, used, list, hasEmptyNs)
      modifies nsRendered
      ensures Visiting(visible, out, base, prevStart, prevEnd, used + [ns], list', hasEmptyNs')
    {
      var alreadyRendered := AlreadyRendered(ns, out, used);
      assert base + used + [ns] == base + (used + [ns]);
      if visible {
        Push(ns, out, used);
      }
      list', hasEmptyNs' := Note(ns, alreadyRendered, list, hasEmptyNs, out, used);
    }

    /** What is not rendered yet goes into the sorted list; a default is noticed. */
    method Note(ns: Ns, alreadyRendered: bool, list: seq<Ns>, hasEmptyNs: bool, ghost out: Bindings,
                ghost used: seq<Ns>)
      returns (list': seq<Ns>, hasEmptyNs': bool)
      requires alreadyRendered == Rendered(out + Bound(used), ns)
      requires list == Unrendered(out, used) && hasEmptyNs == HasDefault(used)
      ensures list' == Unrendered(out, used + [ns]) && hasEmptyNs' == HasDefault(used + [ns])
    {
      list', hasEmptyNs' := list, hasEmptyNs;
      HasDefaultSnoc(used, ns);
      UnrenderedSnoc(out, used, ns);
      if !alreadyRendered {
        list' := ListInsert(NsCompare, list, ns);
      }
      if ns.prefix == "" {
        hasEmptyNs' := true;
      }
    }

    /** The inner loop of xmlC14NProcessNamespacesAxis: the declarations of one ancestor,
        which start at position k of the axis. */
    method VisitAncestor(defs: seq<Ns>, axis: seq<Ns>, k: nat, visible: bool, list: seq<Ns>, hasEmptyNs: bool,
                         ghost out: Bindings, ghost base: seq<Ns>, ghost prevStart: nat, ghost prevEnd: nat,
                         ghost used: seq<Ns>)
      returns (list': seq<Ns>, hasEmptyNs': bool, ghost used': seq<Ns>)
      requires mode == Canonical10 && k + |defs| <= |axis| && defs == axis[k..k + |defs|]
      requires used == Selected(axis, k)
      requires Visiting(visible, out, base, prevStart, prevEnd, used, list, hasEmptyNs)
      modifies nsRendered
      ensures used' == Selected(axis, k + |defs|)
      ensures Visiting(visible, out, base, prevStart, prevEnd, used', list', hasEmptyNs')
    {
      list', hasEmptyNs', used' := list, hasEmptyNs, used;
      var n := k;
      for j := 0 to |defs|
        invariant n == k + j && used' == Selected(axis, n)
        invariant Visiting(visible, out, base, prevStart, prevEnd, used', list', hasEmptyNs')
      {
        assert defs[j] == axis[n];
        list', hasEmptyNs', used' :=
          VisitEntry(axis, n, visible, list', hasEmptyNs', out, base, prevStart, prevEnd, used');
        n := n + 1;
      }
    }

    /** One turn of it, for entry n of the axis. */
    method VisitEntry(axis: seq<Ns>, n: nat, visible: bool, list: seq<Ns>, hasEmptyNs: bool,
                      ghost out: Bindings, ghost base: seq<Ns>, ghost prevStart: nat, ghost prevEnd: nat,
                      ghost used: seq<Ns>)
      returns (list': seq<Ns>, hasEmptyNs': bool, ghost used': seq<Ns>)
      requires mode == Canonical10 && n < |axis| && used == Selected(axis, n)
      requires Visiting(visible, out, base, prevStart, prevEnd, used, list, hasEmptyNs)
      modifies nsRendered
      ensures used' == Selected(axis, n + 1)
      ensures Visiting(visible, out, base, prevStart, prevEnd, used', list', hasEmptyNs')
    {
      list', hasEmptyNs', used' := list, hasEmptyNs, used;
      var ns := axis[n];
      var tmp := SearchIndex(axis, ns.prefix);
      SelectedSnoc(axis, n);
      if tmp == n {
        if !IsXmlNs(ns) && visible {
          list', hasEmptyNs' := VisitDeclaration(ns, visible, list, hasEmptyNs, out, base, prevStart, prevEnd, used);
        }
        used' := used + [ns];
      }
    }

    /** The outer loop: the element and its ancestors, nearest first. */
    method VisitAxis(path: seq<Node>, visible: bool, ghost out: Bindings, ghost base: seq<Ns>,
                     ghost prevStart: nat, ghost prevEnd: nat)
      returns (list: seq<Ns>, hasEmptyNs: bool, ghost used: seq<Ns>)
      requires mode == Canonical10
      requires Visiting(visible, out, base, prevStart, prevEnd, [], [], false)
      modifies nsRendered
      ensures used == Selected(Axis(path), |Axis(path)|)
      ensures Visiting(visible, out, base, prevStart, prevEnd, used, list, hasEmptyNs)
    {
      var axis := Axis(path);
      list, hasEmptyNs, used := [], false, [];
      ghost var k := 0;
      for i := 0 to |path|
        invariant k == |Axis(path[..i])| <= |axis| && used == Selected(axis, k)
        invariant Visiting(visible, out, base, prevStart, prevEnd, used, list, hasEmptyNs)
      {
        list, hasEmptyNs, used := VisitNode(path, i, axis, visible, list, hasEmptyNs,
                                            out, base, prevStart, prevEnd, used);
        AxisSlice(path, i);
        k := k + |Decls(path[i])|;
      }
      assert path[..|path|] == path;
    }

    /** One turn of it. */
    method VisitNode(path: seq<Node>, i: nat, axis: seq<Ns>, visible: bool, list: seq<Ns>, hasEmptyNs: bool,
                     ghost out: Bindings, ghost base: seq<Ns>, ghost prevStart: nat, ghost prevEnd: nat,
                     ghost used: seq<Ns>)
      returns (list': seq<Ns>, hasEmptyNs': bool, ghost used': seq<Ns>)
      requires mode == Canonical10 && i < |path| && axis == Axis(path)
      requires |Axis(path[..i])| <= |axis| && used == Selected(axis, |Axis(path[..i])|)
      requires Visiting(visible, out, base, prevStart, prevEnd, used, list, hasEmptyNs)
      modifies nsRendered
      ensures |Axis(path[..i + 1])| <= |axis| && used' == Selected(axis, |Axis(path[..i + 1])|)
      ensures Visiting(visible, out, base, prevStart, prevEnd, used', list', hasEmptyNs')
    {
      AxisSlice(path, i);
      list', hasEmptyNs', used' := VisitAncestor(Decls(path[i]), axis, |Axis(path[..i])|, visible, list, hasEmptyNs,
                                                 out, base, prevStart, prevEnd, used);
    }

    /** xmlC14NProcessNamespacesAxis. */
    method ProcessNamespacesAxis(cur: Node, anc: seq<Node>, visible: bool, ghost out: Bindings)
      requires mode == Canonical10 && cur.Element? && visible == cur.visible
      requires Renders(out)
      modifies this, nsRendered
      ensures buf == old(buf) + if visible then NsTokens(NsAxis(mode, cur, Axis([cur] + anc), out)) else []
      ensures AfterAxis(visible, out, old(nsRendered.Entries()), old(nsRendered.nsPrevStart), old(nsRendered.nsPrevEnd),
                        Used(mode, cur, Axis([cur] + anc)))
    {
      var list, hasEmptyNs, _ := VisitAxis([cur] + anc, visible, out, nsRendered.Entries(),
                                        nsRendered.nsPrevStart, nsRendered.nsPrevEnd);
      PrintAxis(visible && !hasEmptyNs, list);
    }

    /** Afterwards: the whole axis is pushed if the element is visible, nothing otherwise. */
    ghost predicate AfterAxis(visible: bool, out: Bindings, base: seq<Ns>, prevStart: nat, prevEnd: nat, used: seq<Ns>)
      reads nsRendered
    {
      && nsRendered.Valid()
      && nsRendered.nsPrevStart == prevStart && nsRendered.nsPrevEnd == prevEnd
      && (if visible then Renders2(out, used) && nsRendered.Entries() == base + used
          else Renders(out) && nsRendered.Entries() == base)
    }

    /** One visibly utilized namespace of the exclusive walk. */
    method VisitUtilized(ns: Ns, list: seq<Ns>, hasEmptyNs: bool,
                         ghost out: Bindings, ghost base: seq<Ns>, ghost prevStart: nat, ghost prevEnd: nat,
                         ghost used: seq<Ns>)
      returns (list': seq<Ns>, hasEmptyNs': bool)
      requires mode == Exclusive10
      requires Visiting(true, out, base, prevStart, prevEnd, used, list, hasEmptyNs)
      modifies nsRendered
      ensures Visiting(true, out, base, prevStart, prevEnd, used + [ns], list', hasEmptyNs')
    {
      var alreadyRendered := nsRendered.ExcFind(ns);
      Push(ns, out, used);
      list', hasEmptyNs' := Note(ns, alreadyRendered, list, hasEmptyNs, out, used);
    }

    /** The attribute loop of xmlExcC14NProcessNamespacesAxis. */
    method VisitAttributes(attrs: seq<Attr>, visible: bool, list: seq<Ns>, hasEmptyNs: bool,
                           ghost out: Bindings, ghost base: seq<Ns>, ghost prevStart: nat, ghost prevEnd: nat,
                           ghost used: seq<Ns>)
      returns (list': seq<Ns>, hasEmptyNs': bool)
      requires mode == Exclusive10
      requires Visiting(visible, out, base, prevStart, prevEnd, used, list, hasEmptyNs)
      modifies nsRendered
      ensures Visiting(visible, out, base, prevStart, prevEnd, used + AttrNss(attrs), list', hasEmptyNs')
    {
      list', hasEmptyNs' := list, hasEmptyNs;
      ghost var used' := used;
      for i := 0 to |attrs|
        invariant used' == used + AttrNss(attrs[..i])
        invariant Visiting(visible, out, base, prevStart, prevEnd, used', list', hasEmptyNs')
      {
        var attr := attrs[i];
        assert attrs[..i + 1][..i] == attrs[..i];
        if attr.ns.Some? && !IsXmlNs(attr.ns.value) {
          if visible {
            list', hasEmptyNs' := VisitUtilized(attr.ns.value, list', hasEmptyNs',
                                                out, base, prevStart, prevEnd, used');
          }
          used' := used' + [attr.ns.value];
        }
      }
      assert attrs[..|attrs|] == attrs;
    }

    /** xmlExcC14NProcessNamespacesAxis, with an empty InclusiveNamespaces prefix list. */
    method ExcProcessNamespacesAxis(cur: Node, anc: seq<Node>, visible: bool, ghost out: Bindings)
      requires mode == Exclusive10 && cur.Element? && visible == cur.visible
      requires Renders(out)
      modifies this, nsRendered
      ensures buf == old(buf) + if visible then NsTokens(NsAxis(mode, cur, Axis([cur] + anc), out)) else []
      ensures AfterAxis(visible, out, old(nsRendered.Entries()), old(nsRendered.nsPrevStart), old(nsRendered.nsPrevEnd),
                        Used(mode, cur, Axis([cur] + anc)))
    {
      ghost var base, ps, pe := nsRendered.Entries(), nsRendered.nsPrevStart, nsRendered.nsPrevEnd;
      ghost var own := ElementNs(cur, Axis([cur] + anc));
      var list, hasEmptyNs, utilizedEmptyNs := VisitElementNs(cur, anc, visible, out, base, ps, pe);
      list, hasEmptyNs := VisitAttributes(cur.attrs, visible, list, hasEmptyNs, out, base, ps, pe, own);
      PrintAxis(visible && utilizedEmptyNs && !hasEmptyNs, list);
    }

    /** Its first part: the namespace of the element itself, or the default in scope. */
    method VisitElementNs(cur: Node, anc: seq<Node>, visible: bool,
                          ghost out: Bindings, ghost base: seq<Ns>, ghost ps: nat, ghost pe: nat)
      returns (list: seq<Ns>, hasEmptyNs: bool, utilizedEmptyNs: bool)
      requires mode == Exclusive10 && cur.Element?
      requires Visiting(visible, out, base, ps, pe, [], [], false)
      modifies nsRendered
      ensures utilizedEmptyNs == cur.ns.None?
      ensures Visiting(visible, out, base, ps, pe, ElementNs(cur, Axis([cur] + anc)), list, hasEmptyNs)
    {
      var axis := Axis([cur] + anc);
      list, hasEmptyNs, utilizedEmptyNs := [], false, false;
      var ns: Option<Ns>;
      if cur.ns.Some? {
        ns := cur.ns;
      } else {
        var k := SearchIndex(axis, "");
        ns := if k < |axis| then Some(axis[k]) else None;
        utilizedEmptyNs := true;
      }
      if ns.Some? && !IsXmlNs(ns.value) && visible {
        list, hasEmptyNs := VisitUtilized(ns.value, list, hasEmptyNs, out, base, ps, pe, []);
      }
    }

    /** Prints xmlns="" where the default must be reset, then the sorted list. */
    method PrintAxis(checkDefault: bool, list: seq<Ns>)
      requires nsRendered.Valid()
      modifies this
      ensures buf == old(buf)
        + NsTokens((if checkDefault && !Rendered(Bound(nsRendered.Entries()), EMPTY_DEFAULT)
                    then [EMPTY_DEFAULT] else []) + list)
    {
      ghost var head: seq<Ns> := [];
      if checkDefault {
        var found;
        if mode == Canonical10 {
          found := nsRendered.Find(EMPTY_DEFAULT);
        } else {
          found := nsRendered.ExcFind(EMPTY_DEFAULT);
        }
        if !found {
          head := [EMPTY_DEFAULT];
          PrintNamespaces([EMPTY_DEFAULT]);
        }
      }
      PrintNamespaces(list);
      NsTokensConcat(head, list);
    }

    /** xmlC14NProcessAttrsAxis, the 1.0 and exclusive branches. */
    method ProcessAttrsAxis(cur: Node, anc: seq<Node>, parentVisible: bool)
      requires cur.Element? && parentVisible == cur.visible
      modifies this
      ensures buf == old(buf) + if parentVisible then AttrTokens(AttrAxis(mode, cur, anc)) else []
    {
      var list: seq<Attr> := [];
      if cur.visible {
        list := SortAttrs(cur.attrs);
        if mode == Canonical10 && anc != [] && !anc[0].visible {
          list := ImportXmlAttrs(list, anc);
        }
        assert list == AttrAxis(mode, cur, anc);
      }
      PrintAttrs(list);
    }

    /** The attributes of the element itself. */
    method SortAttrs(attrs: seq<Attr>) returns (list: seq<Attr>)
      ensures list == OwnAttrs(attrs)
    {
      list := [];
      for i := 0 to |attrs|
        invariant list == OwnAttrs(attrs[..i])
      {
        assert attrs[..i + 1][..i] == attrs[..i];
        list := ListInsert(AttrCompare, list, attrs[i]);
      }
      assert attrs[..|attrs|] == attrs;
    }

    /** The walk over the ancestors of an orphan element. */
    method ImportXmlAttrs(own: seq<Attr>, anc: seq<Node>) returns (list: seq<Attr>)
      ensures list == InheritAll(own, anc)
    {
      list := own;
      for i := 0 to |anc|
        invariant list == InheritAll(own, anc[..i])
      {
        assert anc[..i + 1][..i] == anc[..i];
        list := ImportFrom(list, Attrs(anc[i]));
      }
      assert anc[..|anc|] == anc;
    }

    /** The xml: attributes of one ancestor. */
    method ImportFrom(before: seq<Attr>, attrs: seq<Attr>) returns (list: seq<Attr>)
      ensures list == Inherit(before, attrs)
    {
      list := before;
      for j := 0 to |attrs|
        invariant list == Inherit(before, attrs[..j])
      {
        assert attrs[..j + 1][..j] == attrs[..j];
        if IsXmlAttr(attrs[j]) {
          var found := ListSearch(AttrCompare, list, attrs[j]);
          if !found {
            list := ListInsert(AttrCompare, list, attrs[j]);
          }
        }
      }
      assert attrs[..|attrs|] == attrs;
    }

    /** After a visible element has pushed its axis and shifted, the stack stands for the new context. */
    method FinishAxis(visible: bool, ghost out: Bindings, ghost base: seq<Ns>, ghost prevStart: nat,
                      ghost used: seq<Ns>)
      requires AfterAxis(visible, out, base, prevStart, |base|, used)
      requires mode == Canonical10 ==> out.Keys <= Bound(used).Keys
      modifies nsRendered
      ensures Renders(if visible then out + Bound(used) else out)
      ensures Extends(base)
    {
      if visible {
        nsRendered.Shift();
        assert nsRendered.Recent() == used;
        assert mode == Canonical10 ==> out + Bound(used) == Bound(used);
      }
    }

    /** xmlC14NProcessNode. */
    method ProcessNode(cur: Node, anc: seq<Node>, ghost out: Bindings)
      requires Renders(out) && Inscope(mode, anc, out)
      modifies this, nsRendered
      ensures buf == old(buf) + Canon(mode, cur, anc, out)
      ensures Renders(out) && Kept(old(nsRendered.Position()), old(nsRendered.Entries()))
      decreases cur, 1
    {
      match cur
      case Text(content, visible) =>
        if visible {
          buf := buf + [Characters(content)];
        }
      case Element(_, _, _, _, visible, _) =>
        ProcessElementNode(cur, anc, visible, out);
    }

    /** The indices are back where they were and the entries below them are unchanged. */
    ghost predicate Kept(position: StackPosition, entries: seq<Ns>)
      reads nsRendered
    {
      nsRendered.Valid() && nsRendered.Position() == position && nsRendered.Entries() == entries
    }

    /** The namespace axis of either mode, then the shift of a visible element. */
    method ProcessAxisAndShift(cur: Node, anc: seq<Node>, visible: bool, ghost out: Bindings)
      requires cur.Element? && visible == cur.visible
      requires Renders(out) && Inscope(mode, anc, out)
      modifies this, nsRendered
      ensures buf == old(buf) + if visible then NsTokens(NsAxis(mode, cur, Axis([cur] + anc), out)) else []
      ensures Renders(if visible then out + Bound(Used(mode, cur, Axis([cur] + anc))) else out)
      ensures Extends(old(nsRendered.Entries()))
    {
      ghost var base, ps := nsRendered.Entries(), nsRendered.nsPrevStart;
      if mode == Canonical10 {
        ProcessNamespacesAxis(cur, anc, visible, out);
      } else {
        ExcProcessNamespacesAxis(cur, anc, visible, out);
      }
      InscopeUsed(mode, cur, anc, out);
      FinishAxis(visible, out, base, ps, Used(mode, cur, Axis([cur] + anc)));
    }

    /** The first half of xmlC14NProcessElementNode, up to the end of the start tag. */
    method OpenElement(cur: Node, anc: seq<Node>, visible: bool, ghost out: Bindings)
      requires cur.Element? && visible == cur.visible
      requires Renders(out) && Inscope(mode, anc, out)
      modifies this, nsRendered
      ensures buf == old(buf) + if visible then StartTokens(mode, cur, anc, out) else []
      ensures Renders(if visible then out + Bound(Used(mode, cur, Axis([cur] + anc))) else out)
      ensures Extends(old(nsRendered.Entries()))
    {
      WrittenInParts(buf, [StartTag(TagPrefix(cur), cur.name)], NsTokens(NsAxis(mode, cur, Axis([cur] + anc), out)),
                     AttrTokens(AttrAxis(mode, cur, anc)), [EndOfStart]);
      if visible {
        buf := buf + [StartTag(TagPrefix(cur), cur.name)];
      }
      ProcessAxisAndShift(cur, anc, visible, out);
      ProcessAttrsAxis(cur, anc, visible);
      if visible {
        buf := buf + [EndOfStart];
      }
    }

    ghost predicate Extends(base: seq<Ns>)
      reads nsRendered
    {
      nsRendered.Valid() && base <= nsRendered.Entries()
    }

    /** xmlC14NProcessElementNode. */
    method ProcessElementNode(cur: Node, anc: seq<Node>, visible: bool, ghost out: Bindings)
      requires cur.Element? && visible == cur.visible
      requires Renders(out) && Inscope(mode, anc, out)
      modifies this, nsRendered
      ensures buf == old(buf) + Canon(mode, cur, anc, out)
      ensures Renders(out) && Kept(old(nsRendered.Position()), old(nsRendered.Entries()))
      decreases cur, 0
    {
      ghost var base, recent := nsRendered.Entries(), nsRendered.Recent();
      ghost var inner := if visible then out + Bound(Used(mode, cur, Axis([cur] + anc))) else out;
      var state := nsRendered.Save();
      assert recent == base[state.nsPrevStart..];
      WrittenInParts(buf, StartTokens(mode, cur, anc, out), CanonList(mode, cur.children, [cur] + anc, inner),
                     [EndTag(TagPrefix(cur), cur.name)], []);
      OpenElement(cur, anc, visible, out);
      InscopeChild(mode, cur, anc, out);
      ProcessNodeList(cur.children, [cur] + anc, inner);
      if visible {
        buf := buf + [EndTag(TagPrefix(cur), cur.name)];
      }
      RestorePosition(state, out, base);
    }

    method RestorePosition(state: StackPosition, ghost out: Bindings, ghost base: seq<Ns>)
      requires Extends(base) && state.nsCurEnd == state.nsPrevEnd == |base| && state.nsPrevStart <= |base|
      requires Bound(base) == out && (mode == Canonical10 ==> Bound(base[state.nsPrevStart..]) == out)
      modifies nsRendered
      ensures Renders(out) && Kept(state, base)
    {
      nsRendered.Restore(state);
      assert nsRendered.Entries() == base;
      assert nsRendered.Recent() == base[state.nsPrevStart..];
    }

    /** xmlC14NProcessNodeList. */
    method ProcessNodeList(nodes: seq<Node>, anc: seq<Node>, ghost out: Bindings)
      requires Renders(out) && Inscope(mode, anc, out)
      modifies this, nsRendered
      ensures buf == old(buf) + CanonList(mode, nodes, anc, out)
      ensures Renders(out) && Kept(old(nsRendered.Position()), old(nsRendered.Entries()))
      decreases nodes, 0
    {
      for i := 0 to |nodes|
        invariant buf == old(buf) + CanonList(mode, nodes[..i], anc, out)
        invariant Renders(out) && Kept(old(nsRendered.Position()), old(nsRendered.Entries()))
      {
        CanonListNext(mode, nodes, i, anc, out);
        Appended(old(buf), CanonList(mode, nodes[..i], anc, out), Canon(mode, nodes[i], anc, out));
        ProcessNode(nodes[i], anc, out);
      }
      assert nodes[..|nodes|] == nodes;
    }
  }

  lemma AxisSlice(path: seq<Node>, i: nat)
    requires i < |path|
    ensures var k, defs := |Axis(path[..i])|, Decls(path[i]);
      k + |defs| == |Axis(path[..i + 1])| <= |Axis(path)| && defs == Axis(path)[k..k + |defs|]
  {
    AxisExtend(path, i);
    var k, defs := |Axis(path[..i])|, Decls(path[i]);
    assert Axis(path[..i + 1])[k..] == defs;
    assert Axis(path)[..k + |defs|] == Axis(path[..i + 1]);
  }

  lemma CanonListNext(mode: Mode, nodes: seq<Node>, i: nat, anc: seq<Node>, out: Bindings)
    requires i < |nodes|
    ensures CanonList(mode, nodes[..i + 1], anc, out) ==
      CanonList(mode, nodes[..i], anc, out) + Canon(mode, nodes[i], anc, out)
  {
    assert nodes[..i + 1][..i] == nodes[..i];
  }

  lemma Appended(buf: seq<Token>, a: seq<Token>, b: seq<Token>)
    ensures (buf + a) + b == buf + (a + b)
  {
  }

  lemma InscopeTop(mode: Mode)
    ensures Inscope(mode, [], map[])
  {
  }

  lemma WrittenInParts(buf: seq<Token>, a: seq<Token>, b: seq<Token>, c: seq<Token>, d: seq<Token>)
    ensures (((buf + a) + b) + c) + d == buf + (a + b + c + d)
    ensures ((buf + a) + b) + c == buf + (a + b + c)
    ensures (buf + []) + b == buf + b && (buf + []) + [] == buf
  {
  }

  /** xmlC14NExecute on a document element: the whole canonical form, which read back gives the visible parts of
      the document. */
  method Execute(root: Node, mode: Mode) returns (tokens: seq<Token>)
    ensures tokens == Canon(mode, root, [], map[])
    ensures Distinct(root) ==> Documents(mode, root, tokens)
  {
    var ctx := new C14nContext(mode);
    InscopeTop(mode);
    ctx.ProcessNode(root, [], map[]);
    tokens := ctx.buf;
    if Distinct(root) {
      CanonDocuments(mode, root);
    }
  }
}
