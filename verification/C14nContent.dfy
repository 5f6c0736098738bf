/** Reading canonical output back for its content: the visible texts and tags in document order, each tag with
    the attributes it must have, and declarations and attributes in canonical order. */
module C14nContent {
  import opened XmlStrings
  import opened XmlLists
  import opened C14nModel
  import opened C14nOrder
  import opened C14nContexts

  datatype Item =
    | Opening(prefix: string, name: string, decls: seq<Ns>, attrs: seq<Attr>)
    | Content(text: string)
    | Closing(prefix: string, name: string)

  /** What has been read, whether a start tag is being read, and whether all of it was in its place. */
  datatype Reader = Reader(items: seq<Item>, inTag: bool, proper: bool)

  const NOTHING_READ := Reader([], false, true)

  function ReadToken(r: Reader, t: Token): Reader {
    match t
    case StartTag(prefix, name) =>
      Reader(r.items + [Opening(prefix, name, [], [])], true, r.proper && !r.inTag)
    case NsDecl(ns) =>
      if InTag(r) && LastItem(r).attrs == [] then WithLast(r, LastItem(r).(decls := LastItem(r).decls + [ns]))
      else r.(proper := false)
    case Attribute(attr) =>
      if InTag(r) then WithLast(r, LastItem(r).(attrs := LastItem(r).attrs + [attr])) else r.(proper := false)
    case EndOfStart => r.(inTag := false, proper := r.proper && r.inTag)
    case Characters(content) => r.(items := r.items + [Content(content)], proper := r.proper && !r.inTag)
    case EndTag(prefix, name) => r.(items := r.items + [Closing(prefix, name)], proper := r.proper && !r.inTag)
  }

  predicate InTag(r: Reader) {
    r.inTag && r.items != [] && LastItem(r).Opening?
  }

  function LastItem(r: Reader): Item
    requires r.items != []
  {
    r.items[|r.items| - 1]
  }

  function WithLast(r: Reader, item: Item): Reader
    requires r.items != []
  {
    r.(items := r.items[..|r.items| - 1] + [item])
  }

  function Read(r: Reader, tokens: seq<Token>): Reader {
    if tokens == [] then r else ReadToken(Read(r, tokens[..|tokens| - 1]), tokens[|tokens| - 1])
  }

  lemma {:induction false} ReadConcat(r: Reader, a: seq<Token>, b: seq<Token>)
    ensures Read(r, a + b) == Read(Read(r, a), b)
  {
    if b == [] {
      assert a + b == a;
    } else {
      ReadConcat(r, a, b[..|b| - 1]);
      ReadSnoc(r, a + b[..|b| - 1], b[|b| - 1]);
      ReadSnoc(Read(r, a), b[..|b| - 1], b[|b| - 1]);
      assert a + b == a + b[..|b| - 1] + [b[|b| - 1]] && b == b[..|b| - 1] + [b[|b| - 1]];
    }
  }

  lemma ReadSnoc(r: Reader, tokens: seq<Token>, t: Token)
    ensures Read(r, tokens + [t]) == ReadToken(Read(r, tokens), t)
  {
    assert (tokens + [t])[..|tokens|] == tokens;
  }

  lemma ReadOne(r: Reader, t: Token)
    ensures Read(r, [t]) == ReadToken(r, t)
  {
    assert [t][..0] == [];
  }

  // What the output holds

  /** In the middle of a start tag. */
  function TagRead(r: Reader, opening: Item): Reader {
    Reader(r.items + [opening], true, r.proper)
  }

  lemma TagGrows(r: Reader, prefix: string, name: string, decls: seq<Ns>, attrs: seq<Attr>, ns: Ns, attr: Attr)
    ensures ReadToken(TagRead(r, Opening(prefix, name, decls, [])), NsDecl(ns)) ==
      TagRead(r, Opening(prefix, name, decls + [ns], []))
    ensures ReadToken(TagRead(r, Opening(prefix, name, decls, attrs)), Attribute(attr)) ==
      TagRead(r, Opening(prefix, name, decls, attrs + [attr]))
  {
    LastChanged(r, Opening(prefix, name, decls, []), Opening(prefix, name, decls + [ns], []));
    LastChanged(r, Opening(prefix, name, decls, attrs), Opening(prefix, name, decls, attrs + [attr]));
  }

  lemma LastChanged(r: Reader, before: Item, after: Item)
    ensures LastItem(TagRead(r, before)) == before
    ensures WithLast(TagRead(r, before), after) == TagRead(r, after)
  {
    assert (r.items + [before])[..|r.items|] == r.items;
  }

  lemma {:induction false} ReadDecls(r: Reader, prefix: string, name: string, l: seq<Ns>)
    ensures Read(TagRead(r, Opening(prefix, name, [], [])), NsTokens(l)) == TagRead(r, Opening(prefix, name, l, []))
  {
    if l != [] {
      var front, last := l[..|l| - 1], l[|l| - 1];
      ReadDecls(r, prefix, name, front);
      ReadSnoc(TagRead(r, Opening(prefix, name, [], [])), NsTokens(front), NsDecl(last));
      TagGrows(r, prefix, name, front, [], last, Attr(None, "", ""));
      assert front + [last] == l;
    }
  }

  lemma {:induction false} ReadAttrs(r: Reader, prefix: string, name: string, decls: seq<Ns>, l: seq<Attr>)
    ensures Read(TagRead(r, Opening(prefix, name, decls, [])), AttrTokens(l)) ==
      TagRead(r, Opening(prefix, name, decls, l))
  {
    if l != [] {
      var front, last := l[..|l| - 1], l[|l| - 1];
      ReadAttrs(r, prefix, name, decls, front);
      ReadSnoc(TagRead(r, Opening(prefix, name, decls, [])), AttrTokens(front), Attribute(last));
      TagGrows(r, prefix, name, decls, front, EMPTY_DEFAULT, last);
      assert front + [last] == l;
    }
  }

  lemma ReadTag(r: Reader, prefix: string, name: string, decls: seq<Ns>, attrs: seq<Attr>)
    requires !r.inTag
    ensures Read(r, [StartTag(prefix, name)] + NsTokens(decls) + AttrTokens(attrs) + [EndOfStart]) ==
      r.(items := r.items + [Opening(prefix, name, decls, attrs)])
  {
    ReadOne(r, StartTag(prefix, name));
    ReadDecls(r, prefix, name, decls);
    ReadAttrs(r, prefix, name, decls, attrs);
    ReadOne(TagRead(r, Opening(prefix, name, decls, attrs)), EndOfStart);
    ReadParts(r, [StartTag(prefix, name)], NsTokens(decls), AttrTokens(attrs), [EndOfStart]);
  }

  lemma ReadParts(r: Reader, a: seq<Token>, b: seq<Token>, c: seq<Token>, d: seq<Token>)
    ensures Read(r, a + b + c + d) == Read(Read(Read(Read(r, a), b), c), d)
  {
    ReadConcat(r, a, b);
    ReadConcat(r, a + b, c);
    ReadConcat(r, a + b + c, d);
  }

  /** The items of a subtree as the canonical form has them. */
  function Items(mode: Mode, node: Node, anc: seq<Node>, out: Bindings): seq<Item>
    decreases node, 1
  {
    if node.Text? then (if node.visible then [Content(node.content)] else [])
    else
      var axis := Axis([node] + anc);
      if !node.visible then ItemsList(mode, node.children, [node] + anc, out)
      else
        [Opening(TagPrefix(node), node.name, NsAxis(mode, node, axis, out), AttrAxis(mode, node, anc))]
        + ItemsList(mode, node.children, [node] + anc, out + Bound(Used(mode, node, axis)))
        + [Closing(TagPrefix(node), node.name)]
  }

  function ItemsList(mode: Mode, nodes: seq<Node>, anc: seq<Node>, out: Bindings): seq<Item>
    decreases nodes, 0
  {
    if nodes == [] then []
    else ItemsList(mode, nodes[..|nodes| - 1], anc, out) + Items(mode, nodes[|nodes| - 1], anc, out)
  }

  lemma {:induction false} ReadCanon(mode: Mode, node: Node, anc: seq<Node>, out: Bindings, r: Reader)
    requires !r.inTag
    ensures Read(r, Canon(mode, node, anc, out)) == r.(items := r.items + Items(mode, node, anc, out))
    decreases node, 1
  {
    if node.Text? {
      if node.visible {
        ReadOne(r, Characters(node.content));
      }
    } else if !node.visible {
      ReadCanonList(mode, node.children, [node] + anc, out, r);
    } else {
      var axis := Axis([node] + anc);
      var opening := Opening(TagPrefix(node), node.name, NsAxis(mode, node, axis, out), AttrAxis(mode, node, anc));
      var inner := out + Bound(Used(mode, node, axis));
      var r1 := r.(items := r.items + [opening]);
      ReadTag(r, opening.prefix, opening.name, opening.decls, opening.attrs);
      ReadCanonList(mode, node.children, [node] + anc, inner, r1);
      ReadElement(r, StartTokens(mode, node, anc, out), CanonList(mode, node.children, [node] + anc, inner), opening,
                  ItemsList(mode, node.children, [node] + anc, inner), EndTag(opening.prefix, opening.name));
    }
  }

  lemma ReadElement(r: Reader, start: seq<Token>, content: seq<Token>, opening: Item, inner: seq<Item>, end: Token)
    requires !r.inTag && end.EndTag? && Read(r, start) == r.(items := r.items + [opening])
    requires var r1 := r.(items := r.items + [opening]); Read(r1, content) == r1.(items := r1.items + inner)
    ensures Read(r, start + content + [end]) ==
      r.(items := r.items + ([opening] + inner + [Closing(end.prefix, end.name)]))
  {
    var r1 := r.(items := r.items + [opening]);
    var r2 := r1.(items := r1.items + inner);
    ReadConcat(r, start, content);
    ReadSnoc(r, start + content, end);
    assert r2.items + [Closing(end.prefix, end.name)] ==
      r.items + ([opening] + inner + [Closing(end.prefix, end.name)]);
  }

  lemma {:induction false} ReadCanonList(mode: Mode, nodes: seq<Node>, anc: seq<Node>, out: Bindings, r: Reader)
    requires !r.inTag
    ensures Read(r, CanonList(mode, nodes, anc, out)) == r.(items := r.items + ItemsList(mode, nodes, anc, out))
    decreases nodes, 0
  {
    if nodes != [] {
      var front, last := nodes[..|nodes| - 1], nodes[|nodes| - 1];
      var before := ItemsList(mode, front, anc, out);
      ReadCanonList(mode, front, anc, out, r);
      ReadCanon(mode, last, anc, out, r.(items := r.items + before));
      ReadTwo(r, CanonList(mode, front, anc, out), Canon(mode, last, anc, out), before, Items(mode, last, anc, out));
      ListsSnoc(mode, nodes, anc, out);
    }
  }

  lemma ReadTwo(r: Reader, a: seq<Token>, b: seq<Token>, before: seq<Item>, after: seq<Item>)
    requires Read(r, a) == r.(items := r.items + before)
    requires Read(r.(items := r.items + before), b) == r.(items := r.items + before + after)
    ensures Read(r, a + b) == r.(items := r.items + (before + after))
  {
    ReadConcat(r, a, b);
    assert r.items + before + after == r.items + (before + after);
  }

  lemma ListsSnoc(mode: Mode, nodes: seq<Node>, anc: seq<Node>, out: Bindings)
    requires nodes != []
    ensures var front, last := nodes[..|nodes| - 1], nodes[|nodes| - 1];
      && CanonList(mode, nodes, anc, out) == CanonList(mode, front, anc, out) + Canon(mode, last, anc, out)
      && ItemsList(mode, nodes, anc, out) == ItemsList(mode, front, anc, out) + Items(mode, last, anc, out)
  {
  }

  // What the source holds

  /** The visible parts of the source; an element comes with its ancestors, nearest first. */
  datatype Part = Begin(element: Node, anc: seq<Node>) | Says(text: string) | Finish(element: Node)

  function Parts(node: Node, anc: seq<Node>): seq<Part>
    decreases node, 1
  {
    if node.Text? then (if node.visible then [Says(node.content)] else [])
    else
      var inner := PartsList(node.children, [node] + anc);
      if node.visible then [Begin(node, anc)] + inner + [Finish(node)] else inner
  }

  function PartsList(nodes: seq<Node>, anc: seq<Node>): seq<Part>
    decreases nodes, 0
  {
    if nodes == [] then [] else PartsList(nodes[..|nodes| - 1], anc) + Parts(nodes[|nodes| - 1], anc)
  }

  /** Declarations by prefix, the default one first. */
  ghost predicate DeclsInOrder(l: seq<Ns>) {
    forall i, j :: 0 <= i < j < |l| ==> Before(l[i].prefix, l[j].prefix)
  }

  /** Attributes without a namespace come first, the others by URI, then by local name. */
  ghost predicate AttrBefore(a: Attr, b: Attr) {
    if a.ns.None? then b.ns.Some? || Before(a.name, b.name)
    else
      && b.ns.Some?
      && var x, y := a.ns.value.href, b.ns.value.href;
         Before(x, y) || (x == y && Before(a.name, b.name))
  }

  ghost predicate AttrsInOrder(l: seq<Attr>) {
    forall i, j :: 0 <= i < j < |l| ==> AttrBefore(l[i], l[j])
  }

  /** An element has its own attributes and, in inclusive mode below an invisible parent, the nearest xml:
      attributes above it. */
  ghost predicate Has(mode: Mode, element: Node, anc: seq<Node>, a: Attr)
    requires element.Element?
  {
    || a in element.attrs
    || (mode == Canonical10 && anc != [] && !anc[0].visible && NearestXmlAttr(element.attrs, anc, a))
  }

  function PrefixOf(element: Node): string {
    if element.Element? && element.ns.Some? then element.ns.value.prefix else ""
  }

  /** The item of the output is the part of the source; `scoped` asks for the order of declarations too. */
  ghost predicate Writes(mode: Mode, item: Item, part: Part, scoped: bool) {
    match part
    case Begin(e, anc) =>
      && e.Element? && item.Opening? && item.prefix == PrefixOf(e) && item.name == e.name
      && (forall a :: a in item.attrs <==> Has(mode, e, anc, a)) && AttrsInOrder(item.attrs)
      && (scoped ==> DeclsInOrder(item.decls))
    case Says(text) => item == Content(text)
    case Finish(e) => e.Element? && item == Closing(PrefixOf(e), e.name)
  }

  ghost predicate AllWritten(mode: Mode, items: seq<Item>, parts: seq<Part>, scoped: bool) {
    |items| == |parts| && forall i :: 0 <= i < |items| ==> Writes(mode, items[i], parts[i], scoped)
  }

  lemma AllWrittenConcat(mode: Mode, a: seq<Item>, p: seq<Part>, b: seq<Item>, q: seq<Part>, scoped: bool)
    requires AllWritten(mode, a, p, scoped) && AllWritten(mode, b, q, scoped)
    ensures AllWritten(mode, a + b, p + q, scoped)
  {
  }

  /** No element has two attributes of one expanded name. */
  ghost predicate Distinct(node: Node)
    decreases node, 1
  {
    node.Element? ==> DistinctAttrs(node.attrs) && DistinctList(node.children)
  }

  ghost predicate DistinctList(nodes: seq<Node>)
    decreases nodes, 0
  {
    forall i :: 0 <= i < |nodes| ==> Distinct(nodes[i])
  }

  ghost predicate DistinctPath(anc: seq<Node>) {
    forall k :: 0 <= k < |anc| ==> DistinctAttrs(Attrs(anc[k]))
  }

  lemma DistinctInside(node: Node, anc: seq<Node>)
    requires node.Element? && Distinct(node) && DistinctPath(anc)
    ensures DistinctPath([node] + anc) && DistinctAttrs(node.attrs) && DistinctList(node.children)
  {
  }

  lemma AttrCompareIsBefore(a: Attr, b: Attr)
    ensures AttrCompare(a, b) < 0 <==> AttrBefore(a, b)
  {
    AttrCompareByName(a, b);
    StrCmpIsLexicographic(a.name, b.name);
    if a.ns.Some? && b.ns.Some? {
      StrCmpIsLexicographic(a.ns.value.href, b.ns.value.href);
      StrCmpZero(a.ns.value.href, b.ns.value.href);
      if a.ns.value.href == b.ns.value.href {
        StrCmpIsLexicographic(a.ns.value.href, a.ns.value.href);
      }
    }
  }

  lemma SortedAttrsInOrder(l: seq<Attr>)
    requires StrictlySorted(AttrCompare, l)
    ensures AttrsInOrder(l)
  {
    forall i, j | 0 <= i < j < |l|
      ensures AttrBefore(l[i], l[j])
    {
      assert AttrCompare(l[i], l[j]) < 0;
      AttrCompareIsBefore(l[i], l[j]);
    }
  }

  lemma SortedDeclsInOrder(l: seq<Ns>)
    requires StrictlySorted(NsCompare, l)
    ensures DeclsInOrder(l)
  {
    forall i, j | 0 <= i < j < |l|
      ensures Before(l[i].prefix, l[j].prefix)
    {
      assert NsCompare(l[i], l[j]) < 0;
      StrCmpIsLexicographic(l[i].prefix, l[j].prefix);
    }
  }

  lemma SameNearest(a: seq<Attr>, b: seq<Attr>, anc: seq<Node>, x: Attr)
    requires forall y :: y in a <==> y in b
    ensures NearestXmlAttr(a, anc, x) ==> NearestXmlAttr(b, anc, x)
  {
    if k :| 0 <= k < |anc| && NearestAt(a, anc, k, x) {
      forall i | 0 <= i < |b|
        ensures ExpandedName(b[i]) != ExpandedName(x)
      {
        assert b[i] in b;
        var j :| 0 <= j < |a| && a[j] == b[i];
      }
      assert NearestAt(b, anc, k, x);
    }
  }

  lemma AttrsWritten(mode: Mode, node: Node, anc: seq<Node>)
    requires node.Element? && DistinctAttrs(node.attrs)
    requires DistinctPath(anc)
    ensures var l := AttrAxis(mode, node, anc);
      AttrsInOrder(l) && forall a :: a in l <==> Has(mode, node, anc, a)
  {
    var own, l := OwnAttrs(node.attrs), AttrAxis(mode, node, anc);
    OwnAttrsSorted(node.attrs);
    if mode == Canonical10 && anc != [] && !anc[0].visible {
      OrphanImports(own, anc);
      forall a
        ensures a in l <==> Has(mode, node, anc, a)
      {
        SameNearest(own, node.attrs, anc, a);
        SameNearest(node.attrs, own, anc, a);
      }
    }
    SortedAttrsInOrder(l);
  }

  lemma DeclsWritten(mode: Mode, node: Node, axis: seq<Ns>, out: Bindings)
    requires node.Element? && (mode == Exclusive10 ==> ConsistentElement(node, axis))
    requires out.Keys <= Scope(axis).Keys
    ensures DeclsInOrder(NsAxis(mode, node, axis, out))
  {
    var l := Unrendered(out, Used(mode, node, axis));
    NoExtraDefault(mode, node, axis, out);
    UsedFromScope(mode, node, axis);
    UnrenderedElements(out, Used(mode, node, axis), Scope(axis));
    assert NsAxis(mode, node, axis, out) == l;
    SortedDeclsInOrder(l);
  }

  /** Inside an element whose context is in scope. */
  ghost predicate InScope(mode: Mode, node: Node, anc: seq<Node>, out: Bindings, scoped: bool) {
    scoped ==> out.Keys <= Scope(Axis(anc)).Keys && (mode == Exclusive10 ==> Consistent(node, anc))
  }

  ghost predicate InScopeList(mode: Mode, nodes: seq<Node>, anc: seq<Node>, out: Bindings, scoped: bool) {
    scoped ==> out.Keys <= Scope(Axis(anc)).Keys && (mode == Exclusive10 ==> ConsistentList(nodes, anc))
  }

  lemma InScopeInside(mode: Mode, node: Node, anc: seq<Node>, out: Bindings, scoped: bool)
    requires InScope(mode, node, anc, out, scoped) && node.Element?
    ensures InScopeList(mode, node.children, [node] + anc, out, scoped)
    ensures InScopeList(mode, node.children, [node] + anc, Inside(mode, node, Axis([node] + anc), out), scoped)
    ensures scoped ==> DeclsInOrder(NsAxis(mode, node, Axis([node] + anc), out))
  {
    if scoped {
      ScopeKeysGrow(node, anc);
      InsideKeys(mode, node, Axis([node] + anc), out);
      DeclsWritten(mode, node, Axis([node] + anc), out);
    }
  }

  lemma {:induction false} ItemsWritten(mode: Mode, node: Node, anc: seq<Node>, out: Bindings, scoped: bool)
    requires Distinct(node) && DistinctPath(anc)
    requires InScope(mode, node, anc, out, scoped)
    ensures AllWritten(mode, Items(mode, node, anc, out), Parts(node, anc), scoped)
    decreases node, 1
  {
    if node.Element? {
      var axis := Axis([node] + anc);
      InScopeInside(mode, node, anc, out, scoped);
      DistinctInside(node, anc);
      if !node.visible {
        ItemsListWritten(mode, node.children, [node] + anc, out, scoped);
        HiddenItems(mode, node, anc, out);
      } else {
        var inside := Inside(mode, node, axis, out);
        ItemsListWritten(mode, node.children, [node] + anc, inside, scoped);
        VisibleWritten(mode, node, anc, out, scoped);
      }
    }
  }

  lemma HiddenItems(mode: Mode, node: Node, anc: seq<Node>, out: Bindings)
    requires node.Element? && !node.visible
    ensures Items(mode, node, anc, out) == ItemsList(mode, node.children, [node] + anc, out)
    ensures Parts(node, anc) == PartsList(node.children, [node] + anc)
  {
  }

  lemma VisibleWritten(mode: Mode, node: Node, anc: seq<Node>, out: Bindings, scoped: bool)
    requires node.Element? && node.visible && DistinctAttrs(node.attrs)
    requires DistinctPath(anc)
    requires scoped ==> DeclsInOrder(NsAxis(mode, node, Axis([node] + anc), out))
    requires AllWritten(mode, ItemsList(mode, node.children, [node] + anc, Inside(mode, node, Axis([node] + anc), out)),
                        PartsList(node.children, [node] + anc), scoped)
    ensures AllWritten(mode, Items(mode, node, anc, out), Parts(node, anc), scoped)
  {
    var axis := Axis([node] + anc);
    AttrsWritten(mode, node, anc);
    ElementWritten(
      mode, Opening(TagPrefix(node), node.name, NsAxis(mode, node, axis, out), AttrAxis(mode, node, anc)),
      Begin(node, anc), ItemsList(mode, node.children, [node] + anc, Inside(mode, node, axis, out)),
      PartsList(node.children, [node] + anc), Closing(TagPrefix(node), node.name), Finish(node), scoped);
  }

  lemma ElementWritten(mode: Mode, opening: Item, begin: Part, items: seq<Item>, parts: seq<Part>, closing: Item,
                       finish: Part, scoped: bool)
    requires Writes(mode, opening, begin, scoped) && Writes(mode, closing, finish, scoped)
    requires AllWritten(mode, items, parts, scoped)
    ensures AllWritten(mode, [opening] + items + [closing], [begin] + parts + [finish], scoped)
  {
    AllWrittenConcat(mode, [opening], [begin], items, parts, scoped);
    AllWrittenConcat(mode, [opening] + items, [begin] + parts, [closing], [finish], scoped);
  }

  lemma {:induction false} ItemsListWritten(mode: Mode, nodes: seq<Node>, anc: seq<Node>, out: Bindings, scoped: bool)
    requires DistinctList(nodes) && DistinctPath(anc)
    requires InScopeList(mode, nodes, anc, out, scoped)
    ensures AllWritten(mode, ItemsList(mode, nodes, anc, out), PartsList(nodes, anc), scoped)
    decreases nodes, 0
  {
    if nodes != [] {
      var front, last := nodes[..|nodes| - 1], nodes[|nodes| - 1];
      if scoped {
        ConsistentListSnoc(mode, nodes, anc);
      }
      ItemsListWritten(mode, front, anc, out, scoped);
      ItemsWritten(mode, last, anc, out, scoped);
      AllWrittenConcat(mode, ItemsList(mode, front, anc, out), PartsList(front, anc), Items(mode, last, anc, out),
                       Parts(last, anc), scoped);
    }
  }

  /** The output read back: every token in its place, and item by item the visible parts of the source, with the
      attributes of each tag complete and in order; declarations are in order too, in exclusive mode if elements and
      attributes refer to declarations in scope. */
  ghost predicate Documents(mode: Mode, root: Node, tokens: seq<Token>) {
    var r := Read(NOTHING_READ, tokens);
    && r.proper && !r.inTag
    && AllWritten(mode, r.items, Parts(root, []), mode == Canonical10 || Consistent(root, []))
  }

  /** The canonical form of any tree without repeated attributes documents it. */
  lemma CanonDocuments(mode: Mode, root: Node)
    requires Distinct(root)
    ensures Documents(mode, root, Canon(mode, root, [], map[]))
  {
    ReadCanon(mode, root, [], map[], NOTHING_READ);
    var scoped := mode == Canonical10 || Consistent(root, []);
    ItemsWritten(mode, root, [], map[], scoped);
    assert NOTHING_READ.items + Items(mode, root, [], map[]) == Items(mode, root, [], map[]);
  }
}
