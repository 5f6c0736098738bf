/** Canonical XML: the document tree, the canonical token stream and the
    function that the tree walk of c14n.c is proved to compute.

    A NULL prefix or URI is the empty string.  `visible` says whether an element
    (with its namespace and attribute nodes) belongs to the node-set. */
module C14nModel {
  import opened XmlStrings
  import opened XmlLists

  const XML_XML_NAMESPACE := "http://www.w3.org/XML/1998/namespace"

  datatype Ns = Ns(prefix: string, href: string)

  const EMPTY_DEFAULT := Ns("", "")

  type PrefixedNs = n: Ns | n.prefix != "" witness Ns("p", "")

  datatype Attr = Attr(ns: Option<PrefixedNs>, name: string, value: string)

  datatype Node =
    | Element(name: string, ns: Option<Ns>, nsDef: seq<Ns>, attrs: seq<Attr>, visible: bool, children: seq<Node>)
    | Text(content: string, visible: bool)

  datatype Mode = Canonical10 | Exclusive10

  datatype Token =
    | StartTag(prefix: string, name: string)
    | NsDecl(ns: Ns)
    | Attribute(attr: Attr)
    | EndOfStart
    | Characters(content: string)
    | EndTag(prefix: string, name: string)

  /** A namespace context: the URI last bound to each prefix. */
  type Bindings = map<string, string>

  function Decls(n: Node): seq<Ns> {
    if n.Element? then n.nsDef else []
  }

  function Attrs(n: Node): seq<Attr> {
    if n.Element? then n.attrs else []
  }

  /** All declarations from an element up to the root, nearest first. */
  function Axis(path: seq<Node>): seq<Ns> {
    if path == [] then [] else Axis(path[..|path| - 1]) + Decls(path[|path| - 1])
  }

  predicate IsXmlNs(ns: Ns) {
    ns.prefix == "xml" && ns.href == XML_XML_NAMESPACE
  }

  predicate IsXmlAttr(a: Attr) {
    a.ns.Some? && IsXmlNs(a.ns.value)
  }

  /** xmlSearchNs: the position of the nearest declaration of a prefix.  The prefix
      "xml" is answered by the document itself, so it never names a position. */
  function SearchIndex(axis: seq<Ns>, prefix: string): (k: nat)
    ensures k <= |axis|
    ensures k < |axis| ==> axis[k].prefix == prefix && prefix != "xml"
    ensures prefix != "xml" ==> forall i :: 0 <= i < k ==> axis[i].prefix != prefix
  {
    if prefix == "xml" then |axis|
    else if axis == [] || axis[0].prefix == prefix then 0
    else 1 + SearchIndex(axis[1..], prefix)
  }

  /** The declarations among the first k of the axis that no nearer one hides. */
  function Selected(axis: seq<Ns>, k: nat): seq<Ns>
    requires k <= |axis|
  {
    if k == 0 then []
    else if SearchIndex(axis, axis[k - 1].prefix) == k - 1 then Selected(axis, k - 1) + [axis[k - 1]]
    else Selected(axis, k - 1)
  }

  /** The bindings made by a list of declarations, later ones overriding earlier ones. */
  function Bound(l: seq<Ns>): Bindings {
    if l == [] then map[]
    else Bound(l[..|l| - 1])[l[|l| - 1].prefix := l[|l| - 1].href]
  }

  /** Already rendered: same prefix bound to the same URI; an unbound default counts as empty. */
  predicate Rendered(out: Bindings, ns: Ns) {
    if ns.prefix in out then out[ns.prefix] == ns.href else ns == EMPTY_DEFAULT
  }

  function NsCompare(a: Ns, b: Ns): int {
    StrCmp(a.prefix, b.prefix)
  }

  /** The declarations of `used` that are not rendered yet when their turn comes, in canonical order. */
  function Unrendered(out: Bindings, used: seq<Ns>): seq<Ns> {
    if used == [] then []
    else
      var front, last := used[..|used| - 1], used[|used| - 1];
      if Rendered(out + Bound(front), last) then Unrendered(out, front)
      else Inserted(NsCompare, Unrendered(out, front), last)
  }

  function AttrNss(attrs: seq<Attr>): seq<Ns> {
    if attrs == [] then []
    else
      var a := attrs[|attrs| - 1];
      AttrNss(attrs[..|attrs| - 1]) + (if a.ns.Some? && !IsXmlNs(a.ns.value) then [a.ns.value] else [])
  }

  /** The namespace of the element itself, or the default in scope when it has none. */
  function ElementNs(node: Node, axis: seq<Ns>): seq<Ns>
    requires node.Element?
  {
    if node.ns.Some? then (if IsXmlNs(node.ns.value) then [] else [node.ns.value])
    else
      var k := SearchIndex(axis, "");
      if k < |axis| then [axis[k]] else []
  }

  /** What an element contributes to the output context: everything in scope, or what it visibly utilizes. */
  function Used(mode: Mode, node: Node, axis: seq<Ns>): seq<Ns>
    requires node.Element?
  {
    if mode == Canonical10 then Selected(axis, |axis|) else ElementNs(node, axis) + AttrNss(node.attrs)
  }

  predicate HasDefault(l: seq<Ns>) {
    exists i :: 0 <= i < |l| && l[i].prefix == ""
  }

  /** The extra xmlns="" of the axis walk. */
  predicate NeedsEmptyDefault(mode: Mode, node: Node, axis: seq<Ns>, out: Bindings)
    requires node.Element?
  {
    && (mode == Canonical10 || node.ns.None?)
    && !HasDefault(Used(mode, node, axis))
    && !Rendered(out + Bound(Used(mode, node, axis)), EMPTY_DEFAULT)
  }

  function NsTokens(l: seq<Ns>): seq<Token> {
    if l == [] then [] else NsTokens(l[..|l| - 1]) + [NsDecl(l[|l| - 1])]
  }

  function NsAxis(mode: Mode, node: Node, axis: seq<Ns>, out: Bindings): seq<Ns>
    requires node.Element?
  {
    (if NeedsEmptyDefault(mode, node, axis, out) then [EMPTY_DEFAULT] else [])
    + Unrendered(out, Used(mode, node, axis))
  }

  /** xmlC14NAttrsCompare, for attributes that have no namespace or a prefixed one. */
  function AttrCompare(a: Attr, b: Attr): int {
    if a.ns == b.ns then StrCmp(a.name, b.name)
    else if a.ns.None? then -1
    else if b.ns.None? then 1
    else
      var ret := StrCmp(a.ns.value.href, b.ns.value.href);
      if ret == 0 then StrCmp(a.name, b.name) else ret
  }

  function OwnAttrs(attrs: seq<Attr>): seq<Attr> {
    if attrs == [] then []
    else Inserted(AttrCompare, OwnAttrs(attrs[..|attrs| - 1]), attrs[|attrs| - 1])
  }

  /** Adds the xml: attributes of one hidden-chain ancestor that are not in the list yet. */
  function Inherit(list: seq<Attr>, attrs: seq<Attr>): seq<Attr> {
    if attrs == [] then list
    else
      var prev, a := Inherit(list, attrs[..|attrs| - 1]), attrs[|attrs| - 1];
      if IsXmlAttr(a) && !Found(AttrCompare, prev, a) then Inserted(AttrCompare, prev, a) else prev
  }

  function InheritAll(list: seq<Attr>, anc: seq<Node>): seq<Attr> {
    if anc == [] then list
    else Inherit(InheritAll(list, anc[..|anc| - 1]), Attrs(anc[|anc| - 1]))
  }

  predicate Orphan(mode: Mode, anc: seq<Node>) {
    mode == Canonical10 && anc != [] && !anc[0].visible
  }

  function AttrAxis(mode: Mode, node: Node, anc: seq<Node>): seq<Attr> {
    if Orphan(mode, anc) then InheritAll(OwnAttrs(Attrs(node)), anc) else OwnAttrs(Attrs(node))
  }

  function AttrTokens(l: seq<Attr>): seq<Token> {
    if l == [] then [] else AttrTokens(l[..|l| - 1]) + [Attribute(l[|l| - 1])]
  }

  function TagPrefix(node: Node): string
    requires node.Element?
  {
    if node.ns.Some? then node.ns.value.prefix else ""
  }

  function StartTokens(mode: Mode, node: Node, anc: seq<Node>, out: Bindings): seq<Token>
    requires node.Element?
  {
    [StartTag(TagPrefix(node), node.name)]
    + NsTokens(NsAxis(mode, node, Axis([node] + anc), out))
    + AttrTokens(AttrAxis(mode, node, anc))
    + [EndOfStart]
  }

  /** The canonical form of a subtree; `out` is the context rendered by its printed ancestors. */
  function Canon(mode: Mode, node: Node, anc: seq<Node>, out: Bindings): seq<Token>
    decreases node, 1
  {
    if node.Text? then (if node.visible then [Characters(node.content)] else [])
    else
      var axis := Axis([node] + anc);
      if !node.visible then CanonList(mode, node.children, [node] + anc, out)
      else
        StartTokens(mode, node, anc, out)
        + CanonList(mode, node.children, [node] + anc, out + Bound(Used(mode, node, axis)))
        + [EndTag(TagPrefix(node), node.name)]
  }

  function CanonList(mode: Mode, nodes: seq<Node>, anc: seq<Node>, out: Bindings): seq<Token>
    decreases nodes, 0
  {
    if nodes == [] then []
    else CanonList(mode, nodes[..|nodes| - 1], anc, out) + Canon(mode, nodes[|nodes| - 1], anc, out)
  }

  lemma {:induction false} BoundConcat(a: seq<Ns>, b: seq<Ns>)
    ensures Bound(a + b) == Bound(a) + Bound(b)
  {
    if b == [] {
      assert a + b == a;
    } else {
      var n := |b| - 1;
      BoundConcat(a, b[..n]);
      BoundSnoc(a + b[..n], b[n]);
      BoundSnoc(b[..n], b[n]);
      OverrideOne(Bound(a), Bound(b[..n]), b[n].prefix, b[n].href);
      assert a + b == a + b[..n] + [b[n]] && b == b[..n] + [b[n]];
    }
  }

  lemma OverrideOne(m: Bindings, k: Bindings, prefix: string, href: string)
    ensures (m + k)[prefix := href] == m + k[prefix := href]
  {
  }

  lemma BoundSnoc(l: seq<Ns>, ns: Ns)
    ensures Bound(l + [ns]) == Bound(l)[ns.prefix := ns.href]
  {
    assert (l + [ns])[..|l|] == l;
  }

  lemma OverrideSnoc(out: Bindings, l: seq<Ns>, ns: Ns)
    ensures out + Bound(l + [ns]) == (out + Bound(l))[ns.prefix := ns.href]
  {
    BoundSnoc(l, ns);
  }

  /** Bound reads off the last entry with the prefix. */
  lemma {:induction false} BoundAt(l: seq<Ns>, i: nat)
    requires i < |l| && forall j :: i < j < |l| ==> l[j].prefix != l[i].prefix
    ensures l[i].prefix in Bound(l) && Bound(l)[l[i].prefix] == l[i].href
  {
    if i < |l| - 1 {
      BoundAt(l[..|l| - 1], i);
    }
  }

  lemma {:induction false} BoundNowhere(l: seq<Ns>, p: string)
    ensures p in Bound(l) <==> exists i :: 0 <= i < |l| && l[i].prefix == p
  {
    if l != [] {
      var front := l[..|l| - 1];
      BoundNowhere(front, p);
      if i :| 0 <= i < |front| && front[i].prefix == p { assert l[i].prefix == p; }
      if i :| 0 <= i < |l| && l[i].prefix == p { assert i < |front| ==> front[i].prefix == p; }
    }
  }

  lemma {:induction false} AxisPrefix(path: seq<Node>, i: nat)
    requires i <= |path|
    ensures Axis(path[..i]) <= Axis(path)
  {
    if i == |path| {
      assert path[..i] == path;
    } else {
      var front := path[..|path| - 1];
      AxisPrefix(front, i);
      assert front[..i] == path[..i];
    }
  }

  lemma AxisExtend(path: seq<Node>, i: nat)
    requires i < |path|
    ensures Axis(path[..i + 1]) == Axis(path[..i]) + Decls(path[i])
    ensures Axis(path[..i + 1]) <= Axis(path)
  {
    AxisPrefix(path, i + 1);
    assert path[..i + 1][..i] == path[..i];
  }

  lemma {:induction false} AxisCons(node: Node, anc: seq<Node>)
    ensures Axis([node] + anc) == Decls(node) + Axis(anc)
  {
    if anc == [] {
      assert [node] + anc == [] + [node];
      AxisSnoc([], node);
    } else {
      var front, last := anc[..|anc| - 1], anc[|anc| - 1];
      AxisCons(node, front);
      AxisSnoc([node] + front, last);
      assert [node] + anc == [node] + front + [last];
      assert Decls(node) + Axis(front) + Decls(last) == Decls(node) + (Axis(front) + Decls(last));
    }
  }

  lemma AxisSnoc(path: seq<Node>, last: Node)
    ensures Axis(path + [last]) == Axis(path) + Decls(last)
  {
    assert (path + [last])[..|path|] == path;
  }
}
