/** Canonical order of namespaces and attributes, and the attributes an orphan element imports. */
module C14nOrder {
  import opened XmlStrings
  import opened XmlLists
  import opened C14nModel

  lemma NsCompareLaws()
    ensures TotalPreorder(NsCompare)
  {
    forall x: Ns, y: Ns, z: Ns
      ensures LawsAt(NsCompare, x, y, z)
    {
      StringLaws(x.prefix, y.prefix, z.prefix);
    }
  }

  lemma StringLaws(x: string, y: string, z: string)
    ensures LawsAt(StrCmp, x, y, z)
    ensures StrCmp(x, y) == 0 <==> x == y
    ensures StrCmp(y, z) == 0 <==> y == z
    ensures StrCmp(x, z) == 0 <==> x == z
    ensures StrCmp(y, x) == 0 <==> x == y
  {
    StrCmpFlip(x, y);
    StrCmpZero(x, y);
    StrCmpZero(y, z);
    StrCmpZero(x, z);
    StrCmpZero(y, x);
    if StrCmp(x, y) <= 0 && StrCmp(y, z) <= 0 {
      StrCmpTransitive(x, y, z);
    }
  }

  /** The namespace URI, if any, and the local name. */
  function ExpandedName(a: Attr): (Option<string>, string) {
    (if a.ns.None? then None else Some(a.ns.value.href), a.name)
  }

  /** The comparator is an order on expanded names, although it looks at namespace pointers first. */
  function NameCompare(x: (Option<string>, string), y: (Option<string>, string)): int {
    if x.0.None? && y.0.None? then StrCmp(x.1, y.1)
    else if x.0.None? then -1
    else if y.0.None? then 1
    else if StrCmp(x.0.value, y.0.value) == 0 then StrCmp(x.1, y.1)
    else StrCmp(x.0.value, y.0.value)
  }

  lemma AttrCompareByName(a: Attr, b: Attr)
    ensures AttrCompare(a, b) == NameCompare(ExpandedName(a), ExpandedName(b))
  {
    if a.ns.Some? && b.ns.Some? {
      StrCmpZero(a.ns.value.href, b.ns.value.href);
    }
  }

  /** Equal exactly on equal expanded names. */
  lemma AttrCompareZero(a: Attr, b: Attr)
    ensures AttrCompare(a, b) == 0 <==> ExpandedName(a) == ExpandedName(b)
  {
    AttrCompareByName(a, b);
    StrCmpZero(a.name, b.name);
    if a.ns.Some? && b.ns.Some? {
      StrCmpZero(a.ns.value.href, b.ns.value.href);
    }
  }

  lemma NameLaws(x: (Option<string>, string), y: (Option<string>, string), z: (Option<string>, string))
    ensures LawsAt(NameCompare, x, y, z)
  {
    StringLaws(x.1, y.1, z.1);
    var hx := if x.0.None? then "" else x.0.value;
    var hy := if y.0.None? then "" else y.0.value;
    var hz := if z.0.None? then "" else z.0.value;
    StringLaws(hx, hy, hz);
  }

  lemma AttrCompareLaws()
    ensures TotalPreorder(AttrCompare)
  {
    forall x: Attr, y: Attr, z: Attr
      ensures LawsAt(AttrCompare, x, y, z)
    {
      AttrCompareByName(x, y);
      AttrCompareByName(y, x);
      AttrCompareByName(y, z);
      AttrCompareByName(x, z);
      NameLaws(ExpandedName(x), ExpandedName(y), ExpandedName(z));
    }
  }

  /** No two attributes of an element have the same expanded name. */
  ghost predicate DistinctAttrs(attrs: seq<Attr>) {
    forall i, j :: 0 <= i < j < |attrs| ==> ExpandedName(attrs[i]) != ExpandedName(attrs[j])
  }

  lemma {:induction false} OwnAttrsSorted(attrs: seq<Attr>)
    requires DistinctAttrs(attrs)
    ensures StrictlySorted(AttrCompare, OwnAttrs(attrs))
    ensures forall a :: a in OwnAttrs(attrs) <==> a in attrs
  {
    if attrs != [] {
      var front, last := attrs[..|attrs| - 1], attrs[|attrs| - 1];
      assert attrs == front + [last];
      OwnAttrsSorted(front);
      AttrCompareLaws();
      forall a | a in OwnAttrs(front)
        ensures AttrCompare(a, last) != 0
      {
        var i :| 0 <= i < |front| && front[i] == a;
        assert attrs[i] == a;
        AttrCompareZero(a, last);
      }
      InsertedStrict(AttrCompare, OwnAttrs(front), last);
      InsertedElements(AttrCompare, OwnAttrs(front), last);
    }
  }

  /** Some attribute of the list has this expanded name. */
  predicate HasName(l: seq<Attr>, name: (Option<string>, string)) {
    exists i :: 0 <= i < |l| && ExpandedName(l[i]) == name
  }

  /** One ancestor: its xml: attributes are merged in unless the list already has the name. */
  lemma {:induction false} InheritElements(list: seq<Attr>, attrs: seq<Attr>)
    requires StrictlySorted(AttrCompare, list) && DistinctAttrs(attrs)
    ensures StrictlySorted(AttrCompare, Inherit(list, attrs))
    ensures forall a :: a in Inherit(list, attrs) <==>
              a in list || (a in attrs && IsXmlAttr(a) && !HasName(list, ExpandedName(a)))
  {
    if attrs != [] {
      var front, last := attrs[..|attrs| - 1], attrs[|attrs| - 1];
      assert attrs == front + [last];
      InheritElements(list, front);
      InheritStep(list, front, last);
    }
  }

  lemma InheritStep(list: seq<Attr>, front: seq<Attr>, last: Attr)
    requires DistinctAttrs(front + [last])
    requires StrictlySorted(AttrCompare, Inherit(list, front))
    requires forall a :: a in Inherit(list, front) <==>
               a in list || (a in front && IsXmlAttr(a) && !HasName(list, ExpandedName(a)))
    ensures StrictlySorted(AttrCompare, Inherit(list, front + [last]))
    ensures forall a :: a in Inherit(list, front + [last]) <==>
              a in list || (a in front + [last] && IsXmlAttr(a) && !HasName(list, ExpandedName(a)))
  {
    var prev := Inherit(list, front);
    assert (front + [last])[..|front|] == front;
    AttrCompareLaws();
    NameInPrev(list, front, last, prev);
    FoundMeansNamed(prev, last);
    if IsXmlAttr(last) && !Found(AttrCompare, prev, last) {
      InsertedStrict(AttrCompare, prev, last);
      InsertedElements(AttrCompare, prev, last);
    }
  }

  lemma FoundMeansNamed(prev: seq<Attr>, last: Attr)
    requires StrictlySorted(AttrCompare, prev) && TotalPreorder(AttrCompare)
    ensures Found(AttrCompare, prev, last) <==> HasName(prev, ExpandedName(last))
    ensures !Found(AttrCompare, prev, last) ==> forall a :: a in prev ==> AttrCompare(a, last) != 0
  {
    StrictIsSorted(AttrCompare, prev);
    FoundIff(AttrCompare, prev, last);
    forall i | 0 <= i < |prev|
      ensures AttrCompare(prev[i], last) == 0 <==> ExpandedName(prev[i]) == ExpandedName(last)
    {
      AttrCompareZero(prev[i], last);
    }
    forall a | a in prev && !Found(AttrCompare, prev, last)
      ensures AttrCompare(a, last) != 0
    {
      var i :| 0 <= i < |prev| && prev[i] == a;
    }
  }

  /** The name of a further attribute is in the merged list exactly if it was there from the start. */
  lemma NameInPrev(list: seq<Attr>, front: seq<Attr>, last: Attr, prev: seq<Attr>)
    requires DistinctAttrs(front + [last])
    requires forall a :: a in prev <==>
               a in list || (a in front && IsXmlAttr(a) && !HasName(list, ExpandedName(a)))
    ensures HasName(prev, ExpandedName(last)) <==> HasName(list, ExpandedName(last))
  {
    assert forall i :: 0 <= i < |front| ==> (front + [last])[i] == front[i];
    assert (front + [last])[|front|] == last;
    if HasName(list, ExpandedName(last)) {
      var i :| 0 <= i < |list| && ExpandedName(list[i]) == ExpandedName(last);
      assert list[i] in prev;
      var j :| 0 <= j < |prev| && prev[j] == list[i];
    }
    if HasName(prev, ExpandedName(last)) {
      var j :| 0 <= j < |prev| && ExpandedName(prev[j]) == ExpandedName(last);
      assert prev[j] in prev;
      if prev[j] in list {
        var i :| 0 <= i < |list| && list[i] == prev[j];
      }
    }
  }

  predicate HasXmlName(l: seq<Attr>, name: (Option<string>, string)) {
    exists i :: 0 <= i < |l| && IsXmlAttr(l[i]) && ExpandedName(l[i]) == name
  }

  /** An xml: attribute of ancestor k that neither the element nor a nearer ancestor carries. */
  ghost predicate NearestAt(own: seq<Attr>, anc: seq<Node>, k: nat, a: Attr)
    requires k < |anc|
  {
    && a in Attrs(anc[k]) && IsXmlAttr(a)
    && !HasName(own, ExpandedName(a))
    && forall j :: 0 <= j < k ==> !HasXmlName(Attrs(anc[j]), ExpandedName(a))
  }

  ghost predicate NearestXmlAttr(own: seq<Attr>, anc: seq<Node>, a: Attr) {
    exists k :: 0 <= k < |anc| && NearestAt(own, anc, k, a)
  }

  /** An orphan element prints its own attributes and, for every other xml: name found on the
      ancestor axis, exactly the nearest occurrence, once and in canonical order. */
  lemma {:induction false} OrphanImports(own: seq<Attr>, anc: seq<Node>)
    requires StrictlySorted(AttrCompare, own)
    requires forall k :: 0 <= k < |anc| ==> DistinctAttrs(Attrs(anc[k]))
    ensures StrictlySorted(AttrCompare, InheritAll(own, anc))
    ensures forall a :: a in InheritAll(own, anc) <==> a in own || NearestXmlAttr(own, anc, a)
  {
    if anc != [] {
      var n := |anc| - 1;
      OrphanImports(own, anc[..n]);
      InheritElements(InheritAll(own, anc[..n]), Attrs(anc[n]));
      forall a
        ensures a in InheritAll(own, anc) <==> a in own || NearestXmlAttr(own, anc, a)
      {
        OrphanStep(own, anc, InheritAll(own, anc[..n]), a);
      }
    }
  }

  lemma OrphanStep(own: seq<Attr>, anc: seq<Node>, prev: seq<Attr>, a: Attr)
    requires anc != []
    requires forall k :: 0 <= k < |anc| ==> DistinctAttrs(Attrs(anc[k]))
    requires forall b :: b in prev <==> b in own || NearestXmlAttr(own, anc[..|anc| - 1], b)
    ensures (a in prev || (a in Attrs(anc[|anc| - 1]) && IsXmlAttr(a) && !HasName(prev, ExpandedName(a))))
            <==> a in own || NearestXmlAttr(own, anc, a)
  {
    var n := |anc| - 1;
    NearestSplit(own, anc, a);
    if IsXmlAttr(a) {
      NameImported(own, anc[..n], prev, a);
    }
  }

  lemma NearestSplit(own: seq<Attr>, anc: seq<Node>, a: Attr)
    requires anc != []
    ensures var n := |anc| - 1;
            NearestXmlAttr(own, anc, a) <==> NearestXmlAttr(own, anc[..n], a) || NearestAt(own, anc, n, a)
  {
    var n := |anc| - 1;
    if k :| 0 <= k < n && NearestAt(own, anc[..n], k, a) {
      assert NearestAt(own, anc, k, a);
    }
    if k :| 0 <= k < |anc| && NearestAt(own, anc, k, a) {
      assert k < n ==> NearestAt(own, anc[..n], k, a);
    }
  }

  /** An xml: name is in the merged list exactly if the element or one of the ancestors has it. */
  lemma NameImported(own: seq<Attr>, anc: seq<Node>, merged: seq<Attr>, a: Attr)
    requires IsXmlAttr(a)
    requires forall k :: 0 <= k < |anc| ==> DistinctAttrs(Attrs(anc[k]))
    requires forall b :: b in merged <==> b in own || NearestXmlAttr(own, anc, b)
    ensures HasName(merged, ExpandedName(a)) <==>
            HasName(own, ExpandedName(a)) || exists k :: 0 <= k < |anc| && HasXmlName(Attrs(anc[k]), ExpandedName(a))
  {
    var name := ExpandedName(a);
    if HasName(merged, name) {
      var i :| 0 <= i < |merged| && ExpandedName(merged[i]) == name;
      var b := merged[i];
      assert b in merged;
      if b in own {
        var j :| 0 <= j < |own| && own[j] == b;
      } else {
        var k :| 0 <= k < |anc| && NearestAt(own, anc, k, b);
        var j :| 0 <= j < |Attrs(anc[k])| && Attrs(anc[k])[j] == b;
        assert HasXmlName(Attrs(anc[k]), name);
      }
    }
    if HasName(own, name) {
      var j :| 0 <= j < |own| && ExpandedName(own[j]) == name;
      InList(own[j], merged, name);
    } else if k :| 0 <= k < |anc| && HasXmlName(Attrs(anc[k]), name) {
      var k0 := NearestWithName(anc, name, k);
      var j :| 0 <= j < |Attrs(anc[k0])| && IsXmlAttr(Attrs(anc[k0])[j]) && ExpandedName(Attrs(anc[k0])[j]) == name;
      var b := Attrs(anc[k0])[j];
      assert NearestAt(own, anc, k0, b);
      InList(b, merged, name);
    }
  }

  lemma InList(b: Attr, l: seq<Attr>, name: (Option<string>, string))
    requires b in l && ExpandedName(b) == name
    ensures HasName(l, name)
  {
    var i :| 0 <= i < |l| && l[i] == b;
  }

  lemma {:induction false} NearestWithName(anc: seq<Node>, name: (Option<string>, string), k: nat) returns (k0: nat)
    requires k < |anc| && HasXmlName(Attrs(anc[k]), name)
    ensures k0 <= k && HasXmlName(Attrs(anc[k0]), name)
    ensures forall j :: 0 <= j < k0 ==> !HasXmlName(Attrs(anc[j]), name)
  {
    k0 := 0;
    while !HasXmlName(Attrs(anc[k0]), name)
      invariant k0 <= k
      invariant forall j :: 0 <= j < k0 ==> !HasXmlName(Attrs(anc[j]), name)
      decreases k - k0
    {
      k0 := k0 + 1;
    }
  }
}
