/** Which declarations are in scope, and how the canonical lists grow with them. */
module C14nScope {
  import opened XmlLists
  import opened C14nModel

  /** What the printed ancestors rendered is still bound, perhaps differently, where the walk is now. */
  ghost predicate Inscope(mode: Mode, anc: seq<Node>, out: Bindings) {
    mode == Canonical10 ==> out.Keys <= Bound(Selected(Axis(anc), |Axis(anc)|)).Keys
  }

  lemma InscopeUsed(mode: Mode, cur: Node, anc: seq<Node>, out: Bindings)
    requires cur.Element? && Inscope(mode, anc, out)
    ensures mode == Canonical10 ==> out.Keys <= Bound(Used(mode, cur, Axis([cur] + anc))).Keys
  {
    if mode == Canonical10 {
      forall p | p in out.Keys
        ensures p in Bound(Used(mode, cur, Axis([cur] + anc)))
      {
        ScopeGrows(cur, anc, p);
      }
    }
  }

  lemma InscopeChild(mode: Mode, cur: Node, anc: seq<Node>, out: Bindings)
    requires cur.Element? && Inscope(mode, anc, out)
    ensures Inscope(mode, [cur] + anc, out)
    ensures Inscope(mode, [cur] + anc, out + Bound(Used(mode, cur, Axis([cur] + anc))))
  {
    InscopeUsed(mode, cur, anc, out);
  }

  /** A prefix bound at the parent is bound at the child. */
  lemma ScopeGrows(cur: Node, anc: seq<Node>, p: string)
    requires p in Bound(Selected(Axis(anc), |Axis(anc)|))
    ensures p in Bound(Selected(Axis([cur] + anc), |Axis([cur] + anc)|))
  {
    var inner, outer := Axis([cur] + anc), Axis(anc);
    AxisCons(cur, anc);
    SelectedBinds(outer, |outer|, p);
    SelectedBinds(inner, |inner|, p);
    assert inner[|Decls(cur)| + SearchIndex(outer, p)].prefix == p;
  }

  /** The selected declarations bind every prefix to its nearest declaration. */
  lemma {:induction false} SelectedBinds(axis: seq<Ns>, k: nat, p: string)
    requires k <= |axis|
    ensures p in Bound(Selected(axis, k)) <==> SearchIndex(axis, p) < k
    ensures p in Bound(Selected(axis, k)) ==> Bound(Selected(axis, k))[p] == axis[SearchIndex(axis, p)].href
  {
    if k > 0 {
      SelectedBinds(axis, k - 1, p);
      SelectedBindsNext(axis, k - 1, p);
    }
  }

  lemma SelectedBindsNext(axis: seq<Ns>, k: nat, p: string)
    requires k < |axis|
    requires p in Bound(Selected(axis, k)) <==> SearchIndex(axis, p) < k
    requires p in Bound(Selected(axis, k)) ==> Bound(Selected(axis, k))[p] == axis[SearchIndex(axis, p)].href
    ensures p in Bound(Selected(axis, k + 1)) <==> SearchIndex(axis, p) < k + 1
    ensures p in Bound(Selected(axis, k + 1)) ==> Bound(Selected(axis, k + 1))[p] == axis[SearchIndex(axis, p)].href
  {
    SelectedBindsOne(axis, k);
    NearestFirst(axis, k);
    OneMoreBinding(Bound(Selected(axis, k)), Bound(Selected(axis, k + 1)), axis, k, p, SearchIndex(axis, p));
  }

  lemma OneMoreBinding(m: Bindings, m': Bindings, axis: seq<Ns>, k: nat, p: string, s: nat)
    requires k < |axis| && s == SearchIndex(axis, p)
    requires SearchIndex(axis, axis[k].prefix) <= k || SearchIndex(axis, axis[k].prefix) == |axis|
    requires m' == if SearchIndex(axis, axis[k].prefix) == k then m[axis[k].prefix := axis[k].href] else m
    requires (p in m <==> s < k) && (p in m ==> m[p] == axis[s].href)
    ensures (p in m' <==> s < k + 1) && (p in m' ==> m'[p] == axis[s].href)
  {
  }

  lemma SelectedBindsOne(axis: seq<Ns>, k: nat)
    requires k < |axis|
    ensures Bound(Selected(axis, k + 1)) ==
      if SearchIndex(axis, axis[k].prefix) == k then Bound(Selected(axis, k))[axis[k].prefix := axis[k].href]
      else Bound(Selected(axis, k))
  {
    SelectedSnoc(axis, k);
    BoundSnoc(Selected(axis, k), axis[k]);
  }

  /** The nearest declaration of a prefix is not behind another one, unless the search does not find it at all. */
  lemma NearestFirst(axis: seq<Ns>, k: nat)
    requires k < |axis|
    ensures SearchIndex(axis, axis[k].prefix) <= k || SearchIndex(axis, axis[k].prefix) == |axis|
  {
  }

  lemma SelectedSnoc(axis: seq<Ns>, k: nat)
    requires k < |axis|
    ensures Selected(axis, k + 1) ==
      if SearchIndex(axis, axis[k].prefix) == k then Selected(axis, k) + [axis[k]] else Selected(axis, k)
  {
  }

  lemma UnrenderedSnoc(out: Bindings, used: seq<Ns>, ns: Ns)
    ensures Unrendered(out, used + [ns]) ==
      if Rendered(out + Bound(used), ns) then Unrendered(out, used)
      else Inserted(NsCompare, Unrendered(out, used), ns)
  {
    assert (used + [ns])[..|used|] == used;
  }

  lemma HasDefaultSnoc(l: seq<Ns>, ns: Ns)
    ensures HasDefault(l + [ns]) <==> HasDefault(l) || ns.prefix == ""
  {
    if HasDefault(l) {
      var i :| 0 <= i < |l| && l[i].prefix == "";
      assert (l + [ns])[i].prefix == "";
    }
    assert (l + [ns])[|l|] == ns;
  }

  lemma {:induction false} NsTokensConcat(a: seq<Ns>, b: seq<Ns>)
    ensures NsTokens(a + b) == NsTokens(a) + NsTokens(b)
  {
    if b == [] {
      assert a + b == a;
    } else {
      NsTokensConcat(a, b[..|b| - 1]);
      assert (a + b)[..|a + b| - 1] == a + b[..|b| - 1];
    }
  }
}
