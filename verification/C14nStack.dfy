/** The stack of rendered namespaces: one growing table cut into segments by
    three indices that are saved, restored and shifted. */
module C14nStack {
  import opened C14nModel

  const XML_NAMESPACES_DEFAULT := 16

  datatype StackPosition = StackPosition(nsCurEnd: nat, nsPrevStart: nat, nsPrevEnd: nat)

  class VisibleNsStack {
    var nsCurEnd: nat
    var nsPrevStart: nat
    var nsPrevEnd: nat
    var nsTab: seq<Ns>  // its length is nsMax; entries from nsCurEnd on are stale

    ghost predicate Valid()
      reads this
    {
      nsPrevStart <= nsPrevEnd <= nsCurEnd <= |nsTab|
    }

    ghost function Entries(): seq<Ns>
      reads this
      requires Valid()
    {
      nsTab[..nsCurEnd]
    }

    /** The segments that an inclusive search looks at. */
    ghost function Recent(): seq<Ns>
      reads this
      requires Valid()
    {
      nsTab[nsPrevStart..nsCurEnd]
    }

    ghost function Position(): StackPosition
      reads this
    {
      StackPosition(nsCurEnd, nsPrevStart, nsPrevEnd)
    }

    constructor ()
      ensures Valid() && Position() == StackPosition(0, 0, 0)
    {
      nsCurEnd, nsPrevStart, nsPrevEnd, nsTab := 0, 0, 0, [];
    }

    method Add(ns: Ns)
      requires Valid()
      modifies this
      ensures Valid() && nsPrevStart == old(nsPrevStart) && nsPrevEnd == old(nsPrevEnd)
      ensures Entries() == old(Entries()) + [ns]
      ensures Recent() == old(Recent()) + [ns]
    {
      if |nsTab| == 0 {
        nsTab := seq(XML_NAMESPACES_DEFAULT, _ => EMPTY_DEFAULT);
      } else if |nsTab| == nsCurEnd {
        nsTab := nsTab + seq(|nsTab|, _ => EMPTY_DEFAULT);
      }
      nsTab := nsTab[nsCurEnd := ns];
      nsCurEnd := nsCurEnd + 1;
    }

    method Save() returns (state: StackPosition)
      ensures state == Position()
    {
      state := StackPosition(nsCurEnd, nsPrevStart, nsPrevEnd);
    }

    method Restore(state: StackPosition)
      modifies this
      ensures Position() == state && nsTab == old(nsTab)
    {
      nsCurEnd := state.nsCurEnd;
      nsPrevStart := state.nsPrevStart;
      nsPrevEnd := state.nsPrevEnd;
    }

    method Shift()
      requires Valid()
      modifies this
      ensures Valid() && nsTab == old(nsTab) && nsCurEnd == old(nsCurEnd)
      ensures nsPrevStart == old(nsPrevEnd) && nsPrevEnd == nsCurEnd
    {
      nsPrevStart := nsPrevEnd;
      nsPrevEnd := nsCurEnd;
    }

    /** xmlC14NVisibleNsStackFind: searches the recent segments, or everything for xmlns="". */
    method Find(ns: Ns) returns (found: bool)
      requires Valid()
      ensures found == Rendered(Bound(if ns == EMPTY_DEFAULT then Entries() else Recent()), ns)
    {
      var hasEmptyNs := ns == EMPTY_DEFAULT;
      var start := if hasEmptyNs then 0 else nsPrevStart;
      found := FindFrom(start, ns);
    }

    /** xmlExcC14NVisibleNsStackFind: always searches the whole stack. */
    method ExcFind(ns: Ns) returns (found: bool)
      requires Valid()
      ensures found == Rendered(Bound(Entries()), ns)
    {
      found := FindFrom(0, ns);
    }

    method FindFrom(start: nat, ns: Ns) returns (found: bool)
      requires Valid() && start <= nsCurEnd
      ensures found == Rendered(Bound(nsTab[start..nsCurEnd]), ns)
    {
      ghost var range := nsTab[start..nsCurEnd];
      var i := nsCurEnd as int - 1;
      while i >= start
        invariant start - 1 <= i < nsCurEnd
        invariant forall j :: i - start < j < |range| ==> range[j].prefix != ns.prefix
      {
        var ns1 := nsTab[i];
        if ns.prefix == ns1.prefix {
          BoundAt(range, i - start);
          return ns.href == ns1.href;
        }
        i := i - 1;
      }
      BoundNowhere(range, ns.prefix);
      found := ns == EMPTY_DEFAULT;
    }
  }
}
