/** The ordered list of list.c: insertion and lookup go through a comparator. */
module XmlLists {
  ghost predicate LawsAt<T>(cmp: (T, T) -> int, x: T, y: T, z: T) {
    && (cmp(x, y) < 0 <==> cmp(y, x) > 0)
    && (cmp(x, y) <= 0 && cmp(y, z) <= 0 ==> cmp(x, z) <= 0)
    && (cmp(x, y) < 0 && cmp(y, z) <= 0 ==> cmp(x, z) < 0)
    && (cmp(x, y) <= 0 && cmp(y, z) < 0 ==> cmp(x, z) < 0)
  }

  ghost predicate TotalPreorder<T(!new)>(cmp: (T, T) -> int) {
    forall x: T, y: T, z: T :: LawsAt(cmp, x, y, z)
  }

  ghost predicate Sorted<T>(cmp: (T, T) -> int, l: seq<T>) {
    forall i, j :: 0 <= i < j < |l| ==> cmp(l[i], l[j]) <= 0
  }

  ghost predicate StrictlySorted<T>(cmp: (T, T) -> int, l: seq<T>) {
    forall i, j :: 0 <= i < j < |l| ==> cmp(l[i], l[j]) < 0
  }

  /** The first position whose element is not below x. */
  function LowerSearch<T>(cmp: (T, T) -> int, l: seq<T>, x: T): (k: nat)
    ensures k <= |l|
    ensures forall i :: 0 <= i < k ==> cmp(l[i], x) < 0
    ensures k < |l| ==> cmp(l[k], x) >= 0
  {
    if l == [] || cmp(l[0], x) >= 0 then 0 else 1 + LowerSearch(cmp, l[1..], x)
  }

  function Inserted<T>(cmp: (T, T) -> int, l: seq<T>, x: T): seq<T> {
    var k := LowerSearch(cmp, l, x);
    l[..k] + [x] + l[k..]
  }

  predicate Found<T>(cmp: (T, T) -> int, l: seq<T>, x: T) {
    var k := LowerSearch(cmp, l, x);
    k < |l| && cmp(l[k], x) == 0
  }

  /** xmlListInsert: walk to the first element that is not smaller, link in front of it. */
  method ListInsert<T>(cmp: (T, T) -> int, l: seq<T>, x: T) returns (r: seq<T>)
    ensures r == Inserted(cmp, l, x)
  {
    var k := ListLowerSearch(cmp, l, x);
    r := l[..k] + [x] + l[k..];
  }

  /** xmlListSearch. */
  method ListSearch<T>(cmp: (T, T) -> int, l: seq<T>, x: T) returns (found: bool)
    ensures found == Found(cmp, l, x)
  {
    var k := ListLowerSearch(cmp, l, x);
    found := k < |l| && cmp(l[k], x) == 0;
  }

  method ListLowerSearch<T>(cmp: (T, T) -> int, l: seq<T>, x: T) returns (k: nat)
    ensures k == LowerSearch(cmp, l, x)
  {
    k := 0;
    while k < |l| && cmp(l[k], x) < 0
      invariant k <= |l|
      invariant LowerSearch(cmp, l, x) == k + LowerSearch(cmp, l[k..], x)
    {
      assert l[k..][1..] == l[k + 1..];
      k := k + 1;
    }
  }

  /** Everything behind the insertion point is not below x. */
  lemma BehindInsertion<T(!new)>(cmp: (T, T) -> int, l: seq<T>, x: T, j: nat)
    requires TotalPreorder(cmp) && Sorted(cmp, l)
    requires LowerSearch(cmp, l, x) <= j < |l|
    ensures cmp(x, l[j]) <= 0
  {
    var k := LowerSearch(cmp, l, x);
    assert LawsAt(cmp, x, l[k], l[j]);
    assert LawsAt(cmp, l[k], x, x);
    assert LawsAt(cmp, x, x, x) && LawsAt(cmp, l[k], l[k], x);
    if k < j {
      assert cmp(l[k], l[j]) <= 0;
    }
  }

  /** Insertion keeps the list sorted and adds exactly the new element. */
  lemma InsertedSorted<T(!new)>(cmp: (T, T) -> int, l: seq<T>, x: T)
    requires TotalPreorder(cmp) && Sorted(cmp, l)
    ensures Sorted(cmp, Inserted(cmp, l, x))
  {
    var k := LowerSearch(cmp, l, x);
    var r := Inserted(cmp, l, x);
    forall i, j | 0 <= i < j < |r|
      ensures cmp(r[i], r[j]) <= 0
    {
      if i == k {
        BehindInsertion(cmp, l, x, j - 1);
      }
    }
  }

  lemma InsertedElements<T>(cmp: (T, T) -> int, l: seq<T>, x: T)
    ensures multiset(Inserted(cmp, l, x)) == multiset(l) + multiset{x}
    ensures forall y :: y in Inserted(cmp, l, x) <==> y == x || y in l
  {
    var k := LowerSearch(cmp, l, x);
    assert l == l[..k] + l[k..];
    assert multiset(l) == multiset(l[..k]) + multiset(l[k..]);
    forall y
      ensures y in Inserted(cmp, l, x) <==> y == x || y in l
    {
      assert y in Inserted(cmp, l, x) <==> multiset(Inserted(cmp, l, x))[y] > 0;
      assert y in l <==> multiset(l)[y] > 0;
    }
  }

  lemma StrictIsSorted<T>(cmp: (T, T) -> int, l: seq<T>)
    requires StrictlySorted(cmp, l)
    ensures Sorted(cmp, l)
  {
  }

  lemma InsertedStrict<T(!new)>(cmp: (T, T) -> int, l: seq<T>, x: T)
    requires TotalPreorder(cmp) && StrictlySorted(cmp, l)
    requires forall y :: y in l ==> cmp(y, x) != 0
    ensures StrictlySorted(cmp, Inserted(cmp, l, x))
  {
    StrictIsSorted(cmp, l);
    var k := LowerSearch(cmp, l, x);
    var r := Inserted(cmp, l, x);
    forall i, j | 0 <= i < j < |r|
      ensures cmp(r[i], r[j]) < 0
    {
      if i == k {
        StrictlyBehind(cmp, l, x, j - 1);
      } else if j == k {
        StrictlyBefore(cmp, l, x, i);
      }
    }
  }

  lemma StrictlyBehind<T(!new)>(cmp: (T, T) -> int, l: seq<T>, x: T, j: nat)
    requires TotalPreorder(cmp) && Sorted(cmp, l)
    requires LowerSearch(cmp, l, x) <= j < |l| && cmp(l[j], x) != 0
    ensures cmp(x, l[j]) < 0
  {
    BehindInsertion(cmp, l, x, j);
    assert LawsAt(cmp, x, l[j], x) && LawsAt(cmp, l[j], x, x);
  }

  lemma StrictlyBefore<T>(cmp: (T, T) -> int, l: seq<T>, x: T, i: nat)
    requires i < LowerSearch(cmp, l, x)
    ensures cmp(l[i], x) < 0
  {
  }

  /** On a sorted list the lookup is exact, although it stops at the first candidate. */
  lemma FoundIff<T(!new)>(cmp: (T, T) -> int, l: seq<T>, x: T)
    requires TotalPreorder(cmp) && Sorted(cmp, l)
    ensures Found(cmp, l, x) <==> exists i :: 0 <= i < |l| && cmp(l[i], x) == 0
  {
    var k := LowerSearch(cmp, l, x);
    if i :| 0 <= i < |l| && cmp(l[i], x) == 0 {
      assert k <= i;
      assert k < i ==> cmp(l[k], l[i]) <= 0;
      assert LawsAt(cmp, l[k], l[i], x);
    }
  }

  /** A strictly sorted list is determined by its elements. */
  lemma {:induction false} StrictlySortedUnique<T(!new)>(cmp: (T, T) -> int, a: seq<T>, b: seq<T>)
    requires TotalPreorder(cmp) && StrictlySorted(cmp, a) && StrictlySorted(cmp, b)
    requires forall x :: x in a <==> x in b
    ensures a == b
  {
    assert b != [] ==> b[0] in b;
    if a != [] {
      SameTails(cmp, a, b);
      StrictlySortedUnique(cmp, a[1..], b[1..]);
      assert a == [a[0]] + a[1..] && b == [b[0]] + b[1..];
    }
  }

  lemma SameTails<T(!new)>(cmp: (T, T) -> int, a: seq<T>, b: seq<T>)
    requires TotalPreorder(cmp) && StrictlySorted(cmp, a) && StrictlySorted(cmp, b) && a != []
    requires forall x :: x in a <==> x in b
    ensures b != [] && a[0] == b[0] && StrictlySorted(cmp, a[1..]) && StrictlySorted(cmp, b[1..])
    ensures forall x :: x in a[1..] <==> x in b[1..]
  {
    assert a[0] in a && a[0] in b;
    assert b[0] in b && b[0] in a;
    HeadsAgree(cmp, a, b);
    TailElements(cmp, a, b);
    TailElements(cmp, b, a);
    TailStrict(cmp, a);
    TailStrict(cmp, b);
  }

  lemma TailStrict<T>(cmp: (T, T) -> int, a: seq<T>)
    requires StrictlySorted(cmp, a) && a != []
    ensures StrictlySorted(cmp, a[1..])
  {
  }

  lemma HeadsAgree<T(!new)>(cmp: (T, T) -> int, a: seq<T>, b: seq<T>)
    requires TotalPreorder(cmp) && StrictlySorted(cmp, a) && StrictlySorted(cmp, b)
    requires a != [] && b != [] && a[0] in b && b[0] in a
    ensures a[0] == b[0]
  {
    var i :| 0 <= i < |b| && b[i] == a[0];
    var j :| 0 <= j < |a| && a[j] == b[0];
    assert LawsAt(cmp, b[0], a[0], b[0]);
    assert forall k :: 0 < k < |b| ==> cmp(b[0], b[k]) < 0;
    assert forall k :: 0 < k < |a| ==> cmp(a[0], a[k]) < 0;
    if i != 0 && j != 0 {
      assert false;
    }
  }

  lemma TailElements<T(!new)>(cmp: (T, T) -> int, a: seq<T>, b: seq<T>)
    requires TotalPreorder(cmp) && StrictlySorted(cmp, a)
    requires a != [] && b != [] && a[0] == b[0]
    requires forall x :: x in a ==> x in b
    ensures forall x :: x in a[1..] ==> x in b[1..]
  {
    forall x | x in a[1..]
      ensures x in b[1..]
    {
      var i :| 0 <= i < |a[1..]| && a[1..][i] == x;
      assert a[i + 1] == x;
      var y := a[0];
      assert cmp(y, x) < 0 by { assert cmp(a[0], a[i + 1]) < 0; }
      assert LawsAt(cmp, y, x, y);
      assert x in a && x in b;
      var j :| 0 <= j < |b| && b[j] == x;
      assert j != 0;
      assert b[1..][j - 1] == x;
    }
  }
}
