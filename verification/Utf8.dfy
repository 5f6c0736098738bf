/** Code points and their UTF-8 form (section 3 of RFC 3629). */
module Utf8 {
  type Byte = b: int | 0 <= b < 256
  type CodePoint = c: int | 0 <= c < 0x11_0000

  /** The Char production of XML 1.0. */
  predicate IsXmlChar(c: int) {
    c == 9 || c == 10 || c == 13 || 0x20 <= c <= 0xD7FF || 0xE000 <= c <= 0xFFFD || 0x1_0000 <= c <= 0x10_FFFF
  }

  predicate IsBlank(c: int) {
    c == 0x20 || c == 9 || c == 10 || c == 13
  }

  function Encode(c: CodePoint): (s: seq<Byte>)
    ensures 1 <= |s| <= 4
    ensures |s| == 1 <==> c < 0x80
    ensures forall k :: 0 <= k < |s| && c >= 0x80 ==> s[k] >= 0x80
  {
    if c < 0x80 then [c]
    else if c < 0x800 then [0xC0 + c / 64, 0x80 + c % 64]
    else if c < 0x1_0000 then [0xE0 + c / 4096, 0x80 + c / 64 % 64, 0x80 + c % 64]
    else [0xF0 + c / 26_2144, 0x80 + c / 4096 % 64, 0x80 + c / 64 % 64, 0x80 + c % 64]
  }

  function EncodeAll(cs: seq<CodePoint>): seq<Byte> {
    if cs == [] then [] else Encode(cs[0]) + EncodeAll(cs[1..])
  }

  lemma {:induction false} EncodeAllSum(a: seq<CodePoint>, b: seq<CodePoint>)
    ensures EncodeAll(a + b) == EncodeAll(a) + EncodeAll(b)
  {
    if a == [] {
      assert a + b == b;
    } else {
      EncodeAllSum(a[1..], b);
      assert (a + b)[1..] == a[1..] + b;
    }
  }

  lemma EncodeAllSnoc(a: seq<CodePoint>, c: CodePoint)
    ensures EncodeAll(a + [c]) == EncodeAll(a) + Encode(c)
  {
    EncodeAllSum(a, [c]);
    assert [c][1..] == [];
    assert EncodeAll([c]) == Encode(c);
  }

  /** Reading one character: its value and length, bytes that start none, or a character cut short. */
  datatype Scan = Char(c: nat, len: nat) | Bad | Short

  predicate IsTrail(b: Byte) {
    0x80 <= b < 0xC0
  }

  /** The trailing bytes from position i on, six bits each. */
  function Trail(s: seq<Byte>, i: nat, n: nat, c: nat): Scan
    requires 1 <= i && i + n <= |s|
    decreases n
  {
    if n == 0 then Char(c, i)
    else if !IsTrail(s[i]) then Bad
    else Trail(s, i + 1, n - 1, c * 64 + s[i] % 64)
  }

  /** How many trailing bytes a leading byte asks for, and the bits it holds. */
  function Lead(d: Byte): (r: (int, nat))
    ensures -1 <= r.0 <= 3
  {
    if d < 0x80 then (0, d)
    else if d < 0xC0 then (-1, 0)
    else if d < 0xE0 then (1, d % 32)
    else if d < 0xF0 then (2, d % 16)
    else if d < 0xF8 then (3, d % 8)
    else (-1, 0)
  }

  function FirstChar(s: seq<Byte>): (r: Scan)
    requires s != []
  {
    var (n, c) := Lead(s[0]);
    if n < 0 then Bad
    else if |s| - 1 < n then Short
    else Trail(s, 1, n, c)
  }

  /** A byte written for x gives its six lowest bits back. */
  lemma TrailStep(s: seq<Byte>, i: nat, n: nat, x: nat)
    requires 1 <= i && i + n + 1 <= |s| && s[i] == 0x80 + x % 64
    ensures Trail(s, i, n + 1, x / 64) == Trail(s, i + 1, n, x)
  {
    assert (0x80 + x % 64) % 64 == x % 64;
    assert x / 64 * 64 + x % 64 == x;
  }

  lemma Halves(c: nat)
    ensures c / 64 / 64 == c / 4096 && c / 4096 / 64 == c / 26_2144
    ensures c < 0x800 ==> (0xC0 + c / 64) % 32 == c / 64 < 32
    ensures c < 0x1_0000 ==> (0xE0 + c / 4096) % 16 == c / 4096 < 16
    ensures c < 0x11_0000 ==> (0xF0 + c / 26_2144) % 8 == c / 26_2144 < 8
  {
  }

  /** The reader undoes the writer, whatever follows. */
  lemma ReaderUndoesWriter(c: CodePoint, rest: seq<Byte>)
    ensures FirstChar(Encode(c) + rest) == Char(c, |Encode(c)|)
  {
    var s, e := Encode(c) + rest, Encode(c);
    Halves(c);
    assert s[0] == e[0];
    if 0x80 <= c < 0x800 {
      assert s[1] == e[1];
      TrailStep(s, 1, 0, c);
    } else if 0x800 <= c < 0x1_0000 {
      assert s[1] == e[1] && s[2] == e[2];
      TrailStep(s, 1, 1, c / 64);
      TrailStep(s, 2, 0, c);
    } else if c >= 0x1_0000 {
      assert s[1] == e[1] && s[2] == e[2] && s[3] == e[3];
      TrailStep(s, 1, 2, c / 4096);
      TrailStep(s, 2, 1, c / 64);
      TrailStep(s, 3, 0, c);
    }
  }

  /** The bytes hold whole characters only. */
  predicate Whole(s: seq<Byte>) {
    s == [] || (FirstChar(s).Char? && 1 <= FirstChar(s).len <= |s| && Whole(s[FirstChar(s).len..]))
  }

  /** Their values; a reader that does not look for overlong forms. */
  function Decode(s: seq<Byte>): seq<nat>
    requires Whole(s)
  {
    if s == [] then [] else [FirstChar(s).c] + Decode(s[FirstChar(s).len..])
  }

  lemma TrailLocal(s: seq<Byte>, t: seq<Byte>, i: nat, n: nat, c: nat)
    requires 1 <= i && i + n <= |s| <= |t| && s == t[..|s|]
    ensures Trail(t, i, n, c) == Trail(s, i, n, c)
    ensures Trail(s, i, n, c).Char? ==> Trail(s, i, n, c).len == i + n
    decreases n
  {
    if n > 0 {
      TrailLocal(s, t, i + 1, n - 1, c * 64 + s[i] % 64);
    }
  }

  lemma FirstCharLocal(a: seq<Byte>, b: seq<Byte>)
    requires a != [] && FirstChar(a).Char?
    ensures FirstChar(a + b) == FirstChar(a) && 1 <= FirstChar(a).len <= |a|
  {
    var (n, c) := Lead(a[0]);
    assert (a + b)[..|a|] == a;
    TrailLocal(a, a + b, 1, n, c);
  }

  /** Whole characters can be read in pieces. */
  lemma {:induction false} DecodeSum(a: seq<Byte>, b: seq<Byte>)
    requires Whole(a) && Whole(b)
    ensures Whole(a + b) && Decode(a + b) == Decode(a) + Decode(b)
    decreases |a|
  {
    if a == [] {
      assert a + b == b;
    } else {
      var n := FirstChar(a).len;
      DecodeSum(a[n..], b);
      SumFirst(a, b, n, a[n..] + b, Decode(a[n..]), Decode(b));
    }
  }

  /** The bytes hold whole characters, of these values. */
  ghost predicate ReadsAs(s: seq<Byte>, cs: seq<nat>) {
    Whole(s) && Decode(s) == cs
  }

  lemma ReadsFirst(s: seq<Byte>, c: nat, n: nat, tail: seq<Byte>, cs: seq<nat>)
    requires s != [] && FirstChar(s) == Char(c, n) && 1 <= n <= |s| && s[n..] == tail && ReadsAs(tail, cs)
    ensures ReadsAs(s, [c] + cs)
  {
  }

  lemma SumFirst(a: seq<Byte>, b: seq<Byte>, n: nat, tail: seq<Byte>, da: seq<nat>, db: seq<nat>)
    requires a != [] && FirstChar(a).Char? && FirstChar(a).len == n && 1 <= n <= |a|
    requires ReadsAs(a[n..], da) && tail == a[n..] + b && ReadsAs(tail, da + db)
    ensures ReadsAs(a, [FirstChar(a).c] + da) && ReadsAs(a + b, [FirstChar(a).c] + da + db)
  {
    var c := FirstChar(a).c;
    FirstCharLocal(a, b);
    ReadsFirst(a, c, n, a[n..], da);
    ReadsFirst(a + b, c, n, tail, da + db);
    Regroup([c], da, db);
  }

  lemma Regroup<T>(a: seq<T>, b: seq<T>, c: seq<T>)
    ensures (a + b) + c == a + (b + c)
  {
  }

  /** The texts of the elements in a row. */
  function Flat<T, U>(s: seq<T>, text: T -> seq<U>): seq<U> {
    if s == [] then [] else Flat(s[..|s| - 1], text) + text(s[|s| - 1])
  }

  lemma {:induction false} FlatSum<T, U>(a: seq<T>, b: seq<T>, text: T -> seq<U>)
    ensures Flat(a + b, text) == Flat(a, text) + Flat(b, text)
  {
    if b == [] {
      assert a + b == a;
    } else {
      var front, last := b[..|b| - 1], b[|b| - 1];
      FlatSum(a, front, text);
      assert a + b == (a + front) + [last];
      assert Flat(a + b, text) == Flat(a + front, text) + text(last) by {
        assert (a + b)[..|a + b| - 1] == a + front;
      }
      Regroup(Flat(a, text), Flat(front, text), text(last));
    }
  }

  /** One more character. */
  lemma DecodeSnoc(a: seq<Byte>, b: seq<Byte>)
    requires Whole(a) && b != [] && FirstChar(b).Char?
    ensures 1 <= FirstChar(b).len <= |b|
    ensures Whole(a + b[..FirstChar(b).len])
    ensures Decode(a + b[..FirstChar(b).len]) == Decode(a) + [FirstChar(b).c]
  {
    FirstCharLocal(b, []);
    var n := FirstChar(b).len;
    FirstCharCut(b);
    assert b[..n][n..] == [];
    DecodeSum(a, b[..n]);
  }

  lemma FirstCharCut(b: seq<Byte>)
    requires b != [] && FirstChar(b).Char? && 1 <= FirstChar(b).len <= |b|
    ensures FirstChar(b[..FirstChar(b).len]) == FirstChar(b)
  {
    var (n, c) := Lead(b[0]);
    TrailLocal(b, b, 1, n, c);
    TrailLocal(b[..n + 1], b, 1, n, c);
  }

  /** Decoding undoes encoding. */
  lemma {:induction false} DecodeUndoesEncode(cs: seq<CodePoint>)
    ensures Whole(EncodeAll(cs)) && Decode(EncodeAll(cs)) == cs
  {
    if cs != [] {
      DecodeUndoesEncode(cs[1..]);
      ReaderUndoesWriter(cs[0], EncodeAll(cs[1..]));
      assert EncodeAll(cs)[|Encode(cs[0])|..] == EncodeAll(cs[1..]);
    }
  }
}
