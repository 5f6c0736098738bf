/** What the encoded text means to an XML parser (sections 4.1 and 4.6 of XML 1.0), and that it is the original. */
module EntitiesRoundTrip {
  import opened XmlStrings
  import opened Utf8
  import opened Entities

  type Chars = seq<CodePoint>

  function DigitValue(c: int): int {
    if 0x30 <= c <= 0x39 then c - 0x30
    else if 0x41 <= c <= 0x46 then c - 0x41 + 10
    else if 0x61 <= c <= 0x66 then c - 0x61 + 10
    else -1
  }

  /** The number at the start of the text, and what follows its digits. */
  function Number(s: Chars, base: nat, val: int): (r: (int, Chars))
    ensures |r.1| <= |s|
  {
    if s != [] && 0 <= DigitValue(s[0]) < base then Number(s[1..], base, val * base + DigitValue(s[0])) else (val, s)
  }

  function Starts(s: Chars, t: Text): bool {
    |t| <= |s| && s[..|t|] == t
  }

  /** A character reference (production 66) or one of the predefined entities. */
  function Reference(s: Chars): (r: Option<(CodePoint, Chars)>)
    requires s != []
    ensures r.Some? ==> |r.value.1| < |s|
  {
    if Starts(s, [0x26, 0x23, 0x78]) then Numbered(s, Number(s[3..], 16, 0), 3)
    else if Starts(s, [0x26, 0x23]) then Numbered(s, Number(s[2..], 10, 0), 2)
    else if Starts(s, LT) then Some((0x3C, s[4..]))
    else if Starts(s, GT) then Some((0x3E, s[4..]))
    else if Starts(s, AMP) then Some((0x26, s[5..]))
    else if Starts(s, [0x26, 0x71, 0x75, 0x6F, 0x74, 0x3B]) then Some((0x22, s[6..]))
    else if Starts(s, [0x26, 0x61, 0x70, 0x6F, 0x73, 0x3B]) then Some((0x27, s[6..]))
    else None
  }

  /** There must be digits, a semicolon behind them, and a character of that number. */
  function Numbered(s: Chars, n: (int, Chars), start: nat): (r: Option<(CodePoint, Chars)>)
    requires start <= |s| && |n.1| <= |s| - start
    ensures r.Some? ==> |r.value.1| < |s|
  {
    if |n.1| < |s| - start && n.1 != [] && n.1[0] == 0x3B && IsXmlChar(n.0) then Some((n.0, n.1[1..])) else None
  }

  /** Character data with its references replaced; none if it is not well-formed. */
  function Resolved(s: Chars): Option<Chars>
    decreases |s|
  {
    if s == [] then Some([])
    else if s[0] == 0x26 then
      var r := Reference(s);
      if r.None? then None else Before(r.value.0, Resolved(r.value.1))
    else if s[0] == 0x3C then None
    else Before(s[0], Resolved(s[1..]))
  }

  function Before(c: CodePoint, more: Option<Chars>): Option<Chars> {
    if more.None? then None else Some([c] + more.value)
  }

  /** What the encoder writes for a character of a document without an encoding. */
  function Written(c: CodePoint): Text {
    if c == 0x3C then LT
    else if c == 0x3E then GT
    else if c == 0x26 then AMP
    else if c == 13 then DecimalRef(13)
    else if c < 0x80 then [c]
    else HexRef(c)
  }

  /** The encoder takes well-formed UTF-8 one character at a time. */
  lemma TurnOfChar(mode: Mode, c: CodePoint, rest: seq<Byte>)
    requires IsXmlChar(c) && !KeepsBytes(mode)
    ensures Turn(mode, Encode(c) + rest) == (Written(c), |Encode(c)|, mode)
  {
    var s, e := Encode(c) + rest, Encode(c);
    assert s[0] == e[0];
    if c >= 0x80 {
      assert Announces(s) == c && Announced(s[0]) == |e| by {
        if c < 0x800 {
          AnnouncesTwo(c, s);
        } else if c < 0x1_0000 {
          assert s[1] == e[1] && s[2] == e[2];
          AnnouncesThree(c, s);
        } else {
          assert s[1] == e[1] && s[2] == e[2] && s[3] == e[3];
          AnnouncesFour(c, s);
        }
      }
    }
  }

  lemma AnnouncesTwo(c: CodePoint, s: seq<Byte>)
    requires 0x80 <= c < 0x800 && |s| >= 2 && s[0] == 0xC0 + c / 64 && s[1] == 0x80 + c % 64
    ensures Announced(s[0]) == 2 && Announces(s) == c
  {
    Halves(c);
    JoinedBack(c, s[1]);
  }

  lemma AnnouncesThree(c: CodePoint, s: seq<Byte>)
    requires 0x800 <= c < 0x1_0000 && |s| >= 3
    requires s[0] == 0xE0 + c / 4096 && s[1] == 0x80 + c / 64 % 64 && s[2] == 0x80 + c % 64
    ensures Announced(s[0]) == 3 && Announces(s) == c
  {
    Halves(c);
    JoinedBack(c / 64, s[1]);
    JoinedBack(c, s[2]);
  }

  lemma AnnouncesFour(c: CodePoint, s: seq<Byte>)
    requires c >= 0x1_0000 && |s| >= 4 && s[0] == 0xF0 + c / 26_2144 && s[1] == 0x80 + c / 4096 % 64
    requires s[2] == 0x80 + c / 64 % 64 && s[3] == 0x80 + c % 64
    ensures Announced(s[0]) == 4 && Announces(s) == c
  {
    Halves(c);
    JoinedBack(c / 4096, s[1]);
    JoinedBack(c / 64, s[2]);
    JoinedBack(c, s[3]);
  }

  lemma JoinedBack(x: nat, b: Byte)
    requires b == 0x80 + x % 64
    ensures Joined(x / 64, b) == x
  {
    assert (0x80 + x % 64) % 64 == x % 64;
    assert x / 64 * 64 + x % 64 == x;
  }

  /** Well-formed UTF-8 never makes the encoder read past its end. */
  lemma {:induction false} Utf8IsAnnounceable(cs: Chars)
    ensures Announceable(EncodeAll(cs))
  {
    if cs != [] {
      Utf8IsAnnounceable(cs[1..]);
      var s, e := EncodeAll(cs), Encode(cs[0]);
      Halves(cs[0]);
      forall i | 0 <= i < |s|
        ensures i + Announced(s[i]) <= |s|
      {
        if i < |e| {
          assert s[i] == e[i];
          assert i > 0 ==> 0x80 <= e[i] < 0xC0;
          assert i == 0 ==> Announced(e[0]) == |e|;
        } else {
          assert s[i] == EncodeAll(cs[1..])[i - |e|];
        }
      }
    }
  }

  lemma {:induction false} EncodedIsWritten(mode: Mode, cs: Chars)
    requires !KeepsBytes(mode) && forall k :: 0 <= k < |cs| ==> IsXmlChar(cs[k])
    ensures Announceable(EncodeAll(cs))
    ensures cs != [] ==> Announceable(EncodeAll(cs[1..]))
    ensures Encoded(mode, EncodeAll(cs)) == if cs == [] then [] else Written(cs[0]) + Encoded(mode, EncodeAll(cs[1..]))
    ensures ModeAfter(mode, EncodeAll(cs)) == if cs == [] then mode else ModeAfter(mode, EncodeAll(cs[1..]))
  {
    Utf8IsAnnounceable(cs);
    if cs != [] {
      Utf8IsAnnounceable(cs[1..]);
      TurnOfChar(mode, cs[0], EncodeAll(cs[1..]));
      assert EncodeAll(cs)[|Encode(cs[0])|..] == EncodeAll(cs[1..]);
    }
  }

  // Reading it back

  /** The power of the base that the digits of n make room for. */
  function Scale(n: nat, base: nat): nat
    requires base == 10 || base == 16
    decreases n
  {
    if n < base then base else Scale(n / base, base) * base
  }

  lemma {:induction false} NumberOf(n: nat, base: nat, rest: Chars, val: int)
    requires base == 10 || base == 16
    ensures Number(Numeral(n, base) + rest, base, val) == Number(rest, base, val * Scale(n, base) + n)
    decreases n
  {
    if n < base {
      LastDigit(n, base, rest, val);
    } else {
      var q, d := n / base, n % base;
      NumberOf(q, base, [Digit(d)] + rest, val);
      NumeralSplit(n, base, rest);
      LastDigit(d, base, rest, val * Scale(q, base) + q);
      Horner(val, Scale(q, base), n, base);
    }
  }

  lemma NumeralSplit(n: nat, base: nat, rest: Chars)
    requires (base == 10 || base == 16) && n >= base
    ensures Numeral(n, base) + rest == Numeral(n / base, base) + ([Digit(n % base)] + rest)
  {
  }

  lemma LastDigit(d: nat, base: nat, rest: Chars, val: int)
    requires d < base <= 16
    ensures Number([Digit(d)] + rest, base, val) == Number(rest, base, val * base + d)
  {
    var s := [Digit(d)] + rest;
    assert s[0] == Digit(d) && s[1..] == rest;
  }

  lemma Horner(val: int, p: nat, n: nat, base: nat)
    requires base == 10 || base == 16
    ensures (val * p + n / base) * base + n % base == val * (p * base) + n
  {
    if base == 10 {
      assert (val * p + n / 10) * 10 == val * p * 10 + n / 10 * 10;
      assert val * p * 10 == val * (p * 10);
    } else {
      assert (val * p + n / 16) * 16 == val * p * 16 + n / 16 * 16;
      assert val * p * 16 == val * (p * 16);
    }
  }

  lemma NumeralReadsBack(n: nat, base: nat, rest: Chars)
    requires base == 10 || base == 16
    ensures Number(Numeral(n, base) + ([0x3B] + rest), base, 0) == (n, [0x3B] + rest)
  {
    var tail: Chars := [0x3B] + rest;
    NumberOf(n, base, tail, 0);
  }

  lemma NumberedReadsBack(c: CodePoint, base: nat, s: Chars, start: nat, rest: Chars)
    requires IsXmlChar(c) && (base == 10 || base == 16)
    requires start <= |s| && s[start..] == Numeral(c, base) + ([0x3B] + rest)
    ensures Numbered(s, Number(s[start..], base, 0), start) == Some((c, rest))
  {
    NumeralReadsBack(c, base, rest);
    assert ([0x3B] + rest)[1..] == rest;
  }

  /** The reference for a character resolves to it. */
  lemma WrittenResolves(c: CodePoint, rest: Chars)
    requires IsXmlChar(c)
    ensures Resolved(Written(c) + rest) == Before(c, Resolved(rest))
  {
    if c == 13 {
      DecimalResolves(rest);
    } else if c >= 0x80 {
      HexResolves(c, rest);
    } else if c == 0x3C || c == 0x3E || c == 0x26 {
      EntityResolves(c, Written(c) + rest, rest);
    } else {
      assert (Written(c) + rest)[0] == c && (Written(c) + rest)[1..] == rest;
    }
  }

  lemma DecimalResolves(rest: Chars)
    ensures Resolved(DecimalRef(13) + rest) == Before(13, Resolved(rest))
  {
    var s := DecimalRef(13) + rest;
    HeadOf(Numeral(13, 10), [0x26, 0x23], rest, s);
    NumberedReadsBack(13, 10, s, 2, rest);
    DecimalHead(13);
    assert s[0] == 0x26;
    assert !Starts(s, [0x26, 0x23, 0x78]) by {
      assert s[..3][2] == s[2];
    }
  }

  lemma HexResolves(c: CodePoint, rest: Chars)
    requires IsXmlChar(c)
    ensures Resolved(HexRef(c) + rest) == Before(c, Resolved(rest))
  {
    var s := HexRef(c) + rest;
    HeadOf(Numeral(c, 16), [0x26, 0x23, 0x78], rest, s);
    NumberedReadsBack(c, 16, s, 3, rest);
    assert s[0] == 0x26;
  }

  lemma EntityResolves(c: CodePoint, s: Chars, rest: Chars)
    requires (c == 0x3C || c == 0x3E || c == 0x26) && s == Written(c) + rest
    ensures Resolved(s) == Before(c, Resolved(rest))
  {
    var n := |Written(c)|;
    assert s[0] == Written(c)[0] && s[1] == Written(c)[1];
    assert s[..n] == Written(c) && s[n..] == rest;
    assert s[..3][1] == s[1] && s[..2][1] == s[1];
    if c != 0x3C {
      assert s[..4][1] == s[1];
    }
    assert Reference(s) == Some((c, rest));
  }

  /** A numeral between its prefix and the semicolon. */
  lemma HeadOf(numeral: Text, prefix: Text, rest: Chars, s: Chars)
    requires s == (prefix + numeral + [0x3B]) + rest
    ensures Starts(s, prefix) && s[|prefix|..] == numeral + ([0x3B] + rest)
    ensures numeral != [] ==> |s| > |prefix| && s[|prefix|] == numeral[0]
  {
  }

  lemma DecimalHead(n: nat)
    requires n < 100
    ensures Numeral(n, 10)[0] != 0x78
  {
  }

  /** In a document without an encoding, the encoded form of any characters is pure ASCII and resolves to them. */
  lemma {:induction false} EncodeThenResolve(mode: Mode, cs: Chars)
    requires !KeepsBytes(mode) && forall k :: 0 <= k < |cs| ==> IsXmlChar(cs[k])
    ensures Announceable(EncodeAll(cs)) && Resolved(Encoded(mode, EncodeAll(cs))) == Some(cs)
    ensures forall k :: 0 <= k < |Encoded(mode, EncodeAll(cs))| ==> Encoded(mode, EncodeAll(cs))[k] < 0x80
  {
    EncodedIsWritten(mode, cs);
    if cs != [] {
      EncodeThenResolve(mode, cs[1..]);
      WrittenThenRest(cs[0], Encoded(mode, EncodeAll(cs[1..])), cs[1..]);
      assert cs == [cs[0]] + cs[1..];
    }
  }

  lemma WrittenThenRest(c: CodePoint, text: Text, cs: Chars)
    requires IsXmlChar(c) && Resolved(text) == Some(cs) && forall k :: 0 <= k < |text| ==> text[k] < 0x80
    ensures Resolved(Written(c) + text) == Some([c] + cs)
    ensures forall k :: 0 <= k < |Written(c) + text| ==> (Written(c) + text)[k] < 0x80
  {
    WrittenResolves(c, text);
    WrittenIsAscii(c);
  }

  /** Nor is the document taken for one in another encoding. */
  lemma {:induction false} EncodingKeepsMode(mode: Mode, cs: Chars)
    requires !KeepsBytes(mode) && forall k :: 0 <= k < |cs| ==> IsXmlChar(cs[k])
    ensures Announceable(EncodeAll(cs)) && ModeAfter(mode, EncodeAll(cs)) == mode
  {
    EncodedIsWritten(mode, cs);
    if cs != [] {
      EncodingKeepsMode(mode, cs[1..]);
    }
  }

  lemma WrittenIsAscii(c: CodePoint)
    ensures forall k :: 0 <= k < |Written(c)| ==> Written(c)[k] < 0x80
  {
    NumeralIsAscii(c, 16);
    NumeralIsAscii(13, 10);
  }

  lemma {:induction false} NumeralIsAscii(n: nat, base: nat)
    requires base == 10 || base == 16
    ensures forall k :: 0 <= k < |Numeral(n, base)| ==> Numeral(n, base)[k] < 0x80
    decreases n
  {
    if n >= base {
      NumeralIsAscii(n / base, base);
    }
  }

  /** The control characters that are no XML characters are dropped without an error. */
  lemma ControlsAreDropped(mode: Mode, c: Byte, rest: seq<Byte>)
    requires 0 < c < 0x20 && c != 9 && c != 10 && c != 13
    ensures Turn(mode, [c] + rest) == ([], 1, mode)
  {
  }

  /** In a document with an encoding every byte beyond ASCII comes out as it is, and the rest resolves to itself. */
  lemma {:induction false} BytesResolve(mode: Mode, s: seq<Byte>)
    requires KeepsBytes(mode) && Announceable(s) && forall k :: 0 <= k < |s| ==> s[k] >= 0x80 || IsXmlChar(s[k])
    ensures Resolved(Encoded(mode, s)) == Some(s) && ModeAfter(mode, s) == mode
    ensures HighBytes(Encoded(mode, s)) == HighBytes(s)
  {
    if s != [] {
      var text := if s[0] >= 0x80 then [s[0]] else Written(s[0]);
      assert Turn(mode, s) == (text, 1, mode);
      assert forall i :: 0 <= i < |s| - 1 ==> s[1..][i] == s[i + 1];
      BytesResolve(mode, s[1..]);
      var more := Encoded(mode, s[1..]);
      assert s == [s[0]] + s[1..];
      if s[0] >= 0x80 {
        assert ([s[0]] + more)[1..] == more;
      } else {
        WrittenResolves(s[0], more);
        WrittenIsAscii(s[0]);
        NoHighBytes(text, more);
      }
    }
  }

  function HighBytes(s: seq<Byte>): seq<Byte> {
    if s == [] then [] else (if s[0] >= 0x80 then [s[0]] else []) + HighBytes(s[1..])
  }

  lemma {:induction false} NoHighBytes(a: seq<Byte>, b: seq<Byte>)
    requires forall k :: 0 <= k < |a| ==> a[k] < 0x80
    ensures HighBytes(a + b) == HighBytes(b)
  {
    if a == [] {
      assert a + b == b;
    } else {
      NoHighBytes(a[1..], b);
      assert (a + b)[1..] == a[1..] + b;
    }
  }

  lemma {:induction false} NumeralHead(n: nat)
    ensures 0x30 <= Numeral(n, 10)[0] < 0x3A
    decreases n
  {
    if n >= 10 {
      NumeralHead(n / 10);
    }
  }

  lemma ByteResolves(b: Byte, rest: Chars)
    requires b >= 0x80
    ensures Resolved(DecimalRef(b) + rest) == Before(b, Resolved(rest))
  {
    var s := DecimalRef(b) + rest;
    HeadOf(Numeral(b, 10), [0x26, 0x23], rest, s);
    NumberedReadsBack(b, 10, s, 2, rest);
    NumeralHead(b);
    assert s[0] == 0x26;
    assert !Starts(s, [0x26, 0x23, 0x78]) by {
      assert s[..3][2] == s[2];
    }
  }

  /** The bytes begin no XML character. */
  predicate IsError(s: seq<Byte>) {
    s != [] && s[0] >= 0x80 && Announced(s[0]) <= |s| && (Announced(s[0]) == 1 || !IsXmlChar(Announces(s)))
  }

  lemma AnnounceableParts(cs: Chars, s: seq<Byte>)
    requires Announceable(s)
    ensures Announceable(EncodeAll(cs) + s)
  {
    Utf8IsAnnounceable(cs);
    var all := EncodeAll(cs) + s;
    forall i | 0 <= i < |all|
      ensures i + Announced(all[i]) <= |all|
    {
      if i >= |EncodeAll(cs)| {
        assert all[i] == s[i - |EncodeAll(cs)|];
      }
    }
  }

  /** In a document of unknown encoding the bytes are written as a text of these characters, and the encoding is
      known afterwards; under a quantifier to keep it closed. */
  ghost predicate FallsBack(s: seq<Byte>, chars: Chars) {
    forall t: seq<Byte> :: t == s ==> FallsBackAt(t, chars)
  }

  ghost predicate FallsBackAt(s: seq<Byte>, chars: Chars) {
    && Announceable(s) && Resolved(Encoded(Document(false), s)) == Some(chars)
    && ModeAfter(Document(false), s) == Document(true)
  }

  /** From the first error on, a document of unknown encoding is taken for one in ISO-8859-1: what comes before is
      read as characters, and every byte from there on as the character of that number. */
  lemma {:induction false} ErrorFallsBack(cs: Chars, s: seq<Byte>)
    requires IsError(s) && Announceable(s) && forall k :: 0 <= k < |cs| ==> IsXmlChar(cs[k])
    requires forall k :: 0 <= k < |s| ==> s[k] >= 0x80 || IsXmlChar(s[k])
    ensures FallsBack(EncodeAll(cs) + s, cs + s)
  {
    if cs == [] {
      FirstError(s);
      assert EncodeAll(cs) + s == s && cs + s == s;
    } else {
      ErrorFallsBack(cs[1..], s);
      AnnounceableParts(cs, s);
      assert EncodeAll(cs) + s == Encode(cs[0]) + (EncodeAll(cs[1..]) + s);
      OneMoreChar(cs[0], EncodeAll(cs[1..]) + s, cs[1..] + s);
      assert cs + s == [cs[0]] + (cs[1..] + s);
    }
  }

  lemma OneMoreChar(c: CodePoint, rest: seq<Byte>, more: Chars)
    requires IsXmlChar(c) && FallsBack(rest, more) && Announceable(Encode(c) + rest)
    ensures FallsBack(Encode(c) + rest, [c] + more)
  {
    assert FallsBackAt(rest, more);
    TurnOfChar(Document(false), c, rest);
    assert (Encode(c) + rest)[|Encode(c)|..] == rest;
    WrittenResolves(c, Encoded(Document(false), rest));
  }

  lemma FirstError(s: seq<Byte>)
    requires IsError(s) && Announceable(s) && forall k :: 0 <= k < |s| ==> s[k] >= 0x80 || IsXmlChar(s[k])
    ensures FallsBack(s, s)
  {
    assert Turn(Document(false), s) == (DecimalRef(s[0]), 1, Document(true));
    assert forall i :: 0 <= i < |s| - 1 ==> s[1..][i] == s[i + 1];
    BytesResolve(Document(true), s[1..]);
    ByteResolves(s[0], Encoded(Document(true), s[1..]));
    assert s == [s[0]] + s[1..];
  }
}
