/** References in attribute values: any numeral of a character is read as that character, and what is no reference
    is read as it stands. */
module HtmlReferences {
  import opened Utf8
  import opened HtmlEncode
  import opened HtmlAttribute

  const LOWER := "0123456789abcdef"
  const UPPER := "0123456789ABCDEF"

  /** The digit characters, in either case. */
  predicate Denotes(c: CodePoint, d: nat) {
    d < 16 && (c == LOWER[d] as int || c == UPPER[d] as int)
  }

  predicate IsDigitOf(base: nat, c: CodePoint) {
    exists d: nat :: d < base && Denotes(c, d)
  }

  /** The digits are a numeral of n, perhaps with leading zeros. */
  ghost predicate Writes(base: nat, digits: Chars, n: nat)
    requires base > 0
  {
    && digits != []
    && Denotes(digits[|digits| - 1], n % base)
    && if |digits| == 1 then n < base else Writes(base, digits[..|digits| - 1], n / base)
  }

  lemma HexDigitDenotes(c: CodePoint, d: nat)
    ensures HexDigit(c) == d <==> Denotes(c, d)
  {
    assert LOWER == "01234567" + "89abcdef" && UPPER == "01234567" + "89ABCDEF";
  }

  lemma DigitDenotes(c: CodePoint, d: nat)
    requires d < 10
    ensures IsDigit(c) && c - 0x30 == d <==> Denotes(c, d)
  {
    HexDigitDenotes(c, d);
  }

  /** One digit character of either base. */
  lemma DigitOf(base: nat, c: CodePoint)
    requires base == 10 || base == 16
    ensures IsDigitOf(base, c) <==> if base == 16 then HexDigit(c) >= 0 else IsDigit(c)
  {
    if IsDigitOf(base, c) {
      var d: nat :| d < base && Denotes(c, d);
      HexDigitDenotes(c, d);
    }
    if HexDigit(c) >= 0 {
      HexDigitDenotes(c, HexDigit(c));
    }
  }

  /** The digits that are read, in either base. */
  function Digits(base: nat, rest: Chars, val: nat): (nat, Chars) {
    if base == 16 then Hex(rest, val) else Dec(rest, val)
  }

  lemma DigitsStep(base: nat, c: CodePoint, d: nat, rest: Chars, val: nat)
    requires base == 10 || base == 16
    requires d < base && Denotes(c, d)
    ensures Digits(base, [c] + rest, val) == Digits(base, rest, val * base + d)
  {
    HexDigitDenotes(c, d);
    assert ([c] + rest)[1..] == rest;
  }

  lemma {:induction false} NumeralRead(base: nat, digits: Chars, n: nat, rest: Chars)
    requires base == 10 || base == 16
    requires Writes(base, digits, n)
    ensures Digits(base, digits + rest, 0) == Digits(base, rest, n)
    decreases |digits|
  {
    var front, last := digits[..|digits| - 1], digits[|digits| - 1];
    LastDigit(base, n);
    if front == [] {
      assert digits + rest == [last] + rest;
      DigitsStep(base, last, n, rest, 0);
    } else {
      NumeralRead(base, front, n / base, [last] + rest);
      assert digits + rest == front + ([last] + rest);
      DigitsStep(base, last, n % base, rest, n / base);
    }
  }

  lemma LastDigit(base: nat, n: nat)
    requires base == 10 || base == 16
    ensures n % base < base && n / base * base + n % base == n && (n < base ==> n % base == n)
  {
  }

  /** "&#x", "&#X" or "&#". */
  predicate Introduces(intro: Chars, base: nat) {
    if base == 16 then intro == [AMP, HASH, 0x78] || intro == [AMP, HASH, 0x58] else base == 10 && intro == [AMP, HASH]
  }

  /** A semicolon, or anything that cannot be part of the reference. */
  ghost predicate EndsNumeral(base: nat, semicolon: Chars, rest: Chars) {
    || semicolon == [SEMICOLON]
    || (semicolon == [] && (rest == [] || (rest[0] != SEMICOLON && !IsDigitOf(base, rest[0]))))
  }

  lemma NumeralEnds(base: nat, semicolon: Chars, rest: Chars, n: nat)
    requires base == 10 || base == 16
    requires EndsNumeral(base, semicolon, rest)
    ensures Digits(base, semicolon + rest, n) == (n, rest)
  {
    var text := semicolon + rest;
    if text != [] {
      DigitOf(base, text[0]);
    }
    if semicolon == [] {
      assert text == rest;
    } else {
      assert text[1..] == rest;
    }
  }

  /** A reference by a numeral of n stands for the character n, or for 0 if that is no character: with any
      digits, with leading zeros, in either base and case, with and without the semicolon. */
  lemma NumericReference(table: seq<Entity>, cl: Classes, base: nat, intro: Chars, digits: Chars, n: nat,
                         semicolon: Chars, rest: Chars, stop: nat)
    requires Proper(table) && stop != AMP && Introduces(intro, base)
    requires Writes(base, digits, n) && EndsNumeral(base, semicolon, rest)
    ensures var read: CodePoint := if IsXmlChar(n) then n else 0;
      Value(table, cl, intro + digits + semicolon + rest, stop) ==
        ([read] + Value(table, cl, rest, stop).0, Value(table, cl, rest, stop).1)
  {
    var text := intro + digits + semicolon + rest;
    var tail := semicolon + rest;
    assert text == intro + (digits + tail);
    assert text[|intro|..] == digits + tail && text[|intro|] == digits[0];
    ReferenceRead(base, intro, text, digits, n, semicolon, rest);
    ValueStep(table, cl, text, stop, [if IsXmlChar(n) then n else 0], rest);
  }

  lemma ReferenceRead(base: nat, intro: Chars, text: Chars, digits: Chars, n: nat, semicolon: Chars, rest: Chars)
    requires Introduces(intro, base) && Writes(base, digits, n) && EndsNumeral(base, semicolon, rest)
    requires |text| > |intro| && text[..|intro|] == intro && text[|intro|] == digits[0]
    requires text[|intro|..] == digits + (semicolon + rest)
    ensures CharRef(text) == (if IsXmlChar(n) then n else 0, rest)
  {
    NumeralRead(base, digits, n, semicolon + rest);
    NumeralEnds(base, semicolon, rest, n);
    FirstDigit(base, digits, n);
    assert base == 16 ==> text[2] == intro[2];
    assert Digits(base, text[|intro|..], 0) == (n, rest);
  }

  lemma {:induction false} FirstDigit(base: nat, digits: Chars, n: nat)
    requires base == 10 || base == 16
    requires Writes(base, digits, n)
    ensures digits[0] != 0x78 && digits[0] != 0x58
    decreases |digits|
  {
    if |digits| == 1 {
      HexDigitDenotes(digits[0], n % base);
    } else {
      FirstDigit(base, digits[..|digits| - 1], n / base);
    }
  }

  // What is no reference

  /** A name of the table with its semicolon. */
  predicate NamesEntity(table: seq<Entity>, text: Chars) {
    exists e :: 0 <= e < |table| && table[e].name + [SEMICOLON] <= text
  }

  predicate RefersAt(table: seq<Entity>, text: Chars, i: nat)
    requires i < |text|
  {
    text[i] == AMP && ((i + 1 < |text| && text[i + 1] == HASH) || NamesEntity(table, text[i + 1..]))
  }

  predicate RefersNowhere(table: seq<Entity>, text: Chars) {
    forall i :: 0 <= i < |text| ==> !RefersAt(table, text, i)
  }

  lemma RefersLater(table: seq<Entity>, text: Chars, k: nat)
    requires RefersNowhere(table, text) && k <= |text|
    ensures RefersNowhere(table, text[k..])
  {
    forall i | 0 <= i < |text[k..]|
      ensures !RefersAt(table, text[k..], i)
    {
      assert !RefersAt(table, text, k + i);
      assert text[k..][i + 1..] == text[k + i + 1..];
    }
  }

  lemma {:induction false} NameTailStops(cl: Classes, a: Chars, end: Chars)
    requires end != [] && !InName(cl, end[0])
    ensures NameTail(cl, a + end) <= |a|
  {
    if a == [] {
      assert a + end == end;
    } else {
      NameTailStops(cl, a[1..], end);
      assert (a + end)[1..] == a[1..] + end;
    }
  }

  lemma NameStops(cl: Classes, a: Chars, end: Chars)
    requires end != [] && !InName(cl, end[0]) && !StartsName(cl, end[0])
    ensures NameLength(cl, a + end) <= |a|
  {
    if a == [] {
      assert a + end == end;
    } else {
      NameTailStops(cl, a[1..], end);
      assert (a + end)[1..] == a[1..] + end;
    }
  }

  lemma NamedIsReference(table: seq<Entity>, text: Chars, n: nat)
    requires n + 1 < |text| && text[0] == AMP && text[n + 1] == SEMICOLON && ByName(table, text[1..n + 1]).Some?
    ensures RefersAt(table, text, 0)
  {
    var e := ByName(table, text[1..n + 1]).value;
    assert text[1..] == text[1..n + 1] + ([SEMICOLON] + text[n + 2..]);
    assert table[e].name + [SEMICOLON] <= text[1..];
  }

  /** An ampersand that begins no reference stands for itself, and so does the name behind it. */
  lemma LonePiece(table: seq<Entity>, cl: Classes, text: Chars, end: Chars, quote: CodePoint) returns (n: nat)
    requires Proper(table) && (quote == 34 || quote == 39) && end != [] && end[0] == quote
    requires text != [] && text[0] == AMP
    ensures n < |text|
    ensures !RefersAt(table, text, 0) ==> Piece(table, cl, text + end) == (text[..n + 1], text[n + 1..] + end)
  {
    var rest := text + end;
    assert rest[1..] == text[1..] + end;
    NameStops(cl, text[1..], end);
    n := NameLength(cl, rest[1..]);
    assert rest[1..1 + n] == text[1..n + 1] && rest[1 + n..] == text[n + 1..] + end;
    assert text[..n + 1] == [AMP] + text[1..n + 1] && text[..1] == [AMP];
    if n + 1 < |text| && text[n + 1] == SEMICOLON && ByName(table, text[1..n + 1]).Some? {
      NamedIsReference(table, text, n);
    }
  }

  /** A text without references, up to its quote, is its own value. */
  lemma {:induction false} PlainTextStays(table: seq<Entity>, cl: Classes, text: Chars, quote: CodePoint, tail: Chars)
    requires Proper(table) && (quote == 34 || quote == 39) && quote !in text && RefersNowhere(table, text)
    ensures Value(table, cl, text + ([quote] + tail), quote) == (text, [quote] + tail)
    decreases |text|
  {
    var end := [quote] + tail;
    if text == [] {
      assert text + end == end;
    } else {
      var n := 0;
      if text[0] == AMP {
        assert !RefersAt(table, text, 0);
        n := LonePiece(table, cl, text, end, quote);
      } else {
        assert (text + end)[1..] == text[1..] + end && text[..1] == [text[0]];
      }
      RefersLater(table, text, n + 1);
      PlainTextStays(table, cl, text[n + 1..], quote, tail);
      ValueStep(table, cl, text + end, quote, text[..n + 1], text[n + 1..] + end);
      assert text == text[..n + 1] + text[n + 1..];
    }
  }

  // What the encoder writes

  lemma {:induction false} DecimalWrites(n: nat)
    ensures Writes(10, Decimal(n), n) && (Decimal(n)[0] == 0x30 <==> n == 0)
    decreases n
  {
    var digits := Decimal(n);
    if n < 10 {
      DigitDenotes(digits[0], n);
    } else {
      DecimalWrites(n / 10);
      DigitDenotes(0x30 + n % 10, n % 10);
      assert digits == Decimal(n / 10) + [0x30 + n % 10];
      assert digits[..|digits| - 1] == Decimal(n / 10);
    }
  }

  /** A numeral of n without leading zeros. */
  ghost predicate IsNumeral(digits: Chars, n: nat) {
    Writes(10, digits, n) && (digits[0] == 0x30 <==> n == 0)
  }

  /** ASCII stays as it is, except for the quote and what has a meaning in HTML; for the rest the table decides: a
      reference by name for what is in it, one by number for what is not. */
  lemma TokenForms(table: seq<Entity>, c: CodePoint, quote: nat)
    requires Proper(table)
    ensures var token, stays := Token(table, c, quote), c < 0x80 && c !in [quote, AMP, LT, GT];
      && (stays ==> token == [c])
      && (!stays ==> forall i :: 0 <= i < |table| && table[i].value == c ==>
            token == [AMP] + table[i].name + [SEMICOLON])
      && (!stays && (forall i :: 0 <= i < |table| ==> table[i].value != c) ==>
            exists digits :: IsNumeral(digits, c) && token == [AMP, HASH] + digits + [SEMICOLON])
  {
    DecimalWrites(c);
    assert IsNumeral(Decimal(c), c);
    assert [AMP] + ([HASH] + Decimal(c)) + [SEMICOLON] == [AMP, HASH] + Decimal(c) + [SEMICOLON];
  }
}
