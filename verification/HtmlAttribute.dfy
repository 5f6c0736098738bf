/** Attribute values with references, as htmlParseHTMLAttribute reads them: the meaning of the text. */
module HtmlAttribute {
  import opened XmlStrings
  import opened Utf8
  import opened HtmlEncode

  type Chars = seq<CodePoint>

  /** The name characters beyond ASCII (the tables of chvalid.c). */
  datatype Classes = Classes(letter: CodePoint -> bool, name: CodePoint -> bool)

  predicate StartsName(cl: Classes, c: CodePoint) {
    if c < 0x80 then IsAsciiLetter(c) || c == 0x5F || c == 0x3A else cl.letter(c)
  }

  predicate IsAsciiNameChar(c: int) {
    IsAsciiLetter(c) || IsDigit(c) || c == 0x5F || c == 0x2D || c == 0x3A || c == 0x2E
  }

  predicate InName(cl: Classes, c: CodePoint) {
    if c < 0x80 then IsAsciiNameChar(c) else cl.name(c)
  }

  function NameTail(cl: Classes, rest: Chars): (n: nat)
    ensures n <= |rest|
  {
    if rest != [] && InName(cl, rest[0]) then 1 + NameTail(cl, rest[1..]) else 0
  }

  /** The length of the name at the start of the text, or 0. */
  function NameLength(cl: Classes, rest: Chars): (n: nat)
    ensures n <= |rest|
  {
    if rest != [] && StartsName(cl, rest[0]) then 1 + NameTail(cl, rest[1..]) else 0
  }

  function HexDigit(c: int): int {
    if IsDigit(c) then c - 0x30
    else if 0x61 <= c <= 0x66 then c - 0x61 + 10
    else if 0x41 <= c <= 0x46 then c - 0x41 + 10
    else -1
  }

  function AfterSemicolon(rest: Chars): (r: Chars)
    ensures |r| <= |rest|
  {
    if rest != [] && rest[0] == SEMICOLON then rest[1..] else rest
  }

  /** The value of the digits read, and the text behind the reference; a missing semicolon is forgiven. */
  function Hex(rest: Chars, val: nat): (r: (nat, Chars))
    ensures |r.1| <= |rest|
  {
    if rest != [] && HexDigit(rest[0]) >= 0 then Hex(rest[1..], val * 16 + HexDigit(rest[0]))
    else (val, AfterSemicolon(rest))
  }

  function Dec(rest: Chars, val: nat): (r: (nat, Chars))
    ensures |r.1| <= |rest|
  {
    if rest != [] && IsDigit(rest[0]) then Dec(rest[1..], val * 10 + (rest[0] - 0x30))
    else (val, AfterSemicolon(rest))
  }

  /** htmlParseCharRef at "&#"; a value that is no character counts as 0. */
  function CharRef(rest: Chars): (r: (CodePoint, Chars))
    requires |rest| > 1
    ensures |r.1| < |rest|
  {
    var (val, after) :=
      if |rest| > 2 && (rest[2] == 0x78 || rest[2] == 0x58) then Hex(rest[3..], 0) else Dec(rest[2..], 0);
    (if IsXmlChar(val) then val else 0, after)
  }

  predicate Stops(rest: Chars, stop: nat) {
    rest == [] || rest[0] == stop || (stop == 0 && (rest[0] == GT || IsBlank(rest[0])))
  }

  /** What one piece of the text stands for, and what follows it. */
  function Piece(table: seq<Entity>, cl: Classes, rest: Chars): (r: (Chars, Chars))
    requires rest != [] && Proper(table)
    ensures |r.1| < |rest|
  {
    if rest[0] != AMP then ([rest[0]], rest[1..])
    else if |rest| > 1 && rest[1] == HASH then ([CharRef(rest).0], CharRef(rest).1)
    else
      var n := NameLength(cl, rest[1..]);
      var name, after := rest[1..1 + n], rest[1 + n..];
      var ent := ByName(table, name);
      if n == 0 then ([AMP], rest[1..])
      else if after != [] && after[0] == SEMICOLON && ent.Some? then ([table[ent.value].value], after[1..])
      else ([AMP] + name, after)
  }

  /** The attribute value, and the text from where it stops. */
  function Value(table: seq<Entity>, cl: Classes, rest: Chars, stop: nat): (Chars, Chars)
    requires Proper(table)
    decreases |rest|
  {
    if Stops(rest, stop) then ([], rest) else
    var (piece, after) := Piece(table, cl, rest);
    var (more, end) := Value(table, cl, after, stop);
    (piece + more, end)
  }

  // Encoding and parsing

  lemma {:induction false} NameTailOf(cl: Classes, name: Chars, rest: Chars)
    requires forall k :: 0 <= k < |name| ==> name[k] < 0x80 && IsAsciiNameChar(name[k])
    requires rest != [] && rest[0] == SEMICOLON
    ensures NameTail(cl, name + rest) == |name|
  {
    if name == [] {
      assert name + rest == rest;
    } else {
      NameTailOf(cl, name[1..], rest);
      assert (name + rest)[1..] == name[1..] + rest;
    }
  }

  /** A reference by name. */
  lemma NamedPiece(table: seq<Entity>, cl: Classes, i: nat, rest: Chars)
    requires Proper(table) && i < |table|
    ensures Piece(table, cl, [AMP] + table[i].name + [SEMICOLON] + rest) == ([table[i].value], rest)
  {
    var name, tail := table[i].name, [SEMICOLON] + rest;
    var text := [AMP] + name + [SEMICOLON] + rest;
    assert text[1..] == name + tail && text[0] == AMP && text[1] == name[0];
    assert (name + tail)[1..] == name[1..] + tail;
    NameTailOf(cl, name[1..], tail);
    assert text[1..1 + |name|] == name && text[1 + |name|..] == tail && tail[1..] == rest;
    ByNameFinds(table, i);
  }

  lemma ByNameFinds(table: seq<Entity>, i: nat)
    requires Proper(table) && i < |table|
    ensures ByName(table, table[i].name) == Some(i)
  {
    var r := ByName(table, table[i].name);
    assert r.Some?;
  }

  lemma {:induction false} DecOf(n: nat, rest: Chars, val: nat)
    ensures exists p :: p > 0 && Dec(Decimal(n) + rest, val) == Dec(rest, val * p + n)
    decreases n
  {
    if n < 10 {
      var s := Decimal(n) + rest;
      assert s[1..] == rest && s[0] == 0x30 + n;
      assert Dec(s, val) == Dec(rest, val * 10 + n);
    } else {
      var last: Chars := [0x30 + n % 10];
      DecOf(n / 10, last + rest, val);
      assert Decimal(n) + rest == Decimal(n / 10) + (last + rest);
      var p :| p > 0 && Dec(Decimal(n) + rest, val) == Dec(last + rest, val * p + n / 10);
      assert (last + rest)[1..] == rest;
      assert (val * p + n / 10) * 10 + n % 10 == val * (p * 10) + n;
    }
  }

  lemma DecimalReadsBack(n: nat, rest: Chars)
    ensures Dec(Decimal(n) + rest, 0) == Dec(rest, n)
  {
    DecOf(n, rest, 0);
    var p :| p > 0 && Dec(Decimal(n) + rest, 0) == Dec(rest, 0 * p + n);
  }

  /** A reference by number. */
  lemma NumberedPiece(table: seq<Entity>, cl: Classes, c: CodePoint, rest: Chars)
    requires Proper(table) && IsXmlChar(c)
    ensures Piece(table, cl, [AMP] + ([HASH] + Decimal(c)) + [SEMICOLON] + rest) == ([c], rest)
  {
    var digits := Decimal(c);
    var text := [AMP] + ([HASH] + digits) + [SEMICOLON] + rest;
    assert text[0] == AMP && text[1] == HASH && text[2] == digits[0];
    assert text[2..] == digits + ([SEMICOLON] + rest);
    DigitsThenSemicolon(c, rest);
    NumberedRef(text, c, rest);
  }

  lemma DigitsThenSemicolon(c: nat, rest: Chars)
    ensures Dec(Decimal(c) + ([SEMICOLON] + rest), 0) == (c, rest)
  {
    var tail: Chars := [SEMICOLON] + rest;
    DecimalReadsBack(c, tail);
    assert tail[0] == SEMICOLON && tail[1..] == rest;
  }

  lemma NumberedRef(text: Chars, c: CodePoint, rest: Chars)
    requires |text| > 2 && IsDigit(text[2]) && IsXmlChar(c) && Dec(text[2..], 0) == (c as nat, rest)
    ensures CharRef(text) == (c, rest)
  {
  }

  /** Reading back the text of one character. */
  lemma TokenPiece(table: seq<Entity>, cl: Classes, c: CodePoint, quote: nat, rest: Chars)
    requires Proper(table) && IsXmlChar(c) && (quote == 34 || quote == 39)
    ensures var text := Token(table, c, quote) + rest;
      !Stops(text, quote) && Piece(table, cl, text) == ([c], rest)
  {
    var text := Token(table, c, quote) + rest;
    if IsPlain(c, quote) {
      assert text[0] == c && text[1..] == rest;
    } else {
      assert text[0] == AMP;
      var e := ByValue(table, c);
      if e.Some? {
        NamedPiece(table, cl, e.value, rest);
      } else {
        NumberedPiece(table, cl, c, rest);
      }
    }
  }

  lemma HtmlFirst(table: seq<Entity>, cs: Chars, quote: nat)
    requires cs != []
    ensures Html(table, cs, quote) == Token(table, cs[0], quote) + Html(table, cs[1..], quote)
  {
    assert cs == [cs[0]] + cs[1..];
    HtmlSum(table, [cs[0]], cs[1..], quote);
    assert [cs[0]] == [] + [cs[0]];
    HtmlSnoc(table, [], cs[0], quote);
  }

  /** Parsing undoes encoding: followed by its quote, the text of any characters is read as these
      characters, up to the quote. */
  lemma {:induction false} AttributeRoundTrip(table: seq<Entity>, cl: Classes, cs: Chars, quote: CodePoint, tail: Chars)
    requires Proper(table) && (quote == 34 || quote == 39) && forall k :: 0 <= k < |cs| ==> IsXmlChar(cs[k])
    ensures Value(table, cl, Html(table, cs, quote) + ([quote] + tail), quote) == (cs, [quote] + tail)
  {
    var end := [quote] + tail;
    if cs == [] {
      assert Html(table, cs, quote) + end == end;
    } else {
      AttributeRoundTrip(table, cl, cs[1..], quote, tail);
      HtmlFirst(table, cs, quote);
      TokenInFront(table, cl, cs[0], quote, Html(table, cs[1..], quote), end, cs[1..]);
      assert cs == [cs[0]] + cs[1..];
    }
  }

  lemma TokenInFront(table: seq<Entity>, cl: Classes, c: CodePoint, quote: nat, more: Chars, end: Chars, cs: Chars)
    requires Proper(table) && IsXmlChar(c) && (quote == 34 || quote == 39)
    requires Value(table, cl, more + end, quote) == (cs, end)
    ensures Value(table, cl, Token(table, c, quote) + more + end, quote) == ([c] + cs, end)
  {
    TokenPiece(table, cl, c, quote, more + end);
    Regroup(Token(table, c, quote), more, end);
    ValueStep(table, cl, Token(table, c, quote) + (more + end), quote, [c], more + end);
  }

  lemma ValueStep(table: seq<Entity>, cl: Classes, text: Chars, stop: nat, piece: Chars, rest: Chars)
    requires Proper(table) && !Stops(text, stop) && Piece(table, cl, text) == (piece, rest)
    ensures Value(table, cl, text, stop) == (piece + Value(table, cl, rest, stop).0, Value(table, cl, rest, stop).1)
  {
  }

  /** The text is its own UTF-8 form. */
  lemma {:induction false} AsciiIsUtf8(s: Text)
    requires forall k :: 0 <= k < |s| ==> s[k] < 0x80
    ensures EncodeAll(s) == s
  {
    if s != [] {
      AsciiIsUtf8(s[1..]);
      assert s == [s[0]] + s[1..];
    }
  }
}
