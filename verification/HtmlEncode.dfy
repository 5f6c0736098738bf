/** htmlEncodeEntities: UTF-8 to ASCII with HTML references, into a buffer of any size. */
module HtmlEncode {
  import opened XmlStrings
  import opened Utf8

  type Text = seq<Byte>

  datatype Entity = Entity(value: nat, name: Text)

  const AMP: Byte := 38
  const LT: Byte := 60
  const GT: Byte := 62
  const SEMICOLON: Byte := 59
  const HASH: Byte := 35

  predicate IsAsciiLetter(c: int) {
    0x61 <= c <= 0x7A || 0x41 <= c <= 0x5A
  }

  predicate IsDigit(c: int) {
    0x30 <= c <= 0x39
  }

  predicate IsEntityName(name: Text) {
    name != [] && IsAsciiLetter(name[0]) && forall k :: 0 <= k < |name| ==> IsAsciiLetter(name[k]) || IsDigit(name[k])
  }

  /** What html40EntitiesTable is like: ordered by value, no name twice, and names of ASCII letters and digits. */
  ghost predicate Proper(table: seq<Entity>) {
    && (forall i, j :: 0 <= i < j < |table| ==> table[i].value < table[j].value)
    && (forall i, j :: 0 <= i < j < |table| ==> table[i].name != table[j].name)
    && (forall i :: 0 <= i < |table| ==> IsEntityName(table[i].name) && table[i].value < 0x11_0000)
  }

  function ByValue(table: seq<Entity>, value: nat): (r: Option<nat>)
    ensures r.Some? ==> r.value < |table| && table[r.value].value == value
    ensures r.None? ==> forall i :: 0 <= i < |table| ==> table[i].value != value
  {
    if table == [] then None
    else if table[|table| - 1].value == value then Some(|table| - 1)
    else ByValue(table[..|table| - 1], value)
  }

  function ByName(table: seq<Entity>, name: seq<CodePoint>): (r: Option<nat>)
    ensures r.Some? ==> r.value < |table| && table[r.value].name == name
    ensures r.None? ==> forall i :: 0 <= i < |table| ==> table[i].name != name
  {
    if table == [] then None
    else if table[|table| - 1].name == name then Some(|table| - 1)
    else ByName(table[..|table| - 1], name)
  }

  /** htmlEntityValueLookup stops at the first greater value. */
  method EntityValueLookup(table: seq<Entity>, value: nat) returns (r: Option<nat>)
    requires Proper(table)
    ensures r == ByValue(table, value)
  {
    var i := 0;
    while i < |table|
      invariant 0 <= i <= |table| && forall j :: 0 <= j < i ==> table[j].value < value
    {
      if table[i].value >= value {
        if table[i].value > value { break; }
        return Some(i);
      }
      i := i + 1;
    }
    r := None;
  }

  /** htmlEntityLookup. */
  method EntityLookup(table: seq<Entity>, name: seq<CodePoint>) returns (r: Option<nat>)
    requires Proper(table)
    ensures r == ByName(table, name)
  {
    var i := 0;
    while i < |table|
      invariant 0 <= i <= |table| && forall j :: 0 <= j < i ==> table[j].name != name
    {
      if table[i].name == name { return Some(i); }
      i := i + 1;
    }
    r := None;
  }

  /** A number in decimal digits, as "%u" prints it. */
  function Decimal(n: nat): (s: Text)
    ensures s != [] && forall k :: 0 <= k < |s| ==> IsDigit(s[k])
  {
    if n < 10 then [0x30 + n] else Decimal(n / 10) + [0x30 + n % 10]
  }

  /** What stands between '&' and ';'. */
  function Reference(table: seq<Entity>, c: nat): Text {
    var e := ByValue(table, c);
    if e.Some? then table[e.value].name else [HASH] + Decimal(c)
  }

  predicate IsPlain(c: nat, quote: nat) {
    c < 0x80 && c != quote && c != AMP && c != LT && c != GT
  }

  function Token(table: seq<Entity>, c: nat, quote: nat): (s: Text)
    ensures s != []
  {
    if IsPlain(c, quote) then [c] else [AMP] + Reference(table, c) + [SEMICOLON]
  }

  /** The text for a sequence of characters. */
  function Html(table: seq<Entity>, cs: seq<nat>, quote: nat): Text {
    Flat(cs, c => Token(table, c, quote))
  }

  lemma HtmlSnoc(table: seq<Entity>, cs: seq<nat>, c: nat, quote: nat)
    ensures Html(table, cs + [c], quote) == Html(table, cs, quote) + Token(table, c, quote)
  {
    assert (cs + [c])[..|cs|] == cs;
  }

  lemma HtmlSum(table: seq<Entity>, a: seq<nat>, b: seq<nat>, quote: nat)
    ensures Html(table, a + b, quote) == Html(table, a, quote) + Html(table, b, quote)
  {
    FlatSum(a, b, c => Token(table, c, quote));
  }

  /** Nothing but ASCII, and neither the quote nor '<' or '>' unescaped. */
  lemma {:induction false} HtmlIsSafeAscii(table: seq<Entity>, cs: seq<nat>, quote: nat)
    requires Proper(table) && (quote == 34 || quote == 39)
    ensures forall k :: 0 <= k < |Html(table, cs, quote)| ==>
      var b := Html(table, cs, quote)[k]; b < 0x80 && b != quote && b != LT && b != GT
  {
    if cs != [] {
      HtmlIsSafeAscii(table, cs[..|cs| - 1], quote);
      assert cs == cs[..|cs| - 1] + [cs[|cs| - 1]];
      HtmlSnoc(table, cs[..|cs| - 1], cs[|cs| - 1], quote);
      TokenIsSafeAscii(table, cs[|cs| - 1], quote);
    }
  }

  lemma TokenIsSafeAscii(table: seq<Entity>, c: nat, quote: nat)
    requires Proper(table) && (quote == 34 || quote == 39)
    ensures var token := Token(table, c, quote);
      forall k :: 0 <= k < |token| ==> token[k] < 0x80 && token[k] != quote && token[k] != LT && token[k] != GT
  {
  }

  /** Why the encoder stops: the input is used up or ends within a character (0), the next character
      does not fit (0), or its bytes are none (-2). */
  ghost predicate StopsFor(table: seq<Entity>, rest: seq<Byte>, quote: nat, room: nat, ret: int) {
    if rest == [] || FirstChar(rest).Short? then ret == 0
    else if FirstChar(rest).Bad? then ret == -2
    else ret == 0 && |Token(table, FirstChar(rest).c, quote)| > room
  }

  /** What a call consumed, in whole characters, and the text it wrote for them. */
  ghost predicate Encoded(table: seq<Entity>, input: seq<Byte>, quote: nat, inlen: nat, text: Text) {
    inlen <= |input| && Whole(input[..inlen]) && text == Html(table, Decode(input[..inlen]), quote)
  }

  ghost predicate Encodes(table: seq<Entity>, input: seq<Byte>, quote: nat, size: nat, ret: int, inlen: nat,
                          text: Text) {
    && Encoded(table, input, quote, inlen, text) && |text| <= size
    && StopsFor(table, input[inlen..], quote, size - |text|, ret)
  }

  method EncodeEntities(table: seq<Entity>, out: array<Byte>, input: seq<Byte>, quote: nat)
    returns (ret: int, outlen: nat, inlen: nat)
    requires Proper(table)
    modifies out
    ensures outlen <= out.Length && Encodes(table, input, quote, out.Length, ret, inlen, out[..outlen])
  {
    outlen, inlen, ret := 0, 0, 0;
    var stop := false;
    while inlen < |input| && !stop
      invariant outlen <= out.Length && Encoded(table, input, quote, inlen, out[..outlen])
      invariant if stop then StopsFor(table, input[inlen..], quote, out.Length - outlen, ret) else ret == 0
      decreases !stop, |input| - inlen
    {
      ret, stop, outlen, inlen := EncodeChar(table, out, input, quote, outlen, inlen);
    }
  }

  /** One turn of the loop. */
  method EncodeChar(table: seq<Entity>, out: array<Byte>, input: seq<Byte>, quote: nat, n: nat, processed: nat)
    returns (ret: int, stop: bool, outlen: nat, inlen: nat)
    requires Proper(table) && n <= out.Length && processed < |input|
    requires Encoded(table, input, quote, processed, out[..n])
    modifies out
    ensures outlen <= out.Length && Encoded(table, input, quote, inlen, out[..outlen])
    ensures stop ==> inlen == processed && StopsFor(table, input[inlen..], quote, out.Length - outlen, ret)
    ensures !stop ==> inlen > processed && ret == 0
  {
    ret, stop, outlen, inlen := 0, true, n, processed;
    var first := ReadChar(input[processed..]);
    if first.Bad? { ret := -2; return; }
    if first.Short? { return; }
    var token := MakeToken(table, first.c, quote);
    if n + |token| > out.Length { return; }
    outlen := Write(table, out, input, quote, n, processed, first.len, token);
    inlen, stop := processed + first.len, false;
  }

  /** The token of the next character behind what is written. */
  method Write(table: seq<Entity>, out: array<Byte>, input: seq<Byte>, quote: nat, n: nat, processed: nat,
               ghost len: nat, token: Text)
    returns (outlen: nat)
    requires n + |token| <= out.Length && processed < |input| && Encoded(table, input, quote, processed, out[..n])
    requires FirstChar(input[processed..]).Char? && len == FirstChar(input[processed..]).len
    requires token == Token(table, FirstChar(input[processed..]).c, quote)
    modifies out
    ensures outlen == n + |token| && len > 0 && Encoded(table, input, quote, processed + len, out[..outlen])
  {
    Consumed(table, input, processed, quote);
    outlen := Put(out, n, token);
  }

  /** Bookkeeping for one more character. */
  lemma Consumed(table: seq<Entity>, input: seq<Byte>, inlen: nat, quote: nat)
    requires inlen < |input| && Whole(input[..inlen]) && FirstChar(input[inlen..]).Char?
    ensures var first := FirstChar(input[inlen..]);
      && 1 <= first.len <= |input| - inlen && Whole(input[..inlen + first.len])
      && Html(table, Decode(input[..inlen + first.len]), quote)
         == Html(table, Decode(input[..inlen]), quote) + Token(table, first.c, quote)
  {
    var a, b := input[..inlen], input[inlen..];
    DecodeSnoc(a, b);
    assert input[..inlen + FirstChar(b).len] == a + b[..FirstChar(b).len];
    HtmlSnoc(table, Decode(a), FirstChar(b).c, quote);
  }

  /** Writes bytes behind the first n. */
  method Put(out: array<Byte>, n: nat, bytes: Text) returns (m: nat)
    requires n + |bytes| <= out.Length
    modifies out
    ensures m == n + |bytes| && out[..m] == old(out[..n]) + bytes
  {
    forall i | 0 <= i < |bytes| {
      out[n + i] := bytes[i];
    }
    m := n + |bytes|;
  }

  /** The decoding part of the loop: a leading byte, then its trailing bytes. */
  method ReadChar(s: seq<Byte>) returns (r: Scan)
    requires s != []
    ensures r == FirstChar(s)
  {
    var d := s[0];
    var c: nat, trailing: nat;
    if d < 0x80 {
      c, trailing := d, 0;
    } else if d < 0xC0 {
      return Bad;
    } else if d < 0xE0 {
      c, trailing := d % 32, 1;
    } else if d < 0xF0 {
      c, trailing := d % 16, 2;
    } else if d < 0xF8 {
      c, trailing := d % 8, 3;
    } else {
      return Bad;
    }
    if |s| - 1 < trailing { return Short; }
    var i, n := 1, trailing;
    while n > 0
      invariant 1 <= i && i + n == 1 + trailing && Trail(s, i, n, c) == FirstChar(s)
    {
      if !(0x80 <= s[i] < 0xC0) { return Bad; }
      c := c * 64 + s[i] % 64;
      i, n := i + 1, n - 1;
    }
    r := Char(c, i);
  }

  method MakeToken(table: seq<Entity>, c: nat, quote: nat) returns (token: Text)
    requires Proper(table)
    ensures token == Token(table, c, quote)
  {
    if c < 0x80 && c != quote && c != AMP && c != LT && c != GT {
      return [c];
    }
    var ent := EntityValueLookup(table, c);
    var cp := if ent.None? then [HASH] + Decimal(c) else table[ent.value].name;
    token := [AMP] + cp + [SEMICOLON];
  }

  // Calls in a row

  /** One call: the size of its buffer, how much it took of what was left, and what it wrote. */
  datatype Call = Call(size: nat, inlen: nat, text: Text)

  ghost predicate Calls(table: seq<Entity>, input: seq<Byte>, quote: nat, calls: seq<Call>)
    decreases |calls|
  {
    calls == [] ||
    (&& (exists ret :: Encodes(table, input, quote, calls[0].size, ret, calls[0].inlen, calls[0].text))
     && calls[0].inlen <= |input|
     && Calls(table, input[calls[0].inlen..], quote, calls[1..]))
  }

  function Taken(calls: seq<Call>): nat {
    if calls == [] then 0 else calls[0].inlen + Taken(calls[1..])
  }

  function Written(calls: seq<Call>): Text {
    if calls == [] then [] else calls[0].text + Written(calls[1..])
  }

  /** The text is that of the whole input. */
  ghost predicate EncodesAll(table: seq<Entity>, input: seq<Byte>, quote: nat, text: Text) {
    Whole(input) && text == Html(table, Decode(input), quote)
  }

  lemma EncodesAllSum(table: seq<Entity>, a: seq<Byte>, b: seq<Byte>, quote: nat, s: Text, t: Text)
    requires EncodesAll(table, a, quote, s) && EncodesAll(table, b, quote, t)
    ensures EncodesAll(table, a + b, quote, s + t)
  {
    DecodeSum(a, b);
    HtmlSum(table, Decode(a), Decode(b), quote);
  }

  lemma FirstCall(table: seq<Entity>, input: seq<Byte>, quote: nat, calls: seq<Call>)
    requires Calls(table, input, quote, calls) && calls != []
    ensures calls[0].inlen <= |input| && EncodesAll(table, input[..calls[0].inlen], quote, calls[0].text)
    ensures Calls(table, input[calls[0].inlen..], quote, calls[1..])
  {
  }

  /** However the output is cut into buffers, calls that together consume the input write what one
      call with room enough writes. */
  lemma {:induction false} ResumableEncoding(table: seq<Entity>, input: seq<Byte>, quote: nat, calls: seq<Call>)
    requires Calls(table, input, quote, calls) && Taken(calls) == |input|
    ensures EncodesAll(table, input, quote, Written(calls))
    decreases |calls|
  {
    if calls == [] {
      assert input == [];
    } else {
      FirstCall(table, input, quote, calls);
      var a, b := input[..calls[0].inlen], input[calls[0].inlen..];
      ResumableEncoding(table, b, quote, calls[1..]);
      EncodesAllSum(table, a, b, quote, calls[0].text, Written(calls[1..]));
      assert input == a + b;
    }
  }

  /** On well-formed input one call with room enough consumes everything and fails never. */
  lemma OneCallSuffices(table: seq<Entity>, cs: seq<CodePoint>, quote: nat, size: nat, ret: int, inlen: nat, text: Text)
    requires Encodes(table, EncodeAll(cs), quote, size, ret, inlen, text) && size >= |Html(table, cs, quote)|
    ensures ret == 0 && inlen == |EncodeAll(cs)| && text == Html(table, cs, quote)
  {
    var k := WholePrefix(cs, inlen);
    DecodeUndoesEncode(cs[..k]);
    if k < |cs| {
      NextFits(table, cs, k, quote);
      assert false;
    }
    assert cs[..k] == cs;
  }

  lemma NextFits(table: seq<Entity>, cs: seq<CodePoint>, k: nat, quote: nat)
    requires k < |cs|
    ensures |Html(table, cs[..k], quote)| + |Token(table, cs[k], quote)| <= |Html(table, cs, quote)|
    ensures EncodeAll(cs[k..]) != [] && FirstChar(EncodeAll(cs[k..])) == Char(cs[k], |Encode(cs[k])|)
  {
    assert cs == (cs[..k] + [cs[k]]) + cs[k + 1..];
    HtmlSum(table, cs[..k] + [cs[k]], cs[k + 1..], quote);
    HtmlSnoc(table, cs[..k], cs[k], quote);
    ReaderUndoesWriter(cs[k], EncodeAll(cs[k..][1..]));
  }

  /** Whole characters of well-formed input end where one of its characters ends. */
  lemma {:induction false} WholePrefix(cs: seq<CodePoint>, n: nat) returns (k: nat)
    requires n <= |EncodeAll(cs)| && Whole(EncodeAll(cs)[..n])
    ensures k <= |cs| && EncodeAll(cs)[..n] == EncodeAll(cs[..k]) && EncodeAll(cs)[n..] == EncodeAll(cs[k..])
  {
    if n == 0 {
      k := 0;
      assert cs[..0] == [] && cs[0..] == cs;
    } else {
      var first, rest := Encode(cs[0]), EncodeAll(cs[1..]);
      FirstStays(cs[0], rest, n);
      var m := n - |first|;
      var j := WholePrefix(cs[1..], m);
      k := j + 1;
      PrefixParts(cs, j);
      CutBehind(first, rest, m);
    }
  }

  lemma CutBehind(first: seq<Byte>, rest: seq<Byte>, m: nat)
    requires m <= |rest|
    ensures (first + rest)[..|first| + m] == first + rest[..m] && (first + rest)[|first| + m..] == rest[m..]
  {
  }

  lemma PrefixParts(cs: seq<CodePoint>, j: nat)
    requires cs != [] && j < |cs|
    ensures EncodeAll(cs[..j + 1]) == Encode(cs[0]) + EncodeAll(cs[1..][..j]) && cs[j + 1..] == cs[1..][j..]
  {
    assert cs[..j + 1][1..] == cs[1..][..j];
  }

  lemma FirstStays(c: CodePoint, rest: seq<Byte>, n: nat)
    requires 0 < n <= |Encode(c) + rest| && Whole((Encode(c) + rest)[..n])
    ensures |Encode(c)| <= n && Whole(rest[..n - |Encode(c)|])
  {
    var s, first := Encode(c) + rest, Encode(c);
    ReaderUndoesWriter(c, rest);
    FirstCharLocal(s[..n], s[n..]);
    assert s[..n] + s[n..] == s;
    assert s[..n][|first|..] == rest[..n - |first|];
  }
}
