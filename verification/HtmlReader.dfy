/** The input cursor of the HTML parser, over well-formed UTF-8, and the attribute parser on it. */
module HtmlReader {
  import opened XmlStrings
  import opened Utf8
  import opened HtmlEncode
  import opened HtmlAttribute

  const HTML_PARSER_BUFFER_SIZE := 100

  /** c shifted right by that many bits. */
  function Shifted(c: CodePoint, bits: nat): nat
    requires bits == 0 || bits == 6 || bits == 12
  {
    if bits == 0 then c else if bits == 6 then c / 64 else c / 4096
  }

  lemma NextByte(c: CodePoint, bits: int, k: int)
    requires bits == 0 || bits == 6 || bits == 12
    requires k == |Encode(c)| - (bits / 6 + 1) && k > 0
    ensures Encode(c)[..k + 1] == Encode(c)[..k] + [Shifted(c, bits) % 64 + 0x80]
  {
  }

  /** The UTF-8 writer: a leading byte, then six bits at a time. */
  method PutChar(out: seq<Byte>, c: CodePoint) returns (r: seq<Byte>)
    ensures r == out + Encode(c)
  {
    var bits;
    if c < 0x80 {
      r, bits := out + [c], -6;
    } else if c < 0x800 {
      r, bits := out + [c / 64 % 32 + 0xC0], 0;
    } else if c < 0x1_0000 {
      r, bits := out + [c / 4096 % 16 + 0xE0], 6;
    } else {
      r, bits := out + [c / 26_2144 % 8 + 0xF0], 12;
    }
    Halves(c);
    while bits >= 0
      invariant bits == -6 || bits == 0 || bits == 6 || bits == 12
      invariant |Encode(c)| - (bits / 6 + 1) > 0 && r == out + Encode(c)[..|Encode(c)| - (bits / 6 + 1)]
      decreases bits + 6
    {
      NextByte(c, bits, |Encode(c)| - (bits / 6 + 1));
      r := r + [Shifted(c, bits) % 64 + 0x80];
      bits := bits - 6;
    }
  }

  /** Bytes of ASCII characters stand one for one. */
  lemma {:induction false} AsciiAhead(rest: Chars, n: nat)
    requires n <= |rest| && forall k :: 0 <= k < n ==> rest[k] < 0x80
    ensures n <= |EncodeAll(rest)| && EncodeAll(rest)[..n] == EncodeAll(rest[..n]) == rest[..n]
    ensures EncodeAll(rest)[n..] == EncodeAll(rest[n..])
  {
    if n == 0 {
      assert rest[0..] == rest;
    } else {
      AsciiAhead(rest[1..], n - 1);
      assert rest[1..][..n - 1] == rest[..n][1..] && rest[1..][n - 1..] == rest[n..];
      assert EncodeAll(rest) == [rest[0]] + EncodeAll(rest[1..]);
      assert rest[..n] == [rest[0]] + rest[1..n];
    }
  }

  /** A character that may start a name may stand in it. */
  ghost predicate Coherent(cl: Classes) {
    forall c: CodePoint :: cl.letter(c) ==> cl.name(c)
  }

  /** What htmlParseName leaves: the bytes of the longest name, and the text behind it. */
  ghost predicate NameRead(cl: Classes, before: Chars, name: Option<seq<Byte>>, after: Chars) {
    var n := NameLength(cl, before);
    && after == before[n..]
    && name == if n == 0 then None else Some(EncodeAll(before[..n]))
  }

  lemma NameEnds(cl: Classes, rest: Chars, n: nat)
    requires 0 < n <= |rest| && StartsName(cl, rest[0]) && forall i :: 1 <= i < n ==> InName(cl, rest[i])
    requires n < |rest| ==> !InName(cl, rest[n])
    ensures NameLength(cl, rest) == n
  {
    TailEnds(cl, rest[1..], n - 1);
  }

  lemma {:induction false} TailEnds(cl: Classes, rest: Chars, n: nat)
    requires n <= |rest| && (forall i :: 0 <= i < n ==> InName(cl, rest[i])) && (n < |rest| ==> !InName(cl, rest[n]))
    ensures NameTail(cl, rest) == n
    decreases n
  {
    if n > 0 {
      TailEnds(cl, rest[1..], n - 1);
    }
  }

  lemma Spliced(s: seq<Byte>, i: nat, j: nat, k: nat)
    requires i <= j <= k <= |s|
    ensures s[i..k] == s[i..j] + s[j..k]
  {
  }

  class Cursor {
    const input: seq<Byte>
    const cl: Classes
    var cur: nat
    ghost var rest: Chars  // the characters ahead

    ghost predicate Valid()
      reads this
    {
      cur <= |input| && input[cur..] == EncodeAll(rest) && forall k :: 0 <= k < |rest| ==> rest[k] != 0
    }

    constructor (input: seq<Byte>, cl: Classes, ghost text: Chars)
      requires input == EncodeAll(text) && forall k :: 0 <= k < |text| ==> text[k] != 0
      ensures Valid() && rest == text && this.input == input && this.cl == cl
    {
      this.input, this.cl, cur, rest := input, cl, 0, text;
    }

    /** CUR and NXT: a byte of the input, or the zero behind it. */
    function Nxt(k: nat): Byte
      reads `cur
    {
      if cur + k < |input| then input[cur + k] else 0
    }

    /** What a byte tells about the next character: all of it if that is ASCII. */
    lemma CurIs()
      requires Valid()
      ensures rest == [] <==> Nxt(0) == 0
      ensures rest != [] ==> if rest[0] < 0x80 then Nxt(0) == rest[0] else Nxt(0) >= 0x80
    {
      if rest != [] {
        assert input[cur..][0] == Encode(rest[0])[0];
      } else {
        assert |input[cur..]| == 0;
      }
    }

    /** The byte behind an ASCII character. */
    lemma NxtIs()
      requires Valid() && rest != [] && rest[0] < 0x80
      ensures |rest| == 1 <==> Nxt(1) == 0
      ensures |rest| > 1 ==> if rest[1] < 0x80 then Nxt(1) == rest[1] else Nxt(1) >= 0x80
    {
      assert EncodeAll(rest)[1..] == EncodeAll(rest[1..]);
      assert input[cur + 1..] == input[cur..][1..];
      if |rest| > 1 {
        assert input[cur + 1..][0] == Encode(rest[1])[0];
      } else {
        assert |input[cur + 1..]| == 0;
      }
    }

    /** xmlNextChar; at the end of the input it stays there. */
    method Next()
      requires Valid()
      modifies `cur, `rest
      ensures Valid() && rest == if old(rest) == [] then [] else old(rest)[1..]
    {
      CurIs();
      if Nxt(0) == 0 { return; }
      var c := Nxt(0);
      var l := if c < 0x80 then 1 else if c < 0xE0 then 2 else if c < 0xF0 then 3 else 4;
      Halves(rest[0]);
      assert input[cur..][0] == Encode(rest[0])[0];
      assert l == |Encode(rest[0])|;
      Advance(l);
    }

    /** NEXTL, past the next character. */
    method Advance(l: nat)
      requires Valid() && rest != [] && l == |Encode(rest[0])|
      modifies `cur, `rest
      ensures Valid() && rest == old(rest)[1..]
    {
      assert EncodeAll(rest)[l..] == EncodeAll(rest[1..]);
      assert input[cur + l..] == input[cur..][l..];
      cur := cur + l;
      rest := rest[1..];
    }

    /** htmlCurrentChar: the next character and its length, 0 at the end. */
    method CurrentChar() returns (c: CodePoint, l: nat)
      requires Valid()
      ensures rest == [] ==> c == 0 && l == 1
      ensures rest != [] ==> c == rest[0] && l == |Encode(c)|
    {
      CurIs();
      if Nxt(0) == 0 { return 0, 1; }
      ReaderUndoesWriter(rest[0], EncodeAll(rest[1..]));
      var first := ReadChar(input[cur..]);
      c, l := first.c, first.len;
    }

    /** SKIP, over n ASCII characters. */
    method Skip(n: nat)
      requires Valid() && n <= |rest| && forall k :: 0 <= k < n ==> rest[k] < 0x80
      modifies `cur, `rest
      ensures Valid() && rest == old(rest)[n..]
    {
      AsciiAhead(rest, n);
      assert input[cur + n..] == input[cur..][n..];
      cur := cur + n;
      rest := rest[n..];
    }

    /** htmlParseCharRef at "&#". */
    method ParseCharRef() returns (c: CodePoint)
      requires Valid() && |rest| > 1 && rest[0] == AMP && rest[1] == HASH
      modifies `cur, `rest
      ensures Valid() && (c, rest) == CharRef(old(rest))
    {
      AsciiByte(2);
      var val;
      if Nxt(2) == 0x78 || Nxt(2) == 0x58 {
        Skip(3);
        val := ParseHex();
      } else {
        Skip(2);
        val := ParseDec();
      }
      c := if IsXmlChar(val) then val else 0;
    }

    method ParseHex() returns (val: nat)
      requires Valid()
      modifies `cur, `rest
      ensures Valid() && (val, rest) == Hex(old(rest), 0)
    {
      val := 0;
      CurIs();
      while Nxt(0) != SEMICOLON
        invariant Valid() && Hex(rest, val) == Hex(old(rest), 0)
        decreases |rest|
      {
        CurIs();
        var d := HexDigit(Nxt(0));
        if d < 0 { break; }
        val := val * 16 + d;
        Next();
      }
      CurIs();
      if Nxt(0) == SEMICOLON { Next(); }
    }

    method ParseDec() returns (val: nat)
      requires Valid()
      modifies `cur, `rest
      ensures Valid() && (val, rest) == Dec(old(rest), 0)
    {
      val := 0;
      CurIs();
      while Nxt(0) != SEMICOLON
        invariant Valid() && Dec(rest, val) == Dec(old(rest), 0)
        decreases |rest|
      {
        CurIs();
        if !IsDigit(Nxt(0)) { break; }
        val := val * 10 + (Nxt(0) - 0x30);
        Next();
      }
      CurIs();
      if Nxt(0) == SEMICOLON { Next(); }
    }

    /** The byte behind k ASCII characters. */
    lemma AsciiByte(k: nat)
      requires Valid() && k <= |rest| && forall i :: 0 <= i < k ==> rest[i] < 0x80
      ensures |rest| == k <==> Nxt(k) == 0
      ensures |rest| > k ==> if rest[k] < 0x80 then Nxt(k) == rest[k] else Nxt(k) >= 0x80
    {
      AsciiAhead(rest, k);
      assert input[cur + k..] == input[cur..][k..];
      if |rest| > k {
        assert EncodeAll(rest[k..])[0] == Encode(rest[k])[0];
        assert input[cur + k..][0] == Encode(rest[k])[0];
      } else {
        assert |input[cur + k..]| == 0;
      }
    }

    /** htmlParseName: a fast path for ASCII names that end in ASCII, else the general one. */
    method ParseName() returns (name: Option<seq<Byte>>)
      requires Valid() && Coherent(cl)
      modifies `cur, `rest
      ensures Valid() && NameRead(cl, old(rest), name, rest)
    {
      var n := ScanName();
      if n > 0 && 0 < Nxt(n) < 0x80 {
        AsciiByte(n);
        NameEnds(cl, rest, n);
        name := Some(input[cur..cur + n]);
        TakeAscii(n);
        return;
      }
      name := ParseNameComplex();
    }

    /** The bytes of an ASCII name, 0 if there is none. */
    method ScanName() returns (n: nat)
      requires Valid()
      ensures n <= |rest| && forall i :: 0 <= i < n ==> rest[i] < 0x80
      ensures n > 0 ==> StartsName(cl, rest[0]) && forall i :: 1 <= i < n ==> InName(cl, rest[i])
      ensures n > 0 && 0 < Nxt(n) < 0x80 ==> !IsAsciiNameChar(Nxt(n))
    {
      n := 0;
      CurIs();
      if IsAsciiLetter(Nxt(0)) || Nxt(0) == 0x5F || Nxt(0) == 0x3A {
        n := 1;
        AsciiByte(1);
        while IsAsciiNameChar(Nxt(n))
          invariant 1 <= n <= |rest| && forall i :: 0 <= i < n ==> rest[i] < 0x80
          invariant StartsName(cl, rest[0]) && forall i :: 1 <= i < n ==> InName(cl, rest[i])
          invariant |rest| == n <==> Nxt(n) == 0
          invariant |rest| > n ==> if rest[n] < 0x80 then Nxt(n) == rest[n] else Nxt(n) >= 0x80
          decreases |rest| - n
        {
          n := n + 1;
          AsciiByte(n);
        }
      }
    }

    /** Moves over n ASCII characters that are a name. */
    method TakeAscii(n: nat)
      requires Valid() && n <= |rest| && forall k :: 0 <= k < n ==> rest[k] < 0x80
      modifies `cur, `rest
      ensures Valid() && rest == old(rest)[n..] && cur == old(cur) + n
      ensures input[old(cur)..cur] == EncodeAll(old(rest)[..n])
    {
      AsciiAhead(rest, n);
      assert input[cur + n..] == input[cur..][n..];
      assert input[cur..cur + n] == input[cur..][..n];
      cur := cur + n;
      rest := rest[n..];
    }

    /** htmlParseNameComplex. */
    method ParseNameComplex() returns (name: Option<seq<Byte>>)
      requires Valid() && Coherent(cl)
      modifies `cur, `rest
      ensures Valid() && NameRead(cl, old(rest), name, rest)
    {
      ghost var rest0, cur0 := rest, cur;
      ghost var n := 0;
      var c, l := CurrentChar();
      if c == 0 || !StartsName(cl, c) { return None; }
      var len := 0;
      while c != 0 && InName(cl, c)
        invariant Valid() && n <= |rest0| && rest == rest0[n..] && (rest == [] <==> c == 0)
        invariant rest != [] ==> c == rest[0] && l == |Encode(c)|
        invariant cur == cur0 + len && input[cur0..cur] == EncodeAll(rest0[..n])
        invariant (forall i :: 0 <= i < n ==> InName(cl, rest0[i])) && (n == 0 ==> c != 0 && InName(cl, c))
        decreases |rest|
      {
        Extend(rest0, n, cur0, l);
        len := len + l;
        Advance(l);
        n := n + 1;
        c, l := CurrentChar();
      }
      NameEnds(cl, rest0, n);
      name := Some(input[cur - len..cur]);
    }

    /** The name so far with the next character. */
    lemma Extend(rest0: Chars, n: nat, cur0: nat, l: nat)
      requires Valid() && n < |rest0| && rest == rest0[n..] && l == |Encode(rest0[n])|
      requires cur0 <= cur && input[cur0..cur] == EncodeAll(rest0[..n])
      ensures cur + l <= |input| && input[cur0..cur + l] == EncodeAll(rest0[..n + 1])
    {
      assert EncodeAll(rest)[..l] == Encode(rest0[n]);
      assert input[cur..cur + l] == input[cur..][..l];
      Spliced(input, cur0, cur, cur + l);
      EncodeAllSnoc(rest0[..n], rest0[n]);
      assert rest0[..n + 1] == rest0[..n] + [rest0[n]];
    }

    /** htmlParseEntityRef: the entity and the name that was read, each if there is one. */
    method ParseEntityRef(table: seq<Entity>) returns (ent: Option<nat>, str: Option<seq<Byte>>)
      requires Valid() && Coherent(cl) && Proper(table) && rest != [] && rest[0] == AMP
      modifies `cur, `rest
      ensures Valid() && EntityRead(table, cl, old(rest), ent, str, rest)
    {
      Next();
      ghost var behind, n := rest, NameLength(cl, rest);
      assert behind[..n] == old(rest)[1..1 + n] && behind[n..] == old(rest)[1 + n..];
      str := ParseName();
      ent := None;
      if str.None? { return; }
      SameEntity(table, behind[..NameLength(cl, behind)]);
      CurIs();
      if Nxt(0) == SEMICOLON {
        ent := EntityLookup(table, str.value);
        if ent.Some? { Next(); }
      }
    }

    /** htmlParseHTMLAttribute: the output buffer of `size` bytes grows before it is full. */
    method ParseHTMLAttribute(table: seq<Entity>, stop: Byte) returns (out: seq<Byte>, size: nat)
      requires Valid() && Coherent(cl) && Proper(table) && stop < 0x80
      modifies `cur, `rest
      ensures Valid() && out == EncodeAll(Value(table, cl, old(rest), stop).0)
      ensures rest == Value(table, cl, old(rest), stop).1 && |out| < size
    {
      size := HTML_PARSER_BUFFER_SIZE;
      out := [];
      ghost var read: Chars := [];
      ReadNone(table, cl, rest, stop);
      CurIs();
      while Nxt(0) != 0 && Nxt(0) != stop && !(stop == 0 && (Nxt(0) == GT || IsBlank(Nxt(0))))
        invariant Valid() && out == EncodeAll(read) && |out| + 95 <= size && size >= 100
        invariant (rest == [] <==> Nxt(0) == 0)
        invariant rest != [] ==> if rest[0] < 0x80 then Nxt(0) == rest[0] else Nxt(0) >= 0x80
        invariant Read(table, cl, old(rest), stop, read, rest)
        decreases |rest|
      {
        ghost var piece;
        ReadMore(table, cl, old(rest), stop, read, rest);
        out, size, piece := ParsePiece(table, out, size);
        EncodeAllSum(read, piece);
        read := read + piece;
        CurIs();
      }
      ReadAll(table, cl, old(rest), stop, read, rest);
    }

    /** One turn of its loop. */
    method ParsePiece(table: seq<Entity>, out0: seq<Byte>, size0: nat)
      returns (out: seq<Byte>, size: nat, ghost piece: Chars)
      requires Valid() && Coherent(cl) && Proper(table) && rest != [] && |out0| + 95 <= size0 && size0 >= 100
      modifies `cur, `rest
      ensures Valid() && (piece, rest) == Piece(table, cl, old(rest))
      ensures out == out0 + EncodeAll(piece) && |out| + 95 <= size && size >= 100
    {
      size := size0;
      CurIs();
      piece := Piece(table, cl, rest).0;
      if Nxt(0) == AMP {
        NxtIs();
        if Nxt(1) == HASH {
          var c := ParseCharRef();
          Single(c);
          out := PutChar(out0, c);
          size := Grown(|out|, size);
        } else {
          out, size := ParseNamed(table, out0, size0);
        }
      } else {
        size := Grown(|out0|, size);
        var c, l := CurrentChar();
        Single(c);
        out := PutChar(out0, c);
        Next();
      }
    }

    /** The reference by name, resolved if it can be. */
    method ParseNamed(table: seq<Entity>, out0: seq<Byte>, size0: nat) returns (out: seq<Byte>, size: nat)
      requires Valid() && Coherent(cl) && Proper(table) && |out0| + 95 <= size0 && size0 >= 100
      requires rest != [] && rest[0] == AMP && (|rest| > 1 ==> rest[1] != HASH)
      modifies `cur, `rest
      ensures Valid() && rest == Piece(table, cl, old(rest)).1
      ensures out == out0 + EncodeAll(Piece(table, cl, old(rest)).0) && |out| + 95 <= size && size >= 100
    {
      ghost var before := rest;
      var ent, name := ParseEntityRef(table);
      NamedMeans(table, cl, before, ent, name, rest);
      if name.None? {
        out := out0 + [AMP];
        size := Grown(|out|, size0);
      } else if ent.None? {
        out, size := CopyName(out0 + [AMP], size0, name.value);
        Regroup(out0, [AMP], name.value);
      } else {
        size := Grown(|out0|, size0);
        out := PutChar(out0, table[ent.value].value);
      }
    }

    /** Copies an unknown name, with room checked for every byte. */
    method CopyName(out0: seq<Byte>, size0: nat, name: seq<Byte>) returns (out: seq<Byte>, size: nat)
      requires |out0| + 94 <= size0 && size0 >= 100 && name != []
      ensures out == out0 + name && |out| + 99 <= size && size >= 100
    {
      out, size := out0, size0;
      var i := 0;
      while i < |name|
        invariant 0 <= i <= |name| && out == out0 + name[..i] && |out| + (if i == 0 then 94 else 99) <= size
        invariant size >= 100
      {
        size := Grown(|out|, size);
        out := out + [name[i]];
        i := i + 1;
      }
      assert name[..|name|] == name;
    }
  }

  /** growBuffer, when fewer than 100 bytes are left. */
  method Grown(used: nat, size0: nat) returns (size: nat)
    requires used + 91 <= size0 && size0 >= 100
    ensures used + 100 <= size && size >= size0
  {
    size := if used > size0 - 100 then size0 * 2 else size0;
  }

  lemma Single(c: CodePoint)
    ensures EncodeAll([c]) == Encode(c)
  {
    assert [c][1..] == [];
  }

  /** What htmlParseEntityRef leaves behind the '&'. */
  ghost predicate EntityRead(table: seq<Entity>, cl: Classes, before: Chars, ent: Option<nat>,
                             str: Option<seq<Byte>>, after: Chars)
    requires before != []
  {
    var n := NameLength(cl, before[1..]);
    var name, behind := before[1..1 + n], before[1 + n..];
    && str == (if n == 0 then None else Some(EncodeAll(name)))
    && ent == (if n > 0 && behind != [] && behind[0] == SEMICOLON then ByName(table, name) else None)
    && after == if ent.Some? then behind[1..] else behind
  }

  /** The bytes of a name find the entity that its characters do. */
  lemma SameEntity(table: seq<Entity>, name: Chars)
    requires Proper(table)
    ensures ByName(table, EncodeAll(name)) == ByName(table, name)
  {
    var bytes := EncodeAll(name);
    DecodeUndoesEncode(name);
    forall i | 0 <= i < |table|
      ensures table[i].name == bytes <==> table[i].name == name
    {
      AsciiIsUtf8(table[i].name);
      DecodeUndoesEncode(table[i].name);
    }
  }

  /** What the attribute parser puts out for it is the meaning of the piece. */
  lemma NamedMeans(table: seq<Entity>, cl: Classes, before: Chars, ent: Option<nat>, str: Option<seq<Byte>>,
                   after: Chars)
    requires Proper(table) && before != [] && before[0] == AMP && (|before| > 1 ==> before[1] != HASH)
    requires EntityRead(table, cl, before, ent, str, after)
    ensures Piece(table, cl, before).1 == after && (str.Some? ==> str.value != []) && (ent.Some? ==> str.Some?)
    ensures EncodeAll(Piece(table, cl, before).0) ==
      if str.None? then [AMP] else if ent.None? then [AMP] + str.value else Encode(table[ent.value].value)
  {
    var n := NameLength(cl, before[1..]);
    var name := before[1..1 + n];
    Single(AMP);
    EncodeAllSum([AMP], name);
    if ent.Some? {
      Single(table[ent.value].value);
    }
  }

  /** The part of the value read so far, and the rest. */
  ghost predicate Read(table: seq<Entity>, cl: Classes, text: Chars, stop: nat, read: Chars, rest: Chars)
    requires Proper(table)
  {
    Value(table, cl, text, stop) == (read + Value(table, cl, rest, stop).0, Value(table, cl, rest, stop).1)
  }

  lemma ReadNone(table: seq<Entity>, cl: Classes, text: Chars, stop: nat)
    requires Proper(table)
    ensures Read(table, cl, text, stop, [], text)
  {
    assert [] + Value(table, cl, text, stop).0 == Value(table, cl, text, stop).0;
  }

  lemma ReadMore(table: seq<Entity>, cl: Classes, text: Chars, stop: nat, read: Chars, rest: Chars)
    requires Proper(table) && Read(table, cl, text, stop, read, rest) && !Stops(rest, stop)
    ensures Read(table, cl, text, stop, read + Piece(table, cl, rest).0, Piece(table, cl, rest).1)
  {
    var (piece, after) := Piece(table, cl, rest);
    ValueStep(table, cl, rest, stop, piece, after);
    Regroup(read, piece, Value(table, cl, after, stop).0);
  }

  lemma ReadAll(table: seq<Entity>, cl: Classes, text: Chars, stop: nat, read: Chars, rest: Chars)
    requires Proper(table) && Read(table, cl, text, stop, read, rest) && Stops(rest, stop)
    ensures Value(table, cl, text, stop) == (read, rest)
  {
    assert read + [] == read;
  }

  /** A cursor over what the encoder wrote for some UTF-8, with the closing quote behind it, reads
      exactly this UTF-8 back and stops at the quote. */
  lemma EncodedAttributeReadsBack(table: seq<Entity>, cl: Classes, cs: Chars, quote: CodePoint, size: nat,
                                  ret: int, text: Text, tail: Chars)
    requires Proper(table) && (quote == 34 || quote == 39) && forall k :: 0 <= k < |cs| ==> IsXmlChar(cs[k])
    requires Encodes(table, EncodeAll(cs), quote, size, ret, |EncodeAll(cs)|, text)
    ensures var end: Chars := [quote] + tail;
      && EncodeAll(text + end) == text + EncodeAll(end)
      && EncodeAll(Value(table, cl, text + end, quote).0) == EncodeAll(cs)
      && Value(table, cl, text + end, quote).1 == end
  {
    var bytes, end: Chars := EncodeAll(cs), [quote] + tail;
    assert bytes[..|bytes|] == bytes;
    DecodeUndoesEncode(cs);
    AttributeRoundTrip(table, cl, cs, quote, tail);
    HtmlIsSafeAscii(table, cs, quote);
    AsciiIsUtf8(text);
    EncodeAllSum(text, end);
  }
}
