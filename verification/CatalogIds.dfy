/** Identifiers of catalog.c: normalising public identifiers (section 6.2 of the OASIS XML Catalogs
    draft of 06 August 2001) and unwrapping `urn:publicid:` names (section 6.4). */
module CatalogIds {
  import Utf8
  import opened XmlStrings

  // Public identifier normalisation

  predicate IsBlank(c: char) {
    c == ' ' || c == '\t' || c == '\n' || c == '\r'
  }

  /** The maximal blank-free pieces, in order. */
  function Words(s: string): (ws: seq<string>)
    ensures |s| > 0 && !IsBlank(s[|s| - 1]) ==> ws != []
  {
    if s == "" then [] else
    var ws, n := Words(s[..|s| - 1]), |s| - 1;
    if IsBlank(s[n]) then ws
    else if n == 0 || IsBlank(s[n - 1]) then ws + [[s[n]]]
    else ws[..|ws| - 1] + [ws[|ws| - 1] + [s[n]]]
  }

  function Joined(ws: seq<string>): string {
    if ws == [] then "" else
    if |ws| == 1 then ws[0] else Joined(ws[..|ws| - 1]) + " " + ws[|ws| - 1]
  }

  /** The normal form: the words with single spaces between them. */
  function Normalised(s: string): string {
    Joined(Words(s))
  }

  /** No blank but single spaces, and those only between words. */
  ghost predicate IsNormal(s: string) {
    forall k :: 0 <= k < |s| && IsBlank(s[k]) ==> s[k] == ' ' && 0 < k < |s| - 1 && !IsBlank(s[k - 1])
  }

  lemma JoinedSnoc(ws: seq<string>, w: string)
    ensures Joined(ws + [w]) == if ws == [] then w else Joined(ws) + " " + w
  {
    assert (ws + [w])[..|ws|] == ws;
  }

  lemma JoinedExtended(ws: seq<string>, w: string, c: char)
    ensures Joined(ws + [w + [c]]) == Joined(ws + [w]) + [c]
  {
    JoinedSnoc(ws, w + [c]);
    JoinedSnoc(ws, w);
    if ws != [] {
      assert Joined(ws) + " " + (w + [c]) == Joined(ws) + " " + w + [c];
    }
  }

  /** One more character of the identifier. */
  lemma NormalisedSnoc(s: string, c: char)
    ensures Normalised(s + [c]) ==
      if IsBlank(c) then Normalised(s)
      else if s != "" && IsBlank(s[|s| - 1]) && Normalised(s) != "" then Normalised(s) + " " + [c]
      else Normalised(s) + [c]
  {
    var ws := Words(s);
    assert (s + [c])[..|s|] == s;
    WordsAreWords(s);
    if !IsBlank(c) {
      if s == "" || IsBlank(s[|s| - 1]) {
        JoinedSnoc(ws, [c]);
        JoinedEmpty(s);
      } else {
        JoinedExtended(ws[..|ws| - 1], ws[|ws| - 1], c);
        assert ws == ws[..|ws| - 1] + [ws[|ws| - 1]];
      }
    }
  }

  lemma {:induction false} WordsAreWords(s: string)
    ensures forall k :: 0 <= k < |Words(s)| ==> Words(s)[k] != ""
    ensures s == "" || IsBlank(s[|s| - 1]) || Words(s) != []
  {
    if s != "" {
      WordsAreWords(s[..|s| - 1]);
    }
  }

  lemma JoinedEmpty(s: string)
    ensures Normalised(s) == "" <==> Words(s) == []
  {
    WordsAreWords(s);
  }

  /** Invariant of both loops: the normal form of what was read has no trailing blank. */
  lemma {:induction false} NormalisedIsNormal(s: string)
    ensures IsNormal(Normalised(s))
    ensures Normalised(s) != "" ==> !IsBlank(Normalised(s)[|Normalised(s)| - 1])
  {
    if s != "" {
      var front, c := s[..|s| - 1], s[|s| - 1];
      NormalisedIsNormal(front);
      assert s == front + [c];
      NormalisedSnoc(front, c);
      StaysNormal(Normalised(front), c);
    }
  }

  lemma StaysNormal(t: string, c: char)
    requires IsNormal(t) && (t != "" ==> !IsBlank(t[|t| - 1]))
    ensures !IsBlank(c) ==> IsNormal(t + [c]) && (t != "" ==> IsNormal(t + " " + [c]))
  {
    if !IsBlank(c) && t != "" {
      var u := t + " " + [c];
      assert u[|t|] == ' ' && u[|t| + 1] == c && forall k :: 0 <= k < |t| ==> u[k] == t[k];
    }
  }

  /** A string in normal form is left alone, up to a space it may end with. */
  lemma {:induction false} PrefixIsFixed(s: string)
    requires forall k :: 0 <= k < |s| && IsBlank(s[k]) ==> s[k] == ' ' && 0 < k && !IsBlank(s[k - 1])
    ensures s == Normalised(s) + if s != "" && IsBlank(s[|s| - 1]) then " " else ""
  {
    if s != "" {
      var front, c := s[..|s| - 1], s[|s| - 1];
      PrefixIsFixed(front);
      assert s == front + [c];
      NormalisedSnoc(front, c);
    }
  }

  /** The normal strings are exactly the fixed points, and normalising is idempotent. */
  lemma NormalIffFixed(s: string)
    ensures IsNormal(s) <==> Normalised(s) == s
    ensures Normalised(Normalised(s)) == Normalised(s)
  {
    NormalisedIsNormal(s);
    PrefixIsFixed(Normalised(s));
    if IsNormal(s) {
      PrefixIsFixed(s);
    }
  }

  /** Only white space changes: the other characters are kept, in order. */
  function Ink(s: string): string {
    if s == "" then "" else Ink(s[..|s| - 1]) + if IsBlank(s[|s| - 1]) then "" else [s[|s| - 1]]
  }

  lemma InkSnoc(s: string, c: char)
    ensures Ink(s + [c]) == Ink(s) + if IsBlank(c) then "" else [c]
  {
    assert (s + [c])[..|s|] == s;
  }

  lemma {:induction false} NormalisedKeepsInk(s: string)
    ensures Ink(Normalised(s)) == Ink(s)
  {
    if s != "" {
      var front, c := s[..|s| - 1], s[|s| - 1];
      NormalisedKeepsInk(front);
      assert s == front + [c];
      NormalisedSnoc(front, c);
      InkSnoc(Normalised(front), ' ');
      InkSnoc(Normalised(front), c);
      InkSnoc(Normalised(front) + " ", c);
    }
  }

  /** The first i characters could start a normal string. */
  ghost predicate SpacedSoFar(s: string, i: nat)
    requires i <= |s|
  {
    forall k :: 0 <= k < i && IsBlank(s[k]) ==> s[k] == ' ' && 0 < k && !IsBlank(s[k - 1])
  }

  lemma SpacedIffNormal(s: string)
    ensures SpacedSoFar(s, |s|) && s != "" && !IsBlank(s[|s| - 1]) <==> IsNormal(s) && s != ""
  {
    if IsNormal(s) && s != "" {
      assert IsBlank(s[|s| - 1]) ==> |s| - 1 < |s| - 1;
    }
  }

  /** xmlCatalogNormalizePublic: nothing if the identifier is in normal form already. */
  method NormalizePublic(pub: string) returns (r: Option<string>)
    ensures r.None? <==> IsNormal(pub) && pub != ""
    ensures r.Some? ==> r.value == Normalised(pub)
  {
    var ok, white, i := true, true, 0;
    while i < |pub| && ok
      invariant 0 <= i <= |pub| && (ok <==> SpacedSoFar(pub, i))
      invariant ok ==> (white <==> i == 0 || IsBlank(pub[i - 1]))
    {
      if !IsBlank(pub[i]) {
        white := false;
      } else if pub[i] == ' ' && !white {
        white := true;
      } else {
        ok := false;
      }
      i := i + 1;
    }
    SpacedIffNormal(pub);
    assert !ok ==> !SpacedSoFar(pub, |pub|);
    if ok && !white { return None; }
    var ret := Collapse(pub);
    r := Some(ret);
  }

  method Collapse(pub: string) returns (ret: string)
    ensures ret == Normalised(pub)
  {
    ret := "";
    var white, i := false, 0;
    while i < |pub|
      invariant 0 <= i <= |pub|
      invariant ret == Normalised(pub[..i])
      invariant white <==> i > 0 && IsBlank(pub[i - 1]) && ret != ""
    {
      assert pub[..i + 1] == pub[..i] + [pub[i]];
      NormalisedSnoc(pub[..i], pub[i]);
      if IsBlank(pub[i]) {
        if ret != "" { white := true; }
      } else {
        if white {
          ret := ret + " ";
          white := false;
        }
        ret := ret + [pub[i]];
      }
      i := i + 1;
    }
    assert pub[..|pub|] == pub;
  }

  /** What the resolver goes on with: a blank public identifier is none. */
  function NormalId(pub: Option<string>): Option<string> {
    if pub.Some? && Normalised(pub.value) != "" then Some(Normalised(pub.value)) else None
  }

  // Public identifier URNs

  const URN_PUBID := "urn:publicid:"
  const RESULT_SIZE := 2000

  predicate IsUrn(s: string) {
    URN_PUBID <= s
  }

  /** The characters written as % and two hexadecimal digits. */
  function Escaped(a: char, b: char): Option<char> {
    if a == '2' && b == 'B' then Some('+')
    else if a == '3' && b == 'A' then Some(':')
    else if a == '2' && b == 'F' then Some('/')
    else if a == '3' && b == 'B' then Some(';')
    else if a == '2' && b == '7' then Some('\'')
    else if a == '3' && b == 'F' then Some('?')
    else if a == '2' && b == '3' then Some('#')
    else if a == '2' && b == '5' then Some('%')
    else None
  }

  /** What the first character of t stands for, and how many characters that takes up. */
  function FirstToken(t: string): (r: (string, nat))
    requires t != ""
    ensures 1 <= |r.0| <= 2 && 1 <= r.1 <= |t|
  {
    if t[0] == '+' then (" ", 1)
    else if t[0] == ':' then ("//", 1)
    else if t[0] == ';' then ("::", 1)
    else if t[0] == '%' && |t| >= 3 && Escaped(t[1], t[2]).Some? then ([Escaped(t[1], t[2]).value], 3)
    else ([t[0]], 1)
  }

  /** The expansion of t when `done` characters stand in the result buffer already. */
  function Decoded(t: string, done: nat): string {
    if t == "" || done > RESULT_SIZE - 4 then "" else
    var (out, used) := FirstToken(t);
    out + Decoded(t[used..], done + |out|)
  }

  function Unwrapped(urn: string): string
    requires IsUrn(urn)
  {
    Decoded(urn[|URN_PUBID|..], 0)
  }

  /** xmlCatalogUnWrapURN: the result always fits its buffer of 2000 characters with the terminator. */
  method UnWrapURN(urn: string) returns (r: Option<string>)
    ensures r.Some? <==> IsUrn(urn)
    ensures r.Some? ==> r.value == Unwrapped(urn) && |r.value| < RESULT_SIZE
  {
    if !(URN_PUBID <= urn) { return None; }
    var t, result := urn[|URN_PUBID|..], "";
    while t != ""
      invariant result + Decoded(t, |result|) == Unwrapped(urn) && |result| < RESULT_SIZE - 1
      decreases |t|
    {
      if |result| > RESULT_SIZE - 4 { break; }
      var out, used := ExpandFirst(t);
      DecodedStep(t, result, out, used);
      assert |result + out| == |result| + |out|;
      result, t := result + out, t[used..];
    }
    r := Some(result);
  }

  lemma DecodedStep(t: string, result: string, out: string, used: nat)
    requires t != "" && |result| <= RESULT_SIZE - 4 && FirstToken(t) == (out, used)
    ensures result + Decoded(t, |result|) == (result + out) + Decoded(t[used..], |result| + |out|)
  {
    DecodedFirst(t, |result|, out, used);
    Utf8.Regroup(result, out, Decoded(t[used..], |result| + |out|));
  }

  lemma DecodedFirst(t: string, done: nat, out: string, used: nat)
    requires t != "" && done <= RESULT_SIZE - 4 && FirstToken(t) == (out, used)
    ensures Decoded(t, done) == out + Decoded(t[used..], done + |out|)
  {
  }

  /** The branches of the loop. */
  method ExpandFirst(t: string) returns (out: string, used: nat)
    requires t != ""
    ensures (out, used) == FirstToken(t)
  {
    if t[0] == '+' {
      return " ", 1;
    } else if t[0] == ':' {
      return "//", 1;
    } else if t[0] == ';' {
      return "::", 1;
    } else if t[0] == '%' && |t| >= 3 {
      var c := Escaped(t[1], t[2]);
      if c.Some? { return [c.value], 3; }
    }
    out, used := [t[0]], 1;
  }

  function Percents(s: string): nat {
    if s == "" then 0 else (if s[0] == '%' then 1 else 0) + Percents(s[1..])
  }

  lemma {:induction false} PercentsSum(a: string, b: string)
    ensures Percents(a + b) == Percents(a) + Percents(b)
  {
    if a == "" {
      assert a + b == b;
    } else {
      PercentsSum(a[1..], b);
      assert (a + b)[1..] == a[1..] + b;
    }
  }

  /** Colons come in adjacent pairs. */
  predicate Paired(s: string) {
    s == "" || (if s[0] == ':' then |s| > 1 && s[1] == ':' && Paired(s[2..]) else Paired(s[1..]))
  }

  lemma {:induction false} DecodedPercents(t: string, done: nat)
    ensures Percents(Decoded(t, done)) <= Percents(t)
    ensures Percents(Decoded(t, done)) == Percents(t) && done <= RESULT_SIZE ==> Paired(Decoded(t, done))
    decreases |t|
  {
    if t != "" && done <= RESULT_SIZE - 4 {
      var (out, used) := FirstToken(t);
      var rest := Decoded(t[used..], done + |out|);
      DecodedPercents(t[used..], done + |out|);
      PercentsSum(out, rest);
      assert t == t[..used] + t[used..];
      PercentsSum(t[..used], t[used..]);
      TokenPercents(t);
      assert Decoded(t, done) == out + rest;
      if Percents(out + rest) == Percents(t) {
        if out == "::" {
          assert (out + rest)[2..] == rest;
        } else if |out| == 1 {
          assert (out + rest)[1..] == rest;
        } else {
          assert (out + rest)[1..][1..] == rest;
        }
      }
    }
  }

  lemma TokenPercents(t: string)
    requires t != ""
    ensures var (out, used) := FirstToken(t); Percents(out) <= Percents(t[..used])
    ensures var (out, used) := FirstToken(t); out == ":" ==> Percents(out) < Percents(t[..used])
    ensures var (out, used) := FirstToken(t); out == ":" || out == "::" || ':' !in out
  {
    var (out, used) := FirstToken(t);
    if used == 3 {
      assert t[..3][1..] == t[1..3];
      assert |out| == 1 && out[1..] == "";
    } else {
      assert t[..1][1..] == "";
      if |out| == 2 {
        assert out[1..][1..] == "";
      } else {
        assert out[1..] == "";
      }
    }
  }

  /** Unwrapping takes away a '%' whenever its result is to be unwrapped again. */
  lemma UnwrapAgainHasFewerPercents(urn: string)
    requires IsUrn(urn) && IsUrn(Unwrapped(urn))
    ensures Percents(Unwrapped(urn)) < Percents(urn)
  {
    var t := urn[|URN_PUBID|..];
    assert urn == URN_PUBID + t;
    PercentsSum(URN_PUBID, t);
    DecodedPercents(t, 0);
    var s := Decoded(t, 0);
    if Percents(s) == Percents(t) {
      UrnIsNotPaired(s);
    }
  }

  lemma UrnIsNotPaired(s: string)
    requires IsUrn(s)
    ensures !Paired(s)
  {
    assert s[0] == 'u' && s[1] == 'r' && s[2] == 'n' && s[3] == ':' && s[4] == 'p';
    assert s[1..][1..] == s[2..] && s[2..][1..] == s[3..];
    assert Paired(s) == Paired(s[1..]) == Paired(s[2..]) == Paired(s[3..]);
    assert s[3..][0] == ':' && s[3..][1] == 'p';
  }

  // The same for what the resolver looks at, the normalised expansion

  lemma {:induction false} InkSum(a: string, b: string)
    ensures Ink(a + b) == Ink(a) + Ink(b)
  {
    if b == "" {
      assert a + b == a;
    } else {
      InkSum(a, b[..|b| - 1]);
      assert a + b == (a + b[..|b| - 1]) + [b[|b| - 1]];
      InkSnoc(a + b[..|b| - 1], b[|b| - 1]);
    }
  }

  lemma {:induction false} InkOfInk(s: string)
    requires forall c :: c in s ==> !IsBlank(c)
    ensures Ink(s) == s
  {
    if s != "" {
      InkOfInk(s[..|s| - 1]);
    }
  }

  lemma {:induction false} InkKeepsPercents(s: string)
    ensures Percents(Ink(s)) == Percents(s)
  {
    if s != "" {
      var front, c := s[..|s| - 1], s[|s| - 1];
      InkKeepsPercents(front);
      assert s == front + [c];
      PercentsSum(front, [c]);
      PercentsSum(Ink(front), [c]);
      assert Ink(front) + "" == Ink(front);
      assert [c][1..] == "";
    }
  }

  lemma {:induction false} InkKeepsPairs(s: string)
    requires Paired(s)
    ensures Paired(Ink(s))
    decreases |s|
  {
    if s != "" {
      var n := if s[0] == ':' then 2 else 1;
      InkKeepsPairs(s[n..]);
      assert s == s[..n] + s[n..];
      InkSum(s[..n], s[n..]);
      InkSum(s[..n - 1], [s[n - 1]]);
      assert s[..n] == s[..n - 1] + [s[n - 1]];
      var rest := Ink(s[n..]);
      if n == 2 {
        assert Ink(s) == [':', ':'] + rest && Ink(s)[2..] == rest;
      } else if IsBlank(s[0]) {
        assert Ink(s) == rest;
      } else {
        assert Ink(s) == [s[0]] + rest && Ink(s)[1..] == rest;
      }
    }
  }

  /** Normalising takes no '%' away, and makes no URN of an expansion that kept them all. */
  lemma UnwrapThenNormalise(urn: string)
    requires IsUrn(urn) && IsUrn(Normalised(Unwrapped(urn)))
    ensures Percents(Normalised(Unwrapped(urn))) < Percents(urn)
  {
    var t := urn[|URN_PUBID|..];
    assert urn == URN_PUBID + t;
    PercentsSum(URN_PUBID, t);
    DecodedPercents(t, 0);
    NormalUrnIsFewer(Unwrapped(urn), Percents(t));
  }

  lemma NormalUrnIsFewer(s: string, n: nat)
    requires Percents(s) <= n && (Percents(s) == n ==> Paired(s)) && IsUrn(Normalised(s))
    ensures Percents(Normalised(s)) < n
  {
    NormalisedKeepsInk(s);
    InkKeepsPercents(s);
    InkKeepsPercents(Normalised(s));
    UrnInInk(Normalised(s));
    UrnIsNotPaired(Ink(s));
    if Paired(s) {
      InkKeepsPairs(s);
      assert false;
    }
  }

  lemma UrnInInk(s: string)
    requires IsUrn(s)
    ensures IsUrn(Ink(s))
  {
    var tail := s[|URN_PUBID|..];
    assert s == URN_PUBID + tail;
    InkSum(URN_PUBID, tail);
    InkOfInk(URN_PUBID);
  }

  /** RFC 3151: how a public identifier is transcribed. */
  function Transcribed(id: string): string {
    if id == "" then ""
    else if id[0] == ' ' then "+" + Transcribed(id[1..])
    else if |id| > 1 && id[0] == '/' && id[1] == '/' then ":" + Transcribed(id[2..])
    else if |id| > 1 && id[0] == ':' && id[1] == ':' then ";" + Transcribed(id[2..])
    else Percented(id[0]) + Transcribed(id[1..])
  }

  function Percented(c: char): string {
    match c
    case '+' => "%2B"
    case ':' => "%3A"
    case '/' => "%2F"
    case ';' => "%3B"
    case '\'' => "%27"
    case '?' => "%3F"
    case '#' => "%23"
    case '%' => "%25"
    case _ => [c]
  }

  /** Unwrapping undoes the transcription, for identifiers that the buffer has room for. */
  lemma UnwrapUndoesWrap(id: string)
    requires |id| <= RESULT_SIZE - 3
    ensures Unwrapped(URN_PUBID + Transcribed(id)) == id
  {
    DecodedTranscribed(id, 0);
    assert (URN_PUBID + Transcribed(id))[|URN_PUBID|..] == Transcribed(id);
  }

  /** How many characters the first piece of the transcription stands for. */
  function PieceLength(id: string): nat {
    if |id| > 1 && ((id[0] == '/' && id[1] == '/') || (id[0] == ':' && id[1] == ':')) then 2 else 1
  }

  lemma PieceIsToken(id: string, rest: string) returns (token: string)
    requires id != ""
    ensures Transcribed(id) == token + Transcribed(id[PieceLength(id)..]) && token != ""
    ensures FirstToken(token + rest) == (id[..PieceLength(id)], |token|)
  {
    if id[0] == ' ' {
      token := "+";
      assert id[..1] == [id[0]];
    } else if PieceLength(id) == 1 {
      token := Percented(id[0]);
      assert id[..1] == [id[0]];
      var t := token + rest;
      assert t[0] == token[0];
      if |token| == 3 {
        assert t[1] == token[1] && t[2] == token[2];
        assert Escaped(t[1], t[2]) == Some(id[0]);
      }
    } else {
      token := if id[0] == '/' then ":" else ";";
      assert id[..2] == [id[0], id[1]];
    }
  }

  lemma {:induction false} DecodedTranscribed(id: string, done: nat)
    requires done + |id| <= RESULT_SIZE - 3
    ensures Decoded(Transcribed(id), done) == id
    decreases |id|
  {
    if id != "" {
      var n := PieceLength(id);
      var rest := Transcribed(id[n..]);
      var token := PieceIsToken(id, rest);
      DecodedTranscribed(id[n..], done + n);
      assert (token + rest)[|token|..] == rest;
      DecodedFirst(token + rest, done, id[..n], |token|);
      assert id == id[..n] + id[n..];
    }
  }
}
