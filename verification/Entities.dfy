/** xmlEncodeEntitiesInternal for documents that are not HTML: UTF-8 to ASCII with XML references. */
module Entities {
  import opened Utf8

  type Text = seq<Byte>

  const BUFFER_SIZE := 1000

  /** No document, or one whose encoding is known or not. */
  datatype Mode = NoDocument | Document(encoding: bool)

  predicate KeepsBytes(mode: Mode) {
    mode.Document? && mode.encoding
  }

  /** After an input error the document is taken for ISO-8859-1. */
  function AfterError(mode: Mode): Mode {
    if mode.Document? then Document(true) else mode
  }

  function Digit(d: nat): Byte
    requires d < 16
  {
    if d < 10 then 0x30 + d else 0x41 + d - 10
  }

  /** A number in upper-case digits, as "%d" and "%X" print it. */
  function Numeral(n: nat, base: nat): (s: Text)
    requires base == 10 || base == 16
    ensures s != []
    decreases n
  {
    if n < base then [Digit(n)] else Numeral(n / base, base) + [Digit(n % base)]
  }

  function DecimalRef(n: nat): Text {
    [0x26, 0x23] + Numeral(n, 10) + [0x3B]
  }

  function HexRef(n: nat): Text {
    [0x26, 0x23, 0x78] + Numeral(n, 16) + [0x3B]
  }

  const LT: Text := [0x26, 0x6C, 0x74, 0x3B]         // &lt;
  const GT: Text := [0x26, 0x67, 0x74, 0x3B]         // &gt;
  const AMP: Text := [0x26, 0x61, 0x6D, 0x70, 0x3B]  // &amp;

  /** How many bytes a leading byte announces; 1 for what cannot lead. */
  function Announced(b: Byte): (l: nat)
    ensures 1 <= l <= 4
  {
    if b < 0xC0 then 1 else if b < 0xE0 then 2 else if b < 0xF0 then 3 else if b < 0xF8 then 4 else 1
  }

  /** Six more bits. */
  function Joined(val: nat, b: Byte): nat {
    val * 64 + b % 64
  }

  /** The value of the announced bytes, of which the trailing ones are not checked. */
  function Announces(s: seq<Byte>): nat
    requires s != [] && Announced(s[0]) <= |s|
  {
    match Announced(s[0])
    case 2 => Joined(s[0] % 32, s[1])
    case 3 => Joined(Joined(s[0] % 16, s[1]), s[2])
    case 4 => Joined(Joined(Joined(s[0] % 8, s[1]), s[2]), s[3])
    case _ => 0
  }

  /** No leading byte announces more bytes than there are: the encoder would read past the end. */
  ghost predicate Announceable(s: seq<Byte>) {
    forall i :: 0 <= i < |s| ==> i + Announced(s[i]) <= |s|
  }

  /** What one turn of the loop writes, how many bytes it takes, and the mode it leaves. */
  function Turn(mode: Mode, s: seq<Byte>): (r: (Text, nat, Mode))
    requires s != [] && Announced(s[0]) <= |s|
    ensures 1 <= r.1 <= |s|
  {
    var b := s[0];
    if b == 0x3C then (LT, 1, mode)
    else if b == 0x3E then (GT, 1, mode)
    else if b == 0x26 then (AMP, 1, mode)
    else if 0x20 <= b < 0x80 || b == 10 || b == 9 then ([b], 1, mode)
    else if b >= 0x80 then
      if KeepsBytes(mode) then ([b], 1, mode)
      else if Announced(b) > 1 && IsXmlChar(Announces(s)) then (HexRef(Announces(s)), Announced(b), mode)
      else (DecimalRef(b), 1, AfterError(mode))
    else if b == 13 then (DecimalRef(b), 1, mode)
    else ([], 1, mode)
  }

  function Encoded(mode: Mode, s: seq<Byte>): Text
    requires Announceable(s)
    decreases |s|
  {
    if s == [] then [] else
    var (text, n, next) := Turn(mode, s);
    text + Encoded(next, s[n..])
  }

  /** The mode that the whole string leaves. */
  function ModeAfter(mode: Mode, s: seq<Byte>): Mode
    requires Announceable(s)
    decreases |s|
  {
    if s == [] then mode else ModeAfter(Turn(mode, s).2, s[Turn(mode, s).1..])
  }

  /** xmlEncodeEntitiesInternal on a zero-terminated string; `mode` is what the document says.  The
      block it writes to has always room for the text and its terminator. */
  method EncodeEntitiesInternal(mode0: Mode, input: seq<Byte>) returns (buffer: Text, bufferSize: nat, mode: Mode)
    requires Announceable(input) && forall k :: 0 <= k < |input| ==> input[k] != 0
    ensures buffer == Encoded(mode0, input) && |buffer| < bufferSize && mode == ModeAfter(mode0, input)
  {
    bufferSize := BUFFER_SIZE;
    buffer, mode := [], mode0;
    var cur := 0;
    assert input[0..] == input && [] + Encoded(mode0, input) == Encoded(mode0, input);
    while cur < |input|
      invariant 0 <= cur <= |input| && |buffer| + 80 <= bufferSize && bufferSize >= BUFFER_SIZE
      invariant Pending(mode, input[cur..], buffer, Encoded(mode0, input), ModeAfter(mode0, input))
      decreases |input| - cur
    {
      if |buffer| + 100 > bufferSize {
        bufferSize := bufferSize * 2;
      }
      cur, buffer, mode := EncodeNext(mode, input, cur, buffer, Encoded(mode0, input), ModeAfter(mode0, input));
    }
    assert buffer + [] == buffer;
  }

  method EncodeNext(mode0: Mode, input: seq<Byte>, cur0: nat, buffer0: Text, ghost goal: Text, ghost last: Mode)
    returns (cur: nat, buffer: Text, mode: Mode)
    requires cur0 < |input| && Announceable(input) && input[cur0] != 0
    requires Pending(mode0, input[cur0..], buffer0, goal, last)
    ensures cur0 < cur <= |input| && |buffer| <= |buffer0| + 10 && Pending(mode, input[cur..], buffer, goal, last)
  {
    Step(mode0, input[cur0..], buffer0, goal, last);
    TurnIsShort(mode0, input[cur0..]);
    var text, n;
    text, n, mode := EncodeOne(mode0, input, cur0);
    buffer, cur := buffer0 + text, cur0 + n;
    assert input[cur0..][n..] == input[cur..];
  }

  /** What is written and what is to come make the whole text. */
  ghost predicate Pending(mode: Mode, rest: seq<Byte>, buffer: Text, goal: Text, last: Mode) {
    Announceable(rest) && buffer + Encoded(mode, rest) == goal && ModeAfter(mode, rest) == last
  }

  lemma Step(mode: Mode, s: seq<Byte>, buffer: Text, goal: Text, last: Mode)
    requires s != [] && Pending(mode, s, buffer, goal, last)
    ensures var (text, n, next) := Turn(mode, s);
      Pending(next, s[n..], buffer + text, goal, last)
  {
    var (text, n, next) := Turn(mode, s);
    Regroup(buffer, text, Encoded(next, s[n..]));
  }

  /** One turn of the loop. */
  method EncodeOne(mode0: Mode, input: seq<Byte>, cur: nat) returns (text: Text, n: nat, mode: Mode)
    requires cur < |input| && Announceable(input) && input[cur] != 0
    ensures (text, n, mode) == Turn(mode0, input[cur..])
  {
    var b := input[cur];
    n, mode, text := 1, mode0, [];
    if b == 0x3C {
      text := LT;
    } else if b == 0x3E {
      text := GT;
    } else if b == 0x26 {
      text := AMP;
    } else if 0x20 <= b < 0x80 || b == 10 || b == 9 {
      text := [b];
    } else if b >= 0x80 {
      if mode.Document? && mode.encoding {
        text := [b];
      } else {
        text, n, mode := EncodeLong(mode0, input, cur);
      }
    } else if b == 13 {
      text := DecimalRef(b);
    }
  }

  /** The branch that takes the input for UTF-8. */
  method EncodeLong(mode0: Mode, input: seq<Byte>, cur: nat) returns (text: Text, n: nat, mode: Mode)
    requires cur < |input| && Announceable(input) && input[cur] >= 0x80 && !KeepsBytes(mode0)
    ensures (text, n, mode) == Turn(mode0, input[cur..])
  {
    var b := input[cur];
    var val: nat, l := 0, 1;
    mode := mode0;
    if b < 0xC0 {
      if mode.Document? { mode := Document(true); }
      return DecimalRef(b), 1, mode;
    } else if b < 0xE0 {
      val, l := Joined(b % 32, input[cur + 1]), 2;
    } else if b < 0xF0 {
      val, l := Joined(Joined(b % 16, input[cur + 1]), input[cur + 2]), 3;
    } else if b < 0xF8 {
      val, l := Joined(Joined(Joined(b % 8, input[cur + 1]), input[cur + 2]), input[cur + 3]), 4;
    }
    if l == 1 || !IsXmlChar(val) {
      if mode.Document? { mode := Document(true); }
      return DecimalRef(b), 1, mode;
    }
    text, n := HexRef(val), l;
  }

  function Power(base: nat, k: nat): nat {
    if k == 0 then 1 else base * Power(base, k - 1)
  }

  lemma {:induction false} NumeralLength(n: nat, base: nat, k: nat)
    requires (base == 10 || base == 16) && k > 0 && n < Power(base, k)
    ensures |Numeral(n, base)| <= k
  {
    if n >= base {
      assert k > 1 by {
        assert Power(base, 1) == base * Power(base, 0);
      }
      if base == 10 {
        assert n / 10 < Power(10, k - 1);
      } else {
        assert n / 16 < Power(16, k - 1);
      }
      NumeralLength(n / base, base, k - 1);
    }
  }

  lemma Powers()
    ensures Power(10, 3) == 1000 && Power(16, 6) == 0x100_0000
  {
    assert Power(10, 1) == 10 && Power(10, 2) == 100;
    assert Power(16, 1) == 16 && Power(16, 2) == 256 && Power(16, 3) == 4096;
    assert Power(16, 4) == 6_5536 && Power(16, 5) == 104_8576;
  }

  /** The longest text, "&#x10FFFF;", just fits the local buffer of 11 bytes. */
  lemma TurnIsShort(mode: Mode, s: seq<Byte>)
    requires s != [] && Announced(s[0]) <= |s|
    ensures |Turn(mode, s).0| <= 10
  {
    Powers();
    NumeralLength(s[0], 10, 3);
    if IsXmlChar(Announces(s)) {
      NumeralLength(Announces(s), 16, 6);
    }
  }
}
