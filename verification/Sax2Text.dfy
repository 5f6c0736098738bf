/** Text coalescing in xmlSAX2Characters: the text at the end of the current element is extended in
    place, in a block that grows ahead of need. */
module Sax2Text {
  import opened Utf8

  type Text = seq<Byte>

  const XML_MAX_TEXT_LENGTH := 1000_0000
  const POINTER_SIZE := 8

  /** The parser options that matter here. */
  datatype Config = Config(dictNames: bool, compact: bool, huge: bool)

  /** Where the content of a text node lies: in the dictionary, within the node itself, or in a block of its own. */
  datatype Place = Interned(s: Text) | InNode(s: Text) | Heap

  /** The last child of the current element. */
  datatype Last = NoChild | OtherChild | TextChild

  datatype Item = TextItem(text: Text) | OtherItem

  /** The bytes before the terminator. */
  function CString(s: seq<Byte>): Text {
    if s == [] || s[0] == 0 then [] else [s[0]] + CString(s[1..])
  }

  lemma {:induction false} CStringIs(s: seq<Byte>, t: Text)
    requires |t| < |s| && s[..|t|] == t && s[|t|] == 0 && 0 !in t
    ensures CString(s) == t
  {
    if t != [] {
      assert s[0] == t[0] && t[0] in t;
      assert s[1..][..|t| - 1] == t[1..];
      CStringIs(s[1..], t[1..]);
      assert t == [t[0]] + t[1..];
    }
  }

  /** The input goes on with a quote, or with a tag that is no declaration. */
  predicate TagAhead(ahead: seq<Byte>)
    requires |ahead| == 2
  {
    ahead[0] == 0x3C && ahead[1] != 0x21
  }

  predicate QuoteAhead(ahead: seq<Byte>)
    requires |ahead| == 2
  {
    ahead[0] == 0x22 || ahead[0] == 0x27
  }

  /** A very short string before a quote or a tag. */
  predicate IsShort(ch: Text, ahead: seq<Byte>)
    requires |ahead| == 2
  {
    |ch| <= 3 && (QuoteAhead(ahead) || TagAhead(ahead))
  }

  /** Formatting blanks between tags. */
  predicate IsIndentation(ch: Text, ahead: seq<Byte>)
    requires |ahead| == 2
  {
    |ch| < 60 && TagAhead(ahead) && ch != [] && forall i :: 0 <= i < |ch| ==> IsBlank(ch[i])
  }

  class Element {
    const cfg: Config
    var siblings: seq<Item>  // the children before the last one
    var last: Last
    var place: Place
    var block: array<Byte>   // the content of the last text if it has a block of its own
    var nodelen: int
    var nodemem: int

    ghost function Content(): Text
      reads this, block
    {
      if place.Heap? then CString(block[..]) else place.s
    }

    /** A block holds the text with its terminator. */
    ghost predicate Holds(t: Text)
      reads this, block
    {
      0 !in t && if place.Heap? then |t| < block.Length && block[..|t|] == t && block[|t|] == 0 else place.s == t
    }

    /** A nodemem of 0 says that nothing is known about the last text; otherwise nodelen is its length,
        nodemem exceeds it and lies within the block, and what is not in a block has no room to spare. */
    ghost predicate Valid()
      reads this, block
    {
      last.TextChild? ==> Holds(Content()) && (nodemem != 0 ==> Counted(Content()))
    }

    ghost predicate Counted(t: Text)
      reads `nodelen, `nodemem, `place, `block
    {
      && nodelen == |t| && nodemem > nodelen
      && if place.Heap? then nodemem <= block.Length else nodemem == nodelen + 1
    }

    ghost function Items(): seq<Item>
      reads this, block
    {
      match last
      case NoChild => siblings
      case OtherChild => siblings + [OtherItem]
      case TextChild => siblings + [TextItem(Content())]
    }

    constructor (cfg: Config)
      ensures Valid() && Items() == [] && this.cfg == cfg && last.NoChild? && fresh(block)
    {
      this.cfg, siblings, last, place, nodelen, nodemem := cfg, [], NoChild, Heap, 0, -1;
      block := new Byte[0];
    }

    /** Another node becomes the last child; an element also resets nodemem. */
    method AddOther(element: bool)
      requires Valid()
      modifies `siblings, `last, `nodemem
      ensures Valid() && Items() == old(Items()) + [OtherItem] && last.OtherChild?
    {
      ghost var items := Items();
      siblings := siblings + match last
        case NoChild => []
        case OtherChild => [OtherItem]
        case TextChild => [TextItem(Read())];
      last := OtherChild;
      if element { nodemem := -1; }
    }

    /** What copying the content of an entity leaves: the last text is no longer accounted for. */
    method ForgetText()
      requires Valid()
      modifies `nodelen, `nodemem
      ensures Valid() && Items() == old(Items()) && nodemem == 0
    {
      nodelen, nodemem := 0, 0;
    }

    /** The content as a string. */
    function Read(): Text
      reads this, block
    {
      if place.Heap? then CString(block[..]) else place.s
    }

    lemma ContentIs(t: Text)
      requires Holds(t)
      ensures Content() == t
    {
      if place.Heap? {
        CStringIs(block[..], t);
      }
    }

    /** Gives the text a block of n bytes of its own, as xmlStrdup and xmlRealloc do. */
    method MoveToBlock(n: nat, ghost t: Text)
      requires Holds(t) && n > |t|
      modifies `place, `block
      ensures Holds(t) && place.Heap? && fresh(block) && block.Length == n
    {
      var newbuf := new Byte[n];
      var s := Read();
      ContentIs(t);
      forall i | 0 <= i < |s| {
        newbuf[i] := s[i];
      }
      newbuf[|s|] := 0;
      place, block := Heap, newbuf;
    }

    /** xmlSAX2TextNode: where the content of a new text goes. */
    method NewText(ch: Text, ahead: seq<Byte>)
      requires |ahead| == 2 && 0 !in ch
      modifies `place, `block
      ensures Holds(ch) && (block == old(block) || fresh(block))
      ensures place.Heap? ==> fresh(block) && block.Length == |ch| + 1
      ensures place.InNode? <==> cfg.dictNames && |ch| < 2 * POINTER_SIZE && cfg.compact
      ensures place.Interned? <==> cfg.dictNames && !place.InNode? && (IsShort(ch, ahead) || IsIndentation(ch, ahead))
    {
      if cfg.dictNames {
        if |ch| < 2 * POINTER_SIZE && cfg.compact {
          place := InNode(ch);
          return;
        } else if IsShort(ch, ahead) {
          place := Interned(ch);
          return;
        } else if IsBlank((ch + ahead)[0]) && |ch| < 60 && TagAhead(ahead) {
          if forall i | 1 <= i < |ch| :: IsBlank(ch[i]) {
            place := Interned(ch);
            return;
          }
        }
      }
      place := InNode(ch);
      MoveToBlock(|ch| + 1, ch);
    }

    /** Whether a chunk is refused. */
    predicate TooLong(len: nat, more: nat) {
      len + more > XML_MAX_TEXT_LENGTH && !cfg.huge
    }

    /** xmlSAX2Characters. */
    method Characters(ch: Text, ahead: seq<Byte>)
      requires Valid() && |ahead| == 2 && 0 !in ch
      modifies this, block
      ensures Valid() && last.TextChild? && (block == old(block) || fresh(block))
      ensures !old(last.TextChild?) ==> siblings == old(Items()) && Content() == ch && nodemem != 0
      ensures old(last.TextChild?) ==> siblings == old(siblings)
      ensures old(last.TextChild? && nodemem != 0) ==>
        nodemem != 0 && Content() == if TooLong(|old(Content())|, |ch|) then old(Content()) else old(Content()) + ch
      ensures old(last.TextChild? && nodemem == 0) ==> Content() == old(Content()) + ch && nodemem != 0
    {
      if last == TextChild {
        if nodemem != 0 {
          Append(ch, Content());
        } else {
          Concat(ch, Content());
        }
      } else {
        if last == OtherChild { siblings := siblings + [OtherItem]; }
        NewText(ch, ahead);
        ContentIs(ch);
        last := TextChild;
        nodelen, nodemem := |ch|, |ch| + 1;
      }
    }

    /** The accelerated branch. */
    method Append(ch: Text, ghost t: Text)
      requires last.TextChild? && Holds(t) && Counted(t) && 0 !in ch
      modifies `place, `block, `nodelen, `nodemem, block
      ensures block == old(block) || fresh(block)
      ensures var u := if TooLong(|t|, |ch|) then t else t + ch;
        Holds(u) && Counted(u) && Content() == u
      ensures nodemem ==
        if TooLong(|t|, |ch|) || |t| + |ch| < old(nodemem) then old(nodemem) else 2 * (old(nodemem) + |ch|)
    {
      if place.InNode? {
        MoveToBlock(nodelen + 1, t);
      } else if nodemem == nodelen + 1 && place.Interned? {
        MoveToBlock(nodelen + 1, t);
      }
      ContentIs(t);
      if nodelen + |ch| > XML_MAX_TEXT_LENGTH && !cfg.huge { return; }
      if nodelen + |ch| >= nodemem {
        var size := (nodemem + |ch|) * 2;
        MoveToBlock(size, t);
        nodemem := size;
      }
      CopyBehind(ch, t);
      nodelen := nodelen + |ch|;
      ContentIs(t + ch);
    }

    /** memcpy behind the text, and the new terminator: only ever into a block of the text's own. */
    method CopyBehind(ch: Text, ghost t: Text)
      requires place.Heap? && Holds(t) && nodelen == |t| && |t| + |ch| < block.Length && 0 !in ch
      modifies block
      ensures Holds(t + ch)
    {
      forall i | 0 <= i < |ch| {
        block[nodelen + i] := ch[i];
      }
      block[nodelen + |ch|] := 0;
      assert block[..|t| + |ch|] == t + ch;
    }

    /** xmlTextConcat, for a text nothing is known about. */
    method Concat(ch: Text, ghost t: Text)
      requires last.TextChild? && Holds(t) && 0 !in ch
      modifies `place, `block, `nodelen, `nodemem, block
      ensures block == old(block) || fresh(block)
      ensures Holds(t + ch) && Counted(t + ch) && Content() == t + ch
    {
      var len := |Read()|;
      ContentIs(t);
      if |ch| == 0 && place.Heap? {
        assert t + ch == t;
      } else {
        MoveToBlock(len + |ch| + 1, t);
        nodelen := len;
        CopyBehind(ch, t);
      }
      ContentIs(t + ch);
      nodelen := len + |ch|;
      nodemem := nodelen + 1;
    }
  }

  // Runs of chunks

  function Length(chunks: seq<Text>): nat {
    if chunks == [] then 0 else Length(chunks[..|chunks| - 1]) + |chunks[|chunks| - 1]|
  }

  /** What the chunks make after a first one: those that would make the text too long are left out. */
  function Coalesced(cfg: Config, first: Text, chunks: seq<Text>): Text {
    if chunks == [] then first else
    var t, ch := Coalesced(cfg, first, chunks[..|chunks| - 1]), chunks[|chunks| - 1];
    if |t| + |ch| > XML_MAX_TEXT_LENGTH && !cfg.huge then t else t + ch
  }

  /** A run of callbacks with no other node in between makes one text. */
  method Run(node: Element, first: Text, chunks: seq<Text>, ahead: seq<Byte>)
    requires node.Valid() && !node.last.TextChild? && |ahead| == 2
    requires 0 !in first && forall k :: 0 <= k < |chunks| ==> 0 !in chunks[k]
    modifies node, node.block
    ensures node.Valid() && node.Items() == old(node.Items()) + [TextItem(Coalesced(node.cfg, first, chunks))]
    ensures node.nodelen == |Coalesced(node.cfg, first, chunks)| < node.nodemem
  {
    node.Characters(first, ahead);
    assert chunks[..0] == [];
    ghost var siblings := node.siblings;
    var i := 0;
    while i < |chunks|
      invariant 0 <= i <= |chunks| && node.Valid() && node.last.TextChild? && node.nodemem != 0
      invariant node.siblings == siblings && node.Content() == Coalesced(node.cfg, first, chunks[..i])
      invariant node.block == old(node.block) || fresh(node.block)
    {
      assert chunks[..i + 1][..i] == chunks[..i];
      node.Characters(chunks[i], ahead);
      i := i + 1;
    }
    assert chunks[..|chunks|] == chunks;
  }

  /** All chunks in order. */
  function Joined(first: Text, chunks: seq<Text>): Text {
    if chunks == [] then first else Joined(first, chunks[..|chunks| - 1]) + chunks[|chunks| - 1]
  }

  /** The text holds the whole input exactly if the options allow huge texts, or what follows the
      first chunk is empty, or the total stays within the limit. */
  lemma {:induction false} CoalescedIsJoinedIff(cfg: Config, first: Text, chunks: seq<Text>)
    ensures Coalesced(cfg, first, chunks) == Joined(first, chunks) <==>
      cfg.huge || Length(chunks) == 0 || |first| + Length(chunks) <= XML_MAX_TEXT_LENGTH
    ensures |Coalesced(cfg, first, chunks)| <= |Joined(first, chunks)| == |first| + Length(chunks)
  {
    if chunks != [] {
      var front, ch := chunks[..|chunks| - 1], chunks[|chunks| - 1];
      CoalescedIsJoinedIff(cfg, first, front);
      var t, u := Coalesced(cfg, first, front), Joined(first, front);
      if |t| < |u| || (|t| + |ch| > XML_MAX_TEXT_LENGTH && !cfg.huge && ch != []) {
        assert |Coalesced(cfg, first, chunks)| < |Joined(first, chunks)|;
      }
      if ch == [] {
        assert t + ch == t && u + ch == u;
      }
    }
  }
}
