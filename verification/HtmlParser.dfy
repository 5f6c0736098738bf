/** The parser context of HTMLparser.c with its two stacks, updated in place. */
module HtmlParser {
  import opened XmlStrings
  import opened HtmlTags
  import opened HtmlState

  /** Closing what a tag closes leaves nothing more for it to close. */
  lemma AutoClosedTwice(cfg: Config, s: State, newtag: Tag)
    ensures AutoClosed(cfg, AutoClosed(cfg, s, newtag), newtag) == AutoClosed(cfg, s, newtag)
  {
    var h := AutoCloseHeight(cfg, s.names, newtag);
    HeightIsLeast(s.names, tag => Closes(cfg.tables, newtag, tag));
    HeightFixed(s.names[..h], tag => Closes(cfg.tables, newtag, tag));
  }

  lemma HeightFixed(names: seq<Tag>, closed: Tag -> bool)
    requires names != [] ==> !closed(names[|names| - 1])
    ensures HeightWithout(names, closed) == |names|
  {
  }

  lemma PoppedToStep(s: State, height: nat)
    ensures |s.names| > height ==> PoppedTo(s, height) == PoppedTo(Popped(s), height)
    ensures |s.names| <= height ==> PoppedTo(s, height) == s
  {
  }

  /** The element itself goes after those above it. */
  lemma {:induction false} PoppedToOneMore(s: State, height: nat)
    requires height < |s.names|
    ensures PoppedTo(s, height + 1).names != [] && PoppedTo(s, height) == Popped(PoppedTo(s, height + 1))
    decreases |s.names|
  {
    if |s.names| > height + 1 {
      PoppedToOneMore(Popped(s), height);
    }
  }

  lemma TargetStep(cfg: Config, names: seq<Tag>, tag: Tag, r: nat)
    requires r < |names|
    ensures Target(cfg, names[..r + 1], tag) ==
      if names[r] == tag then r
      else if Priority(cfg.tables.endPriority, names[r]) > Priority(cfg.tables.endPriority, tag) then -1
      else Target(cfg, names[..r], tag)
  {
    assert names[..r + 1][..r] == names[..r];
  }

  lemma {:induction false} RunIsOver(cfg: Config, tokens: seq<Token>, i: nat)
    requires i <= |tokens| && (Run(cfg, tokens[..i]).halted || Stall in tokens[..i])
    ensures Run(cfg, tokens) == Run(cfg, tokens[..i])
    decreases |tokens|
  {
    if i == |tokens| {
      assert tokens[..i] == tokens;
    } else {
      var front := tokens[..|tokens| - 1];
      assert front[..i] == tokens[..i];
      RunIsOver(cfg, front, i);
    }
  }

  lemma RunStep(cfg: Config, tokens: seq<Token>, i: nat)
    requires i < |tokens| && !Run(cfg, tokens[..i]).halted && Stall !in tokens[..i]
    ensures Run(cfg, tokens[..i + 1]) == Stepped(cfg, Run(cfg, tokens[..i]), tokens[i])
    ensures Stall in tokens[..i + 1] <==> tokens[i] == Stall
  {
    assert tokens[..i + 1] == tokens[..i] + [tokens[i]] && tokens[..i + 1][..i] == tokens[..i];
  }

  lemma TargetIsThere(cfg: Config, names: seq<Tag>, tag: Tag)
    ensures Target(cfg, names, tag) >= 0 ==> names[Target(cfg, names, tag)] == tag
    ensures Target(cfg, names, tag) < 0 ==> names == [] || names[|names| - 1] != tag
  {
    TargetIs(cfg, names, tag);
  }

  class Context {
    const cfg: Config
    var nameTab: seq<Tag>
    var name: Option<Tag>
    var nodeTab: seq<Tag>
    var html: nat
    var depth: nat
    var halted: bool  // instate is XML_PARSER_EOF
    ghost var log: seq<Event>

    ghost function Now(): State
      reads this
    {
      State(nameTab, nodeTab, html, depth, halted, log)
    }

    ghost predicate Valid()
      reads `nameTab, `name
    {
      name == if nameTab == [] then None else Some(nameTab[|nameTab| - 1])
    }

    constructor (cfg: Config)
      ensures Valid() && Now() == INITIAL && this.cfg == cfg
    {
      this.cfg := cfg;
      nameTab, name, nodeTab, html, depth, halted, log := [], None, [], 1, 0, false, [];
    }

    /** htmlnamePush. */
    method NamePush(value: Tag)
      modifies `html, `nameTab, `name
      ensures Valid() && nameTab == old(nameTab) + [value] && html == Opened(old(html), value)
    {
      if html < 3 && value == Head { html := 3; }
      if html < 10 && value == Body { html := 10; }
      nameTab := nameTab + [value];
      name := Some(value);
    }

    /** htmlnamePop. */
    method NamePop()
      modifies `nameTab, `name
      ensures Valid() && nameTab == Butlast(old(nameTab))
    {
      if nameTab == [] {
        name := None;
        return;
      }
      nameTab := nameTab[..|nameTab| - 1];
      name := if nameTab != [] then Some(nameTab[|nameTab| - 1]) else None;
    }

    /** nodePush, for the node of an element. */
    method NodePush(tag: Tag) returns (ok: bool)
      modifies `nodeTab, `halted
      ensures ok == HasRoom(cfg, old(nodeTab))
      ensures nodeTab == if ok then old(nodeTab) + [tag] else old(nodeTab)
      ensures halted == (old(halted) || !ok)
    {
      if |nodeTab| > MAX_DEPTH && !cfg.huge {
        halted := true;
        return false;
      }
      nodeTab := nodeTab + [tag];
      ok := true;
    }

    /** nodePop. */
    method NodePop()
      modifies `nodeTab
      ensures nodeTab == Butlast(old(nodeTab))
    {
      if nodeTab != [] {
        nodeTab := nodeTab[..|nodeTab| - 1];
      }
    }

    /** The push of an element with its start event. */
    method Push(tag: Tag, ghost implied: bool)
      modifies this
      ensures Valid() && Now() == Pushed(cfg, old(Now()), tag, implied)
    {
      NamePush(tag);
      var linked := NodePush(tag);
      log := log + [Start(tag, implied, linked)];
    }

    /** endElement for the current element, and its pop. */
    method Pop()
      requires Valid() && nameTab != []
      modifies this
      ensures Valid() && Now() == Popped(old(Now()))
    {
      log := log + [End(name.value)];
      NodePop();
      NamePop();
    }

    /** htmlAutoCloseOnEnd. */
    method AutoCloseOnEnd()
      requires Valid()
      modifies this
      ensures Valid() && Now() == PoppedTo(old(Now()), 0)
    {
      if |nameTab| == 0 { return; }
      var i := |nameTab| - 1;
      while i >= 0
        invariant Valid() && -1 <= i && |nameTab| == i + 1
        invariant PoppedTo(Now(), 0) == PoppedTo(old(Now()), 0)
      {
        PoppedToStep(Now(), 0);
        Pop();
        i := i - 1;
      }
    }

    /** htmlAutoClose for a start tag. */
    method AutoClose(newtag: Tag)
      requires Valid()
      modifies this
      ensures Valid() && Now() == AutoClosed(cfg, old(Now()), newtag)
    {
      ghost var names, h := nameTab, AutoCloseHeight(cfg, nameTab, newtag);
      var closes := ClosesMore(newtag, names, h);
      while closes
        invariant Valid() && h <= |nameTab| <= |names| && nameTab == names[..|nameTab|]
        invariant closes == (|nameTab| > h) && PoppedTo(Now(), h) == PoppedTo(old(Now()), h)
        decreases |nameTab|
      {
        PoppedToStep(Now(), h);
        Pop();
        closes := ClosesMore(newtag, names, h);
      }
      PoppedToStep(Now(), h);
    }

    method ClosesMore(newtag: Tag, ghost names: seq<Tag>, ghost h: nat) returns (closes: bool)
      requires Valid() && h == AutoCloseHeight(cfg, names, newtag)
      requires h <= |nameTab| <= |names| && nameTab == names[..|nameTab|]
      ensures closes == (|nameTab| > h)
    {
      HeightIsLeast(names, tag => Closes(cfg.tables, newtag, tag));
      closes := CurrentCloses(newtag);
    }

    /** htmlCheckAutoClose against the current element, if there is one. */
    method CurrentCloses(newtag: Tag) returns (closes: bool)
      requires Valid()
      ensures closes == (nameTab != [] && Closes(cfg.tables, newtag, nameTab[|nameTab| - 1]))
    {
      closes := false;
      if name.Some? { closes := CheckAutoClose(cfg.tables, newtag, name.value); }
    }

    /** htmlCheckImplied. */
    method CheckImplied(newtag: Tag)
      requires Valid()
      modifies this
      ensures Valid() && Now() == Implied(cfg, old(Now()), newtag)
    {
      if cfg.noImplied { return; }
      if newtag == Html { return; }
      if |nameTab| <= 0 {
        Push(Html, true);
      }
      CheckInside(newtag);
    }

    method CheckInside(newtag: Tag)
      requires Valid()
      modifies this
      ensures Valid() && Now() == ImpliedInside(cfg, old(Now()), newtag)
    {
      if newtag == Body || newtag == Head { return; }
      if |nameTab| <= 1 && BelongsInHead(newtag) {
        if html >= 3 { return; }
        Push(Head, true);
      } else if !BelongsToFrames(newtag) {
        ImplyBody();
      }
    }

    method ImplyBody()
      requires Valid()
      modifies this
      ensures Valid()
      ensures Now() == if old(html) >= 10 || Body in old(nameTab) || Head in old(nameTab) then old(Now())
                       else Pushed(cfg, old(Now()), Body, true)
    {
      if html >= 10 { return; }
      var open := BodyOrHeadOpen();
      if open { return; }
      Push(Body, true);
    }

    method BodyOrHeadOpen() returns (r: bool)
      ensures r == (Body in nameTab || Head in nameTab)
    {
      var i := 0;
      while i < |nameTab|
        invariant 0 <= i <= |nameTab| && Body !in nameTab[..i] && Head !in nameTab[..i]
      {
        if nameTab[i] == Body { return true; }
        if nameTab[i] == Head { return true; }
        i := i + 1;
      }
      r := false;
    }

    /** htmlCheckParagraph. */
    method CheckParagraph() returns (r: bool)
      requires Valid()
      modifies this
      ensures Valid() && r == NeedsParagraph(old(nameTab))
      ensures Now() == if r then Paragraph(cfg, AutoClosed(cfg, old(Now()), P)) else old(Now())
    {
      r := name.None? || name.value == Html || name.value == Head;
      if r {
        AutoClose(P);
        CheckImplied(P);
        Push(P, true);
      }
    }

    /** The stack part of htmlParseStartTag, once the elements it closes are closed. */
    method StartTag(tag: Tag) returns (discardtag: bool)
      requires Valid()
      modifies this
      ensures Valid() && Now() == Started(cfg, old(Now()), tag)
    {
      CheckImplied(tag);
      discardtag := false;
      if |nameTab| > 0 && tag == Html {
        discardtag := true;
        depth := depth + 1;
      }
      if |nameTab| != 1 && tag == Head {
        discardtag := true;
        depth := depth + 1;
      }
      if tag == Body {
        var bodies := CountBodies();
        discardtag := bodies > 0;
        depth := depth + bodies;
      }
      if !discardtag {
        Push(tag, false);
      }
    }

    /** The loop that counts the open bodies. */
    method CountBodies() returns (n: nat)
      ensures n == Count(nameTab, Body)
    {
      n := 0;
      var indx := 0;
      while indx < |nameTab|
        invariant 0 <= indx <= |nameTab| && n == Count(nameTab[..indx], Body)
      {
        assert nameTab[..indx + 1][..indx] == nameTab[..indx];
        if nameTab[indx] == Body { n := n + 1; }
        indx := indx + 1;
      }
      assert nameTab[..|nameTab|] == nameTab;
    }

    /** htmlParseElementInternal, for a tag of that name and ending. */
    method ParseElement(tag: Tag, ending: Ending)
      requires Valid()
      modifies this
      ensures Valid() && Now() == Element(cfg, AutoClosed(cfg, old(Now()), tag), tag, ending)
    {
      AutoClose(tag);
      var _ := StartTag(tag);
      FinishTag(ending);
    }

    /** What follows the tag in the input, taken for the current element. */
    method FinishTag(ending: Ending)
      requires Valid()
      modifies this
      ensures Valid() && Now() == Finished(cfg, old(Now()), ending)
    {
      if name.None? { return; }
      match ending
      case SelfClosed =>
        Pop();
      case Closed =>
        if name.value in cfg.tables.empties { Pop(); }
      case Unfinished(atEnd) =>
        log := log + [Dropped(name.value)];
        NodePop();
        NamePop();
        if atEnd { AutoCloseOnEnd(); }
    }

    /** The search of htmlAutoCloseOnClose, which gives up at an element of higher priority. */
    method FindTarget(tag: Tag) returns (r: int)
      ensures r == Target(cfg, nameTab, tag)
    {
      var priority := GetEndPriority(cfg.tables, tag);
      r := |nameTab| - 1;
      ghost var target := Target(cfg, nameTab, tag);
      assert nameTab[..r + 1] == nameTab;
      while r >= 0
        invariant -1 <= r < |nameTab| && Target(cfg, nameTab[..r + 1], tag) == target
        decreases r
      {
        TargetStep(cfg, nameTab, tag, r);
        if nameTab[r] == tag { return; }
        var above := GetEndPriority(cfg.tables, nameTab[r]);
        if above > priority { return -1; }
        r := r - 1;
      }
    }

    /** htmlAutoCloseOnClose: closes what stands above the element the end tag is for. */
    method AutoCloseOnClose(tag: Tag)
      requires Valid()
      modifies this
      ensures Valid()
      ensures Now() ==
        var r := Target(cfg, old(nameTab), tag); if r >= 0 then PoppedTo(old(Now()), r + 1) else old(Now())
    {
      var i := FindTarget(tag);
      TargetIs(cfg, nameTab, tag);
      if i < 0 { return; }
      while name != Some(tag)
        invariant Valid() && i < |nameTab| && nameTab[i] == tag && PoppedTo(Now(), i + 1) == PoppedTo(old(Now()), i + 1)
        invariant forall k :: i < k < |nameTab| ==> nameTab[k] != tag
        decreases |nameTab|
      {
        PoppedToStep(Now(), i + 1);
        Pop();
      }
      PoppedToStep(Now(), i + 1);
    }

    /** htmlParseEndTag. */
    method ParseEndTag(tag: Tag) returns (closed: bool)
      requires Valid()
      modifies this
      ensures Valid() && Now() == Ended(cfg, old(Now()), tag)
    {
      if depth > 0 && IsSkeleton(tag) {
        depth := depth - 1;
        return false;
      }
      TargetIsThere(cfg, nameTab, tag);
      if tag !in nameTab { return false; }
      closed := CloseElement(tag);
    }

    /** The end tag is for an element that is open. */
    method CloseElement(tag: Tag) returns (closed: bool)
      requires Valid()
      modifies this
      ensures Valid() && closed == (Target(cfg, old(nameTab), tag) >= 0)
      ensures Now() == if closed then PoppedTo(old(Now()), Target(cfg, old(nameTab), tag)) else old(Now())
    {
      TargetIsThere(cfg, nameTab, tag);
      if Target(cfg, nameTab, tag) >= 0 {
        PoppedToOneMore(Now(), Target(cfg, nameTab, tag));
      }
      AutoCloseOnClose(tag);
      if name == Some(tag) {
        Pop();
        closed := true;
      } else {
        closed := false;
      }
    }

    /** htmlParseContentInternal on what the input holds; it stops when the parser has halted, and after a turn
        that consumes nothing. */
    method ParseContent(tokens: seq<Token>) returns (atEnd: bool)
      requires Valid() && Now() == INITIAL
      modifies this
      ensures Valid() && Now() == Run(cfg, tokens)
      ensures atEnd ==> Stall !in tokens
      ensures !atEnd ==> halted || Stall in tokens
    {
      var i := 0;
      while i < |tokens|
        invariant 0 <= i <= |tokens| && Valid() && Now() == Run(cfg, tokens[..i]) && Stall !in tokens[..i]
      {
        if halted {
          RunIsOver(cfg, tokens, i);
          return false;
        }
        RunStep(cfg, tokens, i);
        if tokens[i] == Stall {
          RunIsOver(cfg, tokens, i + 1);
          return false;
        }
        Content(tokens[i]);
        i := i + 1;
      }
      assert tokens[..|tokens|] == tokens;
      atEnd := true;
    }

    /** One turn of that loop. */
    method Content(token: Token)
      requires Valid()
      modifies this
      ensures Valid() && Now() == Stepped(cfg, old(Now()), token)
    {
      match token
      case EndTag(tag) =>
        var _ := ParseEndTag(tag);
      case StartTag(tag, ending) =>
        var closes := CurrentCloses(tag);
        if closes {
          AutoClosedTwice(cfg, Now(), tag);
          AutoClose(tag);
        }
        ParseElement(tag, ending);
      case Text =>
        var _ := CheckParagraph();
      case Control =>
        AutoCloseOnEnd();
      case Stall =>
    }

    /** htmlParseDocument: what is open at the end of the input is closed. */
    method ParseDocument(tokens: seq<Token>) returns (atEnd: bool)
      requires Valid() && Now() == INITIAL
      modifies this
      ensures Valid() && (!atEnd ==> (halted || Stall in tokens) && Now() == Run(cfg, tokens))
      ensures atEnd ==> Now() == PoppedTo(Run(cfg, tokens), 0) && nameTab == []
    {
      atEnd := ParseContent(tokens);
      if atEnd { AutoCloseOnEnd(); }
    }
  }
}
