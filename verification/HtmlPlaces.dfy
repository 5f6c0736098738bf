/** Where elements start: which html, head and body the parser must imply, and for what. */
module HtmlPlaces {
  import opened HtmlTags
  import opened HtmlState
  import opened HtmlRuns

  /** A start event that the parser made up for the sake of another one. */
  predicate Implies(e: Event) {
    e.Start? && e.implied && IsSkeleton(e.tag)
  }

  /** The content of a page starts in a body or a head, or after a body; an implied paragraph always counts. */
  predicate IsContent(e: Event, height: nat) {
    e.Start? &&
    if e.implied then e.tag == P
    else !IsSkeleton(e.tag) && !BelongsToFrames(e.tag) && !(height <= 1 && BelongsInHead(e.tag))
  }

  ghost predicate BodySeen(before: seq<Event>) {
    exists j :: 0 <= j < |before| && OpensBody(before[j])
  }

  ghost predicate HeadOrBodySeen(before: seq<Event>) {
    exists j :: 0 <= j < |before| && (OpensHead(before[j]) || OpensBody(before[j]))
  }

  ghost predicate HasPlace(before: seq<Event>, e: Event) {
    IsContent(e, |Open(before)|) ==> Body in Open(before) || Head in Open(before) || BodySeen(before)
  }

  /** What belongs in the head starts directly in html only after a head or a body. */
  ghost predicate HasHead(before: seq<Event>, e: Event) {
    e.Start? && !e.implied && BelongsInHead(e.tag) && |Open(before)| <= 1 ==> HeadOrBodySeen(before)
  }

  /** html comes first, a head is implied directly in it, a body outside of head and body, each for the first time. */
  ghost predicate IsDue(before: seq<Event>, e: Event) {
    e.Start? ==>
      && (e.tag == Html <==> Open(before) == [])
      && (e.implied && e.tag == Head ==> Open(before) == [Html] && !HeadOrBodySeen(before))
      && (e.implied && e.tag == Body ==>
            Body !in Open(before) && Head !in Open(before) && !BodySeen(before))
  }

  /** An implied element is followed at once by what it was implied for: a head by what belongs in it, a body by
      content, which frames are not. */
  predicate Prompts(e: Event, next: Event) {
    Implies(e) ==>
      && next.Start? && next.tag != Html
      && (e.tag == Head ==> BelongsInHead(next.tag) && !next.implied)
      && (e.tag == Body ==>
            !IsSkeleton(next.tag) && !BelongsToFrames(next.tag) && (next.implied ==> next.tag == P))
  }

  ghost predicate Placed(before: seq<Event>, e: Event) {
    && HasPlace(before, e) && HasHead(before, e) && IsDue(before, e)
    && (before != [] ==> Prompts(before[|before| - 1], e))
  }

  ghost predicate AllPlaced(log: seq<Event>) {
    forall i :: 0 <= i < |log| ==> PlacedAt(log, i)
  }

  ghost predicate PlacedAt(log: seq<Event>, i: nat)
    requires i < |log|
  {
    Placed(log[..i], log[i])
  }

  /** Nothing is implied without what it is for. */
  predicate Complete(log: seq<Event>) {
    log == [] || !Implies(log[|log| - 1])
  }

  lemma PlacedSnoc(log: seq<Event>, e: Event)
    requires AllPlaced(log) && Placed(log, e)
    ensures AllPlaced(log + [e])
  {
    forall i | 0 <= i < |log + [e]|
      ensures PlacedAt(log + [e], i)
    {
      if i < |log| {
        assert PlacedAt(log, i);
        assert (log + [e])[..i] == log[..i];
      } else {
        assert (log + [e])[..i] == log;
      }
    }
  }

  ghost predicate Good(cfg: Config, s: State) {
    InStep(cfg, s) && Tidy(s) && AllPlaced(s.log)
  }

  ghost predicate Fits(cfg: Config, s: State, tag: Tag, implied: bool) {
    MayPush(s, tag, implied) && Placed(s.log, Start(tag, implied, HasRoom(cfg, s.nodes)))
  }

  lemma PushGood(cfg: Config, s: State, tag: Tag, implied: bool)
    requires Good(cfg, s) && Fits(cfg, s, tag, implied)
    ensures var t := Pushed(cfg, s, tag, implied); Good(cfg, t) && (Complete(t.log) <==> !implied || !IsSkeleton(tag))
  {
    PushInStep(cfg, s, tag, implied);
    PushTidy(cfg, s, tag, implied);
    PlacedSnoc(s.log, Start(tag, implied, HasRoom(cfg, s.nodes)));
  }

  lemma {:induction false} PoppedToGood(cfg: Config, s: State, height: nat)
    requires Good(cfg, s) && Complete(s.log)
    ensures Good(cfg, PoppedTo(s, height)) && Complete(PoppedTo(s, height).log)
    decreases |s.names|
  {
    if |s.names| > height {
      PopGood(cfg, s);
      PoppedToGood(cfg, Popped(s), height);
    }
  }

  lemma PopGood(cfg: Config, s: State)
    requires Good(cfg, s) && Complete(s.log) && s.names != []
    ensures Good(cfg, Popped(s)) && Complete(Popped(s).log) && Good(cfg, DroppedTop(s)) && Complete(DroppedTop(s).log)
  {
    var tag := s.names[|s.names| - 1];
    PopInStep(cfg, s);
    PopTidy(s);
    PlacedSnoc(s.log, End(tag));
    PlacedSnoc(s.log, Dropped(tag));
  }

  /** What the parser implies for a tag makes room for it. */
  lemma ImpliedFits(cfg: Config, s: State, newtag: Tag, implied: bool)
    requires Good(cfg, s) && Complete(s.log) && !cfg.noImplied && (implied ==> newtag == P)
    ensures var t := Implied(cfg, s, newtag);
      && Good(cfg, t)
      && (if Discards(t.names, newtag) > 0 then Complete(t.log) else Fits(cfg, t, newtag, implied))
  {
    if s.names == [] && newtag != Html {
      HtmlDue(cfg, s);
      PushGood(cfg, s, Html, true);
      ImpliedInsideFits(cfg, Pushed(cfg, s, Html, true), newtag, implied);
    } else if newtag != Html {
      ImpliedInsideFits(cfg, s, newtag, implied);
    } else if s.names == [] {
      HtmlFits(cfg, s);
    }
  }

  lemma HtmlDue(cfg: Config, s: State)
    requires Good(cfg, s) && Complete(s.log) && s.names == []
    ensures Fits(cfg, s, Html, true)
  {
  }

  lemma HtmlFits(cfg: Config, s: State)
    requires Good(cfg, s) && Complete(s.log) && s.names == []
    ensures Fits(cfg, s, Html, false)
  {
  }

  lemma ImpliedInsideFits(cfg: Config, t: State, newtag: Tag, implied: bool)
    requires Good(cfg, t) && t.names != [] && newtag != Html && (implied ==> newtag == P)
    requires Complete(t.log) || (t.names == [Html] && t.log != [] && t.log[|t.log| - 1].tag == Html)
    ensures var u := ImpliedInside(cfg, t, newtag);
      && Good(cfg, u)
      && (if Discards(u.names, newtag) > 0 then Complete(u.log) else Fits(cfg, u, newtag, implied))
  {
    var u := ImpliedInside(cfg, t, newtag);
    if u == t {
      NothingImplied(cfg, t, newtag, implied);
    } else if |t.names| <= 1 && BelongsInHead(newtag) {
      HeadFits(cfg, t, newtag, implied);
    } else {
      BodyFits(cfg, t, newtag, implied);
    }
  }

  lemma NothingImplied(cfg: Config, t: State, newtag: Tag, implied: bool)
    requires Good(cfg, t) && t.names != [] && newtag != Html && (implied ==> newtag == P)
    requires Complete(t.log) || (t.names == [Html] && t.log != [] && t.log[|t.log| - 1].tag == Html)
    requires ImpliedInside(cfg, t, newtag) == t
    ensures if Discards(t.names, newtag) > 0 then Complete(t.log) else Fits(cfg, t, newtag, implied)
  {
    var e := Start(newtag, implied, HasRoom(cfg, t.nodes));
    if Discards(t.names, newtag) == 0 {
      AlreadyThere(cfg, t, newtag, e);
      assert MayPush(t, newtag, implied) && IsDue(t.log, e);
    }
  }

  /** If nothing is implied for it, it has its place. */
  lemma AlreadyThere(cfg: Config, t: State, newtag: Tag, e: Event)
    requires Remembers(t) && t.names == Open(t.log) != [] && newtag != Html
    requires ImpliedInside(cfg, t, newtag) == t && e.Start? && e.tag == newtag && (e.implied ==> newtag == P)
    ensures HasPlace(t.log, e) && HasHead(t.log, e)
  {
    SeenIff(t);
  }

  /** The `html` field tells what was seen. */
  lemma SeenIff(s: State)
    requires Remembers(s)
    ensures HeadOrBodySeen(s.log) <==> s.html >= 3
    ensures BodySeen(s.log) <==> s.html >= 10
  {
  }

  lemma HeadFits(cfg: Config, t: State, newtag: Tag, implied: bool)
    requires Good(cfg, t) && |t.names| == 1 && BelongsInHead(newtag) && !implied && t.html < 3
    requires Complete(t.log) || (t.names == [Html] && t.log != [] && t.log[|t.log| - 1].tag == Html)
    ensures var u := Pushed(cfg, t, Head, true); Good(cfg, u) && Fits(cfg, u, newtag, implied)
  {
    var u, e := Pushed(cfg, t, Head, true), Start(Head, true, HasRoom(cfg, t.nodes));
    assert t.names == [Html];
    assert !HeadOrBodySeen(t.log);
    PushGood(cfg, t, Head, true);
    assert u.log[|u.log| - 1] == e && u.names[1] == Head;
    assert HasPlace(u.log, Start(newtag, implied, HasRoom(cfg, u.nodes)));
  }

  lemma BodyFits(cfg: Config, t: State, newtag: Tag, implied: bool)
    requires Good(cfg, t) && t.names != [] && !IsSkeleton(newtag) && (implied ==> newtag == P)
    requires Complete(t.log) || (t.names == [Html] && t.log != [] && t.log[|t.log| - 1].tag == Html)
    requires !(|t.names| <= 1 && BelongsInHead(newtag)) && !BelongsToFrames(newtag)
    requires t.html < 10 && Body !in t.names && Head !in t.names
    ensures var u := Pushed(cfg, t, Body, true); Good(cfg, u) && Fits(cfg, u, newtag, implied)
  {
    var u, e := Pushed(cfg, t, Body, true), Start(Body, true, HasRoom(cfg, t.nodes));
    assert !BodySeen(t.log);
    PushGood(cfg, t, Body, true);
    assert u.log[|u.log| - 1] == e && u.names[|t.names|] == Body;
    assert HasPlace(u.log, Start(newtag, implied, HasRoom(cfg, u.nodes)));
  }

  lemma StartedGood(cfg: Config, s: State, tag: Tag)
    requires Good(cfg, s) && Complete(s.log) && !cfg.noImplied
    ensures Good(cfg, Started(cfg, s, tag)) && Complete(Started(cfg, s, tag).log)
  {
    ImpliedFits(cfg, s, tag, false);
    var t := Implied(cfg, s, tag);
    if Discards(t.names, tag) == 0 {
      PushGood(cfg, t, tag, false);
    }
  }

  lemma ParagraphGood(cfg: Config, s: State)
    requires Good(cfg, s) && Complete(s.log) && !cfg.noImplied
    ensures Good(cfg, Paragraph(cfg, s)) && Complete(Paragraph(cfg, s).log)
  {
    ImpliedFits(cfg, s, P, true);
    PushGood(cfg, Implied(cfg, s, P), P, true);
  }

  lemma FinishedGood(cfg: Config, t: State, ending: Ending)
    requires Good(cfg, t) && Complete(t.log)
    ensures Good(cfg, Finished(cfg, t, ending)) && Complete(Finished(cfg, t, ending).log)
  {
    if t.names != [] {
      PopGood(cfg, t);
      PoppedToGood(cfg, DroppedTop(t), 0);
    }
  }

  lemma ElementGood(cfg: Config, s: State, tag: Tag, ending: Ending)
    requires Good(cfg, s) && Complete(s.log) && !cfg.noImplied
    ensures var t := Element(cfg, AutoClosed(cfg, s, tag), tag, ending); Good(cfg, t) && Complete(t.log)
  {
    PoppedToGood(cfg, s, AutoCloseHeight(cfg, s.names, tag));
    StartedGood(cfg, AutoClosed(cfg, s, tag), tag);
    FinishedGood(cfg, Started(cfg, AutoClosed(cfg, s, tag), tag), ending);
  }

  lemma SteppedGood(cfg: Config, s: State, token: Token)
    requires Good(cfg, s) && Complete(s.log) && !cfg.noImplied
    ensures Good(cfg, Stepped(cfg, s, token)) && Complete(Stepped(cfg, s, token).log)
  {
    match token
    case StartTag(tag, ending) =>
      ElementGood(cfg, s, tag, ending);
    case EndTag(tag) =>
      if Target(cfg, s.names, tag) >= 0 {
        PoppedToGood(cfg, s, Target(cfg, s.names, tag));
      }
    case Text =>
      PoppedToGood(cfg, s, AutoCloseHeight(cfg, s.names, P));
      ParagraphGood(cfg, AutoClosed(cfg, s, P));
    case Control =>
      PoppedToGood(cfg, s, 0);
    case Stall =>
  }

  /** With implied tags on, in every run each element starts where it may: content has a body or a head around it
      or a body before it, what belongs in the head has one, and what is implied is due and followed at once by
      what it was implied for. */
  lemma RunPlaced(cfg: Config, tokens: seq<Token>)
    requires !cfg.noImplied
    ensures AllPlaced(Run(cfg, tokens).log) && Complete(Run(cfg, tokens).log)
  {
    RunGood(cfg, tokens);
  }

  lemma {:induction false} RunGood(cfg: Config, tokens: seq<Token>)
    requires !cfg.noImplied
    ensures Good(cfg, Run(cfg, tokens)) && Complete(Run(cfg, tokens).log)
  {
    if tokens != [] {
      RunGood(cfg, tokens[..|tokens| - 1]);
      var s := Run(cfg, tokens[..|tokens| - 1]);
      if !s.halted {
        SteppedGood(cfg, s, tokens[|tokens| - 1]);
      }
    }
  }

  /** html opens below everything, head directly in html, body outside of a body; all else opens anywhere. */
  predicate MayOpen(cfg: Config, names: seq<Tag>, tag: Tag) {
    && (tag == Html ==> names == [])
    && (tag == Head ==> |names| == 1 || (names == [] && !cfg.noImplied))
    && (tag == Body ==> Body !in names)
  }

  lemma ImpliedKeeps(cfg: Config, s: State, tag: Tag)
    ensures var t := Implied(cfg, s, tag);
      && s.names <= t.names && s.log <= t.log && t.depth == s.depth
      && (IsSkeleton(tag) ==>
            t == if s.names == [] && !cfg.noImplied && tag != Html then Pushed(cfg, s, Html, true) else s)
  {
    var u := if s.names == [] then Pushed(cfg, s, Html, true) else s;
    assert s.names <= u.names && s.log <= u.log;
  }

  /** A start tag opens its element exactly where it may, upon what is open; elsewhere it is only counted. */
  lemma StartTagOpensIff(cfg: Config, s: State, tag: Tag)
    ensures var t := Started(cfg, s, tag);
      if MayOpen(cfg, s.names, tag) then
        && t.depth == s.depth && t.names != [] && s.names <= Butlast(t.names) && t.names[|t.names| - 1] == tag
        && |t.log| > |s.log| && s.log <= t.log
        && var e := t.log[|t.log| - 1]; e.Start? && e.tag == tag && !e.implied
      else
        t == s.(depth := t.depth) && t.depth > s.depth
  {
    var u := Implied(cfg, s, tag);
    ImpliedKeeps(cfg, s, tag);
    assert MayOpen(cfg, s.names, tag) <==> Discards(u.names, tag) == 0;
    assert Butlast(u.names + [tag]) == u.names;
  }

  /** Text stands in an element other than html and head: in the current one if it is such, else in a paragraph. */
  lemma TextStands(cfg: Config, s: State)
    ensures var t := Stepped(cfg, s, Text);
      && t.names != [] && t.names[|t.names| - 1] != Html && t.names[|t.names| - 1] != Head
      && (if s.names != [] && s.names[|s.names| - 1] != Html && s.names[|s.names| - 1] != Head then t == s
          else t.names[|t.names| - 1] == P)
  {
  }
}
