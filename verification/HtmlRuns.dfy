/** What holds of the open-element stack after every run of the HTML parser. */
module HtmlRuns {
  import opened HtmlTags
  import opened HtmlState

  // The log explains both stacks

  /** The elements left open by the events. */
  function Open(log: seq<Event>): seq<Tag> {
    if log == [] then [] else
    var before := Open(log[..|log| - 1]);
    match log[|log| - 1]
    case Start(tag, _, _) => before + [tag]
    case _ => Butlast(before)
  }

  /** Their nodes, without those that did not find room. */
  function OpenNodes(log: seq<Event>): seq<Tag> {
    if log == [] then [] else
    var before := OpenNodes(log[..|log| - 1]);
    match log[|log| - 1]
    case Start(tag, _, linked) => if linked then before + [tag] else before
    case _ => Butlast(before)
  }

  /** Every end names the innermost open element; a node is missing just where there was no room for it. */
  predicate WellNested(cfg: Config, log: seq<Event>) {
    log == [] ||
    var before, last := log[..|log| - 1], log[|log| - 1];
    && WellNested(cfg, before)
    && match last
       case Start(_, _, linked) => linked == HasRoom(cfg, OpenNodes(before))
       case End(tag) => Open(before) != [] && Open(before)[|Open(before)| - 1] == tag
       case Dropped(tag) => Open(before) != [] && Open(before)[|Open(before)| - 1] == tag
  }

  predicate Unlinked(e: Event) {
    e.Start? && !e.linked
  }

  ghost predicate InStep(cfg: Config, s: State) {
    && WellNested(cfg, s.log) && s.names == Open(s.log) && s.nodes == OpenNodes(s.log)
    && (s.halted <==> exists i :: 0 <= i < |s.log| && Unlinked(s.log[i]))
    && (!s.halted ==> s.nodes == s.names) && |s.nodes| <= |s.names|
  }

  lemma Appended(log: seq<Event>, e: Event)
    ensures (log + [e])[..|log + [e]| - 1] == log
  {
  }

  lemma PushInStep(cfg: Config, s: State, tag: Tag, implied: bool)
    requires InStep(cfg, s)
    ensures InStep(cfg, Pushed(cfg, s, tag, implied))
  {
    var t := Pushed(cfg, s, tag, implied);
    Appended(s.log, t.log[|s.log|]);
    Haltings(s.log, t.log[|s.log|]);
  }

  lemma Haltings(log: seq<Event>, e: Event)
    ensures (exists i :: 0 <= i < |log + [e]| && Unlinked((log + [e])[i])) <==>
      Unlinked(e) || exists i :: 0 <= i < |log| && Unlinked(log[i])
  {
    assert (log + [e])[|log|] == e;
    assert forall i :: 0 <= i < |log| ==> (log + [e])[i] == log[i];
  }

  lemma PopInStep(cfg: Config, s: State)
    requires InStep(cfg, s) && s.names != []
    ensures InStep(cfg, Popped(s)) && InStep(cfg, DroppedTop(s))
  {
    var tag := s.names[|s.names| - 1];
    Appended(s.log, End(tag));
    Appended(s.log, Dropped(tag));
    Haltings(s.log, End(tag));
    Haltings(s.log, Dropped(tag));
  }

  lemma {:induction false} PoppedToInStep(cfg: Config, s: State, height: nat)
    requires InStep(cfg, s)
    ensures InStep(cfg, PoppedTo(s, height))
    decreases |s.names|
  {
    if |s.names| > height {
      PopInStep(cfg, s);
      PoppedToInStep(cfg, Popped(s), height);
    }
  }

  lemma ImpliedInStep(cfg: Config, s: State, newtag: Tag)
    requires InStep(cfg, s)
    ensures InStep(cfg, Implied(cfg, s, newtag))
  {
    var t := if s.names == [] then Pushed(cfg, s, Html, true) else s;
    if s.names == [] {
      PushInStep(cfg, s, Html, true);
    }
    PushInStep(cfg, t, Head, true);
    PushInStep(cfg, t, Body, true);
  }

  lemma StartedInStep(cfg: Config, s: State, tag: Tag)
    requires InStep(cfg, s)
    ensures InStep(cfg, Started(cfg, s, tag))
  {
    ImpliedInStep(cfg, s, tag);
    PushInStep(cfg, Implied(cfg, s, tag), tag, false);
  }

  lemma ElementInStep(cfg: Config, s: State, tag: Tag, ending: Ending)
    requires InStep(cfg, s)
    ensures InStep(cfg, Element(cfg, s, tag, ending))
  {
    StartedInStep(cfg, s, tag);
    FinishedInStep(cfg, Started(cfg, s, tag), ending);
  }

  lemma FinishedInStep(cfg: Config, t: State, ending: Ending)
    requires InStep(cfg, t)
    ensures InStep(cfg, Finished(cfg, t, ending))
  {
    if t.names != [] {
      PopInStep(cfg, t);
      PoppedToInStep(cfg, DroppedTop(t), 0);
    }
  }

  lemma ParagraphInStep(cfg: Config, s: State)
    requires InStep(cfg, s)
    ensures InStep(cfg, Paragraph(cfg, s))
  {
    ImpliedInStep(cfg, s, P);
    PushInStep(cfg, Implied(cfg, s, P), P, true);
  }

  lemma SteppedInStep(cfg: Config, s: State, token: Token)
    requires InStep(cfg, s)
    ensures InStep(cfg, Stepped(cfg, s, token))
  {
    match token
    case StartTag(tag, ending) =>
      PoppedToInStep(cfg, s, AutoCloseHeight(cfg, s.names, tag));
      ElementInStep(cfg, AutoClosed(cfg, s, tag), tag, ending);
    case EndTag(tag) =>
      if Target(cfg, s.names, tag) >= 0 {
        PoppedToInStep(cfg, s, Target(cfg, s.names, tag));
      }
    case Text =>
      PoppedToInStep(cfg, s, AutoCloseHeight(cfg, s.names, P));
      ParagraphInStep(cfg, AutoClosed(cfg, s, P));
    case Control =>
      PoppedToInStep(cfg, s, 0);
    case Stall =>
  }

  /** After every run the two stacks hold the same elements, those its events left open, unless a node
      did not find room; with the HUGE option that never happens. */
  lemma {:induction false} RunInStep(cfg: Config, tokens: seq<Token>)
    ensures InStep(cfg, Run(cfg, tokens))
    ensures cfg.huge ==> !Run(cfg, tokens).halted
  {
    if tokens != [] {
      RunInStep(cfg, tokens[..|tokens| - 1]);
      var s := Run(cfg, tokens[..|tokens| - 1]);
      if !s.halted {
        SteppedInStep(cfg, s, tokens[|tokens| - 1]);
      }
    }
    if cfg.huge {
      NothingUnlinked(cfg, Run(cfg, tokens).log);
    }
  }

  lemma {:induction false} NothingUnlinked(cfg: Config, log: seq<Event>)
    requires WellNested(cfg, log) && cfg.huge
    ensures forall i :: 0 <= i < |log| ==> !Unlinked(log[i])
  {
    if log != [] {
      NothingUnlinked(cfg, log[..|log| - 1]);
    }
  }

  /** While a step only opens elements, a node that found no room leaves the node stack behind for good. */
  ghost predicate Lags(s: State) {
    if s.halted then |s.nodes| < |s.names| else |s.nodes| == |s.names|
  }

  lemma PushLags(cfg: Config, s: State, tag: Tag, implied: bool)
    requires Lags(s)
    ensures Lags(Pushed(cfg, s, tag, implied))
  {
  }

  lemma ImpliedLags(cfg: Config, s: State, tag: Tag)
    requires Lags(s)
    ensures Lags(Implied(cfg, s, tag))
  {
    PushLags(cfg, s, Html, true);
    var t := if s.names == [] then Pushed(cfg, s, Html, true) else s;
    PushLags(cfg, t, Head, true);
    PushLags(cfg, t, Body, true);
  }

  lemma StartedLags(cfg: Config, s: State, tag: Tag)
    requires Lags(s)
    ensures Lags(Started(cfg, s, tag)) && Lags(Paragraph(cfg, s))
  {
    ImpliedLags(cfg, s, tag);
    PushLags(cfg, Implied(cfg, s, tag), tag, false);
    ImpliedLags(cfg, s, P);
    PushLags(cfg, Implied(cfg, s, P), P, true);
  }

  lemma {:induction false} PoppedToLags(s: State, height: nat)
    requires Lags(s) || s.names == []
    ensures PoppedTo(s, height).names == [] || Lags(PoppedTo(s, height))
    ensures PoppedTo(s, height).halted == s.halted
    decreases |s.names|
  {
    if |s.names| > height {
      PoppedToLags(Popped(s), height);
    }
  }

  lemma FinishedLags(cfg: Config, t: State, ending: Ending)
    requires Lags(t)
    ensures Finished(cfg, t, ending).names == [] || Lags(Finished(cfg, t, ending))
  {
    if t.names != [] {
      PoppedToLags(DroppedTop(t), 0);
    }
  }

  /** No start event of the log came when more than the allowed nodes were open, or the limit is off. */
  ghost predicate NoneTooDeep(cfg: Config, log: seq<Event>) {
    forall i :: 0 <= i < |log| && log[i].Start? ==> HasRoom(cfg, OpenNodes(log[..i]))
  }

  lemma {:induction false} LinkedIff(cfg: Config, log: seq<Event>, i: nat)
    requires WellNested(cfg, log) && i < |log| && log[i].Start?
    ensures log[i].linked <==> HasRoom(cfg, OpenNodes(log[..i]))
    decreases |log|
  {
    if i < |log| - 1 {
      LinkedIff(cfg, log[..|log| - 1], i);
      assert log[..|log| - 1][..i] == log[..i];
    }
  }

  lemma NoneTooDeepIff(cfg: Config, log: seq<Event>)
    requires WellNested(cfg, log)
    ensures NoneTooDeep(cfg, log) <==> forall i :: 0 <= i < |log| ==> !Unlinked(log[i])
  {
    forall i | 0 <= i < |log| && log[i].Start?
      ensures log[i].linked <==> HasRoom(cfg, OpenNodes(log[..i]))
    {
      LinkedIff(cfg, log, i);
    }
    if NoneTooDeep(cfg, log) {
      assert forall i :: 0 <= i < |log| && log[i].Start? ==> log[i].linked;
    }
    if forall i :: 0 <= i < |log| ==> !Unlinked(log[i]) {
      assert forall i :: 0 <= i < |log| && log[i].Start? ==> log[i].linked;
    }
  }

  /** The stacks agree after a run exactly if no element of it was opened too deep, or everything is closed. */
  lemma StacksAgreeIff(cfg: Config, tokens: seq<Token>)
    ensures var s := Run(cfg, tokens); s.nodes == s.names <==> NoneTooDeep(cfg, s.log) || s.names == []
  {
    var s := Run(cfg, tokens);
    RunInStep(cfg, tokens);
    RunLags(cfg, tokens);
    NoneTooDeepIff(cfg, s.log);
  }

  lemma {:induction false} RunLags(cfg: Config, tokens: seq<Token>)
    ensures var s := Run(cfg, tokens); Lags(s) || s.names == []
  {
    if tokens != [] {
      var front, token := tokens[..|tokens| - 1], tokens[|tokens| - 1];
      RunLags(cfg, front);
      RunInStep(cfg, front);
      if !Run(cfg, front).halted {
        SteppedLags(cfg, Run(cfg, front), token);
      }
    }
  }

  lemma SteppedLags(cfg: Config, s: State, token: Token)
    requires !s.halted && |s.nodes| == |s.names|
    ensures Lags(Stepped(cfg, s, token)) || Stepped(cfg, s, token).names == []
  {
    match token
    case StartTag(tag, ending) =>
      ClosedLags(s, AutoCloseHeight(cfg, s.names, tag));
      StartedLags(cfg, AutoClosed(cfg, s, tag), tag);
      FinishedLags(cfg, Started(cfg, AutoClosed(cfg, s, tag), tag), ending);
    case EndTag(tag) =>
      if Target(cfg, s.names, tag) >= 0 {
        ClosedLags(s, Target(cfg, s.names, tag));
      }
    case Text =>
      ClosedLags(s, AutoCloseHeight(cfg, s.names, P));
      StartedLags(cfg, AutoClosed(cfg, s, P), P);
    case Control =>
      ClosedLags(s, 0);
    case Stall =>
  }

  lemma {:induction false} ClosedLags(s: State, height: nat)
    requires !s.halted && |s.nodes| == |s.names|
    ensures Lags(PoppedTo(s, height)) && !PoppedTo(s, height).halted
    decreases |s.names|
  {
    if |s.names| > height {
      ClosedLags(Popped(s), height);
    }
  }

  // A run that shows it

  function Repeated(token: Token, n: nat): seq<Token> {
    if n == 0 then [] else Repeated(token, n - 1) + [token]
  }

  function Copies(tag: Tag, n: nat): (r: seq<Tag>)
    ensures |r| == n && forall i :: 0 <= i < n ==> r[i] == tag
  {
    seq(n, _ => tag)
  }

  /** n start tags of the same element, with a limit that has let in the first 257. */
  ghost predicate Piled(cfg: Config, tag: Tag, n: nat) {
    forall m: nat :: m == n ==> PiledTo(Run(cfg, Repeated(StartTag(tag, Closed), m)), tag, m)
  }

  predicate PiledTo(s: State, tag: Tag, n: nat) {
    if n <= MAX_DEPTH + 1 then !s.halted && s.names == s.nodes == Copies(tag, n)
    else s.halted && s.names == Copies(tag, MAX_DEPTH + 2) && s.nodes == Copies(tag, MAX_DEPTH + 1)
  }

  predicate Stays(cfg: Config, tag: Tag) {
    && cfg.noImplied && !cfg.huge && !IsSkeleton(tag) && tag !in cfg.tables.empties
    && !Closes(cfg.tables, tag, tag)
  }

  /** Start tags that close nothing and are not discarded open one element each until there are 257 nodes; the
      next one has no node, and the parser halts with the stacks apart. */
  lemma {:induction false} RunOfStartTags(cfg: Config, tag: Tag, n: nat)
    requires Stays(cfg, tag)
    ensures Piled(cfg, tag, n)
  {
    if n == 0 {
      assert PiledTo(INITIAL, tag, 0);
    } else {
      RunOfStartTags(cfg, tag, n - 1);
      PiledHigher(cfg, tag, n - 1);
    }
  }

  lemma PiledHigher(cfg: Config, tag: Tag, n: nat)
    requires Stays(cfg, tag) && Piled(cfg, tag, n)
    ensures Piled(cfg, tag, n + 1)
  {
    var s := RepeatedRun(cfg, StartTag(tag, Closed), n);
    assert PiledTo(s, tag, n);
    if n <= MAX_DEPTH + 1 {
      OneMoreStartTag(cfg, s, tag, n);
    }
  }

  lemma RepeatedRun(cfg: Config, token: Token, n: nat) returns (s: State)
    requires token != Stall
    ensures s == Run(cfg, Repeated(token, n))
    ensures Run(cfg, Repeated(token, n + 1)) == if s.halted then s else Stepped(cfg, s, token)
  {
    s := Run(cfg, Repeated(token, n));
    NoStall(token, n);
    RunSnoc(cfg, Repeated(token, n), token);
  }

  lemma RunSnoc(cfg: Config, tokens: seq<Token>, token: Token)
    requires Stall !in tokens
    ensures Run(cfg, tokens + [token]) ==
      var s := Run(cfg, tokens); if s.halted then s else Stepped(cfg, s, token)
  {
    assert (tokens + [token])[..|tokens|] == tokens;
  }

  lemma {:induction false} NoStall(token: Token, n: nat)
    requires token != Stall
    ensures |Repeated(token, n)| == n && Stall !in Repeated(token, n)
  {
    if n > 0 {
      NoStall(token, n - 1);
    }
  }

  lemma OneMoreStartTag(cfg: Config, s: State, tag: Tag, n: nat)
    requires Stays(cfg, tag) && n <= MAX_DEPTH + 1 && s.names == s.nodes == Copies(tag, n)
    ensures var t := Stepped(cfg, s, StartTag(tag, Closed));
      && t.names == Copies(tag, n + 1)
      && (if n <= MAX_DEPTH then t.nodes == t.names && t.halted == s.halted
          else t.nodes == Copies(tag, n) && t.halted)
  {
    var closed := t => Closes(cfg.tables, tag, t);
    HeightIsLeast(s.names, closed);
    assert HeightWithout(s.names, closed) == n;
    assert Copies(tag, n) + [tag] == Copies(tag, n + 1);
  }

  /** So with the tables of the parser, implied tags off and 258 times a div the stacks end up apart. */
  lemma ManyDivs(cfg: Config)
    requires cfg.noImplied && !cfg.huge && cfg.tables == HTML_TABLES
    ensures var s := Run(cfg, Repeated(StartTag(DIV, Closed), MAX_DEPTH + 2));
      s.nodes != s.names && s.names != [] && !NoneTooDeep(cfg, s.log)
  {
    NothingCloses(DIV);
    RunOfStartTags(cfg, DIV, MAX_DEPTH + 2);
    assert PiledTo(Run(cfg, Repeated(StartTag(DIV, Closed), MAX_DEPTH + 2)), DIV, MAX_DEPTH + 2);
    StacksAgreeIff(cfg, Repeated(StartTag(DIV, Closed), MAX_DEPTH + 2));
  }

  /** The end of the input closes what is open, innermost first, and leaves both stacks empty. */
  lemma EndOfInputEmptiesBoth(cfg: Config, tokens: seq<Token>)
    ensures var s := PoppedTo(Run(cfg, tokens), 0);
      s.names == [] && s.nodes == [] && InStep(cfg, s)
  {
    RunInStep(cfg, tokens);
    PoppedToInStep(cfg, Run(cfg, tokens), 0);
  }

  function Starts(log: seq<Event>): nat {
    if log == [] then 0 else Starts(log[..|log| - 1]) + if log[|log| - 1].Start? then 1 else 0
  }

  function Ends(log: seq<Event>): nat {
    if log == [] then 0 else Ends(log[..|log| - 1]) + if log[|log| - 1].End? then 1 else 0
  }

  function Drops(log: seq<Event>): nat {
    if log == [] then 0 else Drops(log[..|log| - 1]) + if log[|log| - 1].Dropped? then 1 else 0
  }

  /** Each start event has its end event in the end, except for the start tags without a '>'. */
  lemma {:induction false} StartsAndEndsBalance(cfg: Config, log: seq<Event>)
    requires WellNested(cfg, log)
    ensures Starts(log) == Ends(log) + Drops(log) + |Open(log)|
  {
    if log != [] {
      StartsAndEndsBalance(cfg, log[..|log| - 1]);
    }
  }

  // The shape of the stack

  /** "html" below everything and nowhere else, "head" only upon it, at most one "body". */
  ghost predicate Shaped(names: seq<Tag>) {
    && (names != [] ==> names[0] == Html)
    && (forall i :: 0 < i < |names| ==> names[i] != Html)
    && (forall i :: 0 <= i < |names| && names[i] == Head ==> i == 1)
    && (forall i, j :: 0 <= i < j < |names| ==> names[i] != Body || names[j] != Body)
  }

  predicate OpensBody(e: Event) {
    e.Start? && e.tag == Body
  }

  predicate OpensHead(e: Event) {
    e.Start? && e.tag == Head
  }

  /** A head is implied only if neither a head nor a body was opened before, a body only if no body was. */
  ghost predicate ImpliedAtMostOnce(log: seq<Event>) {
    forall i, j :: 0 <= j < i < |log| && log[i].Start? && log[i].implied ==>
      && (OpensHead(log[i]) ==> !OpensHead(log[j]) && !OpensBody(log[j]))
      && (OpensBody(log[i]) ==> !OpensBody(log[j]))
  }

  /** What the `html` field remembers of the run. */
  ghost predicate Remembers(s: State) {
    && (s.html == 10 <==> exists j :: 0 <= j < |s.log| && OpensBody(s.log[j]))
    && (s.html == 1 <==> forall j :: 0 <= j < |s.log| ==> !OpensBody(s.log[j]) && !OpensHead(s.log[j]))
    && (s.html == 1 || s.html == 3 || s.html == 10)
  }

  ghost predicate Tidy(s: State) {
    Shaped(s.names) && ImpliedAtMostOnce(s.log) && Remembers(s)
  }

  ghost predicate MayPush(s: State, tag: Tag, implied: bool) {
    && (tag == Html <==> s.names == [])
    && (tag == Head ==> |s.names| == 1 && (implied ==> s.html < 3))
    && (tag == Body ==> Body !in s.names && (implied ==> s.html < 10))
  }

  lemma PushTidy(cfg: Config, s: State, tag: Tag, implied: bool)
    requires Tidy(s) && MayPush(s, tag, implied)
    ensures Tidy(Pushed(cfg, s, tag, implied))
  {
    var t := Pushed(cfg, s, tag, implied);
    LogGrows(s.log, t.log[|s.log|]);
    if s.html < 10 {
      assert forall j :: 0 <= j < |s.log| ==> !OpensBody(s.log[j]);
    }
    RemembersPush(s, t, tag);
  }

  lemma RemembersPush(s: State, t: State, tag: Tag)
    requires Remembers(s) && |t.log| == |s.log| + 1 && t.log[..|s.log|] == s.log && t.html == Opened(s.html, tag)
    requires t.log[|s.log|].Start? && t.log[|s.log|].tag == tag
    ensures Remembers(t)
  {
    var e := t.log[|s.log|];
    assert forall j :: 0 <= j < |s.log| ==> t.log[j] == s.log[j];
    if s.html == 10 {
      var j :| 0 <= j < |s.log| && OpensBody(s.log[j]);
      assert OpensBody(t.log[j]);
    }
    if s.html == 3 {
      var j :| 0 <= j < |s.log| && (OpensBody(s.log[j]) || OpensHead(s.log[j]));
      assert OpensBody(t.log[j]) || OpensHead(t.log[j]);
    }
    assert OpensBody(e) <==> tag == Body;
    assert OpensHead(e) <==> tag == Head;
  }

  lemma LogGrows(log: seq<Event>, e: Event)
    ensures forall j :: 0 <= j < |log| ==> (log + [e])[j] == log[j]
    ensures (log + [e])[|log|] == e
  {
  }

  lemma PopTidy(s: State)
    requires Tidy(s) && s.names != []
    ensures Tidy(Popped(s)) && Tidy(DroppedTop(s))
  {
    var tag := s.names[|s.names| - 1];
    ShapedBelow(s.names);
    QuietEvent(s, End(tag));
    QuietEvent(s, Dropped(tag));
  }

  lemma ShapedBelow(names: seq<Tag>)
    requires Shaped(names)
    ensures Shaped(Butlast(names))
  {
  }

  lemma QuietEvent(s: State, e: Event)
    requires ImpliedAtMostOnce(s.log) && Remembers(s) && !e.Start?
    ensures ImpliedAtMostOnce(s.log + [e]) && Remembers(s.(log := s.log + [e]))
  {
    LogGrows(s.log, e);
    if s.html == 10 {
      var j :| 0 <= j < |s.log| && OpensBody(s.log[j]);
      assert OpensBody((s.log + [e])[j]);
    }
    if s.html == 3 {
      var j :| 0 <= j < |s.log| && (OpensBody(s.log[j]) || OpensHead(s.log[j]));
      assert OpensBody((s.log + [e])[j]) || OpensHead((s.log + [e])[j]);
    }
  }

  lemma {:induction false} PoppedToTidy(s: State, height: nat)
    requires Tidy(s)
    ensures Tidy(PoppedTo(s, height))
    decreases |s.names|
  {
    if |s.names| > height {
      PopTidy(s);
      PoppedToTidy(Popped(s), height);
    }
  }

  lemma ImpliedTidy(cfg: Config, s: State, newtag: Tag)
    requires Tidy(s) && !cfg.noImplied
    ensures Tidy(Implied(cfg, s, newtag)) && (newtag != Html ==> Implied(cfg, s, newtag).names != [])
  {
    if s.names == [] {
      PushTidy(cfg, s, Html, true);
      ImpliedInsideTidy(cfg, Pushed(cfg, s, Html, true), newtag);
    } else {
      ImpliedInsideTidy(cfg, s, newtag);
    }
  }

  lemma ImpliedInsideTidy(cfg: Config, s: State, newtag: Tag)
    requires Tidy(s) && s.names != []
    ensures Tidy(ImpliedInside(cfg, s, newtag)) && ImpliedInside(cfg, s, newtag).names != []
  {
    if |s.names| == 1 && s.html < 3 {
      PushTidy(cfg, s, Head, true);
    }
    if s.html < 10 && Body !in s.names {
      PushTidy(cfg, s, Body, true);
    }
  }

  lemma StartedTidy(cfg: Config, s: State, tag: Tag)
    requires Tidy(s) && !cfg.noImplied
    ensures Tidy(Started(cfg, s, tag))
  {
    ImpliedTidy(cfg, s, tag);
    var t := Implied(cfg, s, tag);
    if Discards(t.names, tag) == 0 {
      PushTidy(cfg, t, tag, false);
    }
  }

  lemma ElementTidy(cfg: Config, s: State, tag: Tag, ending: Ending)
    requires Tidy(s) && !cfg.noImplied
    ensures Tidy(Element(cfg, s, tag, ending))
  {
    StartedTidy(cfg, s, tag);
    FinishedTidy(cfg, Started(cfg, s, tag), ending);
  }

  lemma FinishedTidy(cfg: Config, t: State, ending: Ending)
    requires Tidy(t)
    ensures Tidy(Finished(cfg, t, ending))
  {
    if t.names != [] {
      PopTidy(t);
      PoppedToTidy(DroppedTop(t), 0);
    }
  }

  lemma ParagraphTidy(cfg: Config, s: State)
    requires Tidy(s) && !cfg.noImplied
    ensures Tidy(Paragraph(cfg, s))
  {
    ImpliedTidy(cfg, s, P);
    PushTidy(cfg, Implied(cfg, s, P), P, true);
  }

  lemma AutoClosedTidy(cfg: Config, s: State, tag: Tag)
    requires Tidy(s)
    ensures Tidy(AutoClosed(cfg, s, tag))
  {
    PoppedToTidy(s, AutoCloseHeight(cfg, s.names, tag));
  }

  lemma EndedTidy(cfg: Config, s: State, tag: Tag)
    requires Tidy(s)
    ensures Tidy(Ended(cfg, s, tag))
  {
    if Target(cfg, s.names, tag) >= 0 {
      PoppedToTidy(s, Target(cfg, s.names, tag));
    }
  }

  lemma SteppedTidy(cfg: Config, s: State, token: Token)
    requires Tidy(s) && !cfg.noImplied
    ensures Tidy(Stepped(cfg, s, token))
  {
    match token
    case StartTag(tag, ending) =>
      AutoClosedTidy(cfg, s, tag);
      ElementTidy(cfg, AutoClosed(cfg, s, tag), tag, ending);
    case EndTag(tag) =>
      EndedTidy(cfg, s, tag);
    case Text =>
      AutoClosedTidy(cfg, s, P);
      ParagraphTidy(cfg, AutoClosed(cfg, s, P));
    case Control =>
      PoppedToTidy(s, 0);
    case Stall =>
  }

  /** With implied tags on, after every run the stack has its shape, and over the run at most one head
      and one body were implied, never after an explicit one. */
  lemma {:induction false} RunTidy(cfg: Config, tokens: seq<Token>)
    requires !cfg.noImplied
    ensures Tidy(Run(cfg, tokens))
  {
    if tokens != [] {
      RunTidy(cfg, tokens[..|tokens| - 1]);
      var s := Run(cfg, tokens[..|tokens| - 1]);
      if !s.halted {
        SteppedTidy(cfg, s, tokens[|tokens| - 1]);
      }
    }
  }

  // End tags

  /** Whether an end tag is to close an element, said without the search. */
  ghost predicate CanClose(cfg: Config, names: seq<Tag>, tag: Tag, k: nat) {
    && k < |names| && names[k] == tag
    && forall i :: k < i < |names| ==>
        names[i] != tag && Priority(cfg.tables.endPriority, names[i]) <= Priority(cfg.tables.endPriority, tag)
  }

  /** An end tag cuts the stack just below the innermost element of its name if no element above that
      one has a higher end priority and no discarded html, head or body is pending; in all other cases
      the stacks and the log stay as they are. */
  lemma EndTagCutsIff(cfg: Config, s: State, tag: Tag)
    ensures var t, pending := Ended(cfg, s, tag), s.depth > 0 && IsSkeleton(tag);
      && (forall k: nat :: !pending && CanClose(cfg, s.names, tag, k) ==> t.names == s.names[..k] && t.depth == s.depth)
      && (pending || (forall k: nat :: !CanClose(cfg, s.names, tag, k)) ==>
          t.names == s.names && t.nodes == s.nodes && t.log == s.log)
      && (t.depth < s.depth <==> pending)
  {
    var r := Target(cfg, s.names, tag);
    forall k: nat | CanClose(cfg, s.names, tag, k)
      ensures r == k
    {
      TargetFound(cfg, s.names, tag, k);
    }
    TargetIs(cfg, s.names, tag);
    if r >= 0 {
      assert CanClose(cfg, s.names, tag, r);
      PoppedToDepth(s, r);
    }
  }

  lemma TargetFound(cfg: Config, names: seq<Tag>, tag: Tag, k: nat)
    requires CanClose(cfg, names, tag, k)
    ensures Target(cfg, names, tag) == k
  {
    TargetIs(cfg, names, tag);
    assert names[k] == tag;
    if Target(cfg, names, tag) < 0 {
      assert false;
    }
  }

  lemma {:induction false} PoppedToDepth(s: State, height: nat)
    ensures PoppedTo(s, height).depth == s.depth && PoppedTo(s, height).html == s.html
    decreases |s.names|
  {
    if |s.names| > height {
      PoppedToDepth(Popped(s), height);
    }
  }

  // With the tables of the parser

  /** An open html or body, and what is below it, is closed by no start tag and by no text. */
  lemma AutoCloseSparesBody(cfg: Config, s: State, newtag: Tag, k: nat)
    requires cfg.tables == HTML_TABLES && k < |s.names| && (s.names[k] == Html || s.names[k] == Body)
    ensures s.names[..k + 1] <= AutoClosed(cfg, s, newtag).names <= s.names
  {
    var closed := tag => Closes(cfg.tables, newtag, tag);
    HeightIsLeast(s.names, closed);
    NothingCloses(newtag);
    assert !closed(s.names[k]);
  }

  /** Nor by the end tag of any element but html, head and body. */
  lemma EndTagSparesBody(cfg: Config, s: State, tag: Tag, k: nat)
    requires cfg.tables == HTML_TABLES && k < |s.names| && (s.names[k] == Html || s.names[k] == Body)
    requires !IsSkeleton(tag)
    ensures s.names[..k + 1] <= Ended(cfg, s, tag).names <= s.names
  {
    BodyHasPriority(tag);
    TargetAbove(cfg, s.names, tag, k);
  }

  lemma {:induction false} TargetAbove(cfg: Config, names: seq<Tag>, tag: Tag, k: nat)
    requires k < |names| && names[k] != tag
    requires Priority(cfg.tables.endPriority, names[k]) > Priority(cfg.tables.endPriority, tag)
    ensures Target(cfg, names, tag) < 0 || Target(cfg, names, tag) > k
  {
    if k < |names| - 1 {
      TargetAbove(cfg, names[..|names| - 1], tag, k);
    }
  }

  /** A start tag that is discarded opens nothing, but its ending is taken for the element it stands in: that one
      stays open exactly if the tag ends in ">" and the element may have content.  Otherwise it goes, with an
      end event or, after an unfinished tag, without one; at the end of the input everything else goes too. */
  lemma DiscardedTagKeepsIff(cfg: Config, s: State, tag: Tag, ending: Ending)
    requires Discards(Implied(cfg, s, tag).names, tag) > 0
    ensures var t, u := Implied(cfg, s, tag), Element(cfg, s, tag, ending);
      && (t.names != [] ==>
            (u.names == t.names <==> ending == Closed && t.names[|t.names| - 1] !in cfg.tables.empties))
      && (u.names == t.names ==> u.nodes == t.nodes && u.log == t.log)
      && (u.names != t.names ==>
            var top := t.names[|t.names| - 1];
            if ending.Unfinished? then
              t.log + [Dropped(top)] <= u.log && u.names == if ending.atEnd then [] else Butlast(t.names)
            else u.log == t.log + [End(top)] && u.names == Butlast(t.names))
  {
    var t := Started(cfg, s, tag);
    if t.names != [] && ending == Unfinished(true) {
      LogKeeps(DroppedTop(t), 0);
    }
  }

  /** Closing elements only adds to the log. */
  lemma {:induction false} LogKeeps(s: State, height: nat)
    ensures s.log <= PoppedTo(s, height).log
    decreases |s.names|
  {
    if |s.names| > height {
      LogKeeps(Popped(s), height);
    }
  }

  /** The end tag of a discarded tag is swallowed: together they do nothing exactly if the tag was counted
      once and left its surroundings alone. */
  lemma DiscardedPairIsNothingIff(cfg: Config, s: State, tag: Tag, ending: Ending)
    requires Discards(Implied(cfg, s, tag).names, tag) > 0
    ensures var t := Implied(cfg, s, tag);
      Ended(cfg, Element(cfg, s, tag, ending), tag) == t <==>
        && Discards(t.names, tag) == 1
        && (t.names == [] || (ending == Closed && t.names[|t.names| - 1] !in cfg.tables.empties))
  {
    var t, u := Implied(cfg, s, tag), Element(cfg, s, tag, ending);
    DiscardedTagKeepsIff(cfg, s, tag, ending);
    FinishedDepth(cfg, Started(cfg, s, tag), ending);
    assert u.depth == t.depth + Discards(t.names, tag) && IsSkeleton(tag);
  }

  lemma FinishedDepth(cfg: Config, t: State, ending: Ending)
    ensures Finished(cfg, t, ending).depth == t.depth && Finished(cfg, t, ending).html == t.html
  {
    if t.names != [] {
      PoppedToDepth(DroppedTop(t), 0);
    }
  }
}
