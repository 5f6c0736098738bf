/** The open-element stack of the HTML parser as a value: what each primitive does to the name
    stack, to the node stack behind the SAX2 callbacks, and to the log of events. */
module HtmlState {
  import opened HtmlTags

  const MAX_DEPTH := 256

  /** The options that matter here, and the tables. */
  datatype Config = Config(noImplied: bool, huge: bool, tables: Tables)

  /** SAX events, and the start tags without an end event.  A start event is `linked` if its node was pushed. */
  datatype Event =
    | Start(tag: Tag, implied: bool, linked: bool)
    | End(tag: Tag)
    | Dropped(tag: Tag)

  /** `html` remembers that a head (3) or a body (10) was opened, `depth` counts discarded start tags,
      and `halted` is the state after a node that would nest too deep. */
  datatype State = State(names: seq<Tag>, nodes: seq<Tag>, html: nat, depth: nat, halted: bool, log: seq<Event>)

  const INITIAL := State([], [], 1, 0, false, [])

  function Butlast<T>(s: seq<T>): seq<T> {
    if s == [] then [] else s[..|s| - 1]
  }

  function Opened(html: nat, tag: Tag): nat {
    if html < 3 && tag == Head then 3 else if html < 10 && tag == Body then 10 else html
  }

  /** nodePush fails when the stack holds more than xmlParserMaxDepth nodes. */
  predicate HasRoom(cfg: Config, nodes: seq<Tag>) {
    |nodes| <= MAX_DEPTH || cfg.huge
  }

  /** htmlnamePush, and xmlSAX2StartElement with nodePush. */
  function Pushed(cfg: Config, s: State, tag: Tag, implied: bool): State {
    var linked := HasRoom(cfg, s.nodes);
    State(s.names + [tag], if linked then s.nodes + [tag] else s.nodes, Opened(s.html, tag), s.depth,
          s.halted || !linked, s.log + [Start(tag, implied, linked)])
  }

  /** xmlSAX2EndElement for the current element, and htmlnamePop. */
  function Popped(s: State): State
    requires s.names != []
  {
    s.(names := Butlast(s.names), nodes := Butlast(s.nodes), log := s.log + [End(s.names[|s.names| - 1])])
  }

  /** nodePop and htmlnamePop without an event. */
  function DroppedTop(s: State): State
    requires s.names != []
  {
    s.(names := Butlast(s.names), nodes := Butlast(s.nodes), log := s.log + [Dropped(s.names[|s.names| - 1])])
  }

  /** Down to a height, one end event after the other. */
  function PoppedTo(s: State, height: nat): (r: State)
    ensures height <= |s.names| ==> r.names == s.names[..height]
    decreases |s.names|
  {
    if |s.names| <= height then s else PoppedTo(Popped(s), height)
  }

  /** The height left without the topmost elements of some kind. */
  function HeightWithout(names: seq<Tag>, closed: Tag -> bool): (h: nat)
    ensures h <= |names|
  {
    if names != [] && closed(names[|names| - 1]) then HeightWithout(names[..|names| - 1], closed) else |names|
  }

  lemma {:induction false} HeightIsLeast(names: seq<Tag>, closed: Tag -> bool)
    ensures var h := HeightWithout(names, closed);
      (forall i :: h <= i < |names| ==> closed(names[i])) && (h > 0 ==> !closed(names[h - 1]))
  {
    if names != [] && closed(names[|names| - 1]) {
      HeightIsLeast(names[..|names| - 1], closed);
    }
  }

  /** htmlAutoClose for a start tag: the current elements go for as long as the new tag closes them. */
  function AutoCloseHeight(cfg: Config, names: seq<Tag>, newtag: Tag): (h: nat)
    ensures h <= |names|
  {
    HeightWithout(names, tag => Closes(cfg.tables, newtag, tag))
  }

  function AutoClosed(cfg: Config, s: State, newtag: Tag): State {
    PoppedTo(s, AutoCloseHeight(cfg, s.names, newtag))
  }

  /** htmlCheckImplied. */
  function Implied(cfg: Config, s: State, newtag: Tag): State {
    if cfg.noImplied || newtag == Html then s
    else if s.names == [] then ImpliedInside(cfg, Pushed(cfg, s, Html, true), newtag)
    else ImpliedInside(cfg, s, newtag)
  }

  /** Its part below an open html. */
  function ImpliedInside(cfg: Config, t: State, newtag: Tag): State {
    if newtag == Body || newtag == Head then t
    else if |t.names| <= 1 && BelongsInHead(newtag) then
      if t.html >= 3 then t else Pushed(cfg, t, Head, true)
    else if BelongsToFrames(newtag) || t.html >= 10 || Body in t.names || Head in t.names then t
    else Pushed(cfg, t, Body, true)
  }

  /** What htmlParseStartTag does not let into the tree. */
  function Discards(names: seq<Tag>, tag: Tag): nat {
    if tag == Html && names != [] then 1
    else if tag == Head && |names| != 1 then 1
    else if tag == Body then Count(names, Body)
    else 0
  }

  function Count(names: seq<Tag>, tag: Tag): (n: nat)
    ensures n > 0 <==> tag in names
  {
    if names == [] then 0
    else Count(names[..|names| - 1], tag) + if names[|names| - 1] == tag then 1 else 0
  }

  /** htmlParseStartTag, after the current elements that the tag closes are closed. */
  function Started(cfg: Config, s: State, tag: Tag): State {
    var t := Implied(cfg, s, tag);
    var n := Discards(t.names, tag);
    if n > 0 then t.(depth := t.depth + n) else Pushed(cfg, t, tag, false)
  }

  /** How a start tag ends: "/>", ">", or neither, perhaps at the end of the input or at a control character. */
  datatype Ending = SelfClosed | Closed | Unfinished(atEnd: bool)

  /** htmlParseElementInternal, likewise: the rest of the tag concerns the current element, whichever it is. */
  function Element(cfg: Config, s: State, tag: Tag, ending: Ending): State {
    Finished(cfg, Started(cfg, s, tag), ending)
  }

  function Finished(cfg: Config, t: State, ending: Ending): State {
    if t.names == [] then t else
    match ending
    case SelfClosed => Popped(t)
    case Closed => if t.names[|t.names| - 1] in cfg.tables.empties then Popped(t) else t
    case Unfinished(atEnd) => if atEnd then PoppedTo(DroppedTop(t), 0) else DroppedTop(t)
  }

  /** The innermost open element of that name, unless one above it has a higher end priority. */
  function Target(cfg: Config, names: seq<Tag>, tag: Tag): (r: int)
    ensures -1 <= r < |names|
  {
    if names == [] then -1
    else if names[|names| - 1] == tag then |names| - 1
    else if Priority(cfg.tables.endPriority, names[|names| - 1]) > Priority(cfg.tables.endPriority, tag) then -1
    else Target(cfg, names[..|names| - 1], tag)
  }

  /** The search finds the innermost element of that name, unless one above it has a higher end priority. */
  lemma {:induction false} TargetIs(cfg: Config, names: seq<Tag>, tag: Tag)
    ensures var r := Target(cfg, names, tag);
      && (r >= 0 ==> names[r] == tag)
      && (r >= 0 ==> forall i :: r < i < |names| ==>
          names[i] != tag && Priority(cfg.tables.endPriority, names[i]) <= Priority(cfg.tables.endPriority, tag))
      && (r < 0 ==> forall k :: 0 <= k < |names| && names[k] == tag ==>
          Blocked(cfg, names, k, Priority(cfg.tables.endPriority, tag)))
  {
    if names != [] && names[|names| - 1] != tag {
      var front := names[..|names| - 1];
      TargetIs(cfg, front, tag);
      if Target(cfg, names, tag) < 0 && Target(cfg, front, tag) < 0 {
        forall k | 0 <= k < |names| && names[k] == tag
          ensures Blocked(cfg, names, k, Priority(cfg.tables.endPriority, tag))
        {
          assert front[k] == tag;
          var p := cfg.tables.endPriority;
          var i :| k < i < |front| && Priority(p, front[i]) > Priority(p, tag);
          assert Priority(cfg.tables.endPriority, names[i]) > Priority(cfg.tables.endPriority, tag);
        }
      }
    }
  }

  ghost predicate Blocked(cfg: Config, names: seq<Tag>, k: nat, priority: int) {
    exists i :: k < i < |names| && Priority(cfg.tables.endPriority, names[i]) > priority
  }

  predicate IsSkeleton(tag: Tag) {
    tag == Html || tag == Head || tag == Body
  }

  /** htmlParseEndTag. */
  function Ended(cfg: Config, s: State, tag: Tag): State {
    if s.depth > 0 && IsSkeleton(tag) then s.(depth := s.depth - 1)
    else if Target(cfg, s.names, tag) >= 0 then PoppedTo(s, Target(cfg, s.names, tag))
    else s
  }

  /** Where htmlCheckParagraph implies a paragraph. */
  predicate NeedsParagraph(names: seq<Tag>) {
    names == [] || names[|names| - 1] == Html || names[|names| - 1] == Head
  }

  function Paragraph(cfg: Config, s: State): State {
    Pushed(cfg, Implied(cfg, s, P), P, true)
  }

  /** What the content loop finds in the input, as far as it concerns the stacks.  A control character where
      the current element has changed closes everything; a turn that consumes nothing ends the loop. */
  datatype Token = StartTag(tag: Tag, ending: Ending) | EndTag(tag: Tag) | Text | Control | Stall

  function Stepped(cfg: Config, s: State, token: Token): State {
    match token
    case StartTag(tag, ending) => Element(cfg, AutoClosed(cfg, s, tag), tag, ending)
    case EndTag(tag) => Ended(cfg, s, tag)
    case Text => if NeedsParagraph(s.names) then Paragraph(cfg, AutoClosed(cfg, s, P)) else s
    case Control => PoppedTo(s, 0)
    case Stall => s
  }

  /** The state after some tokens: nothing more happens once the parser has halted or stalled. */
  function Run(cfg: Config, tokens: seq<Token>): State {
    if tokens == [] then INITIAL else
    var s := Run(cfg, tokens[..|tokens| - 1]);
    if s.halted || Stall in tokens[..|tokens| - 1] then s else Stepped(cfg, s, tokens[|tokens| - 1])
  }
}
