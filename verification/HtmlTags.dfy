/** Element names and the tables of HTMLparser.c that decide which elements close which. */
module HtmlTags {

  /** The names that the code itself mentions, and all others. */
  datatype Tag =
    | Html | Head | Body | Title | Script | Style | Meta | Link | Base | Frameset | Frame | Noframes | P
    | Other(name: string)

  const ROWS_0: seq<(Tag, seq<Tag>)> := [
    (Other("form"), [Other("form"), P, Other("hr"), Other("h1"), Other("h2"), Other("h3"), Other("h4"),
      Other("h5"), Other("h6"), Other("dl"), Other("ul"), Other("ol"), Other("menu"), Other("dir"),
      Other("address"), Other("pre"), Other("listing"), Other("xmp"), Head]),
    (Head, [P]),
    (Title, [P]),
    (Body, [Head, Style, Link, Title, P])
  ]

  const ROWS_1: seq<(Tag, seq<Tag>)> := [
    (Frameset, [Head, Style, Link, Title, P]),
    (Other("li"), [P, Other("h1"), Other("h2"), Other("h3"), Other("h4"), Other("h5"), Other("h6"), Other("dl"),
      Other("address"), Other("pre"), Other("listing"), Other("xmp"), Head, Other("li")]),
    (Other("hr"), [P, Head]),
    (Other("h1"), [P, Head]),
    (Other("h2"), [P, Head]),
    (Other("h3"), [P, Head])
  ]

  const ROWS_2: seq<(Tag, seq<Tag>)> := [
    (Other("h4"), [P, Head]),
    (Other("h5"), [P, Head]),
    (Other("h6"), [P, Head]),
    (Other("dir"), [P, Head]),
    (Other("address"), [P, Head, Other("ul")]),
    (Other("pre"), [P, Head, Other("ul")]),
    (Other("listing"), [P, Head]),
    (Other("xmp"), [P, Head]),
    (Other("blockquote"), [P, Head])
  ]

  const ROWS_3: seq<(Tag, seq<Tag>)> := [
    (Other("dl"), [P, Other("dt"), Other("menu"), Other("dir"), Other("address"), Other("pre"),
      Other("listing"), Other("xmp"), Head]),
    (Other("dt"), [P, Other("menu"), Other("dir"), Other("address"), Other("pre"), Other("listing"),
      Other("xmp"), Head, Other("dd")]),
    (Other("dd"), [P, Other("menu"), Other("dir"), Other("address"), Other("pre"), Other("listing"),
      Other("xmp"), Head, Other("dt")])
  ]

  const ROWS_4: seq<(Tag, seq<Tag>)> := [
    (Other("ul"), [P, Head, Other("ol"), Other("menu"), Other("dir"), Other("address"), Other("pre"),
      Other("listing"), Other("xmp")]),
    (Other("ol"), [P, Head, Other("ul")]),
    (Other("menu"), [P, Head, Other("ul")])
  ]

  const ROWS_5: seq<(Tag, seq<Tag>)> := [
    (P, [P, Head, Other("h1"), Other("h2"), Other("h3"), Other("h4"), Other("h5"), Other("h6"), Other("tt"),
      Other("i"), Other("b"), Other("u"), Other("s"), Other("strike"), Other("big"), Other("small")]),
    (Other("div"), [P, Head]),
    (Other("noscript"), [P]),
    (Other("center"), [Other("font"), Other("b"), Other("i"), P, Head]),
    (Other("a"), [Other("a"), Head]),
    (Other("caption"), [P])
  ]

  const ROWS_6: seq<(Tag, seq<Tag>)> := [
    (Other("colgroup"), [Other("caption"), Other("colgroup"), Other("col"), P]),
    (Other("col"), [Other("caption"), Other("col"), P]),
    (Other("table"), [P, Head, Other("h1"), Other("h2"), Other("h3"), Other("h4"), Other("h5"), Other("h6"),
      Other("pre"), Other("listing"), Other("xmp"), Other("a")]),
    (Other("th"), [Other("th"), Other("td"), P, Other("span"), Other("font"), Other("a"), Other("b"),
      Other("i"), Other("u")])
  ]

  const ROWS_7: seq<(Tag, seq<Tag>)> := [
    (Other("td"), [Other("th"), Other("td"), P, Other("span"), Other("font"), Other("a"), Other("b"),
      Other("i"), Other("u")]),
    (Other("tr"), [Other("th"), Other("td"), Other("tr"), Other("caption"), Other("col"), Other("colgroup"), P]),
    (Other("thead"), [Other("caption"), Other("col"), Other("colgroup")]),
    (Other("tfoot"), [Other("th"), Other("td"), Other("tr"), Other("caption"), Other("col"), Other("colgroup"),
      Other("thead"), Other("tbody"), P])
  ]

  const ROWS_8: seq<(Tag, seq<Tag>)> := [
    (Other("tbody"), [Other("th"), Other("td"), Other("tr"), Other("caption"), Other("col"), Other("colgroup"),
      Other("thead"), Other("tfoot"), Other("tbody"), P]),
    (Other("optgroup"), [Other("option")]),
    (Other("option"), [Other("option")]),
    (Other("fieldset"), [Other("legend"), P, Head, Other("h1"), Other("h2"), Other("h3"), Other("h4"),
      Other("h5"), Other("h6"), Other("pre"), Other("listing"), Other("xmp"), Other("a")]),
    (Other("tt"), [Head]),
    (Other("i"), [Head])
  ]

  const ROWS_9: seq<(Tag, seq<Tag>)> := [
    (Other("b"), [Head]),
    (Other("u"), [Head]),
    (Other("s"), [Head]),
    (Other("strike"), [Head]),
    (Other("big"), [Head]),
    (Other("small"), [Head]),
    (Other("em"), [Head]),
    (Other("strong"), [Head]),
    (Other("dfn"), [Head]),
    (Other("code"), [Head]),
    (Other("samp"), [Head]),
    (Other("kbd"), [Head]),
    (Other("var"), [Head]),
    (Other("cite"), [Head])
  ]

  const ROWS_10: seq<(Tag, seq<Tag>)> := [
    (Other("abbr"), [Head]),
    (Other("acronym"), [Head]),
    (Other("img"), [Head]),
    (Other("font"), [Head]),
    (Other("br"), [Head]),
    (Other("map"), [Head]),
    (Other("q"), [Head]),
    (Other("sub"), [Head]),
    (Other("sup"), [Head]),
    (Other("span"), [Head]),
    (Other("bdo"), [Head]),
    (Other("iframe"), [Head])
  ]

  /** htmlStartClose: a tag with the open elements that it closes. */
  const START_CLOSE: seq<(Tag, seq<Tag>)> :=
    ROWS_0 + ROWS_1 + ROWS_2 + ROWS_3 + ROWS_4 + ROWS_5 + ROWS_6 + ROWS_7 + ROWS_8 + ROWS_9 + ROWS_10

  /** htmlEndPriority; the priority of every other element is DEFAULT_PRIORITY. */
  const END_PRIORITY: seq<(Tag, int)> := [
    (Other("div"), 150), (Other("td"), 160), (Other("th"), 160), (Other("tr"), 170), (Other("thead"), 180),
    (Other("tbody"), 180), (Other("tfoot"), 180), (Other("table"), 190), (Head, 200), (Body, 200), (Html, 220)
  ]

  const DEFAULT_PRIORITY := 100

  /** The elements of html40ElementTable that have no content. */
  const EMPTY_ELEMENTS: seq<Tag> := [
    Other("area"), Base, Other("basefont"), Other("br"), Other("col"), Frame, Other("hr"), Other("img"),
    Other("input"), Other("isindex"), Link, Meta, Other("param")
  ]

  /** The tables, so that what follows holds whatever they say. */
  datatype Tables = Tables(startClose: seq<(Tag, seq<Tag>)>, endPriority: seq<(Tag, int)>, empties: seq<Tag>)

  const HTML_TABLES := Tables(START_CLOSE, END_PRIORITY, EMPTY_ELEMENTS)

  /** The first row for a tag. */
  function Row(rows: seq<(Tag, seq<Tag>)>, newtag: Tag): seq<Tag> {
    if rows == [] then []
    else if rows[0].0 == newtag then rows[0].1
    else Row(rows[1..], newtag)
  }

  predicate Closes(tables: Tables, newtag: Tag, oldtag: Tag) {
    oldtag in Row(tables.startClose, newtag)
  }

  /** htmlCheckAutoClose. */
  method CheckAutoClose(tables: Tables, newtag: Tag, oldtag: Tag) returns (r: bool)
    ensures r == Closes(tables, newtag, oldtag)
  {
    var rows := tables.startClose;
    while rows != [] && rows[0].0 != newtag
      invariant Row(rows, newtag) == Row(tables.startClose, newtag)
    {
      rows := rows[1..];
    }
    if rows == [] { return false; }
    var row := rows[0].1;
    var i := 0;
    while i < |row|
      invariant 0 <= i <= |row| && oldtag !in row[..i]
    {
      if row[i] == oldtag { return true; }
      i := i + 1;
    }
    r := false;
  }

  function Priority(endPriority: seq<(Tag, int)>, tag: Tag): int {
    if endPriority == [] then DEFAULT_PRIORITY
    else if endPriority[0].0 == tag then endPriority[0].1
    else Priority(endPriority[1..], tag)
  }

  /** htmlGetEndPriority. */
  method GetEndPriority(tables: Tables, tag: Tag) returns (priority: int)
    ensures priority == Priority(tables.endPriority, tag)
  {
    var rest := tables.endPriority;
    while rest != [] && rest[0].0 != tag
      invariant Priority(rest, tag) == Priority(tables.endPriority, tag)
    {
      rest := rest[1..];
    }
    priority := if rest != [] then rest[0].1 else DEFAULT_PRIORITY;
  }

  /** Start tags for which a head is implied. */
  predicate BelongsInHead(tag: Tag) {
    tag == Script || tag == Style || tag == Meta || tag == Link || tag == Title || tag == Base
  }

  /** Start tags that imply no body. */
  predicate BelongsToFrames(tag: Tag) {
    tag == Noframes || tag == Frame || tag == Frameset
  }

  // What the tables say

  const DIV := Other("div")

  /** Such a row closes no html, no body and no div. */
  predicate Spares(row: (Tag, seq<Tag>)) {
    Html !in row.1 && Body !in row.1 && DIV !in row.1
  }

  lemma SparedBy0()
    ensures forall row :: row in ROWS_0 ==> Spares(row)
  {
  }

  lemma SparedBy1()
    ensures forall row :: row in ROWS_1 ==> Spares(row)
  {
  }

  lemma SparedBy2()
    ensures forall row :: row in ROWS_2 ==> Spares(row)
  {
  }

  lemma SparedBy3()
    ensures forall row :: row in ROWS_3 ==> Spares(row)
  {
  }

  lemma SparedBy4()
    ensures forall row :: row in ROWS_4 ==> Spares(row)
  {
  }

  lemma SparedBy5()
    ensures forall row :: row in ROWS_5 ==> Spares(row)
  {
  }

  lemma SparedBy6()
    ensures forall row :: row in ROWS_6 ==> Spares(row)
  {
  }

  lemma SparedBy7()
    ensures forall row :: row in ROWS_7 ==> Spares(row)
  {
  }

  lemma SparedBy8()
    ensures forall row :: row in ROWS_8 ==> Spares(row)
  {
  }

  lemma SparedBy9()
    ensures forall row :: row in ROWS_9 ==> Spares(row)
  {
  }

  lemma SparedBy10()
    ensures forall row :: row in ROWS_10 ==> Spares(row)
  {
  }

  lemma {:induction false} RowOf(rows: seq<(Tag, seq<Tag>)>, newtag: Tag)
    requires forall row :: row in rows ==> Spares(row)
    ensures Html !in Row(rows, newtag) && Body !in Row(rows, newtag) && DIV !in Row(rows, newtag)
  {
    if rows != [] {
      assert rows[0] in rows;
      RowOf(rows[1..], newtag);
    }
  }

  /** No start tag closes html, body or div. */
  lemma NothingCloses(newtag: Tag)
    ensures !Closes(HTML_TABLES, newtag, Html) && !Closes(HTML_TABLES, newtag, Body)
    ensures !Closes(HTML_TABLES, newtag, DIV)
  {
    SparedBy0();
    SparedBy1();
    SparedBy2();
    SparedBy3();
    SparedBy4();
    SparedBy5();
    SparedBy6();
    SparedBy7();
    SparedBy8();
    SparedBy9();
    SparedBy10();
    RowOf(START_CLOSE, newtag);
  }

  /** Only html, head and body reach the priority of body. */
  lemma BodyHasPriority(tag: Tag)
    requires tag != Html && tag != Head && tag != Body
    ensures Priority(END_PRIORITY, tag) < Priority(END_PRIORITY, Body) == 200 < Priority(END_PRIORITY, Html)
  {
    LastPriorities(tag);
    FirstPriorities(tag);
    FirstPriorities(Body);
    FirstPriorities(Html);
    LastPriorities(Body);
    LastPriorities(Html);
  }

  lemma LastPriorities(tag: Tag)
    ensures var last := END_PRIORITY[7..];
      Priority(last, tag) == if tag == Other("table") then 190 else if tag == Head || tag == Body then 200
                             else if tag == Html then 220 else DEFAULT_PRIORITY
  {
    var last := END_PRIORITY[7..];
    assert last == [(Other("table"), 190), (Head, 200), (Body, 200), (Html, 220)];
    SkipsPriority(tag, 7);
    SkipsPriority(tag, 8);
    SkipsPriority(tag, 9);
    SkipsPriority(tag, 10);
    assert END_PRIORITY[11..] == [];
  }

  lemma FirstPriorities(tag: Tag)
    ensures Priority(END_PRIORITY, tag) == Priority(END_PRIORITY[7..], tag) || Priority(END_PRIORITY, tag) <= 180
    ensures IsUnlisted(tag) ==> Priority(END_PRIORITY, tag) == Priority(END_PRIORITY[7..], tag)
  {
    SkipsPriority(tag, 0);
    SkipsPriority(tag, 1);
    SkipsPriority(tag, 2);
    SkipsPriority(tag, 3);
    SkipsPriority(tag, 4);
    SkipsPriority(tag, 5);
    SkipsPriority(tag, 6);
    assert END_PRIORITY[0..] == END_PRIORITY;
  }

  predicate IsUnlisted(tag: Tag) {
    !tag.Other?
  }

  lemma SkipsPriority(tag: Tag, k: nat)
    requires k < |END_PRIORITY|
    ensures Priority(END_PRIORITY[k..], tag) ==
      if END_PRIORITY[k].0 == tag then END_PRIORITY[k].1 else Priority(END_PRIORITY[k + 1..], tag)
  {
    assert END_PRIORITY[k..][1..] == END_PRIORITY[k + 1..];
  }
}
