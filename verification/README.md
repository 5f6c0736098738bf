# Models of libxml2 2.9.1

Seven parts of the bundled libxml2 are modelled here, each as the source has it: state that
the C code updates in place is held by a class, loops are methods, and what
such a method does is stated by a function of its inputs or of the old state; the properties that
the library promises are then proved of these functions, for all inputs and all runs.

* **Canonical XML** (`C14n*.dfy`). The tree walk with its segmented namespace stack writes exactly a
  canonical form defined on the tree. Read back, that form is the visible content of the tree in document order,
  with complete and ordered attributes; it gives every element its source namespace context with nothing redundant,
  and source order does not show.
* **The dictionary** (`Dict*.dfy`). The chained table with its two growths, its change of hash function,
  its pools and its sub-dictionary behaves as a set of strings with stable, unique pointers. The
  exceptions, an empty string looked up by length 0 through a pointer to other bytes and a qualified name at the
  minimal size, have their exact conditions.
* **The memory buffer** (`Buf*.dfy`). Every allocation scheme, IO mode with its moved content pointer
  included, refines a plain byte sequence.
* **The catalog resolver** (`Catalog*.dfy`). It ends on every catalog graph, cyclic or not, with a URI that some
  file offers or with none; a tree of frames explains the answer, the marks left on the lists and the depth
  counters, which come back unless the limit was met. Where no file refers back to itself it computes a meaning
  that is defined without counters.
* **The HTML parser** (`Html*.dfy`). The open-element stack and the node stack behind it, over all runs;
  and the entity encoder with the attribute parser that undoes it.
* **Text coalescing** (`Sax2Text.dfy`) and the **XML entity encoder** (`Entities*.dfy`).

`XmlStrings`, `XmlLists` and `Utf8` hold what several parts share. Bytes are numbers below 256, masks and
shifts of the UTF-8 code are written as remainders, products and quotients, and the hash functions work on
32-bit vectors. A NULL prefix or URI is the empty string.

Where the code does not do what its documentation or its other parts suggest, the code is kept and the
exact condition is proved: `DictRuns.KeyIsOwnIff` (an empty string may be interned twice; `DictRuns.EmptyTwice`),
`Dict.Dictionary.QLookup` (an empty prefix never finds an entry), `DictRuns.QualifiedThenPlain` (the fast key of a
qualified name need not be that of the joined string), `Buf.Buffer.CCat` (a resize inside the loop
loses what was written before it), `CatalogMarks.SecondAskIff` (missing delegates cut a request and no later
one, unless two of them share a URL; `CatalogRuns.ResolveTwice`), `CatalogFrames.RestoredIff` (an early return
leaves a depth counter raised; `CatalogRuns.SelfReference`), `HtmlRuns.StacksAgreeIff` (a node refused for its
depth leaves the stacks apart; `HtmlRuns.ManyDivs`), `HtmlRuns.DiscardedTagKeepsIff` (the ending of a discarded tag
ends its parent), `Sax2Text.CoalescedIsJoinedIff` (a chunk beyond the length limit is dropped).

`dafny verify dfyconfig.toml` checks the whole project.

## Model

| member | source | states |
|---|---|---|
| `XmlStrings.StrCmpZero` | libxml/xmlstring.c:132-143 | the byte-wise comparison is zero exactly for equal strings |
| `XmlStrings.StrCmpTransitive` | libxml/xmlstring.c:132-143 | and it is transitive, strictly if one of the two steps is strict |
| `XmlStrings.StrCmpIsLexicographic` | libxml/xmlstring.c:132-143 | it is negative exactly if the first string is a proper prefix of the second or has the smaller byte where they first differ |
| `XmlLists.ListInsert` | libxml/list.c:273-294 | insertion puts an element in front of the first one that is not smaller |
| `XmlLists.ListSearch` | libxml/list.c:231-240 | the search stops at the first element that is not smaller and answers whether that one compares equal, on any list and comparator |
| `XmlLists.InsertedSorted` | libxml/list.c:98-106 | for a total preorder, insertion keeps a list sorted |
| `XmlLists.FoundIff` | libxml/list.c:231-240 | in a sorted list the search finds an element exactly if some element compares equal |
| `XmlLists.StrictlySortedUnique` | libxml/list.c:98-106 | a strictly sorted list is determined by its elements, so insertion order cannot show |
| `C14nStack.VisibleNsStack.Add` | libxml/c14n.c:314-357 | a declaration is pushed above all that are live; the segment boundaries stay |
| `C14nStack.VisibleNsStack.Restore` | libxml/c14n.c:372-380 | the saved indices come back, and with them the entries below them |
| `C14nStack.VisibleNsStack.Shift` | libxml/c14n.c:383-390 | the entries pushed last become the segment that is searched |
| `C14nStack.VisibleNsStack.Find` | libxml/c14n.c:413-444 | found exactly if the nearest live entry of the searched segments has the same prefix and URI; xmlns="" is searched everywhere and counts as rendered when no default is bound |
| `C14nStack.VisibleNsStack.ExcFind` | libxml/c14n.c:447-481 | the same over the whole stack |
| `C14nModel.SearchIndex` | libxml/tree.c:5960-6033 | the nearest declaration of a prefix on the ancestor-or-self axis; "xml" names none |
| `C14nWalk.C14nContext.ProcessNamespacesAxis` | libxml/c14n.c:601-672 | the inclusive walk writes exactly the in-scope declarations that the output context lacks, sorted, with xmlns="" first where it is needed, and pushes the whole axis for a visible element |
| `C14nWalk.C14nContext.ExcProcessNamespacesAxis` | libxml/c14n.c:706-849 | the exclusive walk does so for the visibly utilized namespaces only |
| `C14nWalk.C14nContext.ProcessAttrsAxis` | libxml/c14n.c:1125-1341 | the attributes written are those of the element, sorted, with the inherited xml: ones of an orphan merged in |
| `C14nWalk.C14nContext.ProcessElementNode` | libxml/c14n.c:1415-1511 | an element appends its canonical tokens and leaves stack, segments and rendered context as it found them |
| `C14nWalk.C14nContext.ProcessNode` | libxml/c14n.c:1523-1702 | the same for any node |
| `C14nWalk.Execute` | libxml/c14n.c:1867-1945 | the tokens are a function of the tree, and read back, for any tree without repeated attributes, they are the visible texts and tags in document order, each tag with exactly its attributes, in the order of section 2.3 of Canonical XML |
| `C14nScope.SelectedBinds` | libxml/c14n.c:618-646 | the declarations taken from the axis bind each prefix to its nearest declaration |
| `C14nContexts.UnrenderedElements` | libxml/c14n.c:625-657 | what is printed is strictly sorted and holds exactly the used declarations that are not rendered yet |
| `C14nContexts.PlayStart` | libxml/c14n.c:1440-1480 | reading a written start tag back gives the element the context it stands for, and no declaration of the tag is redundant |
| `C14nContexts.InclusivePreservesContexts` | libxml/c14n.c:601-672 | Canonical XML 1.0, for every tree and every set of visible elements: replaying the output gives each printed element its source namespace context (an absent default counting as empty), in document order, and no declaration repeats the context it stands in |
| `C14nContexts.ExclusiveResolvesUtilizedPrefixes` | libxml/c14n.c:706-849 | Exclusive XML Canonicalization, for trees whose prefixes are bound consistently: replaying the output binds every prefix that an element or its attributes use to the source URI, leaves an element without a prefix in no default namespace that it was not in, and no declaration is redundant |
| `C14nOrder.AttrCompareZero` | libxml/c14n.c:881-917 | two attributes compare equal exactly if their expanded names are equal |
| `C14nOrder.AttrCompareLaws` | libxml/c14n.c:881-917 | the attribute comparator is a total preorder |
| `C14nOrder.NsCompareLaws` | libxml/c14n.c:516-526 | so is the namespace comparator |
| `C14nOrder.OwnAttrsSorted` | libxml/c14n.c:1162-1172 | the attributes of an element come out strictly sorted, none lost and none added |
| `C14nOrder.OrphanImports` | libxml/c14n.c:1151-1203 | the attributes of an orphan are strictly sorted and are its own ones and, for each xml: name that it lacks, exactly the nearest occurrence on the ancestor axis |
| `C14nContent.AttrCompareIsBefore` | libxml/c14n.c:881-917 | the attribute comparator puts attributes without a namespace first, then goes by URI and by local name, as byte strings |
| `C14nContent.ReadCanon` | libxml/c14n.c:1523-1702 | reading back the form of any subtree gives its tags and texts one by one with every token in its place: declarations, then attributes, then content |
| `C14nContent.ItemsWritten` | libxml/c14n.c:1415-1511 | what is read is part by part what the source shows: every visible text, every visible element between its tags, with its own attributes and, below an invisible parent in inclusive mode, the nearest xml: ones above, and declarations by prefix |
| `C14nContent.CanonDocuments` | libxml/c14n.c:1867-1945 | so the canonical form of a whole tree documents it: nothing visible is lost, repeated, moved or added |
| `C14nShuffle.CanonicalFormIgnoresOrder` | libxml/c14n.c:601-672 | permuting the attribute list or the declaration list of any elements of a tree does not change its canonical form |
| `DictModel.ComputeBigKey` | libxml/dict.c:375-393 | the loop computes the key function in 32-bit arithmetic |
| `DictModel.ComputeBigQKey` | libxml/dict.c:407-434 | likewise for a prefix and a name |
| `DictModel.BigQKeyIsBigKey` | libxml/dict.c:407-434 | for all strings and seeds the qualified key is the key of prefix, colon and name |
| `DictModel.RehashedEntries` | libxml/dict.c:628-751 | both passes of growing file every entry again, each under the key it had or is given |
| `Dict.Dictionary.constructor` | libxml/dict.c:536-595 | an empty dictionary of size 128, sharing the seed of its sub-dictionary |
| `Dict.Dictionary.RoomFor` | libxml/dict.c:241-271 | it fails exactly if no pool has more than the asked number of bytes left, a limit is set, and the sizes of the pools sum to more than it; else the pool allocated last that has room, or a new one of four times the largest size or of the asked bytes |
| `Dict.Dictionary.AddString` | libxml/dict.c:241-290 | the pools only grow, the new pointer holds the string with its terminator, and it fails exactly where there is no room |
| `Dict.Dictionary.AddQString` | libxml/dict.c:305-361 | the same for the joined string |
| `Dict.Dictionary.Find` | libxml/dict.c:847-876 | the first match of one chain, which decides whether the whole table holds the string under this key |
| `Dict.Dictionary.Grow` | libxml/dict.c:628-751 | sizes go 128, 768, 4608; entries, pointers and the set of interned strings survive, also when the hash function changes |
| `Dict.Dictionary.Search` | libxml/dict.c:842-921 | the search of the dictionary and of its one sub-dictionary |
| `Dict.Dictionary.Lookup` | libxml/dict.c:826-953 | the pointer returned holds the string; it is the one that the chain of its key has here or, failing that, in the sub-dictionary, else a fresh one, and asked again it is found; nothing stored is overwritten; it fails exactly for a string that is too long, or one that is not held while the pools are full |
| `Dict.Dictionary.Exists` | libxml/dict.c:966-1061 | what a lookup finds before it would insert, and no change |
| `Dict.Dictionary.QLookup` | libxml/dict.c:1074-1166 | the entry that the chain of its key has, or a new one, in whatever state the table is, and asked again it is found unless the table left the minimal size; an empty prefix never finds an entry; it fails exactly if the name is not held while the pools are full |
| `Dict.Dictionary.QualifiedIsHeld` | libxml/dict.c:1074-1166 | beyond the minimal size a qualified name is found where its joined string is |
| `Dict.Dictionary.CanonicalIsHeld` | libxml/dict.c:879-921 | a lookup searches both tables under the own keys of the string, unless it is an empty one at other bytes |
| `Dict.Dictionary.Owns` | libxml/dict.c:1179-1193 | true exactly for pointers into the pools of the dictionary or of its sub-dictionary |
| `DictRuns.PointersAreUnique` | libxml/dict.c:826-953 | in any run of states related as a lookup relates them, with lookups in the sub-dictionary in between, two lookups return the same pointer exactly if they were given the same string |
| `DictRuns.SharedWithSub` | libxml/dict.c:879-921 | in such a run a pointer is shared with a lookup made directly in the sub-dictionary exactly if the strings agree and the dictionary has no copy of its own |
| `DictRuns.LookupAll` | libxml/dict.c:826-953 | any list of calls on a dictionary and its sub-dictionary is such a run, whatever is in them and however they grow on the way: both statements hold of the pointers returned, for all non-empty strings, and for the empty one too as long as it is not asked for through a pointer to other bytes |
| `DictRuns.KeyIsOwnIff` | libxml/dict.c:444-467 | a string is filed under its own key except for an empty string that is read through a pointer to a byte other than zero while the table has size 128 |
| `DictRuns.EmptyStringMissed` | libxml/dict.c:444-467 | such a copy of the empty string is not found by a lookup of the empty string |
| `DictRuns.EmptyTwice` | libxml/dict.c:826-953 | a run of two lookups in a new dictionary that interns the empty string twice |
| `DictRuns.QualifiedTwice` | libxml/dict.c:1074-1166 | two qualified lookups of one name in a row give the same pointer, in any dictionary that does not leave the minimal size at the first |
| `DictRuns.QualifiedThenPlain` | libxml/dict.c:476-528 | at the minimal size a qualified lookup and one of the joined string give the same pointer exactly if the two fast keys agree |
| `Buf.Buffer.constructor` | libxml/buf.c:155-182 | an empty buffer, terminated if it has a block |
| `Buf.Buffer.CheckCompat` | libxml/buf.c:70-76 | what the macro changes; nothing while the compatibility fields agree |
| `Buf.Buffer.SetAllocationScheme` | libxml/buf.c:287-317 | contents and position stay; IO and immutable buffers keep their scheme |
| `Buf.Buffer.Empty` | libxml/buf.c:353-371 | no contents are left, and an IO buffer regains the space in front |
| `Buf.Buffer.Shrink` | libxml/buf.c:386-421 | drops a prefix, in every scheme, wherever the content pointer stands, and gives up no space of the block; more than there is drops nothing |
| `Buf.Buffer.Erase` | libxml/buf.c:632-642 | drops a suffix; more than there is drops nothing |
| `Buf.Buffer.GrowInternal` | libxml/buf.c:435-482 | keeps the contents and leaves strictly more than the asked number of bytes free; an immutable buffer refuses |
| `Buf.Buffer.Grow` | libxml/buf.c:495-505 | the same with its result for negative and zero lengths |
| `Buf.Buffer.Inflate` | libxml/buf.c:517-523 | keeps the contents; the size grows by more than the length |
| `Buf.Buffer.Resize` | libxml/buf.c:731-830 | keeps contents and terminator; the new size is that of the scheme; only immutable buffers fail |
| `Buf.Buffer.Add` | libxml/buf.c:845-881 | appends the bytes, or reports the error and changes nothing |
| `Buf.Buffer.AddHead` | libxml/buf.c:896-953 | prepends the bytes, into the space left by Shrink or by moving the contents up |
| `Buf.Buffer.CCat` | libxml/buf.c:986-1012 | what is appended is a tail of the string, and the whole of it exactly if no resize is due after its first character |
| `BufRuns.Run` | libxml/buf.c:386-953 | any run of operations in any mixture of schemes refines the same run on a plain byte sequence |
| `BufRuns.DoubledIsLeast` | libxml/buf.c:759-801 | the doubling loop stops at the least power of two times the old size that suffices |
| `CatalogIds.NormalizePublic` | libxml/catalog.c:1028-1068 | no new string exactly if the identifier is not empty and in normal form, else the normal form |
| `CatalogIds.NormalIffFixed` | libxml/catalog.c:1028-1068 | a string is in normal form (single spaces between words, no other blanks) exactly if normalising leaves it alone; normalising is idempotent |
| `CatalogIds.NormalisedKeepsInk` | libxml/catalog.c:1028-1068 | normalising changes white space only |
| `CatalogIds.UnWrapURN` | libxml/catalog.c:822-875 | the expansion of a urn:publicid: name, cut so that it fits the buffer of 2000 bytes with its terminator |
| `CatalogIds.UnwrapUndoesWrap` | libxml/catalog.c:822-875 | unwrapping undoes the transcription of RFC 3151 for every identifier of up to 1997 characters |
| `CatalogIds.UnwrapAgainHasFewerPercents` | libxml/catalog.c:822-875 | an expansion that is again such a URN has strictly fewer % characters |
| `CatalogModel.Reduced` | libxml/catalog.c:2009-2049 | normalising and unwrapping end, with identifiers that are no URNs and a public one in normal form |
| `CatalogUrns.ReducedIsFinalIds` | libxml/catalog.c:2009-2049 | unwrapping one URN at a time ends with each identifier unwrapped by itself: a system URN alone becomes public, beside a public identifier it is dropped if both agree in the end and stays a system identifier if not |
| `CatalogUrns.SystemUrnIsPublic` | libxml/catalog.c:2040-2041 | a request for a system URN means what the request for the public identifier it stands for means |
| `CatalogUrns.PublicUrnIsUnwrapped` | libxml/catalog.c:2012-2028 | so does a request with a public URN, whatever the system identifier |
| `CatalogUrns.SystemUrnBesidePublic` | libxml/catalog.c:2042-2046 | beside a public identifier a system URN is dropped if it says the same, else unwrapped to a system identifier |
| `CatalogUrns.BlankPublicIsNone` | libxml/catalog.c:2008-2010 | a blank public identifier is none |
| `CatalogUrns.OthersAreAskedFor` | libxml/catalog.c:2053-2073 | identifiers that are no URNs are asked of the catalogs in turn as they are, the public one normalised |
| `CatalogUrns.FirstCatalogAnswers` | libxml/catalog.c:2053-2073 | on any graph and after any earlier requests, a direct answer of the first catalog asked is the answer |
| `CatalogUrns.ResolveSystemUrn` | libxml/catalog.c:2029-2041 | any resolver whose first catalog has an entry for the public identifier behind a system URN answers the URN with it |
| `CatalogUrns.ResolvePublicUrn` | libxml/catalog.c:2012-2028 | the same for a public URN |
| `CatalogUrns.ResolveSystemUrnBeside` | libxml/catalog.c:2042-2046 | beside a public identifier the system URN is answered by the system entry for what it stands for, or by the public entry if both say the same |
| `CatalogUrns.ResolveAlike` | libxml/catalog.c:2040-2041 | a new resolver gives one answer to a system URN and to its public identifier, whatever its catalogs are, where no file refers back to itself |
| `CatalogModel.LongestRewrite` | libxml/catalog.c:1660-1667 | the earliest of the longest matching rewriteSystem entries with a start string that is not empty |
| `CatalogMeaning.LongestRewriteWins` | libxml/catalog.c:1679-1688 | else the longest rewriting rule does, with the remainder appended |
| `CatalogMeaning.SilentIff` | libxml/catalog.c:1622-1838 | a file answers nothing exactly if no entry matches either identifier and no next catalog answers |
| `CatalogMeaning.DelegatesCut` | libxml/catalog.c:1690-1734 | matching system delegates with nothing better decide alone: the first answer they give for the system identifier, or a cut |
| `CatalogMeaning.PublicDelegatesCut` | libxml/catalog.c:1772-1813 | matching public delegates do so for the public identifier, where the system identifier is not mentioned |
| `CatalogMeaning.NextCatalogsDecide` | libxml/catalog.c:1814-1838 | a file that mentions neither identifier answers what its next catalogs answer, and cuts nothing |
| `CatalogMeaning.FirstAnswerDecides` | libxml/catalog.c:2053-2073 | catalogs are asked in order and the first answer counts; a cut stops all later ones |
| `CatalogMarks.AgedSystemPlanIff` | libxml/catalog.c:1449-1454 | marking entries whose file is missing changes what a list plans for a system identifier exactly if it has no exact and no rewriting entry for it, matching delegates none of which can be loaded, and no matching one is left unmarked |
| `CatalogMarks.AgedPublicPlanIff` | libxml/catalog.c:1449-1454 | likewise for a public identifier, without the rewriting entries |
| `CatalogMarks.SecondAskIff` | libxml/catalog.c:1690-1734 | asking a list a second time, after its loop has marked what it marks, is different exactly if the first time all matching delegates were missing with nothing before them, and none was passed over because its URL was remembered |
| `CatalogMarks.RepeatedIff` | libxml/catalog.c:1703-1708 | in a list of up to fifty entries one is passed over exactly if two matching ones have the same URL |
| `CatalogMarks.RepeatedDelegateStays` | libxml/catalog.c:1703-1708 | two delegates with one missing URL keep cutting the resolution |
| `CatalogMarks.DeadEndCutsOnce` | libxml/catalog.c:1690-1734 | with the matching delegates marked, the resolution goes on with the public identifier and the next catalogs |
| `CatalogState.AliveIsCalm` | libxml/catalog.c:1622-1838 | and whatever has been marked, it does so for identifiers that lead no file into a dead end |
| `CatalogFrames.RestoredIff` | libxml/catalog.c:1632-1638 | for any tree of frames the source could have started, no counter ends below its start, and all are back exactly if no frame took the early return after a next catalog |
| `CatalogFrames.RestoredUnlessMet` | libxml/catalog.c:1826-1837 | no frame takes that return, and all counters come back, unless some counter was raised past the limit; on any graph, cyclic or not |
| `CatalogFrames.RankedNeverMeets` | libxml/catalog.c:1632-1638 | where no file refers back to itself the limit is never met |
| `CatalogState.HeadroomShrinks` | libxml/catalog.c:1632-1638 | a counter that goes up brings the limit closer |
| `Catalog.ScanSystem` | libxml/catalog.c:1643-1678 | the first pass for a system identifier |
| `Catalog.ScanPublic` | libxml/catalog.c:1739-1771 | the first pass for a public identifier |
| `Catalog.ReduceOnce` | libxml/catalog.c:2009-2049 | one unwrapping step keeps the identifiers finally searched for and makes the measure smaller |
| `Catalog.Resolver.Fetch` | libxml/catalog.c:1404-1472 | the file of an entry, or the entry is marked broken |
| `Catalog.Resolver.XMLResolve` | libxml/catalog.c:1622-1838 | on every catalog graph, cyclic or not: it ends; a frame is started exactly up to the depth limit; each frame of the tree follows its plan, asks the catalogs of the plan in order for the final identifiers up to the first answer or cut and answers what the last of them did or the cut; the frames account for the counters exactly, which come back unless the limit is met; a URI is one that some file offers. On files that do not refer back to themselves and plan what they say the answer is their meaning |
| `Catalog.Resolver.ListXMLResolve` | libxml/catalog.c:1998-2074 | the same for a list of catalogs, whatever URNs the identifiers are: one file asked for the final identifiers, or the catalogs of the root list in order up to the first answer or a counter past the limit |
| `Catalog.Resolver.AskDelegates` | libxml/catalog.c:1690-1729 | asks the matching delegates in order up to the first answer, leaving out only repeats, and in a list of up to fifty entries all of these; if none answers, every missing one that is the first of its URL is marked, and if none can be loaded exactly those that were tried; where no file refers back to itself the repeats change no answer |
| `Catalog.Resolver.AskNexts` | libxml/catalog.c:1814-1834 | asks the next catalogs in order, all of them unless one answers or leaves the counter past the limit, which is when the early return is taken |
| `Catalog.Resolver.Resolve` | libxml/catalog.c:2848-2881 | the cut marker does not leave the resolver; on every graph the result is that of the last root catalog asked, explained by its tree of frames, and is offered by an exact or rewriting entry of some file for the identifiers finally searched for; the counters are back exactly if no frame took the early return; without cycles they always are, and the result is what the files mean, for a resolver that has marked nothing and for identifiers that lead into no dead end |
| `Catalog.Resolver.ResolveSystem` | libxml/catalog.c:2777-2799 | the same for a system identifier alone |
| `Catalog.Resolver.ResolvePublic` | libxml/catalog.c:2812-2834 | the same for a public identifier alone |
| `CatalogTrace.AskedElements` | libxml/catalog.c:1703-1708 | leaving out repeats leaves out no catalog, and nothing at all from a list without repeats |
| `CatalogRuns.SelfReference` | libxml/catalog.c:1826-1837 | a file that names itself as its next catalog: one request for any identifiers leaves its counter past the limit for good, and nothing is found from then on |
| `CatalogRuns.ResolveTwice` | libxml/catalog.c:1449-1454 | the same request twice with two results: the missing delegate cuts the first, and the second finds the answer behind it |
| `HtmlTags.CheckAutoClose` | libxml/HTMLparser.c:1295-1321 | whether the first row of the new tag lists the old one |
| `HtmlTags.GetEndPriority` | libxml/HTMLparser.c:1272-1280 | the priority of the table, or the default one |
| `HtmlTags.NothingCloses` | libxml/HTMLparser.c:1051-1144 | in the table of the parser no start tag closes html, body or div |
| `HtmlState.HeightIsLeast` | libxml/HTMLparser.c:1401-1421 | auto-closing takes the longest run of current elements that the new tag closes |
| `HtmlState.TargetIs` | libxml/HTMLparser.c:1332-1366 | the search finds the innermost element of the name unless one above it has a higher end priority |
| `HtmlParser.Context.NamePush` | libxml/HTMLparser.c:167-187 | the name is on top, and the first head or body is remembered |
| `HtmlParser.Context.NamePop` | libxml/HTMLparser.c:197-213 | the top name is gone, and the current name is the one below |
| `HtmlParser.Context.NodePush` | libxml/parser.c:1727-1754 | fails exactly when more than 256 nodes are open without the HUGE option, and then halts the parser |
| `HtmlParser.Context.AutoCloseOnEnd` | libxml/HTMLparser.c:1375-1386 | closes everything, innermost first |
| `HtmlParser.Context.AutoClose` | libxml/HTMLparser.c:1401-1421 | closes the current elements that the new tag closes, with their end events |
| `HtmlParser.AutoClosedTwice` | libxml/HTMLparser.c:4510-4515 | auto-closing twice is auto-closing once |
| `HtmlParser.Context.CheckImplied` | libxml/HTMLparser.c:1485-1539 | which of html, head and body are implied |
| `HtmlParser.Context.CheckParagraph` | libxml/HTMLparser.c:1553-1581 | a paragraph is implied exactly with an empty stack or in html or head |
| `HtmlParser.Context.StartTag` | libxml/HTMLparser.c:3707-3846 | implied elements, then the element itself unless it is a misplaced html, head or body, which is counted |
| `HtmlParser.Context.ParseElement` | libxml/HTMLparser.c:4366-4448 | the whole effect of a start tag with each of its endings, which concern the current element whichever it is |
| `HtmlParser.Context.AutoCloseOnClose` | libxml/HTMLparser.c:1332-1366 | closes what stands above the target of an end tag |
| `HtmlParser.Context.ParseEndTag` | libxml/HTMLparser.c:3874-3970 | the whole effect of an end tag |
| `HtmlParser.Context.ParseContent` | libxml/HTMLparser.c:4459-4615 | the loop over the content reaches the state of the run and stops early only when halted or after a turn that consumes nothing |
| `HtmlParser.Context.ParseDocument` | libxml/HTMLparser.c:4643-4760 | at the end of the input nothing is left open |
| `HtmlRuns.RunInStep` | libxml/HTMLparser.c:4366-4448 | after every run, for any auto-close and priority tables, both stacks hold what the events left open, every end event names the innermost open element, and the stacks agree unless a node found no room |
| `HtmlRuns.StacksAgreeIff` | libxml/SAX2.c:1636-1655 | the name stack and the node stack agree exactly if no start event of the run came with more than 256 nodes open and without the HUGE option, or everything is closed |
| `HtmlRuns.RunOfStartTags` | libxml/parser.c:1727-1754 | start tags that close nothing open one element each until 257 nodes are open; the next one has no node and halts the parser |
| `HtmlRuns.ManyDivs` | libxml/parser.c:1727-1754 | 258 times a div without implied tags: the stacks end up apart |
| `HtmlRuns.EndOfInputEmptiesBoth` | libxml/HTMLparser.c:1375-1386 | the end of the input empties both stacks, with proper end events |
| `HtmlRuns.StartsAndEndsBalance` | libxml/HTMLparser.c:4425-4428 | the start events are the end events, the start tags dropped for want of a closing bracket, and the elements still open |
| `HtmlRuns.RunTidy` | libxml/HTMLparser.c:1485-1539 | with implied tags on, after every run html is at the bottom and nowhere else, head only directly upon it, at most one body is open, and at most one head and one body were ever implied, never after an explicit one |
| `HtmlPlaces.RunPlaced` | libxml/HTMLparser.c:1485-1539 | with implied tags on, in every run: content and implied paragraphs start with a body or a head open or after a body; what belongs in the head starts directly in html only after a head or a body; html, head and body are implied only where they are due, and each is followed at once by what it was implied for, which for a body is never a frame tag |
| `HtmlPlaces.StartTagOpensIff` | libxml/HTMLparser.c:3707-3846 | a start tag opens its element upon all that is open, except an html that is not the first element, a head not directly in html and a body in a body, which are only counted |
| `HtmlPlaces.TextStands` | libxml/HTMLparser.c:1553-1581 | after text the current element is neither html nor head: it is the one before or, where that was one of these, a paragraph |
| `HtmlRuns.EndTagCutsIff` | libxml/HTMLparser.c:3874-3970 | an end tag cuts the stack below the innermost match exactly if no element above it has a higher priority and no discarded html, head or body is pending; else nothing changes |
| `HtmlRuns.AutoCloseSparesBody` | libxml/HTMLparser.c:1401-1421 | with the tables of the parser auto-closing leaves an open html or body and all below it alone |
| `HtmlRuns.EndTagSparesBody` | libxml/HTMLparser.c:1332-1366 | and so does the end tag of any element but html, head and body |
| `HtmlRuns.DiscardedTagKeepsIff` | libxml/HTMLparser.c:4407-4448 | the rest of a discarded start tag is taken for the element it stands in: that one stays open exactly if the tag ends in ">" and the element may have content; what goes otherwise, and with which events |
| `HtmlRuns.DiscardedPairIsNothingIff` | libxml/HTMLparser.c:3905-3912 | a discarded start tag and its end tag together do nothing exactly if the tag was counted once and left its surroundings alone |
| `Utf8.ReaderUndoesWriter` | libxml/HTMLparser.c:2607-2619 | the reader of UTF-8 gives back what the bit-shifting writer put in, whatever follows (RFC 3629, section 3) |
| `HtmlEncode.EntityValueLookup` | libxml/HTMLparser.c:1956-1968 | on an ordered table the early stop loses nothing |
| `HtmlEncode.EntityLookup` | libxml/HTMLparser.c:1933-1943 | the entity of a name, if there is one |
| `HtmlEncode.ReadChar` | libxml/HTMLparser.c:2109-2135 | the value and length of the next character, or that its bytes are none or cut short |
| `HtmlEncode.EncodeEntities` | libxml/HTMLparser.c:2090-2170 | on any bytes and any output size: whole characters are consumed, exactly their text is written within the size, and it stops only at the end, at bytes that are no character (-2) or when the next text does not fit |
| `HtmlEncode.HtmlIsSafeAscii` | libxml/HTMLparser.c:2137-2162 | the text is ASCII without the quote and without < and > |
| `HtmlEncode.ResumableEncoding` | libxml/HTMLparser.c:2090-2170 | calls with any output sizes that together consume the input write what one call writes |
| `HtmlEncode.OneCallSuffices` | libxml/HTMLparser.c:2090-2170 | on well-formed UTF-8 one call with room enough consumes everything |
| `HtmlReferences.TokenForms` | libxml/HTMLparser.c:2137-2162 | a character of ASCII without a meaning in HTML is its own text; any other is written by its name in the table or, without one, by its decimal numeral |
| `HtmlAttribute.AttributeRoundTrip` | libxml/HTMLparser.c:2533-2658 | followed by its quote, the encoded text of any XML characters is read as these characters, up to the quote |
| `HtmlReferences.NumericReference` | libxml/HTMLparser.c:3310-3369 | a reference by any numeral of a number, hexadecimal in either case or decimal, with leading zeros, with or without the semicolon, is read as the character of that number, or as 0 if there is none |
| `HtmlReferences.PlainTextStays` | libxml/HTMLparser.c:2533-2658 | a text in which no ampersand begins a numeric reference or an entity name with its semicolon is its own value |
| `HtmlReader.PutChar` | libxml/HTMLparser.c:2553-2565 | the writer writes the UTF-8 form of its character |
| `HtmlReader.Cursor.CurrentChar` | libxml/HTMLparser.c:415-500 | the character at the cursor and its length |
| `HtmlReader.Cursor.Next` | libxml/parserInternals.c:419-543 | the cursor moves by one whole character |
| `HtmlReader.Cursor.ParseCharRef` | libxml/HTMLparser.c:3310-3369 | the value of a reference, 0 if it is no character, and where the cursor stops |
| `HtmlReader.Cursor.ParseName` | libxml/HTMLparser.c:2453-2484 | the fast path for ASCII names reads the same longest name as the general one |
| `HtmlReader.Cursor.ParseNameComplex` | libxml/HTMLparser.c:2487-2518 | the bytes of the longest name at the cursor |
| `HtmlReader.Cursor.ParseEntityRef` | libxml/HTMLparser.c:2673-2708 | the name read and its entity; the semicolon is taken only with an entity |
| `HtmlReader.Cursor.ParseHTMLAttribute` | libxml/HTMLparser.c:2533-2658 | the value of the text up to the stop character, and a buffer that is never full |
| `HtmlReader.EncodedAttributeReadsBack` | libxml/HTMLparser.c:2533-2658 | what the encoder writes for some UTF-8, with the quote behind it, is parsed as exactly this UTF-8 |
| `Sax2Text.Element.NewText` | libxml/SAX2.c:1838-1890 | exactly which new texts are kept within the node, in the dictionary, or in a block of their own |
| `Sax2Text.Element.Characters` | libxml/SAX2.c:2508-2620 | a new text or the extended last one; nodelen is its length and nodemem exceeds it; a chunk that would exceed the limit is refused whole |
| `Sax2Text.Element.Append` | libxml/SAX2.c:2558-2600 | bytes are copied only behind the text in a block of its own, which has room; text in the dictionary or in the node is copied first |
| `Sax2Text.Element.Concat` | libxml/SAX2.c:2601-2608 | a text nothing is known about is concatenated and accounted for again |
| `Sax2Text.Run` | libxml/SAX2.c:2508-2620 | a run of callbacks with no other node in between makes one text |
| `Sax2Text.CoalescedIsJoinedIff` | libxml/SAX2.c:2574-2578 | that text is the concatenation of all chunks exactly if huge texts are allowed, the later chunks are empty or the total is within the limit |
| `Entities.EncodeEntitiesInternal` | libxml/entities.c:556-740 | the encoded text, byte by byte as the loop takes them, in a block that always has room, and what the document is taken for afterwards |
| `Entities.TurnIsShort` | libxml/entities.c:714-716 | no turn of the loop writes more than 10 bytes, so a reference fits its local buffer |
| `EntitiesRoundTrip.TurnOfChar` | libxml/entities.c:662-720 | well-formed UTF-8 is taken one character at a time |
| `EntitiesRoundTrip.EncodeThenResolve` | libxml/entities.c:556-740 | in a document without an encoding the text for any XML characters is pure ASCII and resolves, by sections 4.1 and 4.6 of XML 1.0, to these characters |
| `EntitiesRoundTrip.EncodingKeepsMode` | libxml/entities.c:692-712 | and the document is not taken for one in another encoding |
| `EntitiesRoundTrip.BytesResolve` | libxml/entities.c:633-660 | in a document with an encoding every byte beyond ASCII comes out as it is, in order, and the text resolves to the input |
| `EntitiesRoundTrip.ErrorFallsBack` | libxml/entities.c:667-717 | from the first byte that begins no character on, a document of unknown encoding is taken for ISO-8859-1: what comes before is written as characters, every byte from there on as the character of its number |

## Left out

- Allocation failure, error reports, mutexes, reference counts and the freeing of memory.
- C14nModel.SearchIndex: looks at declarations only, where xmlSearchNs also takes the namespace of an ancestor element itself; in a tree whose elements refer to declarations in scope that finds nothing more.
- C14nWalk.C14nContext.ExcProcessNamespacesAxis: the InclusiveNamespaces prefix list is empty.
- C14nWalk.C14nContext.ProcessAttrsAxis: Canonical XML 1.1 with its xml:base fix-up is not modelled.
- C14nWalk.C14nContext.ProcessNode: elements and text only; no comments, processing instructions and document nodes.
- C14nWalk.Execute: walks the document element, and tokens carry the raw strings, without the escaping of text and attribute values.
- Callbacks that hide namespace nodes or attributes apart from their element; the relative-namespace check of canonicalization is taken as passed, and declarations are compared by value, not by node identity.
- C14nContent.CanonDocuments: is stated for trees in which no element has two attributes of one expanded name, which is what XML asks; likewise in C14nWalk.Execute.
- C14nContexts.ExclusiveResolvesUtilizedPrefixes: is stated for trees in which elements and attributes refer to the declarations in scope, which is what the parser builds.
- Dict.Dictionary.QLookup: the fast key of a qualified name is a parameter.
- Dict.Dictionary.Owns: sub-dictionaries of sub-dictionaries are not modelled, here and in DictRuns.LookupAll; the random seed and the size limit are parameters.
- Buf.Buffer.Empty: immutable buffers, likewise in Buf.Buffer.Shrink and Buf.Buffer.Erase.
- Buf.Buffer.GrowInternal: a buffer without a block, likewise in Buf.Buffer.Grow and Buf.Buffer.Inflate.
- Buffer sizes beyond INT_MAX, xmlBufDetach and xmlBufAddLen.
- Loading catalog files: a fixed list of URLs with their entries stands for it, so the preference a file inherits from whoever loads it first is part of its entries.
- Catalog.Resolver.AskDelegates: in a list of more than fifty entries it is not said which repeats are asked again.
- Catalog URI resolution (its depth counter is tested but never raised), SGML catalogs, and the order of delegates by length (the list is never sorted).
- HTML tokenizing: runs are over tags, text, control characters and turns that consume nothing as the content loop sees them; scripts, comments, doctypes, attributes, node positions and push mode leave the stacks alone or repeat the same steps.
- The node tree: the node stack holds element names in place of nodes.
- The 253 entities of HTML 4 and the character classes of chvalid.c are parameters; of the table it is required that values ascend, names differ and names consist of ASCII letters and digits, which its text in HTMLparser.c:1620-1905 shows.
- HtmlReader.Cursor.CurrentChar: input that is not UTF-8, for which the parser switches to another encoding; likewise in Cursor.Next.
- HtmlReader.Cursor.ParseCharRef: the reference value is unbounded; the overflow of a C int on over-long references is undefined in the source.
- Sax2Text.Element.Characters: the overflow of the int nodemem for huge texts beyond 2 GB, and the checks against SIZE_T_MAX.
- Entities.EncodeEntitiesInternal: HTML documents, and leading bytes at the very end of the string, behind which the source reads past its terminator.
- xmlEncodeSpecialChars, an easier encoder of the same kind.
