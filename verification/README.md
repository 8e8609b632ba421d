# A verified model of the SaWa/ToWa server core

The project models three parts of the server and proves properties of them.

**The XML engine** (`server/tinyxml2.cpp`, `server/tinyxml2.h`). The parser works on
a copy of the text, in one buffer. Names and values stay where they are, as pairs
of pointers; their text is decoded and terminated in place when it is first asked
for, which for names happens while the parser is still reading. The project follows
that code with arrays, cursors and counters, specifies it by functions of the
original text, and proves about those functions

- what the in-place decoder computes (`Decoding`, `CharRef`, `Utf8`, `Whitespace`,
  `StrPairs`), and exactly when that is what XML 1.0 makes of the text, by a decoder
  with line ends and references of its own (`Intended`);
- that the parser accepts exactly the texts of a declarative grammar, builds exactly
  the tree of the derivation, and refuses every other text with exactly the error and
  line of its first flaw (`Grammar`, `Documents`, `Derivation`, `Failures`);
- that reading names during the parse, and everything else afterwards in any order,
  never disturbs another string, and returns for each what a string of its kind stands
  for (`Spans`, `LazyReads`, `Readings`);
- that printing in compact mode and parsing again gives the same tree (`Escape`,
  `XmlTree`, `RoundTrip`, `Printer`, `DynArrays`);
- the heap: the doubly linked tree with the list of nodes in no tree and the pools
  they are counted in (`Dom`), deep copies (`DomCopy`), the nodes a parse makes,
  links and deletes (`DomParse`), the slot allocator (`MemPools`).

**The thread pool** (`server/thread_pool.cpp`). The hand-off between one accepting
thread and any number of workers is a state machine over atomic steps (`ThreadPool`);
`Run` executes any schedule. One statement of the code is one step where another
thread could see the difference. A pending SIGUSR1 is a flag, as a signal that is
pending already is not queued again. The two linked lists are also modelled as
objects (`ThreadLists`).

**The block server** (`server/sawa_srv.cpp`, `sawa.c`). Frames on a socket become
requests; requests are served from a file with 32-bit arithmetic (`BlockStore`). The
reference is one array of bytes. `BlockDriver` has the frames the kernel driver
builds.

## Conventions

- A byte of XML text is a `char`; results hold for all characters, those below 256
  being the bytes. A text never read past its end is given a NUL there (`At`).
- Line numbers are specified as one plus the line feeds before a position of the
  original text (`LineAt`); the parser's running counter is proved equal to it at
  every position where the code stops, through the rewind of `Identify` and after
  flushes that overwrite line feeds.
- Integers are unbounded; every wrap-around of the source is written out.
- Methods of `XMLNode` work on `this`; in `Dom` the node is the parameter `parent`.
- The parser's depth limit, error codes and error lines are those of the code.

## Where the code and its description differ

The model follows the code.

- An ampersand that starts no entity or reference moves the write pointer without
  writing. It survives if and only if an ampersand stands under the write pointer
  (`Decoding.InPlaceDecodes`); `Decoding.StrayAmpersandIsLost` has a string where none does.
- Digits of a reference are read back to the nearest mark, nothing need stand between
  the marks, and `&#` at the end of a text loses its ampersand. `Intended.MeantRef` reads
  references as section 4.1 of XML 1.0 spells them; `Intended.ReadAsMeant` says exactly
  when the code agrees. It does not on `a&#`, `&#12#3;` and `&#;` (`Intended.LoneMarkIsLost`,
  `Intended.LaterMarkIsTaken`, `Intended.EmptyReferenceIsNul`).
- A decimal reference keeps its value if and only if that is below 5000000000, a
  hexadecimal one if and only if it is below 2^32 (`CharRef.ValueIsExact`); `5000000000` is
  read as 705032704 (`CharRef.FiveBillionIsLost`).
- LF CR becomes one LF as well as CR LF. Line ends come out as section 2.11 of XML 1.0
  has them if and only if no maximal alternating run of CR and LF starts with LF and
  ends with CR (`Intended.NormalisesLineEnds`); LF CR does not, LF CR LF does
  (`Intended.LineFeedReturn`, `Intended.LineFeedReturnLineFeed`).
- Put together, `Intended.MeetsMeaning` and `Intended.ReturnsMeaning` say for every text
  when GetStr returns what the text means; otherwise the result is never longer.
- An end tag at document level ends the parse without an error, and `</a/>` is read
  as an element that closes itself.
- `checkValidRequest` adds in 32 bits, so a request whose end wraps around to a small
  value is accepted (`BlockStore.GuardIsRangeCheck`, `BlockStore.WrappingRequestIsAccepted`).
- `InsertAfterChild` follows a null pointer when the node to insert is both the last
  child and the one right after `afterThis`; the precondition `MayFollow` excludes
  exactly that (`Dom.XMLDocument.StaysBefore`).
- The server drops a connection on a frame longer than 32768 bytes, which is what the
  driver sends for 64 sectors or more (`BlockDriver.LongWritesAreDropped`).

## Model

| member | source | states |
|---|---|---|
| XmlChars.CharacterClasses | server/tinyxml2.h:570-592 | white space, the characters that start a name and those that continue it, by code |
| XmlChars.LineIsCount | server/tinyxml2.h:554-565 | the line of a position is one plus the line feeds before it |
| Utf8.DecodeLayout | server/tinyxml2.cpp:403-453 | the 1 to 4 byte layout of section 3 of RFC 3629 is inverted, for every value below 0x200000, by a decoder that refuses overlong sequences; above, the layout is empty |
| Utf8.OnlyLayout | server/tinyxml2.cpp:403-453 | the layout is the only byte sequence that decodes to its value |
| Utf8.LayoutLength | server/tinyxml2.cpp:409-423 | one octet exactly up to 0x7F, which it equals, two up to 0x7FF, three up to 0xFFFF, four up to 0x1FFFFF |
| Utf8.MasksAreArithmetic | server/tinyxml2.cpp:430-449 | the masks and shifts of the code are the remainders and quotients of the model |
| Utf8.ConvertUTF32ToUTF8 | server/tinyxml2.cpp:403-453 | the fall-through from the last byte to the first writes exactly the layout and returns its length |
| CharRef.ValueIsExact | server/tinyxml2.cpp:482-542 | the wrapping right-to-left sum is the positional value of the digits if and only if that is below 2^32 in base 16, below 5000000000 in base 10, for any number of digits |
| CharRef.FiveBillionIsLost | server/tinyxml2.cpp:514-542 | `5000000000` is summed up to 705032704 |
| CharRef.HexKeepsLowWord | server/tinyxml2.cpp:485-508 | for any number of hexadecimal digits the sum is the value modulo 2^32 |
| CharRef.DigitsInOrder | server/tinyxml2.cpp:490-500 | the digits of base 16 in either case, and those of base 10, and the value of each |
| CharRef.ExactReference | server/tinyxml2.cpp:456-549 | a reference spelled with at most 8 hexadecimal or 9 decimal digits is the UTF-8 layout of the value it names, and consumes exactly its own text |
| CharRef.ShortOutput | server/tinyxml2.cpp:309-325 | a reference never yields more bytes than it consumes |
| CharRef.CharacterRef | server/tinyxml2.cpp:456-549 | a successful reference ends inside the text and yields no more bytes than it consumes |
| CharRef.SumDigits | server/tinyxml2.cpp:482-542 | the backward loop succeeds exactly when all characters back to the nearest mark are digits, and then returns their wrapped sum |
| CharRef.Strchr | server/tinyxml2.cpp:475-480 | the search finds the first semicolon before the terminator, if there is one |
| CharRef.GetCharacterRef | server/tinyxml2.cpp:456-549 | on a buffer whose unread part is the text, returns the bytes and the next position of the specification, or null |
| Whitespace.CollapsedIsTidy | server/tinyxml2.cpp:238-264 | the collapsed text has no leading, trailing or doubled space, its words are those of the text, and collapsing again changes nothing |
| Whitespace.CollapsedKeepsInk | server/tinyxml2.cpp:238-264 | collapsing keeps exactly the characters that are not white, in order, with a gap between two of them exactly where white space stood |
| Whitespace.WordsOfJoin | server/tinyxml2.cpp:238-264 | joining words with single spaces and splitting again gives the same words in the same order |
| Whitespace.SkipWhiteSpace | server/tinyxml2.h:554-565 | stops at the first character that is not white space |
| Whitespace.SqueezeInPlace | server/tinyxml2.cpp:244-262 | the two-pointer loop leaves the squeezed text at the write pointer and touches nothing else |
| Whitespace.CollapseWhitespace | server/tinyxml2.cpp:238-264 | from the new start the buffer holds the words of the old text joined by single spaces and terminated; bytes outside the text are unchanged |
| Decoding.InPlaceDecodes | server/tinyxml2.cpp:272-355 | working in place leaves what the same steps would write into a text of their own if and only if every unrecognised ampersand finds an ampersand under the write pointer; both have the same length |
| Decoding.StrayAmpersandIsLost | server/tinyxml2.cpp:341-345 | for `&lt;&x` the loop yields `<lx` instead of `<&x` |
| Intended.ReadAsMeant | server/tinyxml2.cpp:456-549 | the code takes the text behind `&#` for the reference that section 4.1 of XML 1.0 makes of it, or for none, if and only if something follows the mark, the body up to the first semicolon is not empty, no later mark in it is followed by digits only, and a body of digits has a value below 0x200000; otherwise the code sees a reference where none is |
| Intended.MistakenIsShorter | server/tinyxml2.cpp:303-326 | what the code makes of a mistaken reference, with the meaning of the rest, is shorter than the meaning of the text |
| Intended.ReadingCompares | server/tinyxml2.cpp:277-353 | read from left to right, from any position, the text yields its meaning if and only if no reference and no run of line ends behind that position is mistaken, and a strictly shorter text otherwise |
| Intended.MeetsMeaning | server/tinyxml2.cpp:267-365 | for every text and all flags: the loop leaves what sections 2.11, 4.1 and 4.6 of XML 1.0 make of the text if and only if no reference is mistaken, no maximal run of line ends goes from LF to CR, and every unrecognised ampersand finds an ampersand under the write pointer |
| Intended.ReturnsMeaning | server/tinyxml2.cpp:267-365 | without white-space collapsing, the string returned is the meaning of the text if and only if the same condition holds and the meaning holds no NUL |
| Intended.WellFormedIsMeant | server/tinyxml2.cpp:303-347 | for text in which every ampersand starts a reference or a predefined entity the line ends alone decide |
| Intended.NormalisesLineEnds | server/tinyxml2.cpp:280-302 | text read for its line ends only comes out as section 2.11 has it if and only if no maximal alternating run of CR and LF starts with LF and ends with CR |
| Intended.LoneMarkIsLost | server/tinyxml2.cpp:461 | `a&#` yields `a#` |
| Intended.LaterMarkIsTaken | server/tinyxml2.cpp:514-542 | `&#12#3;` yields the character 3, although it is no reference |
| Intended.EmptyReferenceIsNul | server/tinyxml2.cpp:514-542 | `&#;` yields a NUL, and an empty string is returned |
| Intended.LineFeedReturn | server/tinyxml2.cpp:291-302 | LF CR yields one LF instead of two |
| Intended.LineFeedReturnLineFeed | server/tinyxml2.cpp:291-302 | LF CR LF yields the two that are meant |
| StrPairs.MatchEntity | server/tinyxml2.cpp:328-340 | the table search finds the predefined entity spelled behind the ampersand, if any |
| StrPairs.DecodeStep | server/tinyxml2.cpp:277-353 | one turn of the loop writes the specified piece at the write pointer and leaves the unread text alone |
| StrPairs.DecodeInPlace | server/tinyxml2.cpp:272-355 | the whole loop, on the buffer it overwrites, leaves the specified in-place result and a terminator |
| StrPairs.Flush | server/tinyxml2.cpp:267-365 | afterwards the C string at the new start is the value of the old text; no byte outside the closed range changes |
| StrPairs.StrPair.GetStr | server/tinyxml2.cpp:267-365 | returns the logical value, never moves left or past the end, and a second call changes nothing |
| StrPairs.StrPair.Set | server/tinyxml2.h:152-159 | the pair waits to be decoded and its logical value is that of the text between its pointers |
| StrPairs.GetOne | server/tinyxml2.cpp:267-365 | reading one of many pairs with disjoint closed ranges leaves the logical value of every pair, read or not, as it was |
| StrPairs.GetInOrder | server/tinyxml2.cpp:267-365 | any sequence of reads, with repetitions, returns the same strings |
| Escape.NoDelimiters | server/tinyxml2.cpp:2485-2537 | neither entity set lets a `<` or a `>` through, the full set no quote either |
| Escape.Spellings | server/tinyxml2.cpp:2412-2424 | the five entities as printed; a character prints as itself if and only if it is none of the three escaped in text, or none of the five escaped in attribute values |
| Escape.EscapedConcat | server/tinyxml2.cpp:2485-2537 | characters are escaped one by one |
| Escape.EscapeInverse | server/tinyxml2.cpp:2485-2537 | decoding what PrintString writes gives back every string without NUL and CR, for both sets |
| Escape.PlainInverse | server/tinyxml2.cpp:267-365 | a body printed as it is survives newline normalisation |
| Grammar.FindsFirst | server/tinyxml2.cpp:193-215 | the terminator is found where it first starts; it is not found exactly when the text ends before it starts |
| Grammar.ParseItem | server/tinyxml2.cpp:988-1090 | every node or end tag read moves the cursor of the node loop strictly forward, although the parser rewinds and backs up over a text |
| Grammar.MarkIsSkipped | server/tinyxml2.cpp:2374-2381 | parsing starts behind leading white space and the bytes EF BB BF, if these stand there |
| Documents.XMLDocument.Identify | server/tinyxml2.cpp:656-723 | recognises the kind of node by its opening, rewinds for text, and reports the line of the first character that is not white space |
| Documents.XMLDocument.ParseText | server/tinyxml2.cpp:193-215 | finds the terminator and advances the line counter to the position reached |
| Documents.XMLDocument.ParseName | server/tinyxml2.cpp:218-235 | reads the longest name, if one starts here |
| Documents.XMLDocument.ParseAttributes | server/tinyxml2.cpp:1805-1862 | agrees with the specification on attributes, end and errors; flushes exactly the names it compared |
| Documents.XMLDocument.ReadElement | server/tinyxml2.cpp:1888-1913 | name, attributes, children and closing type of an element, with the flushes made on the way |
| Documents.XMLDocument.ParseElement | server/tinyxml2.cpp:1047-1088 | an end tag is handed to the parent; a start tag must have met an end tag of equal name, or the error is that of Failures.RejectsWhatFails |
| Documents.XMLDocument.ParseDeep | server/tinyxml2.cpp:988-1090 | nodes, end tag, errors, line counter and flushed positions are those of the specification; the depth is the same again afterwards |
| Documents.XMLDocument.PushDepth | server/tinyxml2.cpp:2387-2393 | the depth stays within 100, and reaching 100 is an error at the current line |
| Documents.XMLDocument.Parse | server/tinyxml2.cpp:2371-2385 | for every text: the error and its line, or the tree, of ParseDocument, which Failures.RejectsWhatFails and Derivation.ParsesWhatIsDerived characterise; exactly the ends of the compared names have been overwritten; the line counter is that of the position reached, behind an end tag or at the end of the text; the depth is 0 again |
| Derivation.ParsesWhatIsDerived | server/tinyxml2.cpp:988-1090 | the parser accepts a text with a tree if and only if the tree is a derivation of the text: well nested, equal names on both tags (element type match, section 3.1 of XML 1.0), distinct attribute names, declarations first, depth within the limit, stopping at the end or at an end tag |
| Derivation.DerivationIsUnique | server/tinyxml2.cpp:988-1090 | a text has at most one derivation |
| Derivation.AttributesComplete | server/tinyxml2.cpp:1805-1862 | every list of attributes with distinct names that is laid out in the text is the one the parser reads |
| Failures.Openings | server/tinyxml2.cpp:663-714 | each kind of node is recognised by exactly its opening characters |
| Failures.RejectsWhatFails | server/tinyxml2.cpp:988-1090 | the parser reports an error and a line if and only if derived nodes are followed by a flaw of that error on that line: an unterminated comment, CDATA section, declaration, unknown or text; a text with nothing behind its '<'; a misplaced declaration; a tag without name; a malformed or repeated attribute; nothing behind a start tag; an element without end tag or with one of another name; the depth limit of 100; any of these inside an element; or an empty document |
| Failures.DerivedOrFails | server/tinyxml2.cpp:2371-2385 | every text is derivable or fails, not both, and fails with one error on one line |
| Spans.NodesLaid | server/tinyxml2.cpp:193-235 | the closed ranges of all strings of the nodes read are disjoint, ascending, and within the text consumed |
| LazyReads.FlushedEnds | server/tinyxml2.cpp:1826 | every byte flushed during a successful parse is the end of one of the strings |
| LazyReads.TextsIntact | server/tinyxml2.cpp:1077 | so no flush touches a byte that is still to be read |
| LazyReads.ParseThenRead | server/tinyxml2.cpp:193-365 | after a successful parse any sequence of reads returns for each string the value of the original text between its pointers |
| Readings.EachStandsFor | server/tinyxml2.cpp:1136-1160 | for every accepted text and all options: names are read as they stand; comments, CDATA sections, declarations and unknowns with their line ends normalised only; attribute values and texts by their meaning, or with line ends normalised if entities are off; texts collapsed if asked for; each exactly under the condition of Intended |
| Readings.StringsOfTree | server/tinyxml2.cpp:193-365 | the strings of an accepted text are, in document order, those of the tree the accessors show, an end tag repeating the name of its element |
| Readings.StringsOfPrinted | server/tinyxml2.cpp:2485-2826 | those of a printed document are its names, attribute names and values, bodies and closing names |
| Readings.ReadPrinted | server/tinyxml2.cpp:193-365 | printing, parsing and then reading all strings in order on the buffer returns them |
| RoundTrip.PrintThenParse | server/tinyxml2.cpp:2485-2826 | printing a printable document in compact mode and parsing it succeeds and reads back as the same document: names, ordered attributes, texts, CDATA, comments, declarations, unknowns |
| RoundTrip.NodesDerive | server/tinyxml2.cpp:2779-2826 | the printed text of a list of printable nodes, wherever it stands in a document, derives a tree that reads back as that list |
| XmlTree.PrintConcat | server/tinyxml2.cpp:2308-2317 | nodes are printed one behind the other |
| XmlTree.PrintedLeaves | server/tinyxml2.cpp:2662-2767 | a comment, declaration, unknown, CDATA section and text, character by character |
| XmlTree.WhatIsPrintable | server/tinyxml2.cpp:2485-2826 | the nodes the round trip is for, kind by kind |
| XmlTree.WhichDocuments | server/tinyxml2.cpp:2485-2826 | and the documents: texts inside elements and not adjacent, declarations first, depth under the limit |
| DynArrays.DynArray.EnsureCapacity | server/tinyxml2.h:300-314 | contents survive reallocation; the elements ever copied never exceed the capacity, and the capacity never exceeds the larger of the initial size and twice the largest size |
| DynArrays.DynArray.PushArr | server/tinyxml2.h:230-237 | makes room behind the old contents, which stay |
| DynArrays.DynArray.SwapRemove | server/tinyxml2.h:279-284 | removes one element: the multiset of the others is kept |
| Printer.XMLPrinter.Write | server/tinyxml2.cpp:2451-2461 | overwriting the terminator appends the data: the buffer is all text written and one NUL |
| Printer.XMLPrinter.PrintString | server/tinyxml2.cpp:2485-2537 | runs and entities together append the escaped string |
| Printer.XMLPrinter.CloseElement | server/tinyxml2.cpp:2624-2650 | appends `/>` or the end tag of the element opened last, which leaves the stack |
| Printer.XMLPrinter.Accept | server/tinyxml2.cpp:1956-1967 | visiting a node appends its printed form, with or without entities, behind the sealed tag it stands in, and leaves the element stack as it was |
| Printer.XMLPrinter.PrintDocument | server/tinyxml2.cpp:2308-2317 | the buffer ends up as the printed document, with or without entities, and one NUL |
| MemPools.MemPool.Alloc | server/tinyxml2.h:373-397 | hands out a slot that is not live, the head of the free list or of a new block; counters and high-water mark follow |
| MemPools.MemPool.Free | server/tinyxml2.h:399-410 | a live slot becomes the head of the free list; nothing else becomes free |
| MemPools.MemPool.Clear | server/tinyxml2.h:353-364 | nothing is live and all counters are zero |
| MemPools.MemPool.AllSlotsAccountedFor | server/tinyxml2.h:345-456 | live slots and free list together are all slots: current allocations plus length of the free list is blocks times items per block |
| MemPools.PeakIsHighest | server/tinyxml2.h:390-393 | the recorded maximum bounds every usage since the last clear and was reached |
| Dom.XMLDocument.Unlink | server/tinyxml2.cpp:804-825 | removes exactly the child from its parent's children; shape and ancestry of all nodes stay consistent |
| Dom.XMLDocument.InsertEndChild | server/tinyxml2.cpp:841-868 | the children become the old ones without the node, and then the node; its old parent loses it, nobody else changes; another document's node is refused |
| Dom.XMLDocument.InsertFirstChild | server/tinyxml2.cpp:871-899 | the same, in front |
| Dom.XMLDocument.InsertAfterChild | server/tinyxml2.cpp:902-935 | the same, right after `afterThis`; nothing happens if that is not a child, or is the node itself |
| Dom.XMLDocument.StaysBefore | server/tinyxml2.cpp:924-932 | `afterThis` still has a next sibling after the node is unlinked if and only if the node is not both its next sibling and the last child |
| Dom.XMLDocument.AncestorsMakeCycles | server/tinyxml2.cpp:866-867 | a node linked under itself or under a node below it is on a cycle of parents, which no forest has: the precondition of the insertions is what the invariant needs |
| Dom.XMLDocument.InsertChildPreamble | server/tinyxml2.cpp:1107-1119 | takes the node out of its tree or off the unlinked list, and then counts it as tracked |
| Dom.XMLDocument.MarkInUse | server/tinyxml2.cpp:2026-2037 | removes exactly the given entry of the unlinked list |
| Dom.XMLDocument.NewNode | server/tinyxml2.h:1927-1938 | a fresh node in no tree, counted in its pool and listed as unlinked |
| Dom.XMLDocument.PoolsByKind | server/tinyxml2.cpp:686-713 | elements and texts have a pool each, all other kinds share one |
| Dom.XMLDocument.DeleteDetached | server/tinyxml2.cpp:1092-1105 | removes the node and all below it and nothing else; counters follow |
| Dom.XMLDocument.DeleteChildren | server/tinyxml2.cpp:794-801 | terminates with no children left, everything else as it was |
| Dom.XMLDocument.DeleteChild | server/tinyxml2.cpp:828-838 | removes the child's subtree from the live nodes and the child from the children |
| Dom.XMLDocument.DeleteNode | server/tinyxml2.cpp:2141-2156 | the same for a node in the tree or in none |
| Dom.XMLDocument.Clear | server/tinyxml2.cpp:2039-2070 | terminates with only the document left, nothing unlinked, and all pool counters zero |
| Dom.XMLDocument.LinksAgree | server/tinyxml2.cpp:804-935 | next and previous are mutually inverse among siblings, first and last child are the ends, no node is below itself |
| Dom.XMLDocument.OwnershipPartition | server/tinyxml2.cpp:1107-1119 | every live node but the document either has a parent or is listed as unlinked exactly once |
| Dom.XMLDocument.PoolsCountNodes | server/tinyxml2.cpp:2056-2069 | each pool's current allocations are its live nodes and its untracked count its entries of the unlinked list; together they account for all nodes |
| DomCopy.SetAttribute | server/tinyxml2.cpp:1758-1783 | a known name gets the new value in place, a new one goes to the end; names stay distinct |
| DomCopy.ShallowClone | server/tinyxml2.cpp:1917-1927 | a fresh node of equal kind, value, CDATA flag and attributes in order; null for a document |
| DomCopy.DeepClone | server/tinyxml2.cpp:781-792 | fresh nodes isomorphic to the subtree in content and child order, in no tree; the nodes of both documents stay as they were, also when they are the same document |
| DomCopy.DeepCopy | server/tinyxml2.cpp:2073-2084 | whatever the target held, its nodes are afterwards exactly an isomorphic image of the source's tree; the source is unchanged |
| DomCopy.SiblingsApart | server/tinyxml2.cpp:781-792 | the subtrees of different children have no node in common |
| DomParse.MakeAndDelete | server/tinyxml2.cpp:1056-1062 | the node of an end tag is made and deleted at once: one node more has been made, and the live nodes, their places and the unlinked nodes are those of before |
| DomParse.LinkNode | server/tinyxml2.cpp:1010-1088 | a node of the derivation, with everything below it, becomes the last child of its parent; no other node moves, no node is left unlinked, as many fresh nodes come from each pool as the derivation has of its kinds, and one more is made for each end tag |
| DomParse.LinkAll | server/tinyxml2.cpp:988-1090 | the whole loop: the children are fresh nodes that stand for the derived nodes in order, in kind, value, attributes and children all the way down |
| DomParse.Parse | server/tinyxml2.cpp:2371-2385 | for every text accepted, whatever the document held: the tree of the heap is exactly the derivation, the document stays valid, nothing is unlinked, each pool counts the nodes of its kinds, and the nodes made are those and one for each end tag |
| DomParse.ShownOnce | server/tinyxml2.cpp:988-1090 | a node of the heap stands for one tree only |
| DomParse.ContentReads | server/tinyxml2.cpp:988-1090 | the node made for a tree has its kind, name or body, CDATA flag, and its attributes in order |
| DomParse.ParsePrinted | server/tinyxml2.cpp:2308-2317 | parsing the compact print of a printable document leaves a heap that shows that document |
| ThreadPool.TestDecides | server/thread_pool.cpp:100-129 | over all schedules: the emptiness test made for a connection decides which thread it goes to; a thread is made for it only if the idle list was empty then, and otherwise it goes to one of those there were |
| ThreadPool.NextConnection | server/thread_pool.cpp:32-129 | a connection that arrives when everything is quiet goes, however the threads interleave, to the thread released last, which ends up on top of the idle list again; only if there is no thread is one made |
| ThreadPool.ThreadsGoRound | server/thread_pool.cpp:32-47 | a thread serves, gives up its socket, pushes itself on the idle list under the lock, and waits, in this order |
| ThreadPool.ThreadIsMade | server/thread_pool.cpp:66-85 | a new thread serves the connection it was made for, counts it, and is linked to the thread made before it |
| ThreadPool.RunInv | server/thread_pool.cpp:32-129 | the invariant of the pool holds after every schedule of the acceptor and any number of workers |
| ThreadPool.NeverPopsNull | server/thread_pool.cpp:104-110 | the unlocked emptiness test never leads to popping a null thread |
| ThreadPool.IdleThreadsAreIdle | server/thread_pool.cpp:88-129 | the idle list has no duplicates, and its threads serve nothing |
| ThreadPool.WakeUpsAreNotMerged | server/thread_pool.cpp:116-118 | a signal is only sent to a thread with none pending |
| ThreadPool.CountersAddUp | server/thread_pool.cpp:59-115 | back in accept, the connection counters add up to the connections accepted, each given to exactly one thread |
| ThreadPool.QuiescentMeansServed | server/thread_pool.cpp:32-129 | when nothing more can happen, every connection has been served once by its thread and every thread is idle: no wake-up is lost, nobody deadlocks |
| ThreadPool.ArrivalsAreServed | server/thread_pool.cpp:32-129 | between two arrivals only a bounded number of steps can be taken, in whatever order, before the pool is quiescent |
| ThreadLists.ThreadPool.NewThread | server/thread_pool.cpp:66-85 | the new thread gets the next number and becomes the head of the list of all threads |
| ThreadLists.ThreadPool.ReleaseThread | server/thread_pool.cpp:88-97 | pushes the thread on the idle list |
| ThreadLists.ThreadPool.ReuseThread | server/thread_pool.cpp:100-121 | pops the head of the idle list, if any, and counts the connection |
| ThreadLists.ThreadPool.HandleNewConnection | server/thread_pool.cpp:124-129 | the connection goes to the idle thread released last, or to a new one |
| ThreadLists.ThreadPool.SerializeThreadStats | server/thread_pool.cpp:186-196 | filling the buffer backwards puts the statistics of the k-th thread in slot k |
| ThreadLists.ThreadPool.GetThreadStatistics | server/thread_pool.cpp:198-212 | one slot per thread, in order of creation, with the size in bytes |
| BlockStore.IntRoundTrip | server/sawa_srv.cpp:95-100 | writing a 32-bit integer low byte first and reading it back is the identity |
| BlockStore.BytesRoundTrip | server/sawa_srv.cpp:95-100 | and so is reading four bytes and writing them back |
| BlockStore.FrameFormat | server/sawa_srv.cpp:81-142 | a frame is a size, low byte first, of at most 32768, and that many bytes, the first of which is 1, 2 or 3 for information, read and write |
| BlockStore.ReplyBytes | server/sawa_srv.cpp:20-79 | the bytes sent for information, reads and writes, within the disk and beyond it |
| BlockStore.OverwrittenBytes | server/sawa_srv.cpp:58-79 | the bytes of a file after a write, one by one |
| BlockStore.ColumnsCount | server/sawa_srv.cpp:81-113 | the three statistics columns grow by the number of requests for information, reads and writes |
| BlockStore.GuardIsRangeCheck | server/sawa_srv.cpp:29-37 | the guard is the range check if and only if offset plus size does not wrap around to a value within the limit, that is, to one in 2^32 .. 2^32 + limit |
| BlockStore.WrappingRequestIsAccepted | server/sawa_srv.cpp:32 | a one-byte write at the last 32-bit offset is accepted and out of range |
| BlockStore.SawaServer.CheckValidRequest | server/sawa_srv.cpp:29-37 | accepts or sends the refusal |
| BlockStore.SawaServer.ReadFile | server/sawa_srv.cpp:39-56 | sends the bytes of the file, or the refusal |
| BlockStore.SawaServer.WriteFile | server/sawa_srv.cpp:58-79 | overwrites the bytes at the offset, extending the file if need be, or refuses |
| BlockStore.SawaServer.ProcessRequest | server/sawa_srv.cpp:81-113 | a request that the guard judges rightly, which by GuardIsRangeCheck is every one whose end does not wrap around to a position within the limit, is served as on one array of bytes |
| BlockStore.SawaServer.ReadData | server/sawa_srv.cpp:116-142 | any concatenation of well-formed frames behaves as its requests, one after another, on one array of bytes, unless the end of one wraps around to a position within the limit; replies and statistics follow |
| BlockStore.ReadsSeeLatest | server/sawa_srv.cpp:39-79 | a read returns for each byte what the latest accepted write to it wrote, or its initial value; rejected requests change nothing |
| BlockDriver.FrameBytes | sawa.c:109-169 | the frames of a read and of a write of one sector, byte by byte |
| BlockDriver.EncodeRead | sawa.c:148-169 | the 13 bytes of a read frame |
| BlockDriver.EncodeWrite | sawa.c:109-131 | the frame of a write, with its payload |
| BlockDriver.DriverRequests | sawa.c:109-169 | the server decodes any run of in-range driver frames, writes of at most 63 sectors, to exactly the requests meant, each within the disk and judged rightly by the guard |
| BlockDriver.LongWritesAreDropped | server/sawa_srv.cpp:127 | a write of 64 sectors or more, and all that follows it on the connection, is not served |
| BlockDriver.SectorsReadBack | sawa.c:109-169 | a sector read after any run of driver requests returns, byte for byte, the latest data written to it |

## Left out

- Pretty printing: indentation is not modelled; the round trip holds in compact mode.
- Whitespace mode COLLAPSE is part of the decoder and of the lazy reads; the round trip is for the default mode, with entities processed.
- RoundTrip.PrintThenParse: documents with text outside all elements are not printable here; the parser reads such text back only if markup follows it.
- Owned strings (`SetStr`, `SetInternedStr`, `TransferTo`, NEEDS_DELETE): pairs here always point into the parse buffer; in `DomCopy` a value is a string.
- The parser of `Documents` returns its tree as a value; `DomParse` makes the nodes of that tree in the order of the code, but behind the recognition instead of in step with it.
- Error paths of the parser leave untracked nodes behind; the ownership results are for the operations on the tree and for parses without errors, not for aborted parses.
- Dom.XMLDocument.Clear: attributes are a sequence of pairs in their element, so the attribute pool that the code also checks is not counted.
- Dom.XMLDocument.PoolsCountNodes: the pools of nodes only, for the same reason.
- Dom.XMLDocument.InsertEndChild: requires that the node is not the document and not an ancestor of its new parent, which the code leaves to its callers (`Dom.XMLDocument.AncestorsMakeCycles`).
- Dom.XMLDocument.InsertFirstChild: requires the same.
- Dom.XMLDocument.InsertAfterChild: requires the same, and that the code does not follow a null pointer, as said above.
- Number formatting and conversions, error strings, file loading, user data, XMLHandle, `ShallowEqual`.
- Printer.XMLPrinter.Write: requires the text to stay below half of INT_MAX, the bound of the doubling array; output to a FILE is not modelled.
- ThreadPool.ArrivalsAreServed: assumes that serving a connection ends; waiting for the network is not modelled.
- Failure of `pthread_create`, SIGSEGV in the waited signal set, `~ThreadPool`, and the screen updates.
- BlockStore.SawaServer.ProcessRequest: bodies that hold the fields of their operation only; the code reads past shorter ones.
- BlockStore.SawaServer.ReadData: complete reads and well-formed frames only; a frame too short for its operation reads past its buffer in the code. Requests of different connections are served one at a time, as nothing locks the file position.
- Input and output errors of the backing file.
- The kernel glue, the HTTP and administration servers, ToWa, displays and daemon start-up.
