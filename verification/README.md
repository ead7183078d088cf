# Model and proofs for LiFx

This Dafny project models three parts of LiFx and proves what they are for:

* the XML engine (tinyxml2): parser, in-place string decoder, printer, linked DOM and memory pools;
* the LFXE asset pipeline: ChaCha20 in C++ and in Python, the container, the baked key, the encrypt pass over a
  tree, and the file streams that serve decrypted files to the engine;
* the dispatcher daemon: concurrent sessions, the registry of peers, bounded queues, two tables, and the framing.

`dafny verify dfyconfig.toml` checks everything.

## How it is built

| files | part |
|---|---|
| `XmlUtil`, `CharRefs`, `StrPairs`, `GetStr` | characters, references, and the decoder that rewrites its buffer |
| `XmlSlices`, `LazyStrings` | the slices of the buffer that a tree keeps, and decoding them in any order |
| `XmlTree`, `XmlPrinter`, `XmlParser`, `XmlDocument` | trees, the printer, the parse as functions, and the pointer-based parser that refines them |
| `XmlReadable`, `XmlParsed`, `XmlMarks`, `XmlLines` | what every parse guarantees of its tree and of its line numbers |
| `XmlText`, `XmlRoundTrip`, `XmlUnfaithful`, `XmlReread` | printing and parsing again: what comes back, and exactly when it is the same |
| `XmlEndTags`, `XmlSpelling`, `XmlDepth` | texts that the printer does not write: wrong end tags, other spellings of tags, too much nesting |
| `Forest`, `Dom`, `MemPool` | the linked DOM over a ghost forest, and the pools and arrays of tinyxml2.h |
| `Words`, `ChaCha20`, `ChaCha20Xor`, `ChaCha20Vector`, `DtsLib` | the cipher: algebra, the C++ loops, the published block, the Python loops |
| `LfxeFormat`, `BakedKey`, `LfxeDecrypt`, `EncryptTree` | container, key, decryption, encrypt pass |
| `PlainFiles`, `FileStream` | plain files as the specification, and the hooked streams that behave like them |
| `Database`, `Daemon`, `Dispatcher` | tables, the steps of the daemon as a transition system, and the code of the steps on channels and peers as objects |
| `DaemonSafety`, `DaemonRuns`, `DaemonErrors`, `DaemonAnswers`, `DaemonLimits` | the invariant, theorems about all runs, and what is not promised |
| `Framing`, `JsonFrames`, `Base64` | frames on the wire, their sizes, and which payloads are accepted |

Code that changes things in place is a class or works on arrays, and each of its methods is proved against a
function on values; the theorems are about these functions. The daemon is a transition system: an interleaving is a
list of steps, each being what one task does between two awaits. Looking up a peer and pushing to its queue are two
steps, as the lock is released between them.

Bytes of XML are modelled as characters 0 to 255, reading past the end of a buffer yields its terminator, and
`unsigned long` has 32 bits as on Windows, where LiFx runs. Words and bytes of the cipher and of the UTF-8 conversion
are bit vectors, and `Words` relates them to numbers.

## Where the code does not do what its documentation says, or what one would expect

* `GetStr` steps over an ampersand that starts nothing it knows without copying it, so that a stale byte stays
  (source/core/tinyxml2.cpp:355-359): `StrPairs.LostAmpersand` is a slice where the ampersand is lost, and
  `StrPairs.CleanExactly` says exactly when none is, and `StrPairs.KnownReferencesDecode` and
  `StrPairs.EarlyAmpersandsStay` give two families of texts on which none is.
* A numeric reference may hold anything before its digits when its mark stands there once more: `&#no#65;` is read as
  `A`. `CharRefs.ReferenceExactly` says exactly what is read.
* `InsertAfterChild` dereferences null when the node is already the last child, directly after its neighbour:
  `Dom.LastSiblingAfterItsNeighbour`, and exactly then: `Dom.XMLDocument.InsertAfterChild`.
* Nothing stops a node from being put below itself: `Dom.CycleByInsertion` reaches a cycle, and
  `Dom.XMLDocument.InsertEndChild` says exactly when a forest stays one.
* An end tag that nothing opened ends a document silently: `XmlRoundTrip.StrayEndTag`, and exactly then:
  `XmlRoundTrip.StrayEndTagExactly`.
* Not every parsed document comes back from its printed form: `XmlReread.BlankTextIsLost` and
  `XmlReread.RawQuoteIsLost` are two, and `XmlReread.ParsedTreesPrintBack` says exactly which do.
* gen_baked_key.py accepts any integer seed; the header it emits compiles exactly for those from 0 to below 2^64:
  `BakedKey.BakeAndGet`.
* chacha20.h allows `in` and `out` to alias; the loop is right exactly when the output does not start strictly
  inside the input: `ChaCha20Xor.AliasingExactly`.
* A HelloAck may come after a delivery, and a server that reconnects before its older session is cleaned up cannot be
  reached: `DaemonLimits`, with the exact conditions.

## Model

| member | source | states |
|---|---|---|
| XmlRoundTrip.DocumentRoundTrip | source/core/tinyxml2.cpp:2927-2934 | Printing any document in normal form with its own flags (entities, byte order mark) and parsing the output with the same options gives back the same children and the same flag: elements, attributes in order, comments, texts, CDATA, declarations and unknowns, nested below the depth limit, with text at the top when another node follows it |
| XmlReread.ParsedTreesPrintBack | source/core/tinyxml2.cpp:2927-2934 | Which parsed documents print and parse back to themselves, byte order mark included, for every text and all options: exactly those that are not empty, whose text at the top begins with neither white space nor a byte order mark unless one was read before it and is followed by another node, and that have no blank text, no text that would be collapsed, no carriage return in a text or an attribute value and, with entities off, no double quote in an attribute value |
| XmlReread.PrintThenParse | source/core/tinyxml2.cpp:1042-1154 | What comes back for every document whose nodes can be read one by one, the same or not, unless entities are off and a string holds the character that is to end it: blank texts are lost, line ends become uniform, white space is collapsed if the options say so, what stands before the first text is skipped unless a byte order mark is printed, and text at the very end is an error |
| XmlReread.PrintsBackExactly | source/core/tinyxml2.cpp:2927-2934 | The same if-and-only-if as for parsed documents, for every tree whose nodes can be read one by one, parsed or built, and every flag; with entities off no text may hold a `<` either |
| XmlReread.LoadSaveLoad | source/core/tinyxml2.cpp:2415-2451 | A program that loads a text, prints the document and loads what was printed ends with the same children and the same flag for the byte order mark exactly when the document is printable |
| XmlEndTags.EndTagMustMatch | source/core/tinyxml2.cpp:1129-1149 | For any two valid names a and b, any attributes and any printed children (also none): `<a ...>`, the children and `</b>` are parsed as the one element a with these attributes and children, in their reread form, when the names are the same, and give the mismatch error on line 1 when they are not |
| XmlEndTags.SameNameExactly | source/core/tinyxml2.cpp:1129-1149 | So for faithful children the parse is that element exactly when a and b are the same name, and the mismatch error exactly when they are not |
| XmlEndTags.EndTagDecides | source/core/tinyxml2.cpp:1117-1149 | The same at any place and depth: the loop over the children inserts the element and goes on after its end tag, or stops with a mismatch on the line of the element |
| XmlEndTags.EndTagsMatch | source/core/tinyxml2.cpp:1117-1149 | In every successful parse each element that was made, at any depth, is an end tag itself, or has an end tag with its own name if it is open and none if it is sealed |
| XmlDepth.DepthExactly | source/core/tinyxml2.cpp:2533-2546 | An element inside n others is parsed, whole, when n is at most 98, and is too deep otherwise |
| XmlSpelling.TagSpelling | source/core/tinyxml2.cpp:2043-2069 | However a tag is spelt, with either quote and with white space before the name or the slash, around each attribute and its `=` (needed before the first one alone) and before the end, it is read as its name, its attributes in order and how it ends |
| XmlSpelling.SpaceBeforeDocument | source/core/tinyxml2.cpp:2524-2526 | White space before a document changes nothing, also where a byte order mark follows it |
| XmlSpelling.MarkRead | source/core/tinyxml2.cpp:399-414 | The three bytes EF BB BF before a printed document are read as a byte order mark |
| XmlUnfaithful.OnlyFaithful | source/core/tinyxml2.cpp:1042-1154 | Nodes that are all read back as they were hold no blank text, no carriage return, nothing that would be collapsed, and nothing that ends a string too early, at any depth and whatever follows them |
| XmlReread.RawQuoteIsLost | source/core/tinyxml2.cpp:2676-2678 | With entities off the concrete document with a double quote inside single quotes is parsed, and does not come back from its printed form |
| XmlReread.TreeIsReadable | source/core/tinyxml2.cpp:1042-1154 | The nodes of every parsed tree can be printed and read one by one: no string holds its own end tag, a terminator, or a beginning that makes the node look like another |
| XmlReread.BlankTextIsLost | source/core/tinyxml2.cpp:710-777 | The concrete document `<a>&#32;</a>`: it is parsed to an element with a blank text, and comes back from its printed form without it |
| XmlRoundTrip.NodesExactly | source/core/tinyxml2.cpp:281-379 | A list of nodes is read back as it is exactly when it has no blank text, no text that would be collapsed and no carriage return in a text or an attribute value |
| XmlRoundTrip.StrayEndTag | source/core/tinyxml2.cpp:1117-1127 | A concrete family: a document, printed with its own flags, followed by `</name>` and anything at all is parsed as that document alone, without an error |
| XmlRoundTrip.StrayEndTagExactly | source/core/tinyxml2.cpp:1117-1127 | After any document in normal form, a text that starts like a tag is ignored without an error exactly when it begins with a complete end tag: `<`, blanks, `/`, a name, attributes, `>` |
| XmlRoundTrip.NodesRoundTrip | source/core/tinyxml2.cpp:1042-1154 | Any list of readable and delimited nodes at any depth, printed and followed by a tag or by nothing, is read up to there and gives its reread form |
| XmlText.TextRoundTrip | source/core/tinyxml2.cpp:2631-2683 | Every string without NUL, and with entities off without `<`, printed as element text and followed by `<` and anything, is cut at that `<` and decodes to itself with uniform line ends, and collapsed if the options say so; hence to itself exactly when it has no CR and is collapsed already |
| XmlText.AttributeRoundTrip | source/core/tinyxml2.cpp:1410-1435 | Every string without NUL, and with entities off without a double quote, printed as an attribute value and followed by its quote and anything, is cut at that quote and decodes to itself with uniform line ends |
| XmlText.EscapeFree | source/core/tinyxml2.cpp:2631-2683 | Escaped element text never contains `<`, and an escaped attribute value never contains a quote either |
| XmlText.EscapedValue | source/core/tinyxml2.cpp:281-379 | GetStr undoes PrintString, in the full and in the restricted escape set, up to line ends |
| XmlText.VerbatimValue | source/core/tinyxml2.cpp:1201-1210 | Text read without entities (CDATA, comments, declarations) is reported with uniform line ends, and otherwise as it stands |
| XmlText.QuotedValue | source/core/tinyxml2.cpp:281-379 | GetStr with the flags of the document undoes PrintString with the flags of the document, up to line ends and collapsed white space |
| XmlPrinter.XMLPrinter.PrintString | source/core/tinyxml2.cpp:2631-2683 | The loop over runs and entities appends exactly the escaped string |
| XmlPrinter.XMLPrinter.PushAttribute | source/core/tinyxml2.cpp:2728-2736 | Appends the blank, the name, and the quoted escaped value |
| XmlPrinter.XMLPrinter.OpenElement | source/core/tinyxml2.cpp:2715-2725 | Seals the enclosing tag, appends `<` and the name, and pushes the name on the stack |
| XmlPrinter.XMLPrinter.CloseElement | source/core/tinyxml2.cpp:2787-2812 | Pops the name, and appends `/>` when nothing was put into the element, the end tag otherwise |
| XmlPrinter.XMLPrinter.PushText | source/core/tinyxml2.cpp:2825-2838 | Seals the tag and appends the CDATA section or the escaped text |
| XmlPrinter.XMLPrinter.Accept | source/core/tinyxml2.cpp:2111-2122 | Visiting a node appends exactly its printed form and leaves the element stack as it was |
| XmlPrinter.PrintDocument | source/core/tinyxml2.cpp:2927-2934 | A fresh printer that visits a document ends with the byte order mark, if the document has one, and the concatenation of the printed children |
| XmlPrinter.XMLPrinter.VisitDocument | source/core/tinyxml2.cpp:2927-2934 | The flags of the document decide whether entities are printed and whether a byte order mark is |
| XmlDocument.XMLDocument.Parse | source/core/tinyxml2.cpp:2415-2443 | Whatever the document held before, the pointer-based parser computes the specified parse of the text: the same tree or the same error with the same line; afterwards the depth counter is 0 and the table of unlinked nodes is empty, also after an error, which leaves no children, and the flag for the byte order mark says whether one was read. What the specified parse accepts is stated on texts: see `XmlEndTags`, `XmlSpelling`, `XmlDepth` and `XmlRoundTrip` |
| XmlDocument.XMLDocument.ParseDeep | source/core/tinyxml2.cpp:1042-1154 | The recursion with its depth tracker refines the specified parse of the rest of the buffer; it is never entered at depth 100, restores the depth, and terminates because each node consumes input |
| XmlDocument.XMLDocument.ParseChildren | source/core/tinyxml2.cpp:1055-1150 | The loop over the children: end tags handed up to the parent, mismatches, misplaced declarations, texts; each node that was made has left the table of unlinked nodes |
| XmlDocument.XMLDocument.Insert | source/core/tinyxml2.cpp:1069-1149 | What becomes of a node that was read: on each of its five ways it is deleted or inserted, and leaves the table of unlinked nodes |
| XmlDocument.XMLDocument.ParseElement | source/core/tinyxml2.cpp:2043-2069 | Name, attributes and children of an element, with its three closing forms |
| XmlDocument.XMLDocument.ReadTag | source/core/tinyxml2.cpp:2043-2069 | The name, the attributes and the closing form of a tag, or which error is set |
| XmlDocument.XMLDocument.ParseAttributes | source/core/tinyxml2.cpp:1927-1984 | The loop over the attributes, with duplicate names refused and `>` or `/>` ending it |
| XmlDocument.XMLDocument.ParseAttr | source/core/tinyxml2.cpp:1410-1435 | Name, white space, `=`, white space and quoted value of one attribute |
| XmlDocument.XMLDocument.FindAttribute | source/core/tinyxml2.cpp:1584-1592 | Found exactly when some attribute has the name |
| XmlDocument.XMLDocument.Identify | source/core/tinyxml2.cpp:710-777 | Which node a position starts, how far its header reaches, which line it is on, and the back-up for text; the node is new in the table of unlinked nodes |
| XmlDocument.XMLDocument.ParseText | source/core/tinyxml2.cpp:1201-1225 | Plain text up to `<`, which is left to be read; the end of the buffer is an error |
| XmlDocument.XMLDocument.ParseLeaf | source/core/tinyxml2.cpp:1266-1274 | Text up to an end tag, as one node, or the error of that kind of node |
| XmlParsed.ParsedTree | source/core/tinyxml2.cpp:1061-1115 | Any successful parse yields a tree whose elements have valid and distinct attribute names, whose declarations are a prefix of the document and nowhere else, in which no two texts are adjacent, whose nesting is below 100, and whose leaves do not hold their own end tags |
| XmlParsed.FirstAndLast | source/core/tinyxml2.cpp:1086-1115 | Looking at the first and the last child only decides whether all children so far are declarations |
| XmlLines.LinesAreRight | source/core/tinyxml2.cpp:710-777 | In every parse, successful or not, each node made stands at a character that is not white space, and the line recorded in it is 1 plus the newlines before that character, also when text is backed up to before its white space |
| XmlLines.ErrorLineIsRight | source/core/tinyxml2.cpp:1042-1154 | Which node a failed parse is about, and that its line is reported: an unterminated text, comment, CDATA section, declaration or unknown node, a misplaced declaration or a broken tag is the last node made; a mismatch and an element without its end have an element that fails so; an attribute error has the line of the first character of the attribute that cannot be read or has the name of an earlier one, and a depth error that on which the tag ends; only an empty document reports line 0 |
| XmlLines.ErrorPlace | source/core/tinyxml2.cpp:2415-2443 | That line is 1 plus the newlines before some place of the text |
| XmlParsed.IdentifyTracks | source/core/tinyxml2.cpp:710-777 | One call: from the line passed in, the lines of the node and of the text left to read are counted on by the newlines passed over |
| XmlParsed.NodesParsed | source/core/tinyxml2.cpp:1042-1154 | The loop keeps the shape of the tree, and where it ends at an end tag its line is counted on by the newlines read |
| XmlParsed.AttributesTrack | source/core/tinyxml2.cpp:1927-1984 | The same over the attributes of a tag |
| GetStr.StrPair.GetStr | source/core/tinyxml2.cpp:281-379 | For every buffer and flags the first call leaves the decoded text at the start it returns; nothing outside the slice and its terminator is written, and a further call changes nothing. What decoding makes of references is stated by `StrPairs.PredefinedDecodes` and `CharRefs.WellFormedReference` |
| GetStr.ReadTwice | source/core/tinyxml2.cpp:281-379 | Two calls return the same start and the decoded text there, and nothing outside the slice and its terminator is written |
| XmlSlices.SlicesInOrder | source/core/tinyxml2.h:155-162 | The slices that a parsed tree keeps, one for each name, attribute value and text, stand in order in the text, with room for the terminator of each before the next begins |
| XmlSlices.SlicesAreStrings | source/core/tinyxml2.h:155-162 | Their values are the names, attribute values and texts of the tree, in document order |
| LazyStrings.ReadInOrder | source/core/tinyxml2.cpp:281-379 | Pairs that lie apart in one buffer can be read in any order, as often as one likes: each reading returns the string that the slice stood for at first, and that string stays where it is whatever is read later |
| LazyStrings.ReadTree | source/core/tinyxml2.cpp:281-379 | So decoding the strings of a parsed text lazily, in whatever order, gives for each the string that the tree has in that place |
| GetStr.StrPair.DecodeInPlace | source/core/tinyxml2.cpp:293-369 | The loop over one buffer with a read and a write pointer computes the decoding of the original slice; the write pointer never passes the read pointer, and neither passes the end |
| GetStr.StrPair.DecodeNext | source/core/tinyxml2.cpp:293-367 | One turn of that loop is one specified step on the pair of pointers and the bytes |
| GetStr.StrPair.DecodeCharRef | source/core/tinyxml2.cpp:323-340 | The branch for a character reference: its bytes overwrite the reference, or the ampersand stays when it is none |
| GetStr.StrPair.CollapseWhitespace | source/core/tinyxml2.cpp:252-278 | The in-place loop leaves the collapsed form of the C string |
| StrPairs.CollapseIsWords | source/core/tinyxml2.cpp:252-278 | The collapsed form is the list of words with single blanks between them |
| StrPairs.CleanExactly | source/core/tinyxml2.cpp:340-359 | The code equals the intended decoding, in which unrecognised ampersands stay, exactly when each of them finds an ampersand at the write position |
| StrPairs.KnownReferencesDecode | source/core/tinyxml2.cpp:340-359 | It does on every text in which each ampersand starts an entity of the table or `&#` |
| StrPairs.EarlyAmpersandsStay | source/core/tinyxml2.cpp:340-359 | It does on every text in which no recognised reference and no pair of line ends stands before the last unrecognised ampersand |
| StrPairs.LostAmpersand | source/core/tinyxml2.cpp:355-359 | The concrete slice `&lt;&x` decodes to `<lx`: the ampersand is lost |
| StrPairs.EntityIs | source/core/tinyxml2.cpp:343-353 | At most one entity of the table matches at a position, so the order of the search does not matter |
| StrPairs.PredefinedDecodes | source/core/tinyxml2.cpp:143-149 | Wherever `&quot;`, `&amp;`, `&apos;`, `&lt;` or `&gt;` is met in a slice, the double quote, `&`, the single quote, `<` or `>` is written for it and reading goes on after it; so as a slice of its own it is that character |
| StrPairs.DecodesInFront | source/core/tinyxml2.cpp:143-149 | A text that begins with one of these five references is its character and the decoding of what follows, whatever that is |
| StrPairs.PredefinedAt | source/core/tinyxml2.cpp:343-353 | The search over the table finds an entity exactly where one of these five references stands, with its character and its length |
| XmlText.PredefinedEscape | source/core/tinyxml2.cpp:2559-2570 | These five strings are what is written for the five characters: for `&`, `<` and `>` everywhere, for the quotes in attribute values alone; any other character is written as it is |
| XmlUtil.FindTagAfter | source/core/tinyxml2.cpp:207-229 | A text followed by a tag is found whole when the tag does not occur earlier, not even across its end |
| XmlUtil.ParseText | source/core/tinyxml2.cpp:207-229 | Where the first occurrence of the tag is, with the newlines before it counted; not found only when there is none |
| XmlUtil.ParseName | source/core/tinyxml2.cpp:232-249 | The longest name at a position, or none when no name starts there |
| XmlUtil.SkipWhiteSpace | source/core/tinyxml2.h:554-568 | The first position that is not white space, with the newlines passed counted |
| CharRefs.Utf8RoundTrip | source/core/tinyxml2.cpp:417-467 | A UTF-8 decoder undoes the conversion for every input below 0x200000 |
| CharRefs.Utf8WellFormedExactly | source/core/tinyxml2.cpp:417-467 | The output is UTF-8 in the sense of section 3 of RFC 3629 exactly for the Unicode scalar values |
| CharRefs.ConvertUTF32ToUTF8 | source/core/tinyxml2.cpp:417-467 | The fall-through switch on a 32-bit word, with its or, and, and shift operations and writing from the last byte down, computes those bytes |
| CharRefs.ContinuationByte | source/core/tinyxml2.cpp:446-457 | Marking and masking a word gives the byte of its last six binary digits, and shifting by six divides by 64 |
| Words.ValueLe | source/core/tinyxml2.cpp:417-467 | The number of a 32-bit word is the one its four little-endian bytes stand for |
| CharRefs.WellFormedReference | source/core/tinyxml2.cpp:470-563 | Any well-formed hexadecimal or decimal reference reads as the UTF-8 form of its positional value, wrapped to 32 bits |
| CharRefs.ReferenceExactly | source/core/tinyxml2.cpp:470-558 | What stands between `&#` or `&#x` and the first semicolon is a reference exactly when it is digits, or ends with digits after another `#` or `x`; then these digits are its value, whatever comes before them |
| CharRefs.UnterminatedReference | source/core/tinyxml2.cpp:488-492 | Without a semicolon there is no reference, unless the text ends after the `#` |
| CharRefs.DigitsAre | source/core/tinyxml2.cpp:500-516 | The hexadecimal digits are 0 to 9, a to f and A to F, with the values 0 to 15, and the decimal ones are the first ten |
| CharRefs.ReadDigits | source/core/tinyxml2.cpp:484-561 | The right-to-left digit loop computes the positional value, with the multiplier wrapping |
| CharRefs.GetCharacterRef | source/core/tinyxml2.cpp:470-563 | Which bytes and how far to move on, for every text that starts with `&#`, well-formed or not |
| Dom.XMLDocument.InsertEndChild | source/core/tinyxml2.cpp:895-922 | Wherever the node was and whatever it is put under, itself included, the pointers agree with the child lists in which it was first unlinked and is then the last child; a forest stays one exactly when the node is not the document and the parent is neither that node nor below it |
| Dom.XMLDocument.InsertFirstChild | source/core/tinyxml2.cpp:925-953 | The same, as the first child |
| Dom.XMLDocument.InsertAfterChild | source/core/tinyxml2.cpp:956-989 | The same, directly after a sibling; the null dereference after the preamble happens exactly when the node is the last child and stands directly after that sibling |
| Dom.LastSiblingAfterItsNeighbour | source/core/tinyxml2.cpp:978-985 | A sequence of two creations and insertions after which the null dereference is reached |
| Dom.CycleByInsertion | source/core/tinyxml2.cpp:895-922 | A sequence of creations and insertions after which two nodes are each the parent and the only child of the other, and the document is empty |
| Dom.InsertEndMeaning | source/core/tinyxml2.cpp:895-922 | On every child list: the node leaves its old place and comes last under its new parent, and nothing else moves |
| Dom.InsertFirstMeaning | source/core/tinyxml2.cpp:925-953 | The same for first |
| Dom.InsertAfterMeaning | source/core/tinyxml2.cpp:956-989 | The same for directly after a sibling; put after itself the node stays where it is |
| Dom.XMLDocument.InsertChildPreamble | source/core/tinyxml2.cpp:1171-1182 | A node with a parent is unlinked from it, one without leaves the table of unlinked nodes |
| Dom.XMLDocument.Unlink | source/core/tinyxml2.cpp:858-879 | The six pointer assignments take the node out of its child list and keep all other links |
| Dom.XMLDocument.MarkInUse | source/core/tinyxml2.cpp:2179-2189 | The node leaves the table, by SwapRemove; the others stay |
| Dom.XMLDocument.CreateUnlinkedNode | source/core/tinyxml2.h:1985-1995 | A new node without links, at the end of the table |
| Dom.XMLDocument.DeleteChild | source/core/tinyxml2.cpp:882-892 | The child and everything below it are gone, and only they |
| Dom.XMLDocument.DeleteNode | source/core/tinyxml2.cpp:2294-2309 | The same for any node of the document, linked or in the table |
| Dom.XMLDocument.DestroyChildren | source/core/tinyxml2.cpp:848-855 | All that is below a node is gone, and only that |
| Dom.XMLDocument.Clear | source/core/tinyxml2.cpp:2192-2206 | Nothing is left but the document: no children, and an empty table |
| Dom.EveryNodeInOneTree | source/core/tinyxml2.h:1985-1995 | Every live node is below exactly one of the document and the unlinked nodes |
| Forests.AttachAcyclicExactly | source/core/tinyxml2.cpp:895-989 | Putting a node under a parent keeps the forest exactly when the parent is not that node or below it, which the source does not check |
| Forests.DetachMeaning | source/core/tinyxml2.cpp:858-879 | Unlinking takes the node out of every child list and changes nothing else |
| MemPools.MemPool.Alloc | source/core/tinyxml2.h:375-399 | The item handed out was not in use; it is the head of the free list, or of a new block; every slot stays free or in use and never both |
| MemPools.MemPool.Free | source/core/tinyxml2.h:401-412 | An item in use becomes the head of the free list |
| MemPools.MemPool.WriteItem | source/core/tinyxml2.h:444-447 | An object that overwrites the link inside its own item does not disturb the pool |
| MemPools.MemPool.Clear | source/core/tinyxml2.h:355-366 | No blocks, no items, and all counters at 0 |
| MemPools.SlotsAreCounted | source/core/tinyxml2.h:438-457 | Free items and items in use are exactly the slots of all blocks, as many as blocks times ITEMS_PER_BLOCK |
| MemPools.FreeThenAlloc | source/core/tinyxml2.h:375-412 | A freed item is the next one handed out; then the free list, the items in use, the blocks and the current and maximum counts are as before, and the counts of allocations and of untracked items are one more |
| MemPools.AllocTracked | source/core/tinyxml2.cpp:1995-2004 | An attribute's item is tracked as soon as it is allocated, so the count of untracked items is as before |
| MemPools.DynArray.EnsureCapacity | source/core/tinyxml2.h:303-318 | Growth doubles the request and keeps the contents |
| MemPools.DynArray.Push | source/core/tinyxml2.h:226-231 | The contents are the old ones and the new element |
| MemPools.DynArray.PushArr | source/core/tinyxml2.h:233-240 | Room for more elements after the old contents, which stay |
| MemPools.AppendText | source/core/tinyxml2.cpp:2597-2607 | Writing to a printer's buffer puts the data after the text and the terminator after that |
| MemPools.DynArray.SwapRemove | source/core/tinyxml2.h:282-287 | The last element takes the place of the one removed |
| ChaCha20.QuarterRoundIsBijective | source/core/crypto/chacha20.cpp:37-41 | The quarter round on four words has an inverse on both sides |
| ChaCha20.QuarterRoundVector | source/core/crypto/chacha20.cpp:37-41 | The test vector of section 2.1.1 of RFC 8439 |
| ChaCha20.QuartersCommute | source/core/crypto/chacha20.cpp:48-60 | Quarter rounds on disjoint words commute |
| ChaCha20.RoundsHaveNoOrder | source/core/crypto/chacha20.cpp:50-59 | So the order of the four quarter rounds of a column or diagonal round does not matter |
| ChaCha20.RoundsAreInvertible | source/core/crypto/chacha20.cpp:48-60 | The twenty rounds are a bijection on all states of sixteen words |
| Words.LoadAfterStore | source/core/crypto/chacha20.cpp:23-35 | Loading the stored little-endian bytes gives the word back |
| Words.StoreAfterLoad | source/core/crypto/chacha20.cpp:23-35 | Storing the loaded word gives the bytes back |
| Words.ValueOfNext | source/core/crypto/chacha20.cpp:100 | The increment of a 32-bit word is the increment of its number modulo 2^32 |
| ChaCha20.CounterWraps | source/core/crypto/chacha20.cpp:86-101 | The counter of block k is the initial counter plus k, modulo 2^32 |
| ChaCha20.XoredAt | source/core/crypto/chacha20.cpp:90-101 | Byte i of the result is byte i of the data xor byte i mod 64 of the key block for counter plus i/64: the pointwise definition of section 2.4 of RFC 8439 |
| ChaCha20.XorTwice | source/core/crypto/chacha20.cpp:71-102 | The cipher is its own inverse |
| ChaCha20.XorSplits | source/core/crypto/chacha20.h:14-17 | Any later part of the data can be processed alone from its byte offset |
| ChaCha20.XorAdvances | source/core/crypto/chacha20.cpp:90-101 | At an offset of whole blocks, advancing the counter does the same |
| ChaCha20Xor.XorStream | source/core/crypto/chacha20.cpp:71-102 | The 64-byte block loop over arrays writes exactly the pointwise result and nothing else, when input and output are different arrays, or the same one with the output not starting strictly inside the input (in place included) |
| ChaCha20Xor.AliasingExactly | source/core/crypto/chacha20.h:25-26 | In one buffer the loop is right for every content exactly when the output does not start strictly inside the input; the header promises any aliasing |
| ChaCha20Xor.ChaCha20Block | source/core/crypto/chacha20.cpp:43-64 | The block function over arrays: ten double rounds on a copy, added to the input and stored; `ChaCha20Vector.BlockVector` and `ChaCha20Vector.LanesAre` say which rounds these are |
| ChaCha20Vector.BlockVector | source/core/crypto/chacha20.cpp:43-64 | The key block for the key 00 to 1f, the nonce 000000090000004a00000000 and the counter 1 is the one that section 2.3.2 of RFC 8439 prints, byte by byte |
| ChaCha20Vector.LanesAre | source/core/crypto/chacha20.cpp:51-59 | Column round i is on the words i, 4+i, 8+i, 12+i, and diagonal round i on i, 4+(i+1) mod 4, 8+(i+2) mod 4, 12+(i+3) mod 4 |
| ChaCha20Vector.StateLayout | source/core/crypto/chacha20.cpp:78-88 | Every word of the state: four constants, then word i of the key, the counter, and word i of the nonce, loaded low byte first |
| ChaCha20Xor.QuarterRoundAt | source/core/crypto/chacha20.cpp:37-41 | The macro on four words of an array is the quarter round on these four and leaves the others |
| ChaCha20Xor.InitialState | source/core/crypto/chacha20.cpp:78-88 | Constants, key, counter and nonce in their places |
| DtsLib.ChaCha20Xor | scripts/dts_lib.py:59-72 | The Python loop computes what the C++ loop computes, for every key, nonce, data and integer counter, negative or larger than 32 bits included; it raises on a wrong key or nonce length |
| DtsLib.KeyBlockOf | scripts/dts_lib.py:39-56 | The Python block function equals the C++ one, the integer counter being masked to 32 bits |
| DtsLib.QuarterAt | scripts/dts_lib.py:32-36 | The masked integer arithmetic of the Python quarter round equals 32-bit arithmetic |
| DtsLib.RotlAgrees | scripts/dts_lib.py:28-29 | The masked rotation of a Python integer is the 32-bit rotation |
| DtsLib.NothingLost | scripts/dts_lib.py:28-36 | 64 bits are enough for the sum of two 32-bit values |
| DtsLib.NothingShiftedOut | scripts/dts_lib.py:28-29 | And for such a value shifted by less than 32 |
| Words.MaskedNext | scripts/dts_lib.py:71 | Masking an integer counter before and after an increment is the increment of a 32-bit word |
| LfxeFormat.ParseHeader | source/core/crypto/lfxe_format.h:59-74 | Accepts exactly the good headers; fills the fields from the buffer also when it then refuses the format or the cipher, and leaves them otherwise |
| LfxeFormat.HeaderReadsBack | scripts/dts_lib.py:80-84 | A packed container has a good header with the key id and the nonce it was packed with |
| LfxeFormat.ContainerLayout | scripts/dts_lib.py:80-84 | Every byte of a container: `LFXE`, the versions 1 and 1, the key id low byte first, the nonce in bytes 8 to 19, four zeros, and from byte 24 on the plaintext under the cipher with the counter 1 |
| LfxeFormat.HeaderLayout | source/core/crypto/lfxe_format.h:35-74 | A header is good exactly when there are 24 bytes that begin with `LFXE`, 1, 1; its key id is in bytes 6 and 7 and its nonce in bytes 8 to 19 |
| LfxeFormat.Pack | scripts/dts_lib.py:75-84 | The container for every plaintext, or an exception exactly on a bad nonce length, key length or key id |
| LfxeFormat.Unpack | scripts/dts_lib.py:91-102 | The plaintext exactly for a good header and a key of 32 bytes, and an exception otherwise |
| LfxeFormat.PackThenUnpack | scripts/dts_lib.py:75-102 | unpack undoes pack, for every plaintext, key, key id and nonce |
| BakedKey.BakeAndGet | source/core/crypto/baked_key_provider.cpp:24-37 | For every key, a client can be built from the emitted header exactly when the seed is from 0 to below 2^64, and then its provider returns the key for id 0 and nothing for any other id |
| BakedKey.BakedKeyProvider.GetKey | source/core/crypto/baked_key_provider.cpp:24-37 | The unmasking loop; the output is untouched when the id is not 0 |
| BakedKey.EmitHeader | scripts/gen_baked_key.py:49-54 | The masked key and the seed, for every integer seed; an exception on a key of another length |
| BakedKey.LcgStream | scripts/gen_baked_key.py:40-46 | The Python generator, reduced once a step, for every integer seed |
| BakedKey.OneTap | source/core/crypto/baked_key_provider.cpp:29-34 | Each step multiplies by 1664525 and adds 1013904223 modulo 2^32, and the mask is the state divided by 2^24 |
| BakedKey.FirstTaps | scripts/gen_baked_key.py:40-46 | The first four mask bytes for the seed 0 are 3c, 47, d1, aa |
| BakedKey.WrappingStepAgrees | source/core/crypto/baked_key_provider.cpp:32 | A step that wraps after the product and again after the sum equals the step reduced once |
| BakedKey.MaskedTwice | scripts/gen_baked_key.py:51-52 | Masking twice under one seed is the identity |
| LfxeDecrypt.TryDecryptAsset | source/core/crypto/lfxe_decrypt.cpp:14-38 | The verdict for every byte string, the plaintext on Ok, and an untouched output otherwise |
| LfxeDecrypt.VerdictExactly | source/core/crypto/lfxe_decrypt.cpp:19-37 | The four results partition all byte strings, each by a condition on the bytes |
| LfxeDecrypt.ContainerOpens | source/core/crypto/lfxe_decrypt.cpp:14-38 | A container opens to what was packed when the provider has its key, and gives NoKey when it has none |
| LfxeDecrypt.PackToClient | source/core/crypto/lfxe_decrypt.cpp:14-38 | For every key, seed, nonce and plaintext: when a client can be built with the baked key, decrypting in it what was packed under id 0 returns Ok with the plaintext |
| EncryptTree.EncryptPass | scripts/dts_encrypt.py:69-86 | What the pass leaves of the tree; what it counts, in a dry run, in a real one over distinct files, and when the key id makes pack raise, which is at the first file without the magic |
| EncryptTree.PassPreservesMeaning | scripts/dts_encrypt.py:69-86 | After the pass every listed file without the magic opens to its original bytes, and every other file is unchanged |
| EncryptTree.SecondPassIsIdle | scripts/dts_encrypt.py:12-13 | A second pass changes nothing and skips every file, with any nonces, key and key id |
| FileStream.HookFileStream.Run | source/client/hook_filestream.cpp:40-94 | For every run of create, open, read, seek, tell, size and destroy over any number of handles, the hooked engine answers exactly as plain files would, where a readable container with a known key is its plaintext |
| FileStream.ReadWhole | source/client/hook_filestream.cpp:40-88 | Opening a readable container whose key is known and reading as many bytes as its size says gives the whole plaintext |
| FileStream.HookFileStream.FsRegisterIfEncrypted | source/core/crypto/lfxe_filestream.cpp:90-139 | After it the stream is seen as the plaintext at position 0 when the file is such a container, and otherwise as the raw file at position 0; a stale entry is gone either way |
| FileStream.HookFileStream.FsTryRead | source/core/crypto/lfxe_filestream.cpp:147-162 | Serves a registered stream as a read of the plaintext: bytes, result, position and status; without a destination the bytes are skipped |
| FileStream.HookFileStream.FsTrySetPosition | source/core/crypto/lfxe_filestream.cpp:180-192 | Seeks within the plaintext and refuses to go past its end |
| FileStream.HookFileStream.FsTryGetPosition | source/core/crypto/lfxe_filestream.cpp:172-178 | The position in the plaintext |
| FileStream.HookFileStream.FsTryGetSize | source/core/crypto/lfxe_filestream.cpp:164-170 | The size of the plaintext |
| FileStream.HookFileStream.OnOpen | source/client/hook_filestream.cpp:40-56 | Opening makes the handle seen as the file that was opened, whatever was there before; in any mode other than 0 and when there is no file the handle has no registry entry afterwards, and it is seen as the raw file at position 0 with status 0, or as no file |
| FileStream.HookFileStream.OnRead | source/client/hook_filestream.cpp:58-64 | A read of what the handle is seen as; no other handle changes |
| FileStream.HookFileStream.OnSetPosition | source/client/hook_filestream.cpp:66-72 | A seek in what the handle is seen as |
| FileStream.HookFileStream.OnGetPosition | source/client/hook_filestream.cpp:74-80 | Its position |
| FileStream.HookFileStream.OnGetStreamSize | source/client/hook_filestream.cpp:82-88 | Its size |
| FileStream.HookFileStream.OnDtor | source/client/hook_filestream.cpp:90-94 | The handle and its entry are gone |
| PlainFiles.HandlesAreIndependent | source/core/crypto/lfxe_filestream.cpp:66-69 | Whatever is done with other handles, a handle sees no change |
| PlainFiles.OpenDeterminesData | source/core/crypto/lfxe_filestream.cpp:96 | From an open to the next open or destroy of the handle, its content is that of the file opened, so old plaintext is never served |
| PlainFiles.OpenedExactly | source/core/crypto/lfxe_filestream.cpp:98-138 | A readable container whose key is known is its plaintext; everything else is the raw file |
| PlainFiles.PackedFileIsPlain | source/core/crypto/lfxe_filestream.cpp:98-138 | A file packed with the key of the client is seen as the plain file that was packed |
| PlainFiles.OpenedForWriting | source/client/hook_filestream.cpp:43-48 | In any mode other than 0, every file, packed or not, is seen as its raw bytes at position 0 with status 0 |
| PlainFiles.WriterSeesRawFile | source/client/hook_filestream.cpp:43-48 | In every run over any handles: from an opening in such a mode the handle answers as the raw file does alone, and until its next open or destroy each answer is its size, whether a position is in it, or a part of its raw bytes; so plaintext is never given |
| PlainFiles.AnswersAsAlone | source/core/crypto/lfxe_filestream.cpp:66-69 | In every run the replies to the operations on one handle are those of a run of these operations alone |
| PlainFiles.ReadPastEnd | source/core/crypto/lfxe_filestream.cpp:147-170 | A read of more than is left of a plaintext gives the rest and the status 2, and one of no more than is left gives what was asked for and the status 0 |
| PlainFiles.SeekThenRead | source/core/crypto/lfxe_filestream.cpp:147-192 | Seeking to an offset and reading gives the bytes from there |
| DaemonSafety.AlwaysSafe | daemon/src/main.rs:227-391 | Every state of every interleaving satisfies the invariant of queues, registry, forwards, outcomes and tables |
| DaemonRuns.RegistryIsLive | daemon/src/main.rs:140-157 | In every interleaving the registry entry of a peer id holds the queue of a session with that id that has not run its cleanup |
| DaemonRuns.DeliveriesAreTrue | daemon/src/main.rs:326-381 | No session is ever queued a delivery from its own peer id; each names the id assigned to the sending session and carries the payload of a forward that this session addressed to the receiver |
| DaemonRuns.OneOutcomeEach | daemon/src/main.rs:333-380 | Each handled forward has one delivery, in the queue it went to, or when it was refused none in any queue |
| DaemonErrors.ErrorsAnswerRefusals | daemon/src/main.rs:333-380 | The ForwardErrors on a session's own queue are exactly one for each refused forward, in order, with its target and its reason; the last ones may be missing only when the writer is gone |
| DaemonErrors.RefusalsAreJust | daemon/src/main.rs:333-353 | A forward is refused as self-routing exactly when it is addressed to the sender, and a payload that is not base64 ends as unknown_peer |
| DaemonLimits.LookupExactly | daemon/src/main.rs:354-362 | A forward is offered to a session exactly when the last insertion or cleanup in the run for the target's peer id was its own insertion, and it is then another session, of that id; it ends as unknown_peer exactly when there has been none or the last was a cleanup |
| DaemonRuns.ForwardsAreSettled | daemon/src/main.rs:299-301 | All forwards of a session but the one in progress have their outcome |
| DaemonRuns.DeliveriesAreInOrder | daemon/src/main.rs:299-301 | The deliveries of one sender in one queue are in the order of its forwards |
| DaemonRuns.QueuesAreBoundedFifos | daemon/src/main.rs:383-391 | No queue holds more than 64 frames, and the writer emits a prefix of what was enqueued; until a write fails the rest is the frame in its hand and what is queued, after that exactly one frame is lost and the rest is queued until the receiver goes |
| DaemonRuns.HelloAcksAreTrue | daemon/src/main.rs:249-264 | Every HelloAck of a session carries its own peer id, world id and flag |
| DaemonRuns.OnlyDeliveriesComeBefore | daemon/src/main.rs:249-264 | Whatever is queued before a HelloAck is a delivery, so a session gets at most one |
| DaemonRuns.PushExactly | daemon/src/main.rs:363-380 | A push delivers, reports a full buffer, or reports an unknown peer, exactly when the target's channel is open with fewer than 64 frames queued, open with 64, or closed |
| DaemonRuns.ResolvesAreAnswered | daemon/src/main.rs:312-318 | A resolve frame is answered with the most recent claimant of the run, or with sector_unknown when there was no claim |
| DaemonRuns.ResolveInRuns | daemon/src/main.rs:455-464 | A sector resolves to its most recent claimant in the run, who is a registered peer, connected or not |
| DaemonRuns.WorldsInRuns | daemon/src/main.rs:405-413 | In every interleaving the world id of a server_uuid is that of its last hello in the run, and there is none without a hello |
| DaemonRuns.SessionsAreOfHellos | daemon/src/main.rs:239-264 | A session keeps the server_uuid and the world id of its own hello, whatever comes later, and was told that it is the first registration exactly when no hello before it in the run had that server_uuid |
| DaemonAnswers.AnswersAreInOrder | daemon/src/main.rs:289-381 | The frames on a session's queue that are no deliveries are exactly the answers that its own frames call for, in order: an acknowledgement, a pong with the same time, the claimed sector with its own peer id, the owner of a sector or that it has none, and an error with its reason for a forward that could not be delivered; only the answer being sent is missing, and the last ones once the writer is gone |
| DaemonRuns.PeerIdsIdentifyServers | daemon/src/main.rs:395-431 | Sessions have the same peer id exactly when they have the same server_uuid, and at most one of them was told that it is the first registration |
| DaemonLimits.RoutableExactly | daemon/src/main.rs:146-156 | A peer id routes to a session exactly when the last insertion or cleanup for that id in the run was the insertion of this session |
| DaemonLimits.OpenSessionsAreRoutable | daemon/src/main.rs:249-276 | When no two sessions of one peer id are ever open at once, every open session can be routed to |
| DaemonLimits.ReconnectIsUnreachable | daemon/src/main.rs:276 | A run in which a server connects again and the cleanup of its older session makes the newer one unreachable |
| DaemonLimits.HelloAckIsFirstExactly | daemon/src/main.rs:249-264 | The HelloAck is the first frame of a queue exactly when no push to it was accepted between the insertion and the acknowledgement |
| DaemonLimits.HelloAckMayComeSecond | daemon/src/main.rs:249-264 | A run in which a delivery comes before the HelloAck |
| DaemonSafety.SafeKept | daemon/src/main.rs:227-391 | Each step of each task keeps the invariant |
| Dispatcher.Serve | daemon/src/main.rs:204-391 | The handlers on channel objects, a registry of channel references and two tables, run in any interleaving, reach what the transition system says |
| Dispatcher.Dispatcher.OnHello | daemon/src/main.rs:231-245 | upsert_world and the new session |
| Dispatcher.Dispatcher.OnInsert | daemon/src/main.rs:248-249 | The channel and the registry entry, which replaces an older one |
| Dispatcher.Dispatcher.OnAck | daemon/src/main.rs:255-266 | The HelloAck goes to the session's own queue, or is lost when the writer is gone |
| Dispatcher.Dispatcher.OnForward | daemon/src/main.rs:333-353 | Self-routing is refused first, then a payload that is not base64 |
| Dispatcher.Dispatcher.OnLookup | daemon/src/main.rs:354-362 | A clone of the target's sender, or unknown_peer |
| Dispatcher.Dispatcher.OnPush | daemon/src/main.rs:363-380 | try_send on that sender: queued, target_buffer_full or unknown_peer |
| Dispatcher.Dispatcher.OnCleanup | daemon/src/main.rs:276-277 | The entry of the peer id goes, whoever put it there |
| Dispatcher.Channel.TrySend | daemon/src/main.rs:369-373 | Closed is told apart from full, and nothing is queued in either case |
| Dispatcher.Channel.Send | daemon/src/main.rs:289-320 | A send that can complete: the frame is queued when the receiver lives, and lost otherwise |
| Dispatcher.Channel.Recv | daemon/src/main.rs:383-391 | The oldest frame leaves the queue |
| Dispatcher.Peer.Write | daemon/src/main.rs:383-391 | The frame in the hand of the writer is on the socket, or the write has failed and the writer has left its loop with the channel still open |
| Dispatcher.Peer.Finish | daemon/src/main.rs:383-391 | The receiver is dropped with the frames still queued |
| Dispatcher.Dispatcher.UpsertWorld | daemon/src/main.rs:395-431 | A known server_uuid keeps its peer id, an unknown one gets the fresh id; either is in the new world afterwards, first is true for the unknown one alone, and no other server and no sector changes |
| Database.InvAlways | daemon/src/main.rs:45-69 | After any operations on the tables, peer ids are unique and every sector is owned by a registered peer |
| Database.PeerIdsAreStable | daemon/src/main.rs:395-431 | A server_uuid keeps its peer id for ever |
| Database.WorldIsOfLastHello | daemon/src/main.rs:405-428 | After any operations on the tables a server is known once it has said hello, its peer id is that of its first hello, and its world id is that of its last one |
| Database.FirstExactly | daemon/src/main.rs:405-428 | first_registration is true exactly for the first hello of a server_uuid |
| Database.FirstAtMostOnce | daemon/src/main.rs:405-428 | So at most once |
| Database.ResolveIsLastClaim | daemon/src/main.rs:442-464 | Resolving gives the last claim, or nothing when there is none |
| Framing.Socket.ReadFrame | daemon/src/main.rs:468-481 | The body, for a length of 1 to 65536 that the stream has, and an error otherwise |
| Framing.Socket.WriteFrame | daemon/src/main.rs:483-490 | The prefix and the body are appended; only a length of 2^32 or more is refused |
| Framing.FrameReadsBack | daemon/src/main.rs:468-490 | A written frame reads back, whatever follows, exactly when its body has 1 to 65536 bytes |
| Framing.PrefixIsLittleEndian | daemon/src/main.rs:483-490 | The four bytes before a body are its length, lowest byte first |
| Framing.FramesReadBack | daemon/src/main.rs:468-490 | Any concatenation of such frames reads back as the list of bodies |
| Framing.ReadingStopsAtMisfit | daemon/src/main.rs:472-476 | A frame that does not fit ends the reading where it stands |
| Framing.WriteThenRead | daemon/src/main.rs:383-391 | The writer's loop followed by a reader's loop returns the same bodies |
| JsonFrames.DeliveryFits | daemon/src/main.rs:363-366 | The delivery made from an accepted object-form forward between uuid peer ids is shorter than that frame, so it fits the frame limit |
| JsonFrames.DeliveryReadsBack | daemon/src/main.rs:363-366 | The text of a delivery is an object whose three members read back as the type delivery, the sender and the payload, for any two strings |
| JsonFrames.EscapedReadsBack | daemon/src/main.rs:483-485 | Unescaping undoes escaping, for every string |
| Base64.ValidExactly | daemon/src/main.rs:342-353 | A payload is accepted exactly when it is the base64 encoding of some bytes |

## Left out

- Dom: the parser builds trees of values (`XmlDocument`), not the linked DOM, so that parsing and the pointer operations are verified apart; of the nodes that the parser makes, the table of unlinked nodes is followed by number.
- XmlDocument.XMLDocument.Parse: its strings are decoded when they are parsed, while the source decodes them at the first access; `LazyStrings.ReadTree` shows that this gives the same strings. The slices are a function of the text like the parse itself and are not recorded by the class; those of end tags, which the parser reads and drops at once, are not among them. Node lines are in the list of places that the parse makes (`XmlMarks`), not in the tree.
- XmlRoundTrip.DocumentRoundTrip: compact printing, and reading with the options of the document that was printed; pretty printing, and a reader with other options, are not covered.
- StrPair: strings set from outside the buffer (`SetStr`, `NEEDS_DELETE`) and `TransferTo`.
- tinyxml2: file input and output, number conversions, cloning and comparing, `XMLHandle`, attribute deletion, text shortcuts of elements.
- MemPools.MemPool.Alloc: the pools are verified on their own; in `Dom` a node is created and destroyed without naming its pool, and the counters of untracked items are only in `MemPools`.
- MemPools.DynArray.EnsureCapacity: sizes are unbounded; the assertions on `INT_MAX` and the embedded first array are not modelled.
- BakedKey.EmitHeader: folding the key into a default seed and the text of the header file are left out; the compiler is the function `Compiled`.
- EncryptTree.EncryptPass: walking the directory and the temporary file that is renamed; the list of files and the random nonces are parameters.
- FileStream.HookFileStream.Run: the engine's own streams are assumed to be plain files with the status convention of the source; `close` is not hooked by the source and is not an operation here, so that an entry lives until the next open or destruction. A null destination is covered for `FsTryRead` alone, as what the engine does with one is not known; writing is left out.
- FileStream: the lock, which protects one map lookup, and the flag for the first decrypted asset; a stream belongs to one thread, as the header says.
- Daemon: taking a frame from a queue, the end of its write and the end of the writer are steps; bytes of a write that fails half-way, keep-alive times (`last_seen_at`) and log lines are left out. A database error ends a session like a read error. Server names are compared as they are.
- Daemon: a connection whose first frame is no hello, or a hello with a blank name, ends without any effect and is not a session here; white space is ASCII.
- Daemon: JSON, sockets, SQL text and the scheduling of tasks; tables are maps with atomic operations, and a new uuid is any unused value.
- JsonFrames.DeliveryFits: ASCII texts; a forward given as a JSON array instead of an object is not covered.
- The hooks into the engine's memory, the loader, the reverse-engineering scripts, the server's configuration and the remaining game code.
