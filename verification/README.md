# Verified models of the IXML library and the GENA control point

The main part of this project models IXML, the in-memory XML library of the UPnP SDK: the parser that builds a
document from a buffer, the printer that writes it back, and the operations on the linked nodes in between. A second
part models the subscriber side of GENA as a system of interleaved threads. Two small companions model the expiring
device list of the sample control point and the IPv4 text conversions.

`dafny verify dfyconfig.toml` verifies everything.

## How the model is laid out

**Values.** `Utf8`, `NameTables` and `Lexer` say what the lexer computes from the buffer and an offset into it.
`Machine` is the parser as a state machine (element stack, cursor, namespaces, open elements), `Parse` runs it to the
end and proves that it ends, `MachineProperties`, `Scoping`, `Waiting` and `Validity` prove what every run keeps.
`Xml` holds documents as values, `Spelling` the ways in which a document may be written; `References`, `Reading`,
`NodeReading`, `SpelledParsing` and `SpelledDocuments` prove that each of them is parsed to that document, `Refusals`
what is refused. `Printing` and `Escaping` are the printer's text, which `RoundTrip` shows to be one such spelling,
and `LostWait` is an example.

**Nodes.** `Nodes` declares the class with the link fields of `ixml/inc/ixml.h:135-154` and the ghost view of them: a
`Forest` maps every node to its label, its child list, its attribute list, its place in them, and the rose tree below
it. `WF` says that such a map is a forest without cycles and `Holds(f)` that the fields of its nodes say what `f`
says. `Edits` describes the four edits on that view, `NodeOps` performs them on the fields; `FreeOrder`, `Freeing` and
`NodeFree` do the same for deallocation, `Disposal` joins the two, `Ownership` follows the owner documents, `Strands`,
`Cloning` and `Importing` for cloning, `Search` and `Attributes` for searches and attributes (the latter against the
insertion-ordered maps of `AttrMaps`).

**The parser and the printer in place.** `Scanner` (the lexing methods of the class `Parser`), `NodeReader` (one node)
and `TreeBuilder` (the main loop, linking nodes into a document) refine the machine step by step; `Building` relates
the open elements of the machine to the nodes built so far. `Membuf` is the growable buffer, `Printer` the printing
recursion over the nodes, which fills one; `Reprinting` prints a linked document and parses the text again.

**GENA.** `Gena` declares the states and steps of the threads, `GenaDelivery`, `GenaEvents`, `GenaLists` and
`GenaRemoval` prove what holds over every interleaving. **Companions:** `DeviceList`, `Inet4`.

Conventions: bytes are integers in 0..255 and strings are sequences of them; allocations succeed; the parser is in
strict mode (`g_error_char` is 0); reading past the end of the buffer gives 0; the character references of the lexer
are unbounded integers; `assert` is compiled out, as in a release build.

## Where the code differs from what one would expect

These are behaviours of the code that the model keeps; where a member is named, it proves them.

- `ixmlNode_free` does not free in the reverse of document order. `FreeOrder.ReverseIffLean` gives the exact condition
  (no first child that has a sibling after it has children), `FreeOrder.NotAlwaysReverse` the smallest exception. The
  comment at `ixml/inc/ixml.h:576-581` promises the before-free handler a top-down order; every node is handed over
  after what is below it.
- `Parser_getNextToken` measures one kind of token that `Parser_copyToken` does not copy in full: `</` whose solidus
  is an overlong UTF-8 sequence (`Parse.TokenCopied` gives the condition, `Parse.OverlongSolidus` a buffer). Its
  failure leaves `</` behind in the token buffer, and the reading still terminates.
- `Parser_isValidXmlName` looks at the rest of a name only if the first character can begin a name, so it accepts `1`
  and the empty string (`Attributes.ValidNameIffProper`).
- The scan of a CDATA section stops at the first byte that is no XML character as a signed `char` and then skips three
  bytes as if it stood at `]]>`. A section that is not empty is read as it was written if and only if every byte in it
  is a character below 128 that XML allows (`Validity.CDataReadIff`); `Validity.ShortCData` is one that is read as a
  shorter one.
- The deep clone of a document gives a parent to the first copied child only. `Importing.CloneConsistent` says that
  the links of a clone are those of a forest if and only if what was cloned is not such a document with more than one
  child to keep, `Cloning.CrowdedIff` that this means more than one top-level element, and `Cloning.TwoRoots` gives
  the smallest one.
- A comment ends at the first `-->`, which may be the one in `<!-->`, and is refused if a `-` comes right before that;
  so the empty comment `<!---->` is refused (`Refusals.CommentIff`).
- A default namespace declared on a prefixed element rebinds the element's own prefix (`Scoping.DefaultDeclared`).
- The replace branch of `ixmlElement_setAttributeNode` ends the list with the new node: the attributes after the
  replaced one are no longer reached from the element (`Attributes.SetAttributeNode`).
- `ixmlDocument_getElementById` and the tag search disagree for the name `*` (`Search.ByIdIsHead`).
- An element whose prefix is not bound waits for its namespace until a later element serves it, and in between an
  attribute of an element with another prefix can be refused: `Waiting.KidsAgree` says where, in terms of the
  document. So not every document that can be printed can be read again (`RoundTrip.StaleWait`), not even every one
  that was parsed (`LostWait.ParsedButNotServed`). `RoundTrip.PrintParse` has the exact condition.
- Printing loses text that is all white space and everything after the first text or CDATA node of a child list
  (`RoundTrip.ParsePrinted`), and cloning loses the latter (`Importing.AllKeptIffClonable`).

## Model

| member | source | states |
|---|---|---|
| Utf8.DecodeEncode | ixml/src/ixmlparser.c:781-844 | decoding an encoded character gives it back and skips exactly its bytes, for every character up to 0x7FFFFFFF and wherever it stands in a buffer |
| Utf8.EncodeDecode | ixml/src/ixmlparser.c:1048-1105 | encoding what was decoded restores the bytes if and only if they were in shortest form |
| Utf8.DecodeAllEncodeAll | ixml/src/ixmlparser.c:781-844 | the code is uniquely decodable: the concatenated encodings of any sequence of characters decode to that sequence |
| Utf8.DecodeFrame | ixml/src/ixmlparser.c:781-844 | decoding depends on nothing after the sequence it consumes |
| References.DecReferenceIff | ixml/src/ixmlparser.c:996-1011 | `&#` and more is read as the character c, and takes so many bytes, if and only if it is the decimal digits of c with any number of leading zeros and a semicolon |
| References.HexReferenceIff | ixml/src/ixmlparser.c:974-995 | `&#x` and more is read as the character c if and only if it is the hexadecimal digits of c, each in either case, with leading zeros and a semicolon |
| NameTables.LetterTable | ixml/src/ixmlparser.c:94-307 | the rows of the letter table are proper ranges in ascending order without overlap, which its binary search needs |
| NameTables.NameCharTable | ixml/src/ixmlparser.c:314-438 | the same of the table of the other name characters |
| NameTables.IsCharInTable | ixml/src/ixmlparser.c:852-876 | the binary search finds a character if and only if one of the rows holds it |
| NameTables.IsNameChar | ixml/src/ixmlparser.c:881-897 | a name may begin with what the first table holds and go on with what either holds |
| NameTables.NameIsXmlChar | ixml/src/ixmlparser.c:902-908 | every name character is an XML character of section 2.2 of XML 1.0 and none is white space or the start of a reference |
| NameTables.Punctuation | ixml/src/ixmlparser.c:1195-1270 | no character that begins another kind of token is a name character, so the kinds of tokens do not overlap |
| Parse.NameCopied | ixml/src/ixmlparser.c:1128-1190 | every run of name characters that is measured is copied in full |
| Parse.TokenCopied | ixml/src/ixmlparser.c:1195-1270 | every token that is measured is copied in full, except `</` with an overlong solidus, and what the copy then leaves |
| Parse.OverlongSolidus | ixml/src/ixmlparser.c:1195-1270 | a buffer in which the end-tag token is measured but copied in part: the read fails and leaves `</` behind |
| Parse.FailedToken | ixml/src/ixmlparser.c:1195-1270 | after a failed read the token buffer is empty or holds `</` |
| Parse.Progress | ixml/src/ixmlparser.c:2030-2138 | reading a node always moves the cursor forward, or leaves content for markup where it stands, in spite of every back-up of the cursor |
| Parse.StepProgress | ixml/src/ixmlparser.c:2565-2656 | so each iteration of the main loop lowers the pair of the bytes left and the state; the parser terminates on every buffer |
| Scoping.IterationBound | ixml/src/ixmlparser.c:2565-2656 | the main loop makes at most two iterations for each byte of the buffer, and one more |
| MachineProperties.ReadingEffect | ixml/src/ixmlparser.c:2030-2138 | what reading one node may do to the element stack and to the state |
| MachineProperties.StackMatchesStep | ixml/src/ixmlparser.c:2273-2328 | one iteration keeps the element stack equal to the names on the parent chain of the current node |
| MachineProperties.StackMatchesAlways | ixml/src/ixmlparser.c:2371-2444 | so does any number of them: at every iteration the stack read from the top is the chain from the current node to the root, and a document has at most one top-level element |
| MachineProperties.SecondNameCheck | ixml/src/ixmlparser.c:2498-2529 | the second comparison of names in the verification of an end tag never fails, and there is an element to close |
| MachineProperties.OpenLinearStep | ixml/src/ixmlparser.c:2565-2656 | each iteration adds exactly the event it has read to the linearisation of the tree under construction |
| MachineProperties.LogIsLinear | ixml/src/ixmlparser.c:2536-2667 | from any machine state on, the events read are those of the tree that is returned |
| MachineProperties.ParsedIsRead | ixml/src/ixmlparser.c:2536-2667 | the start tags, attributes, text and end tags consumed by a successful parse are exactly the linearisation of the returned document, which has at most one child, an element |
| Scoping.LookupIsInnermost | ixml/src/ixmlparser.c:2143-2177 | looking up a prefix finds the binding of the innermost open element that has one, and nothing if and only if none has |
| Scoping.DefaultIsInnermost | ixml/src/ixmlparser.c:2346-2364 | looking up the default namespace finds that of the innermost open element without a prefix that has one, and nothing if and only if none has |
| Scoping.OpenedInherits | ixml/src/ixmlparser.c:2404-2430 | a start tag pushes one scope with the innermost binding of its prefix, or the innermost default, and waits exactly if there is none and it has a prefix or attributes |
| Scoping.NsSetLookup | ixml/src/ixmlparser.c:1782-1847 | setting a declaration binds that prefix in the list of the element and leaves every other one alone |
| Scoping.NsSetDistinct | ixml/src/ixmlparser.c:1782-1847 | and keeps the list free of duplicates |
| Scoping.PrefixDeclared | ixml/src/ixmlparser.c:1735-1847 | an attribute xmlns:p binds p in the scope of its element and no other prefix |
| Scoping.DefaultDeclared | ixml/src/ixmlparser.c:1735-1770 | a default declaration binds no prefix except that of a prefixed element itself |
| Scoping.ScopeEffect | ixml/src/ixmlparser.c:2273-2328 | an iteration pushes one scope, pops one, or changes at most the top one, depending on what was read |
| Scoping.ScopedAlways | ixml/src/ixmlparser.c:1782-1847 | over every run no element holds two declarations of one prefix |
| Scoping.OuterKept | ixml/src/ixmlparser.c:2346-2364 | while more elements stay open than k, the scopes of the k outermost do not change |
| Scoping.BalancedScopes | ixml/src/ixmlparser.c:2472-2493 | after a balanced element the whole scope environment is what it was before its start tag |
| Validity.ParsedIsValid | ixml/src/ixmlparser.c:1442-1569 | whatever buffer is parsed, the document returned holds only valid names, distinct attributes of an element and well-formed character data |
| Validity.CDataReadIff | ixml/src/ixmlparser.c:1391-1437 | a CDATA section is read with its value, the cursor going behind it, if and only if the value is valid CDATA text |
| Validity.ShortCData | ixml/src/ixmlparser.c:1408-1425 | a section with a byte above 127 is read with the shorter value before that byte, and the cursor ends inside its end mark |
| Escaping.UnescapeEscape | ixml/src/ixml.c:49-83 | copying an escaped string as a token gives the string back if and only if it is not empty and consists of XML characters in shortest-form UTF-8 |
| Escaping.EscapeIsClean | ixml/src/ixml.c:49-83 | an escaped string holds no angle bracket, no quote and no `]]>`, so neither the content scan nor the search for the end quote stops inside it |
| Escaping.CopyYields | ixml/src/ixmlparser.c:1128-1190 | whatever is copied from a buffer is well-formed, even when the copy fails half-way |
| Escaping.ReferenceChar | ixml/src/ixmlparser.c:913-1025 | each of the five named references is read as the character it stands for, whatever follows it |
| NodeReading.PiecesCopied | ixml/src/ixmlparser.c:1128-1190 | any run of characters, each as it stands or as a named or numeric reference, is copied as those characters |
| NodeReading.ReadAttr | ixml/src/ixmlparser.c:1871-2023 | an attribute with white space around its parts, either kind of quotes and any references in its value is read with its name and value, up to what follows it: another attribute, `>` or `/>` |
| SpelledParsing.ReadElem | ixml/src/ixmlparser.c:2565-2656 | however an element is written, empty-element tags included, the run over it adds exactly the tree it says to the current node, or fails if an attribute is refused for an element that waits |
| SpelledDocuments.PrologueSkipped | ixml/src/ixmlparser.c:708-744 | an order mark, a declaration, comments, instructions and a document type with nested brackets and quoted strings are skipped |
| SpelledDocuments.SpelledIsParsed | ixml/src/ixmlparser.c:2536-2667 | a document spelled in any of these ways is parsed to what it says; it fails if an attribute is refused for an element that waits, and otherwise is refused if a second element, text or CDATA follows the document element |
| SpelledDocuments.PrologueAlone | ixml/src/ixmlparser.c:2565-2656 | a prologue without a document element is parsed to an empty document |
| Refusals.UnknownReference | ixml/src/ixmlparser.c:1012-1025 | an ampersand that begins no reference is no character |
| Refusals.TextRefused | ixml/src/ixmlparser.c:1508-1569 | text is refused if it comes to `]]>`, or to something that is no character |
| Refusals.BadValue | ixml/src/ixmlparser.c:1927-1957 | an attribute value is refused if it holds a `<`, or something that is no character |
| Refusals.NoEndQuote | ixml/src/ixmlparser.c:1927-1957 | so is a value without the quote that ends it |
| Refusals.NoQuote | ixml/src/ixmlparser.c:1918-1926 | so is an attribute without quotes |
| Refusals.BadEnd | ixml/src/ixmlparser.c:1574-1644 | so is an end tag with more than its name |
| Refusals.CommentIff | ixml/src/ixmlparser.c:644-664 | a comment is passed over up to e if and only if the first `-->` ends there and no `-` comes before it; otherwise it is refused |
| Refusals.OpenAtEnd | ixml/src/ixmlparser.c:2565-2667 | the end of the buffer inside an element is a syntax error |
| Printing.NormalIffCanonical | ixml/src/ixml.c:89-182 | printing preserves exactly the child lists that are elements followed by at most one text or CDATA node, which is not blank |
| Printing.Sample | ixml/src/ixml.c:89-182 | the text of a small document, byte by byte, with its line ends |
| Waiting.KidsAgree | ixml/src/ixmlparser.c:1693-1864 | the namespace stack and the waiting element of the parser refuse an attribute of a child list exactly where the document does by its prefixes and declarations alone: at an element with attributes, while an element of another prefix waits, unless that element has an unbound prefix, or none and no default is declared around it |
| Waiting.ServedIff | ixml/src/ixmlparser.c:2371-2444 | so the condition on a whole document, read off its names and attributes, is that of the parser |
| Waiting.BoundNeverWaits | ixml/src/ixmlparser.c:2404-2430 | if every element prefix is bound around the element or declared by it, nothing waits and nothing is refused |
| Waiting.NormalBound | ixml/src/ixml.c:89-182 | and printing keeps that condition |
| Reading.NameToken | ixml/src/ixmlparser.c:1195-1270 | a valid name that something other than a name character follows is read back as one token |
| RoundTrip.PrintedIs | ixml/src/ixml.c:89-182 | the printed text of a child list is a spelling of what printing preserves of it |
| RoundTrip.ParsePrinted | ixml/src/ixml.c:377-392 | for every document of valid names, distinct attributes and valid character data: parsing its printed text gives what printing preserves of it, or a failure if an attribute is refused while another element waits for its namespace, or else a syntax error if there is a second top-level element |
| RoundTrip.PrintParse | ixml/src/ixmlparser.c:2536-2660 | for every document, with or without namespaces: printing and parsing is the identity if and only if the document has at most one top-level element, is canonical, holds only valid names, distinct attributes and valid character data, and no attribute of it is refused for an element that waits |
| RoundTrip.SecondTrip | ixml/src/ixml.c:89-182 | whatever one round trip loses, a second one loses nothing more, and is not refused |
| RoundTrip.ReprintAnyBuffer | ixml/src/ixml.c:377-392 | for any buffer that parses, printing its document and parsing again gives what printing preserves of it, or is refused for an element that waits in what is printed |
| RoundTrip.StaleWait | ixml/src/ixmlparser.c:1714-1717 | a canonical and valid document of two elements whose printed text is refused |
| LostWait.ParsedButNotServed | ixml/src/ixmlparser.c:1693-1730 | a buffer that is parsed to a document whose printed text is refused, because printing drops the element that ended a wait |
| Reprinting.Reprint | ixml/src/ixml.c:377-392 | on linked nodes: parsing what DocumentToString leaves in its buffer delivers a document of the same value if and only if the first has at most one top-level element, is canonical and valid, and nothing is refused for an element that waits; without the second condition, what printing preserves of it |
| Edits.AncestralIffBelow | ixml/src/node.c:419-441 | for a node without a parent, or that is a child of the target already, the recursive ancestor test is exactly reachability |
| Edits.OwnChild | ixml/src/node.c:419-441 | the test never rejects a node that is a child of the target already |
| Edits.ChecksSuffice | ixml/src/node.c:536-582 | what passes the checks can be linked without making a cycle or giving children to an attribute |
| Edits.AppendActs | ixml/src/node.c:646-690 | appending puts the child last, moving it there if it was in the list; no other list changes |
| Edits.InsertActs | ixml/src/node.c:536-582 | inserting puts it just before the reference child; no other list changes |
| Edits.ReplaceActs | ixml/src/node.c:584-620 | replacing puts it in the place of the old child, which ends up without a parent; no other list changes |
| Edits.RemoveActs | ixml/src/node.c:622-644 | removing takes the child out of the list and leaves it without a parent; no other list changes |
| Edits.EditsKeep | ixml/src/node.c:536-690 | over any run of edits, refused ones included, the nodes stay a well-formed forest in which no node is below its own child |
| Edits.EditsProper | ixml/src/node.c:471-508 | over any run of edits every child stays of a type its parent may have |
| NodeOps.IsAncestor | ixml/src/node.c:419-441 | the recursion over first children and next siblings computes the test |
| NodeOps.RemoveChild | ixml/src/node.c:622-644 | the exact error codes; on success the fields hold the forest without the child in its list, on error nothing changes |
| NodeOps.AppendChild | ixml/src/node.c:646-690 | the exact error codes in their order; on success the fields hold the forest with the child last and the child has the owner document of the parent, on error nothing changes |
| NodeOps.InsertBefore | ixml/src/node.c:536-582 | the exact error codes; on success the fields hold the forest with the child before the reference child, on error nothing changes |
| NodeOps.ReplaceChild | ixml/src/node.c:584-620 | the exact error codes; on success the fields hold the forest with the child in the place of the old one, on error nothing changes |
| Ownership.AppendAgrees | ixml/src/node.c:646-690 | if every child belongs to the document of its parent or to none, that is so after an append that passes the checks |
| Ownership.InsertAgrees | ixml/src/node.c:536-582 | the same of inserting |
| Ownership.ReplaceAgrees | ixml/src/node.c:584-620 | the same of replacing |
| Ownership.RemoveAgrees | ixml/src/node.c:622-644 | the same of removing |
| Disposal.RestIsForest | ixml/src/node.c:622-644 | without a tree that hangs nowhere, with its attributes, a forest is still one |
| Disposal.FreedIffGoes | ixml/src/node.c:174-182 | the nodes freed with a tree are exactly those in it and their attributes |
| Disposal.RemoveAndFree | ixml/src/node.c:622-644 | without a place for the removed child: the exact error codes; on success the child is taken out and its tree freed in the freeing order, and the fields hold the forest of the other nodes |
| Disposal.ReplaceAndFree | ixml/src/node.c:584-620 | the same of replacing without a place for the old child |
| FreeOrder.OrderStep | ixml/src/node.c:140-158 | the freeing order as a function of the tree: the node found by the search comes first, then the order of the rest |
| FreeOrder.OrderIsPermutation | ixml/src/node.c:126-184 | every node is freed exactly as often as it is in the tree |
| FreeOrder.BelowGoesFirst | ixml/inc/ixml.h:576-581 | wherever a tree occurs, everything below its root is freed before the root, contrary to the top-down order the comment promises |
| FreeOrder.ReverseIffLean | ixml/src/node.c:126-184 | the order is the reverse of document order if and only if no first child with a sibling after it has children |
| FreeOrder.NotAlwaysReverse | ixml/src/node.c:126-184 | a tree of four nodes for which it is not |
| Freeing.NextToFree | ixml/src/node.c:140-154 | the inner loops stop at the node that is freed next, a childless node without a next sibling |
| Freeing.RestOfTree | ixml/src/node.c:164-172 | cutting that node off leaves the tree that remains to be freed |
| Freeing.Resume | ixml/src/node.c:164-172 | resuming the search at the previous sibling or at the parent finds what a search from the root would find |
| NodeFree.NodeFree | ixml/src/node.c:126-184 | the loop terminates, frees the nodes of the tree in exactly that order, each right after its attributes, hands them to the handler in that order, touches no other node, and never depends on a field of a freed node |
| NodeFree.HandledOnce | ixml/src/node.c:174-182 | the handler sees exactly the nodes of the tree, each once |
| NodeFree.FreedOnce | ixml/src/node.c:156-182 | every node of the tree and every attribute is freed exactly once |
| NodeFree.HandledInReverse | ixml/inc/ixml.h:576-581 | when the handler sees the reverse of document order |
| Search.AddToNodeList | ixml/src/nodeList.c:75-116 | walking to the tail and linking a cell appends to the list, whatever cells it had |
| Search.Item | ixml/src/nodeList.c:49-73 | the item at an index, or none past the end |
| Search.Length | ixml/src/nodeList.c:118-130 | the number of cells |
| Search.GetElementsByTagNameRecursive | ixml/src/node.c:1247-1270 | the first-child and next-sibling recursion appends the matching elements of a chain of siblings in document order |
| Search.GetElementsByTagName | ixml/src/node.c:1272-1287 | the search appends the matching elements of the tree of the start node in document order |
| Search.SelectedExactly | ixml/src/node.c:1247-1287 | what it finds is exactly the matching elements at or below the start node, each once, and none of its siblings |
| Search.GetElementById | ixml/src/document.c:512-558 | the recursion returns the first element of the name at or below the node, or else at or below the siblings after it |
| Search.ByIdIsHead | ixml/src/document.c:512-558 | on a node without a next sibling that is the head of the list of the tag search for every name other than `*`, and for `*` exactly when there is no element or the first one really has that name |
| AttrMaps.GetPut | ixml/src/element.c:103-167 | what is set is got, and every other name keeps its value |
| AttrMaps.GetClear | ixml/src/element.c:169-195 | a removed attribute has no value, and every other name keeps its own |
| AttrMaps.OrderKept | ixml/src/element.c:103-195 | setting keeps the order of the names, a new one going last; removing keeps the entry and its position; names stay unique |
| AttrMaps.RunIsMap | ixml/src/element.c:82-195 | over any run of sets and removals the names stay unique, none is lost or moved, and each value is that of the last operation on it |
| Attributes.IsValidXmlName | ixml/src/ixmlparser.c:2669-2689 | the loop computes the name check |
| Attributes.ValidNameIffProper | ixml/src/ixmlparser.c:2669-2689 | the check agrees with section 2.3 of XML 1.0 if and only if the first character can begin a name; two strings on which it does not |
| Attributes.GetAttribute | ixml/src/element.c:82-101 | the value of the map the attribute list stands for |
| Attributes.HasAttribute | ixml/src/element.c:641-659 | whether the list has an entry of the name, with or without a value |
| Attributes.SetAttribute | ixml/src/element.c:103-167 | the exact error codes, a missing name or value included; on success the linked list of the element is the map with the name put, and no other list of any node changes |
| Attributes.RemoveAttribute | ixml/src/element.c:169-195 | on success the linked list is the map with the value cleared, and no other list changes |
| Attributes.SetAttributeNode | ixml/src/element.c:219-281 | the exact error codes; a new name is appended; for a name that is taken, the old node is returned and the list from the element on ends with the new node |
| Cloning.CloneNodeTreeRecursive | ixml/src/node.c:961-1057 | the recursion builds a list of new nodes with consistent links that are copies of the nodes it keeps, in order; every copy has the label, the namespace fields, the children and the attributes of its original as far as they are kept; for a document with more than one child to keep, the children are as good but only the first has a parent |
| Cloning.CloneElementTree | ixml/src/node.c:985-1016 | a cloned element has all the attributes of the original in order and, in a deep clone, its children, linked under it |
| Cloning.CrowdedIff | ixml/src/node.c:1029-1039 | among documents, those with more than one top-level element, and only in a deep clone, have more than one child to keep |
| Cloning.TwoRoots | ixml/src/node.c:1034-1037 | a document with two elements is one |
| Cloning.OrphansInNoForest | ixml/src/node.c:1034-1037 | the clone of such a document is in no consistent forest |
| Strands.UnionHolds | ixml/src/node.c:961-1057 | forests of disjoint nodes hold together, so a clone apart from its source leaves it as it was |
| Importing.CloneNode | ixml/src/node.c:1129-1149 | the copy is made of new nodes only, has no parent and no siblings, and there is one exactly for the types that are cloned; deep or not, of any node |
| Importing.CloneConsistent | ixml/src/node.c:1034-1037 | the links of a clone are those of a forest if and only if it is not the deep clone of a document with more than one child to keep |
| Importing.CopySays | ixml/src/node.c:1064-1127 | a deep copy says exactly what is kept of its original, all the way down |
| Importing.AllKeptIffClonable | ixml/src/node.c:961-1057 | nothing is lost if and only if, by the types of the nodes alone, only elements and documents have children and each of their child lists is elements before its last node, and documents have the usual name |
| Importing.KeptToTheEnd | ixml/src/node.c:1018-1057 | a child list is kept to its end if and only if nothing but elements comes before its last node |
| Importing.CopyHasLabel | ixml/src/node.c:692-960 | every node of a copy, deep or not, has the type, the name and the value of its original; a document has the usual name |
| Importing.CloneSaysTheSame | ixml/src/node.c:1129-1149 | a deep copy says the same as its original, all the way down, if and only if that condition on types holds |
| Importing.ShallowCopy | ixml/src/node.c:1129-1149 | a copy that is not deep has the attributes of its original and no children |
| Importing.SetOwnerDocument | ixml/src/document.c:64-77 | exactly the nodes at and below the given one and its next siblings get the document; attributes keep theirs |
| Importing.ImportNode | ixml/src/document.c:79-105 | the exact error codes; on success a new copy all of whose nodes but the attributes belong to the document |
| Membuf.RoomEnough | ixml/src/ixmlmembuf.c:54-101 | the capacity chosen is always enough, never smaller when the string grows, and wastes at most the increment when it shrinks |
| Membuf.OneInTwenty | ixml/src/inc/ixmlmembuf.h:47 | n appends of one byte from empty reallocate exactly n / 20 times, rounded up |
| Membuf.Buffer.SetSize | ixml/src/ixmlmembuf.c:54-101 | the new capacity, when the block is a new one, and which of the old bytes are kept: all when the buffer grows, those up to the new capacity when it shrinks |
| Membuf.Buffer.Assign | ixml/src/ixmlmembuf.c:123-148 | the contents become the string, with a NUL behind it |
| Membuf.Buffer.Insert | ixml/src/ixmlmembuf.c:175-210 | the string is put in at the index with what was before and behind it kept; an index past the end is refused |
| Membuf.Buffer.Append | ixml/src/ixmlmembuf.c:155-164 | the byte is put at the end |
| Membuf.PerformAll | ixml/src/ixmlmembuf.c:103-210 | over any run of assignments, insertions and destructions the buffer stays terminated and within its capacity, and holds what the operations say |
| Membuf.AppendBytes | ixml/src/ixmlmembuf.c:155-164 | filling a buffer byte by byte yields the string and reallocates once for every twenty bytes begun |
| Printer.CopyWithEscape | ixml/src/ixml.c:49-83 | appends the escaped string to the buffer, nothing for a missing one |
| Printer.PrintDomTreeRecursive | ixml/src/ixml.c:89-182 | appends the text of a list of siblings to the buffer, up to and including the first text or CDATA node |
| Printer.DocumentToString | ixml/src/ixml.c:377-392 | the buffer holds exactly the printed text of the document the nodes stand for |
| Scanner.ReadChar | ixml/src/ixmlparser.c:913-1025 | the next character with references replaced, or -1, and the bytes it takes |
| Scanner.Parser.SkipMiscellany | ixml/src/ixmlparser.c:669-703 | skips comments, processing instructions and white space |
| Scanner.Parser.SkipPrologue | ixml/src/ixmlparser.c:708-744 | skips the prologue with its declaration and document type |
| Scanner.Parser.CopyIntoToken | ixml/src/ixmlparser.c:1128-1190 | the token buffer holds what the copy yields, even when it fails |
| Scanner.Parser.GetNextToken | ixml/src/ixmlparser.c:1195-1270 | the length of the next token, the token buffer and the cursor after it; where the end of an empty tag is remembered |
| Scanner.CopiedCompleteTag | ixml/src/ixmlparser.c:1992-2011 | a token is copied as `/>` exactly if it is one, so the back-up of the cursor goes to it |
| NodeReader.ProcessSTag | ixml/src/ixmlparser.c:1292-1352 | reads a start tag as the machine does, with its back-up of the cursor |
| NodeReader.ProcessETag | ixml/src/ixmlparser.c:1574-1644 | reads an end tag as the machine does |
| NodeReader.ProcessCDSect | ixml/src/ixmlparser.c:1391-1437 | reads a CDATA section as the machine does |
| NodeReader.ProcessContent | ixml/src/ixmlparser.c:1442-1569 | reads character data and decides on markup as the machine does |
| NodeReader.SetNamespace | ixml/src/ixmlparser.c:1782-1847 | the walk over the declarations of an element replaces the entry of the prefix or appends one |
| NodeReader.AddNamespace | ixml/src/ixmlparser.c:1693-1730 | gives the waiting element its namespace from the top of the stack, and stops waiting |
| NodeReader.XmlNamespace | ixml/src/ixmlparser.c:1735-1864 | changes the top scope as the attribute declares, and serves the waiting element |
| NodeReader.ProcessAttribute | ixml/src/ixmlparser.c:1871-2023 | reads an attribute as the machine does, looks ahead for the next token and backs up |
| NodeReader.GetNextNode | ixml/src/ixmlparser.c:2030-2138 | reads one node in place exactly as the machine reads it |
| Building.OpenMirrors | ixml/src/ixmlparser.c:2371-2444 | a start tag: the new node at the end of the children of the current one stands for the new frame |
| Building.LeafMirrors | ixml/src/ixmlparser.c:2590-2615 | text or CDATA: the new last child is finished and has the value read |
| Building.AttrMirrors | ixml/src/ixmlparser.c:2234-2266 | an attribute: the new last attribute node has the name and value read |
| Building.CloseMirrors | ixml/src/ixmlparser.c:2498-2529 | an end tag: the closed node is finished with the value of its frame |
| Building.FinishedValue | ixml/src/ixmlparser.c:2536-2667 | the links below a finished node spell the value the machine has read |
| TreeBuilder.IsDuplicateAttribute | ixml/src/ixmlparser.c:2207-2227 | the walk over the attribute nodes finds a name exactly if the element has it |
| TreeBuilder.ProcessAttributeName | ixml/src/ixmlparser.c:2234-2266 | an attribute is refused if its name is taken, and nothing changes then; otherwise it becomes the last one |
| TreeBuilder.ProcessElementName | ixml/src/ixmlparser.c:2371-2444 | a second top-level element is refused; otherwise the element becomes the last child of the current node, the current node, and the top of the stack |
| TreeBuilder.ETagVerification | ixml/src/ixmlparser.c:2498-2529 | both names are compared; on success the stack is popped and the parent becomes current |
| TreeBuilder.Iterate | ixml/src/ixmlparser.c:2565-2656 | one iteration over the linked nodes does exactly one step of the machine |
| TreeBuilder.ParseDocument | ixml/src/ixmlparser.c:2536-2667 | the main loop terminates; it returns a document whose links spell the value the machine returns, or the error code of the machine, and then no document |
| TreeBuilder.ParseBuffer | ixml/src/ixml.c:418-429 | parsing a buffer, and refusing a missing one |
| GenaDelivery.InvStep | upnp/src/gena/gena_ctrlpt.c:592-648 | every step of every thread keeps the invariant: the subscribe lock has one holder, and an accepted subscription is listed or about to be, unless it was removed or its subscribing failed |
| GenaDelivery.InvNotifyAgain | upnp/src/gena/gena_ctrlpt.c:846-866 | the second lookup, made under the subscribe lock, happens while no subscription is about to be linked |
| GenaDelivery.InitialEventDelivered | upnp/src/gena/gena_ctrlpt.c:829-866 | in every interleaving, an initial event sent for an accepted subscription has been delivered to its client once it has been processed, if the subscribing succeeded and neither the subscription nor the client was removed |
| GenaDelivery.EarlyEvent | upnp/src/gena/gena_ctrlpt.c:832-866 | a run in which that event comes before its subscription is listed, the first lookup fails, and the second one delivers it |
| GenaEvents.DeliveredIffListed | upnp/src/gena/gena_ctrlpt.c:829-892 | in every interleaving and for every key: from the spawning of a notifier until it is done, a client whose list has the subscription all the time is delivered to, and a client is delivered to only if its list has the subscription at some time |
| GenaLists.StepChangesOne | upnp/src/gena/gena_ctrlpt.c:473-743 | a step changes at most one list of subscriptions, and in it at most one entry |
| GenaLists.NeverBack | upnp/src/gena/gena_ctrlpt.c:706-731 | in every interleaving a subscription removed while its renewal is on the network is never brought back |
| GenaLists.IdsAlways | upnp/src/gena/gena_ctrlpt.c:612-636 | over every run the client ids in the lists are all different |
| GenaLists.RenewLeavesOthers | upnp/src/gena/gena_ctrlpt.c:664-743 | no step of a renewal touches an entry of another id or another client |
| GenaRemoval.UnsubscribeTakesOut | upnp/src/gena/gena_ctrlpt.c:506-560 | the last step of an unsubscription succeeds if and only if the client is there, and then has taken exactly the entry of its id out of the client's list |
| GenaRemoval.RenewalBegins | upnp/src/gena/gena_ctrlpt.c:664-690 | a renewal begins if and only if the id is listed, with the timer of its entry cleared |
| GenaRemoval.RenewalEnds | upnp/src/gena/gena_ctrlpt.c:700-743 | a renewal succeeds if and only if the publisher has answered, the id is still listed and the next renewal can be scheduled, and then the entry has the publisher's new id and the new timer; failing for the network takes the entry out |
| GenaRemoval.GoneForGood | upnp/src/gena/gena_ctrlpt.c:506-560 | in every interleaving, after an unsubscription that succeeded or a renewal that failed for the network the id is in no list, and in none at any later time |
| GenaLists.UnregisterEmpties | upnp/src/gena/gena_ctrlpt.c:473-503 | an undisturbed unregistration empties the list of its client in one round for each entry, and succeeds |
| GenaLists.UnregisterSucceedsEmpty | upnp/src/gena/gena_ctrlpt.c:476-488 | in any state it succeeds if and only if the client is there with an empty list; with a list that is not empty it goes on to take out exactly the first entry |
| GenaLists.LockHolderMoves | upnp/src/gena/gena_ctrlpt.c:592-648 | the holder of the subscribe lock is never blocked |
| GenaLists.LostOnlyByRemoval | upnp/src/gena/gena_ctrlpt.c:544-551 | a subscription counts as lost only in a step in which its entry or its client goes, or the entry gets another publisher's id |
| DeviceList.RunKeepsTime | upnp/sample/common/tv_ctrlpt.c:154-187 | over every run of advertisements, removals and sweeps the devices stay unique and each is known exactly with the time its last advertisement has left |
| DeviceList.DroppedOnTime | upnp/sample/common/tv_ctrlpt.c:1193-1242 | a device advertised for e seconds and not heard of again is dropped on exactly sweep number e / incr, rounded up, whatever happens to other devices |
| DeviceList.InSwept | upnp/sample/common/tv_ctrlpt.c:1200-1238 | what a sweep leaves: exactly the devices with time left, counted down |
| DeviceList.SweptUnique | upnp/sample/common/tv_ctrlpt.c:1200-1238 | a sweep keeps the devices unique and adds none |
| DeviceList.GlobalList.AddDevice | upnp/sample/common/tv_ctrlpt.c:697-799 | a known device is refreshed in its place, another one goes to the end; the list stays linked without a cycle |
| DeviceList.GlobalList.RemoveDevice | upnp/sample/common/tv_ctrlpt.c:154-187 | exactly the device of that name is taken out and freed |
| DeviceList.GlobalList.VerifyTimeouts | upnp/sample/common/tv_ctrlpt.c:1193-1242 | walking the list while deleting from it counts every device down once and keeps those with time left, in order |
| Inet4.SplitIsCut | upnp/src/inet_pton.c:171-202 | the stretches an address is judged by have no dots, and with dots between them they are the text |
| Inet4.HopelessPrefix | upnp/src/inet_pton.c:180-195 | wherever the loop gives up, no continuation of what was read is an address |
| Inet4.Pton4 | upnp/src/inet_pton.c:171-202 | accepts exactly four non-empty runs of digits between single dots, each of value at most 255, and writes these values; writes nothing otherwise |
| Inet4.Ntop4 | upnp/src/inet_pton.c:38-70 | writes the four numbers in decimal without leading zeros and a NUL into the destination, if the text fits, and leaves the rest of it alone; otherwise leaves all of it |
| Inet4.PrintedIsRead | upnp/src/inet_pton.c:38-70 | whatever is printed is accepted, gives the four octets back, and has no leading zeros |

## Left out

- NodeOps.AppendChild: requires that a child that passes the checks has no parent or is a child of the target already, is not the target itself, and is not held as an attribute. The code detaches only in the second case (ixml/src/node.c:668-670), so a node moved from elsewhere stays linked there, and a node without a parent that is appended to itself becomes its own parent.
- NodeOps.InsertBefore: a missing reference child counts as not found, as with `assert` compiled out; the new child must not be the reference child, and the rest as for AppendChild.
- NodeOps.ReplaceChild: the same requirements; in particular the new child must not be the old child.
- NodeOps.RemoveChild: the call with a place for the child; Disposal.RemoveAndFree is the one without.
- NodeFree.NodeFree: freeing the strings of a node is not modelled; a freed node is one whose fields may hold anything. The node must have no next sibling, as after being taken out of its list; with one the loop would free the siblings after it too.
- Search.GetElementsByTagName: the variants that compare namespaces are not modelled.
- Attributes.SetAttributeNode: for a name that is taken only the list from the element on is described, not what becomes of the nodes cut off; the case of a null rtAttr, which frees the old node, and setAttributeNodeNS are not modelled.
- Attributes.IsValidXmlName: `char` is taken as signed, so bytes from 128 on are no name characters there; likewise in Lexer.GetChar with Scanner.ReadChar, and in Machine.CDataEnd with NodeReader.ProcessCDSect.
- Cloning.CloneNodeTreeRecursive: requires that every child is of a type its parent may have, which every run of edits keeps (Edits.EditsProper); so do the other cloning methods.
- Importing.CloneNode: cloned attributes belong to no document.
- Membuf.Buffer.Assign: requires a block when the string is empty, since the code writes a NUL through the missing block of a fresh buffer.
- Printer.DocumentToString: requires documents of elements, text and CDATA, the last with a value; comments, processing instructions and other node types are not modelled.
- Scanner.ReadChar: numeric references are unbounded integers, and the digit loops look for digits only (the code's `strchr` also matches the terminating NUL).
- TreeBuilder.ParseBuffer: the URI given to an element is part of the parser's state only while the element waits for it; the value of a document has no namespaces, and no namespace correctness is claimed.
- TreeBuilder.ParseDocument: the node of a text that is refused directly under the document is dropped without being freed, as in the code.
- SpelledDocuments.SpelledIsParsed: the spellings are those of XML 1.0, with three exceptions that the code makes: comments that it ends early or refuses (Refusals.CommentIff), CDATA sections that it reads as shorter ones or refuses (Validity.CDataReadIff), and names, which are in shortest-form UTF-8. What the parser accepts beyond XML, such as comments inside tags, attributes without white space between them and names of references in capitals, is not described.
- RoundTrip.PrintParse: the value of a document holds names, attributes and text; the namespace URIs of its nodes are neither printed nor compared.
- GenaDelivery.InitialEventDelivered: publisher's ids are matched exactly, new ids are fresh, and a publisher sends an initial event only for a subscription it has accepted; a renewal that changes the publisher's id counts as a removal of the old one.
- GenaLists.UnregisterEmpties: for a thread that is not disturbed; against others that keep subscribing the loop need not end.
- Inet4.Ntop4: the size test admits a text of exactly the given size, which leaves no room for its NUL; the destination is required to have that room.
- The token buffer and the last element name of the parser are byte sequences, not buffers of Membuf, and the element stack and its declarations are sequences, not linked lists.
- Allocation failures, the file readers, the lenient mode with a replacement character, and debug printing.
- The accessors of documents, nodes and elements, comparison of nodes, and the attribute maps (easy members only).
- In GENA: HTTP and sockets, timers, the failure to schedule a renewal after linking (upnp/src/gena/gena_ctrlpt.c:638-646), the entry with an invalid handle, which takes the locks in the other order (upnp/src/gena/gena_ctrlpt.c:585-588), and automatic renewal.
- IPv6 text, and everything else of the SDK: servers, SSDP, SOAP, the thread library, the generated accessor classes.
