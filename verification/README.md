# Verified core of the MusicXML reader

This project models the hard parts of a MusicXML library for Go and proves what they are for:

* **The XML source reader.** A byte cursor decodes UTF-8, UTF-16 or Latin-1 out of a refill
  buffer, normalizes line ends (section 2.11 of XML 1.0) and tracks positions. A stack of
  replacement frames implements entities (section 4.4 of XML 1.0). Attribute values are expanded
  iteratively over that stack (sections 3.3.3 and 4.4.5). A namespace table with an undo log
  replaces a stack of scopes, and an observer keeps a second one. Tokens are delivered as a grammar
  without reader, stack or account says. What is written is read back: encoded texts, references to
  characters and entities, qualified names, declared attributes, tags, whole trees; and whatever is
  read was written so.
* **The ZIP observer and its metered streams.** The observer accepts a file only if local entries,
  central directory and end record tile it exactly (sections 4.3.7, 4.3.9, 4.3.12 and 4.3.16 of the
  PKWARE APPNOTE), and of an archive that is written field by field it finds every member where it
  was put. Everything that is expanded afterwards counts on one shared counter.
* **Traversals of object graphs that may be cyclic.** The nesting check of opus documents, the
  model walker, the opus resolver and its write-back.
* **Rule closure.** The fixpoint over rule dependencies, pruning and renaming.

Each part has a simple specification beside the state machine: recursive expansion, decoding and
then normalizing, a grammar, a stack of scopes, a recursive traversal, a tiling, a pruned tree, a
least closed set. The classes carry the fields the program updates, their methods are proved against the
specification functions, and the lemmas say what those functions mean. Where a function and a
method share a computation (numerals, code units, record fields, qualified names, the positions a
walk follows), its meaning is stated a third time from the other side, by a writer or by a relation
that calls neither.

## How to read it

| file | what it holds |
|---|---|
| `Account.dfy` | the shared resource account |
| `Utf8.dfy`, `SourceText.dfy`, `Cursor.dfy` | characters, the text of a byte source, the byte cursor with its two fast paths |
| `EncodedText.dfy` | texts as they are written in each encoding, and that they are read back |
| `Expansion.dfy`, `EntityFrames.dfy`, `Namespaces.dfy`, `TokenReader.dfy` | the specification of attribute values, the frame stack, scopes and undo logs, the reader |
| `Markup.dfy`, `Tokenizer.dfy` | the grammar of tokens, and the tokens as they are read character by character |
| `References.dfy`, `WrittenValue.dfy`, `WrittenMarkup.dfy`, `WrittenAttributes.dfy` | references, values, markup and declared attributes as they are written, and what is read of them |
| `Written.dfy`, `WrittenTree.dfy` | documents and trees as they are written, and that they are read back |
| `DocumentSource.dfy` | cursor and reader together: from bytes to attribute values |
| `SourceObserver.dfy`, `NamespaceFilter.dfy` | the observer's namespace table, the filter that hides foreign markup from the model |
| `ZipFormat.dfy`, `ZipInventory.dfy`, `HeapSort.dfy`, `ZipArchive.dfy` | record formats, what an inventory is, the heap sort, the observer |
| `ZipWritten.dfy` | archives as they are written, and what is observed of them |
| `Expanded.dfy`, `ResourceBody.dfy`, `PackageBody.dfy` | metered streams under one counter, reading a body that is handed over, and both together |
| `DocumentDepth.dfy`, `ModelWalk.dfy`, `ModelTree.dfy`, `ModelWalker.dfy` | the nesting check, the recursive model traversal, the tree it tells and the explicit-stack walker |
| `NestingLevel.dfy`, `ArchivePath.dfy`, `OpusGraph.dfy`, `OpusResolver.dfy`, `OpusSync.dfy` | levels of nested documents, archive paths, resolved opus graphs, the memoizing resolver and the collecting walk, write-back |
| `RuleClosure.dfy` | rule closure, pruning, specialization |
| `FiniteSets.dfy` | cardinalities used for termination |

Conventions. Cancellation and work budgets are `Account.Admit`, whose answer the environment
chooses; an account that is `ample` never refuses. A reader is a `ByteSource` that splits its bytes
into reads as it likes; a `reliable` one never faults. Go pointers whose identity matters are
indices or keys of a heap map. Errors are outcomes; where a failure ends the use of an object the
contracts speak up to that failure. Bytes are integers below 256; the digest is collision-free by
construction.

## Findings

* **Syncing can replace the root document.** `SyncResolvedOpus` checks that the package's document is
  the root document on record, but then stores the document of the graph's root node
  (mxl_opus_sync.go:118). `Path` and `Document` of a node are exported, and collecting registers the
  root node under its own path. If two documents link to each other and the two nodes of the graph
  are exchanged, collecting accepts the graph, the sync succeeds, the package's root document is
  replaced by the linked one, and every later sync is refused as stale
  (`OpusSyncs.ExchangedCollectable`, `OpusSyncs.ExchangedRootIsLost`). For every graph, after a
  success the document is unchanged and a further call can succeed exactly if the root node holds
  the root document (`OpusState.RootKept`), which a caller can check before the call; a root node
  that still has the root path always does (`RootPathKeeps`).
* **The nesting check needs no condition on cycles.** It accepts a graph exactly if every chain of
  inline children stays within its limit, because going around a cycle makes chains of any length.
* **Renaming rules does not need distinct rule ids.** References stay resolvable in any case, since
  whether a rule is renamed depends on its id alone.
* **Collecting can only return the resolver's table.** The final comparison of sizes is enough,
  edited graph or not, because every registration is checked against that table.

## Model

| member | source | states |
|---|---|---|
| `Accounts.Account.Charge` | validation/budgets.go:269-287 | a charge is accepted exactly if it fits under the limit, a refused one changes nothing |
| `Accounts.Account.Release` | validation/budgets.go:288-306 | only what is live can be released |
| `Utf8.DecodeEncode` | xml_source.go:248-258 | a character written to a builder is the one that reading its bytes gives, whatever follows |
| `Utf8.EncodeDecode` | xml_source_cursor.go:363-387 | whatever decodes as a character is the encoding of that character |
| `Utf8.UnitsOfEncoding` | xml_source_entity_frames.go:117-147 | replacement text written as UTF-8 reads back as the same characters |
| `SourceText.DecodeThenNormalize` | xml_source_cursor.go:393-448 | normalizing line ends while decoding equals decoding first and normalizing afterwards, up to the first error, for every encoding and byte sequence |
| `SourceText.CoordinatesCount` | xml_source_cursor.go:29-45 | line and column are the counts over the characters read until one overflows; then both are zero for good |
| `SourceText.ScanPlaced` | xml_source_cursor.go:442-447 | unit spans are adjacent and each start position counts the units before it |
| `SourceText.ScanCoordinates` | xml_source_cursor.go:17-45 | the i-th unit starts where the previous one ends, on the line and in the column that counting gives |
| `SourceText.CleanUnit` | xml_source_cursor.go:425-441 | a unit is an end or an error exactly if the rest of the text is clean or not |
| `EncodedTexts.CharacterReads` | xml_source_cursor.go:323-387 | a character encoded at a place is the one read there, in all four encodings; UTF-16 writes its halves by division, in both byte orders |
| `EncodedTexts.CharacterIs` | xml_source_cursor.go:323-387 | whatever is read as a character is its encoding, and no longer |
| `EncodedTexts.TextReads` | xml_source_cursor.go:305-392 | an encoded text is clean and its characters are the text |
| `EncodedTexts.TextIs` | xml_source_cursor.go:305-392 | a clean text is the encoding of its characters |
| `EncodedTexts.SignatureDetected` | xml_source_cursor.go:251-290 | the signature of an encoding, which is the encoded byte order mark, is detected in front of anything |
| `EncodedTexts.DeclarationDetected` | xml_source_cursor.go:251-290 | without a signature a text that begins with a declaration has its encoding detected |
| `EncodedTexts.LinesNormalize` | xml_source_cursor.go:418-448 | lines that end with CR, LF or CR LF in any mixture become the same lines with LF |
| `Cursors.Cursor.Attempt` | xml_source_cursor.go:195-207 | up to a hundred empty reads; progress, end or failure, never silence |
| `Cursors.Cursor.Refill` | xml_source_cursor.go:173-245 | a refill delivers the next bytes of the source, bills exactly them and never one beyond the quota |
| `Cursors.Cursor.Byte` | xml_source_cursor.go:169-250 | the next byte of the source, the true end, or a failure; a buffered byte touches nothing else |
| `Cursors.Cursor.Initialize` | xml_source_cursor.go:251-290 | encoding, signature and first position are those detected from the whole source, for every split |
| `Cursors.Cursor.EncodedByte` | xml_source_cursor.go:291-304 | bytes looked at for detection come again in order |
| `Cursors.Cursor.DecodeWide` | xml_source_cursor.go:323-362 | UTF-16 code units and surrogate pairs, and exactly the malformed ones are refused |
| `Cursors.Cursor.DecodeNarrow` | xml_source_cursor.go:363-387 | a UTF-8 character read byte by byte is the one at that offset, of that length, or the bytes are malformed there |
| `Cursors.Cursor.RawRune` | xml_source_cursor.go:305-392 | the character at the resuming offset, decoded ahead or not |
| `Cursors.Cursor.AfterReturn` | xml_source_cursor.go:425-441 | where a line break that began with CR ends; a following character is kept, an end is remembered |
| `Cursors.Cursor.PeekGeneral` | xml_source_cursor.go:418-448 | the general path finds the unit at the current position, and on buffered plain bytes or UTF-16 ASCII it leaves exactly the state the fast paths leave |
| `Cursors.Cursor.PeekWide` | xml_source_cursor.go:400-417 | the UTF-16 fast path leaves that same state |
| `Cursors.Cursor.Peek` | xml_source_cursor.go:393-448 | looking ahead never moves the position and finds the unit of the text there |
| `Cursors.Cursor.Take` | xml_source_cursor.go:449-464 | takes the unit of the text at the current position with its coordinates; end and malformed exactly where the text is |
| `Cursors.Cursor.PutBack` | xml_source_entity_frames.go:166-176 | a unit put back will be taken again |
| `Cursors.Cursor.SelectEncoding` | xml_source.go:1194-1221 | a declared encoding is accepted exactly if it agrees with what the first bytes say; the only switch is from UTF-8 without a signature to Latin-1 |
| `Cursors.Cursor.AsciiSpan` | xml_source_ascii.go:15-42 | the longest buffered run a mode admits, and nothing while anything is decoded ahead |
| `Cursors.Cursor.ConsumeAscii` | xml_source_ascii.go:44-51 | consuming a span of k bytes leaves a state given by one function of the old state |
| `Cursors.Cursor.TakeSpan` | xml_source_ascii.go:44-51 | taking the same k bytes one unit at a time yields those characters and leaves the same state, field by field |
| `Cursors.Cursor.TakeAll` | xml_source_cursor.go:449-464 | what is taken is the scan of the text from here on; a clean text ends, another one is malformed |
| `Cursors.ReadText` | xml_source_cursor.go:169-464 | for every content and every split into reads the characters are the decoded and then normalized text after the signature |
| `EncodedTexts.ReadWritten` | xml_source_cursor.go:169-464 | a signature and an encoded text are read as the text with its line ends normalized, to the end |
| `EncodedTexts.ReadLatin1` | xml_source_cursor.go:305-322 | behind a switch to Latin-1 a text in Latin-1 is read so |
| `DocumentSources.CharactersSpan` | xml_source_ascii.go:44-51 | plain bytes are characters of their own, however many are taken at once |
| `DocumentSources.Gather` | xml_source_ascii.go:15-83 | any mixture of spans and single units gives the characters of the text |
| `DocumentSources.CharactersText` | xml_source_cursor.go:393-448 | the characters of a source are its decoded and then normalized text, up to the first error |
| `DocumentSources.WrittenCharacters` | xml_source_cursor.go:393-448 | the characters of an encoded text are the text with its line ends normalized |
| `DocumentSources.ReadLiteral` | xml_source_entity_values.go:46-106 | from bytes to value: for every content and split, whichever path each character took, the value is the recursive expansion of the decoded and normalized text, with the same failures |
| `Expansion.ExpandReadsAll` | xml_source_entity_values.go:54-62 | the recursive expansion of a value without a delimiter consumes the whole input or fails |
| `References.NumberMeans` | xml_source.go:498-560 | a numeral in either base, written by division with any leading zeros and letter case, stands for the character of that number and is refused if there is none |
| `References.ReferenceMeans` | xml_source.go:498-586 | a character referred to by decimal or hexadecimal number or by its predefined name is read as that character |
| `References.ReferenceIs` | xml_source.go:498-586 | whatever is read as a reference was written so |
| `WrittenValues.SignsExpand` | xml_source_entity_values.go:46-106 | characters, references to characters and references to entities, whose replacement text is written the same way, expand to what they say |
| `WrittenValues.ExpandWritten` | xml_source_entity_values.go:46-106 | whatever expands was written so, up to its delimiter |
| `EntityFrames.TakeFront` | xml_source_entity_frames.go:117-147 | reading from a frame takes exactly the bytes of one character and leaves the rest, pads included |
| `EntityFrames.FrameReads` | xml_source_entity_frames.go:117-147 | a frame is read as the characters of its text, with a space on either side if it is padded |
| `EntityFrames.ContinuePush` | xml_source_entity_frames.go:56-95 | entering an entity leaves the value still to come unchanged |
| `EntityFrames.ContinueFinish` | xml_source_entity_frames.go:96-116 | so does leaving one that has been read |
| `EntityFrames.ContinueCharacter` | xml_source_entity_values.go:99-104 | so does appending a data character, white space as a space |
| `EntityFrames.ContinueLiteral` | xml_source_entity_values.go:85-104 | so does appending the character of a reference raw |
| `EntityFrames.ContinueSpan` | xml_source_entity_values.go:48-53 | so does a span of plain characters |
| `EntityFrames.ContinueRefused` | xml_source_entity_values.go:10-40 | a reference that is refused fails the value for the reason the specification gives |
| `TokenReaders.TokenReader.PushEntity` | xml_source_entity_frames.go:56-95 | recursion and a 65th named entity are refused, otherwise the frame starts at the current element depth |
| `TokenReaders.TokenReader.FinishEntity` | xml_source_entity_frames.go:96-116 | a frame is left only at the depth it was entered at |
| `TokenReaders.TokenReader.Peek` | xml_source_entity_frames.go:117-147 | the next character of the innermost frame, or its end |
| `TokenReaders.TokenReader.Take` | xml_source_entity_frames.go:148-158 | consumes that character |
| `TokenReaders.TokenReader.Unread` | xml_source_entity_frames.go:166-176 | gives it back |
| `TokenReaders.TokenReader.Grow` | xml_source.go:259-294 | builder growth keeps the account and the ownership counters in step at every failure point |
| `TokenReaders.TokenReader.Name` | xml_source.go:301-335 | the longest name at the front of the input, refused for the reason the specification gives |
| `TokenReaders.TokenReader.ReadReference` | xml_source.go:498-586 | a reference means what parsing the input means, character references with base, digits and range |
| `TokenReaders.TokenReader.EnterEntity` | xml_source_entity_values.go:10-40 | an entity is entered exactly if it is declared, internal, parsed and allowed under standalone, and refused for the first reason otherwise |
| `TokenReaders.TokenReader.ReadValue` | xml_source_entity_values.go:46-106 | the loop ends and returns exactly the recursive expansion, for every store, literal and outer stack; it fails exactly when the expansion fails and for the same reason; the frames below are untouched |
| `TokenReaders.TokenReader.ReadDefaultValue` | xml_source_entity_values.go:107-118 | the same for a default from the DTD, read over its own frame |
| `TokenReaders.TokenReader.OpenElement` | xml_source.go:899-994 | a start tag is accepted exactly if Namespaces in XML 1.0 allows it in the open scopes, attributes distinct both as written and after expansion |
| `TokenReaders.TokenReader.CheckNames` | xml_source.go:959-988 | prefixes bound and expanded names distinct, in both directions |
| `Namespaces.TagMeans` | xml_source.go:899-994 | inside lawful scopes a tag may stand exactly if its attributes differ, its declarations are lawful, every prefix is bound in its own scope and no two prefixed attributes have the same local name and namespace |
| `Namespaces.DeclarationsMean` | xml_source.go:899-940 | declarations are accepted exactly if xml is bound to its namespace and nothing else is, xmlns is never bound nor its namespace used, and no prefix is undeclared |
| `Namespaces.LawfulMeaning` | xml_source.go:892-898 | then xml has its meaning in all scopes and no other prefix shares it |
| `TokenReaders.TokenReader.Restore` | xml_source.go:995-1011 | undoing a log from its end rewinds the table |
| `TokenReaders.TokenReader.PopElement` | xml_source.go:995-1011 | leaving an element restores the table of the scopes around it |
| `TokenReaders.TokenReader.LookupIsInnermost` | xml_source.go:892-898 | in every usable state a prefix means what the innermost open declaration says |
| `TokenReaders.TokenReader.EndElement` | xml_source.go:1027-1034 | an end tag is accepted exactly if it matches the innermost element, and that one was opened inside the current entity |
| `TokenReaders.TokenReader.StartElement` | xml_source.go:750-765 | a tag that has been read is opened exactly under the root, depth and namespace conditions, on top of the elements open before |
| `Markup.Tokenize` | source_dtd_attributes.go:168-216 | the words of a value joined by single spaces, none at either end |
| `Markup.JointMeans` | xml_source.go:336-350 | a prefix and a local part joined by a colon are taken apart again; a local part alone has the empty prefix |
| `Markup.JointIs` | xml_source.go:336-350 | any other name is refused |
| `Markup.ExpectConsumes` | xml_source.go:201-212 | expected characters are found exactly if they are next, and what is left is what follows them |
| `Markup.TextSpanAt` | xml_source.go:593-605 | a run of buffered text taken at once is the same characters taken singly, and no bracket before it counts afterwards |
| `Markup.SectionStep` | xml_source.go:662-696 | counting brackets finds the first end of a section, whatever brackets come before it |
| `Markup.CommentStep` | xml_source.go:697-725 | counting hyphens finds the first two of a comment, which must be its end |
| `Tokenizers.Tokenizer.Literal` | xml_source.go:201-212 | succeeds exactly if these characters are next, and has then read them and nothing else |
| `Tokenizers.Tokenizer.Spaces` | xml_source.go:214-240 | exactly the white space ahead is read, in runs or singly, and it is told whether there was any; it may end with the document, not with an entity |
| `Tokenizers.Tokenizer.Quoted` | xml_source.go:726-739 | the value between quotes is the recursive expansion of what follows the first one, with the same failures, and reading goes on behind the second in the same input |
| `Tokenizers.Tokenizer.GrowAttributes` | xml_source.go:850-872 | the attribute array grows with both arrays charged while one is filled; the charge moves with the capacity at every failure point |
| `Tokenizers.Tokenizer.ReadAttributes` | xml_source.go:766-875 | names and values are those the grammar reads from the characters up to the end of the tag, with the same failures; storage is owned for all of them |
| `Tokenizers.Tokenizer.ApplyDeclarations` | source_dtd_attributes.go:11-167 | the specified attributes in order with their values as declared, then the expansion of each declared default whose name was not specified; the input is untouched |
| `Tokenizers.Tokenizer.StartTag` | xml_source.go:741-891 | the tag is the one the characters spell, accepted exactly if an element may begin and the namespace constraints allow it; it opens one scope and leaves every live entity balanced |
| `Tokenizers.Tokenizer.EndTag` | xml_source.go:1012-1035 | the name is the one the characters spell, accepted exactly if it is that of the innermost element and this was opened inside the current entity |
| `Tokenizers.Tokenizer.Comment` | xml_source.go:697-725 | the data is what stands before the first two hyphens; anything but a greater-than sign behind them is refused |
| `Tokenizers.Tokenizer.CData` | xml_source.go:662-696 | the data is what stands before the first end of a section; outside the root a section is refused |
| `Tokenizers.Tokenizer.InstructionData` | xml_source.go:1062-1086 | the data is what stands before the first end of an instruction, and without white space before it there is none |
| `Tokenizers.Tokenizer.Instruction` | xml_source.go:1036-1086 | target and data as the grammar reads them; the reserved target is refused in any other spelling and, as a declaration, anywhere but first |
| `Tokenizers.Tokenizer.CharacterData` | xml_source.go:587-661 | the data is that of the grammar, fast runs included, with the same failures; what is left in each input it went through is what the grammar leaves; less is left to read afterwards |
| `Tokenizers.Tokenizer.LeaveEntities` | xml_source_entity_frames.go:96-116 | every entity is left with exactly the elements open that were open when it was entered, so that replacement text opens and closes elements in balance (section 4.3.2 of XML 1.0) |
| `Tokenizers.Tokenizer.AfterBracket` | xml_source.go:439-476 | behind a bracket the token is the one the characters spell, and refused exactly if the grammar or the constraints on tags refuse it |
| `Tokenizers.Tokenizer.NextToken` | xml_source.go:385-490 | the loop around empty text ends on every input, because each empty text leaves less to read |
| `Tokenizers.Tokenizer.Token` | xml_source.go:360-490 | unless empty text comes first, the token is the one ahead once entities that have been read are left; it moves scopes and names as it should, failures are final, and every reachable state keeps the invariants: distinct named entities, at most 64, entry depths nested, entities balanced, table and scopes in agreement, charges in balance |
| `Tokenizers.Tokenizer.Close` | xml_source.go:142-160 | returns exactly what the reader and the declaration store own |
| `Tokenizers.Session` | xml_source.go:106-189 | after any number of calls on any input, wherever reading names, values, defaults, builders, attribute storage or frames stopped, the account is where it was |
| `WrittenMarkup.PairsRead` | xml_source.go:766-875 | attributes written with any white space and either quote are read back in order, names by prefix and local part |
| `WrittenMarkup.PairsAre` | xml_source.go:766-875 | whatever is read as attributes was written so |
| `WrittenMarkup.TagReads` | xml_source.go:741-891 | a written start tag is read back with its prefix and local part, the attributes written and declared, and whether it is empty |
| `WrittenMarkup.TagIs` | xml_source.go:741-891 | whatever is read as a start tag was written so |
| `WrittenMarkup.EndReads` | xml_source.go:1012-1026 | a written end tag is read back |
| `WrittenMarkup.EndIs` | xml_source.go:1012-1026 | whatever is read as an end tag was written so |
| `WrittenMarkup.CommentReads` | xml_source.go:697-725 | a written comment is read back |
| `WrittenMarkup.CommentIs` | xml_source.go:697-725 | whatever is read as a comment was written so |
| `WrittenMarkup.SectionReads` | xml_source.go:662-696 | a written section is read back, closing brackets at its end included |
| `WrittenMarkup.SectionIs` | xml_source.go:662-696 | whatever is read as a section was written so |
| `WrittenMarkup.InstructionReads` | xml_source.go:1036-1086 | a written instruction is read back, question marks in its data included |
| `WrittenMarkup.InstructionIs` | xml_source.go:1036-1086 | whatever is read as an instruction was written so |
| `WrittenMarkup.ChunkReads` | xml_source.go:587-661 | written text is read back up to the next reference, which begins a new token |
| `WrittenMarkup.ChunkIs` | xml_source.go:587-661 | whatever is read as text without entering an entity was written so |
| `WrittenAttributes.FinishMeans` | source_dtd_attributes.go:168-216 | a value that is declared as a list has its words with one space between them, any other value stays as it is |
| `WrittenAttributes.DeclaredReads` | source_dtd_attributes.go:11-167 | an element has the attributes of its tag, each as its declaration says, and behind them exactly those declared ones that are missing there and have a default, with the value the default spells |
| `WrittenDocuments.FirstReads` | xml_source.go:385-490 | whatever a document goes on with, its first item is what comes next |
| `WrittenDocuments.NextWritten` | xml_source.go:385-490 | whatever can be read next is a written item in front of the rest, and says what is delivered |
| `WrittenDocuments.ReadBack` | xml_source.go:360-490 | a document that is written, with attributes as its declarations say, comes back token by token and ends, if limits are ample; the account is where it was |
| `WrittenTrees.ChunksSigns` | xml_source.go:617-619 | any text can be cut into such tokens, which together are the text |
| `WrittenTrees.TreeStands` | xml_source.go:741-1035 | what is written of a tree is a document wherever the constraints on its tags hold and its depth fits |
| `WrittenTrees.TextIsProper` | xml_source.go:587-661 | such a tree can hold any text of XML characters |
| `WrittenTrees.ReadTree` | xml_source.go:360-490 | a tree that is written is read back: start of every element with prefix, local part and all attributes it has by its tag and its declarations, contents and end, empty or not |
| `TokenReaders.TokenReader.Close` | xml_source.go:151-158 | returns exactly what the reader itself owns, in any state and once |
| `Namespaces.RewindRecord` | xml_source.go:948-957 | recording the old binding makes a change reversible |
| `Namespaces.AgreesOpen` | xml_source.go:899-994 | a table that can be rewound stays in agreement with the stack of scopes |
| `SourceObservers.UndoneRecord` | source_observer.go:251-265 | an undo record with a flag for absence takes a change back exactly |
| `SourceObservers.SourceObserver.Open` | source_observer.go:153-310 | the table becomes that of the inner scopes and the sink is told all bindings in force, the new id and the enclosing one |
| `SourceObservers.SourceObserver.Pop` | source_observer.go:424-438 | the table of the outer scopes again |
| `SourceObservers.SourceObserver.Close` | source_observer.go:439-454 | everything retained is released |
| `SourceObservers.FlattenMeaning` | source_observer.go:76-85 | the flat table gives each prefix the meaning the scopes give it |
| `SourceObservers.TablesAgree` | source_observer.go:230-265 | reader and observer give every prefix the same meaning |
| `SourceObservers.Lockstep` | source_observer.go:92-150 | they do so after every sequence of accepted tags, on one account |
| `NamespaceFilters.SkipTree` | source_observer.go:505-520 | skipping drops exactly one subtree |
| `NamespaceFilters.KeptTrees` | xml_namespace.go:21-54 | inside the root the tokens of any nodes come out as those of the pruned nodes |
| `NamespaceFilters.DocumentIsPruned` | xml_namespace.go:21-54 | a document with an unqualified root comes out as the serialization of its pruned tree, prolog and tail untouched |
| `NamespaceFilters.FilteredSettles` | xml_namespace.go:56-92 | filtering attributes keeps no declaration and filtering again changes nothing |
| `NamespaceFilters.FilteredExact` | xml_namespace.go:56-71 | attributes are kept or dropped one by one, in order |
| `NamespaceFilters.OneFiltered` | xml_namespace.go:56-92 | kept is exactly an unqualified attribute that is no declaration, xml:lang or xml:space, or one of the six XLink attributes on one of the five elements that link |
| `NamespaceFilters.PrunedIsPlain` | xml_namespace.go:21-92 | the model gets unqualified elements with such attributes only, and of a document that has no others it gets everything |
| `NamespaceFilters.ObservingSource.Token` | source_observer.go:467-504 | a token is delivered only after the observer has seen it; failures and the end are final |
| `NamespaceFilters.ObservingSource.Skip` | source_observer.go:505-520 | consumes the rest of the open element, showing every token to the observer |
| `NamespaceFilters.NamespaceFilter.Token` | xml_namespace.go:21-54 | one call yields the next token of the filtered stream; a foreign root is refused |
| `NamespaceFilters.FilterInPlace` | xml_namespace.go:56-71 | the in-place attribute filter equals the functional one |
| `NamespaceFilters.FilterDocument` | xml_namespace.go:21-71 | the model gets the pruned document and the observer every token, always if nothing fails, and a beginning of it otherwise |
| `HeapSort.FrontIsLargest` | mxl_assessment_zip.go:804-838 | the front of a heap is its largest key |
| `HeapSort.Sift` | mxl_assessment_zip.go:804-838 | restores the heap below one position with all child indices in range |
| `HeapSort.SortPhysical` | mxl_assessment_zip.go:804-838 | the order is a permutation of the indices sorted by local offset |
| `ZipArchives.Archive.LibraryEnd` | mxl_assessment_zip.go:491-515 | the end record the library would use is the last signature in its window |
| `ZipArchives.Archive.EndRecord` | mxl_assessment_zip.go:399-467 | accepted exactly if the bytes end in an ordinary single-disk end record that the library would use too |
| `ZipArchives.Archive.CountRecords` | mxl_assessment_zip.go:524-557 | the first pass succeeds exactly if records cover the directory range, and counts them |
| `ZipArchives.Archive.ReadEntries` | mxl_assessment_zip.go:573-643 | the second pass visits the same records and keeps entries, distinct names and their index, or the archive has no inventory |
| `ZipArchives.Archive.ObserveLocal` | mxl_assessment_zip.go:706-778 | the local header, body and descriptor agree with the central record and end where computed, in both directions |
| `ZipArchives.Archive.CheckExtra` | mxl_assessment_zip.go:783-799 | an extra field with a ZIP64 record is refused, exactly; otherwise it is reported whether its blocks fill it |
| `ZipArchives.Archive.OrderEntries` | mxl_assessment_zip.go:644-665 | sorting and walking the ranges finds a tiling exactly if there is one |
| `ZipArchives.Archive.Observe` | mxl_assessment_zip.go:517-671 | the inventory is complete exactly if the bytes are entries, directory and end record without gap or overlap; ranks invert the order and the index inverts the names |
| `ZipInventory.TilesCover` | mxl_assessment_zip.go:647-664 | in a tiling every byte before the directory lies in exactly one entry |
| `ZipInventory.SortedTiles` | mxl_assessment_zip.go:644-664 | if any order tiles the file, the sorted one does |
| `ZipInventory.InventoryUnique` | mxl_assessment_zip.go:517-671 | a file has at most one inventory |
| `WrittenArchives.CentralReads` | mxl_assessment_zip.go:573-620 | a central record written field by field in little-endian bytes is read as the entry with these fields |
| `WrittenArchives.RangeReads` | mxl_assessment_zip.go:706-778 | a written local part is framed exactly if both headers agree as far as they must and its descriptor can be read in one way only |
| `WrittenArchives.EntryReads` | mxl_assessment_zip.go:586-640 | a written member is admitted exactly if its headers agree, the policy allows it and no extra field has a ZIP64 block |
| `WrittenArchives.BlocksRead` | mxl_assessment_zip.go:783-799 | an extra field written as blocks has a ZIP64 block exactly if one of them is one, and is filled exactly if nothing follows them |
| `WrittenArchives.BlocksAre` | mxl_assessment_zip.go:783-799 | every extra field is made of blocks |
| `WrittenArchives.EndReads` | mxl_assessment_zip.go:399-515 | the written end record is found exactly if nothing behind it looks like another |
| `WrittenArchives.InventoryReads` | mxl_assessment_zip.go:517-671 | a written archive, its members in any order, has an inventory exactly if its members are sound, and then it is what was written |
| `WrittenArchives.ObserveWritten` | mxl_assessment_zip.go:517-671 | observing a written archive under an ample account completes exactly if its members are sound, with their names, sizes, checksums, offsets, ranges and bodies |
| `WrittenArchives.OneMember` | mxl_assessment_zip.go:399-467 | any member that fits its fields is an archive by itself |
| `WrittenArchives.CappedAsArchive` | mxl_assessment_zip_entry.go:167-192 | a written archive is held to the cap of archives |
| `ExpandedBodies.Run.Count` | mxl_assessment_zip_entry.go:236-250 | bytes are charged and counted together or not at all |
| `ExpandedBodies.ExpandedReader.ReadData` | mxl_assessment_zip_entry.go:206-256 | what is returned is the next part of the body, within every cap, and is counted; bytes that do not fit are withheld |
| `ExpandedBodies.ExpandedReader.Classify` | mxl_assessment_zip_entry.go:167-192 | the cap is that of the representation the first four bytes announce |
| `ExpandedBodies.LimitMeans` | mxl_assessment_zip_entry.go:163-205 | fixed roles have their own cap; where the role is open the cap is that of archives exactly if the body begins with one of the two signatures |
| `ExpandedBodies.ExpandedReader.Read` | mxl_assessment_zip_entry.go:163-205 | each body byte is delivered once and in order, the prefix included; the end comes only when all are |
| `ExpandedBodies.Archive.Enlarge` | mxl_assessment_zip.go:296-324 | growth under a cap with both buffers charged while one is copied |
| `ExpandedBodies.Archive.ReadBounded` | mxl_assessment_zip.go:241-341 | an expanded stream is read whole or up to a failure, counted exactly, scratch returned |
| `ExpandedBodies.Archive.ReadInput` | mxl_assessment_zip.go:241-341 | primary bytes are read whole or up to a failure and charged as input, never beyond the limit or the quota |
| `ExpandedBodies.Archive.ReadEntry` | mxl_assessment_zip_entry.go:38-149 | the first attempt is remembered whatever becomes of it; asking again reads and counts nothing; data is the entry's body, of its declared size and within the cap of its representation |
| `ExpandedBodies.CappedBody.Read` | resource_package_body.go:41-81 | the body's bytes in order within both caps; at most one more byte is read, never passed on |
| `PackageBodies.FillCapped` | resource_package_body.go:41-81 | under the caps of a package a body is read whole or refused; external bytes charged are those taken from it, except at most one byte read to find its end |
| `PackageBodies.ReadPackageBody` | resource_package_body.go:10-33 | success returns exactly the stream's bytes within the cap, charged and counted once each; on every path the stream is closed once, and the count of expanded bytes stays within the cap |
| `ExpandedBodies.CurrentPackage.EntryBytes` | resource_package_current.go:232-319 | a member is copied and counted once; its copy equals it and respects the cap of its representation |
| `ExpandedBodies.CountedMore` | mxl_assessment_zip_entry.go:72-83 | a record that counts only where nothing was counted before keeps the ledger single |
| `ExpandedBodies.Pool.Interleave` | mxl_assessment_zip_entry.go:287-295 | over any interleaving the counter is its start plus what each operation has counted and stays within its limit; an archive entry is counted by at most one operation and for at most its body, a body for what was seen of it, a package member never again once copied |
| `ResourceBodies.ChunkEnd` | resource_body.go:164-165 | blocks advance and stay inside |
| `ResourceBodies.ResourceBody.Relocate` | resource_body.go:109-141 | growth at most doubles, keeps the bytes and moves the charge |
| `ResourceBodies.ResourceBody.Fill` | resource_body.go:70-159 | reads the stream to its end; at most one uncharged byte is taken |
| `ResourceBodies.ReadResourceBody` | resource_body.go:38-162 | the stream is closed once on every path; success returns exactly its bytes, charges exactly them and holds 256 plus the capacity; failure holds nothing |
| `DocumentDepth.CheckDocumentNesting` | document_depth.go:13-64 | the explicit stack terminates on every finite graph and finds what the recursive search finds |
| `DocumentDepth.NestingExact` | document_depth.go:13-76 | accepted exactly if every chain of inline children has at most 4096 nodes and none at that level has a leaf child; a cycle is reported only if one is reachable |
| `OpusGraphs.NestingMeans` | document_depth.go:13-76 | that is, exactly if no more than 4096 elements stand inside one another, counting opuses, titles, links and scores |
| `DocumentDepth.OpusHasLeafChildren` | document_depth.go:66-76 | whether any entry is a link or a score |
| `NestingLevels.NestsChild` | mxl_opus.go:171-187 | where chains are bounded, an inline child has a lower level than its parent, so recursion over inline documents ends |
| `NestingLevels.CheckedNests` | mxl_opus.go:97-99 | a document that passed the nesting check has bounded chains |
| `ModelWalk.WalkWellFormed` | model_walker.go:153-285 | opens and closes are well nested, ids are consecutive in preorder, each parent is the enclosing open node |
| `ModelTrees.WalkIsTold` | model_walker.go:359-541 | a walk tells the tree below its root: an occurrence reports a cardinality exactly if a choice has not one variant set and a cycle exactly if a position leads back to the path; it is complete exactly if it reports nothing; opened below it are, in order, the targets of all other positions that are present |
| `ModelTrees.UnfoldUnfolds` | model_walker.go:359-478 | there is such a tree below every value, cyclic or not |
| `ModelTrees.EntriesInOrder` | model_walker.go:359-416 | every position of every field is visited, in order |
| `ModelWalkers.ModelWalker.Enter` | model_walker.go:153-285 | pushing a value emits its opening facts and keeps the active set equal to the pointers on the stack; what is charged is the walker, its two tables and the frames on the stack |
| `ModelWalkers.ModelWalker.MakeRoom` | model_walker.go:199-243 | there is room for one frame and one pointer more, and a smaller table is returned once it has been copied |
| `ModelWalkers.ModelWalker.KeepProblem` | model_walker.go:543-581 | a new problem is charged to its frame, one that is known already to nobody |
| `ModelWalkers.ModelWalker.Leave` | model_walker.go:480-541 | closing a frame emits its problems and its end and returns what the frame held |
| `ModelWalkers.ModelWalker.Round` | model_walker.go:359-478 | one round of the loop keeps what is still to be emitted |
| `ModelWalkers.ModelWalker.Run` | model_walker.go:359-478 | the sink gets exactly the facts of the recursive traversal and of the tree below the root (`Told`), a beginning of them if stopped; too deep exactly if that traversal nests deeper than the cap; a cycle is flagged exactly if some node reports one; a finished walk holds its two tables and no frame |
| `ModelWalkers.WalkModel` | model_walker.go:66-142 | however a walk ends, everything it charged is returned |
| `ArchivePaths.JoinSplit` | mxl_opus.go:441-462 | splitting a path loses nothing, empty segments included |
| `ArchivePaths.SplitJoin` | mxl_opus.go:441-462 | the segments of a path are what stands between its slashes |
| `ArchivePaths.ResolvesInside` | mxl_opus.go:444-461 | a reference resolves exactly if its segments can be decoded and no beginning of it climbs out of the archive |
| `ArchivePaths.UpCancels` | mxl_opus.go:426-461 | a name and a following step up cancel out anywhere, whether or not other segments are empty |
| `ArchivePaths.HereVanishes` | mxl_opus.go:449-451 | a step to where one is changes nothing |
| `ArchivePaths.ResolvesBelow` | mxl_opus.go:431-463 | a reference of names leads to these names below the directory of its document, or from the top if a slash precedes it |
| `ArchivePaths.ResolveArchivePath` | mxl_opus.go:431-463 | the loop computes that resolution and fails exactly where it does |
| `OpusGraphs.HangFill` | mxl_opus.go:148-169 | everything found while resolving a document hangs from its node |
| `OpusResolvers.Resolver.LoadDocument` | mxl_opus.go:354-380 | a path is decoded at most once and found exactly if it is known or decodable |
| `OpusResolvers.Resolver.ResolveOpus` | mxl_opus.go:148-169 | one node per path, link cycles included; new nodes are sound and reachable from it |
| `OpusResolvers.Resolver.ResolveInline` | mxl_opus.go:171-187 | an inline document gets its own node under its parent's path |
| `OpusResolvers.Resolver.ResolveContent` | mxl_opus.go:189-249 | each entry is resolved to what it means, in order |
| `OpusResolvers.Resolver.ResolveLink` | mxl_opus.go:251-303 | a link leads to the node remembered for its path |
| `OpusResolvers.Resolver.ResolveScore` | mxl_opus.go:305-352 | a score link leads to the document registered for its path |
| `OpusResolvers.Resolve` | mxl_opus.go:72-139 | it ends, link cycles included, and succeeds exactly if the nesting check passes and every entry reachable inline or by links can be resolved; then every node and document is reached from the root and all links to a path share a node (`OneOpusPerPath`) |
| `OpusResolvers.Collector.AddDocument` | mxl_opus_sync.go:381-421 | registers exactly the documents on record |
| `OpusResolvers.WholeFaultless` | mxl_opus.go:189-352 | a resolved graph has met no entry that cannot be resolved |
| `OpusResolvers.Collector.Walk` | mxl_opus_sync.go:203-363 | terminates on every graph; what it visits matches its documents and is closed under references; it fails only if something reachable does not match |
| `OpusResolvers.CollectDocuments` | mxl_opus_sync.go:196-379 | for every graph, edited or not: the resolver's table exactly if all that is reachable matches, the root is on record under its own path and no document is lost |
| `OpusResolvers.WholeCollectable` | mxl_opus_sync.go:196-379 | the graph as resolved is such a graph |
| `OpusSyncs.Package.Prepare` | mxl_package.go:483-577 | accepted exactly if entry names are valid, distinct and include all root files |
| `OpusSyncs.Capture` | mxl_opus_sync.go:146-194 | records the digests of all encodings and linked resources, or fails exactly if one is missing |
| `OpusSyncs.OpusState.Sync` | mxl_opus_sync.go:17-135 | for every graph: succeeds exactly if package and graph are as recorded and everything encodes; all or nothing; changed documents are replaced by their encoding, all other bytes stay; the package's document becomes that of the root node, the same one if that node has the root path (`RootPathKeeps`); nothing is written if every encoding is on record (`SettledWrites`) |
| `OpusSyncs.OpusState.SyncTwice` | mxl_opus_sync.go:46-52 | after a success a second call changes nothing, and succeeds exactly if the root was kept |
| `OpusSyncs.ExchangedCollectable` | mxl_opus_sync.go:216-224 | a graph with exchanged nodes is accepted although its root is not the root document |
| `OpusSyncs.ExchangedRootIsLost` | mxl_opus_sync.go:118 | syncing it replaces the package's root document and the next call is refused |
| `OpusSyncs.ResolveAndSync` | mxl_opus_sync.go:9-17 | resolving and syncing without an edit succeeds and changes nothing |
| `RuleClosures.Pass` | source_composition_catalog.go:178-191 | a pass adds only what every closed superset has, and none if closed already |
| `RuleClosures.RequiredRuleClosure` | source_composition_catalog.go:171-193 | terminates with the least set that has the required keys and is closed under dependencies |
| `RuleClosures.LeastUnique` | source_composition_catalog.go:171-193 | the order and multiplicity of rules do not matter |
| `RuleClosures.LeastIsReachable` | source_composition_catalog.go:169-193 | a key is selected exactly if a chain of dependencies leads to it |
| `RuleClosures.Definitions.PruneUnrequired` | source_line_catalog.go:86-103 | the pruned catalog has the selected rules in order with their plans, and no reference is left dangling |
| `RuleClosures.PruneSettles` | source_line_catalog.go:83-103 | pruning again changes nothing |
| `RuleClosures.SelectedExact` | source_line_catalog.go:86-95 | rules are kept or dropped one by one, in order |
| `RuleClosures.BackingExact` | source_line_catalog.go:96-102 | and so are plans |
| `RuleClosures.OneKept` | source_line_catalog.go:86-102 | a rule is kept exactly if it is selected, a plan exactly if a kept rule has its predicate |
| `RuleClosures.Definitions.SpecializeForSource` | source_composition_catalog.go:195-255 | all or nothing; every reference to a renamed rule is renamed with it and stays resolvable; each rule is bound to its replacement plan or to the last plan it had |
| `RuleClosures.RenameFollows` | source_composition_catalog.go:232-252 | a renamed key names the renamed rule, and different rules keep different keys |
| `RuleClosures.NextRevision` | source_composition_catalog.go:195-252 | a specialized rule has the next revision, its own predicate and the mark of a source rule, and its dependencies follow; every other rule stays as it is |
| `RuleClosures.ProfilesFollow` | source_composition_catalog.go:239-252 | profiles require and support the same rules as before, by the keys these have now |
| `RuleClosures.LastBodyIs` | source_composition_catalog.go:195-198 | the plan of a rule is the last one bound to its predicate |

## Left out

- External entities in content and the reader mode without an internal DTD, with its fixed character entities.
- `Tokenizers.Tokenizer.Token`: does not say which token comes behind empty text, only that one does; whether UTF-16 without a signature needs a declaration is not asked.
- `Tokenizers.Tokenizer.Instruction`: does not say what an XML declaration holds, because the encoding it selects belongs to the cursor.
- `WrittenDocuments.ReadBack`: does not write document types or XML declarations; entities that are declared occur in attribute values and defaults, not in text.
- `Tokenizers.Tokenizer.DocumentType`: does not parse declarations; it takes characters, parameter entities, default values and reservations in any order.
- Reader and cursor are joined by gathering the cursor's characters first; the program reads them as it goes.
- The DTD parser and store: a finite map from names to internal, external or unparsed entities. What it charges to the account is one counter of arbitrary reservations.
- Integer overflow of byte counts and allocation sizes, which the program checks before every charge; coordinates are modelled with their overflow.
- A nil account, a nil context and the digest of the bytes read.
- The owner of an attribute value is given by the height of the frame stack instead of a frame pointer.
- Reflection in the model walker: a model is a heap of nodes with fields; attributes, scalar lexemes and the scratch charged while a path is made are not modelled; the bytes of a path are any number.
- `TokenReaders.TokenReader.FinishEntity`: does not consult the declaration store about content that has been read, because the store is not modelled.
- The observer's element text, display paths, origins and attribute facts.
- Building the library's own ZIP reader after the inventory and comparing it with the inventory; DEFLATE, checksums and the library's size check appear as a stream that may fail.
- The kinds of ZIP refusals (format, policy, capability), and transferring an archive's buffer to another owner.
- `ExpandedBodies.Archive.ReadEntry`: does not name the cause of a failure, because error identity is not modelled.
- Reading a link as a URI: the resolver uses an abstract function from a document path and an href to an archive path; removing dot segments is modelled separately, percent-decoding is abstract.
- `OpusResolvers.Resolve`: takes as given that decoded documents nest within some bound, which the XML depth limit of the decoder sees to; for the root document the nesting check itself is used.
- Nil targets and entries with several targets in a resolved graph that a caller has edited.
- Media types and white space in root file paths, and how documents are encoded.
- The texts of rules and the construction of plans: a table of replacement plans by rule id, any of which may fail to be built.
- Catalog builders, profiles, dictionaries, report assembly, resolver callbacks and number formatting: configuration and data.
