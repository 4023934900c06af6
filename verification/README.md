# Verified engines of cadaver

cadaver is a WebDAV client. Next to its client code it carries several self-contained engines: the
expat XML parser, GNU getopt and fnmatch, date arithmetic, and a compiler from search queries to the
XML of DASL. This project models ten of them in Dafny and proves what they are for.

A piece of code that works by changing things is a method with the loops of the original, or a class
with its fields. The method is proved equal to a specification function or to a relation between old
and new state, and the main results are lemmas about those specifications over all inputs, or methods
that perform any run of operations.

| file | models |
|---|---|
| `xmltok.dfy`, `scanners.dfy` | the content scanners of expat, as functions and as loops over a pointer |
| `chunks.dfy`, `chunk_sequences.dfy` | tokens, and whole token sequences, do not depend on how the input is cut |
| `atts.dfy` | start tags as a grammar, and `getAtts`, which has no end check |
| `attvalue.dfy`, `attvalue_theorems.dfy`, `attvalue_modes.dfy` | attribute-value expansion through entities with `open` flags |
| `pool.dfy` | the string pool with its two block lists |
| `bindings.dfy` | namespace bindings: `addBinding` and the loops that end an element |
| `pushparser.dfy` | the window of `XML_Parse`, `XML_GetBuffer` and `XML_ParseBuffer` |
| `context.dfy`, `context_roundtrip.dfy` | `getContext` and `setContext` |
| `hashtable.dfy` | the open-addressing hash table |
| `contentmodel.dfy`, `contentmodel_grammar.dfy` | content models: the role handlers with the connector array |
| `transcode.dfy` | the encoders and the converters between UTF-8 and UTF-16 |
| `naming.dfy` | the generator of the naming tables, and the lookups |
| `getopt.dfy` | getopt in permuting order, with short options |
| `fnmatch.dfy`, `fnmatch_language.dfy` | fnmatch, and the language of a pattern |
| `strftime.dfy` | the difference of two broken-down times |
| `search.dfy`, `search_xml.dfy`, `search_compiler.dfy`, `search_theorems.dfy`, `search_grammar.dfy`, `search_roundtrip.dfy` | the query compiler |
| `common.dfy` | shared types |

Characters of the parser are bytes (the UTF-8 build), the tokenizer is the instance with one byte per
unit, pointers are offsets into sequences or arrays, and allocation always succeeds.

## Where the code does less than its description

- `fnmatch` takes up a character for a second `*` in a run of stars and question marks
  (`FnMatchLanguage.SecondStarConsumes`). It accepts nothing outside the language of the pattern
  (`MatcherIsSound`), and it agrees with the language on all strings if and only if, in each such run,
  nothing but stars follows the second star up to the end of the pattern, or nothing matches at all
  (`CodeIsLanguage`). Its two bracket loops read a backslash differently
  (`EscapeInSetIsReadTwoWays`), which matters only in a set that is not negated and has an element followed
  by `\]` or `\\`; such patterns are outside both theorems.
- A tokenized attribute value is the normal form of the CDATA value if and only if no run of data that is
  reached holds two adjacent space bytes, which only malformed UTF-8 can hold
  (`AttributeValueModes.TokenizedIsNormalizedCdata`, `ValidRunsAreSingle`, and
  `MalformedTextIsNotNormalized` for the failing side).
- A value that `getAtts` marks as normalized is copied raw. The copy is what the slow way stores in CDATA
  mode; in tokenized mode it is if and only if no white space follows a space byte and none ends the
  value (`AttributeValueModes.NormalizedCopyIsExact`). `MarkedValueIsNotTokenized` has a tag, malformed
  UTF-8 again, with a marked value that tokenized normalization would change.
- `utf8_toUtf16` goes on without end when it comes to a four-byte character with a single free unit: its
  turns then change nothing (`Transcode.StallsIffStuck`), as for U+10000 and one unit
  (`OneUnitIsTooFew`). `ToUtf16StopsBetweenCharacters` says for which texts and room this is so.
- A data run that ends in `]]>` is refused without the data in front of it being reported, unless a chunk
  ended in that run: `ChunkSequences.SplitAgrees` says exactly when the reports differ, and
  `DataBeforeRefusalIsLost` has the text `a]]>`.
- The naming tables number pages with unsigned characters: with more than 254 bitmaps besides the
  constant ones a lookup is wrong, and with at most 254 all lookups are right
  (`NamingTables.AgreesIffBitmapsFit`). The ranges that hold the first character of each page, alone, give
  wrong tables (`GenerateForPageStarts`).
- The query compiler recognizes `contains` in any case but then wants it in lower case
  (`SearchGrammar.ContainsIffLowerCase`, with `Contains x` in `ContainsInCapitalsFails`), and never reads
  `!=` as one word (`SearchTheorems.NoUnequalWord`), although the grammar in its comment has that operator.

## Model

| member | source | states |
|---|---|---|
| ChunkIndependence.ContentTokChunkIndependent | lib/expat/xmltok/xmltok_impl.c:504-888 | a token that contentTok returns on a prefix of the input, other than data characters or one of the answers that ask for more, is returned with the same end on every extension of the prefix |
| ChunkIndependence.ScanLtExtends | lib/expat/xmltok/xmltok_impl.c:534-790 | every decided answer of scanLt, tags with attributes and references included, stays the same when the input goes on |
| ChunkIndependence.ScanRefExtends | lib/expat/xmltok/xmltok_impl.c:440-531 | the same for entity and character references |
| ChunkSequences.SplitAgrees | lib/expat/xmlparse/xmlparse.c:1119-1540 | content in two pieces, the second read from where the first was held back, gives the tokens of the whole once adjacent data is put together, and stops where and as the whole does; only a whole that is refused in a data run lacks the data of that run, exactly when the first piece has reported the beginning of it |
| ChunkSequences.ChunksAgree | lib/expat/xmlparse/xmlparse.c:823-900 | the same for content brought to the parser in any chunks through both interfaces: the calls of the content processor together report what one call on the whole stream reports |
| ChunkSequences.DataBeforeRefusalIsLost | lib/expat/xmltok/xmltok_impl.c:854-872 | `a]]>` is refused with nothing reported, and with a cut behind the `a` that data is reported first |
| ChunkSequences.ReadContent | lib/expat/xmlparse/xmlparse.c:1119-1180 | the loop over the tokens gives the events of the function, and ends where and as it does |
| Scanners.DoContentTok | lib/expat/xmltok/xmltok_impl.c:793-888 | the loop over the pointer returns the token and end of the scanning function, for every input |
| Scanners.DoScanLt | lib/expat/xmltok/xmltok_impl.c:694-790 | the loop of scanLt returns the token and end of the scanning function |
| Scanners.DoScanAtts | lib/expat/xmltok/xmltok_impl.c:534-690 | the nested loops of scanAtts return the token and end of the scanning function |
| Scanners.DoScanRef | lib/expat/xmltok/xmltok_impl.c:504-531 | the loop of scanRef returns the token and end of the scanning function |
| Scanners.DoScanCharRef | lib/expat/xmltok/xmltok_impl.c:440-500 | decimal and hexadecimal character references are scanned as the scanning function says |
| Scanners.DoScanPi | lib/expat/xmltok/xmltok_impl.c:233-293 | processing instructions, with the check of the target name, are scanned as the scanning function says |
| Scanners.DoScanComment | lib/expat/xmltok/xmltok_impl.c:104-139 | comments are scanned as the scanning function says |
| Scanners.DoScanEndTag | lib/expat/xmltok/xmltok_impl.c:392-436 | end tags are scanned as the scanning function says |
| Scanners.DoScanCdataSection | lib/expat/xmltok/xmltok_impl.c:296-314 | the opening of a CDATA section is scanned as the scanning function says |
| Scanners.DoAttributeValueTok | lib/expat/xmltok/xmltok_impl.c:1208-1264 | the loop over an attribute value returns the token and end of the scanning function |
| TagAttributes.GetAttsFindsScannedAttributes | lib/expat/xmltok/xmltok_impl.c:1432-1523 | every tag that scanLt accepts is a tag of the attribute grammar, and getAtts on it stops at the end of the tag, reads nothing beyond, and finds exactly its attributes with name and value spans; the token says whether there are any |
| TagAttributes.TagIsAccepted | lib/expat/xmltok/xmltok_impl.c:534-790 | every tag of the attribute grammar is accepted by scanLt, with the same end, and with the token for its attributes and its kind of closing |
| TagAttributes.TagNameShape | lib/expat/xmltok/xmltok_impl.c:534-790 | what scanLt accepts after the name start has the shape of a tag: name, attributes with quoted values, end |
| TagAttributes.DoGetAtts | lib/expat/xmltok/xmltok_impl.c:1432-1523 | the loop with the state variable counts the attributes and fills the array with those of the function, the array being too small or not |
| AttributeValueModes.NormalizedCopyIsExact | lib/expat/xmlparse/xmlparse.c:1605-1636 | whenever getAtts marks a value of an accepted tag as normalized, its raw copy is what the slow normalization stores in CDATA mode, and in tokenized mode if and only if no white-space token of the value follows a space byte and the value does not end in one; so for valid UTF-8 the copy is exact in both modes |
| AttributeValueModes.MarkedValueIsNotTokenized | lib/expat/xmltok/xmltok_impl.c:1494-1506 | an accepted tag whose value getAtts marks as normalized, and which tokenized normalization changes all the same |
| AttributeValues.Parser.AppendAttributeValue | lib/expat/xmlparse/xmlparse.c:2717-2835 | the recursion through entities terminates, appends to the pool and returns what the specification says, and leaves every open flag as it was, on every exit |
| AttributeValues.Parser.StoreAttributeValue | lib/expat/xmlparse/xmlparse.c:2702-2714 | the same for a whole value, with the trailing space of a tokenized value dropped and the null character added |
| AttributeValueTheorems.AcceptedIsFullExpansion | lib/expat/xmlparse/xmlparse.c:2717-2835 | an accepted value is replaced by its full expansion, which a definition without open flags gives at any sufficient depth |
| AttributeValueTheorems.RecursionErrorIffCycle | lib/expat/xmlparse/xmlparse.c:2791-2832 | when all entities in reach are declared, internal and well formed, then with any entities open the recursion error is returned if and only if some path of references comes back to itself or to an open entity, and there is no other error |
| AttributeValueTheorems.AcceptedHasNoPath | lib/expat/xmlparse/xmlparse.c:2800-2826 | an accepted value has no path of references that comes back to itself or to an open entity |
| AttributeValueModes.TokenizedIsNormalizedCdata | lib/expat/xmlparse/xmlparse.c:2702-2835 | both modes end with the same error code for every value and entity table; where the space byte is white space, the tokenized result of an accepted value is the normal form of the CDATA result, also across entity boundaries, if and only if no data run that is reached holds two adjacent space bytes |
| AttributeValueModes.ValidRunsAreSingle | lib/expat/xmlparse/xmlparse.c:2717-2835 | no data run does when no space byte stands inside a character of the value or of an entity, as in valid UTF-8 |
| AttributeValueModes.TokenizedIsNormalForm | lib/expat/xmlparse/xmlparse.c:2702-2714 | the normal form has the words of the text in order, single spaces between them, and no space at either end (section 3.3.3 of XML 1.0) |
| AttributeValueModes.MalformedTextIsNotNormalized | lib/expat/xmlparse/xmlparse.c:2762-2775 | a text with two spaces behind a lead byte, accepted in both modes, whose tokenized result is not the normal form |
| StringPools.StringPool.Grow | lib/expat/xmlparse/xmlparse.c:3627-3681 | growing keeps the unfinished string and every finished one in place, leaves room for a character, keeps each block on exactly one list, and gives up at most a first block that holds no finished string |
| StringPools.StringPool.HeadIsFree | lib/expat/xmlparse/xmlparse.c:3649-3659 | a first block that is reallocated holds no finished string |
| StringPools.StringPool.Clear | lib/expat/xmlparse/xmlparse.c:3532-3550 | all blocks become free, in which order, and none is lost |
| StringPools.StringPool.PushAll | lib/expat/xmlparse/xmlparse.c:3537-3545 | the loop over the list puts its blocks, reversed, in front of the free ones |
| StringPools.StringPool.AddBlock | lib/expat/xmlparse/xmlparse.c:3661-3679 | a new block of the right size goes in front, the unfinished string moves to its start, and the other blocks stay |
| StringPools.StringPool.CopyString | lib/expat/xmlparse/xmlparse.c:3589-3599 | the copy with its null character becomes a finished string behind what was unfinished |
| StringPools.Run | lib/expat/xmlparse/xmlparse.c:3522-3681 | over any run of appends, chops of a certain last character, discards, finishes, growths and clears the pool holds the strings it should, and with no clear every string finished before is where it was, with its bytes |
| NamespaceBindings.Parser.AddBinding | lib/expat/xmlparse/xmlparse.c:1745-1792 | a node from the free list, or a new one, becomes the youngest live declaration; each node stays live or free, never both, and each prefix has the binding of the declarations in scope |
| NamespaceBindings.Parser.Release | lib/expat/xmlparse/xmlparse.c:1419-1427 | the loop that ends an element takes back exactly the declarations of its tag and restores each prefix |
| NamespaceBindings.Parser.EmptyTag | lib/expat/xmlparse/xmlparse.c:1353-1384 | an empty element leaves the declarations in scope as they were |
| NamespaceBindings.ResolveIsInnermost | lib/expat/xmlparse/xmlparse.c:1745-1792 | the binding that counts is that of the innermost declaration of the prefix, and an empty default declaration hides the outer ones (section 6.1 of Namespaces in XML 1.0) |
| NamespaceBindings.CurrentResolves | lib/expat/xmlparse/xmlparse.c:1780-1786 | the node a prefix points to is that of the declaration that counts, and there is none exactly when nothing is in scope |
| NamespaceBindings.ValidIsBound | lib/expat/xmlparse/xmlparse.c:1745-1792 | in every valid state each prefix of the table has the URI that the open tags give it |
| NamespaceBindings.Run | lib/expat/xmlparse/xmlparse.c:1300-1430 | over any run of start, empty and end tags each prefix is bound as its innermost declaration in scope says, and over a well-nested run all prefixes come back to the very nodes they had |
| PushParser.Parser.GetBuffer | lib/expat/xmlparse/xmlparse.c:902-935 | the bytes kept are the same after moving down or into a new buffer, and there is room for the bytes asked for |
| PushParser.Parser.DoubleUntil | lib/expat/xmlparse/xmlparse.c:914-919 | the size doubles at least once, up to the size needed, and not once more |
| PushParser.Parser.ParseBuffer | lib/expat/xmlparse/xmlparse.c:882-900 | the region handed over is the stream received and not yet consumed, with the new bytes behind |
| PushParser.Parser.Parse | lib/expat/xmlparse/xmlparse.c:823-880 | the same for the caller's own bytes, whether handed over directly, with the rest kept, or copied behind bytes kept |
| PushParser.Parser.ByteIndexIsStreamOffset | lib/expat/xmlparse/xmlparse.c:942-947 | XML_GetCurrentByteIndex is the offset of the event in the whole stream |
| PushParser.Run | lib/expat/xmlparse/xmlparse.c:823-947 | for any chunking through both interfaces, ended by a final chunk or still going on, the processor is called exactly as expected: once for each chunk that is final, not empty or comes through the buffer, up to the first error |
| PushParser.CallOfChunk | lib/expat/xmlparse/xmlparse.c:823-947 | the expected call for a chunk gets the stream up to and with this chunk, from where the call before was consumed up to, or from 0 in the first call, and its outcome is that of the processor on this region |
| Contexts.Parser.GetContext | lib/expat/xmlparse/xmlparse.c:3160-3228 | the text is the default binding, the bound prefixes and the open entities, joined by separators, in iteration order |
| Contexts.Parser.SetContext | lib/expat/xmlparse/xmlparse.c:3230-3282 | the character loop does what the pieces of the text between separators say, for every text |
| ContextRoundTrip.SetContextMerges | lib/expat/xmlparse/xmlparse.c:3160-3282 | whatever the iteration orders, reading the printed context into any state sets what is bound or open in the printed one and leaves everything else as it was |
| ContextRoundTrip.SetContextUndoesGetContext | lib/expat/xmlparse/xmlparse.c:3160-3282 | a parser that reads the context has exactly the state that was printed if and only if it started with the same tables and with nothing bound or open that the printed state has not |
| ContextRoundTrip.SetAllJoin | lib/expat/xmlparse/xmlparse.c:3230-3282 | reading joined pieces reads each piece in order, none lost at the separators |
| ContextRoundTrip.CopyContext | lib/expat/xmlparse/xmlparse.c:507-608 | creating a parser, with its implicit binding of xml when there are namespaces, copying the tables and reading the context gives the state of the old parser |
| HashTables.HashTable.Lookup | lib/expat/xmlparse/hashtable.c:50-104 | the table is a map: an entry is found if and only if its key was inserted, an insertion adds one new entry, and growing keeps every entry the same object under its key |
| HashTables.HashTable.Search | lib/expat/xmlparse/hashtable.c:63-69 | probing ends, at the entry with the key or at a free slot with no such entry anywhere |
| HashTables.HashTable.Rehash | lib/expat/xmlparse/hashtable.c:72-96 | the doubled table has the same entries, each where its own search finds it |
| HashTables.AbsentKey | lib/expat/xmlparse/hashtable.c:63-71 | a free slot at the end of a search means that the key is in no slot |
| HashTables.MaskIsRemainder | lib/expat/xmlparse/hashtable.c:60-67 | the mask of the hash is its remainder because the size is a power of two |
| HashTables.Iterate | lib/expat/xmlparse/hashtable.c:125-139 | iteration yields each entry of the map exactly once |
| ContentModels.Prolog.Process | lib/expat/xmlparse/xmlparse.c:2491-2521 | one token changes handler, level and connector array as the automaton says, with the level always below groupSize where the array is indexed |
| ContentModels.Declare | lib/expat/xmltok/xmlrole.c:918-1113 | processing the tokens of a declaration one by one ends at its closing without an error if and only if they are accepted |
| ContentModels.DeclareAll | lib/expat/xmlparse/xmlparse.c:2498-2521 | so it is for declaration after declaration, with what the one before left in the connector array and the level |
| ContentModels.RoleThenConnector | lib/expat/xmltok/xmlrole.c:918-1113 | the role of a handler followed by the connector check is one step of the automaton |
| ContentModelGrammar.AcceptedIffContentSpec | lib/expat/xmltok/xmlrole.c:918-1113 | the tokens after the element name are accepted if and only if they print a content specification of sections 3.2, 3.2.1 and 3.2.2 of XML 1.0, white space and parameter-entity references apart |
| ContentModelGrammar.AcceptedIsSpec | lib/expat/xmltok/xmlrole.c:918-1113 | from an accepted run the content specification is built that it prints |
| ContentModelGrammar.SpecIsAccepted | lib/expat/xmltok/xmlrole.c:918-1113 | every content specification is accepted as printed |
| ContentModelGrammar.LevelIsDepth | lib/expat/xmltok/xmlrole.c:946-1113 | the level is the number of open parentheses |
| Transcode.DoToUtf8 | lib/expat/xmltok/xmltok.c:488-549 | the loop writes the bytes of the function and stops where it does |
| Transcode.DoToUtf16 | lib/expat/xmltok/xmltok.c:294-331 | with any room the loop takes the bytes and writes the units of the function, and comes to a turn that changes nothing exactly when it stalls |
| Transcode.StallsIffStuck | lib/expat/xmltok/xmltok.c:301-328 | the turns of the loop reach one that leaves everything as it was, the loop going on, if and only if it stalls, and end if and only if it does not |
| Transcode.OneUnitIsTooFew | lib/expat/xmltok/xmltok.c:314-315 | on U+10000 with a single free unit no number of turns changes anything |
| Transcode.ToUtf16StopsBetweenCharacters | lib/expat/xmltok/xmltok.c:294-331 | with any room exactly the longest prefix of whole characters that fits is converted, and the loop stalls if and only if a single free unit is left for a character of two |
| Transcode.ToUtf8StopsBetweenCharacters | lib/expat/xmltok/xmltok.c:488-549 | with any room exactly the longest prefix of whole characters that fits is converted, and a later call on the remaining units gives the remaining bytes |
| Transcode.ToUtf16InvertsUtf8 | lib/expat/xmltok/xmltok.c:294-331 | with room for their units the UTF-8 of any scalar values is converted to their UTF-16, all bytes taken, and the loop ends (section 3 of RFC 3629, section 2 of RFC 2781) |
| Transcode.TranscodingRoundTrip | lib/expat/xmltok/xmltok.c:294-549 | with room for all, converting to UTF-8 gives the outputs of XmlUtf8Encode in a row, and converting back gives the units again |
| Transcode.OneCharToUtf8 | lib/expat/xmltok/xmltok.c:1111-1162 | the units of one character become the bytes that XmlUtf8Encode gives for it |
| NamingTables.PrintTabs | lib/expat/gennmtab/gennmtab.c:385-430 | each page number, before it is cut to an unsigned character, names a bitmap with the flags of the page, shared pages included |
| NamingTables.Word | lib/expat/gennmtab/gennmtab.c:408-413 | the bits of an emitted word are the flags of its characters |
| NamingTables.PageKind | lib/expat/gennmtab/gennmtab.c:397-403 | a page is mixed, or all its characters have the flag returned |
| NamingTables.AgreesIffBitmapsFit | lib/expat/gennmtab/gennmtab.c:385-430 | both lookups equal the plain tables at every code unit if and only if at most 254 bitmaps are needed besides the two constant ones |
| NamingTables.GenerateForPageStarts | lib/expat/gennmtab/gennmtab.c:385-441 | for the ranges with the first character of every page alone, 256 bitmaps are needed and the tables made disagree at some code unit |
| NamingTables.Utf8LooksUpDecoded | lib/expat/xmltok/xmltok.c:46-69 | the lookups in two and three bytes of UTF-8 are the lookup at the character they stand for |
| NamingTables.Generate | lib/expat/gennmtab/gennmtab.c:371-441 | the tables that are packed hold exactly the characters of the ranges, and the lookups agree with them when the bitmaps fit |
| NamingTables.SetTab | lib/expat/gennmtab/gennmtab.c:371-383 | exactly the characters of the ranges are marked in one of the two tables |
| Getopt.Scanner.GetAll | lib/getopt.c:514-965 | calling getopt until it returns -1 leaves the options with their arguments first and then the operands, each in their original order, with optind at the first operand, and gives the answers of a reading from left to right |
| Getopt.Scanner.Exchange | lib/getopt.c:307-385 | the two adjacent segments change places and keep their inner order |
| Getopt.SortedSplitsByMarks | lib/getopt.c:545-620 | the sorted order marks each argument once as option or operand and lists both kinds without reordering |
| Getopt.SwappedPointwise | lib/getopt.c:342-376 | swapping two blocks element by element is the swap of the blocks |
| Getopt.ExchangeKeepsWork | lib/getopt.c:553-572 | an exchange changes neither the options nor the operands nor the answers still to come |
| FnMatch.Fnmatch | lib/fnmatch.c:54-210 | the loops and the recursion after a star return zero exactly as the matching function says, for all patterns |
| FnMatch.MatchSet | lib/fnmatch.c:115-190 | the two bracket loops accept the character and end where the function says |
| FnMatchLanguage.CodeIsLanguage | lib/fnmatch.c:54-210 | for every pattern without a backslash at the end and without an element followed by `\]` or `\\` in a set that is not negated, the matcher agrees with the language of the pattern on all strings, a leading period matched only by a literal one, if and only if in each run of stars and question marks nothing but stars follows the second star up to the end of the pattern, or the language is empty |
| FnMatchLanguage.MatcherIsSound | lib/fnmatch.c:54-210 | for every such pattern what is accepted is in the language, and with harmless runs the language is accepted |
| FnMatchLanguage.HarmfulRunLosesWord | lib/fnmatch.c:97-100 | every pattern with a harmful run and a word of its language has a word that is refused |
| FnMatchLanguage.LoopReadsElements | lib/fnmatch.c:131-186 | the set, with its quoted characters, is matched exactly if an element holds the character, and the skipping loop finds the same closing bracket when no element is followed by `\]` or `\\` |
| FnMatchLanguage.FilterLosesNothing | lib/fnmatch.c:105-113 | the first-character filter passes over no place where the rest of the pattern matches |
| FnMatchLanguage.SecondStarConsumes | lib/fnmatch.c:97-100 | a pattern with two stars, and a string of its language that is refused |
| FnMatchLanguage.EscapeInSetIsReadTwoWays | lib/fnmatch.c:131-186 | a pattern with an escape in brackets that is read with and without the escape |
| TimeDifference.TmDiffIsGregorian | lib/strftime.c:297-315 | the difference is that of the proleptic Gregorian calendar for all years, negative ones included: the lengths of the years between, summed year by year, and the difference of the days, hours, minutes and seconds |
| TimeDifference.LeapDaysCounted | lib/strftime.c:302-308 | the shifted and divided year counts the leap days before it, whatever its sign |
| TimeDifference.CorrectionIsNeeded | lib/strftime.c:304-305 | a year for which the truncating division without its correction term is wrong |
| SearchCompiler.Compiler.SearchWhere | src/search.c:748-790 | a query is accepted if and only if it parses with nothing but spaces behind, and the body is the XML of the meaning of its syntax tree |
| SearchCompiler.Compiler.SearchCondition | src/search.c:1071-1111 | the loop over `or` emits the XML of the alternatives and stops where the grammar does |
| SearchCompiler.Compiler.BooleanTerm | src/search.c:1125-1164 | the loop over `and` emits the XML of the factors and stops where the grammar does |
| SearchCompiler.Compiler.BooleanFactor | src/search.c:1178-1207 | the XML of a factor, negated or not |
| SearchCompiler.Compiler.BooleanPrimary | src/search.c:1221-1260 | the XML of a parenthesized condition or of a predicate |
| SearchCompiler.Compiler.Predicate | src/search.c:1313-1397 | the XML of a comparison or containment, or an error in the cases of the grammar function |
| SearchCompiler.Compiler.ReadWord | src/search.c:886-986 | the word, its kind and the rest of the buffer are those of the lexer function |
| SearchCompiler.ScanQuoted | src/search.c:1479-1497 | a quoted literal ends at the first quote with no backslash before it |
| SearchCompiler.EndOfWordString | src/search.c:1530-1542 | a word string ends at the first blank, tab or closing parenthesis |
| SearchTheorems.ConditionIsDerived | src/search.c:851-870 | what is accepted is derived by the grammar of the comment, `not` binding tighter than `and` and `and` tighter than `or`, and the text of the derivation is the text consumed |
| SearchGrammar.ReadsExactlySentences | src/search.c:1071-1542 | a tree is read from a text, up to a given rest, if and only if the text is that of the tree and the rest, the grammar derives the tree, and its words, symbols and values end where the tree says, no connective goes on behind and no column is taken for a keyword |
| SearchGrammar.ContainsIffLowerCase | src/search.c:1313-1449 | a text whose first word is `contains` in any case is a predicate if and only if the word is in lower case and a value follows, and with a capital letter the query is refused |
| SearchGrammar.ContainsInCapitalsFails | src/search.c:1411-1430 | `contains x` is accepted and `Contains x` refused |
| SearchGrammar.MatchIffValue | src/search.c:1463-1542 | a match string is read if and only if a character other than a closing parenthesis follows the spaces and a quote is closed by a later one with no backslash before it |
| SearchTheorems.EmittedXmlHasOneMeaning | src/search.c:748-790 | for an accepted query whose literals hold no tag, the emitted XML is read back as the meaning of a derivation of the query, and is the text of no other condition |
| SearchXml.ReadUndoesXml | src/search.c:1071-1448 | the emitted text of any condition is read back as that condition, whatever follows it |
| SearchXml.XmlIsUnique | src/search.c:1071-1448 | two conditions never have the same text, and none begins another |
| SearchRoundTrip.PrintIsPrimary | src/search.c:1221-1397 | every condition written with parentheses, its columns no keywords and its literals quoted or, where they cannot be, as words, is parsed as itself, whatever follows |
| SearchRoundTrip.CompilePrinted | src/search.c:748-790 | every such condition, printed and compiled, gives its own XML |
| SearchRoundTrip.AcceptedQueryIsReprinted | src/search.c:748-790 | the meaning of every accepted query without keyword columns can be printed, and the printed query is parsed with the same meaning |

## Left out

- Network, terminal, pager, editor, certificate and authentication code, and every call into neon.
- Allocation failure, integer and pointer overflow, and the fixed size of word buffers.
- `lib/snprintf.c`, `lib/glob/glob.c`, and small helpers (base names, case-insensitive comparison, options, the netrc list), which would only add easy members.
- External entities, parameter-entity parsing, encoding detection, unknown encodings, the XML declaration, and the prefix expansion of attribute names in `storeAtts`.
- The tables of name characters for the multi-byte classes are a parameter of the tokenizer; `naming.dfy` is about how such tables are packed.
- Scanners.DoAttributeValueTok: when the end of the text cuts a multi-byte character the model ends at the end of the text, where the original reads on.
- AttributeValues.Parser.AppendAttributeValue: the pool is represented by its unfinished string, error positions are not kept, and the call of `abort` for a token outside the switch is an error value.
- StringPools.StringPool.CopyString: `poolAppend` and `poolStoreString`, which convert encodings into the pool, are not modelled.
- NamespaceBindings.Parser.AddBinding: the lists through `nextTagBinding` are sequences of nodes, the buffer of a URI is its used part, and the handlers called for declarations are left out.
- NamespaceBindings.Run: the names of start and end tags are taken to match; after a mismatch or an asynchronous end tag the parser does nothing more.
- PushParser.Parser.Parse: after an error a call only reports it again, so the byte index refers to the call that failed; line and column numbers are left out.
- ChunkSequences.ReadContent: gives the tokens; what doContent does with them, the final chunk, and the loop of a CDATA section are left out.
- Contexts.Parser.SetContext: the hash tables are maps, and `addBinding` is its effect on the binding of one prefix.
- HashTables.HashTable.Search: the start slot is written as a remainder, which HashTables.MaskIsRemainder shows to be the mask.
- ContentModels.Prolog.Process: starts after the element name; names repeated in mixed content are not checked there by the original either, and the role of a parameter-entity reference changes nothing.
- Transcode.DoToUtf8: units are 16-bit numbers, so byte order is abstracted, and pairs of surrogates are complete.
- Transcode.DoToUtf16: stops at the first turn that changes nothing, which the original repeats for ever; a text that cuts its last character, behind which the original reads on, is not covered.
- NamingTables.Generate: the two lists of ranges are parameters, and the bitmaps and pages are returned instead of printed.
- Getopt.Scanner.GetAll: permuting order and short options only, without `W;` in the option string; error messages and long options are left out.
- FnMatch.Fnmatch: only the flags FNM_PERIOD and FNM_NOESCAPE; characters compare as unsigned. Where a second star or a backslash at the end lets the original move past the end of a string, the model stays at the end, or refuses.
- FnMatchLanguage.CodeIsLanguage: patterns with a backslash at the end, or with an element followed by `\]` or `\\` in a set that is not negated, are not covered; for these only the counterexample is given.
- SearchCompiler.Compiler.ReadWord: character classes are those of the C locale, and words may be of any length.
- SearchTheorems.EmittedXmlHasOneMeaning: reads the text as emitted; an XML parser reads the same tree when literals hold no `&` either.
