# A model of FitNesse and the libraries bundled with it

The project models the parts of FitNesse where small algorithms carry a promise that is not visible
in any single function, and proves that promise for all inputs, runs or reachable states.

| file | what it models |
|---|---|
| `Base64Vlq`, `ArraySet`, `Mappings`, `SourceMap` | the "mappings" field of Source Map Revision 3 in the bundled LESS compiler: variable length numbers under 32-bit shifts, the string table, the order of mappings, printer and parser |
| `SourceNodes`, `NodeMaps`, `NodeRoundTrip` | splitting generated code by its mappings, printing a node together with its map, looking original positions up by binary search, and going from code to nodes and back |
| `ExtendMatch`, `ExtendSpaces`, `ExtendSplice` | `:extend` in LESS: finding and replacing a selector in a selector path |
| `Chunker`, `ParserInput` | cutting LESS text into chunks, and the parser's place in them |
| `Units`, `UnitArithmetic` | numbers with units: converting, cancelling, combining, comparing |
| `HslColour` | colours as hue, saturation and lightness (section 4.2.4 of CSS Color Module Level 3), and as hue, saturation and value |
| `JasmineQueue`, `FakeTimer` | the run queue and the fake clock of the bundled Jasmine |
| `RowMatching` | the row fixture of Fit: matching expected rows with computed ones column by column |
| `FitScan`, `FitParse`, `FitParseEnds`, `FitParseTexts`, `Escaping` | the HTML table parser of Fit with its printer, the texts on which it ends, and the escaping of cell texts |
| `StreamReading`, `HttpHeaders`, `Multipart`, `ChunkedTransfer` | the HTTP layer: the stream reader, multipart forms (section 5.1.1 of RFC 2046), chunked transfer (section 4.1 of RFC 7230) |
| `Bowling` | the bowling example: a state machine beside an array of rolls |
| `Sequences`, `Strings`, `Wrappers` | facts and small types that the others share |

Code that works step by step is modelled by methods and classes with the source's own fields, each
proved against a function that says what it computes; what the source promises is then proved about
that function. An exception is a failure value. A choice that the source leaves to its engine or its
environment (the order of a hash map, the algorithm of a sort, how much a read delivers, whether a
block completes at once) is left open, so that the proofs hold for every choice.

Where the code and its own words differ, the model follows the code:

- The queue's comment says that a block marked as ensured is executed even after an abort
  (extra/jasmine-1.3.1/jasmine.js:2008-2009). The loop stops at the first block that is not ensured;
  `JasmineQueue.RunsUnlessCutOff` says exactly which blocks run.
- The fake clock does not call in order of time, since a batch is run before what it schedules;
  `FakeTimers.TimeOrderedExactlyWhen` says when it does.
- `:extend` replaces every match, but a selector next to a replaced one can lose the space in front of
  it; `ExtendSplice.ExtendSelector` says exactly when.
- A hue more than 240 degrees below a full turn gives another colour than its angle;
  `HslColour.HueWrapsExactlyWhen` and `HslColour.HueOfMinus300`.
- Strict units let one kind of mixed addition through (`UnitArithmetic.AddsMismatchedUnits`) and refuse
  some numbers of one kind (`UnitArithmetic.RefusesItself`); `UnitArithmetic.Added` says which.
- The row fixture skips an unbound column when it matches, but not when it compares two rows, and then
  rows are lost; `RowMatching.RowFixture.Match` says when, `RowMatching.LoseOneRow` shows one.
- `unescapeHTML` is not an inverse of `escapeHTML` on every text;
  `Escaping.UnescapeHtmlUndoesExactlyWhen`.
- The stream reader has no way back over bytes it has matched, so that some boundaries are missed;
  `StreamReading.ReadUpToIsExact` says which.
- A tag without a closing bracket can keep the table parser running for ever
  (`FitParseTexts.CircleNeverEnds`), or until its count overflows after 2^31 - 1 rounds, and a closing
  bracket behind every tag does not prevent that (`FitParseTexts.DocumentOverflows`).
  `FitParseEnds.ParserEndsExactlyWhen` says on which texts it ends.
- The bowling game does not notice some endings of the tenth frame, and the scoreable frame lags behind
  after a strike and a spare; `Bowling.GameEnds`, `Bowling.OverlookTheEnd` and `Bowling.ScoreableLags`.
- Saving the parser's place moves the position of the current text without cutting the text;
  `ParserInput.Parser.Save` says when that is in order, `ParserInput.SaveBehindCombinator` when it is not.
- The chunker takes a comment that is opened by the last two characters, and refuses the end of a
  comment in parentheses; `Chunker.CommentsAtTheEdges`.

## Model

| member | source | states |
|---|---|---|
| Base64Vlq.RoundTripExactlyBelow2To30 | extra/lesscss/less-rhino-1.7.0.js:7962-8031 | for every integer, decoding its encoding followed by any text gives the integer and that text if and only if its magnitude is below 2^30, the bound that the 32-bit shifts leave |
| Base64Vlq.DecodeEncode | extra/lesscss/less-rhino-1.7.0.js:7962-8031 | what decoding an encoding gives for any integer at all: the value that the 32-bit shifts keep of it, and the rest untouched |
| Base64Vlq.DecodeUnsigned | extra/lesscss/less-rhino-1.7.0.js:8009-8031 | the digits of a 32-bit number, low ones first with continuation bits, add up to the number again, read as a signed 32-bit value |
| Base64Vlq.DigitRoundTrip | extra/lesscss/less-rhino-1.7.0.js:8040-8070 | each of the 64 digits has its own character, and is read back from it |
| Base64Vlq.EncodedStartsWithDigit | extra/lesscss/less-rhino-1.7.0.js:7985-8003 | an encoding is never empty and starts with a base-64 digit, so it cannot be taken for a separator of the mappings field |
| Base64Vlq.EncodeLoop | extra/lesscss/less-rhino-1.7.0.js:7985-8003 | the do loop writes exactly the specified digits and ends for every 32-bit value |
| Base64Vlq.DecodeLoop | extra/lesscss/less-rhino-1.7.0.js:8009-8031 | the do loop reads exactly the specified value, or fails as specified when the text ends inside a value or holds a character that is no digit |
| ArraySets.ArraySet.Add | extra/lesscss/less-rhino-1.7.0.js:8312-8321 | the string is appended unless it is there already and duplicates are not wanted; the index kept for it stays that of its first occurrence |
| ArraySets.ArraySet.FromArray | extra/lesscss/less-rhino-1.7.0.js:8299-8305 | with duplicates the set holds the given strings as they are; without, each of them once, in the order in which they come first |
| ArraySets.ArraySet.Has | extra/lesscss/less-rhino-1.7.0.js:8328-8331 | a string is in the set exactly when it was added |
| ArraySets.ArraySet.IndexOf | extra/lesscss/less-rhino-1.7.0.js:8338-8343 | the index of the first occurrence, and none exactly when the string is absent |
| Mappings.ComparatorIsTotal | extra/lesscss/less-rhino-1.7.0.js:8242-8271 | two valid mappings compare as equal only when they are the same, and otherwise one is before the other, whichever way they are compared |
| Mappings.ComparatorIsTransitive | extra/lesscss/less-rhino-1.7.0.js:8242-8271 | being before is transitive, so the comparator is a strict order |
| Mappings.SortSorts | extra/lesscss/less-rhino-1.7.0.js:7793-7793 | the sorted array is in order and has the same mappings, each as often |
| Mappings.SortedPermutationIsUnique | extra/lesscss/less-rhino-1.7.0.js:7793-7793 | whatever algorithm the engine sorts with, the sorted array is the same |
| SourceMap.MappingsRoundTrip | extra/lesscss/less-rhino-1.7.0.js:7777-7841 | parsing the printed mappings reads back exactly the valid mappings that were added, in strict generated order and each once, if and only if every printed difference fits the encoding |
| SourceMap.MappingsBelowLimitRoundTrip | extra/lesscss/less-rhino-1.7.0.js:7777-7841 | the round trip holds whenever the numbers themselves are below 2^30 |
| SourceMap.ParseSerialized | extra/lesscss/less-rhino-1.7.0.js:8550-8626 | parsing a printed field from any running state gives the mappings from there on with consecutive repetitions dropped, for sorted mappings whose differences fit |
| SourceMap.DistinctOfSorted | extra/lesscss/less-rhino-1.7.0.js:7805-7812 | comparing each mapping with the one before it leaves each mapping of a sorted list once, in strict order |
| SourceMap.ParseSegmentText | extra/lesscss/less-rhino-1.7.0.js:8572-8618 | one printed segment is parsed to its mapping and the running values after it, with the text behind it left over |
| SourceMap.NumbersBelowLimitFit | extra/lesscss/less-rhino-1.7.0.js:7814-7837 | numbers below 2^30 have differences that fit, along the whole list and across lines |
| SourceMap.StrictOrderIsUnique | extra/lesscss/less-rhino-1.7.0.js:8242-8271 | a list in strict generated order is determined by its members |
| SourceMap.SourceMapGenerator.AddMapping | extra/lesscss/less-rhino-1.7.0.js:7604-7629 | a mapping is accepted exactly when it is valid, is then appended, and its source and name are collected once; a refused one changes nothing |
| SourceMap.SourceMapGenerator.Collect | extra/lesscss/less-rhino-1.7.0.js:7613-7619 | a non-empty string is collected unless it is there already, so the table has no duplicates |
| SourceMap.SourceMapGenerator.SerializeMappings | extra/lesscss/less-rhino-1.7.0.js:7777-7841 | sorts the mappings in place and prints the specified field; the inner loop over line separators ends because the sorted lines never go down |
| SourceMap.SourceMapGenerator.PrintMapping | extra/lesscss/less-rhino-1.7.0.js:7795-7838 | one turn of the printing loop prints what the specification says of one mapping: separators, nothing for a repetition, or a segment |
| SourceMap.SourceMapGenerator.PrintMappings | extra/lesscss/less-rhino-1.7.0.js:7795-7840 | the whole printing loop prints the specified field for mappings sorted by line |
| SourceMap.SourceMapGenerator.PrintSemicolons | extra/lesscss/less-rhino-1.7.0.js:7798-7804 | one semicolon for each line between, and the column starts again at 0 |
| SourceMap.SourceMapGenerator.PrintSegment | extra/lesscss/less-rhino-1.7.0.js:7814-7837 | a segment is the column and, for a mapping with a source, its original position, each as a difference, and the running values become those of the mapping |
| SourceMap.SourceMapGenerator.PrintOriginal | extra/lesscss/less-rhino-1.7.0.js:7818-7837 | source, line, column and name are printed as differences to the values before them |
| SourceMap.SourceMapConsumer.ParseMappings | extra/lesscss/less-rhino-1.7.0.js:8550-8626 | the loop over the text gives the specified mappings, or the specified error with the mappings read so far left in place |
| SourceMap.SourceMapConsumer.ParseSegmentNow | extra/lesscss/less-rhino-1.7.0.js:8572-8618 | one segment is parsed to the specified mapping, running values and rest, with the two errors for a source without a line and a line without a column |
| SourceMap.PrintThenParse | extra/lesscss/less-rhino-1.7.0.js:8550-8626 | a generator that prints and a consumer that parses with its tables: the consumer has exactly the mappings that were added, in strict order |
| SourceNodes.FromStringWithSourceMap | extra/lesscss/less-rhino-1.7.0.js:8960-9055 | for any ordered mappings whose lines exist: the node holds the text before the first mapping line by line, then one piece for the code each mapping covers, and its text is the code again |
| SourceNodes.SplitLeading | extra/lesscss/less-rhino-1.7.0.js:8979-8992 | the code before the first mapping becomes texts without an original position, and the rest of the lines is what lies behind it |
| SourceNodes.SplitCode | extra/lesscss/less-rhino-1.7.0.js:8993-9026 | the code taken for a mapping is exactly the text between two positions, across any number of lines and for columns past the end of a line |
| SourceNodes.SplitKeepsCode | extra/lesscss/less-rhino-1.7.0.js:8960-9055 | putting the pieces of the split code together gives the code |
| SourceNodes.SplitGivesOriginals | extra/lesscss/less-rhino-1.7.0.js:8960-9055 | every character has the original position of the mapping that covers it, and none before the first mapping |
| SourceNodes.JoinOfLines | extra/lesscss/less-rhino-1.7.0.js:8968-8968 | splitting at line breaks and joining again is the identity |
| NodeMaps.ToStringWithSourceMap | extra/lesscss/less-rhino-1.7.0.js:9221-9284 | on success the code is the text of the node and the generator has one mapping wherever the original position changes, at the position that the code emitted so far ends at; it fails exactly when some original position is invalid |
| NodeMaps.MapSnippet | extra/lesscss/less-rhino-1.7.0.js:9235-9269 | a mapping is added exactly when the original position of the snippet differs from the one in force |
| NodeMaps.Count | extra/lesscss/less-rhino-1.7.0.js:9270-9277 | the line and column counters move on to where the snippet ends |
| NodeMaps.EmittedIncreases | extra/lesscss/less-rhino-1.7.0.js:9221-9284 | the positions of the mappings increase strictly |
| NodeMaps.EmittedInForce | extra/lesscss/less-rhino-1.7.0.js:9221-9284 | at every character of the code the last mapping at or before it has the original position of the snippet that the character came from |
| NodeMaps.SearchFindsClosest | extra/lesscss/less-rhino-1.7.0.js:8914-8918 | on ordered mappings the binary search returns an entry at or before the needle with nothing between the two, and nothing exactly when every entry is behind the needle |
| NodeMaps.RecursiveSearchFindsClosest | extra/lesscss/less-rhino-1.7.0.js:8860-8900 | the same for any bounds whose entries lie on the two sides of the needle; the recursion ends |
| NodeMaps.ClosestIsInForce | extra/lesscss/less-rhino-1.7.0.js:8860-8900 | with strictly increasing positions the entry found is the mapping in force |
| NodeMaps.OriginalPositionFor | extra/lesscss/less-rhino-1.7.0.js:8667-8698 | lines below 1 and columns below 0 are refused; otherwise the original of a closest mapping at or before the position is returned, also when several mappings share a position, and the one in force when none do |
| NodeMaps.PrintAndParse | extra/lesscss/less-rhino-1.7.0.js:9221-9284 | the whole way: print a node with its map, print and parse the map; at every character of the code the position looked up is that of the snippet the character came from |
| NodeRoundTrip.PrintSplitPrint | extra/lesscss/less-rhino-1.7.0.js:8960-9284 | printing a node, splitting the code by the map as it is read back, and printing the pieces gives the same code and the same mappings |
| NodeRoundTrip.PrintedSplitsBack | extra/lesscss/less-rhino-1.7.0.js:8960-9284 | printed code can be split by its own mappings, and the pieces print to that code and those mappings |
| NodeRoundTrip.SplitKeepsOriginals | extra/lesscss/less-rhino-1.7.0.js:8960-9055 | the pieces hold, character by character, the original positions of the first node |
| NodeRoundTrip.SplitGivesMappings | extra/lesscss/less-rhino-1.7.0.js:8960-9055 | splitting code by mappings at its characters, each with another original position than the one before, and printing it gives these mappings back |
| NodeRoundTrip.PositionInCode | extra/lesscss/less-rhino-1.7.0.js:9221-9284 | the line and column counted for a character lead back to that character |
| ExtendMatch.FindMatch | extra/lesscss/less-rhino-1.7.0.js:7029-7097 | one pass over the elements, with its list of potential matches, finds exactly the leftmost matches that do not overlap, each with its place in the path |
| ExtendMatch.TryPotential | extra/lesscss/less-rhino-1.7.0.js:7053-7093 | a potential match is advanced, completed or dropped exactly when the needle still can match, matches here, or cannot |
| ExtendMatch.TryElement | extra/lesscss/less-rhino-1.7.0.js:7046-7094 | after an element either the list holds all and only the starts that can still match, or one match is complete and the list is empty |
| ExtendMatch.GreedyIsDisjoint | extra/lesscss/less-rhino-1.7.0.js:7086-7087 | the chosen matches are matches, in order, and none overlaps another |
| ExtendMatch.GreedyIsMaximal | extra/lesscss/less-rhino-1.7.0.js:7086-7087 | a match that was not chosen overlaps a chosen one that starts before it |
| ExtendSplice.ExtendSelector | extra/lesscss/less-rhino-1.7.0.js:7136-7196 | the result flattens to the flattened path with every match replaced under its initial combinator; as written out it is the path with every match replaced if and only if no selector lost its space; and selector by selector it is the path with its matches replaced one at a time from the last to the first, each making one selector of those it touches and of the one right behind if the next match starts there |
| ExtendSplice.AttachNext | extra/lesscss/less-rhino-1.7.0.js:7159-7185 | one turn of the loop moves a match from what follows to the output, whether it is in the selector of the match before, in the next one, or further on |
| ExtendSplice.RecordsInTurn | extra/lesscss/less-rhino-1.7.0.js:7149-7186 | matches that are in order and apart follow each other selector by selector |
| ExtendSplice.OneOfMany | extra/lesscss/less-rhino-1.7.0.js:7136-7196 | with one match the selectors are those of the path, the ones it touches becoming one |
| ExtendSplice.SpliceMatch | extra/lesscss/less-rhino-1.7.0.js:7149-7186 | one match is replaced: what lay before it and the replacement move to the output, and the splicing goes on right behind the match |
| ExtendSplice.FinishCut | extra/lesscss/less-rhino-1.7.0.js:7159-7163 | the rest of a selector cut by the match before goes to the output before a match in a later selector is spliced |
| ExtendSplice.SpliceNext | extra/lesscss/less-rhino-1.7.0.js:7149-7186 | after each match the output and what is still to be replaced make the path with its matches replaced |
| ExtendSplice.FinishSelector | extra/lesscss/less-rhino-1.7.0.js:7159-7163 | the rest of the selector is added to the last one of the output, and nothing is lost or doubled |
| ExtendSplice.SpliceRest | extra/lesscss/less-rhino-1.7.0.js:7188-7195 | what is left behind the last match is kept as it is |
| ExtendSplice.Extended | extra/lesscss/less-rhino-1.7.0.js:7029-7097 | finding and replacing together, for every needle, path and option |
| ExtendSplice.SpaceCanBeLost | extra/lesscss/less-rhino-1.7.0.js:7170-7172 | two matches in adjacent selectors: the second selector is merged into the first and loses the space in front of it |
| Chunker.SplitIntoChunks | extra/lesscss/less-rhino-1.7.0.js:527-646 | the loop with its jumps over strings, comments and escapes gives exactly the chunks, or the error, of a reading character by character |
| Chunker.ChunksAreTheText | extra/lesscss/less-rhino-1.7.0.js:542-549 | on success the chunks put together are the input, none is empty, and every chunk but the last is cut at the first semicolon, or brace that closes the outermost block, outside parentheses, strings and comments that makes it longer than 512 characters |
| Chunker.SkipQuoted | extra/lesscss/less-rhino-1.7.0.js:584-601 | a string ends at the first unescaped quote of its kind; otherwise the right one of two errors is given |
| Chunker.SkipLineComment | extra/lesscss/less-rhino-1.7.0.js:605-610 | a line comment ends at a line break or with the text |
| Chunker.SkipBlockComment | extra/lesscss/less-rhino-1.7.0.js:611-624 | a block comment ends at its closer; a comment that does not end is an error unless its opener is the end of the text |
| Chunker.SkipComment | extra/lesscss/less-rhino-1.7.0.js:602-625 | a slash opens a comment only outside parentheses and before its second character; otherwise it is read as code |
| Chunker.CommentsAtTheEdges | extra/lesscss/less-rhino-1.7.0.js:602-630 | the two odd cases: an opener as the last two characters is accepted, and the end of a comment in parentheses is refused |
| ParserInput.Parser.SkipWhitespace | extra/lesscss/less-rhino-1.7.0.js:349-378 | moves to the first place behind the match that is not white space, across chunks, and says whether anything changed; the current text stays the input from the current position to the end of the current chunk |
| ParserInput.Parser.Sync | extra/lesscss/less-rhino-1.7.0.js:269-274 | cutting off what was read keeps the current text the input from the current position to the end of the chunk |
| ParserInput.Parser.Combinator | extra/lesscss/less-rhino-1.7.0.js:1557-1573 | a combinator moves the place alone, over itself, a second sign and blanks, and keeps the relation to the current text exactly while it stays in the chunk |
| ParserInput.Parser.Save | extra/lesscss/less-rhino-1.7.0.js:265-265 | saving the place keeps the relation between the current text and its position if and only if the parser stands at the start of that text, and only then can the place be gone back to |
| ParserInput.Parser.Restore | extra/lesscss/less-rhino-1.7.0.js:266-266 | going back to a place saved in order restores that relation, wherever the parser has come since |
| ParserInput.SaveBehindCombinator | extra/lesscss/less-rhino-1.7.0.js:265-265 | a place saved right behind a combinator is one that cannot be gone back to |
| ParserInput.SpaceEndIsFirst | extra/lesscss/less-rhino-1.7.0.js:357-366 | everything skipped is white space, and what is skipped to is not |
| ParserInput.ChunksInText | extra/lesscss/less-rhino-1.7.0.js:371-375 | the next chunk is the text behind the end of this one, and the last chunk ends with the text |
| Units.Unit.Cancel | extra/lesscss/less-rhino-1.7.0.js:3974-4018 | afterwards each unit is above or below the line as often as its net exponent says, both lists are in order, and the backup unit is the first unit when nothing is left |
| Units.CancelKeepsQuantity | extra/lesscss/less-rhino-1.7.0.js:3974-4018 | cancelling keeps the physical quantity |
| Units.CancelKeepsKind | extra/lesscss/less-rhino-1.7.0.js:3974-4018 | cancelling keeps the net exponent of every kind of unit |
| Units.Unit.UsedUnits | extra/lesscss/less-rhino-1.7.0.js:3951-3972 | for each group the first unit of it, above the line before below it, and no other entry |
| Units.Unit.MapGroup | extra/lesscss/less-rhino-1.7.0.js:3834-3856 | every unit of the group is replaced by the target and the value is scaled so that the quantity stays the same |
| Units.Unit.MapNumerator | extra/lesscss/less-rhino-1.7.0.js:3939-3944 | above the line every unit of the group becomes the target, and the value makes up for each |
| Units.Unit.MapDenominator | extra/lesscss/less-rhino-1.7.0.js:3946-3949 | below the line likewise, dividing instead of multiplying |
| Units.Unit.CountUnits | extra/lesscss/less-rhino-1.7.0.js:3975-3991 | the counter holds the net exponent of every unit, and the backup is the first unit that has a name |
| Units.OrderDoesNotMatter | extra/lesscss/less-rhino-1.7.0.js:4016-4017 | scales and exponents do not depend on the order of the units |
| UnitArithmetic.ConvertTo | extra/lesscss/less-rhino-1.7.0.js:3821-3861 | converting keeps the quantity and every exponent, and each unit of a group asked for becomes its target, whatever order the groups are taken in |
| UnitArithmetic.ConvertToName | extra/lesscss/less-rhino-1.7.0.js:3825-3833 | the same for a conversion asked for by one unit name; an unknown name converts nothing |
| UnitArithmetic.Scaled | extra/lesscss/less-rhino-1.7.0.js:3775-3783 | multiplying and dividing multiply and divide the quantities and add or subtract the exponents, and no unit is left on both sides |
| UnitArithmetic.Added | extra/lesscss/less-rhino-1.7.0.js:3759-3774 | an addition with conversion adds the quantities whenever the units match, with and without strict units; strict units refuse every other one, for names without a star or a slash; otherwise the converted value is added; without conversion the values are added, and of two numbers with units the kinds then always differ |
| UnitArithmetic.MatchesExactlyWhen | extra/lesscss/less-rhino-1.7.0.js:3766-3766 | the converted unit is that of the first operand if and only if both are of one kind, the first unit is its own conversion to the units used in it, and the second has no other units that do not cancel one by one |
| UnitArithmetic.MatchesByText | extra/lesscss/less-rhino-1.7.0.js:3768-3771 | comparing the two units as texts decides that, for names without a star or a slash |
| UnitArithmetic.SingleUnitsMatch | extra/lesscss/less-rhino-1.7.0.js:3759-3774 | two single units match if and only if they measure the same |
| UnitArithmetic.RefusesItself | extra/lesscss/less-rhino-1.7.0.js:3768-3771 | strict units refuse to add 1px*1cm to itself |
| UnitArithmetic.MixedKindsDiffer | extra/lesscss/less-rhino-1.7.0.js:3763-3764 | whenever an operand with a unit is added to one taken without conversion, the kinds differ |
| UnitArithmetic.AddsMismatchedUnits | extra/lesscss/less-rhino-1.7.0.js:3763-3764 | not even strict units refuse a second operand with units below the line only: 1px + 2/s is 3px |
| UnitArithmetic.Compare | extra/lesscss/less-rhino-1.7.0.js:3787-3815 | numbers of one kind compare as their quantities; of different kinds the first counts as the smaller; without a unit the plain values compare |
| UnitArithmetic.UnifiedIsUnique | extra/lesscss/less-rhino-1.7.0.js:3817-3819 | numbers of one kind have the same unit once unified |
| UnitArithmetic.UnitStringIsUnique | extra/lesscss/less-rhino-1.7.0.js:3911-3925 | units with the same text are the same units, for names without a star or a slash |
| HslColour.HslRoundTrip | extra/lesscss/less-rhino-1.7.0.js:3504-3526 | every colour with channels from 0 to 255 comes back from its hue, saturation and lightness, greys and ties included |
| HslColour.SixthsAndBack | extra/lesscss/less-rhino-1.7.0.js:3518-3523 | the hue determines the three channels between their least and greatest, whichever channel is the greatest |
| HslColour.SaturationAndBack | extra/lesscss/less-rhino-1.7.0.js:2248-2249 | saturation and lightness determine the greatest and least channel |
| HslColour.HueWrapsExactlyWhen | extra/lesscss/less-rhino-1.7.0.js:2236-2255 | a hue gives the colour of its angle between 0 and 360 if and only if it is at most 240 below a full turn or the colour is grey, black or white |
| HslColour.HueOfMinus300 | extra/lesscss/less-rhino-1.7.0.js:2236-2255 | a hue of -300 gives another colour than one of 60 |
| HslColour.HsvRoundTrip | extra/lesscss/less-rhino-1.7.0.js:3528-3558 | the same round trip for hue, saturation and value |
| JasmineQueue.Queue.Run | extra/jasmine-1.3.1/jasmine.js:2058-2110 | whichever blocks complete at once, later or by the timer, and whatever they insert or add to the end meanwhile, a started queue ends, has called its completion once, and has run its schedule up to where an abort cuts it off |
| JasmineQueue.ScheduleInStages | extra/jasmine-1.3.1/jasmine.js:2027-2044 | the schedule is the pre-order of the tree of inserted blocks, and behind it the schedule of all that those blocks added to the end |
| JasmineQueue.ScheduleWithoutAdds | extra/jasmine-1.3.1/jasmine.js:2036-2044 | if no block adds to the end the schedule is that pre-order |
| JasmineQueue.RunsUnlessCutOff | extra/jasmine-1.3.1/jasmine.js:2065-2065 | a block runs exactly when every block after the first abort and up to it is ensured; ensured blocks behind one that is not do not run |
| JasmineQueue.AllRunWithoutAbort | extra/jasmine-1.3.1/jasmine.js:2058-2110 | without an abort every block of the schedule runs |
| JasmineQueue.ExecutedIsPrefix | extra/jasmine-1.3.1/jasmine.js:2065-2065 | what runs is a front part of the schedule: nothing is skipped over |
| JasmineQueue.PreorderStep | extra/jasmine-1.3.1/jasmine.js:2036-2044 | after a block has run, the blocks it inserted stand in front of the rest |
| JasmineQueue.Queue.InsertNext | extra/jasmine-1.3.1/jasmine.js:2036-2044 | the block goes behind the running one and those inserted since it started, in both parallel arrays |
| JasmineQueue.Queue.AddBefore | extra/jasmine-1.3.1/jasmine.js:2018-2025 | the block goes to the front with its mark |
| JasmineQueue.Queue.Add | extra/jasmine-1.3.1/jasmine.js:2027-2034 | the block goes to the end with its mark |
| JasmineQueue.Queue.Execute | extra/jasmine-1.3.1/jasmine.js:2096-2096 | what a block inserts while it runs comes behind it in the order it was inserted, the rest of the queue behind that, and what it adds at the end |
| JasmineQueue.BlockAdds | extra/jasmine-1.3.1/jasmine.js:2354-2356 | a block added to the end while another runs leaves what is still to come the same |
| JasmineQueue.Queue.FinishBlock | extra/jasmine-1.3.1/jasmine.js:2075-2080 | a completion records an abort and moves on by one, and what the block inserted is next |
| JasmineQueue.Queue.RunBlock | extra/jasmine-1.3.1/jasmine.js:2066-2101 | executing a block keeps the relation between the queue and what has run, and brings the end nearer |
| JasmineQueue.Queue.Next | extra/jasmine-1.3.1/jasmine.js:2058-2110 | the trampoline keeps that relation and ends in a callback, or with the queue complete |
| JasmineQueue.Queue.Start | extra/jasmine-1.3.1/jasmine.js:2046-2050 | starting fixes the order as the schedule of what was added |
| JasmineQueue.Queue.Resume | extra/jasmine-1.3.1/jasmine.js:2085-2092 | a callback keeps the relation and brings the end nearer |
| JasmineQueue.AddBeforesAndAfters | extra/jasmine-1.3.1/jasmine.js:2381-2404 | befores run from the outermost suite inwards, not ensured; the afters of the spec, the suites and the runner follow from the inside out, all ensured |
| JasmineQueue.AftersRunAllOrNone | extra/jasmine-1.3.1/jasmine.js:2381-2404 | after an abort the afters all run if every block between the abort and them is ensured, and none of them otherwise |
| FakeTimers.FakeTimer.Tick | extra/jasmine-1.3.1/jasmine.js:1612-1617 | a tick calls exactly what is due, each once, round by round and within a round by time, leaves each timer at its next time, and afterwards no live timer is due |
| FakeTimers.FakeTimer.RunFunctionsWithinRange | extra/jasmine-1.3.1/jasmine.js:1619-1652 | the recursion does so and ends: each round moves every due timer on |
| FakeTimers.FakeTimer.TakeDue | extra/jasmine-1.3.1/jasmine.js:1622-1630 | the due timers are taken out of the table, each once, in any order of the keys |
| FakeTimers.FakeTimer.RunBatch | extra/jasmine-1.3.1/jasmine.js:1632-1649 | a batch runs in order of time, each call at its own time, and intervals are scheduled again, even one that cleared itself |
| FakeTimers.FakeTimer.SetTimeout | extra/jasmine-1.3.1/jasmine.js:1584-1588 | a new key, due once after the delay |
| FakeTimers.FakeTimer.SetInterval | extra/jasmine-1.3.1/jasmine.js:1590-1594 | a new key, due again and again |
| FakeTimers.FakeTimer.Clear | extra/jasmine-1.3.1/jasmine.js:1596-1602 | only the timer with that key is gone |
| FakeTimers.FiresAtPeriodPoints | extra/jasmine-1.3.1/jasmine.js:1619-1652 | a timeout fires once, an interval once at each point of its period in the range |
| FakeTimers.LeftIsLater | extra/jasmine-1.3.1/jasmine.js:1654-1662 | what is left of an interval is its first period point after now; a timeout that fired is gone |
| FakeTimers.TicksAdd | extra/jasmine-1.3.1/jasmine.js:1612-1652 | two steps of the clock fire what one step fires, each call in exactly one of the two, and leave the same timers |
| FakeTimers.FiresOnce | extra/jasmine-1.3.1/jasmine.js:1619-1652 | a timer seen at two points of the clock fires each time in exactly one of the two ranges |
| FakeTimers.TickTwice | extra/jasmine-1.3.1/jasmine.js:1612-1617 | tick(a) and tick(b) make the same calls as tick(a + b), as a multiset, and end in the same state |
| FakeTimers.TimeOrderedExactlyWhen | extra/jasmine-1.3.1/jasmine.js:1632-1650 | the calls of a tick come in order of time if and only if no timer has its n-th time behind the (n+1)-th time of an interval, among the times up to the end of the tick: a condition on times and periods alone |
| FakeTimers.NthTimeFires | extra/jasmine-1.3.1/jasmine.js:1619-1652 | the n-th time of a timer is called in the n-th round, if and only if it is not behind the end of the tick |
| FakeTimers.FiresAtNthTime | extra/jasmine-1.3.1/jasmine.js:1619-1652 | every call is at such a time |
| FakeTimers.RunsOutOfOrder | extra/jasmine-1.3.1/jasmine.js:1632-1650 | an interval of 10 and a timeout of 25, ticked by 30, are called at 10, 25, 20 and 30 |
| FakeTimers.ClearingItselfChangesNothing | extra/jasmine-1.3.1/jasmine.js:1640-1645 | an interval that clears itself in its own callback goes on as if it had not |
| RowMatching.RowFixture.Match | src/fit/RowFixture.java:46-69 | for any rows and columns: matching ends if and only if no row it compares has a cell in an unbound column; then no row is lost or used twice, the paired rows are those it compares, no missing and surplus row with readable keys agree in every bound column, rows are paired only on full agreement or where no other row has their keys, and lists that differ only in order leave nothing over; otherwise at least one row is lost on each side and none is used twice |
| RowMatching.RowFixture.MatchGroups | src/fit/RowFixture.java:52-67 | the same over the union of the keys of one column, in any order of the keys |
| RowMatching.RowFixture.MatchGroup | src/fit/RowFixture.java:56-66 | the rows of one key: all surplus, all missing, one pair, or matched on the next column, up to a row that cannot be compared |
| RowMatching.RowFixture.Check | src/fit/RowFixture.java:143-164 | rows are paired in order as long as both lists have one, and what is left over is surplus or missing; or it stops at the first row with a cell in an unbound column, with the pairs before it |
| RowMatching.RowFixture.CompareCells | src/fit/RowFixture.java:155-161 | the loop over the cells breaks off if and only if a cell is in an unbound column |
| RowMatching.LoseOneRow | src/fit/RowFixture.java:152-161 | one expected and one computed row with the same key and a cell in an unbound column end neither paired, missing, surplus nor marked |
| RowMatching.CheckAll | src/fit/RowFixture.java:47-48 | with no column left the rows compared are those that have a partner |
| RowMatching.PartialLoses | src/fit/RowFixture.java:55-67 | rows lost in the group of one key are lost in the whole, whatever the groups before gave |
| RowMatching.BinRows | src/fit/RowFixture.java:86-134 | each row is in the list of its key, in order, and the rows with an unreadable key are set apart |
| RowMatching.ZippedMatches | src/fit/RowFixture.java:143-164 | with no column left any pairing is a matching |
| RowMatching.PartialEnds | src/fit/RowFixture.java:52-67 | when every key is done the outcomes of the groups and the unreadable rows make a matching of the whole |
| RowMatching.CountGroup | src/fit/RowFixture.java:123-134 | counting rows by their keys agrees with binning them column by column |
| StreamReading.ReadUpToIsExact | src/util/StreamReader.java:236-261 | for an ASCII boundary: reading up to it finds its first occurrence in every input, or without one gives everything but a boundary begun at the end, if and only if wherever its first byte comes again the rest of it begins the boundary |
| StreamReading.UpToSplits | src/util/StreamReader.java:236-261 | for such a boundary, from any state of the matcher |
| StreamReading.UnsafeBoundaryMissed | src/util/StreamReader.java:249-257 | for any other boundary, an input in which it is missed |
| StreamReading.StreamReader.ReadUpTo | src/util/StreamReader.java:84-99 | the text and the rest are those of the matcher, and the bytes consumed are counted |
| StreamReading.StreamReader.MatchByte | src/util/StreamReader.java:238-260 | one byte keeps the matcher on the way to that result |
| StreamReading.StreamReader.ReadBytes | src/util/StreamReader.java:71-76 | whatever short reads the stream makes, the bytes asked for are read, or all there are, and counted; the end of the stream is noticed only when more was asked for |
| StreamReading.StreamReader.ReadLine | src/util/StreamReader.java:197-212 | the line without its end and without carriage returns, and the bytes consumed are counted |
| HttpHeaders.HeadersRoundTrip | src/fitnesse/http/Request.java:78-91 | header lines written with plain names and values are read back as a map, a later one replacing an earlier one, up to the empty line |
| HttpHeaders.LineRoundTrip | src/util/StreamReader.java:197-212 | a line without line breaks is read back as it is |
| HttpHeaders.ReadHeaders | src/fitnesse/http/Request.java:78-91 | the loop reads the specified headers and leaves the rest of the input |
| Multipart.SendAndReceive | src/fitnesse/http/RequestBuilder.java:90-122 | a form that is built, sent and parsed is received with every field under its name and nothing else, in any order of the fields, and what follows the body is left unread |
| Multipart.SendFields | src/fitnesse/http/RequestBuilder.java:183-190 | a form made of any fields is received with each name once, and the latest content added under it |
| Multipart.PartsRoundTrip | src/fitnesse/http/Request.java:111-134 | parsing the written parts gives the fields, and the loop test on more than 10 bytes stops exactly behind the last part |
| Multipart.ReadPartBack | src/fitnesse/http/Request.java:118-132 | one written field is read back with its name and value, up to behind the next delimiter |
| Multipart.ReadUpToDelimiter | src/fitnesse/http/Request.java:130-130 | a value that does not contain the delimiter is read up to it |
| Multipart.NameIsFound | src/fitnesse/http/Request.java:121-125 | the pattern for the disposition finds the name, and nothing else, for every name without a quote |
| Multipart.AsInputsOfAll | src/fitnesse/http/RequestBuilder.java:96-98 | whatever the order of the hash map, the fields are received as the map |
| Multipart.RequestBuilder.BuildBody | src/fitnesse/http/RequestBuilder.java:90-122 | the parts put together are the body for the fields in some order, each once, and its length is the stated Content-Length when streams have the size stated for them |
| Multipart.RequestBuilder.AddField | src/fitnesse/http/RequestBuilder.java:96-117 | one field is written with its boundary, headers and content, as one piece or as a stream between two |
| Multipart.RequestBuilder.AddBodyPart | src/fitnesse/http/RequestBuilder.java:124-128 | the text is appended to the body and counted |
| Multipart.RequestBuilder.SendBody | src/fitnesse/http/RequestBuilder.java:130-138 | copying each part in pieces of at most 1000 bytes sends exactly the body |
| Multipart.Request.ParseMultiPartContent | src/fitnesse/http/Request.java:111-134 | the loop reads the specified form, or ends with the specified error |
| Multipart.Request.ReadPart | src/fitnesse/http/Request.java:118-132 | one part is read as specified, and the bytes consumed are counted |
| Multipart.Request.AddPart | src/fitnesse/http/Request.java:125-132 | a part with a file name goes to the uploads, any other to the inputs |
| ChunkedTransfer.SendAndParse | src/fitnesse/http/ChunkedResponse.java:46-77 | any pieces and trailing headers written in chunks are read back as the concatenated body and those headers, and the bytes counted are those of the body |
| ChunkedTransfer.ChunksRoundTrip | src/fitnesse/http/ResponseParser.java:72-82 | the written chunks, empty pieces left out, are parsed back to their concatenation, up to behind the final zero |
| ChunkedTransfer.HexRoundTrip | src/fitnesse/http/ResponseParser.java:84-87 | a size below 2^31 written in hexadecimal is read back |
| ChunkedTransfer.ChunkedResponse.Add | src/fitnesse/http/ChunkedResponse.java:46-58 | a piece is sent as a chunk, or as it is without chunking, and counted |
| ChunkedTransfer.ResponseParser.ReadChunkSize | src/fitnesse/http/ResponseParser.java:84-87 | the size is the number in the next line, read as hexadecimal, or none |
| ChunkedTransfer.ResponseParser.ParseChunks | src/fitnesse/http/ResponseParser.java:72-82 | the loop reads the specified body, or fails on a size that is no number |
| ChunkedTransfer.ResponseParser.ParseChunkedBody | src/fitnesse/http/ResponseParser.java:30-31 | the trailer is read behind the chunks and joins the headers read before |
| FitParse.PrintRestoresText | src/fit/Parse.java:44-77 | whatever text was parsed, with whatever tags, printing the result gives that text |
| FitParse.ParseTextEnds | src/fit/Parse.java:44-77 | on a text with a closing bracket behind each tag and before the next, of a length that a string can have, parsing ends with a tree or with the exception for a missing tag, within as many rounds as there are characters |
| FitParse.ScanFindsMatchingEnd | src/fit/Parse.java:80-105 | on such a text the loop ends at the matching end tag, or with the exception when there is none |
| FitScan.FindMatchingEndTag | src/fit/Parse.java:80-105 | the loop with its 32-bit count, wherever it ends: its result is that of the passes over the text |
| FitScan.LoopEndsExactlyWhen | src/fit/Parse.java:80-105 | for any text, tag, start and 32-bit count the loop ends if and only if its first pass ends, or one more from the start of the text ends or comes back with another count; a count that grows overflows in the end; and the result does not depend on the number of rounds |
| FitScan.PassScan | src/fit/Parse.java:85-103 | a pass, from one place up to the end or back to the start, is that many rounds of the loop |
| FitScan.PassShift | src/fit/Parse.java:85-103 | a pass meets the same tags with any count, and changes it by the same amount unless the end is found, or the count overflows, among them |
| FitScan.NeverEnds | src/fit/Parse.java:85-103 | a pass from the start that leaves the count as it was comes back for ever |
| FitScan.PassesEnd | src/fit/Parse.java:85-103 | one that changes it changes it again by as much, until the end is found or the count overflows |
| FitScan.FoundIsTag | src/fit/Parse.java:98-103 | what the loop finds is a closing tag, or an opening one at which the count overflowed, for which the rounds must exceed what the count had left |
| FitParse.ClosedScanEnds | src/fit/Parse.java:80-105 | on a text with closed tags the loop ends, at the matching end tag or with the exception |
| FitParseEnds.ParserEndsExactlyWhen | src/fit/Parse.java:44-77 | for any text, tags and level parsing comes to a result if and only if the loop ends for the element, for its body, and for what follows it, which must be shorter than the text, when another element starts there and the body was parsed; and the result does not depend on the number of rounds |
| FitParseEnds.ParseTextApproaches | src/fit/Parse.java:44-77 | with any number of rounds and levels parsing is unfinished or has its one result |
| FitParseEnds.ClosedTextsEnd | src/fit/Parse.java:44-77 | a text with closed tags, of a length that a string can have, is one on which parsing ends |
| FitParseTexts.UnclosedTextParses | src/fit/Parse.java:44-77 | a text on which it ends although a tag starts before the closing bracket of another |
| FitParse.MatchingEndIsUnique | src/fit/Parse.java:80-105 | there is at most one matching end tag: the first closing tag that no opening tag since accounts for |
| FitParse.FindElementEnds | src/fit/Parse.java:45-57 | an element is cut out at its matching end tag, and its body and trailer have their tags closed again |
| FitParseTexts.DocumentOverflows | src/fit/Parse.java:80-105 | a closing bracket behind every tag is not enough: on a document with that the parser goes round until the count overflows, after 2^31 - 1 rounds, and then fails |
| FitParseTexts.CircleNeverEnds | src/fit/Parse.java:80-105 | a text on which every pass leaves the count as it was, so that the parser never ends |
| FitParseTexts.RecursionNeverEnds | src/fit/Parse.java:73-76 | a text on which the loop ends by its overflow and leaves the text itself to be parsed next, so that the recursion never ends |
| FitParseTexts.CutOffTagOverflows | src/fit/Parse.java:95-98 | an opening tag whose bracket was cut off sends the loop back to it until the count overflows, and is then taken for the end tag |
| Escaping.UnescapeUndoesEscape | src/fit/Parse.java:146-159 | Parse.unescape undoes Fixture.escape on every text |
| Escaping.CellTextRoundTrip | src/fit/Parse.java:131-133 | a text written into a cell is read out of it again, but for blanks at its ends |
| Escaping.UnescapeHtmlUndoesExactlyWhen | src/fitnesse/html/HtmlUtil.java:54-60 | unescaping an escaped text gives the text with its own literal escapes of the two brackets replaced, so it gives the text back if and only if there are none |
| Escaping.EscapeOne | src/fit/Fixture.java:245-257 | the loop replaces every occurrence of the character and ends, also when the replacement starts with it |
| Escaping.EscapeFixture | src/fit/Fixture.java:241-243 | ampersands first, then openers |
| Escaping.UnescapeParse | src/fit/Parse.java:146-159 | the loop over the buffer replaces each known entity once, and never reads what it put in again |
| Escaping.Unformat | src/fit/Parse.java:135-144 | the loop drops each tag up to its closing bracket and stops at one that has none |
| Escaping.CellText | src/fit/Parse.java:131-133 | the text of a cell is its body without tags, with entities read back, trimmed |
| Escaping.EscapeHtmlOf | src/fitnesse/html/HtmlUtil.java:54-56 | ampersands are escaped before the brackets, so that no escape is escaped again |
| Escaping.UnescapeHtmlOf | src/fitnesse/html/HtmlUtil.java:58-60 | ampersands come back first |
| Escaping.ReplaceStrings | src/fitnesse/html/HtmlUtil.java:70-76 | the replacements are made one after the other, each on the result of the one before |
| Bowling.ScoreableIsFinal | src/eg/bowling/BowlingScorer.java:13-29 | the score of any frame up to the scoreable one is not changed by later rolls, and is at most 30 a frame when each roll is 0 to 10 |
| Bowling.TenFramesFit | src/eg/bowling/BowlingScorer.java:13-29 | scoring up to ten frames never reads outside the 21 slots, whatever they hold |
| Bowling.RollKeepsConsistent | src/eg/bowling/BowlingGame.java:22-124 | every roll keeps state, frame, ball and scoreable frame consistent with the rolls read as frames |
| Bowling.ReadFollowsStarts | src/eg/bowling/BowlingScorer.java:13-29 | the frames of the state machine are those the scorer walks through |
| Bowling.KnownIsExact | src/eg/bowling/BowlingScorer.java:13-29 | the frames known from the state of the game are exactly those whose score reads no roll still to come |
| Bowling.ScoreableLags | src/eg/bowling/BowlingGame.java:60-96 | while the game goes on, one more frame could be scored if and only if a strike was followed by a spare since the last open frame |
| Bowling.GameEnds | src/eg/bowling/BowlingGame.java:98-116 | the game never ends before the tenth frame is complete, and the roll that completes it ends the game if and only if it is not one of the overlooked endings: a strike, a strike and no strike, or a strike and two balls that make a spare |
| Bowling.OverlookTheEnd | src/eg/bowling/BowlingGame.java:98-116 | after nine frames without a pin, strike, strike and 3 fill all slots, and the game goes on |
| Bowling.BowlingScorer.Roll | src/eg/bowling/BowlingScorer.java:9-11 | the roll is stored while a slot is left; the roll after the last slot is an error |
| Bowling.BowlingScorer.Score | src/eg/bowling/BowlingScorer.java:13-29 | the loop computes the score of the frames asked for, or the exception for a roll outside the array, never for up to ten frames |
| Bowling.BowlingScorer.LastWasStrike | src/eg/bowling/BowlingScorer.java:51-53 | whether the last roll made was ten |
| Bowling.BowlingScorer.LastWasSpare | src/eg/bowling/BowlingScorer.java:55-57 | whether the last two rolls made add up to ten |
| Bowling.BowlingGame.Roll | src/eg/bowling/BowlingGame.java:156-160 | any number of pins is taken, and the control and the rolls move on together |
| Bowling.BowlingGame.ChangeState | src/eg/bowling/BowlingGame.java:22-48 | each state moves on as its transition says |
| Bowling.BowlingGame.FirstBall | src/eg/bowling/BowlingGame.java:50-58 | a strike moves on to the next frame, any other ball to the second of this one |
| Bowling.BowlingGame.SecondBall | src/eg/bowling/BowlingGame.java:60-74 | a spare, an open frame and the end of the game, each as the control says |
| Bowling.BowlingGame.AfterSpare | src/eg/bowling/BowlingGame.java:76-86 | the ball after a spare makes one more frame scoreable |
| Bowling.BowlingGame.AfterFirstStrike | src/eg/bowling/BowlingGame.java:88-96 | the ball after one strike makes no frame scoreable |
| Bowling.BowlingGame.AfterSecondStrike | src/eg/bowling/BowlingGame.java:98-109 | the ball after two strikes makes one more frame scoreable, or ends the game on a third strike in the tenth frame |
| Bowling.BowlingGame.Score | src/eg/bowling/BowlingGame.java:162-165 | the score of a scoreable frame is that of the rolls made, whatever the other slots hold |
| Bowling.BowlingGame.AskWhetherOver | src/eg/bowling/BowlingGame.java:146-154 | the two ways to ask whether the game is over agree |
| Bowling.ScoreTwice | src/eg/bowling/BowlingGame.java:162-165 | any rolls, then any more: what the first let us score stands |

## Left out

- Source maps: `sourceRoot`, the JSON around the field, `sourcesContent`, `applySourceMap`, and the list sorted by original position.
- SourceMap.SourceMapConsumer.ParseMappings: of the mappings read before an exception it says only that those that were there remain in front.
- SourceNodes.FromStringWithSourceMap: takes mappings in order and in the code, as a consumer of a sorted map gives them; the source writes "undefined" for lines that do not exist.
- NodeMaps.ToStringWithSourceMap: no name and an empty name are one here; the source takes them for different ones when it looks for a change, and then adds a mapping between snippets that differ in nothing else.
- NodeMaps.MapSnippet: the same.
- NodeMaps.PrintAndParse: an original position has all of source, line and column or none; the source also meets nodes with some of them missing, which it treats as having none.
- ExtendMatch.FindMatch: an attribute test with an empty quoted operand, which the source takes for one without an operand.
- ExtendSplice.ExtendSelector: the ruleset visitor around it and extend chains.
- Chunker.SplitIntoChunks: the index and the wording of an error, among them the hint that a brace may be missing because of a comment.
- ParserInput.Parser.Combinator: whether the grammar saves a place before it has read on behind a combinator.
- ParserInput.Parser.SkipWhitespace: the regular expressions of the grammar are any match of a length within the current chunk; an input without any chunk has no parser.
- UnitArithmetic.ConvertTo: a target that is no unit of its group, for which the source computes a value that is no number.
- UnitArithmetic.Scaled: a division by zero is an error here; the source goes on with an infinite value.
- UnitArithmetic.Added: unit names that are names of properties every JavaScript object has.
- Units and colours are exact reals; floating point and its rounding are not modelled, and pi is the value of Math.PI.
- HslColour.HslRoundTrip: colours parsed from text, percentages, and the other colour functions.
- JasmineQueue.Queue.Run: blocks that throw, complete twice, or insert or add after they have completed; results and reporters.
- FakeTimers.FakeTimer.Tick: callbacks do nothing but, at most, clear their own timer; a tick after a negative delay, whose timer is never due, or after a period that is not positive, which lets the recursion go on until the engine stops it.
- RowMatching.RowFixture.Match: reading a key is a given partial function; the marks and annotations in the table, among them the exception shown for a matching that broke off, and keys that are arrays.
- RowMatching.RowFixture.CompareCells: what comparing a cell with a property finds and marks; it is taken not to throw itself.
- FitParse.ParseText: a body or trailer that was parsed is the empty string where the source has null, the number of rounds stands for the time given to the loops and the recursion, and text is ASCII; a recursion that goes on for ever is ended by the overflow of the stack; `addToTag`, `addToBody` and the access functions are not modelled.
- Escaping.EscapeOne: a replacement with the character behind its first place, on which the source's loop never ends, and an empty replacement.
- Escaping: `escapeWiki` and `unescapeWiki`, which replace in the same way, and lower case of letters outside ASCII.
- StreamReading.StreamReader.ReadUpTo: a boundary with a byte above 127, which is compared as a negative number and never matches; timeouts; copying into another stream, where a count is not reset between two copies.
- Multipart.SendAndReceive: uploaded files, names with a quote or a line break, and forms that are not multipart; sockets and temporary files.
- ChunkedTransfer.ChunkedResponse.Add: the counter is an unbounded integer, in the source it has 32 bits; text is sent as bytes, without an encoding.
- ChunkedTransfer.ResponseParser.ParseChunks: the status line and bodies with a Content-Length.
- Bowling.BowlingScorer.Score: sums of 32-bit integers that overflow, which rolls of 0 to 10 never do.
- The wiki, its responders, the plug-in and class loading, the other fixtures, and the user interface.
