# Grist: verified models of its parsing algorithms

Grist turns bibliographies, tables, markup and source code into typed documents.
This project models the algorithms at its core in Dafny and proves what they
promise. Operations that work step by step are methods and classes with the
state of the original; each is proved equal to a function, and the properties
are proved about that function, for all inputs.

- **Bibliography** (`Crossref`, `CrossrefLinks`, `CrossrefTheorems`,
  `CrossrefStatuses`, `StringExpansion`, `StringPass`, `StringMeaning`): the search
  for inherited fields along crossref and xdata links against a description by
  chains of links, and the bounded `@string` expander against unlimited substitution.
- **CSV** (`CsvScanner`, `CsvTheorems`, `CsvIssues`, `CsvRoundTrip`, `CsvEscapes`,
  `CsvStream`, `CsvStreamTheorems`, `CsvRows`): the scanner and what it reports,
  round trips for every dialect and for the format of section 2 of RFC 4180, and
  the event stream under a control that may stop it at any point.
- **LaTeX** (`LatexCommands`, `LatexSpelling`, `LatexMacros`, `LatexPieces`,
  `LatexArguments`, `LatexMeaning`, `LatexFailures`): the command reader against the
  spelling of commands, arguments put in one by one against all at once, and macro
  expansion against unlimited substitution.
- **HTML** (`HtmlLexer`, `HtmlVocabulary`, `HtmlOutline`, `HtmlTokens`, `HtmlRawText`,
  `HtmlTags`, `HtmlXhtml`, `HtmlReadings`, `HtmlSpans`, `DomForest`, `DomClaims`,
  `DomCalls`, `DomContents`, `DomTrees`, `DomSink`): the lossless lexer and its raw
  text, the two readings of a tag stream, and the sink of the tree builder: nodes on
  the heap with parent and child pointers, updated by calls in any order.
- **Basin retrieval** (`BasinTraces`, `BasinSignatures`, `BasinCounts`,
  `BasinRelaxation`, `BasinWalks`): canonical signatures of walks, pruning by
  prefix consistency, and the bounded depth-first walk generator.
- **Syntax walks** (`SyntaxWalk`, `SyntaxParsers`, `SyntaxStack`, `SyntaxLevels`):
  the recursive walk and the walk with a stack of its own, over finite rose trees.
- **AsciiDoc** (`AsciiDocTree`, `AsciiDocBlocks`, `AsciiDocLines`,
  `AsciiDocSpelling`, `AsciiDocParser`, `AsciiDocReading`, `AsciiDocHeadings`): the
  recognisers of lines against their spelling, the block parser against what each
  block is, its heading stack and node builder.
- **LDGR frontmatter** (`LdgrFrontmatter`, `LdgrMaps`, `LdgrProjection`,
  `LdgrVocabulary`): a parser from JSON maps and the printer that undoes it.

`Wrappers`, `Text`, `TextTheorems` and `Lists` hold optional values, results, and the
string and list functions of the standard library the code uses. `dafny verify
dfyconfig.toml` checks the whole project.

Eight statements one might expect are false of the code; each has an input that
shows it, and the exact condition under which the statement holds:

- Macro expansion does not agree with substitution whenever that is finite: a
  macro used in its own argument is refused (`LatexMeaning.NestedArgumentIsRefused`;
  exactly when, `LatexMeaning.UseExpandedIff`).
- Arguments of a macro are not put in all at once: one that holds a later parameter,
  or forms one with the text around it, is itself rewritten
  (`LatexArguments.ArgumentIsRewritten`; exactly when, `LatexArguments.AsAtOnceIff`).
- Silent XHTML validation does not mean that every element is paired with its
  end tag: a start tag with a space after its slash, or a void element without a
  slash, is empty for one reading only (`HtmlReadings.SpacedSlashDiffers`,
  `HtmlReadings.VoidElementDiffers`; exactly when, `HtmlXhtml.LexedPairsIffEmptyAlike`).
- The spans of paired tags do not always nest: an end tag takes its start tag from
  below others, as in `<a><b></a></b>` (`HtmlSpans.SpansCanCross`; exactly when,
  `HtmlSpans.SpansNestIff`).
- Encoded edge labels do not always determine type and direction: a bar in one of
  them, a missing type, or a direction that is missing or empty makes others encode
  alike (`BasinSignatures.EncodingCanCollide`, `BasinSignatures.AbsenceCollides`;
  exactly when, `BasinSignatures.DeterminesIffNoBar`).
- The sink does not by itself keep the tree free of cycles: each of its three ways
  to relink can put a node below itself (`DomTrees.AppendCloses`,
  `DomTrees.InsertCloses`, `DomTrees.ReparentCloses`; exactly when,
  `DomTrees.CallAcyclicIff` and, over runs, `DomTrees.RunAcyclicIff`).
- Not every dialect can quote every value so that it comes back: decoding undoes an
  escaped quote, but not an escaped escape (`CsvEscapes.LoneEscapeIsLost`; exactly
  when, over all dialects, `CsvEscapes.ComesBackIff`).
- A frontmatter map that parses without a diagnostic is not always printed back as
  it was: a status that is a number is dropped without a word
  (`LdgrVocabulary.MinimalStatusIsDropped`; exactly when, `LdgrMaps.PrintsBackIffCanonical`).

## Model

| member | source | states |
|---|---|---|
| `Crossref.BuildKeyIndex` | src/bibliography.rs:1591-1598 | The key index lists, for every key, the positions of the entries that have it, in order. |
| `Crossref.DirectFields` | src/bibliography.rs:1734-1749 | An entry's own fields by name; a later field of the same name replaces an earlier one. |
| `CrossrefLinks.XdataNamesIff` | src/bibliography.rs:1661-1668 | An `xdata` value names given keys exactly if it spells them: those keys in order, each without white space at its ends and without a comma, with white space around them and commas between them, empty pieces aside. |
| `CrossrefLinks.CrossrefNamesIff` | src/bibliography.rs:1661-1668 | A `crossref` value names the one key that it is with white space around it. |
| `CrossrefLinks.FieldLinksName` | src/bibliography.rs:1640-1671 | A field with an expanded value has one link for each of its keys, in order; without one it has a single link without a key. |
| `CrossrefLinks.LinksInOrder` | src/bibliography.rs:1640-1671 | The links of an entry are those of its `crossref` and `xdata` fields and of no others, in the order of the fields. |
| `CrossrefLinks.XdataLinks` | src/bibliography.rs:1640-1671 | Among the links of an entry, those of an `xdata` field are one for each key that its value spells. |
| `CrossrefLinks.CandidatesCarryKey` | src/bibliography.rs:1591-1598 | The candidates for a key are exactly the entries that carry it, once each and in order. |
| `Crossref.CrossrefPass.EffectiveFieldsFor` | src/bibliography.rs:1619-1732 | The search with its `visiting` set ends for every input, returns the specified fields and failure, appends exactly the specified records and diagnostics when it records, and leaves `visiting` as it was. What the links of an entry are is stated from their spelling by the `CrossrefLinks` members below. |
| `Crossref.CrossrefPass.ResolveAllCrossrefs` | src/bibliography.rs:1586-1616 | Every entry gets its effective fields against the unchanged snapshot; the records are those of every entry's links, in order, and each unresolved one has a diagnostic. |
| `Crossref.RemainingShrinks` | src/bibliography.rs:1632-1637 | The measure under which the search ends without any depth limit: entries not being visited. |
| `Crossref.FoldSummary` | src/bibliography.rs:1670-1731 | There is one record per link, each with the status and candidates of its own target; the search is failure-free exactly when every one is Resolved. |
| `CrossrefTheorems.ResolvedIffChainsOk` | src/bibliography.rs:1618-1732 | A reference is recorded Resolved exactly when its value expanded, its key names one entry, and every chain of links from there ends at entries whose links all expanded and name one entry, never revisits an entry (counting the referring one) and has at most `max_crossref_depth` hops. |
| `CrossrefTheorems.TargetIffChainsOk` | src/bibliography.rs:1670-1715 | The same for a target: searching it below the referring entry is failure-free exactly when every chain is admissible. |
| `CrossrefTheorems.FailureFreeChains` | src/bibliography.rs:1619-1732 | A failure-free search makes every chain from its entry admissible, at any depth and with any visiting set. |
| `CrossrefTheorems.ChainsOkSuffice` | src/bibliography.rs:1619-1732 | Conversely, if every chain is admissible the search is failure-free. |
| `CrossrefTheorems.FailureFreeFieldsAgree` | src/bibliography.rs:1619-1732 | A failure-free result does not depend on the depth or on the visiting set. |
| `CrossrefTheorems.ResolvedInheritsPublished` | src/bibliography.rs:1696-1709 | Whenever a reference is Resolved, the child holds every name its target publishes in its own effective fields (links aside), and each field inherited through it equals the target's published one, marked inherited. |
| `CrossrefTheorems.EffectiveNamesPartition` | src/bibliography.rs:1639-1731 | An entry's effective names are its own names plus, disjointly, the names recorded as inherited for each of its references; own fields always win. |
| `CrossrefTheorems.EffectiveFieldsAreSourced` | src/bibliography.rs:1639-1749 | Every effective field is its source entry's last own field of that name, and is marked inherited exactly when the source is another entry. |
| `CrossrefTheorems.AllRecordsAreLinkRecords` | src/bibliography.rs:1600-1615 | Every record of a pass is the record of one link of one entry, so the statements above cover all of them. |
| `CrossrefStatuses.StatusIffFirstFault` | src/bibliography.rs:1640-1715 | A record has a status other than Resolved exactly when the first fault below its link has it: following the link, and in each target the first link whose own chains are not all admissible, one comes to a link that did not expand, names no entry or several, leads back to an entry under way, or is a hop too many. |
| `CrossrefStatuses.ResolvedIffLinkOk` | src/bibliography.rs:1670-1715 | At any depth and with any visiting set a link resolves exactly when it expanded, names one entry, and every chain from there is admissible. |
| `CrossrefStatuses.StatusHasChain` | src/bibliography.rs:1618-1732 | Every failure is shown by a chain from the entry: Cycle by one that runs into itself, DepthExceeded by one of `max_crossref_depth` + 1 hops, the others by one within the limit to an entry with such a link. |
| `StringExpansion.StringEvaluator.ExpandValue` | src/bibliography.rs:1303-1327 | Expanding a value equals the specified expansion, and moves both counters as specified; a malformed value is left alone. |
| `StringExpansion.StringEvaluator.ExpandParts` | src/bibliography.rs:1329-1392 | Expanding a list of parts under a depth and a stack equals the specified expansion and hands the stack back. |
| `StringExpansion.StringEvaluator.ExpandIdentifier` | src/bibliography.rs:1394-1450 | An identifier: month names first, then the unique definition, with the checks for missing, ambiguous, circular, too deep and too many in the code's order. |
| `StringExpansion.NamesLeftShrinks` | src/bibliography.rs:1422-1435 | Why recursion ends: a name on the stack is never entered again. |
| `StringExpansion.PositionsAreAll` | src/bibliography.rs:1285-1300 | The definitions of a name are exactly those spelled like it, ignoring case, once each and in order. |
| `StringPass.ExpandAllValues` | src/bibliography.rs:1479-1522 | Definitions, preambles and entry values are expanded in order against the definitions as they were, sharing both counters; each ambiguous name is reported first, in the order of names and at its second definition, then each value that is neither resolved nor malformed, in order. |
| `StringExpansion.ReportDuplicates` | src/bibliography.rs:1486-1506 | One report for every name with several definitions, in the order of names, and none else. |
| `StringExpansion.FailuresAreReported` | src/bibliography.rs:1507-1543 | Of a list of expanded values, exactly those that are neither resolved nor malformed are reported, in order, each with its place and status. |
| `StringMeaning.ValueResolvedIffFits` | src/bibliography.rs:1303-1450 | A parsed value is resolved exactly when unlimited substitution gives it a text and depth, count and length fit the limits; then that text is its value, each substitution is counted once, and it is Expanded exactly if a part is an identifier. |
| `StringMeaning.MeaningStable` | src/bibliography.rs:1329-1450 | Unlimited substitution does not depend on how much room it is given once there is enough. |
| `StringMeaning.MeaningIffWellFounded` | src/bibliography.rs:1394-1435 | Unlimited substitution ends exactly for values that reach no missing, ambiguous or malformed definition and no circle. |
| `StringMeaning.ReportedFailureIsReal` | src/bibliography.rs:1394-1450 | Every reported failure is backed by a walk of identifiers that shows it: Cycle by a name that reaches itself, DepthExceeded by a walk one longer than the limit, ExpansionLimit by a unique new definition still to be entered when the counter stands at its limit, OutputLimit by parts whose first ones alone substitute to a text that is too long, or by the whole text together with what was resolved before; and so on. |
| `StringMeaning.CircularNeverResolves` | src/bibliography.rs:1422-1427 | A value that can run into a circle is never resolved. |
| `StringMeaning.PassUsage` | src/bibliography.rs:1308-1327 | Over a whole pass the character counter grows by exactly the length of what was resolved, and neither counter passes its limit; for the characters, a limit below the largest u64. |
| `CsvScanner.Scanner.Next` | src/csv.rs:865-1005 | One scanned record: cells, issues, terminator and the offset after it, equal to the specified scan of the text from the offset; cells tile the record (`CsvTheorems.ScanAllTiles`) and the issues are those of `CsvIssues.ScannedIssues`. |
| `CsvScanner.Scanner.Rest` | src/csv.rs:865-1005 | All remaining records, in order, to the end of the text. |
| `CsvScanner.NewlineFidelity.ObserveAll` | src/csv.rs:199-214 | The counters equal the numbers of records with each terminator; the last terminator decides the final flag; mixed means more than one kind occurred. |
| `CsvScanner.CountPositive` | src/csv.rs:199-214 | A counter is positive exactly if some record has that terminator. |
| `CsvIssues.ScannedIssues` | src/csv.rs:865-1005 | For every text and dialect, a record has exactly these issues, in the order of the text: an unexpected quote at each quote character that is outside quotes and does not start its cell, trailing text at the first character after a closing quote that is neither white space nor the quote (once a cell), and an unterminated quote over the last cell exactly if that cell is quoted and still open. |
| `CsvIssues.AllIssues` | src/csv.rs:865-1005 | So do all records of a text. |
| `CsvTheorems.ScanAllTiles` | src/csv.rs:865-1028 | For every text and dialect, records and terminators tile the text with strict progress, the cells of a record tile it with exactly one delimiter between neighbours, and every value range lies inside its cell. |
| `CsvTheorems.ClosedCellsAreInside` | src/csv.rs:912-935 | In every text and under every dialect, a closed quoted cell holds text in which each escape takes the next character with it and each other quote is doubled, where the dialect allows that. |
| `CsvRoundTrip.ScanWritten` | src/csv.rs:865-1028 | For every dialect, a table with at least one field per record, bare fields free of delimiter, quote and newline and quoted ones of such text, scans back to exactly its spellings, closed and without issues. |
| `CsvRoundTrip.RoundTrip` | src/csv.rs:708-725 | A table with at least one field per record, written as section 2 of RFC 4180 says with any admissible choice of quoting, scans and decodes back to exactly its fields, without issues. |
| `CsvRoundTrip.UndoubleDoubled` | src/csv.rs:708-725 | Decoding undoes doubling of any quote character. |
| `CsvEscapes.ComesBackIff` | src/csv.rs:708-725 | For every dialect and value: some text has a closed quoted cell that decodes to the value exactly when a quote can open a cell and, without an escape that the scanner sees, quotes may be doubled or the value has none; with another escape, the value ends with an even number of escapes and, unless quotes may be doubled too, every quote in it follows an even number. A quote that is its own escape lets every value come back. |
| `CsvEscapes.ClosesOnlyAtEnd` | src/csv.rs:911-928 | With a quote that is its own escape a cell closes nowhere but at the end of the text. |
| `CsvEscapes.SelfEscapedSwallows` | src/csv.rs:911-928 | An input that shows it: `"a",b` scans to one unterminated cell. |
| `CsvEscapes.LoneEscapeIsLost` | src/csv.rs:708-725 | An input that shows that not all do: a value that is one escape character. |
| `CsvEscapes.PlainQuotesIff` | src/csv.rs:708-725 | Without doubling, and without an escape that the scanner sees, exactly the values without a quote come back. |
| `CsvStream.Stream.Next` | src/csv.rs:401-518 | One call of the stream equals one step of the specified machine, for every answer of the control. |
| `CsvStreamTheorems.RunShape` | src/csv.rs:401-518 | Every run gives items 0 to n-1 carrying the first n records, then one terminal event that counts them; a run not stopped by control or budget is Complete exactly if no record has a scanner issue and all have the first record's width; a stopped one is Cancelled, or by the budget Failed if there was no item and Partial otherwise, with that one diagnostic. |
| `CsvRows.RunRows` | src/csv.rs:436-592 | Every item carries the row of its record: role, numbers, each decoded cell under the header in its column, the issues of the scanner and one more exactly if the width differs from the first record; malformed exactly if it has any. |
| `CsvStreamTheorems.FinishedStaysFinished` | src/csv.rs:401-411 | After the terminal event the stream gives nothing more. |
| `CsvStreamTheorems.RunFollowsProtocol` | src/csv.rs:401-518 | Every run follows the stream protocol, whatever the control answers. |
| `CsvStreamTheorems.ReadStream` | src/csv.rs:401-518 | Calling the stream until it ends gives exactly the specified run. |
| `CsvStream.CollectBatch` | src/core/streaming.rs:141-186 | A batch is collected exactly from event lists that follow the protocol; the first violation is reported. |
| `CsvStreamTheorems.CollectStream` | src/core/streaming.rs:141-186 | Collecting a stream's run never fails, and the batch has all its items and the terminal status. |
| `LatexCommands.FindBalancedEnd` | src/latex.rs:865-888 | The loop over depth and escapes equals the specified scan. |
| `LatexCommands.BalancedEndCloses` | src/latex.rs:865-888 | A group ends exactly where its unescaped brackets first balance, and has no end if they never do. |
| `LatexCommands.ReadCommand` | src/latex.rs:786-863 | The command at a backslash: name, bracket and brace arguments and end, with the cases of definitions and single-character names: exactly what is spelled there by `LatexSpelling.CommandReadIff` and `LatexSpelling.DefinitionReadIff`. |
| `LatexSpelling.CommandReadIff` | src/latex.rs:786-863 | A command other than `\def` is read at an offset exactly if it is spelled there: a backslash, its name (all the letters there, or one other character), and white space, bracket groups and brace groups as far as they go; its arguments are what the brace groups hold, in order, and its end is where they end. |
| `LatexSpelling.ArgumentsInOrder` | src/latex.rs:786-863 | In particular letters and balanced arguments in braces are read as that name and those arguments, in order. |
| `LatexSpelling.DefinitionReadIff` | src/latex.rs:803-836 | A `\def` is read exactly if one is spelled: white space, a backslash and letters, anything up to a brace, and a balanced body; its arguments are the macro with its backslash, and the body. |
| `LatexMacros.ParseState.ExpandText` | src/latex.rs:1423-1475 | Expansion of a text equals the specified expansion over its pieces: unknown commands copied with their arguments, calls replaced, all limits checked in the code's order; stack handed back. |
| `LatexMacros.ParseState.ApplyMacroExpansion` | src/latex.rs:1376-1421 | A use of a defined macro gets the status and text of expanding its body with its arguments put in; an undefined name gets nothing. |
| `LatexPieces.PiecesCover` | src/latex.rs:1423-1475 | What expansion goes over is the whole text in order: text without a backslash and commands of no macro, copied as they stand, and calls, each of them the command that is read there. |
| `LatexMacros.SubstituteArguments` | src/latex.rs:1385-1388 | Arguments are put in one after the other, each for every occurrence of its marker. |
| `LatexArguments.AsAtOnceIff` | src/latex.rs:1385-1388 | After each argument the body is as if those so far had been put in at once, exactly if each argument meets its parameter in the body's own places only: not inside an argument put in before, nor where one meets the text around it (or it is its own parameter, spelled out). |
| `LatexArguments.TidyIsAtOnce` | src/latex.rs:1385-1388 | In particular if no argument has a `#` and every `#` of the body belongs to a parameter with an argument. |
| `LatexArguments.ArgumentIsRewritten` | src/latex.rs:1385-1388 | An input that shows it is not always so: the body `#1` with arguments `#2` and another text gives that text. |
| `LatexMacros.NamesLeftShrinks` | src/latex.rs:1447-1463 | Why recursion ends: a name on the stack is never entered again. |
| `LatexMeaning.OkIffAdmitted` | src/latex.rs:1423-1475 | Expansion is Ok exactly when unlimited substitution ends, no macro is called inside itself or below one on the stack, and depth, count and length fit; then the result is that substitution, each call counted once, and never longer than `max_expanded_characters`. |
| `LatexMeaning.UseExpandedIff` | src/latex.rs:1376-1421 | A use of a macro is Expanded exactly when the plain substitution of the call ends within the depth limit, calls no macro inside itself, and fits the counter and the length; its text is then that substitution. |
| `LatexMeaning.LimitsOnlyCutOff` | src/latex.rs:1423-1475 | An Ok result is unchanged by raising any limit, shrinking the stack, or starting less deep or with fewer expansions. |
| `LatexMeaning.PlainStable` | src/latex.rs:1423-1475 | Unlimited substitution does not depend on how much room it is given once there is enough. |
| `LatexMeaning.ReentrantIsRefused` | src/latex.rs:1447-1449 | A text whose substitution ends but calls some macro inside itself is refused under all limits. |
| `LatexFailures.RefusalIsReal` | src/latex.rs:1423-1475 | Every refusal of a text is backed by a walk of calls, each made in the body of the one before: Cycle by one that ends at a macro being expanded, ArityMismatch by one that ends at a call with the wrong number of arguments, DepthExceeded by one a call too long, ExpansionLimit by one whose last call was still to be entered when the counter had passed its limit, OutputLimit by one to a text whose first pieces alone substitute to more than is allowed. |
| `LatexFailures.RefusedUseIsReal` | src/latex.rs:1376-1421 | The same for a use of a macro: its own argument count is wrong, or such a walk starts in its body. |
| `LatexMeaning.NestedArgumentIsRefused` | src/latex.rs:1376-1449 | An input that shows it: with `\f` defined as its own argument, `\f{\f{x}}` is a use of `\f` whose plain substitution is `x`; it is refused, as Cycle whenever the depth limit is at least one, under any other limits. |
| `LatexMeaning.UncalledTextIsCopied` | src/latex.rs:1442-1446 | A text that calls no defined macro comes out as it stands, commands and arguments included, at no cost, unless it starts too deep or is itself too long. |
| `HtmlLexer.ScanMarkupEnd` | src/html.rs:767-781 | The loop over quotes finds the specified end of markup. |
| `HtmlLexer.Lexer.LexSource` | src/html.rs:477-737 | The lexer's loop ends for every text and gives the specified tokens and diagnostics. |
| `HtmlVocabulary.LexHtml` | src/html.rs:923-966 | The same with the void and raw-text elements of HTML. |
| `HtmlOutline.OutlineTokens` | src/html.rs:481-737 | The open elements, the number of root elements and the doctype flag, token by token. |
| `HtmlOutline.OutlineTells` | src/html.rs:481-737 | There is a doctype exactly if some token is one, a root element exactly if some token is a start tag, and no element is open without one. |
| `HtmlTokens.LexIsLossless` | src/html.rs:477-781 | For every text the tokens are non-empty, contiguous and in order, their raw slices concatenate to the text, and each looks as its kind says. |
| `HtmlRawText.RawTextIsTaken` | src/html.rs:477-738 | At every place of the token list: after a start tag that is not self-closing and whose lower-cased name is a raw-text element, the text up to the first closing tag of that name, ignoring case, is one plain-text token (none if empty) and markup starts there; without one, and for `plaintext`, it is all the rest. Any other plain text has no `<`, or is markup without a name. |
| `HtmlRawText.LeftOpenIsReported` | src/html.rs:477-738 | A comment, markup or raw text other than that of `plaintext` is reported exactly if it is last and left open, up to the end of the text, and nothing else is. |
| `HtmlRawText.MarkupEndIs` | src/html.rs:477-738 | Markup ends with its first `>` outside quotes. |
| `HtmlRawText.MarkupNameReads` | src/html.rs:477-738 | A name is all that comes before white space, a slash, a `>` or a question mark. |
| `HtmlRawText.InstructionNameReads` | src/html.rs:477-738 | The name of an instruction comes after its question marks and white space. |
| `HtmlTags.SourceElementCloseEnds` | src/html.rs:1548-1572 | The loop over the stack gives exactly the specified pairs, with the end offset of each end tag. |
| `HtmlTags.EndTagsCloseOnce` | src/html.rs:1548-1572 | On any stream an end tag closes at most one start tag: an earlier one of its name ignoring case, the latest not closed before; one that closes nothing had none left; no start tag is lost. |
| `HtmlXhtml.ValidateXhtml` | src/html.rs:1974-2087 | The element faults of a stream, in the order they are reported: mismatches and unmatched ends as met, then what is still open from the outside in. |
| `HtmlXhtml.SilentIffBalanced` | src/html.rs:2000-2087 | Validation reports no element fault exactly when every start tag not explicitly empty has its balanced end tag of the same name and every end tag its start tag. |
| `HtmlXhtml.PairedIffEmptyAlike` | src/html.rs:1548-1572 | On a stream on which validation is silent, the pairing gives every open start tag its balanced end tag exactly when `self_closing` agrees with a literal `/>` on every start tag. |
| `HtmlXhtml.LexedPairsIffEmptyAlike` | src/html.rs:477-781 | The same for the tokens of every text. |
| `HtmlXhtml.PairedSpansNest` | src/html.rs:1548-1572 | There the paired spans nest properly. |
| `HtmlSpans.SpansNestIff` | src/html.rs:1548-1572 | On any stream the paired spans nest exactly if no end tag, taking its start tag from the stack, skips one that is closed later. |
| `HtmlSpans.SpansCanCross` | src/html.rs:1558-1566 | An input that shows they need not: `<a><b></a></b>`, as the lexer reads it. |
| `HtmlXhtml.BalancesIsUnique` | src/html.rs:1548-1572 | A start tag has at most one balanced end tag. |
| `HtmlXhtml.LexedEmptyIsSelfClosing` | src/html.rs:702-704 | A start tag of the lexer that ends with a literal `/>` is always self-closing. |
| `HtmlReadings.SpacedSlashDiffers` | src/html.rs:2029-2032 | An input on which the two readings differ: the lexer makes a self-closing start tag and an end tag of `<a / ></a>`, validation is silent, and the element has no paired end tag. |
| `HtmlReadings.VoidElementDiffers` | src/html.rs:702-704 | Another: `<br></br>`, whose start tag is self-closing by its name. |
| `DomForest.DetachedEffect` | src/html.rs:1099-1108 | A detached node has no parent and is in no list; every other list and parent is as before. |
| `DomForest.AppendedEffect` | src/html.rs:1110-1114 | An appended node names its new parent and is its last child, gone from wherever it was listed; all else as before; links stay exact. |
| `DomForest.InsertedEffect` | src/html.rs:1116-1128 | An inserted node stands just before its sibling, or last if the sibling is the node itself; all else as before; links stay exact. |
| `DomForest.ReparentedEffect` | src/html.rs:1341-1347 | All children move, in order, to the end of the new parent's list, and name it; all else as before. |
| `DomForest.ReparentedLinked` | src/html.rs:1341-1347 | Moving children keeps the links exact, also when old and new parent are one node. |
| `DomTrees.PlacingAcyclicIff` | src/html.rs:1110-1128 | Appending or inserting keeps the tree free of cycles exactly when the node is not put below itself. |
| `DomTrees.ReparentingAcyclicIff` | src/html.rs:1341-1347 | Moving all children keeps the tree free of cycles exactly when the new parent is the old one or is not below it. |
| `DomTrees.AppendCloses` | src/html.rs:1110-1114 | Calls on a new sink come to a tree in which appending closes a cycle: a node is appended to its own child. |
| `DomTrees.InsertCloses` | src/html.rs:1116-1128 | The same for inserting: a node is put before its grandchild. |
| `DomTrees.ReparentCloses` | src/html.rs:1341-1347 | The same for moving children: moved below its grandchild, child and grandchild become each other's parent. |
| `DomClaims.SourceClaims.ClaimFirst` | src/html.rs:1052-1063 | A claim takes the first unused wanted token and marks it, and nothing else. |
| `DomClaims.SourceClaims.ClaimStartTag` | src/html.rs:1033-1046 | Elements made while claims are suppressed take nothing and use up one suppression. |
| `DomClaims.GivenClaimedOnce` | src/html.rs:1052-1063 | Giving a claimed token to a node keeps every token claimed at most once, by a node it suits. |
| `DomClaims.ElementsClaimInTurn` | src/html.rs:1033-1064 | Of elements made one after the other, as many as are suppressed claim nothing, and each later one is given the first start tag of its name, ignoring case, that no earlier one has, or nothing if none is left. |
| `DomCalls.CallsKeepSound` | src/html.rs:1099-1347 | Every call of the sink keeps the links exact (a node is listed at most once, by at most one parent, exactly when its parent pointer names it) and every token claimed by at most one node. |
| `DomCalls.RunsStaySound` | src/html.rs:1170-1347 | So does every run of calls, whatever the tree builder asks for. |
| `DomCalls.StartsSound` | src/html.rs:1080-1087 | A new sink starts so. |
| `DomContents.AbsentAttributesAdded` | src/html.rs:1311-1335 | Attributes added to an element come after those it has, which stay, and are exactly the given ones whose names it did not have, in order; nothing else changes. |
| `DomContents.AppendedTextGoesLast` | src/html.rs:1130-1142 | A text goes to the end of a last child that is text, and becomes a new last child otherwise. |
| `DomContents.AppendedTextsMerge` | src/html.rs:1130-1142 | Two texts appended one after the other stand in the last child in that order, after the text it had. |
| `DomContents.InsertedTextGoesBefore` | src/html.rs:1144-1167 | A text put before a sibling goes to the end of a text just before it, and becomes a new child there otherwise. |
| `DomContents.InsertedTextsMerge` | src/html.rs:1144-1167 | Two texts put there one after the other stand in one node in that order, after the text it had. |
| `DomTrees.CallAcyclicIff` | src/html.rs:1170-1347 | Any call leaves a tree free of cycles exactly when it puts nothing below itself, which can be asked before the call; creating, text, doctype, attributes, removing and releasing never do. |
| `DomTrees.RunAcyclicIff` | src/html.rs:1170-1347 | Over every run from a tree: it is free of cycles before and after every call exactly when every call puts nothing below itself where it stands; then it ends so. |
| `DomTrees.StartsAcyclic` | src/html.rs:1080-1087 | A new sink starts as a tree. |
| `DomSink.Sink.constructor` | src/html.rs:1080-1087 | A new sink is the starting tree: its document alone, no token used, and the given suppression count. |
| `DomSink.Sink.Detach` | src/html.rs:1099-1108 | The method on the heap is the specified step. |
| `DomSink.Sink.AppendNode` | src/html.rs:1110-1114 | The method on the heap is the specified step. |
| `DomSink.Sink.InsertBefore` | src/html.rs:1116-1128 | The method on the heap is the specified step; a sibling without parent makes it do nothing. |
| `DomSink.Sink.ReparentChildren` | src/html.rs:1341-1347 | The loop on the heap is the specified step. |
| `DomSink.Sink.CreateElement` | src/html.rs:1201-1219 | A new element with its claimed token, and its template contents if it is a template; the sink stays valid. |
| `DomSink.Sink.CreateComment` | src/html.rs:1221-1233 | A new comment takes the first unused comment, instruction or declaration. |
| `DomSink.Sink.CreateInstruction` | src/html.rs:1235-1247 | A new processing instruction takes the first unused one. |
| `DomSink.Sink.AppendDoctypeToDocument` | src/html.rs:1269-1284 | A doctype becomes the last child of the document with the first unused doctype token. |
| `DomSink.Sink.AppendText` | src/html.rs:1130-1142 | Text is merged into a last child that is text, else becomes a new last child; each time the next text token is claimed. |
| `DomSink.Sink.AppendTextBefore` | src/html.rs:1144-1167 | The same before a sibling. |
| `DomSink.Sink.Append` | src/html.rs:1249-1254 | The call is the specified one, for nodes and for text. |
| `DomSink.Sink.AppendBeforeSibling` | src/html.rs:1304-1309 | The call is the specified one, for nodes and for text. |
| `DomSink.Sink.AppendBasedOnParentNode` | src/html.rs:1256-1267 | The call is the one before the element if it has a parent, else the one into the previous element, with the node or text given. |
| `DomSink.Sink.AddAttributesIfMissing` | src/html.rs:1311-1335 | Only absent attribute names are added, and only an element without a token claims one. |
| `DomSink.Sink.RemoveFromParent` | src/html.rs:1337-1339 | The call is the specified one. |
| `DomSink.Sink.Reparent` | src/html.rs:1341-1347 | The call is the specified one. |
| `DomSink.Sink.Release` | src/html.rs:969-980 | When the last owner of a node goes away, the weak parent pointers of its children no longer lead anywhere; links stay exact. |
| `BasinTraces.SameTraceIffRenamable` | src/basin.rs:117-124 | Two equally long walks get the same `node_trace` exactly when a one-to-one renaming of nodes carries one onto the other. |
| `BasinTraces.TraceTellsNodes` | src/basin.rs:117-124 | Equal numbers in a trace are equal nodes. |
| `BasinTraces.TracePrefix` | src/basin.rs:317-319 | The prefix of a trace is the trace of the prefix. |
| `BasinSignatures.TypedCanonicalSignature` | src/basin.rs:117-164 | The loops over walk, labels and edges give the specified signature; the node count is the number of distinct nodes. |
| `BasinSignatures.RemoveLabels` | src/basin.rs:85-105 | Going through the count entries gives the specified label-free signature. |
| `BasinSignatures.ErasingCommutes` | src/basin.rs:166-168 | Taking labels off a signature is the signature of the walk without labels. |
| `BasinSignatures.CountsAddUp` | src/basin.rs:144-152 | With and without labels, edge counts add up to the steps of the walk. |
| `BasinSignatures.EncodingTells` | src/basin.rs:177-182 | Encoded labels of types without a bar are equal exactly when types and directions are, an absent direction being empty. |
| `BasinSignatures.DeterminesIffNoBar` | src/basin.rs:177-182 | For any optional type and direction: the encoded label determines them exactly if both are present, the direction is not empty and neither has a bar. |
| `BasinSignatures.EncodingCanCollide` | src/basin.rs:177-182 | An input that shows the encoding is not one-to-one when a type has a bar. |
| `BasinSignatures.AbsenceCollides` | src/basin.rs:177-182 | Inputs without a bar: any direction without a type, and an absent and an empty direction, encode alike. |
| `BasinRelaxation.ActiveIffPrefixesAgree` | src/basin.rs:282-298 | `relax` at a length keeps exactly the instances whose prefix agrees with the evidence's up to a renaming of nodes and, if typed, encoded labels. |
| `BasinRelaxation.ActiveSetShrinks` | src/basin.rs:282-298 | More evidence never brings an instance back. |
| `BasinRelaxation.TrajectoryShrinks` | src/basin.rs:300-304 | Along `relax_trajectory` the active instances and families only lose members, in order. |
| `BasinRelaxation.TypedInsideLabelFree` | src/basin.rs:282-298 | What typed retrieval keeps, label-free retrieval keeps. |
| `BasinRelaxation.RelaxationIndex.Add` | src/basin.rs:257-263 | An instance is indexed under its own signature, after the others. |
| `BasinRelaxation.RelaxationIndex.AddAll` | src/basin.rs:265-272 | Instances are added in order. |
| `BasinRelaxation.RelaxationIndex.Relax` | src/basin.rs:282-298 | The filter gives the specified active instances and their snapshot. |
| `BasinRelaxation.RelaxationIndex.RelaxTrajectory` | src/basin.rs:300-304 | The states for evidence of length one, two, and so on. |
| `BasinRelaxation.RelaxationIndex.PerturbDrop` | src/basin.rs:306-314 | Retrieval with one step left out; the root cannot be. |
| `BasinRelaxation.Snapshot` | src/basin.rs:321-338 | The counting loop gives the specified state. |
| `BasinCounts.FamilyCountsTell` | src/basin.rs:321-329 | The family counts list every active family once with the number of its instances, more instances first and then by name, and add up to all of them. |
| `BasinCounts.DominantIffMost` | src/basin.rs:226-240 | There is a dominant family exactly when one family has more instances than every other; then it is that one. |
| `BasinWalks.FollowFrom` | src/basin.rs:506-541 | The nested loops with stack and visited set end, and give the specified walk. |
| `BasinWalks.WalksFromGraph` | src/basin.rs:492-549 | The walks of the specified roots that are long enough, in order. |
| `BasinWalks.EdgeConnectedRoots` | src/basin.rs:551-561 | Without named roots, exactly the ends of edges, each once and in order, or every node if there is no edge. |
| `BasinWalks.EdgeNodesAreEnds` | src/basin.rs:551-561 | A name is among the nodes with an edge exactly if it is an end of some edge. |
| `BasinWalks.SuccessorsInOrder` | src/basin.rs:380-386 | The successors of a node are exactly the edges out of it, in the order of the edge list. |
| `BasinWalks.ScanProgress` | src/basin.rs:507-541 | Why the search ends: each round uses up room in the walk, or takes a node off the stack. |
| `BasinWalks.WalkFromIsWalk` | src/basin.rs:506-541 | Every step after the root follows an edge out of a node that stands earlier in the walk; a walk that stops short of its limit has followed every edge out of every node it saw. |
| `BasinWalks.WalksAreBounded` | src/basin.rs:492-549 | At most `max_walks` walks, from named roots, nodes or ends of edges in strictly increasing order, each of 3 to `max_depth` + 1 steps. |
| `BasinWalks.RootsAreDistinct` | src/basin.rs:492-549 | No two walks have the same root. |
| `SyntaxStack.ParseWithMetrics` | src/code.rs:459-537 | The stack walk ends; it succeeds exactly when the tree has no more nodes than the budget allows and is no deeper, having counted each node once; it then lists exactly the nodes of the recursive walk with the same filter, and every error. |
| `SyntaxStack.PushChildren` | src/code.rs:522-526 | Children are pushed last to first, so that the first is next. |
| `SyntaxStack.ProgressStep` | src/code.rs:481-527 | One round: what is listed and what is still on the stack add up to the whole tree. |
| `SyntaxStack.WalksAgree` | src/code.rs:459-537 | For every tree and the same filter, both walks list the same nodes in the same order, each with the same node as parent, up to the spelling of identifiers. |
| `SyntaxWalk.WalkListsKeptNodes` | src/code.rs:481-527 | The listed nodes are exactly the kept nodes in preorder, each under its nearest kept ancestor. |
| `SyntaxWalk.VisitsNumbered` | src/code.rs:481-527 | Every node of the tree is visited exactly once, in preorder. |
| `SyntaxParsers.SyntaxCollector.Walk` | src/python.rs:738-787 | The recursive walk appends the kept nodes of a subtree and advances the ordinal by its size. |
| `SyntaxParsers.CollectSyntaxNodes` | src/python.rs:732-804 | The kept nodes for a level of detail. |
| `SyntaxLevels.LevelsList` | src/python.rs:732-804 | What each level of detail lists, of all nodes in preorder: the nodes that are errors or missing, those and the named ones, or all. |
| `SyntaxLevels.AdaptersList` | src/code.rs:481-527 | The code adapters list the named, erroneous and missing nodes, or all. |
| `AsciiDocTree.DocumentIsRight` | src/asciidoc.rs:476-771 | In every document parents come first and children lists mirror parent identifiers exactly, in order; a heading's parent is the nearest earlier heading of strictly smaller level, every other block's parent is the nearest earlier heading, and inner nodes stand in what they belong to. |
| `AsciiDocTree.EnclosingIsNearest` | src/asciidoc.rs:496-499 | What the nearest earlier heading of a smaller level is: every heading in between has at least that level. |
| `AsciiDocTree.HeadingFinds` | src/asciidoc.rs:495-513 | After each heading the stack still finds, for every level, the nearest heading of a smaller one. |
| `AsciiDocTree.AddedMirrors` | src/asciidoc.rs:422-474 | Adding a node below a parent keeps parents and children mirrored. |
| `AsciiDocTree.BlockMirrors` | src/asciidoc.rs:486-770 | So does every block. |
| `AsciiDocTree.BlockTracks` | src/asciidoc.rs:486-770 | Every block keeps the heading stack, the current heading and all parents right. |
| `AsciiDocBlocks.DelimitedExtent` | src/asciidoc.rs:917-926 | The loop to the closing mark gives the specified extent. |
| `AsciiDocBlocks.ClosedByFirstMark` | src/asciidoc.rs:917-926 | A block is closed exactly by the first line that is its mark; without one it takes all lines. |
| `AsciiDocBlocks.CommentExtent` | src/asciidoc.rs:955-967 | A comment is one line, or a marked block. |
| `AsciiDocBlocks.ListExtent` | src/asciidoc.rs:1446-1470 | The loops over items and their continuation lines give the specified items, which follow one another. |
| `AsciiDocBlocks.ParagraphExtent` | src/asciidoc.rs:1472-1492 | A paragraph ends before the first later line that starts something else. |
| `AsciiDocBlocks.BlocksTileLines` | src/asciidoc.rs:486-770 | The blocks take every line exactly once, in order. |
| `AsciiDocReading.DocumentsAreRead` | src/asciidoc.rs:476-771 | For every text, each block is what its first line asks for, by the first of the questions in their order that it answers: a delimited block or comment ends with the first mark of its own, a list with the first line that is no item of its indentation, an item with the first line that is neither blank nor further in, a paragraph before the first line that starts something else, and a table has exactly its lines with cells as rows, or is raw without an end or rows. |
| `AsciiDocParser.ReadBlock` | src/asciidoc.rs:486-770 | What starts on a line, by the order of the code's questions. |
| `AsciiDocParser.ReadTable` | src/asciidoc.rs:1281-1332 | A table without an end or without rows is kept as raw source. |
| `AsciiDocParser.NodeBuilder.Push` | src/asciidoc.rs:422-457 | A new node names its parent and is listed by none yet. |
| `AsciiDocParser.NodeBuilder.LinkChild` | src/asciidoc.rs:459-464 | The child names the parent, and the parent lists it. |
| `AsciiDocParser.NodeBuilder.AttachToParent` | src/asciidoc.rs:467-474 | The parent lists the child, unless it already does. |
| `AsciiDocParser.NodeBuilder.AddTableNodes` | src/asciidoc.rs:1407-1426 | Rows below the table and cells below their row. |
| `AsciiDocParser.NodeBuilder.AddItems` | src/asciidoc.rs:712-736 | Items below the list, and inline elements below their item. |
| `AsciiDocParser.AddHeading` | src/asciidoc.rs:495-513 | Headings of this level or deeper are closed, and the new one opens under what is left. |
| `AsciiDocParser.ParseNodes` | src/asciidoc.rs:476-771 | The cursor loop ends, and gives the nodes of the specified blocks, read from lines by their spelling (`AsciiDocSpelling`) and nested by counting equals signs (`AsciiDocHeadings.HeadingsNestByCounting`). |
| `AsciiDocParser.ParsedDocumentsAreRight` | src/asciidoc.rs:476-771 | The statement for whole texts. |
| `AsciiDocHeadings.HeadingsNestByCounting` | src/asciidoc.rs:476-771 | For whole texts: the headings are the lines spelled as such that start a block, with a node each, of that level and in order; a heading stands under the nearest one before it with fewer equals signs, and under nothing if there is none. |
| `AsciiDocSpelling.HeadingIff` | src/asciidoc.rs:774-783 | A line is a heading of a level exactly if, without the white space around it, it is that many equals signs, at most six, a space, and something other than white space. |
| `AsciiDocSpelling.MarksIff` | src/asciidoc.rs:652-957 | Blank lines, comments, comment marks, table marks, transitions and delimiters, by what they hold. |
| `AsciiDocSpelling.ListLineIff` | src/asciidoc.rs:1428-1444 | A line is in a list exactly if it begins with a bullet and a space, or with a hash and a dot, or digits between parentheses and dots, and white space. |
| `AsciiDocSpelling.AttributeIff` | src/asciidoc.rs:785-808 | A line is a document attribute exactly if it is a name, perhaps with exclamation marks, between colons and anything after them. |
| `AsciiDocSpelling.BlockStyleIff` | src/asciidoc.rs:810-842 | A line has a block style exactly if it is a list in brackets whose first field, up to the first comma outside quotes, is that style. |
| `AsciiDocSpelling.StyleIff` | src/asciidoc.rs:545-552 | By its style such a line makes code, literal text or raw source of the block below it. |
| `AsciiDocSpelling.MacroIff` | src/asciidoc.rs:879-896 | A line is a block macro exactly if it is a name, two colons, a target, and options in its last brackets. |
| `AsciiDocSpelling.DirectiveIff` | src/asciidoc.rs:608-616 | By its name, ignoring case, such a line is an include, a known directive or raw source. |
| `AsciiDocSpelling.MalformedIff` | src/asciidoc.rs:737-757 | A line is a malformed attribute exactly if it starts with a bracket and does not end with one. |
| `AsciiDocSpelling.AnchorIff` | src/asciidoc.rs:937-949 | A line is an anchor exactly if it holds an identifier up to a comma between doubled brackets, or after a bracket and a hash. |
| `AsciiDocSpelling.IndentationIs` | src/asciidoc.rs:1494-1498 | Indentation counts the spaces and tabs in front. |
| `AsciiDocSpelling.CellsAreBars` | src/asciidoc.rs:1334-1379 | A table line has a cell for each of its bars, but for a last one that closes the line. |
| `LdgrFrontmatter.PrintParses` | src/ldgr_projection.rs:695-769 | Printing metadata and parsing it again gives the same metadata without a diagnostic exactly when it is well-formed: version 1, non-empty id and schema, schema naming the kind, references that print and parse, extra keys apart from the known ones. |
| `LdgrFrontmatter.ParsePrintsBack` | src/ldgr_projection.rs:1131-1177 | Whatever parses without a diagnostic is given back by printing and parsing again. |
| `LdgrFrontmatter.ParsedIsWellFormed` | src/ldgr_projection.rs:695-769 | What parses without a diagnostic is well-formed. |
| `LdgrMaps.PrintsBackIffCanonical` | src/ldgr_projection.rs:1131-1183 | A map is printed back as it was from what is parsed of it exactly if every known field has the shape the printer gives it: number, known kind name and strings where they are required, strings or references or nothing where not, and lists that are not empty and hold nothing else. |
| `LdgrMaps.NumberStatusIsDropped` | src/ldgr_projection.rs:1261-1263 | This is not the same as parsing without a diagnostic: in any map that does so, a status that is a number is dropped. |
| `LdgrFrontmatter.ParsedRefPrints` | src/ldgr_projection.rs:189-204 | What parses as a reference prints as it was. |
| `LdgrFrontmatter.PrintedRefParses` | src/ldgr_projection.rs:189-204 | A reference survives printing exactly if its kind is not empty and has no colon, and its value is not empty. |
| `LdgrFrontmatter.NamedKind` | src/ldgr_projection.rs:1341-1364 | A name is parsed as a kind exactly when it is that kind's name. |
| `LdgrProjection.ParseMetadata` | src/ldgr_projection.rs:695-769 | The readers, in order, give the specified metadata and diagnostics. |
| `LdgrProjection.ReadRefList` | src/ldgr_projection.rs:1275-1300 | One string, a list, or nothing; what is not a string in a list is passed over, what is no reference is reported. |
| `LdgrProjection.ReadStringList` | src/ldgr_projection.rs:1302-1322 | One string, a list, or nothing; what is not a string in a list is passed over. |
| `LdgrFrontmatter.SingleReadsAsList` | src/ldgr_projection.rs:1275-1322 | A single string reads as the list of that one string, with the same diagnostics. |
| `LdgrProjection.ReadExtra` | src/ldgr_projection.rs:748-767 | Fields of no known name are kept as they are. |
| `LdgrProjection.MetadataToValue` | src/ldgr_projection.rs:1131-1183 | The inserts, in order, give the specified fields: absent options and empty lists are left out, extra fields are written last. |
| `LdgrVocabulary.VocabularyFits` | src/ldgr_projection.rs:122-137 | The names in use meet what the round trip asks: distinct keys, and a name of its own for every kind. |
| `LdgrVocabulary.FrontmatterRoundTrips` | src/ldgr_projection.rs:695-769 | The round trip with the names in use. |
| `LdgrVocabulary.FrontmatterMapsPrintBack` | src/ldgr_projection.rs:1131-1183 | The statement on maps with the names in use. |
| `LdgrVocabulary.MinimalStatusIsDropped` | src/ldgr_projection.rs:1261-1263 | An input that shows it, with the names in use: a ticket with the four required fields and a number for its status. |

## Left out

- Offsets count characters, where the code counts bytes of UTF-8.
- LatexMeaning.OkIffAdmitted: does not speak of texts in which a backslash stands before a character outside ASCII, such as `\é`: the code slices one byte after the backslash there (src/latex.rs:798-801) and panics, while the model reads a command of one character. The same holds of everything stated about commands and macro expansion.
- Source ranges with lines and columns, locators, raw byte ranges, digests and envelopes: records built without an algorithm.
- Diagnostics are modelled by what they report, not by their texts, except where a statement speaks of them.
- Integers are unbounded, except where the code saturates or counts in 32 or 64 bits and a limit depends on it (the string and macro counters).
- StringMeaning.PassUsage: a pass that resolves more than 2^64 - 1 characters overflows the counter of the code; the counter of the model goes on, and with the largest limit nothing is stated about it.
- BTreeMap order of inherited names, of count entries of a signature and of printed JSON fields: these are sets, multisets and maps here. Family counts and graph roots are lists in order.
- Wall-clock time, cancellation and memory budgets: a control answers pass or stop at each call of the CSV stream; the syntax walk has a node and depth budget.
- CSV dialect scoring and guessing of scalar types: floating point, and shallow case distinctions.
- BibTeX and RIS parsing of files into entries, parts and names: the models start from entries and parts.
- LaTeX document structure, file inclusion and the collection of macro definitions: a map of definitions is given.
- HtmlLexer.Lexer.LexSource: attributes are left out.
- HtmlOutline.OutlineTokens: what the code keeps while it lexes is computed here from the tokens, in a loop of its own.
- Attribute faults, namespace and doctype notes of XHTML validation.
- DomSink.Sink.CreateElement: qualified names and flags other than template are one local name here; the tree-construction algorithm itself is an arbitrary caller.
- DomSink.Sink.Release: the reference counts behind weak pointers are not modelled; the caller says when the last owner goes away.
- BasinSignatures.TypedCanonicalSignature: edges and counts are a multiset, not the sorted lists of its entries; retrieval compares neither.
- BasinSignatures.RemoveLabels: the same.
- BasinRelaxation.Snapshot: the library sort is modelled by insertion, whose result is the only list in that order.
- BasinWalks.WalksFromGraph: building the code graph from a document graph is not part of this model; sets of names are lists in increasing order.
- SyntaxStack.ParseWithMetrics: the grammar that makes the tree, and the text slices of nodes, are not part of this model; identifiers are records of the numbers they spell.
- AsciiDocBlocks.ListExtent: the length of the marker of each item is left out.
- AsciiDocParser.ReadTable: ranges and texts of cells and the two diagnostics on tables are left out.
- AsciiDocParser.ParseNodes: inline elements are given per item and paragraph, not found in the text; titles, option lists and attribute texts are not kept, identifiers are positions, and every line is recognised once before the loop.
- AsciiDoc includes and substitution of resolved includes: file access.
- LdgrProjection.ParseMetadata: YAML text and machine blocks are not part of this model; numbers are integers of any size or something else.
- Manifests, EPUB, JATS, JavaScript, Rust extraction, plain text, registry, rendering and the command line: members easier than those above, or input and output.
