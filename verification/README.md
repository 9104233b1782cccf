# Verification of the Java language server

This project models the pure core of a Java language server written in Go and proves what that code
promises. It covers five connected parts:

1. **Rename and references.** The line-by-line scans that find whole words, the edits they answer, and what
   applying those edits does to the document.
2. **The Java lexer and the structural parser.** The hand-written scanner with its offset, line and column
   counters, the parser object with its one moving index, the readers of members, and the printer of types.
3. **The single-flight caches.** Four lazily computed caches under one mutex, as one protocol for any number of
   callers, and the record objects that implement its locked regions.
4. **The base protocol and signature help.** Length-framed messages on byte streams; the backward and the
   forward scan around the cursor of a call.
5. **Completion order and method ranges.** Scores printed into sort keys, duplicates dropped, a stable sort; the
   line ranges of methods, which bound a local rename.

Loops and objects of the Go code are methods and classes here, each proved equal to a function of its inputs
(or of the old state); the properties are lemmas about those functions.

`dafny verify dfyconfig.toml` checks everything.

## Files

| file | contents |
|---|---|
| `Chars.dfy`, `Text.dfy`, `Protocol.dfy`, `Sorting.dfy` | character classes and runs, lines and positions, protocol records, the stable sort |
| `Lexer.dfy`, `LexerTheorems.dfy`, `LexerAutomaton.dfy`, `LexerShapes.dfy` | the scanner; losslessness; agreement with an independent automaton; what each token is and where it ends |
| `Rename.dfy`, `RenameTheorems.dfy`, `RenameApply.dfy` | the scans; whole-word replacement; applying edits |
| `RenamePieces.dfy`, `RenameTokens.dfy`, `RenameComments.dfy`, `RenameLexing.dfy`, `RenamePlaces.dfy` | renaming commutes with lexing: piece by piece, token by token, at a comment left open, exactly when, and where the tokens go |
| `TypePrinter.dfy`, `PrintThenLex.dfy` | printing types, and reading the print back |
| `Decorators.dfy`, `Members.dfy`, `MemberTheorems.dfy` | stripping annotations and modifiers; reading methods, fields, parameters |
| `TypeBodies.dfy`, `Parser.dfy` | the body scan; the parser object |
| `NameTheorems.dfy`, `DocTheorems.dfy` | qualified names, imports and names of types; documentation comments |
| `ParserTheorems.dfy`, `Layout.dfy`, `DocumentTheorems.dfy` | independence from method bodies, from layout, and from both in two documents |
| `BodyTheorems.dfy`, `FileTheorems.dfy` | bodies and whole files that were written out are read back |
| `SingleFlight.dfy`, `SingleFlightSafety.dfy`, `SingleFlightLiveness.dfy`, `Resolver.dfy` | the cache protocol; what holds in all runs; that they end; the objects that refine it |
| `Framing.dfy`, `FramingTheorems.dfy` | reading and writing messages; reading undoes writing |
| `SignatureHelp.dfy`, `MethodRanges.dfy`, `RangeTheorems.dfy` | offsets and calls; method ranges and rename scopes; which ranges there are |
| `Completion.dfy`, `CompletionTheorems.dfy` | scores, keys, duplicates, order |

## Where the obvious claim is false

The code is modelled as it is. Where a claim one would expect fails, the exact condition is proved:

- The lexer slices past the end of the text when a literal ends in a backslash: it panics exactly when the
  automaton ends behind an escape (`LexerAutomaton.LexRefinesAutomaton`), and only then.
- A newline escaped inside a literal is not counted: recorded positions are the true ones exactly when no such
  newline comes before (`LexerAutomaton.TokenPositionsExact`).
- An unclosed block comment gives up its last character, which becomes a token of its own. For any two names, with w
  the identifier run at the end of the text, the tokens of the renamed text are the renamed tokens exactly if every
  block comment is closed, or the names are equal, or w is empty, or w is the old name and both names are one
  character long, or neither w nor w without its last character nor that character is the old name
  (`RenameLexing.RenameCommutesWithLexing`; the last condition is `RenameComments.EndKept`).
- A name glued to a number (`1x`) is a token of its own for the lexer but not a word for the rename: of the renamed
  tokens all are replaced word by word exactly when no token spelled like the old name is glued
  (`RenameLexing.RenameCommutesWithLexing`).
- A type whose tokens put dots side by side prints as an ellipsis: the print is read back exactly when that does
  not happen (`PrintThenLex.LexReadsPrint`).
- An annotation without arguments swallows the names behind it, so the parameter `@Nullable String s` is lost and
  `@A List<String> s` is read with the type `<String>`. Stripping removes the annotation alone, as the parser delimits
  annotations, exactly if what it takes beyond that are modifiers outside angle brackets
  (`TypeBodies.AnnotationAlone`, `Decorators.BareAnnotationSwallows`).
- Renaming back restores the text exactly when the new name was not already a word of it
  (`RenameApply.RenameUndo`).
- An empty message is written but cannot be read, and neither can one larger than a buffer can be made: reading undoes
  writing exactly when every payload is readable (`FramingTheorems.ReadingUndoesWriting`).
- A method range need not begin at its own signature: it begins at the first line since the last brace at depth one
  that looks like one, and there is a range exactly for every closed pair of braces so announced
  (`RangeTheorems.RangeExactly`).
- The completion list is independent of the order its items were found in exactly when no two different items
  share a key (`CompletionTheorems.OrderIndependence`).
- A member is dropped as a nested type if any of its tokens is spelled `class`, `interface`, `enum` or `record`:
  `void save(Row record) {}` and `Class C = A.class;` are lost (`BodyTheorems.KeywordNamesLoseMembers`). A name spelled
  like a modifier is stripped: a field or parameter `sealed` of type `Map.Entry` is read as one named `Entry`, and one
  of type `int` is not read at all. A written body is read as its fields and methods exactly if no field
  or method with a return type has a token spelled like a type keyword, and none of them, nor of their parameters, has a
  name spelled like a modifier, unless, for a method, the return type prints like itself without its last token
  (`BodyTheorems.ReadAsWritten`, `BodyReadsBack`; for files `FileTheorems.FileReadsBack`, `AnalysisReadsBack`).
- Imports are stored under their last segment, so of several ones on demand only the last is kept: an import is
  replaced by a later one exactly if they end in the same segment (`NameTheorems.LaterImportWins`). The keyword of a
  static import becomes the beginning of its name, `staticjava.util.List.of` (`NameTheorems.StaticImportsGlued`).
- The empty block comment is taken for documentation, and says `/` (`DocTheorems.EmptyCommentDocuments`).
- A method name that holds the plural of the expected name holds that name, so the plural never earns a point; half the
  points are for names that hold it but for a final `s` (`Completion.NamePointsAre`).
- Sort keys count down from 9999 in four characters: beyond that score they ascend instead of descending, in front of
  all others (`Completion.HighKeys`); scores of methods never get there (`Completion.MethodsRank`).
- Documentation in front of an initialiser block goes to the next member (`BodyTheorems.InitialisersPass`).
- Of `int a[];` and `int a, b;` one field is read, named by the last token before the initialiser, `]` and `b`, all
  tokens before that being its type (`BodyTheorems.DeclaratorsMisread`).
- A token that is no modifier between the documentation or annotations of a type and its keyword, such as the `non` of
  `non-sealed`, which the lexer cuts into three tokens, makes them be forgotten (`FileTheorems.FileAllPassed`). The
  `@interface` of an annotation type is taken for an annotation named `interface`, and no type is read
  (`FileTheorems.AnnotationTypesAreLost`).

## Model

| member | source | states |
|---|---|---|
| `Lexer.Lex` | pkg/syntax/java/analysis.go:560-675 | the outer loop over offset, line and column yields exactly the tokens (or the panic) of the recursive specification, for every text |
| `Lexer.ScanPiece` | pkg/syntax/java/analysis.go:564-673 | one turn of the outer loop: which branch is taken and how far line and column move |
| `Lexer.SkipBlock` | pkg/syntax/java/analysis.go:589-606 | the block comment loop, which never reads the last byte of the text |
| `Lexer.SkipString` | pkg/syntax/java/analysis.go:614-633 | the literal loop, one past the end after a final backslash |
| `LexerTheorems.LexLossless` | pkg/syntax/java/analysis.go:560-675 | tokens are non-empty, in order, disjoint, in bounds; every uncovered byte is white space; a lexeme is its slice exactly unless it is a lone non-ASCII byte |
| `LexerAutomaton.LexRefinesAutomaton` | pkg/syntax/java/analysis.go:560-675 | for every text the nested loops agree with a seven-mode automaton that reads one character at a time: panic exactly if it ends in an escape, every token at the automaton's position |
| `LexerAutomaton.TokenPositionsExact` | pkg/syntax/java/analysis.go:615-618 | a token's line and column are the newlines before it and the bytes since the last one exactly if no newline before it was escaped in a literal |
| `LexerAutomaton.NoFinalBackslashNoPanic` | pkg/syntax/java/analysis.go:614-634 | a text that does not end in a backslash is always lexed |
| `LexerShapes.TokensAreShaped` | pkg/syntax/java/analysis.go:584-672 | from the text alone, for every token: a comment exactly if two slashes or a slash and a star stand at its offset, a literal exactly if a quote does, a word or a number exactly by its first character, a keyword exactly if in the table, else a symbol; a line comment ends at the next newline, a block comment behind the first closing mark, a literal behind its first unescaped twin, a word or number behind its maximal run, a symbol behind one character or three dots; at the end of the text what is open ends, a block comment one character earlier |
| `LexerShapes.OnlyTokens` | pkg/syntax/java/analysis.go:560-675 | the tokens are the only list that lies in order over the text, with white space between, and has everywhere a token of that shape |
| `LexerShapes.RuneStringIs` | pkg/syntax/java/analysis.go:663 | a lone byte beyond ASCII is spelled as its two bytes in UTF-8 |
| `Chars.AsciiTables` | pkg/syntax/java/analysis.go:677-683 | letters, digits and white space among the ASCII characters, one by one |
| `Chars.LatinTables` | pkg/syntax/java/analysis.go:677-683 | letters and white space among the bytes beyond ASCII |
| `Rename.RunesEqual` | internal/lsp/workspace.go:411-421 | rune-wise comparison is equality |
| `Rename.ScanLine` | internal/lsp/workspace.go:379-399 | the column loop with its index jump finds the leftmost, non-overlapping whole-word occurrences of a line |
| `Rename.RenameTextEdits` | internal/lsp/workspace.go:368-409 | the answer is every line's occurrences, as edits, last edit of the document first |
| `Rename.RenameTextEditsInLineRange` | internal/lsp/workspace.go:99-143 | the same within a line range clamped into the document |
| `Rename.FindIdentifierLocations` | internal/lsp/navigation.go:116-144 | the reference scan: the same occurrences in document order |
| `Rename.WordAtPosition` | internal/lsp/workspace.go:332-366 | succeeds exactly if there is a maximal word from s to e on the line with s <= c <= e, c being the column, or the last one of the line if it is beyond; the answer is that word |
| `Rename.OneUnderCursor` | internal/lsp/workspace.go:343-365 | there is never a second such word |
| `RenameTheorems.ReplaceTwice` | internal/lsp/workspace.go:368-409 | replacing and replacing back is replacing the new name by the old one in the original text |
| `RenameTheorems.ReplaceIsIdentity` | internal/lsp/workspace.go:368-409 | replacing a word changes the text exactly if the word is there |
| `RenameApply.RenameEditsExact` | internal/lsp/workspace.go:368-409 | the edits are exactly those of the maximal identifier runs equal to the old name, pairwise disjoint and strictly ordered |
| `RenameApply.RenameReplacesWords` | internal/lsp/workspace.go:368-409 | applying the edits one after another in list order equals replacing every whole word at once |
| `RenameApply.RenameUndo` | internal/lsp/workspace.go:368-409 | renaming there and back restores the text exactly if the new name was not already a word of it (or the names are equal) |
| `RenameApply.RangeRenameReplaces` | internal/lsp/workspace.go:99-143 | a rename restricted to lines replaces the words of those lines and leaves every other line alone |
| `RenameApply.RangeEditsFilter` | internal/lsp/workspace.go:99-143 | for every range, the line-range edits are the whole-document edits filtered to that range |
| `RenameApply.ReferencesAreRenames` | internal/lsp/navigation.go:116-144 | the rename ranges are the reference ranges in reverse, for any non-empty name |
| `RenameApply.CursorIsRenamed` | internal/lsp/workspace.go:332-409 | renaming the word under the cursor has an edit over exactly that word |
| `RenameLexing.RenameCommutesWithLexing` | internal/lsp/workspace.go:368-409 | for every ASCII text: the renamed text panics exactly if the text does; its tokens are the original ones with kinds and lines kept and lexemes renamed word by word, exactly if every block comment is closed or the word at the end of the open one stands the rename; and then all lexemes are replaced exactly if no old name is glued to a number |
| `RenamePlaces.RenamedTokensMove` | pkg/syntax/java/analysis.go:560-675 | whenever the tokens are the renamed ones, each stands where the renamed text in front of it ends: offset, end, line and column |
| `RenameComments.UnclosedKnown` | pkg/syntax/java/analysis.go:589-608 | a text that is one comment left open is lexed without panic, and renamed as its tokens are exactly under the condition on the word at its end |
| `TypePrinter.JoinTypeTokens` | pkg/syntax/java/analysis.go:488-509 | the printing loop yields the specified print with its spaces |
| `TypePrinter.PrintedApart` | pkg/syntax/java/analysis.go:488-509 | at any place a print is the prints before and behind with the gap between them: no blank behind `<`, `(`, `[`, `.`, `@` or `,` nor before `<`, `>`, `)`, `]`, `.`, `,` or `;`, and exactly one between any other two neighbours |
| `TypePrinter.JoinedIsPrint` | pkg/syntax/java/analysis.go:488-496 | nothing is trimmed off a print whose first and last lexeme have no white space at the ends |
| `Members.TypeNameIs` | pkg/syntax/java/analysis.go:321-347 | a type is named by its print, without `java.lang.` in front and exactly then shortened |
| `PrintThenLex.LexReadsPrint` | pkg/syntax/java/analysis.go:488-509 | lexing a printed type gives back its kinds and lexemes exactly if no dots run together |
| `Decorators.StripDecorators` | pkg/syntax/java/analysis.go:395-436 | the loop with the annotation step-back computes the specified stripping |
| `Decorators.SkipAnnotation` | pkg/syntax/java/analysis.go:401-420 | the inner loops end on the last token of the annotation |
| `Decorators.StripIsIdempotent` | pkg/syntax/java/analysis.go:395-436 | the result is a subsequence without annotation and without modifier outside angle brackets; stripping again changes nothing, and nothing changes exactly if there was nothing of that kind |
| `Decorators.AnnotationStripped` | pkg/syntax/java/analysis.go:401-415 | an annotation with balanced arguments is cut out whole |
| `MemberTheorems.StrippedIs` | pkg/syntax/java/analysis.go:421-432 | what is left has no annotation, and modifiers only behind an angle bracket that is still open |
| `Decorators.AnnotationIs` | pkg/syntax/java/analysis.go:401-420 | an annotation goes on over names and dots as far as there are any and over one group of arguments behind them |
| `Decorators.GroupIs` | pkg/syntax/java/analysis.go:404-414 | a group ends behind the first parenthesis with balanced tokens before it, and with the tokens if there is none |
| `NameTheorems.ModifierWords` | pkg/syntax/java/analysis.go:520-527 | the thirteen words that are stripped |
| `NameTheorems.TypeKeywords` | pkg/syntax/java/analysis.go:511-518 | the four words that begin a type |
| `Decorators.BareAnnotationSwallows` | pkg/syntax/java/analysis.go:402-419 | an annotation without arguments takes every name and dot behind it along; for lexed tokens it removes only itself exactly if what it takes are modifiers outside angle brackets |
| `Decorators.LexedAsLexed` | pkg/syntax/java/analysis.go:560-675 | the tokens of every lexed text are pairwise different, and its names are spelled as identifiers |
| `TypeBodies.AnnotationAlone` | pkg/syntax/java/analysis.go:160-174 | stripping an annotation removes what the parser takes for that annotation, name and arguments, and no more exactly if all it takes beyond are modifiers outside angle brackets |
| `Members.IndexOf` | pkg/syntax/java/analysis.go:463-470 | the first position of a lexeme, or -1 |
| `Members.MatchingParen` | pkg/syntax/java/analysis.go:447-461 | in bounds; the first closing parenthesis with balanced tokens before it, or the end if there is none |
| `Members.ParseParamInfo` | pkg/syntax/java/analysis.go:352-380 | the loop splits at the commas outside angle brackets and keeps the named parameters |
| `Members.ParseSingleParam` | pkg/syntax/java/analysis.go:382-393 | name and normalised type of one parameter |
| `Members.ParseMethodInfo` | pkg/syntax/java/analysis.go:301-331 | a method record exactly for tokens with a name before a parenthesis and a type before the name |
| `Members.ParseFieldInfo` | pkg/syntax/java/analysis.go:333-350 | name, type and line of a field, from the tokens before its initialiser |
| `Members.LooksLikeNestedType` | pkg/syntax/java/analysis.go:438-445 | some token is a type keyword |
| `MemberTheorems.CommaSplits` | pkg/syntax/java/analysis.go:358-376 | a comma that no open angle bracket stands before splits the parameter list |
| `MemberTheorems.OtherCommasStay` | pkg/syntax/java/analysis.go:358-376 | a list whose commas all stand behind open angle brackets is one parameter |
| `MemberTheorems.ParamsReadBack` | pkg/syntax/java/analysis.go:352-393 | a parameter list written out with modifiers, types and commas is read parameter by parameter, each on its own |
| `MemberTheorems.ParamsAreNamed` | pkg/syntax/java/analysis.go:363-378 | no parameter without a name is kept |
| `MemberTheorems.ParamsAsWritten` | pkg/syntax/java/analysis.go:382-436 | the parameters read are those written exactly if none is named like a modifier |
| `MemberTheorems.MethodReadsBack` | pkg/syntax/java/analysis.go:301-331 | a method written out is read back with its name, return type, parameters, documentation, line and static flag, unless it is named like a modifier; without a return type nothing is recognised |
| `BodyTheorems.FieldReadsBack` | pkg/syntax/java/analysis.go:333-350 | a field written out, whatever its initialiser, is not taken for a method, and is read back with its name, type and line exactly if it is not named like a modifier |
| `BodyTheorems.ReadAsWritten` | pkg/syntax/java/analysis.go:278-299 | a member is read as it was written exactly if it is plain: a field or a method with a return type is lost if one of its tokens is a type keyword, and misread if it or a parameter is named like a modifier, unless the return type prints alike |
| `BodyTheorems.KeywordNamesLoseMembers` | pkg/syntax/java/analysis.go:282-284 | a method with a parameter named `record` and a field whose initialiser says `A.class` are both dropped |
| `BodyTheorems.DeclaratorsMisread` | pkg/syntax/java/analysis.go:333-350 | whatever stands between the name of a field and its initialiser, its last token is read as the name and all before it as the type |
| `BodyTheorems.InitialisersPass` | pkg/syntax/java/analysis.go:247-263 | a braced group between members changes nothing; pending documentation stays |
| `BodyTheorems.BodyReadsBack` | pkg/syntax/java/analysis.go:222-299 | a body written out member by member, with comments, annotations, modifiers, initialisers (braced ones too), method bodies and nested types, is read member by member in order, with the documentation before them, and what follows is left unread; the fields and methods are exactly those written, constructors and nested types apart, if and only if every member is plain |
| `FileTheorems.FileReadsBack` | pkg/syntax/java/analysis.go:98-220 | a file written out as package, imports and types, with comments and annotations in front of them, is read declaration by declaration; it comes back as written (kinds, names, header texts, documentation, annotations, members, lines, imports by their last segment) if and only if every type with a name has plain members and only modifiers between its documentation or annotations and its keyword |
| `NameTheorems.LastSegmentIs` | pkg/syntax/java/analysis.go:553-558 | the last segment is the one string without a dot that the name equals or ends in behind a dot |
| `NameTheorems.ImportedByLastName` | pkg/syntax/java/analysis.go:117-124 | an import of names and dots is stored under the last of its names, as its names with dots between them |
| `NameTheorems.NothingImported` | pkg/syntax/java/analysis.go:120-122 | without a name nothing is imported |
| `NameTheorems.StaticImportsGlued` | pkg/syntax/java/analysis.go:117-124 | a static import is stored under its last name, with `static` glued in front of its value |
| `NameTheorems.LaterImportWins` | pkg/syntax/java/analysis.go:119-121 | an import is replaced by a later one exactly if they end in the same segment |
| `NameTheorems.SpelledIsPath` | pkg/syntax/java/analysis.go:476-486 | the joined tokens of a dotted name are its names with dots between them |
| `NameTheorems.NamesAreWords` | pkg/syntax/java/analysis.go:529-531 | of a lexed text exactly the tokens that begin like an identifier are names |
| `FileTheorems.UnopenedType` | pkg/syntax/java/analysis.go:204-219 | a type without a brace takes all tokens there are and has neither header nor members |
| `NameTheorems.FirstNameIs` | pkg/syntax/java/analysis.go:205-217 | a type is named by the first name of its declaration |
| `TypeBodies.NamePathIs` | pkg/syntax/java/analysis.go:160-169 | the name of an annotation is names with dots between them, as far as they go |
| `FileTheorems.FileAllPassed` | pkg/syntax/java/analysis.go:133-138 | in front of a type modifiers change nothing, and any other token makes documentation and annotations be forgotten |
| `FileTheorems.AnnotationTypesAreLost` | pkg/syntax/java/analysis.go:110-114 | `@interface` and the name behind it leave nothing but forgotten documentation and annotations |
| `FileTheorems.AnalysisReadsBack` | pkg/syntax/java/analysis.go:77-89 | a document whose tokens are those of such declarations is analysed as them, under the same condition and only then |
| `TypeBodies.BodiesDoNotMatter` | pkg/syntax/java/analysis.go:222-276 | wherever the body scan meets a brace at depth one, the tokens up to its closing brace can be replaced by any brace-balanced ones: fields, methods and unread tokens stay the same |
| `TypeBodies.RestIsUnread` | pkg/syntax/java/analysis.go:222-276 | what the body scan leaves unread is the end of the tokens |
| `Parser.AnalysisParser.SkipBalanced` | pkg/syntax/java/analysis.go:176-191 | advances behind the closing parenthesis or to the end |
| `Parser.AnalysisParser.ParseAnnotation` | pkg/syntax/java/analysis.go:160-174 | the qualified name, and the index behind name and arguments |
| `Parser.AnalysisParser.ParseQualifiedName` | pkg/syntax/java/analysis.go:143-158 | the name up to the semicolon, and the index behind it |
| `Parser.AnalysisParser.ParseMemberTokens` | pkg/syntax/java/analysis.go:278-299 | a member goes to the methods, to the fields, or nowhere |
| `Parser.AnalysisParser.ParseTypeBody` | pkg/syntax/java/analysis.go:222-276 | the loop over depth, documentation and member tokens; it ends with the index in bounds and fields, methods and rest as specified |
| `Parser.AnalysisParser.ParseType` | pkg/syntax/java/analysis.go:193-220 | strictly advances; the header slice is always valid; the type is the specified one |
| `Parser.AnalysisParser.Parse` | pkg/syntax/java/analysis.go:98-141 | ends for every token list in text order with all tokens read and the specified file |
| `Parser.Analyze` | pkg/syntax/java/analysis.go:77-89 | for every text: the lexer's panic, or the file of its tokens without any further index or slice error |
| `Parser.CleanDocComment` | pkg/syntax/java/analysis.go:537-551 | the non-empty cleaned lines, joined |
| `DocTheorems.DocCommentIs` | pkg/syntax/java/analysis.go:533-535 | a comment is documentation exactly if a slash and two stars stand behind its leading white space |
| `DocTheorems.EmptyCommentDocuments` | pkg/syntax/java/analysis.go:533-551 | the empty block comment is documentation that says a slash |
| `DocTheorems.MarksCleaned` | pkg/syntax/java/analysis.go:540-545 | whatever marks open or close a line, and whatever blanks stand around them, its words are left |
| `DocTheorems.DocReadsBack` | pkg/syntax/java/analysis.go:537-551 | a documentation comment written out line by line is documentation, and its non-empty lines come back in order |
| `ParserTheorems.FileIgnoresBodies` | pkg/syntax/java/analysis.go:193-276 | over one text, from the keyword of a type on: exchanging the balanced tokens of a braced group in its body leaves the file that is read unchanged, headers and lines included |
| `DocumentTheorems.AnalysisIgnoresBodies` | pkg/syntax/java/analysis.go:77-276 | two documents whose tokens are spelled alike but for the inside of one braced group of a type body have the same analysis up to lines and header texts, wherever the tokens stand |
| `DocumentTheorems.AnalysisIgnoresLayout` | pkg/syntax/java/analysis.go:77-141 | documents whose tokens have the same kinds and spellings have the same analysis up to lines and header texts |
| `SingleFlightSafety.StepKeepsInv` | internal/lsp/library_index.go:70-111 | every step of every caller keeps the protocol invariant |
| `SingleFlightSafety.Safety` | internal/lsp/library_index.go:64-258 | in every state of every run: no channel closed twice, Processing exactly while its one owner works, channel closed exactly if settled, nobody waits on the idle JDK channel, at most two loop heads a caller |
| `SingleFlightSafety.VisitsCount` | internal/lsp/library_index.go:70-111 | the visits that `Safety` bounds count the turns at the head of the loop, and a step moves its own caller only |
| `SingleFlightSafety.ClosingTwicePanics` | internal/lsp/library_index.go:109 | publishing twice over one record is what the panic in `Safety` stands for |
| `SingleFlightSafety.OneComputation` | internal/lsp/library_index.go:91-98 | over a whole run at most one computation is started for a key |
| `SingleFlightSafety.PublishedStays` | internal/lsp/library_index.go:100-109 | a settled record never changes again |
| `SingleFlightSafety.Agreement` | internal/lsp/navigation.go:787-808 | all returned callers of a key agree with its one computation; on failure only the owner may hold a value, and not for a module |
| `SingleFlightLiveness.SomeoneMoves` | internal/lsp/library_index.go:83-88 | whoever has not returned has an enabled step, or waits for an owner that has one |
| `SingleFlightLiveness.Liveness` | internal/lsp/library_index.go:217-258 | a run takes at most three steps a caller and can go on exactly as long as someone has not returned |
| `Resolver.NavigationResolver.constructor` | internal/lsp/navigation.go:277-289 | the initial caches: one idle JDK record |
| `Resolver.NavigationResolver.InspectOrClaim` | internal/lsp/library_index.go:70-96 | the locked region at the loop head does the protocol's inspect-or-claim step on the record objects, the JDK record in place |
| `Resolver.NavigationResolver.PublishAndClose` | internal/lsp/library_index.go:100-110 | the locked region behind the computation does the protocol's publish step through the owner's record |
| `Framing.Reader.ReadMessage` | internal/lsp/server.go:656-684 | the header loop and the payload read: outcome and unread bytes are the specified ones, with every error and the panic on a length no buffer can have |
| `Framing.Writer.WriteMessage` | internal/lsp/server.go:717-723 | appends header and payload |
| `Framing.AtoiDecimal` | internal/lsp/server.go:669-717 | a printed length is parsed back exactly up to the largest 64-bit integer |
| `Framing.AtoiIs` | internal/lsp/server.go:668-672 | digits with at most one sign are their value if 64 bits hold it, and anything else is no number |
| `FramingTheorems.LengthFieldIs` | internal/lsp/server.go:666-668 | the name of the length header is told letter by letter, small or capital |
| `FramingTheorems.BadLengthRefused` | internal/lsp/server.go:668-673 | a length that is no number ends the reading with an error behind its line, whatever came before |
| `FramingTheorems.LastLengthCounts` | internal/lsp/server.go:666-674 | of several lengths the last one counts |
| `FramingTheorems.NoLengthMissing` | internal/lsp/server.go:675-679 | without a positive length nothing behind the header is read |
| `FramingTheorems.FramedReads` | internal/lsp/server.go:656-684 | other header lines, letter case and blanks around the number change nothing; the payload comes back unless it is empty or larger than a buffer can be |
| `FramingTheorems.ReadingUndoesWriting` | internal/lsp/server.go:656-723 | as many reads as messages were written give exactly those and leave what came behind, precisely if none is empty or too large for a length or a buffer |
| `FramingTheorems.TruncatedFrame` | internal/lsp/server.go:658-684 | a message cut off anywhere is never taken for another one: which error or panic it is, and what is left unread |
| `SignatureHelp.OffsetForPosition` | internal/lsp/signature_help.go:38-57 | fails exactly outside the text; otherwise the offset of the clamped position |
| `SignatureHelp.OffsetIsExact` | internal/lsp/signature_help.go:38-57 | the offset is in range and the text before it ends exactly at the position |
| `SignatureHelp.PositionOfOffset` | internal/lsp/signature_help.go:38-57 | every offset is the offset of the position where the text before it ends |
| `SignatureHelp.FindOpen` | internal/lsp/signature_help.go:65-82 | the backward scan finds the last parenthesis with balanced text between it and the cursor |
| `SignatureHelp.CountCommas` | internal/lsp/signature_help.go:96-111 | the forward clamp never fires, and the active parameter is the number of commas with balanced text before them |
| `SignatureHelp.InvocationAtOffset` | internal/lsp/signature_help.go:59-114 | the whole backward and forward scan yields the specified call, or none |
| `SignatureHelp.CallIs` | internal/lsp/signature_help.go:59-136 | there is a call exactly if the innermost open parenthesis has, behind only blanks, tabs and line ends, a maximal run of identifier characters and dots before it; it is named by that run, dots included, and its active argument is the number of top-level commas |
| `MethodRanges.MethodLineRanges` | internal/lsp/workspace.go:164-195 | the nested loops over depth and the two starts yield the specified ranges, for any signature predicate |
| `RangeTheorems.RangesAreExact` | internal/lsp/workspace.go:164-195 | each range holds its opening brace at depth one and ends at the brace matching it; starts strictly increase, ends never decrease, bodies do not overlap; it begins at the first signature line that waits for its brace; and every closed brace that a signature line waits for has its range |
| `RangeTheorems.RangeExactly` | internal/lsp/workspace.go:164-195 | a pair of lines is reported as a range exactly if such braces stand in the text, with no witness from the scan |
| `MethodRanges.LocalRenameScope` | internal/lsp/workspace.go:145-157 | the first range that holds the cursor line decides |
| `RangeTheorems.ScopeHoldsCursor` | internal/lsp/workspace.go:145-157 | a scope contains the cursor line, lies in the document and starts at a signature |
| `MethodRanges.ScopeIsFirst` | internal/lsp/workspace.go:145-157 | there is a scope exactly if the first range around the line introduces the name |
| `Completion.MethodCompletionScore` | internal/lsp/completion.go:453-477 | the accumulated score is the sum of type, name and origin points |
| `Completion.ContainsIs` | internal/lsp/completion.go:467-470 | a name contains another one exactly if it is that with something in front and behind |
| `SignatureHelp.OneCall` | internal/lsp/signature_help.go:59-114 | no other parenthesis and no other run are such a call |
| `Completion.NamePointsAre` | internal/lsp/completion.go:464-472 | most points for a name that holds the target, half for one that holds it but for a final `s`, none otherwise |
| `Completion.ScoreIs` | internal/lsp/completion.go:453-477 | 200 points for the same type, 120 for the same outer type, 40 or 20 for the name, 10 for a generated method |
| `Completion.ScoresRank` | internal/lsp/completion.go:453-477 | scores compare by type, then name, then origin: nothing later makes up for something earlier |
| `Completion.MatchedType` | internal/lsp/completion.go:551-555 | types are matched without white space and `java.lang.` |
| `Completion.OuterTypeIs` | internal/lsp/completion.go:557-562 | the outer type is what stands before the first angle bracket |
| `Completion.SortKeyIs` | internal/lsp/completion.go:578-580 | a key is four digits that count down from 9999, a colon, and the name |
| `Completion.HighKeys` | internal/lsp/completion.go:578-580 | for scores from 10000 to 10998 keys stand before all others, in ascending order |
| `Completion.MethodsRank` | internal/lsp/completion.go:453-477 | for any two methods their sort keys compare as strings exactly as descending scores, then names; a better type match always comes first |
| `Completion.KeyOrder` | internal/lsp/completion.go:578-580 | for scores up to 9999 keys compare as strings exactly as descending scores, then labels |
| `Completion.ItemOrder` | internal/lsp/completion.go:106-114 | the comparator is a strict weak order |
| `Completion.DedupeCompletionItems` | internal/lsp/completion.go:533-545 | the first item of every key |
| `CompletionTheorems.CompletionItems` | internal/lsp/completion.go:105-114 | the finished list is sorted and holds exactly the first item of every key, once |
| `CompletionTheorems.DedupeKeepsFirst` | internal/lsp/completion.go:533-545 | an item is kept exactly if it is the first with its key |
| `CompletionTheorems.OrderIndependence` | internal/lsp/completion.go:105-114 | the list is the same for every order of the input exactly if no two different items share a key |
| `CompletionTheorems.SameKey` | internal/lsp/completion.go:537 | items whose labels have no NUL are duplicates exactly if label and detail are the same |
| `CompletionTheorems.StrictOrder` | internal/lsp/completion.go:106-114 | the finished list is in strict order of sort text, then label, then detail |
| `Sorting.SortKeepsTies` | internal/lsp/completion.go:106-114 | the sort is stable |
| `CompletionTheorems.BestFirst` | internal/lsp/completion.go:105-114 | in the finished list a higher score comes first, and labels decide between equal scores |

## Left out

- RenameTextEditsInLineRange: a non-empty name is required, because on an empty one the original's scan never advances; the same holds for `FindIdentifierLocations`.
- RenameCommutesWithLexing: ASCII texts; for other texts the identifier tables of the rename, which sees runes, and of the lexer, which sees bytes, differ.
- BodyReadsBack: the shape of a declaration rules out several declarators and brackets behind the name (`int a, b;`, `int a[];`), which the original misreads as `DeclaratorsMisread` states; annotations between modifiers or in front of parameters, where the stripping acts as `BareAnnotationSwallows` and `AnnotationAlone` state; braces inside a parameter list; enum constants, initialiser blocks (see `InitialisersPass`), compact constructors, annotation types, and tokens between a braced initialiser and its semicolon.
- FileReadsBack: annotations of a type in front of its modifiers, not between them; no annotation types, which are not read (`AnnotationTypesAreLost`).
- CleanDocComment: white space at the ends of comment lines is ASCII white space; other Unicode spaces, which the original trims too, stay.
- MethodCompletionScore: lower-casing and white space are parameters (`Tables`), for which the original has the Unicode functions of its library.
- AnalysisIgnoresBodies: headers are not compared, since they quote the text; that the tokens outside the body are spelled alike is a premise, not derived from the two texts.
- ParseMethodInfo: the annotations of the record are not part of this model, as for ParseTypeBody.
- ParseFieldInfo: the same.
- ParseTypeBody: the annotations of members are not part of this model; in the original all members of a type share one reused buffer for them. The fields and methods are returned instead of being written into the record in place.
- ParseParamInfo: takes the reader of one parameter as an argument; the parser passes `ParamOf`, which `ParseSingleParam` computes.
- ParseMemberTokens: without the annotations; the `hasBody` argument has no effect in the original and is dropped.
- InspectOrClaim: the four caches with their own maps are one map over tagged keys; only the JDK record, claimed in place, and the module result, without a value on errors, differ.
- Lex: the keyword table is a parameter, so the results hold for any table; `Analyze` passes `JAVA_KEYWORDS`, the original's. The inner loops are methods of their own.
- ReadMessage: the largest buffer that can be made is a parameter; that the process may run out of memory below it is not modelled.
- Identifier tables of the rename and signature scans are a parameter `part`; the lexer's tables are exact for bytes (Latin-1).
- Trimming removes ASCII white space only; documents whose headers or comments begin or end with other Unicode spaces are not modelled.
- Computations that panic or never return inside a cache loader; contexts and cancellation.
- The library's stable sort is a function (insertion); its own correctness is proved, its running time is not.
- Regular expressions (`methodSignatureForCompletion`, the field and import patterns) are an arbitrary predicate; `methodIntroducesName` likewise.
- The two signatures signature help knows, and the clamping of the active parameter to them.
- JSON decoding and encoding of payloads, write errors, logging, and the dispatch of requests.
- File walking, zip and Maven access, the JDK index file, freshness of the caches: a computation yields an arbitrary result.
- UTF-16 columns: the original counts runes, and so does the model.
- The text of snippets and placeholders in completion items; candidate collection.
- Nested types inside a body are not analysed by the original, and so not here.
