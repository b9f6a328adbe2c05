# Lightdash release tooling, verified

A model in Dafny of the release-safety tooling in `scripts/`, the YAML editor of the
upgrade-automation example, the SQL printer for window-function templates, and the two
kernels behind the generated walkthroughs. Text is scanned, bracketed, masked, spliced and
printed here, and decisions about releases are derived from it; the proofs say what those
results mean for every input.

## Modules

- `Lexer`, `Literals`, `Coverage`, `Brackets`, `Nesting`: the TypeScript tokenizer, where its
  tokens end, what their spans cover, what well-nested brackets are, and why counting one kind of
  bracket finds the right partner.
- `MigrationAnalysis`, `MigrationMeaning`, `MigrationMetadata`: what a migration source does, when
  that is known in full, and what a safe verdict therefore rests on; `MigrationMeaning` spells it
  out over token positions.
- `CommentMask`, `RawCalls`: comment masking that changes nothing but comments, and the raw SQL
  calls of the original that are found in masked text.
- `Versions`, `UpgradeOverrides`, `Marker`: version floors, the committed overrides file, and
  the marker of a release, followed over whole runs of releases.
- `Declarations`, `ReleaseIndex`: the append-only registry over chains of releases, and the
  cumulative index with its interruptible backfill.
- `ConfigUsages`, `UsageMeaning`, `UsageTwins`: which tokens name a configuration variable, which
  literal is its default and which tokens its owner spans, first as the loops search and then
  spelled out over token positions; and that none of this depends on names and literals as long as
  literals keep their sign or their lack of one.
- `OwnerText`, `SourceWords`, `OwnerHoles`, `MarkedText`, `OwnerTails`, `OwnerTwins`,
  `OwnerSamples`, `OwnerExamples`: the normalized text of an owner: what replacing from right to
  left does, the words of a source, which of them are replaced, what that leaves, and which
  sources it tells apart.
- `ConfigDiff`: the diff of configuration surfaces.
- `JsonSchema`: the schema validator against a declarative meaning of its keywords, and when its
  walk ends.
- `JsonText`, `YamlScalar`, `YamlEditor`: one-line YAML scalars and writing them in place.
- `ScalarMeaning`, `YamlLines`, `YamlPaths`, `YamlWrites`: what such a scalar says, what is seen of
  a line, which line a path names by indentation alone and what writing changes, each without the
  functions that read and write it.
- `WindowSql`: window-function templates as SQL text and a reader for that text.
- `TourOrder`, `TourPaths`: the order of lessons and the steps of a walkthrough.
- `Graphs`, `Sequences`, `Sorting`, `JsText`, `Decimal`, `Options`, `TokenSpelling`: shared definitions.

Loops of the source are methods with loops, proved against functions that say what the result
is; the lemmas are about those functions. The overrides file and the index file are objects
whose methods update them; the YAML editor works in place on an array of lines.

## What the proofs turned up

- `ownExpandContractFloor` is documented to keep the persisted floor and the advertised one from
  drifting apart. They do drift, in both directions. `Marker.PersistedIsAdvertisedExactly` says
  exactly when the two are the same. Below the advertised floor: 0.6.0 records its own 0.3.0 and
  advertises the 0.4.0 it inherits (`Marker.PersistedCanFallBelowAdvertised`). Above it, which lets
  older sources in: a default lower than the derived floor is advertised while the derived floor
  is recorded (`Marker.PersistedCanExceedAdvertised`); `Marker.PersistedIsHonouredExactly` says
  exactly when that cannot happen.
- A marker is documented to list every stop on the way, so that one marker is enough for a version
  skip. A stop that a release declares with a break is not written to the overrides file; unless
  the file marks that release anyway, no later marker lists it or raises its floor for it. The
  marker of 0.6.0 lets 0.4.0 skip a stop at 0.5.0 (`Marker.DeclaredStopIsLost`).
  `Marker.OneMarkerSuffices` says exactly when one marker is enough, and
  `Marker.DeclaredStopListedLater` when a later marker lists such a stop.
- Normalizing is there so that owners that differ only in names and literals read the same. Three
  things in the source keep it from that.
  Two usages can report the same default, as in `process.env.A ? process.env.B || 5 : c`: its range
  is then replaced twice, and the text depends on how long the literal is
  (`OwnerExamples.SharedDefaultShows`). Defaults can be found behind the owner's end, as in
  `{ a: process.env.A ? process.env.B : c } || 5`: their markers pile up at the end, and when there
  are several and the first starts too close behind, the pile depends on their lengths. And a sign
  can end the search of another variable: `process.env.A ? getEnvironmentVariable('B', 5) || 7 : c`
  has the default 7 for A, and none with `-5` for the 5 (`OwnerExamples.SignShows`). As long as
  literals keep their sign or their lack of one, the first two are all that can go wrong:
  `OwnerSamples.NormalizedTextIgnoresValues` is an equivalence over all tokenized sources.
- An end-to-end registry diff can be clean although a step in between repeated a declaration:
  `Declarations.EndToEndMissesARepeat`, with the exact condition in `Declarations.CleanIffBornTogether`.
- A backfill asked for another floor than the generator's own also stamps the generator's floor
  entry: `ReleaseIndex.BackfillLeavesOthersAlone` says exactly when, and
  `ReleaseIndex.BackfillAltersAnother` shows one.
- `const` and `enum` entries that are arrays or objects never match, since they are compared by
  identity: `JsonSchema.ComparedAsDraft07Exactly`.

## Model

| member | source | states |
|---|---|---|
| `Lexer.PieceAt` | scripts/release-safety-migrations.ts:201-346 | what starts at a position is blank text, an unterminated piece, or a lexeme that starts there, is not empty and ends in the text |
| `Lexer.SymbolAt` | scripts/release-safety-migrations.ts:300-345 | an operator or punctuation mark is exactly the text it spans |
| `Lexer.ScanString` | scripts/release-safety-migrations.ts:226-236 | the loop stops at the first unescaped closing quote and sees a placeholder exactly when an unescaped one stands before it |
| `Lexer.ScanRegex` | scripts/release-safety-migrations.ts:277-287 | the loop stops at the first slash outside a character class, or where a line or the text ends the attempt |
| `Lexer.Record` | scripts/release-safety-migrations.ts:332-342 | pushing a token keeps the delimiter stack, the recorded depths and the matched flag in step with the token list |
| `Lexer.FindDangling` | scripts/release-safety-migrations.ts:348-360 | the second loop finds an assignment without a right-hand side exactly when there is one |
| `Lexer.ReadTokens` | scripts/release-safety-migrations.ts:201-346 | the main loop reads exactly the lexemes of the text, keeps the delimiter stack and depths, and sees whether every closer fits and whether the end was reached |
| `Lexer.Tokenize` | scripts/release-safety-migrations.ts:186-362 | one pass yields the lexemes of the text, the nesting depth of each, and a valid flag that holds exactly when the text was read to its end, every closer closes the innermost opener, none stays open and no assignment dangles |
| `Literals.StringEndsFirst` | scripts/release-safety-migrations.ts:226-243 | a string literal ends at the first quote of its kind that an even number of backslashes precedes, and is unterminated when there is none |
| `Literals.PlaceholderIsPlain` | scripts/release-safety-migrations.ts:226-236 | a template is dynamic exactly when an unescaped placeholder opens before its closing quote |
| `Literals.RegexEndsFirst` | scripts/release-safety-migrations.ts:273-298 | a regular expression ends at its first unescaped slash for which the last unescaped bracket before it opens no class, unless an unescaped line break comes first |
| `Literals.FoundIsFaithful` | scripts/release-safety-migrations.ts:219-345 | a token is of its kind: a literal up to its first closing mark, a longest run of name or number characters, or the first listed operator |
| `Literals.KindExactly` | scripts/release-safety-migrations.ts:205-299 | the first character decides what starts: a literal at a quote, a name at a letter, underscore or dollar sign, a number at a digit, a comment at two marks, a regular expression at a slash behind nothing, an operator, one of ten keywords or one of the marks ( [ { , ; : and otherwise an operator or mark |
| `Literals.SymbolIsLongest` | scripts/release-safety-migrations.ts:300-345 | an operator or mark is the longest of the thirty listed operators that stands there, or the one character |
| `Literals.UnterminatedExactly` | scripts/release-safety-migrations.ts:209-298 | a piece is unterminated exactly when a quote has no unescaped partner, a block comment no end, or a regular expression no end on its line |
| `Coverage.LexemesAreLaidOut` | scripts/release-safety-migrations.ts:201-346 | lexemes are laid out in order, each the text it spans, with only white space and whole comments between them |
| `Coverage.TokenSpans` | scripts/release-safety-migrations.ts:192-199 | token spans are non-empty, increasing and disjoint, and each token is what a token of its kind looks like in the text it spans |
| `Coverage.EveryCharacterOnce` | scripts/release-safety-migrations.ts:186-346 | every character of a fully lexed text lies in exactly one token, or in white space or a comment, and never in both |
| `MigrationMetadata.TokenizedUnique` | scripts/release-safety-migrations.ts:186-362 | a text has one tokenization |
| `Nesting.FindMatching` | scripts/release-safety-migrations.ts:404-427 | the counting loop computes the search whose result is characterised by the next two rows |
| `Nesting.MatchIsFirstReturn` | scripts/release-safety-migrations.ts:410-426 | the result is exactly the first position where openers and closers of the one kind are even |
| `Nesting.WhileOpen` | scripts/release-safety-migrations.ts:404-427 | while a delimiter is open the stack below it is untouched and the one-kind count equals how often that kind is open above it |
| `Nesting.MatchingFindsPartner` | scripts/release-safety-migrations.ts:186-427 | for valid tokens counting one kind finds the stack partner: closer of the same kind and depth, everything between strictly deeper, stack as before |
| `Brackets.BalancedExactly` | scripts/release-safety-migrations.ts:332-342 | tokens are balanced on the stack exactly when they are empty, a token that is no bracket in front of nested ones, or a pair of one kind around nested ones in front of nested ones |
| `Brackets.ValidExactly` | scripts/release-safety-migrations.ts:332-361 | the valid flag holds exactly when the text was read to its end, its brackets are nested in that sense and behind every = stands a token other than a closing bracket, comma or semicolon |
| `Brackets.DepthCounts` | scripts/release-safety-migrations.ts:332-342 | the depth of a token is the number of opening brackets before it less that of the closing ones up to it |
| `Nesting.SliceIsBalanced` | scripts/release-safety-migrations.ts:539-547 | the tokens between a bracket and its partner are well nested on their own |
| `Nesting.UpBodyIsTheBlock` | scripts/release-safety-migrations.ts:505-548 | the body found is what stands between the first top-level brace behind the one declaration of up and its partner; it is balanced and at depth one or more throughout |
| `Nesting.UpBodyExactly` | scripts/release-safety-migrations.ts:505-548 | whatever the source, tokens are its up body exactly when there is one identifier up at depth 0 that follows function, or const with an arrow behind it, and they stand between the first opening brace at depth 0 behind it and the closing brace that evens it out |
| `Nesting.UpBodyFound` | scripts/release-safety-migrations.ts:505-548 | in a valid source a body is found exactly when there is one identifier up at depth 0 that follows function, or const with an arrow behind it, and an opening brace at depth 0 behind it |
| `MigrationAnalysis.BindEnclosed` | scripts/release-safety-migrations.ts:455-464 | files exactly the non-member names between a bracket and its match, and nothing else |
| `MigrationAnalysis.BindFrom` | scripts/release-safety-migrations.ts:466-501 | files exactly what one token binds by any of the rules |
| `MigrationAnalysis.CollectBindingSites` | scripts/release-safety-migrations.ts:441-503 | the map holds exactly the tokens that bind a name, under that name |
| `MigrationMeaning.BindsExactly` | scripts/release-safety-migrations.ts:429-501 | a token binds a name exactly when an = stands behind it, or it stands, not behind a dot, in a bracketed list with an arrow behind it, or it follows one of the six keywords or stands in the brackets behind that name or behind the keyword, where a bracket reaches to the first place at which those of its kind are even |
| `MigrationAnalysis.CollectStringConstants` | scripts/release-safety-migrations.ts:377-402 | the constants are exactly the names bound once, by a complete literal at module scope, with that literal |
| `MigrationAnalysis.ConstantsUnique` | scripts/release-safety-migrations.ts:377-402 | a source has one reading of its constants |
| `MigrationAnalysis.SegmentsKeepText` | scripts/release-safety-migrations.ts:567-591 | cutting a template at its placeholders loses no text |
| `MigrationAnalysis.FillTemplate` | scripts/release-safety-migrations.ts:583-591 | the substitution loop equals filling every placeholder with the constant it names, or nothing when one is unknown |
| `MigrationAnalysis.ResolveSqlArgument` | scripts/release-safety-migrations.ts:574-593 | literals stand for themselves, templates for their filled text, and text that still mentions a placeholder is refused |
| `MigrationMeaning.FillExactly` | scripts/release-safety-migrations.ts:567-591 | a template is filled exactly when every placeholder, from its first mark to the next closing brace, names a constant, and the text has the constants in their place and is otherwise the same |
| `MigrationMeaning.RawSqlExactly` | scripts/release-safety-migrations.ts:831-869 | the static SQL of a raw member is a text exactly when the first of (, ; and a comma at its own depth behind it is a bracket, one token stands behind it with a comma or a closing bracket after it, and that token is a literal with this text or a template that fills to it and mentions no placeholder then |
| `MigrationAnalysis.VisitSql` | scripts/release-safety-migrations.ts:870-914 | one raw call adds the operations of its statements and its heaviness, or rules nothing out when its text is unknown |
| `MigrationAnalysis.VisitReceiver` | scripts/release-safety-migrations.ts:759-788 | a connection used for anything but raw, or an uncalled raw, counts as unknown |
| `MigrationAnalysis.VisitToken` | scripts/release-safety-migrations.ts:724-915 | a token adds to the findings what it contributes by itself, whatever came before |
| `MigrationMeaning.TokenMeans` | scripts/release-safety-migrations.ts:632-915 | what one token contributes, by the spelled-out names of the methods: each operation, each weight as yes, perhaps or no, and each reason for incompleteness is there exactly when the token is a raw call on such SQL, a raw call on unknown SQL, a connection used otherwise or a direct call of a listed method |
| `MigrationMeaning.BodyMeans` | scripts/release-safety-migrations.ts:711-936 | the findings of a body are exactly what its tokens mean: an operation or reason is found when some token means it, a weight is yes when some token has it and no when none may |
| `MigrationAnalysis.AnalyzeMigrationSource` | scripts/release-safety-migrations.ts:672-938 | the single pass equals the sum of what the tokens of the up body contribute, weakened when the source is invalid or has no body; the rows about MigrationMeaning and AnalysisMeans say what that sum is |
| `MigrationMetadata.AnalysisMeans` | scripts/release-safety-migrations.ts:672-938 | what the analysis of any source reports is what the tokens of its up body mean when it lexes and has one, and otherwise an unknown operation, a parse failure and no weight ruled out |
| `MigrationMetadata.TokenIsSafe` | scripts/release-safety-migrations.ts:724-915 | a token contributes only safe operations exactly when a connection at it reaches raw and a raw member at it runs static SQL, in the sense of RawSqlExactly, whose statements all set a timeout, create a schema or are of another of the seven listed kinds |
| `MigrationMetadata.BodyIsSafe` | scripts/release-safety-migrations.ts:724-915 | the operations of a body are all safe exactly when its connections are only used for raw and raw only for such SQL |
| `MigrationMetadata.SafeOperationsMeanUnderstood` | scripts/release-safety-migrations.ts:672-938 | the operations found are all safe exactly when the source lexes, its up body is found in the sense of UpBodyExactly and that body runs only such SQL |
| `MigrationMetadata.UnreadSourceIsNotLight` | scripts/release-safety-migrations.ts:700-709 | a source with a parse failure is incomplete and claims to be light in no respect |
| `MigrationMetadata.ReadMigrationMetadata` | scripts/release-safety-migrations.ts:947-990 | the loop collects the operations of all files, and completeness unless a file is unreadable or incomplete without its own classification |
| `MigrationMetadata.SafeMetadataMeansUnderstood` | scripts/release-safety-migrations.ts:947-990 | the operations of a release are all safe exactly when every added file is readable and understood |
| `MigrationMetadata.SafeVerdictIsUnderstood` | scripts/gen-release-safety.ts:225-247 | a safe verdict without review on a release with migrations means every one of them was read to the end, has one up body, uses its connections only for raw, and calls raw only on one literal or filled template as the whole first argument whose statements are all of the seven safe kinds |
| `CommentMask.MaskLineComment` | scripts/sql-migration-lint.ts:339-345 | the loop blanks a line comment up to its line break |
| `CommentMask.MaskBlockComment` | scripts/sql-migration-lint.ts:346-358 | the loop blanks a block comment up to its first closing mark and keeps line breaks |
| `CommentMask.MaskComments` | scripts/sql-migration-lint.ts:316-363 | the single pass computes the masking that the next two rows are about |
| `CommentMask.MaskKeepsPositions` | scripts/sql-migration-lint.ts:316-363 | masking keeps the length and every line break, and turns exactly the characters of comments into blanks, where what is a comment is said one character at a time; every other character stays |
| `CommentMask.MaskIdempotent` | scripts/sql-migration-lint.ts:316-363 | masked text has no comments: masking it again changes nothing |
| `RawCalls.MatchingDelimiter` | scripts/sql-migration-lint.ts:371-395 | the loop returns the first closer in code, outside literals, at which the delimiter is balanced, or nothing when there is none |
| `RawCalls.MatchUnique` | scripts/sql-migration-lint.ts:371-395 | there is one such position |
| `RawCalls.CodeAfterCall` | scripts/sql-migration-lint.ts:419-449 | behind a raw call found from code the text is in code again, so the scan may go on without a quote state |
| `RawCalls.MaskedModes` | scripts/sql-migration-lint.ts:316-395 | reading the masked text, every character stands in the literal, escape or code where it stands in the original, and comments are code |
| `RawCalls.MaskedPartner` | scripts/sql-migration-lint.ts:365-395 | matching in the masked text finds exactly the bracket partner in the code of the original |
| `RawCalls.MaskedCalls` | scripts/sql-migration-lint.ts:397-449 | the calls of the masked code are exactly the raw calls of the original, comments and blanks between their parts included |
| `RawCalls.CallFrom` | scripts/sql-migration-lint.ts:415-449 | a call is reported at a position exactly when a raw call of the masked code stands there |
| `RawCalls.FindRawCalls` | scripts/sql-migration-lint.ts:397-452 | the calls are in order and disjoint; each is a raw call of the original, whose brackets are partners among the brackets of its code, outside literals and comments, with the text between them as argument; and every raw call of the original is listed or lies in a listed one |
| `Versions.CompareIsTotalOrder` | scripts/expand-version.ts:40-48 | comparison is antisymmetric and transitive, and ties only equal versions |
| `Versions.BeforeByComponents` | scripts/expand-version.ts:40-48 | a version is before another exactly when its major number is smaller, or that is equal and the minor is, or both are and the patch is |
| `Versions.CompareVersions` | scripts/expand-version.ts:40-48 | the component loop computes that comparison |
| `Versions.SelectFloor` | scripts/expand-version.ts:58-67 | the floor is the oldest tag of the longest prefix in which the object is absent, and nothing when it is present in the first or there is none |
| `Versions.FloorUnique` | scripts/expand-version.ts:58-67 | there is one such floor |
| `Versions.FindExpandFloor` | scripts/expand-version.ts:115-139 | the youngest of the objects' floors is the floor of one search for the presence of any of them; too short names are not searched |
| `UpgradeOverrides.ImposedAreFloors` | scripts/upgrade-overrides.ts:103-121 | the floors of a version are exactly what a default, an entry at or before it or a required stop before it imposes |
| `UpgradeOverrides.CarriedUpgradeFloor` | scripts/upgrade-overrides.ts:122-152 | the loop returns the highest floor imposed on the version, with the first declaration in the file that imposes it, or nothing when none is imposed |
| `UpgradeOverrides.RequiredStopsUpTo` | scripts/upgrade-overrides.ts:163-175 | the stops are exactly the declared ones at or before the version, ascending |
| `UpgradeOverrides.ResolvedExactly` | scripts/upgrade-overrides.ts:71-91 | a release has a declared floor or stop exactly when its own entry gives it, or does not mention that field and the default gives it; a null in the entry hides the default |
| `UpgradeOverrides.StopsAreFloors` | scripts/upgrade-overrides.ts:142-175 | every listed stop before a version is no higher than its carried floor |
| `UpgradeOverrides.OverridesFile.RecordDerivedFloor` | scripts/upgrade-overrides.ts:271-298 | writes exactly when the entry of the release has no floor; then it has this one, keeps its stop and a note it had, and the default and the other entries are as before; otherwise the file is as before |
| `UpgradeOverrides.RecordedKeeps` | scripts/upgrade-overrides.ts:265-270 | recording keeps every declaration that can become a floor |
| `UpgradeOverrides.FloorsGrow` | scripts/upgrade-overrides.ts:108-116 | what binds a release binds every later release of a file that kept it |
| `Marker.RollingUpdateVerdict` | scripts/gen-release-safety.ts:330-355 | the sequence of overwriting assignments equals an order of precedence in which the first applicable line decides |
| `Marker.AiCannotOverrule` | scripts/gen-release-safety.ts:343-355 | whatever a review says, a declared break or a checked configuration break is unsafe, and otherwise a metadata flag that is false makes the verdict unknown |
| `Marker.UnsafeExactly` | scripts/gen-release-safety.ts:299-355 | a verdict is unsafe exactly on a declared or a checked configuration break, or, unless a metadata flag is false, when a definite review of something to review says so, or without one when the lint of a release with migrations ran and broke |
| `Marker.SafeWithReview` | scripts/gen-release-safety.ts:330-355 | with a definite review of migrations or of an API break a verdict is safe exactly when the review says so, nothing declared or configured breaks and no metadata flag is false; otherwise on that same evidence |
| `Marker.SafeExactly` | scripts/gen-release-safety.ts:225-355 | without a review a verdict is safe exactly, field by field, on one of two kinds of evidence: migrations with both metadata flags true, REST, MCP and configuration each checked and not breaking, nothing declared, no lint that ran and broke, and at least one operation, all of the seven listed kinds; or no migrations, no metadata flag false, nothing declared, and all three checked and none found to break |
| `Marker.WorseEvidenceNeverSafer` | scripts/gen-release-safety.ts:299-355 | losing a check or metadata, or gaining a break, never turns another verdict into a safe one |
| `Marker.MinPrevious` | scripts/gen-release-safety.ts:364-377 | the floor is no lower than the carried one nor than the declared or own one, and is one of them |
| `Marker.OwnFloorExactly` | scripts/gen-release-safety.ts:259-292 | a release has a floor of its own exactly when it has migrations, the lint ran and broke and the review cleared it: the expand floor that was found, or else the previous release |
| `Marker.BuildMarker` | scripts/gen-release-safety.ts:299-390 | the marker carries the verdict, the matching strategy, the raised floor and the ascending required stops, with the release itself when a declared break asks for it |
| `Marker.CutRelease` | scripts/gen-release-safety.ts:855-880 | a release publishes its marker, floor and listed stops, from the overrides it finds and then records its own floor in them |
| `Marker.FloorsNeverDrop` | scripts/gen-release-safety.ts:357-377 | over any run of releases in version order the advertised floor never decreases |
| `Marker.RecordedFloorsBind` | scripts/gen-release-safety.ts:862-874 | no floor recorded by an earlier release of the run is above what a later one advertises |
| `Marker.AcceptedBefore` | scripts/upgrade-overrides.ts:103-121 | a source that the target's marker accepts is accepted by the marker of every release before it in the run |
| `Marker.MarkedStopsStay` | scripts/gen-release-safety.ts:862-874 | over a run, recording never changes which versions the overrides mark as stops |
| `Marker.OnlyPastExactly` | scripts/gen-release-safety.ts:364-377 | a marker accepts only sources past a version exactly when its floor is no lower, or the version is 0.0.0 |
| `Marker.StopsOnTheWay` | scripts/gen-release-safety.ts:379-388 | the stops that the markers of a run list on the way to a release are exactly those that the overrides mark before it and those that earlier releases declare with a break |
| `Marker.OneMarkerSuffices` | scripts/gen-release-safety.ts:821-823 | every source that the target's marker accepts is past every stop on the way exactly when the marker's floor is no lower than each stop that an earlier release of the run declares with a break, 0.0.0 aside |
| `Marker.DeclaredStopListedLater` | scripts/upgrade-overrides.ts:156-175 | a later marker lists a stop that an earlier release declared with a break exactly when the overrides mark it as well |
| `Marker.DeclaredStopIsLost` | scripts/gen-release-safety.ts:379-388 | a concrete run of two releases whose second marker neither lists the stop of the first nor keeps an older source from skipping it |
| `Marker.PersistedIsAdvertisedExactly` | scripts/gen-release-safety.ts:259-292 | the recorded and the advertised floor of a release are equal exactly when a floor held already is the highest that binds it, or else its own floor is, or nothing is declared and its own is at least as high |
| `Marker.PersistedIsHonouredExactly` | scripts/gen-release-safety.ts:259-292 | the recorded floor is no higher than the advertised one exactly when nothing was declared, the file already held a floor for the release, or what is carried is as high |
| `Marker.PersistedCanFallBelowAdvertised` | scripts/gen-release-safety.ts:364-377 | a concrete file without default and a release that records 0.3.0 and advertises 0.4.0 |
| `Marker.PersistedCanExceedAdvertised` | scripts/gen-release-safety.ts:364-369 | a concrete default and release for which the recorded floor is above the advertised one |
| `JsonSchema.CountIsOne` | scripts/json-schema-lite.ts:146-153 | counting the matching alternatives to one means exactly one matches |
| `JsonSchema.CountMatches` | scripts/json-schema-lite.ts:146-149 | the filter counts exactly the alternatives the value satisfies |
| `JsonSchema.CheckPlain` | scripts/json-schema-lite.ts:163-181 | const, enum, minimum and required report nothing exactly when the value equals const, equals some entry of enum, is no number below minimum, and is an object with every required member or no object; and every report points at a place in the value |
| `JsonSchema.TypesExactly` | scripts/json-schema-lite.ts:92-134 | a value passes the type keyword exactly when it is missing or one of the listed types is the value's, an integer also being a number |
| `JsonSchema.ValidateNode` | scripts/json-schema-lite.ts:135-208 | on every value and schema whose walk ends, the walk reports nothing exactly when the value satisfies the schema, every problem points into the value, and no error is thrown when every reference names a definition |
| `JsonSchema.ValidateAgainstSchema` | scripts/json-schema-lite.ts:210-218 | the same for a value and a root schema |
| `JsonSchema.EveryWalkEndsIff` | scripts/json-schema-lite.ts:125-143 | the walks from all definitions over all values end exactly when no definition leads back to itself by references and oneOf alone, without entering the data |
| `JsonSchema.CircleNeverEnds` | scripts/json-schema-lite.ts:135-143 | from a definition on such a circle no walk ends, whatever the value |
| `JsonSchema.GuardedIffNoCycle` | scripts/json-schema-lite.ts:125-143 | the definitions within reach of a schema can be ranked, each above what it reaches without entering the data, exactly when there is no such circle among them |
| `JsonSchema.WalkEnds` | scripts/json-schema-lite.ts:125-208 | without such a circle within reach of a schema the walk over every value ends |
| `JsonSchema.MeaningIsUnique` | scripts/json-schema-lite.ts:135-208 | whether a value satisfies a schema does not depend on the number of levels that its walk is given |
| `JsonSchema.ScalarsAgree` | scripts/json-schema-lite.ts:163-168 | when const and enum hold only scalars the validator accepts exactly what draft-07 accepts |
| `JsonSchema.EqualIsSameValue` | scripts/json-schema-lite.ts:163-168 | the equality that draft-07 asks for is sameness of values whose objects are tables from keys to values, for all values without repeated keys |
| `JsonSchema.ComparedAsDraft07Exactly` | scripts/json-schema-lite.ts:163-168 | an entry is compared as draft-07 asks, by value and with object members in any order, for all values, exactly when it is a scalar |
| `JsonText.LoadsDumps` | examples/upgrade-automation/scripts/bump-target.py:58-66 | a string dumped as JSON is loaded back as it was |
| `ScalarMeaning.LoadsExactly` | examples/upgrade-automation/scripts/bump-target.py:58-66 | a double-quoted literal is read as a text exactly when it spells it character by character, as itself, by one of the eight escape letters, by four hexadecimal digits or by a surrogate pair, up to one quote at its end |
| `YamlScalar.FindClosingQuote` | examples/upgrade-automation/scripts/bump-target.py:36-55 | the loops find the closing quote: not doubled in a single-quoted scalar, behind an even number of backslashes in a double-quoted one |
| `YamlScalar.YamlScalarParts` | examples/upgrade-automation/scripts/bump-target.py:32-73 | a scalar is split into value, quote and trailing text in any of the three styles, or refused |
| `ScalarMeaning.ScalarExactly` | examples/upgrade-automation/scripts/bump-target.py:32-73 | a scalar is taken apart exactly so: without white space around it, in double quotes up to the first quote behind an even run of backslashes, in single quotes up to the end of the first odd run of quotes, where the text between has each quote doubled, and plain up to white space that leads to a hash; what follows is kept |
| `ScalarMeaning.ScalarFailsExactly` | examples/upgrade-automation/scripts/bump-target.py:32-73 | a scalar is refused exactly when there is none, no quote closes it and it does not end in one, or the literal in double quotes spells no text, with the error for each |
| `YamlScalar.ReadLeavesTrailing` | examples/upgrade-automation/scripts/bump-target.py:56-73 | what reading leaves behind a scalar may follow another scalar of the same style |
| `YamlScalar.RenderedReadsBack` | examples/upgrade-automation/scripts/bump-target.py:115-137 | a rendered replacement is read back as itself, whatever may follow it, in all three styles |
| `ScalarMeaning.RenderExactly` | examples/upgrade-automation/scripts/bump-target.py:112-127 | a replacement is refused exactly when it holds a line break, or has to be plain and is no token of letters, digits and the marks . _ + - that starts with a letter or digit; otherwise it is written as a JSON string, with its quotes doubled, or as it is |
| `YamlEditor.MatchPrints` | examples/upgrade-automation/scripts/bump-target.py:78-98 | a matched line is its indentation, quote, key, quote, colon, space and value put back together |
| `YamlLines.MatchExactly` | examples/upgrade-automation/scripts/bump-target.py:78-98 | a line is taken apart exactly into blanks, a key without quotes and colons between two equal quotes or none, a colon, blanks and the rest, with the longest indentation and spacing for which this is possible |
| `YamlLines.RowExactly` | examples/upgrade-automation/scripts/bump-target.py:81-103 | what the scan sees of a line: its text without line breaks at the end, where its first character stands, and, unless that is a hash, its key without white space around it and whether its value is empty, the mark of a block scalar or a scalar |
| `YamlEditor.MatchReplaced` | examples/upgrade-automation/scripts/bump-target.py:128-138 | a line rebuilt with another value matches with the same indentation, key and spacing |
| `YamlEditor.ScansAgree` | examples/upgrade-automation/scripts/bump-target.py:76-111 | scans for two paths walk through the same enclosing keys and block scalars as long as neither fails |
| `YamlPaths.Stands` | examples/upgrade-automation/scripts/bump-target.py:81-97 | before every line the stack holds exactly the keys above that opened a level and were not left by a key indented as little, and a block scalar is open exactly when all lines since its key are blank or deeper |
| `YamlPaths.PathExactly` | examples/upgrade-automation/scripts/bump-target.py:93-97 | the path of a line with a key is the keys of exactly the lines that enclose it, those that open a level, are indented less, and behind which no key stands with an indentation at or below theirs, in order, and then its own |
| `YamlPaths.ReadExactly` | examples/upgrade-automation/scripts/bump-target.py:76-111 | a path is read as a value exactly when one line is at it, by indentation alone, and holds that value |
| `YamlPaths.ReadFailsExactly` | examples/upgrade-automation/scripts/bump-target.py:98-111 | reading fails as not found exactly when no line is at the path, and otherwise with what the first line that cannot be read, or the second at the path, is refused for |
| `YamlEditor.WriteThenRead` | examples/upgrade-automation/scripts/bump-target.py:76-139 | after a replacement was written the path reads as the replacement, every other path reads as before, errors included, and at most one line differs |
| `YamlWrites.WriteExactly` | examples/upgrade-automation/scripts/bump-target.py:112-139 | writing changes only the one line at the path, and in it only the text of the scalar, which becomes the replacement in the same style: indentation, quotes, key, spacing, what follows the scalar and the line break stay |
| `YamlWrites.WriteFailsExactly` | examples/upgrade-automation/scripts/bump-target.py:112-127 | writing fails exactly when reading does, with that error, or when the replacement cannot be written in the style of the scalar at the path |
| `YamlEditor.VisitEntry` | examples/upgrade-automation/scripts/bump-target.py:93-111 | a line with a key pops the stack and either is the match, with the errors a match can have, or opens a block scalar or a level, or is passed |
| `YamlEditor.VisitLine` | examples/upgrade-automation/scripts/bump-target.py:81-111 | one line moves the stack, the open block scalar and the match as the scan over its row does |
| `YamlEditor.FindYamlValue` | examples/upgrade-automation/scripts/bump-target.py:76-139 | the loop over the array returns the value at the path and leaves the lines that the rows about ReadExactly and WriteExactly describe; on any error the array is as before |
| `WindowSql.AssertKnownReferences` | packages/backend/src/queryCompiler.ts:239-276 | no error is reported exactly when every reference is safe to quote and known, and the error is that of the first one that holds a double quote, a backtick or a backslash, or is not known |
| `WindowSql.CompileWindowFunctionTemplate` | packages/backend/src/tableCalculationTemplateQueryCompiler.ts:12-152 | the clauses pushed one by one and joined are the text that the next two rows are about, with the same errors |
| `WindowSql.CompileFailsExactly` | packages/backend/src/tableCalculationTemplateQueryCompiler.ts:25-137 | compiling fails for a field exactly when a sum, average, count, minimum or maximum has none, and otherwise for an offset exactly when a boundary of the frame that counts rows has none |
| `WindowSql.BoundaryReads` | packages/backend/src/tableCalculationTemplateQueryCompiler.ts:109-137 | every frame boundary is read back with its direction and offset |
| `WindowSql.WindowReads` | packages/backend/src/tableCalculationTemplateQueryCompiler.ts:84-151 | any partition list, order list and frame, present or absent, is read back from between the brackets of OVER |
| `WindowSql.CompiledReadsBack` | packages/backend/src/tableCalculationTemplateQueryCompiler.ts:12-152 | the text of a template whose references pass the guard is read, by a reader of delimited identifiers with its own list of SQL function names, as exactly the function asked for, its field, the partition columns, the order columns, a binned one as its id followed by _order, each descending exactly when asked for, and the frame |
| `WindowSql.SameTextSameCall` | packages/backend/src/tableCalculationTemplateQueryCompiler.ts:12-152 | templates that compile to the same text have the same function, argument, partition, order columns, directions and frame |
| `Declarations.CheckKept` | scripts/release-safety-declarations.ts:223-247 | reports nothing exactly when every base entry is still there with reason, stop, migration and a released version unchanged, and reports each removal and each change |
| `Declarations.KeepsExactly` | scripts/release-safety-declarations.ts:204-247 | an entry is unchanged exactly when it is the same, or was unreleased and only its release differs |
| `Declarations.IndexContents` | scripts/release-safety-declarations.ts:249-258 | the content map holds every content of the base with an id that has it |
| `Declarations.CollectAdded` | scripts/release-safety-declarations.ts:259-277 | a new id is added, once and with its entry, exactly when no base entry has its content; otherwise a true duplicate of it is reported |
| `Declarations.DiffBreakingChangeDeclarations` | scripts/release-safety-declarations.ts:212-279 | the diff is silent exactly on sound registries with a clean step between them, every diagnostic is deserved and every removal, change and duplicate has its diagnostic, and what is added is listed in the order of the locale |
| `Declarations.CleanEndToEnd` | scripts/release-safety-declarations.ts:212-279 | a chain of clean steps is clean from end to end |
| `Declarations.AddedOnceSomewhere` | scripts/release-safety-declarations.ts:259-277 | the end-to-end diff adds exactly what some step added, and each id at one step only |
| `Declarations.DeclarationsStand` | scripts/release-safety-declarations.ts:204-247 | an entry keeps its reason, stop, migration and release along a clean chain |
| `Declarations.CleanIffBornTogether` | scripts/release-safety-declarations.ts:249-277 | along a chain that removes and changes nothing all steps are clean exactly when equal declarations were made in the same release |
| `Declarations.EndToEndMissesARepeat` | scripts/release-safety-declarations.ts:249-277 | three concrete registries whose end-to-end diff is clean although a step repeats a declaration |
| `ReleaseIndex.UpdateReleaseSafetyIndex` | scripts/release-safety-index.ts:70-109 | the map built step by step gives the listing of the updated table, strictly ascending with one entry per version |
| `ReleaseIndex.UpdateExactly` | scripts/release-safety-index.ts:70-109 | an updated index lists exactly the last entry of each version among the old and the new ones, as it is, or, for the floor asked for or else standing, with that floor as its first required stop, the others once each in their order, and marked as synthetic |
| `ReleaseIndex.AppendExactly` | scripts/release-safety-index.ts:36-68 | an appended marker is listed with its own versions and facts and the backfilled flag it was given |
| `ReleaseIndex.ListedTable` | scripts/release-safety-index.ts:105-107 | a listing is ascending and holds exactly the table |
| `ReleaseIndex.StampAddsTheStop` | scripts/release-safety-index.ts:85-100 | the stamped floor entry lists the floor first, no stop twice, and every stop it had |
| `ReleaseIndex.UpdatesJoin` | scripts/release-safety-index.ts:70-109 | two updates are one update with both lists of entries |
| `ReleaseIndex.UpdateIdempotent` | scripts/release-safety-index.ts:70-109 | repeating an update changes nothing, the synthetic required stop included |
| `ReleaseIndex.UpdatesCommute` | scripts/release-safety-index.ts:70-109 | updates for different versions may come in either order |
| `ReleaseIndex.IndexFile.AppendReleaseSafetyMarker` | scripts/release-safety-index.ts:55-68 | the file afterwards is the update of the file before with the marker's entry |
| `ReleaseIndex.IndexFile.FillRange` | scripts/backfill-release-safety-index.ts:62-122 | the loop that reloads the file, skips present releases and appends missing ones leaves the file that the rows below are about |
| `ReleaseIndex.IndexFile.Backfill` | scripts/backfill-release-safety-index.ts:36-122 | refuses a floor without predecessor and a target before the floor without touching the file, and otherwise fills the range |
| `ReleaseIndex.BackfillCovers` | scripts/backfill-release-safety-index.ts:62-115 | afterwards the file lists exactly the releases it listed and those of the range |
| `ReleaseIndex.CheckedExactly` | scripts/backfill-release-safety-index.ts:45-57 | a backfill is refused exactly when the floor is no tag or the first one, or the last tag asked for is none or stands before the floor; otherwise the range goes from the one to the other |
| `ReleaseIndex.BackfillAdds` | scripts/backfill-release-safety-index.ts:62-110 | every release of the range that was missing is listed with the tag before it as its predecessor and what was made for these two, as backfilled; only the entries of the floor asked for and of 0.1893.0 get a stop in addition |
| `ReleaseIndex.BackfillResumes` | scripts/backfill-release-safety-index.ts:62-122 | however often and wherever the loop was interrupted, running it to the end gives what one run gives |
| `ReleaseIndex.BackfillTwice` | scripts/backfill-release-safety-index.ts:62-122 | running it again after it finished changes nothing |
| `ReleaseIndex.BackfillKeeps` | scripts/backfill-release-safety-index.ts:62-122 | an existing entry other than the floor's stays as it was, except that the generator's own standing floor is stamped too when it generates a marker |
| `ReleaseIndex.BackfillLeavesOthersAlone` | scripts/backfill-release-safety-index.ts:37-122 | all existing entries but the floor's are unaltered exactly when the standing floor is the floor asked for, is not listed, is stamped already, or no missing release gets a generated marker |
| `ReleaseIndex.BackfillAltersAnother` | scripts/backfill-release-safety-index.ts:62-84 | a concrete backfill from 0.1900.0 that gives the listed entry of 0.1893.0 a required stop |
| `OwnerText.SpliceIsSubstitution` | scripts/release-safety-config-diff.ts:638-641 | replacing from right to left equals replacing everything at once when the ranges are in range and separate |
| `OwnerText.DisjointSeparate` | scripts/release-safety-config-diff.ts:616-641 | disjoint ranges in any order are sorted into separate ones, so the loop replaces them all at once |
| `OwnerText.NormalizedOwnerText` | scripts/release-safety-config-diff.ts:608-643 | the loops compute the tidied splice of the owner's text with its usages' replacements by falling start |
| `OwnerText.OwnerTextOfShape` | scripts/release-safety-config-diff.ts:608-643 | in whatever order the usages come, an owner whose usages report the holes of a shape has that shape's normalized text |
| `OwnerText.TidyKeepsInk` | scripts/release-safety-config-diff.ts:642 | squeezing and trimming white space keeps the number of other characters |
| `OwnerText.TidyIsWords` | scripts/release-safety-config-diff.ts:642 | squeezing and trimming white space leaves the words of the text with one blank between them |
| `OwnerText.SpliceByShape` | scripts/release-safety-config-diff.ts:638-641 | replacing ranges that are apart or the same goes hole by hole over the pieces of the text between them |
| `OwnerText.ShorterShows` | scripts/release-safety-config-diff.ts:638-642 | when a value that is replaced more than once is shorter and none is longer, more is left of the markers and the tidied texts differ |
| `ConfigUsages.CollectReferences` | scripts/release-safety-config-diff.ts:541-592 | the loop collects the references to variables, read from the environment or handed to a helper, in the order of their tokens |
| `UsageMeaning.ReferencesExactly` | scripts/release-safety-config-diff.ts:541-592 | a reference is collected exactly when the tokens spell process.env.NAME, process.env['NAME'] or the name of a helper that holds EnvironmentVariable, a bracket and a quoted name, with the name in upper case |
| `ConfigUsages.FindDefault` | scripts/release-safety-config-diff.ts:398-423 | the loop computes the search whose result the next row spells out |
| `UsageMeaning.FoundExactly` | scripts/release-safety-config-diff.ts:398-423 | the default behind a reference is a span exactly when one of the eleven tokens behind it is ?? or two bars with this literal, or sign and number, behind it, and none before it is an operator other than !, ?, < and >, or a comma, semicolon or opening brace no deeper than the reference |
| `UsageMeaning.ArgumentExactly` | scripts/release-safety-config-diff.ts:425-442 | the default of a helper's name is a span exactly when a comma stands behind the name, this literal behind the comma and a comma or closing bracket behind that |
| `UsageMeaning.DefaultExactly` | scripts/release-safety-config-diff.ts:562-592 | a helper's default is its second argument when that is a literal, and every other default is found behind the reference |
| `ConfigUsages.FindDefaultOf` | scripts/release-safety-config-diff.ts:425-442 | a helper's second argument is the default when it is a literal alone, and otherwise the search behind the reference decides |
| `ConfigUsages.FindOwnerRange` | scripts/release-safety-config-diff.ts:444-529 | the loops compute the range that the next row spells out |
| `UsageMeaning.OwnerExactly` | scripts/release-safety-config-diff.ts:444-529 | the owner of a reference is, by position: when the last declaration keyword, semicolon or enclosing brace before it is no keyword and a colon stands behind the last comma, semicolon or enclosing brace, what is between that one and the next comma or closing brace; and otherwise what is behind the keyword or that mark, up to the next semicolon or comma of the owner's depth |
| `ConfigUsages.CollectUsages` | scripts/release-safety-config-diff.ts:531-606 | every reference is listed with its default and its owner, as the next row says |
| `UsageMeaning.UsagesExactly` | scripts/release-safety-config-diff.ts:531-606 | the usages are one for each reference that the tokens spell, in order, with the default and the owner that the rows above spell out |
| `UsageTwins.UsagesStay` | scripts/release-safety-config-diff.ts:531-606 | token lists that differ only in names and literals, where a literal keeps its sign or its lack of one, have the same usages: the same names, defaults and owners, token by token |
| `SourceWords.TextIsWords` | scripts/release-safety-config-diff.ts:157-337 | a source is its tokens' texts with the gaps in front of them and what follows the last one |
| `SourceWords.TokenizedLie` | scripts/release-safety-config-diff.ts:157-337 | so is every source that the tokenizer reads |
| `SourceWords.SimpleWordsAreTokens` | scripts/release-safety-config-diff.ts:157-337 | a text spelled by simple words, with brackets matched and depths recorded, is tokenized into these words |
| `OwnerHoles.ReplacementsArePlaced` | scripts/release-safety-config-diff.ts:613-635 | what is replaced in an owner's text is the name of each usage whose name token is one of the owner's, and its default |
| `OwnerHoles.ReferencesDiffer` | scripts/release-safety-config-diff.ts:541-592 | no two references share a name token |
| `OwnerHoles.OwnerHolesSound` | scripts/release-safety-config-diff.ts:362-442 | a name is one token behind a dot or a bracket, and a default one literal, or a sign and a number, behind a fallback operator or a comma |
| `OwnerHoles.HolesApart` | scripts/release-safety-config-diff.ts:362-442 | so two of them are the same or share no token |
| `OwnerHoles.SortPlaced` | scripts/release-safety-config-diff.ts:636 | sorting the replacements by position is sorting the names and defaults by their tokens |
| `MarkedText.NormalizeOwner` | scripts/release-safety-config-diff.ts:608-643 | the usages of the tokens, replaced in the owner's range of the source and tidied |
| `MarkedText.SubstitutedIsMarked` | scripts/release-safety-config-diff.ts:638-641 | replacing at once the names and defaults in front of a word gives the words with a marker for each |
| `OwnerTails.NormalizedByTail` | scripts/release-safety-config-diff.ts:608-643 | defaults found behind the owner's end only add a tail to its text, before what is inside is replaced |
| `OwnerTails.NormalizedIsMarked` | scripts/release-safety-config-diff.ts:608-643 | when nothing in the owner is reported twice its normalized text is its words with a marker for each name and default, the tail behind them, tidied |
| `OwnerTails.RoomyTail` | scripts/release-safety-config-diff.ts:638-641 | when the first default behind the end, however short, ends behind the markers of the others, the tail is these markers and does not depend on the defaults |
| `OwnerTwins.TwinsShareHoles` | scripts/release-safety-config-diff.ts:531-635 | sources that differ only in the names and defaults of an owner have the same names and defaults there |
| `OwnerTwins.TwinsReadAlike` | scripts/release-safety-config-diff.ts:608-643 | when each value is replaced once such sources have the same normalized text |
| `OwnerSamples.RepeatShows` | scripts/release-safety-config-diff.ts:608-643 | a default of the owner that is reported twice gives such sources with different texts |
| `OwnerSamples.NoRoomShows` | scripts/release-safety-config-diff.ts:608-643 | defaults behind the end without that room do so as well |
| `OwnerSamples.NormalizedTextIgnoresValues` | scripts/release-safety-config-diff.ts:608-643 | a source has the same normalized text for an owner as all sources that differ from it only in the owner's names and defaults exactly when nothing in the owner is reported twice and there is room for the defaults behind its end |
| `OwnerExamples.ConditionalTokenized` | scripts/release-safety-config-diff.ts:157-337 | the words of the conditional are its tokens, for every number as default |
| `OwnerExamples.ConditionalSpelled` | scripts/release-safety-config-diff.ts:157-337 | and they spell it, whatever the number |
| `OwnerExamples.TwoNamesShareADefault` | scripts/release-safety-config-diff.ts:398-423 | in that conditional both variables find the number as their default |
| `OwnerExamples.SharedDefaultShows` | scripts/release-safety-config-diff.ts:608-643 | numbers of different lengths, up to that of a marker, give that conditional different normalized texts |
| `OwnerExamples.CallTokenized` | scripts/release-safety-config-diff.ts:157-337 | the words of the helper call are its tokens, with and without a sign |
| `OwnerExamples.CallSpelled` | scripts/release-safety-config-diff.ts:157-337 | and they spell it, with 5 or -5 |
| `OwnerExamples.SignEndsSearch` | scripts/release-safety-config-diff.ts:398-442 | in that call the argument is the default of B, and 7 is the default of A unless there is a sign |
| `OwnerExamples.NormalizedCall` | scripts/release-safety-config-diff.ts:608-643 | the text that is left of the call in both cases, before white space is tidied |
| `OwnerExamples.SignShows` | scripts/release-safety-config-diff.ts:608-643 | the two normalized texts differ although in both each value is replaced once |
| `ConfigDiff.GroupedBySignature` | scripts/release-safety-config-diff.ts:717-727 | each signature is mapped to exactly the names that have it, each once |
| `ConfigDiff.FindNewName` | scripts/release-safety-config-diff.ts:748-756 | a new name is found exactly when both names are alone with their common signature and the new one is fresh |
| `ConfigDiff.ChangeOf` | scripts/release-safety-config-diff.ts:737-774 | the change of one old variable is exactly the one that happened to it, if any |
| `ConfigDiff.DiffConfigSurfaces` | scripts/release-safety-config-diff.ts:729-784 | the changes are exactly what happened, one per old variable; of two the one stands first whose old name the locale has first, or whose kind, or whose old name has the lower character where the two first differ; and breaking means there is one |
| `ConfigDiff.MissingNameHasOneChange` | scripts/release-safety-config-diff.ts:748-774 | an old name that is missing has exactly one change, removed or renamed |
| `ConfigDiff.RenamesAreOneToOne` | scripts/release-safety-config-diff.ts:750-763 | two old names never get one new name, nor one old name two |
| `ConfigDiff.ReversedRenames` | scripts/release-safety-config-diff.ts:729-784 | the renames of the reversed diff are exactly the inverse pairs |
| `ConfigDiff.NothingHappened` | scripts/release-safety-config-diff.ts:737-747 | there is no change exactly when every old variable is still there with its default |
| `ConfigDiff.RelabellingIsFound` | scripts/release-safety-config-diff.ts:748-763 | when every variable is renamed and they are told apart by their use, the changes are exactly those renames |
| `TourOrder.LeansOn` | scripts/scope-tours/order.ts:161-185 | a page leans on exactly the pages that pass the test for it |
| `TourOrder.LeaningIsOneWay` | scripts/scope-tours/order.ts:171-180 | no two pages lean on each other |
| `TourOrder.TwoTopicsSettle` | scripts/scope-tours/order.ts:161-185 | the leanings between two topics have no cycle |
| `TourOrder.ThreeTopicsMayCircle` | scripts/scope-tours/order.ts:171-180 | three pages can lean on each other in a ring |
| `TourOrder.Topics` | scripts/scope-tours/order.ts:198-199 | the topics are the pages the modules cite, each once |
| `TourOrder.PickNext` | scripts/scope-tours/order.ts:204-218 | the topic placed next waits for no more of the topics still to be placed than any other, and among those that wait for as many its shortest lesson is shorter, or as short and its name comes no later |
| `TourOrder.OrderTopics` | scripts/scope-tours/order.ts:200-221 | the loop ends with every topic placed once, each by the greedy choice among those left |
| `TourOrder.AcyclicIsRespected` | scripts/scope-tours/order.ts:200-221 | when the leanings among the topics have no cycle every topic stands behind the topics it leans on |
| `TourOrder.RespectedIsAcyclic` | scripts/scope-tours/order.ts:200-221 | an order that respects the leanings exists only without a cycle |
| `TourOrder.ArrangeLessons` | scripts/scope-tours/order.ts:193-237 | the lessons are laid out topic by topic in a greedy order of the topics |
| `TourOrder.OrderWithin` | scripts/scope-tours/order.ts:193-237 | the result is a permutation of the modules; lessons of one page stand together, by the place of their headings, then length, then title; and every lesson stands behind those of the pages that the docs have in front of its own exactly when the pages of the section form no ring |
| `TourPaths.PathReadsBack` | scripts/scope-tours/lib.ts:108-119 | a written path is parsed back into its hops, optional marks included, whatever its selectors, as long as they are trimmed, hold no separator and do not end in the beginning of one |
| `TourPaths.ParseExactly` | scripts/scope-tours/lib.ts:108-119 | any attribute reads as the hops of its parts, cut at each separator from the left, each part without the white space around it and without a question mark at its end, which makes it optional; none or an empty one reads as no hops |
| `TourPaths.Trailing` | scripts/scope-tours/lib.ts:631-638 | the loop returns exactly the optional hops behind the last required one |
| `TourPaths.PathSteps` | scripts/scope-tours/lib.ts:639-665 | the loop with its pending list yields the steps that the next two rows are about |
| `TourPaths.PathIsWalked` | scripts/scope-tours/lib.ts:627-665 | each step's detours then its control, followed by the trailing hops, is the path |
| `TourPaths.PathLooksStand` | scripts/scope-tours/lib.ts:639-665 | among the steps of a path each control is followed by exactly the looks of its selector, in order, and there are no others |
| `TourPaths.StepsFallBack` | scripts/scope-tours/lib.ts:659 | a step falls back to exactly the required hops before it |
| `TourPaths.ClosedPath` | scripts/scope-tours/lib.ts:668-676 | a path is refused exactly when it is not empty and its last hop is optional, and is parsed otherwise |
| `TourPaths.BuildSteps` | scripts/scope-tours/lib.ts:677-742 | assembling the markers, the way back, the result and its looks gives the walkthrough of the next rows, or the refusal |
| `TourPaths.HomeExactly` | scripts/scope-tours/lib.ts:707-714 | the way back is nothing for the word none, the home button without a return path, and otherwise that path, refused when it ends on an optional hop |
| `TourPaths.MarkerIsWalked` | scripts/scope-tours/lib.ts:677-704 | a marker's steps walk its path, its own control and the clicks behind it, in order |
| `TourPaths.TourIsWalked` | scripts/scope-tours/lib.ts:677-742 | a whole walkthrough passes every hop written down, in order, then the way back and the first control |
| `TourPaths.TourFailsIff` | scripts/scope-tours/lib.ts:668-714 | a walkthrough is refused exactly when the clicks behind some marker, or a return path that is given, end on an optional hop |

## Left out

- git, the file system, oasdiff, the review service and the clock: file contents, presence at a tag, review verdicts and made markers are inputs.
- Readings of SQL text made with regular expressions (statement splitting, classification, heaviness patterns, table names) are functions passed in; so is the resolution of string escapes in the tokenizer.
- Lists of tables, migration names and editions, and the order of listings that are only shown to people.
- Characters are Unicode scalar values, not UTF-16 code units; a JSON escape for a lone surrogate is treated as undecodable.
- Versions are triples of natural numbers; other spellings of a version, and keys that JavaScript objects inherit from their prototype, are not modelled.
- MigrationMetadata.SafeVerdictIsUnderstood: speaks of the identifiers `knex` and `trx` and of `.raw` members only, which is all the analysis looks at; a connection under another name is invisible to both.
- UpgradeOverrides.CarriedUpgradeFloor: the order of the entries in the file is an argument; that recording appends a new entry at its end is not modelled.
- Validation of the overrides file when it is loaded or written, and the generated note beyond its text.
- Echoed marker fields: migration, API and configuration details, counts, note and schema version.
- JsonSchema.ValidateNode: takes a bound on the levels of its recursion as a ghost argument, so it covers exactly the walks that end; an alternative or member that the source skips because an error was thrown before counts as part of the walk.
- The rejection of unsupported schema keywords, boolean subschemas, the wording of messages, and negative zero in the schema validator.
- The JSON branch and the splitting of a file into lines in the YAML editor.
- Line numbers and snippets of raw calls, and the lint rules applied to them.
- WindowSql: the other template types of the compiler and the checks on table calculation names; frame offsets are integers.
- Declarations.DiffBreakingChangeDeclarations: parsing is reduced to a registry and whether the parser objected; the locale is an argument, and where it does not tell two added ids apart their order is left open.
- ConfigDiff.DiffConfigSurfaces: the order that the reader's locale gives names is an argument.
- OwnerSamples.NormalizedTextIgnoresValues: sources are compared by their tokens, and a source to compare with need not be one that the tokenizer reads back from its text; that a literal keeps its sign or its lack of one is part of what is compared, since a sign does change the text.
- The configuration diff's own copy of the tokenizer is the one modelled in Lexer, up to the resolution of string escapes; the values of defaults, their combination per variable and the sorted signatures are not modelled.
- Index timestamps and schema version, and reading an index file back: packages/cli/src/releaseSafety/index.ts is not part of this model.
- A backfill without any configured floor: the committed constant is never null.
- Citations, headings, concepts and sentence counts are read from the docs by regular expressions and are inputs of TourOrder.
- Titles, bodies, hints and typed-input details of walkthrough steps, and the checks that markers agree with each other.
