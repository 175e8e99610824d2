# A verified model of the roster manager's command parser

This project models, in Dafny, the command parser of a command-line roster manager for
players, teams, matches and finances (`parser/Parser.java`) and the `Tag` value (`data/tag/Tag.java`).

The parser takes one line of user input and returns a `Command`. It never fails:
- a line it cannot read becomes an `IncorrectCommand` that carries the feedback;
- the feedback is the invalid-format message filled with a command's usage text, the edit-team no-fields message (`EditTeam.MESSAGE_NOARGS`) filled with the edit-team usage text, or a constructor's validation message.

The model works on values. Both source files are pure: no state changes and no loops. So there is:
- a datatype per value: `Kind`, `Command`, `Feedback`, `Tag`, and the groups a grammar matches;
- a function per method;
- lemmas for the properties.

Modules, one per file:

| module | file | contents |
|---|---|---|
| `Wrappers` | `wrappers.dfy` | `Option` and `Result` |
| `JavaText` | `java_text.dfy` | `String.trim`, the regex classes `\s`, `\d` and `.` |
| `JavaSplit` | `java_split.dfy` | `replaceFirst` and `split` with a literal pattern; `split("\\s+")` as `Words` |
| `JavaInteger` | `java_integer.dfy` | `Integer.parseInt` with its 32-bit range check; `Integer.toString` as its inverse |
| `Segments` | `segments.dfy` | cutting a string at its slashes; chains of `head/value` links |
| `Grammars` | `grammars.dfy` | the prefix grammars as renderings; decoders proved sound and complete |
| `Commands` | `commands.dfy` | the command classes (`Kind`), the commands built, the feedback |
| `Parser` | `parser.dfy` | `parseCommand` and every `prepare…` method |
| `ParserCases` | `parser_cases.dfy` | concrete lines and the commands they give |
| `Tags` | `tag.dfy` | `Tag`: construction, equality, hash code, `toString` |

## How the regexes are stated

Each argument grammar of the parser (`PLAYER_DATA_ARGS_FORMAT` and the others) becomes a predicate.
- `Fits(s, prefixes, fields, tags)` says that `s` is the rendering `f0 p1/f1 … pn/fn t/v1 … t/vk`.
- Every field and tag value is non-empty and slash-free, as `[^/]+` demands.
- The edit grammar has its own predicate, `EditFits`, with three optional groups.

A decoder cuts the string at its slashes. It is proved sound and complete against the predicate, so the groups of a match are unique. That is why `matcher.group(..)` is well defined.

`BASIC_COMMAND_FORMAT`, `(\S+)(.*)`, becomes `BasicMatch`. Its greedy split is `SplitsAt`.

The Java character classes are written out:
- `trim` drops chars up to U+0020;
- `\s` is `[ \t\n\x0B\f\r]`;
- `.` refuses `\n`, `\r`, U+0085, U+2028 and U+2029;
- `\d` is ASCII digits.

Three things the parser calls live in other classes. They are parameters:
- The `COMMAND_WORD` constants are a `Vocabulary`, a function from `Kind` to `string`. Java rejects two equal case labels in one switch, so lemmas that need it require `DistinctWords(vocab)`.
- The `MESSAGE_USAGE` texts are named by the `Kind` whose usage they are (`Formatted(template, usage)`).
- The constructors that throw `IllegalValueException` are a `Validator`. It returns `Some(message)` when the constructor would throw. `Construct(c, check)` is the parser's try/catch around `new …`.

## Model

| member | source | states |
|---|---|---|
| Tags.IsValidTagName | src/seedu/addressbook/data/tag/Tag.java:32-34 | no contract of its own: the whole name matches `.+`; NewTag and BlankNameValidButRejected state what it accepts |
| Tags.NewTag | src/seedu/addressbook/data/tag/Tag.java:21-27 | construction succeeds exactly when the trimmed name is non-empty and has no line terminator; the tag holds the trimmed name and is valid; failure carries MESSAGE_TAG_CONSTRAINTS |
| Tags.NewTagIdempotent | src/seedu/addressbook/data/tag/Tag.java:21-27 | rebuilding a valid tag from its own name gives back the same tag |
| Tags.NewTagOfTagName | src/seedu/addressbook/data/tag/Tag.java:21-27 | constructing from the name of a constructed tag gives the same outcome as the first construction |
| Tags.NewTagIgnoresPadding | src/seedu/addressbook/data/tag/Tag.java:22-23 | names that differ only in surrounding blanks give the same outcome |
| Tags.BlankNameValidButRejected | src/seedu/addressbook/data/tag/Tag.java:32-34 | `isValidTagName(" ")` holds, yet `new Tag(" ")` fails, because the constructor trims first |
| Tags.Equals | src/seedu/addressbook/data/tag/Tag.java:37-41 | a tag equals only a Tag with its own value, never null; EqualsIsNameEquality gives the converse |
| Tags.EqualsIsNameEquality | src/seedu/addressbook/data/tag/Tag.java:37-41 | `equals` holds exactly when the names are equal; it is reflexive, symmetric and transitive, and false for null |
| Tags.Wrap32 | src/seedu/addressbook/data/tag/Tag.java:45 | the reduction is a 32-bit `int` congruent to its input modulo 2^32 |
| Tags.StringHashCode | src/seedu/addressbook/data/tag/Tag.java:45 | `String.hashCode` over the UTF-16 units is always a 32-bit `int` |
| Tags.HashUnitsInRange | src/seedu/addressbook/data/tag/Tag.java:45 | each wrapping step `31 * h + unit` stays in the `int` range |
| Tags.HashCode | src/seedu/addressbook/data/tag/Tag.java:43-46 | the hash of the name, always within `int` range |
| Tags.EqualTagsEqualHash | src/seedu/addressbook/data/tag/Tag.java:43-46 | equal tags have equal hash codes |
| Tags.ToString | src/seedu/addressbook/data/tag/Tag.java:48-51 | the name in square brackets: two chars longer, `[` first, `]` last, the name in between |
| JavaText.Trim | src/seedu/addressbook/parser/Parser.java:95 | the result of `trim` starts and ends with a non-blank char, and is empty exactly when the input is all blank |
| JavaText.TrimIgnoresPadding | src/seedu/addressbook/parser/Parser.java:95 | surrounding blanks do not change the trimmed line |
| JavaText.TrimIdempotent | src/seedu/addressbook/parser/Parser.java:95 | trimming twice is trimming once |
| JavaInteger.ParseInt | src/seedu/addressbook/parser/Parser.java:433 | `Integer.parseInt` accepts exactly a sign-optional ASCII literal whose value fits in 32 bits, and returns that value |
| JavaInteger.ParseIntToString | src/seedu/addressbook/parser/Parser.java:433 | every 32-bit number written by `Integer.toString` is read back |
| JavaSplit.ReplaceFirst | src/seedu/addressbook/parser/Parser.java:301 | a string that starts with the pattern loses exactly that prefix |
| JavaSplit.SplitLiteral | src/seedu/addressbook/parser/Parser.java:301 | no more pieces than the scan finds, and trailing empty pieces are removed unless the separator never occurs; Parser.PiecesOfTagGroup and Parser.TagsOfTagGroup state the pieces of a tag group |
| JavaSplit.Words | src/seedu/addressbook/parser/Parser.java:451 | every word is non-empty and holds no whitespace char; WordsOfJoinSpaced gives the round trip |
| JavaSplit.WordsOfJoinSpaced | src/seedu/addressbook/parser/Parser.java:451 | splitting single-space-joined words at whitespace gives back the words |
| Grammars.DecodeRequired | src/seedu/addressbook/parser/Parser.java:27-62 | a decoded match has the lead field and one field per prefix |
| Grammars.DecodeRequiredSound | src/seedu/addressbook/parser/Parser.java:27-62 | groups the decoder returns satisfy the grammar |
| Grammars.DecodeRequiredComplete | src/seedu/addressbook/parser/Parser.java:27-62 | any groups that satisfy the grammar are the ones the decoder returns |
| Grammars.DecodeRequiredUnique | src/seedu/addressbook/parser/Parser.java:27-62 | a line matches a grammar with at most one choice of groups |
| Grammars.DecodeRequiredMatches | src/seedu/addressbook/parser/Parser.java:27-62 | the decoder succeeds exactly when some groups satisfy the grammar |
| Grammars.DecodeEdit | src/seedu/addressbook/parser/Parser.java:64-70 | no contract of its own: DecodeEditSound, DecodeEditComplete and DecodeEditMatches prove it returns the edit grammar's groups exactly when the pattern matches |
| Grammars.DecodeEditSound | src/seedu/addressbook/parser/Parser.java:64-70 | groups the edit decoder returns satisfy the edit grammar |
| Grammars.DecodeEditComplete | src/seedu/addressbook/parser/Parser.java:64-70 | any groups that satisfy the edit grammar are the ones the decoder returns |
| Grammars.DecodeEditMatches | src/seedu/addressbook/parser/Parser.java:64-70 | the edit decoder succeeds exactly when the edit grammar matches |
| Parser.Construct | src/seedu/addressbook/parser/Parser.java:186-193 | the command comes out unchanged when validation passes; when it fails, an IncorrectCommand with the validator's message and no usage text |
| Parser.GetTagsFromArgs | src/seedu/addressbook/parser/Parser.java:295-303 | no tag arguments give the empty set |
| Parser.TagsOfTagGroup | src/seedu/addressbook/parser/Parser.java:295-303 | tag values rendered as ` t/v1 t/v2 …` are read back as exactly their set |
| Parser.PiecesOfTagGroup | src/seedu/addressbook/parser/Parser.java:301 | splitting a rendered tag group at ` t/` yields the values in order |
| Parser.DuplicateTagsCollapse | src/seedu/addressbook/parser/Parser.java:302 | repeated tag values merge into one |
| Parser.ParseArgsAsDisplayedIndex | src/seedu/addressbook/parser/Parser.java:428-434 | succeeds exactly on a trimmed 32-bit literal, with its value; ParseException exactly for blank or multi-line text; NumberFormatException otherwise |
| Parser.IndexRoundTrip | src/seedu/addressbook/parser/Parser.java:428-434 | every 32-bit number, padded with blanks, is read back |
| Parser.IndexOfDigits | src/seedu/addressbook/parser/Parser.java:385 | an all-digit index is read exactly when it fits in 32 bits, as its value |
| Parser.PrepareIndexCommand | src/seedu/addressbook/parser/Parser.java:312-319 | the shared shape of the index commands: the command with the index, or the invalid-format message with its own usage |
| Parser.PrepareDeletePlayer | src/seedu/addressbook/parser/Parser.java:312-319 | DeleteCommand with the index when the trimmed arguments are a 32-bit literal, else the format error with DeleteCommand's usage |
| Parser.PrepareDeleteMatch | src/seedu/addressbook/parser/Parser.java:328-336 | as for delete, with DeleteMatchCommand |
| Parser.DelTeam | src/seedu/addressbook/parser/Parser.java:341-348 | as for delete, with DeleteTeam |
| Parser.PrepareFinance | src/seedu/addressbook/parser/Parser.java:357-364 | as for delete, with FinanceCommand |
| Parser.PrepareViewAll | src/seedu/addressbook/parser/Parser.java:409-418 | as for delete, with ViewAllCommand |
| Parser.PrepareFind | src/seedu/addressbook/parser/Parser.java:443-454 | the shared shape of the find commands: blank arguments give the format error with the command's usage; otherwise the keywords are the whitespace-separated tokens of the trimmed arguments |
| Parser.PrepareFindPerson | src/seedu/addressbook/parser/Parser.java:443-454 | the find outcome for FindCommand |
| Parser.PrepareFindMatch | src/seedu/addressbook/parser/Parser.java:462-473 | the find outcome for FindMatchCommand |
| Parser.PrepareFindTeam | src/seedu/addressbook/parser/Parser.java:478-489 | the find outcome for FindTeam |
| Parser.KeywordsMatch | src/seedu/addressbook/parser/Parser.java:24-25 | a text the keywords pattern matches has at least one word; KeywordsMatchTrimmed gives when it matches |
| Parser.KeywordsMatchTrimmed | src/seedu/addressbook/parser/Parser.java:24-25 | on trimmed text the keywords pattern matches exactly when the text is non-empty |
| Parser.KeywordsAreTokens | src/seedu/addressbook/parser/Parser.java:451-452 | non-blank arguments give a non-empty keyword set of non-empty, whitespace-free tokens |
| Parser.FindOfJoinedKeywords | src/seedu/addressbook/parser/Parser.java:443-454 | keywords written with single spaces and padded with blanks are read back as their set |
| Parser.PrefixesValid | src/seedu/addressbook/parser/Parser.java:27-62 | no prefix of the four required grammars holds a slash of its own |
| Parser.PrepareAddPlayer | src/seedu/addressbook/parser/Parser.java:202-227 | every format error it gives carries AddCommand's usage |
| Parser.AddPlayerMatch | src/seedu/addressbook/parser/Parser.java:203-226 | a match builds AddCommand from the eleven untrimmed fields and the set of tag values, through the constructor's validation |
| Parser.AddPlayerMismatch | src/seedu/addressbook/parser/Parser.java:203-207 | no match gives the format error with AddCommand's usage |
| Parser.PrepareAddFastPlayer | src/seedu/addressbook/parser/Parser.java:236-256 | every format error it gives carries AddFastCommand's usage |
| Parser.AddFastPlayerMatch | src/seedu/addressbook/parser/Parser.java:237-255 | a match builds AddFastCommand from the seven fields and the set of tag values, through the constructor's validation |
| Parser.AddFastPlayerMismatch | src/seedu/addressbook/parser/Parser.java:237-241 | no match gives the format error with AddFastCommand's usage |
| Parser.PrepareAddTeam | src/seedu/addressbook/parser/Parser.java:178-194 | every format error it gives carries AddTeam's usage |
| Parser.AddTeamMatch | src/seedu/addressbook/parser/Parser.java:179-193 | a match builds AddTeam from name, country and sponsor as matched and the set of tag values |
| Parser.AddTeamMismatch | src/seedu/addressbook/parser/Parser.java:179-183 | no match gives the format error with AddTeam's usage |
| Parser.PrepareAddMatch | src/seedu/addressbook/parser/Parser.java:265-280 | every format error it gives carries AddMatchCommand's usage |
| Parser.AddMatchMatch | src/seedu/addressbook/parser/Parser.java:266-279 | a match builds AddMatchCommand from date, home and away |
| Parser.AddMatchMismatch | src/seedu/addressbook/parser/Parser.java:266-270 | no match gives the format error with AddMatchCommand's usage |
| Parser.AddMatchIgnoresTags | src/seedu/addressbook/parser/Parser.java:271-276 | two lines with the same fields give the same match command, whatever their tags |
| Parser.EditGrammarAcceptsBareIndex | src/seedu/addressbook/parser/Parser.java:64-73 | a bare index also matches the edit grammar, so the no-fields check must come first |
| Parser.PrepareEditTeam | src/seedu/addressbook/parser/Parser.java:370-400 | every format error it gives carries EditTeam's usage |
| Parser.EditTeamBareIndex | src/seedu/addressbook/parser/Parser.java:372-377 | a bare index, which the edit grammar also matches, gives the no-fields message |
| Parser.EditTeamOfGroups | src/seedu/addressbook/parser/Parser.java:378-399 | a line with fields gives the edit built from the groups it matches, absent groups as null |
| Parser.EditTeamOverflow | src/seedu/addressbook/parser/Parser.java:384-397 | a matched index beyond the `int` range gives the format error with EditTeam's usage |
| Parser.EditTeamMismatch | src/seedu/addressbook/parser/Parser.java:378-383 | a line the edit grammar does not match gives the format error with EditTeam's usage |
| Parser.SplitCommandWord | src/seedu/addressbook/parser/Parser.java:86-100 | the split found matches `(\S+)(.*)` and its word ends at whitespace or at the end |
| Parser.SplitCommandWordMaximal | src/seedu/addressbook/parser/Parser.java:86-100 | no longer word matches than the one found; when none is found, no split matches |
| Parser.SplitCommandWordFinds | src/seedu/addressbook/parser/Parser.java:86-100 | a split whose word ends at the first whitespace char is the one found |
| Parser.SplitCommandWordLimits | src/seedu/addressbook/parser/Parser.java:86 | longer words hold whitespace; a line break after the word defeats every shorter word too |
| Parser.SwitchOn | src/seedu/addressbook/parser/Parser.java:102-172 | the class chosen is HelpCommand or one whose word is the command word; an unknown word gives HelpCommand; with distinct words, the class whose word it is |
| Parser.FirstLabel | src/seedu/addressbook/parser/Parser.java:102-172 | HelpCommand or a case label whose word equals the word; some label is chosen whenever one has the word |
| Parser.FirstLabelIsFirst | src/seedu/addressbook/parser/Parser.java:102-172 | when some label has the word, the one chosen is the earliest such label in the switch |
| Parser.Position | src/seedu/addressbook/parser/Parser.java:103-170 | every command class has a case label in the switch |
| Parser.SwitchOnFindsLabel | src/seedu/addressbook/parser/Parser.java:102-172 | with distinct words, the switch picks the only class with that word |
| Parser.Dispatch | src/seedu/addressbook/parser/Parser.java:102-172 | no contract of its own: DispatchUsage, DispatchNeverHelpFormat and NoArgumentBranches state what its branches give |
| Parser.DispatchUsage | src/seedu/addressbook/parser/Parser.java:102-172 | every format error a branch gives carries that branch's own usage |
| Parser.DispatchNeverHelpFormat | src/seedu/addressbook/parser/Parser.java:102-172 | no branch answers with the help usage's format error |
| Parser.ParseCommand | src/seedu/addressbook/parser/Parser.java:94-173 | no contract of its own: ParseCommandSplits, ParseKnownWord, ParseUnknownWord and ParseFormatError state its outcomes |
| Parser.ParseCommandSplits | src/seedu/addressbook/parser/Parser.java:94-172 | a line that splits into word and arguments runs the branch the word selects on those arguments |
| Parser.ParseKnownWord | src/seedu/addressbook/parser/Parser.java:94-172 | with distinct words, a class's command word runs that class's branch |
| Parser.ParseUnknownWord | src/seedu/addressbook/parser/Parser.java:169-171 | a word no class uses gives HelpCommand, whatever the arguments |
| Parser.ParseFormatError | src/seedu/addressbook/parser/Parser.java:95-98 | the format error with the help usage comes exactly from lines `(\S+)(.*)` does not match, that is blank lines and lines with a line break after the word |
| Parser.BrokenArguments | src/seedu/addressbook/parser/Parser.java:95-98 | a line break in the arguments gives that format error, whatever the word |
| Parser.BlankInputIsFormatError | src/seedu/addressbook/parser/Parser.java:95-98 | a blank line gives that format error |
| Parser.NoArgumentBranches | src/seedu/addressbook/parser/Parser.java:117-171 | the clear, list, sort, exit and help branches ignore their arguments and never fail |
| ParserCases.AddTeamCase | src/seedu/addressbook/parser/Parser.java:178-194 | arguments that trim to `Arsenal c/England s/Emirates t/rich t/rich` give name `Arsenal `, country `England `, sponsor `Emirates` and tags {rich} |
| ParserCases.AddTeamLine | src/seedu/addressbook/parser/Parser.java:178-194 | that line itself gives that team |
| ParserCases.DeleteOfIndex | src/seedu/addressbook/parser/Parser.java:312-319 | any 32-bit number, padded with blanks, deletes that index |
| ParserCases.DeletePositive | src/seedu/addressbook/parser/Parser.java:312-319 | ` 3` deletes index 3 |
| ParserCases.DeleteZero | src/seedu/addressbook/parser/Parser.java:312-319 | ` 0` is accepted as index 0 |
| ParserCases.DeleteNegative | src/seedu/addressbook/parser/Parser.java:312-319 | ` -2` is accepted as index -2 |
| ParserCases.DeleteWord | src/seedu/addressbook/parser/Parser.java:312-319 | ` abc` gives the format error with DeleteCommand's usage |
| ParserCases.DeleteNothing | src/seedu/addressbook/parser/Parser.java:312-319 | empty arguments give the same format error |
| ParserCases.EditTeamIndexAlone | src/seedu/addressbook/parser/Parser.java:372-377 | ` 5` gives the no-fields message |
| ParserCases.EditTeamCase | src/seedu/addressbook/parser/Parser.java:378-399 | arguments that trim to `2 n/Chelsea t/blue` edit team 2 with name Chelsea, no country or sponsor, tags {blue} |
| ParserCases.FindCase | src/seedu/addressbook/parser/Parser.java:443-454 | ` alice bob alice` searches for {alice, bob} |
| ParserCases.FindBlank | src/seedu/addressbook/parser/Parser.java:443-448 | blank arguments give the format error with FindCommand's usage |
| ParserCases.DeleteLineTrimmed | src/seedu/addressbook/parser/Parser.java:95 | `  delete 3 ` trims to `delete 3` |
| ParserCases.ParseDeleteLine | src/seedu/addressbook/parser/Parser.java:94-118 | with `delete` as the word, a line that trims to `delete 3` gives DeleteCommand(3) |
| ParserCases.ParseDeleteAlone | src/seedu/addressbook/parser/Parser.java:94-118 | a line that trims to the word alone reaches the branch with empty arguments and gives its format error |
| ParserCases.ParseLineBreak | src/seedu/addressbook/parser/Parser.java:95-98 | a line that trims to `delete 3\nx` gives the format error with the help usage |

## Left out

- Command words, usage texts and message strings: `COMMAND_WORD`, `MESSAGE_USAGE`, `MESSAGE_INVALID_COMMAND_FORMAT` and `EditTeam.MESSAGE_NOARGS` live in classes outside this model. Words are a parameter; messages are named, not spelled out.
- Constructor validation: what `new AddCommand(..)`, `new AddTeam(..)`, `new AddFastCommand(..)`, `new AddMatchCommand(..)` and `new EditTeam(..)` check is outside this model. It is the `Validator` parameter.
- Command execution, `ParseException` as a class, and the commented-out `isPrivatePrefixPresent` (it is not code).
- HashSet iteration order: tag and keyword collections are sets.
- Regex backtracking is not modelled step by step. Each grammar is stated by its matches instead. The decoders are proved to find exactly those matches.
- Parser.PrepareFind: `split("\\s+")` is modelled as `Words`. The two agree only on strings that begin with a non-whitespace char. That is always the case here, because the trimmed keyword text starts with a non-blank char.
- JavaInteger.ParseInt: only ASCII digits. Java's `parseInt` also accepts other Unicode decimal digits, and the model rejects them.
- Tags.StringHashCode: splits chars above U+FFFF into surrogate pairs as UTF-16 does. Lone surrogates are not Dafny chars, so they are out of the model.
- Tags.EqualsIsNameEquality: the `other == this` short cut is not modelled separately. It is implied by name equality.

## Where the code differs from its documented behaviour

The model follows the code:
- Fields are passed to the constructors untrimmed. `Arsenal c/England …` gives the name `Arsenal `, with its trailing blank.
- `parseArgsAsDisplayedIndex` accepts 0 and negative numbers. The parser does not check that an index is positive.
- `prepareAddMatch` accepts tag arguments and drops them.
- `getTagsFromArgs` returns strings and builds no `Tag`, so it cannot fail.
