/**
 * `Parser` (parser/Parser.java): turns one line of user input into a Command.
 * It never fails: every problem with the input becomes an IncorrectCommand
 * carrying the feedback the user sees.
 */
module Parser {
  import opened Wrappers
  import opened JavaText
  import opened JavaSplit
  import opened JavaInteger
  import opened Segments
  import opened Grammars
  import opened Commands

  /** The COMMAND_WORD of each command class; those constants live outside the parser. */
  type Vocabulary = Kind -> string

  /**
   * What a command constructor does with its arguments: `Some(message)` when
   * it throws IllegalValueException with that message. The constructors live
   * outside the parser.
   */
  type Validator = Command -> Option<string>

  /** Java refuses two equal case labels, so distinct classes have distinct command words. */
  predicate DistinctWords(vocab: Vocabulary) {
    forall a: Kind, b: Kind :: vocab(a) == vocab(b) ==> a == b
  }

  /** The invalid-format message filled with the usage text of `usage`. */
  function InvalidFormat(usage: Kind): Command {
    IncorrectCommand(Formatted(MessageInvalidCommandFormat, usage))
  }

  /** Building `c` inside the parser's try block: a validation failure becomes an IncorrectCommand with its message. */
  function Construct(c: Command, check: Validator): (r: Command)
    ensures check(c).None? ==> r == c
    ensures check(c).Some? ==> r.IncorrectCommand? && r.feedback == Message(check(c).value)
  {
    match check(c)
    case Some(message) => IncorrectCommand(Message(message))
    case None => c
  }

  /** Every usage text a command's feedback shows is that of class `k`. */
  predicate UsageOf(r: Command, k: Kind) {
    r.IncorrectCommand? && r.feedback.Formatted? ==> r.feedback.usage == k
  }

  function SetOf(ss: seq<string>): set<string> {
    set s | s in ss
  }

  // ---------------------------------------------------------------------
  // getTagsFromArgs

  /**
   * `getTagsFromArgs`: the empty string has no tags; otherwise the first
   * ` t/` is dropped and the rest split at ` t/`. The pieces stay raw
   * strings: no Tag is built, so nothing here can fail.
   */
  function GetTagsFromArgs(tagArguments: string): (tags: set<string>)
    ensures tagArguments == [] ==> tags == {}
  {
    if tagArguments == [] then {}
    else SetOf(SplitLiteral(ReplaceFirst(tagArguments, " t/"), " t/"))
  }

  lemma {:induction false} PiecesOfTagGroup(cur: string, tags: seq<string>)
    requires AllFields(tags)
    ensures Pieces(TagGroup(tags), " t/", cur) == [cur] + tags
    decreases |tags|
  {
    var sep := " t/";
    var s := TagGroup(tags);
    if tags == [] {
      assert cur + [] == cur;
    } else {
      var rest := TagGroup(tags[1..]);
      assert s == sep + (tags[0] + rest);
      assert s[..|sep|] == sep;
      assert s[|sep|..] == tags[0] + rest;
      assert rest == [] || rest[..2] == " t";
      PiecesSkip(tags[0], rest, sep, []);
      assert [] + tags[0] == tags[0];
      PiecesOfTagGroup(tags[0], tags[1..]);
      assert [tags[0]] + tags[1..] == tags;
    }
  }

  /** Joining tag values with ` t/` and reading them back gives exactly the set of values. */
  lemma TagsOfTagGroup(tags: seq<string>)
    requires AllFields(tags)
    ensures GetTagsFromArgs(TagGroup(tags)) == SetOf(tags)
  {
    if tags != [] {
      TagGroupPieces(tags);
      assert IsField(tags[|tags| - 1]);
      assert DropTrailingEmpty(tags) == tags;
    }
  }

  /** After the leading ` t/` is removed, cutting at ` t/` gives the tag values back. */
  lemma TagGroupPieces(tags: seq<string>)
    requires AllFields(tags) && tags != []
    ensures Pieces(ReplaceFirst(TagGroup(tags), " t/"), " t/", []) == tags
  {
    var s := TagGroup(tags);
    var rest := TagGroup(tags[1..]);
    assert s == " t/" + (tags[0] + rest);
    assert s[..3] == " t/";
    assert ReplaceFirst(s, " t/") == tags[0] + rest;
    assert rest == [] || rest[..2] == " t";
    PiecesSkip(tags[0], rest, " t/", []);
    assert [] + tags[0] == tags[0];
    PiecesOfTagGroup(tags[0], tags[1..]);
    assert [tags[0]] + tags[1..] == tags;
  }

  /** Repeated tags collapse into one. */
  lemma DuplicateTagsCollapse()
    ensures GetTagsFromArgs(" t/rich t/rich") == {"rich"}
  {
    var tags := ["rich", "rich"];
    assert TagGroup(tags) == " t/rich t/rich";
    assert AllFields(tags) by {
      assert NoSlash("rich");
    }
    TagsOfTagGroup(tags);
    assert SetOf(tags) == {"rich"};
  }

  // ---------------------------------------------------------------------
  // parseArgsAsDisplayedIndex and the five preparers that use it

  /** Why no index was read: ParseException (no `.+` match) or NumberFormatException. */
  datatype IndexError = NoIndexFound | NotANumber

  /** The trimmed argument text is an integer literal whose value fits in 32 bits. */
  predicate IsIndexText(t: string) {
    IsIntLiteral(t) && InIntRange(LiteralValue(t))
  }

  /**
   * `parseArgsAsDisplayedIndex`: the trimmed text must match `.+` and then be
   * read by `Integer.parseInt`. Zero and negative numbers are accepted.
   */
  function ParseArgsAsDisplayedIndex(args: string): (r: Result<int, IndexError>)
    ensures r.Success? <==> IsIndexText(Trim(args))
    ensures r.Success? ==> r.value == LiteralValue(Trim(args))
    ensures r == Failure(NoIndexFound) <==> Trim(args) == [] || !SingleLine(Trim(args))
  {
    var t := Trim(args);
    if t == [] || !SingleLine(t) then
      if IsIntLiteral(t) then IntLiteralShape(t); Failure(NoIndexFound) else Failure(NoIndexFound)
    else
      match ParseInt(t)
      case None => Failure(NotANumber)
      case Some(v) => Success(v)
  }

  /** Every 32-bit number, written as `Integer.toString` writes it and padded with blanks, is read back. */
  lemma IndexRoundTrip(v: int, before: string, after: string)
    requires InIntRange(v) && AllBlank(before) && AllBlank(after)
    ensures ParseArgsAsDisplayedIndex(before + IntToString(v) + after) == Success(v)
  {
    IntLiteralShape(IntToString(v));
    TrimOfPadded(before, IntToString(v), after);
    ParseIntToString(v);
  }

  /** An all-digit index is read exactly when its value fits in 32 bits. */
  lemma IndexOfDigits(ds: string)
    requires IsDigits(ds)
    ensures ParseArgsAsDisplayedIndex(ds).Success? <==> InIntRange(Value(ds))
    ensures ParseArgsAsDisplayedIndex(ds).Success? ==> ParseArgsAsDisplayedIndex(ds).value == Value(ds)
  {
    assert IsDigit(ds[0]);
    assert IsIntLiteral(ds);
    assert LiteralValue(ds) == Value(ds);
    IntLiteralShape(ds);
    TrimOfPadded([], ds, []);
    assert [] + ds + [] == ds;
    assert Trim(ds) == ds;
  }

  predicate TakesIndex(k: Kind) {
    k == Kind.DeleteCommand || k == Kind.DeleteTeam || k == Kind.FinanceCommand
    || k == Kind.DeleteMatchCommand || k == Kind.ViewAllCommand
  }

  function IndexCommand(k: Kind, index: int): Command
    requires TakesIndex(k)
  {
    if k == Kind.DeleteCommand then Command.DeleteCommand(index)
    else if k == Kind.DeleteTeam then Command.DeleteTeam(index)
    else if k == Kind.FinanceCommand then Command.FinanceCommand(index)
    else if k == Kind.DeleteMatchCommand then Command.DeleteMatchCommand(index)
    else Command.ViewAllCommand(index)
  }

  /**
   * The outcome every index command promises: the command with the index when
   * the trimmed text is a 32-bit literal, and otherwise (empty text and
   * non-numbers alike) the invalid-format message with the command's usage.
   */
  predicate IndexOutcome(k: Kind, args: string, r: Command)
    requires TakesIndex(k)
  {
    (IsIndexText(Trim(args)) ==> r == IndexCommand(k, LiteralValue(Trim(args))))
    && (!IsIndexText(Trim(args)) ==> r == InvalidFormat(k))
  }

  function PrepareIndexCommand(k: Kind, args: string): (r: Command)
    requires TakesIndex(k)
    ensures IndexOutcome(k, args, r)
  {
    match ParseArgsAsDisplayedIndex(args)
    case Success(i) => IndexCommand(k, i)
    case Failure(_) => InvalidFormat(k)
  }

  /** `prepareDeletePlayer`. */
  function PrepareDeletePlayer(args: string): (r: Command)
    ensures IndexOutcome(Kind.DeleteCommand, args, r)
  {
    PrepareIndexCommand(Kind.DeleteCommand, args)
  }

  /** `prepareDeleteMatch`. */
  function PrepareDeleteMatch(args: string): (r: Command)
    ensures IndexOutcome(Kind.DeleteMatchCommand, args, r)
  {
    PrepareIndexCommand(Kind.DeleteMatchCommand, args)
  }

  /** `delTeam`. */
  function DelTeam(args: string): (r: Command)
    ensures IndexOutcome(Kind.DeleteTeam, args, r)
  {
    PrepareIndexCommand(Kind.DeleteTeam, args)
  }

  /** `prepareFinance`. */
  function PrepareFinance(args: string): (r: Command)
    ensures IndexOutcome(Kind.FinanceCommand, args, r)
  {
    PrepareIndexCommand(Kind.FinanceCommand, args)
  }

  /** `prepareViewAll`. */
  function PrepareViewAll(args: string): (r: Command)
    ensures IndexOutcome(Kind.ViewAllCommand, args, r)
  {
    PrepareIndexCommand(Kind.ViewAllCommand, args)
  }

  // ---------------------------------------------------------------------
  // The three find preparers

  /**
   * `KEYWORDS_ARGS_FORMAT`, `\S+(?:\s+\S+)*`, matches exactly the non-empty
   * strings that begin and end with a non-whitespace char.
   */
  predicate KeywordsMatch(t: string)
    ensures KeywordsMatch(t) ==> Words(t) != []
  {
    t != [] && !IsWhitespace(t[0]) && !IsWhitespace(t[|t| - 1])
  }

  predicate SearchesBy(k: Kind) {
    k == Kind.FindCommand || k == Kind.FindTeam || k == Kind.FindMatchCommand
  }

  function FindCommandOf(k: Kind, keywords: set<string>): Command
    requires SearchesBy(k)
  {
    if k == Kind.FindCommand then Command.FindCommand(keywords)
    else if k == Kind.FindTeam then Command.FindTeam(keywords)
    else Command.FindMatchCommand(keywords)
  }

  /**
   * The outcome every find command promises: blank arguments give the
   * invalid-format message with the command's usage; otherwise the keywords
   * are the whitespace-separated tokens of the trimmed arguments.
   */
  predicate FindOutcome(k: Kind, args: string, r: Command)
    requires SearchesBy(k)
  {
    (Trim(args) == [] ==> r == InvalidFormat(k))
    && (Trim(args) != [] ==> r == FindCommandOf(k, SetOf(Words(Trim(args)))))
  }

  function PrepareFind(k: Kind, args: string): (r: Command)
    requires SearchesBy(k)
    ensures FindOutcome(k, args, r)
  {
    var t := Trim(args);
    KeywordsMatchTrimmed(t);
    if !KeywordsMatch(t) then InvalidFormat(k)
    else
      // split("\\s+") on a string that starts with a non-whitespace char
      FindCommandOf(k, SetOf(Words(t)))
  }

  /** On trimmed text the keyword pattern matches exactly when the text is non-empty. */
  lemma KeywordsMatchTrimmed(t: string)
    requires IsTrimmed(t)
    ensures KeywordsMatch(t) <==> t != []
  {
    if t != [] {
      WhitespaceIsBlank(t[0]);
      WhitespaceIsBlank(t[|t| - 1]);
    }
  }

  /** `prepareFindPerson`. */
  function PrepareFindPerson(args: string): (r: Command)
    ensures FindOutcome(Kind.FindCommand, args, r)
  {
    PrepareFind(Kind.FindCommand, args)
  }

  /** `prepareFindMatch`. */
  function PrepareFindMatch(args: string): (r: Command)
    ensures FindOutcome(Kind.FindMatchCommand, args, r)
  {
    PrepareFind(Kind.FindMatchCommand, args)
  }

  /** `prepareFindTeam`. */
  function PrepareFindTeam(args: string): (r: Command)
    ensures FindOutcome(Kind.FindTeam, args, r)
  {
    PrepareFind(Kind.FindTeam, args)
  }

  /** The keyword set of non-blank arguments is non-empty, and each keyword is a non-empty, whitespace-free token. */
  lemma KeywordsAreTokens(args: string)
    requires Trim(args) != []
    ensures SetOf(Words(Trim(args))) != {}
    ensures forall w :: w in SetOf(Words(Trim(args))) ==> w != [] && NoWhitespace(w)
  {
    var t := Trim(args);
    WhitespaceIsBlank(t[0]);
    WordsEmpty(t);
    assert Words(t)[0] in SetOf(Words(t));
  }

  /** Keywords written with single spaces, padded with blanks, are read back as their set. */
  lemma FindOfJoinedKeywords(k: Kind, keywords: seq<string>, before: string, after: string)
    requires SearchesBy(k)
    requires keywords != [] && forall i :: 0 <= i < |keywords| ==> keywords[i] != [] && NoWhitespace(keywords[i])
    requires IsTrimmed(keywords[0]) && IsTrimmed(keywords[|keywords| - 1])
    requires AllBlank(before) && AllBlank(after)
    ensures PrepareFind(k, before + JoinSpaced(keywords) + after) == FindCommandOf(k, SetOf(keywords))
  {
    var text := JoinSpaced(keywords);
    JoinSpacedEnds(keywords);
    TrimOfPadded(before, text, after);
    WordsOfJoinSpaced(keywords);
  }

  lemma {:induction false} JoinSpacedEnds(ws: seq<string>)
    requires ws != [] && forall i :: 0 <= i < |ws| ==> ws[i] != []
    ensures var s, v := JoinSpaced(ws), ws[|ws| - 1];
      s != [] && s[0] == ws[0][0] && s[|s| - 1] == v[|v| - 1]
  {
    if |ws| > 1 {
      JoinSpacedEnds(ws[1..]);
      var tail := JoinSpaced(ws[1..]);
      assert JoinSpaced(ws) == ws[0] + (" " + tail);
    }
  }

  // ---------------------------------------------------------------------
  // The four grammars with required fields

  /** The prefixes of PLAYER_DATA_ARGS_FORMAT, in order, each without its '/'. */
  const PlayerPrefixes: seq<string> := ["p", "a", "sal", "gs", "ga", "tm", "ctry", "jn", "app", "hs"]
  /** The prefixes of PLAYERFAST_DATA_ARGS_FORMAT. */
  const PlayerFastPrefixes: seq<string> := ["p", "a", "sal", "tm", "ctry", "jn"]
  /** The prefixes of MATCH_DATA_ARGS_FORMAT. */
  const MatchPrefixes: seq<string> := ["h", "a"]
  /** The prefixes of TEAM_DATA_ARGS_FORMAT. */
  const TeamPrefixes: seq<string> := ["c", "s"]

  lemma PrefixesValid()
    ensures ValidPrefixes(PlayerPrefixes) && ValidPrefixes(PlayerFastPrefixes)
    ensures ValidPrefixes(MatchPrefixes) && ValidPrefixes(TeamPrefixes)
  {
    assert NoSlash("p") && NoSlash("a") && NoSlash("sal") && NoSlash("gs") && NoSlash("ga");
    assert NoSlash("tm") && NoSlash("ctry") && NoSlash("jn") && NoSlash("app") && NoSlash("hs");
    assert NoSlash("h") && NoSlash("c") && NoSlash("s");
  }

  /** A line no groups fit is not decoded. */
  lemma DecodeNone(t: string, prefixes: seq<string>)
    requires forall fields, tags :: !Fits(t, prefixes, fields, tags)
    ensures DecodeRequired(t, prefixes) == None
  {
    if DecodeRequired(t, prefixes).Some? {
      DecodeRequiredSound(t, prefixes);
      assert false;
    }
  }

  function PlayerCommand(fields: seq<string>, tags: set<string>): Command
    requires |fields| == |PlayerPrefixes| + 1
  {
    Command.AddCommand(fields[0], fields[1], fields[2], fields[3], fields[4], fields[5],
                       fields[6], fields[7], fields[8], fields[9], fields[10], tags)
  }

  function PlayerFastCommand(fields: seq<string>, tags: set<string>): Command
    requires |fields| == |PlayerFastPrefixes| + 1
  {
    Command.AddFastCommand(fields[0], fields[1], fields[2], fields[3], fields[4], fields[5], fields[6], tags)
  }

  /** `prepareAddPlayer`; its outcome is stated by AddPlayerMatch and AddPlayerMismatch. */
  function PrepareAddPlayer(args: string, check: Validator): (r: Command)
    ensures UsageOf(r, Kind.AddCommand)
  {
    match DecodeRequired(Trim(args), PlayerPrefixes)
    case None => InvalidFormat(Kind.AddCommand)
    case Some(g) => Construct(PlayerCommand(g.fields, GetTagsFromArgs(TagGroup(g.tags))), check)
  }

  /** A line matching the player grammar builds AddCommand from the untrimmed fields and the set of tag values. */
  lemma AddPlayerMatch(args: string, check: Validator, fields: seq<string>, tags: seq<string>)
    requires Fits(Trim(args), PlayerPrefixes, fields, tags)
    ensures PrepareAddPlayer(args, check) == Construct(PlayerCommand(fields, SetOf(tags)), check)
  {
    PrefixesValid();
    DecodeRequiredComplete(Trim(args), PlayerPrefixes, fields, tags);
    TagsOfTagGroup(tags);
  }

  /** A line the player grammar does not match gives the invalid-format message with AddCommand's usage. */
  lemma AddPlayerMismatch(args: string, check: Validator)
    requires forall fields, tags :: !Fits(Trim(args), PlayerPrefixes, fields, tags)
    ensures PrepareAddPlayer(args, check) == InvalidFormat(Kind.AddCommand)
  {
    DecodeNone(Trim(args), PlayerPrefixes);
  }

  /** `prepareAddFastPlayer`; its outcome is stated by AddFastPlayerMatch and AddFastPlayerMismatch. */
  function PrepareAddFastPlayer(args: string, check: Validator): (r: Command)
    ensures UsageOf(r, Kind.AddFastCommand)
  {
    match DecodeRequired(Trim(args), PlayerFastPrefixes)
    case None => InvalidFormat(Kind.AddFastCommand)
    case Some(g) => Construct(PlayerFastCommand(g.fields, GetTagsFromArgs(TagGroup(g.tags))), check)
  }

  /** A line matching the short player grammar builds AddFastCommand from its seven fields and the set of tag values. */
  lemma AddFastPlayerMatch(args: string, check: Validator, fields: seq<string>, tags: seq<string>)
    requires Fits(Trim(args), PlayerFastPrefixes, fields, tags)
    ensures PrepareAddFastPlayer(args, check) == Construct(PlayerFastCommand(fields, SetOf(tags)), check)
  {
    PrefixesValid();
    DecodeRequiredComplete(Trim(args), PlayerFastPrefixes, fields, tags);
    TagsOfTagGroup(tags);
  }

  /** A line the short player grammar does not match gives the invalid-format message with AddFastCommand's usage. */
  lemma AddFastPlayerMismatch(args: string, check: Validator)
    requires forall fields, tags :: !Fits(Trim(args), PlayerFastPrefixes, fields, tags)
    ensures PrepareAddFastPlayer(args, check) == InvalidFormat(Kind.AddFastCommand)
  {
    DecodeNone(Trim(args), PlayerFastPrefixes);
  }

  /** `addTeam`; its outcome is stated by AddTeamMatch and AddTeamMismatch. */
  function PrepareAddTeam(args: string, check: Validator): (r: Command)
    ensures UsageOf(r, Kind.AddTeam)
  {
    match DecodeRequired(Trim(args), TeamPrefixes)
    case None => InvalidFormat(Kind.AddTeam)
    case Some(g) =>
      Construct(Command.AddTeam(g.fields[0], g.fields[1], g.fields[2], GetTagsFromArgs(TagGroup(g.tags))), check)
  }

  /** A line matching the team grammar builds AddTeam from name, country and sponsor as matched and the set of tag values. */
  lemma AddTeamMatch(args: string, check: Validator, fields: seq<string>, tags: seq<string>)
    requires Fits(Trim(args), TeamPrefixes, fields, tags)
    ensures PrepareAddTeam(args, check)
      == Construct(Command.AddTeam(fields[0], fields[1], fields[2], SetOf(tags)), check)
  {
    PrefixesValid();
    DecodeRequiredComplete(Trim(args), TeamPrefixes, fields, tags);
    TagsOfTagGroup(tags);
  }

  /** A line the team grammar does not match gives the invalid-format message with AddTeam's usage. */
  lemma AddTeamMismatch(args: string, check: Validator)
    requires forall fields, tags :: !Fits(Trim(args), TeamPrefixes, fields, tags)
    ensures PrepareAddTeam(args, check) == InvalidFormat(Kind.AddTeam)
  {
    DecodeNone(Trim(args), TeamPrefixes);
  }

  /** `prepareAddMatch`; its outcome is stated by AddMatchMatch and AddMatchMismatch. */
  function PrepareAddMatch(args: string, check: Validator): (r: Command)
    ensures UsageOf(r, Kind.AddMatchCommand)
  {
    match DecodeRequired(Trim(args), MatchPrefixes)
    case None => InvalidFormat(Kind.AddMatchCommand)
    case Some(g) => Construct(Command.AddMatchCommand(g.fields[0], g.fields[1], g.fields[2]), check)
  }

  /** A line matching the match grammar builds AddMatchCommand from date, home and away; its tag values are dropped. */
  lemma AddMatchMatch(args: string, check: Validator, fields: seq<string>, tags: seq<string>)
    requires Fits(Trim(args), MatchPrefixes, fields, tags)
    ensures PrepareAddMatch(args, check)
      == Construct(Command.AddMatchCommand(fields[0], fields[1], fields[2]), check)
  {
    PrefixesValid();
    DecodeRequiredComplete(Trim(args), MatchPrefixes, fields, tags);
  }

  /** A line the match grammar does not match gives the invalid-format message with AddMatchCommand's usage. */
  lemma AddMatchMismatch(args: string, check: Validator)
    requires forall fields, tags :: !Fits(Trim(args), MatchPrefixes, fields, tags)
    ensures PrepareAddMatch(args, check) == InvalidFormat(Kind.AddMatchCommand)
  {
    DecodeNone(Trim(args), MatchPrefixes);
  }

  /** Two add-match lines with the same fields give the same command, whatever their tags. */
  lemma AddMatchIgnoresTags(args1: string, args2: string, fields: seq<string>,
                            tags1: seq<string>, tags2: seq<string>, check: Validator)
    requires Fits(Trim(args1), MatchPrefixes, fields, tags1)
    requires Fits(Trim(args2), MatchPrefixes, fields, tags2)
    ensures PrepareAddMatch(args1, check) == PrepareAddMatch(args2, check)
  {
    AddMatchMatch(args1, check, fields, tags1);
    AddMatchMatch(args2, check, fields, tags2);
  }

  // ---------------------------------------------------------------------
  // prepareEditTeam

  /** The index alone, with nothing to edit. */
  function IndexOnly(index: string): EditGroups {
    EditGroups(index, None, None, None, [])
  }

  /** TEAM_EDIT_DATA_ARGS_FORMAT also matches a bare index, so the no-fields check must come first. */
  lemma EditGrammarAcceptsBareIndex(t: string)
    requires IsDigits(t)
    ensures EditFits(t, IndexOnly(t))
    ensures DecodeEdit(t) == Some(IndexOnly(t))
  {
    assert EditText(IndexOnly(t)) == t + [] + [] + [] + [];
    DecodeEditComplete(t, IndexOnly(t));
  }

  /** `prepareEditTeam`; its outcomes are stated by the four lemmas after it. */
  function PrepareEditTeam(args: string, check: Validator): (r: Command)
    ensures UsageOf(r, Kind.EditTeam)
  {
    var t := Trim(args);
    if IsDigits(t) then
      IncorrectCommand(Formatted(MessageNoArgs, Kind.EditTeam))
    else
      match DecodeEdit(t)
      case None => InvalidFormat(Kind.EditTeam)
      case Some(e) =>
        match ParseArgsAsDisplayedIndex(e.index)
        case Failure(_) => InvalidFormat(Kind.EditTeam)
        case Success(i) => Construct(Command.EditTeam(i, e.name, e.country, e.sponsor, GetTagsFromArgs(TagGroup(e.tags))), check)
  }

  /** A bare index, which the edit grammar also matches, is refused with the no-fields message. */
  lemma EditTeamBareIndex(args: string, check: Validator)
    requires IsDigits(Trim(args))
    ensures EditFits(Trim(args), IndexOnly(Trim(args)))
    ensures PrepareEditTeam(args, check) == IncorrectCommand(Formatted(MessageNoArgs, Kind.EditTeam))
  {
    EditGrammarAcceptsBareIndex(Trim(args));
  }

  /** A line with fields yields the edit of the groups it matches, absent groups as null. */
  lemma EditTeamOfGroups(args: string, check: Validator, e: EditGroups)
    requires !IsDigits(Trim(args)) && EditFits(Trim(args), e) && InIntRange(Value(e.index))
    ensures PrepareEditTeam(args, check)
      == Construct(Command.EditTeam(Value(e.index), e.name, e.country, e.sponsor, SetOf(e.tags)), check)
  {
    DecodeEditComplete(Trim(args), e);
    IndexOfDigits(e.index);
    TagsOfTagGroup(e.tags);
  }

  /** An index beyond the range of `int` gives the invalid-format message. */
  lemma EditTeamOverflow(args: string, check: Validator, e: EditGroups)
    requires !IsDigits(Trim(args)) && EditFits(Trim(args), e) && !InIntRange(Value(e.index))
    ensures PrepareEditTeam(args, check) == InvalidFormat(Kind.EditTeam)
  {
    DecodeEditComplete(Trim(args), e);
    IndexOfDigits(e.index);
  }

  /** A line the edit grammar does not match gives the invalid-format message. */
  lemma EditTeamMismatch(args: string, check: Validator)
    requires forall e :: !EditFits(Trim(args), e)
    ensures PrepareEditTeam(args, check) == InvalidFormat(Kind.EditTeam)
  {
    var t := Trim(args);
    if IsDigits(t) {
      EditGrammarAcceptsBareIndex(t);
      assert false;
    }
    if DecodeEdit(t).Some? {
      DecodeEditSound(t);
      assert false;
    }
  }

  // ---------------------------------------------------------------------
  // parseCommand

  /** `BASIC_COMMAND_FORMAT`, `(\S+)(.*)`, matches all of `t` with these two groups. */
  predicate BasicMatch(t: string, word: string, arguments: string) {
    word != [] && NoWhitespace(word) && SingleLine(arguments) && t == word + arguments
  }

  /** The split `BASIC_COMMAND_FORMAT` takes: the word runs up to the first whitespace char. */
  predicate SplitsAt(t: string, word: string, arguments: string) {
    BasicMatch(t, word, arguments) && (arguments == [] || IsWhitespace(arguments[0]))
  }

  /**
   * Splits the trimmed input into the command word and the arguments. When
   * the pattern matches, the word is the longest one it allows (`\S+` is
   * greedy); when it does not, no split satisfies it.
   */
  function SplitCommandWord(t: string): (r: Option<(string, string)>)
    ensures r.Some? ==> SplitsAt(t, r.value.0, r.value.1)
  {
    var w := Run(t);
    if w == [] || !SingleLine(t[|w|..]) then None else Some((w, t[|w|..]))
  }

  /** The split found has the longest word the pattern allows; when none is found, no split matches. */
  lemma SplitCommandWordMaximal(t: string)
    ensures var r := SplitCommandWord(t);
      r.Some? ==> forall j :: |r.value.0| < j <= |t| ==> !BasicMatch(t, t[..j], t[j..])
    ensures SplitCommandWord(t).None? ==> forall j :: 0 <= j <= |t| ==> !BasicMatch(t, t[..j], t[j..])
  {
    SplitCommandWordLimits(t);
  }

  /** Any split at the first whitespace char is the one found. */
  lemma SplitCommandWordFinds(t: string, word: string, arguments: string)
    requires SplitsAt(t, word, arguments)
    ensures SplitCommandWord(t) == Some((word, arguments))
  {
    RunOfWordThenSpace(word, arguments);
  }

  lemma SplitCommandWordLimits(t: string)
    ensures forall j :: |Run(t)| < j <= |t| ==> !NoWhitespace(t[..j])
    ensures Run(t) == [] ==> forall j :: 0 < j <= |t| ==> !NoWhitespace(t[..j])
    ensures !SingleLine(t[|Run(t)|..]) ==> forall j :: 0 <= j <= |Run(t)| ==> !SingleLine(t[j..])
  {
    var w := Run(t);
    forall j | |w| < j <= |t| ensures !NoWhitespace(t[..j]) {
      assert t[..j][|w|] == t[|w|];
    }
    if w == [] {
      forall j | 0 < j <= |t| ensures !NoWhitespace(t[..j]) {
        assert t[..j][0] == t[0];
      }
    }
    if !SingleLine(t[|w|..]) {
      var i :| 0 <= i < |t| - |w| && IsLineTerminator(t[|w|..][i]);
      forall j | 0 <= j <= |w| ensures !SingleLine(t[j..]) {
        assert t[j..][|w| - j + i] == t[|w|..][i];
      }
    }
  }

  /** The command class a word selects: the first case label equal to it, and `help`'s class when none is. */
  function SwitchOn(word: string, vocab: Vocabulary): (k: Kind)
    ensures k == Kind.HelpCommand || vocab(k) == word
    ensures (forall c: Kind :: vocab(c) != word) ==> k == Kind.HelpCommand
    ensures DistinctWords(vocab) ==> forall c: Kind :: vocab(c) == word ==> k == c
  {
    var k := FirstLabel(word, vocab, CaseLabels);
    SwitchOnFindsLabel(word, vocab, k);
    k
  }

  lemma SwitchOnFindsLabel(word: string, vocab: Vocabulary, k: Kind)
    requires k == FirstLabel(word, vocab, CaseLabels)
    ensures DistinctWords(vocab) ==> forall c: Kind :: vocab(c) == word ==> k == c
  {
    if DistinctWords(vocab) {
      forall c: Kind | vocab(c) == word ensures k == c {
        var i := Position(c);
        assert vocab(CaseLabels[i]) == word;
        assert vocab(k) == vocab(c);
      }
    }
  }

  /** The case labels of the switch, in order; `help` falls through to the default. */
  const CaseLabels: seq<Kind> := [
    Kind.AddCommand, Kind.AddFastCommand, Kind.AddTeam, Kind.DeleteCommand, Kind.DeleteTeam,
    Kind.ClearCommand, Kind.ClearTeam, Kind.FindCommand, Kind.FindTeam, Kind.FinanceCommand,
    Kind.ListCommand, Kind.AddMatchCommand, Kind.DeleteMatchCommand, Kind.ClearMatchCommand,
    Kind.FindMatchCommand, Kind.ListMatchCommand, Kind.ListTeam, Kind.ListFinanceCommand,
    Kind.EditTeam, Kind.SortCommand, Kind.ViewAllCommand, Kind.ExitCommand, Kind.HelpCommand]

  /** Where each command class's label sits in the switch. */
  function Position(k: Kind): (i: nat)
    ensures i < |CaseLabels| && CaseLabels[i] == k
  {
    match k
    case AddCommand => 0
    case AddFastCommand => 1
    case AddTeam => 2
    case DeleteCommand => 3
    case DeleteTeam => 4
    case ClearCommand => 5
    case ClearTeam => 6
    case FindCommand => 7
    case FindTeam => 8
    case FinanceCommand => 9
    case ListCommand => 10
    case AddMatchCommand => 11
    case DeleteMatchCommand => 12
    case ClearMatchCommand => 13
    case FindMatchCommand => 14
    case ListMatchCommand => 15
    case ListTeam => 16
    case ListFinanceCommand => 17
    case EditTeam => 18
    case SortCommand => 19
    case ViewAllCommand => 20
    case ExitCommand => 21
    case HelpCommand => 22
  }

  /** The first of `labels` whose word is `word`, or HelpCommand (the default branch). */
  function FirstLabel(word: string, vocab: Vocabulary, labels: seq<Kind>): (k: Kind)
    ensures k == Kind.HelpCommand || (k in labels && vocab(k) == word)
    ensures forall i :: 0 <= i < |labels| && vocab(labels[i]) == word ==> k in labels && vocab(k) == word
  {
    if labels == [] then Kind.HelpCommand
    else if vocab(labels[0]) == word then labels[0]
    else FirstLabel(word, vocab, labels[1..])
  }

  /** When some label has the word, the one chosen is the earliest such label. */
  lemma {:induction false} FirstLabelIsFirst(word: string, vocab: Vocabulary, labels: seq<Kind>)
    requires exists i :: 0 <= i < |labels| && vocab(labels[i]) == word
    ensures exists i :: 0 <= i < |labels| && labels[i] == FirstLabel(word, vocab, labels)
                        && forall j :: 0 <= j < i ==> vocab(labels[j]) != word
    decreases |labels|
  {
    var k := FirstLabel(word, vocab, labels);
    if vocab(labels[0]) == word {
      assert labels[0] == k;
    } else {
      var rest := labels[1..];
      var i :| 0 <= i < |labels| && vocab(labels[i]) == word;
      assert rest[i - 1] == labels[i];
      FirstLabelIsFirst(word, vocab, rest);
      var i' :| 0 <= i' < |rest| && rest[i'] == k && forall j :: 0 <= j < i' ==> vocab(rest[j]) != word;
      assert labels[i' + 1] == k;
      forall j | 0 <= j < i' + 1 ensures vocab(labels[j]) != word {
        if j > 0 {
          assert labels[j] == rest[j - 1];
        }
      }
    }
  }

  /** The branch of the switch for each command class. */
  function Dispatch(k: Kind, arguments: string, check: Validator): Command {
    match k
    case AddCommand => PrepareAddPlayer(arguments, check)
    case AddFastCommand => PrepareAddFastPlayer(arguments, check)
    case AddTeam => PrepareAddTeam(arguments, check)
    case DeleteCommand => PrepareDeletePlayer(arguments)
    case DeleteTeam => DelTeam(arguments)
    case ClearCommand => Command.ClearCommand
    case ClearTeam => Command.ClearTeam
    case FindCommand => PrepareFindPerson(arguments)
    case FindTeam => PrepareFindTeam(arguments)
    case FinanceCommand => PrepareFinance(arguments)
    case ListCommand => Command.ListCommand
    case AddMatchCommand => PrepareAddMatch(arguments, check)
    case DeleteMatchCommand => PrepareDeleteMatch(arguments)
    case ClearMatchCommand => Command.ClearMatchCommand
    case FindMatchCommand => PrepareFindMatch(arguments)
    case ListMatchCommand => Command.ListMatchCommand
    case ListTeam => Command.ListTeam
    case ListFinanceCommand => Command.ListFinanceCommand
    case EditTeam => PrepareEditTeam(arguments, check)
    case SortCommand => Command.SortCommand
    case ViewAllCommand => PrepareViewAll(arguments)
    case ExitCommand => Command.ExitCommand
    case HelpCommand => Command.HelpCommand
  }

  /** `parseCommand`: a total function from the input line to a command. */
  function ParseCommand(userInput: string, vocab: Vocabulary, check: Validator): Command {
    match SplitCommandWord(Trim(userInput))
    case None => InvalidFormat(Kind.HelpCommand)
    case Some((word, arguments)) => Dispatch(SwitchOn(word, vocab), arguments, check)
  }

  // ---------------------------------------------------------------------
  // Properties of parseCommand

  /** Every branch of the switch names its own class's usage when it fails. */
  lemma DispatchUsage(k: Kind, arguments: string, check: Validator)
    ensures UsageOf(Dispatch(k, arguments, check), k)
  {
    if TakesIndex(k) {
      IndexBranchUsage(k, arguments, check);
    } else if SearchesBy(k) {
      FindBranchUsage(k, arguments, check);
    } else if TakesNoArguments(k) {
      NoArgumentBranches(k, arguments, arguments, check, check);
    } else {
      GrammarBranchUsage(k, arguments, check);
    }
  }

  lemma GrammarBranchUsage(k: Kind, arguments: string, check: Validator)
    requires !TakesIndex(k) && !SearchesBy(k) && !TakesNoArguments(k)
    ensures UsageOf(Dispatch(k, arguments, check), k)
  {
    match k
    case AddCommand =>
    case AddFastCommand =>
    case AddTeam =>
    case AddMatchCommand =>
    case EditTeam =>
    case _ => assert false;
  }

  lemma IndexBranchUsage(k: Kind, arguments: string, check: Validator)
    requires TakesIndex(k)
    ensures UsageOf(Dispatch(k, arguments, check), k)
  {
    var r := Dispatch(k, arguments, check);
    match k
    case DeleteCommand => assert IndexOutcome(k, arguments, r);
    case DeleteTeam => assert IndexOutcome(k, arguments, r);
    case FinanceCommand => assert IndexOutcome(k, arguments, r);
    case DeleteMatchCommand => assert IndexOutcome(k, arguments, r);
    case ViewAllCommand => assert IndexOutcome(k, arguments, r);
    case _ => assert false;
  }

  lemma FindBranchUsage(k: Kind, arguments: string, check: Validator)
    requires SearchesBy(k)
    ensures UsageOf(Dispatch(k, arguments, check), k)
  {
    var r := Dispatch(k, arguments, check);
    match k
    case FindCommand => assert FindOutcome(k, arguments, r);
    case FindTeam => assert FindOutcome(k, arguments, r);
    case FindMatchCommand => assert FindOutcome(k, arguments, r);
    case _ => assert false;
  }

  /** No branch of the switch answers with the help usage; only a failed split does. */
  lemma DispatchNeverHelpFormat(k: Kind, arguments: string, check: Validator)
    ensures Dispatch(k, arguments, check) != InvalidFormat(Kind.HelpCommand)
  {
    if k == Kind.HelpCommand {
      assert Dispatch(k, arguments, check) == Command.HelpCommand;
    } else {
      DispatchUsage(k, arguments, check);
    }
  }

  /** A line whose trimmed text splits into a word and arguments runs the branch the word selects, on those arguments. */
  lemma ParseCommandSplits(userInput: string, vocab: Vocabulary, check: Validator, word: string, arguments: string)
    requires SplitsAt(Trim(userInput), word, arguments)
    ensures ParseCommand(userInput, vocab, check) == Dispatch(SwitchOn(word, vocab), arguments, check)
  {
    SplitCommandWordFinds(Trim(userInput), word, arguments);
  }

  /** The command word of a class selects that class's branch. */
  lemma ParseKnownWord(userInput: string, vocab: Vocabulary, check: Validator, k: Kind, arguments: string)
    requires DistinctWords(vocab)
    requires SplitsAt(Trim(userInput), vocab(k), arguments)
    ensures ParseCommand(userInput, vocab, check) == Dispatch(k, arguments, check)
  {
    ParseCommandSplits(userInput, vocab, check, vocab(k), arguments);
    assert SwitchOn(vocab(k), vocab) == k;
  }

  /** A word no class uses falls to the default branch: a HelpCommand, whatever the arguments. */
  lemma ParseUnknownWord(userInput: string, vocab: Vocabulary, check: Validator, word: string, arguments: string)
    requires SplitsAt(Trim(userInput), word, arguments)
    requires forall c: Kind :: vocab(c) != word
    ensures ParseCommand(userInput, vocab, check) == Command.HelpCommand
  {
    assert SwitchOn(word, vocab) == Kind.HelpCommand;
    ParseCommandSplits(userInput, vocab, check, word, arguments);
  }

  /**
   * The invalid-format message with the help usage comes exactly from lines
   * `BASIC_COMMAND_FORMAT` does not match: blank lines, and lines with a
   * line break after the first whitespace char.
   */
  lemma ParseFormatError(userInput: string, vocab: Vocabulary, check: Validator)
    ensures var t := Trim(userInput);
      ParseCommand(userInput, vocab, check) == InvalidFormat(Kind.HelpCommand)
      <==> forall j :: 0 <= j <= |t| ==> !BasicMatch(t, t[..j], t[j..])
    ensures var t := Trim(userInput);
      ParseCommand(userInput, vocab, check) == InvalidFormat(Kind.HelpCommand)
      <==> t == [] || !SingleLine(t[|Run(t)|..])
  {
    var t := Trim(userInput);
    var split := SplitCommandWord(t);
    SplitCommandWordMaximal(t);
    if split.Some? {
      var word, arguments := split.value.0, split.value.1;
      assert ParseCommand(userInput, vocab, check) == Dispatch(SwitchOn(word, vocab), arguments, check);
      DispatchNeverHelpFormat(SwitchOn(word, vocab), arguments, check);
      assert t[..|word|] == word && t[|word|..] == arguments;
    }
    if t != [] {
      WhitespaceIsBlank(t[0]);
      assert Run(t) != [];
    }
  }

  /** A line break after the first whitespace char is a format error, whatever the word. */
  lemma BrokenArguments(userInput: string, vocab: Vocabulary, check: Validator, word: string, arguments: string)
    requires Trim(userInput) == word + arguments
    requires word != [] && NoWhitespace(word) && (arguments == [] || IsWhitespace(arguments[0]))
    requires !SingleLine(arguments)
    ensures ParseCommand(userInput, vocab, check) == InvalidFormat(Kind.HelpCommand)
  {
    RunOfWordThenSpace(word, arguments);
    assert SplitCommandWord(Trim(userInput)).None?;
  }

  /** A blank line is a format error. */
  lemma BlankInputIsFormatError(userInput: string, vocab: Vocabulary, check: Validator)
    requires AllBlank(userInput)
    ensures ParseCommand(userInput, vocab, check) == InvalidFormat(Kind.HelpCommand)
  {
    ParseFormatError(userInput, vocab, check);
  }

  /** The classes whose branch builds the command without looking at the arguments. */
  predicate TakesNoArguments(k: Kind) {
    k in {Kind.ClearCommand, Kind.ClearTeam, Kind.ListCommand, Kind.ClearMatchCommand, Kind.ListMatchCommand,
          Kind.ListTeam, Kind.ListFinanceCommand, Kind.SortCommand, Kind.ExitCommand, Kind.HelpCommand}
  }

  /** Those branches ignore the arguments, and ignore the validator too. */
  lemma NoArgumentBranches(k: Kind, arguments1: string, arguments2: string, check1: Validator, check2: Validator)
    requires TakesNoArguments(k)
    ensures Dispatch(k, arguments1, check1) == Dispatch(k, arguments2, check2)
    ensures !Dispatch(k, arguments1, check1).IncorrectCommand?
  {
  }
}
