/**
 * Concrete lines and what the parser makes of them: the edge cases of each
 * grammar, stated for particular inputs.
 */
module ParserCases {
  import opened Wrappers
  import opened JavaText
  import opened JavaSplit
  import opened JavaInteger
  import opened Segments
  import opened Grammars
  import opened Commands
  import opened Parser

  // ---------------------------------------------------------------------
  // addTeam

  lemma TeamLayout()
    ensures Layout(TeamPrefixes, ["Arsenal ", "England ", "Emirates"]) == "Arsenal c/England s/Emirates"
  {
  }

  lemma TeamTags()
    ensures TagGroup(["rich", "rich"]) == " t/rich t/rich"
  {
  }

  lemma TeamLineFits()
    ensures Fits("Arsenal c/England s/Emirates t/rich t/rich", TeamPrefixes,
                 ["Arsenal ", "England ", "Emirates"], ["rich", "rich"])
  {
    TeamLayout();
    TeamTags();
    TeamFields();
  }

  lemma TeamFields()
    ensures AllFields(["Arsenal ", "England ", "Emirates"]) && AllFields(["rich", "rich"])
  {
    assert IsField("Arsenal ") && IsField("England ") && IsField("Emirates") && IsField("rich");
  }

  lemma TeamTagSet()
    ensures SetOf(["rich", "rich"]) == {"rich"}
  {
  }

  lemma TeamLineTrimmed()
    ensures Trim("Arsenal c/England s/Emirates t/rich t/rich") == "Arsenal c/England s/Emirates t/rich t/rich"
  {
    var x := "Arsenal c/England s/Emirates t/rich t/rich";
    TrimOfPadded([], x, []);
    assert [] + x + [] == x;
  }

  /** Fields keep the blank before the next prefix; repeated tag values collapse into one. */
  lemma AddTeamCase(args: string, check: Validator)
    requires Trim(args) == "Arsenal c/England s/Emirates t/rich t/rich"
    ensures PrepareAddTeam(args, check)
      == Construct(Command.AddTeam("Arsenal ", "England ", "Emirates", {"rich"}), check)
  {
    TeamLineFits();
    AddTeamMatch(args, check, ["Arsenal ", "England ", "Emirates"], ["rich", "rich"]);
    TeamTagSet();
  }

  /** The line itself, unpadded, is such an input. */
  lemma AddTeamLine(check: Validator)
    ensures PrepareAddTeam("Arsenal c/England s/Emirates t/rich t/rich", check)
      == Construct(Command.AddTeam("Arsenal ", "England ", "Emirates", {"rich"}), check)
  {
    TeamLineTrimmed();
    AddTeamCase("Arsenal c/England s/Emirates t/rich t/rich", check);
  }

  // ---------------------------------------------------------------------
  // The index commands

  /** Any blank-padded rendering of an `int` is read back as that number. */
  lemma DeleteOfIndex(v: int, before: string, after: string)
    requires InIntRange(v) && AllBlank(before) && AllBlank(after)
    ensures PrepareDeletePlayer(before + IntToString(v) + after) == Command.DeleteCommand(v)
  {
    IndexRoundTrip(v, before, after);
  }

  lemma ThreeText()
    ensures " " + IntToString(3) + [] == " 3" && AllBlank(" ")
  {
    assert IntToString(3) == "3";
  }

  lemma ZeroText()
    ensures " " + IntToString(0) + [] == " 0" && AllBlank(" ")
  {
    assert IntToString(0) == "0";
  }

  lemma MinusTwoText()
    ensures " " + IntToString(-2) + [] == " -2" && AllBlank(" ")
  {
    assert Decimal(2) == "2";
    assert IntToString(-2) == "-2";
  }

  /** A number after the command word is read after trimming. */
  lemma DeletePositive()
    ensures PrepareDeletePlayer(" 3") == Command.DeleteCommand(3)
  {
    ThreeText();
    DeleteOfIndex(3, " ", []);
  }

  /** Zero is accepted: the parser does not check that the index is positive. */
  lemma DeleteZero()
    ensures PrepareDeletePlayer(" 0") == Command.DeleteCommand(0)
  {
    ZeroText();
    DeleteOfIndex(0, " ", []);
  }

  /** A negative number is accepted too, since `parseInt` takes a sign. */
  lemma DeleteNegative()
    ensures PrepareDeletePlayer(" -2") == Command.DeleteCommand(-2)
  {
    MinusTwoText();
    DeleteOfIndex(-2, " ", []);
  }

  /** A word that is not a number is a format error with the command's usage. */
  lemma DeleteWord()
    ensures PrepareDeletePlayer(" abc") == InvalidFormat(Kind.DeleteCommand)
  {
    TrimOfPadded(" ", "abc", []);
    assert " " + "abc" + [] == " abc";
    assert !IsDigit('a');
    assert !IsIntLiteral("abc");
  }

  /** No arguments at all is the same format error. */
  lemma DeleteNothing()
    ensures PrepareDeletePlayer("") == InvalidFormat(Kind.DeleteCommand)
  {
  }

  // ---------------------------------------------------------------------
  // editTeam

  /** A bare index is refused with the no-fields message. */
  lemma EditTeamIndexAlone(check: Validator)
    ensures PrepareEditTeam(" 5", check) == IncorrectCommand(Formatted(MessageNoArgs, Kind.EditTeam))
  {
    TrimOfPadded(" ", "5", []);
    assert " " + "5" + [] == " 5";
    EditTeamBareIndex(" 5", check);
  }

  lemma EditLineText()
    ensures EditText(EditGroups("2", Some("Chelsea"), None, None, ["blue"])) == "2 n/Chelsea t/blue"
  {
    assert TagGroup(["blue"]) == " t/blue";
  }

  lemma EditLineFits()
    ensures EditFits("2 n/Chelsea t/blue", EditGroups("2", Some("Chelsea"), None, None, ["blue"]))
  {
    EditLineText();
    assert IsField("Chelsea") && IsField("blue");
  }

  lemma EditLineNotIndex()
    ensures !IsDigits("2 n/Chelsea t/blue")
  {
    assert !IsDigit("2 n/Chelsea t/blue"[1]);
  }

  lemma EditLineValues()
    ensures Value("2") == 2 && InIntRange(2)
    ensures SetOf(["blue"]) == {"blue"}
  {
  }

  /** Groups left out of the line are absent (null) in the edit. */
  lemma EditTeamCase(args: string, check: Validator)
    requires Trim(args) == "2 n/Chelsea t/blue"
    ensures PrepareEditTeam(args, check)
      == Construct(Command.EditTeam(2, Some("Chelsea"), None, None, {"blue"}), check)
  {
    var e := EditGroups("2", Some("Chelsea"), None, None, ["blue"]);
    EditLineFits();
    EditLineNotIndex();
    EditLineValues();
    EditTeamOfGroups(args, check, e);
  }

  // ---------------------------------------------------------------------
  // The find commands

  lemma KeywordLine()
    ensures JoinSpaced(["alice", "bob", "alice"]) == "alice bob alice"
  {
  }

  lemma KeywordsSet()
    ensures " " + JoinSpaced(["alice", "bob", "alice"]) + [] == " alice bob alice"
    ensures SetOf(["alice", "bob", "alice"]) == {"alice", "bob"}
    ensures FindCommandOf(Kind.FindCommand, {"alice", "bob"}) == Command.FindCommand({"alice", "bob"})
  {
    KeywordLine();
  }

  lemma KeywordsFit()
    ensures var keywords := ["alice", "bob", "alice"];
      forall i :: 0 <= i < |keywords| ==> keywords[i] != [] && NoWhitespace(keywords[i])
    ensures IsTrimmed("alice") && AllBlank(" ")
  {
    assert NoWhitespace("alice") && NoWhitespace("bob");
  }

  /** Keywords are the set of whitespace-separated tokens. */
  lemma FindCase()
    ensures PrepareFindPerson(" alice bob alice") == Command.FindCommand({"alice", "bob"})
  {
    var keywords := ["alice", "bob", "alice"];
    KeywordLine();
    KeywordsFit();
    FindOfJoinedKeywords(Kind.FindCommand, keywords, " ", []);
    KeywordsSet();
  }

  /** Blank arguments are a format error. */
  lemma FindBlank()
    ensures PrepareFindPerson("   ") == InvalidFormat(Kind.FindCommand)
  {
    assert AllBlank("   ");
  }

  // ---------------------------------------------------------------------
  // parseCommand, with `delete` as the word of DeleteCommand

  lemma DeleteLinePieces()
    ensures AllBlank("  ") && AllBlank(" ") && IsTrimmed("delete 3")
    ensures "  " + "delete 3" + " " == "  delete 3 "
  {
  }

  /** Blanks around a line are dropped before it is split. */
  lemma DeleteLineTrimmed()
    ensures Trim("  delete 3 ") == "delete 3"
  {
    DeleteLinePieces();
    TrimOfPadded("  ", "delete 3", " ");
  }

  lemma DeleteLineSplits()
    ensures SplitsAt("delete 3", "delete", " 3")
  {
    assert "delete 3" == "delete" + " 3";
    assert NoWhitespace("delete");
  }

  /** A line reading `delete 3` once trimmed, such as `  delete 3 `, deletes the third player. */
  lemma ParseDeleteLine(userInput: string, vocab: Vocabulary, check: Validator)
    requires DistinctWords(vocab) && vocab(Kind.DeleteCommand) == "delete"
    requires Trim(userInput) == "delete 3"
    ensures ParseCommand(userInput, vocab, check) == Command.DeleteCommand(3)
  {
    DeleteLineSplitsFor(userInput, vocab);
    ParseKnownWord(userInput, vocab, check, Kind.DeleteCommand, " 3");
    DeletePositive();
  }

  lemma DeleteLineSplitsFor(userInput: string, vocab: Vocabulary)
    requires vocab(Kind.DeleteCommand) == "delete" && Trim(userInput) == "delete 3"
    ensures SplitsAt(Trim(userInput), vocab(Kind.DeleteCommand), " 3")
  {
    DeleteLineSplits();
  }

  lemma DeleteWordSplits()
    ensures SplitsAt("delete", "delete", [])
  {
    assert "delete" == "delete" + [];
    assert NoWhitespace("delete");
  }

  /** The word alone reaches the branch with empty arguments. */
  lemma ParseDeleteAlone(userInput: string, vocab: Vocabulary, check: Validator)
    requires DistinctWords(vocab) && vocab(Kind.DeleteCommand) == "delete"
    requires Trim(userInput) == "delete"
    ensures ParseCommand(userInput, vocab, check) == InvalidFormat(Kind.DeleteCommand)
  {
    DeleteWordSplitsFor(userInput, vocab);
    ParseKnownWord(userInput, vocab, check, Kind.DeleteCommand, []);
    DeleteNothing();
  }

  lemma DeleteWordSplitsFor(userInput: string, vocab: Vocabulary)
    requires vocab(Kind.DeleteCommand) == "delete" && Trim(userInput) == "delete"
    ensures SplitsAt(Trim(userInput), vocab(Kind.DeleteCommand), [])
  {
    DeleteWordSplits();
  }

  lemma BrokenLineParts()
    ensures "delete 3\nx" == "delete" + " 3\nx"
    ensures "delete" != [] && NoWhitespace("delete") && IsWhitespace(" 3\nx"[0])
    ensures !SingleLine(" 3\nx")
  {
    assert " 3\nx"[2] == '\n';
  }

  /** A line break in the arguments defeats `.*`, whatever the word. */
  lemma ParseLineBreak(userInput: string, vocab: Vocabulary, check: Validator)
    requires Trim(userInput) == "delete 3\nx"
    ensures ParseCommand(userInput, vocab, check) == InvalidFormat(Kind.HelpCommand)
  {
    BrokenLineParts();
    BrokenArguments(userInput, vocab, check, "delete", " 3\nx");
  }
}
