/**
 * The values the parser produces. The command classes themselves (their
 * execution, their COMMAND_WORD and MESSAGE_USAGE texts) are not part of this
 * model: a command is the data its constructor receives.
 */
module Commands {
  import opened Wrappers

  /**
   * The command classes as the parser's switch names them, in the order of
   * its case labels. `Kind.X` stands for `X.COMMAND_WORD` where a word is
   * meant and for `X.MESSAGE_USAGE` where a usage text is meant.
   */
  datatype Kind =
    | AddCommand | AddFastCommand | AddTeam | DeleteCommand | DeleteTeam
    | ClearCommand | ClearTeam | FindCommand | FindTeam | FinanceCommand
    | ListCommand | AddMatchCommand | DeleteMatchCommand | ClearMatchCommand
    | FindMatchCommand | ListMatchCommand | ListTeam | ListFinanceCommand
    | EditTeam | SortCommand | ViewAllCommand | ExitCommand | HelpCommand

  /** The two format strings the parser fills with a usage text. */
  datatype Template =
    | MessageInvalidCommandFormat  // Messages.MESSAGE_INVALID_COMMAND_FORMAT
    | MessageNoArgs                // EditTeam.MESSAGE_NOARGS

  /** The feedback of an IncorrectCommand. */
  datatype Feedback =
    | Formatted(template: Template, usage: Kind)  // String.format(template, usage.MESSAGE_USAGE)
    | Message(text: string)                       // the message of an IllegalValueException

  /** A command as constructed by the parser; tag and keyword collections are sets, as the HashSets are. */
  datatype Command =
    | AddCommand(name: string, position: string, age: string, salary: string,
                 goalsScored: string, goalsAssisted: string, team: string, country: string,
                 jerseyNumber: string, appearance: string, healthStatus: string, tags: set<string>)
    | AddFastCommand(name: string, position: string, age: string, salary: string,
                     team: string, country: string, jerseyNumber: string, tags: set<string>)
    | AddTeam(name: string, country: string, sponsor: string, tags: set<string>)
    | DeleteCommand(targetIndex: int)
    | DeleteTeam(targetIndex: int)
    | ClearCommand
    | ClearTeam
    | FindCommand(keywords: set<string>)
    | FindTeam(keywords: set<string>)
    | FinanceCommand(targetIndex: int)
    | ListCommand
    | AddMatchCommand(date: string, home: string, away: string)
    | DeleteMatchCommand(targetIndex: int)
    | ClearMatchCommand
    | FindMatchCommand(keywords: set<string>)
    | ListMatchCommand
    | ListTeam
    | ListFinanceCommand
      // null (None) stands for a field the edit leaves unchanged
    | EditTeam(targetIndex: int, newName: Option<string>, newCountry: Option<string>,
               newSponsor: Option<string>, tags: set<string>)
    | SortCommand
    | ViewAllCommand(targetIndex: int)
    | ExitCommand
    | HelpCommand
    | IncorrectCommand(feedback: Feedback)
}
