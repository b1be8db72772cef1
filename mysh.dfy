/**
 The shell object of mysh.cpp: a registry of keyword-tagged commands, a log
 of every line read, and the dispatcher that records a line, splits it and
 runs the command whose keyword matches the first token.

 Terminal I/O is replaced by values: a line is a parameter of ProcessInput,
 and what the shell would print comes back as a result.
 */
module Shell {
  import opened Tokenizer

  datatype Option<T> = None | Some(value: T)

  /** What a built-in command does when it is executed. */
  datatype Action =
    | PrintHistory  // HistoryCommand: prints the input history
    | Exit          // ExitCommand: ends the process with EXIT_FAILURE

  /** A registered command: the keyword it answers to and what it does. */
  datatype Command = Command(keyword: string, action: Action)

  const HistoryCommand: Command := Command("history", PrintHistory)
  const ExitCommand: Command := Command("byebye", Exit)

  /** The status `exit(EXIT_FAILURE)` hands to the operating system. */
  const ExitFailure: int := 1

  /** What processing one line leads to. */
  datatype Outcome =
    | NotFound                   // "Command was not found" on the error stream
    | Printed(lines: seq<string>)  // lines written to the output stream
    | Exited(status: int)        // the process ends with this status

  /**
   The command selected for `key`: the LAST index in registry order whose
   keyword equals `key`, or None when no keyword does.
   */
  function LastMatch(commands: seq<Command>, key: string): (r: Option<nat>)
    ensures r.Some? ==> r.value < |commands| && commands[r.value].keyword == key
    ensures r.Some? ==> forall j :: r.value < j < |commands| ==> commands[j].keyword != key
    ensures r.None? <==> forall j :: 0 <= j < |commands| ==> commands[j].keyword != key
  {
    if commands == [] then None
    else if commands[|commands| - 1].keyword == key then Some(|commands| - 1)
    else LastMatch(commands[..|commands| - 1], key)
  }

  /**
   The history entry kept for a line. The entry is a C string copied with
   `strcpy` from `c_str()`, so it holds the line only up to its first NUL
   character: the longest NUL-free prefix of the line.
   */
  function HistoryEntry(line: string): (entry: string)
    ensures |entry| <= |line| && entry == line[..|entry|]
    ensures forall k :: 0 <= k < |entry| ==> entry[k] != '\0'
    ensures |entry| < |line| ==> line[|entry|] == '\0'
  {
    if line == [] || line[0] == '\0' then []
    else
      var tail := HistoryEntry(line[1..]);
      assert [line[0]] + line[1..][..|tail|] == line[..|tail| + 1];
      [line[0]] + tail
  }

  /** A line without NUL characters is kept whole. */
  lemma HistoryEntryOfText(line: string)
    requires forall k :: 0 <= k < |line| ==> line[k] != '\0'
    ensures HistoryEntry(line) == line
  {
    assert line[..|line|] == line;
  }

  /** The history entries kept for successive lines. */
  function HistoryEntries(lines: seq<string>): (entries: seq<string>)
    ensures |entries| == |lines|
    ensures forall k {:trigger HistoryEntry(lines[k])} :: 0 <= k < |lines| ==> entries[k] == HistoryEntry(lines[k])
  {
    if lines == [] then [] else [HistoryEntry(lines[0])] + HistoryEntries(lines[1..])
  }

  /** The entries of a line followed by more lines: that line's entry, then theirs. */
  lemma HistoryEntriesCons(line: string, rest: seq<string>)
    ensures HistoryEntries([line] + rest) == [HistoryEntry(line)] + HistoryEntries(rest)
  {
    assert ([line] + rest)[1..] == rest;
  }

  /** Running a command, given the history as it stands when it runs. */
  function Execute(action: Action, history: seq<string>): (r: Outcome)
    ensures r.Printed? <==> action == PrintHistory
    ensures r.Printed? ==> r.lines == history
    ensures r.Exited? ==> r.status == ExitFailure
    ensures !r.NotFound?
  {
    match action
    case PrintHistory => Printed(history)
    case Exit => Exited(ExitFailure)
  }

  /** The new history, the selected registry index and the outcome of one line. */
  datatype Reply = Reply(history: seq<string>, selected: Option<nat>, outcome: Outcome)

  /**
   One pass of ProcessInput as a function of the state it reads: the line is
   recorded first, then split, then looked up, then executed.
   */
  function Dispatch(commands: seq<Command>, history: seq<string>, line: string): (r: Reply)
    ensures r.history == history + [HistoryEntry(line)]
    ensures r.selected == LastMatch(commands, FirstToken(line))
    ensures r.outcome.NotFound? <==> r.selected.None?
  {
    var recorded := history + [HistoryEntry(line)];
    var selected := LastMatch(commands, FirstToken(line));
    Reply(recorded, selected,
          if selected.None? then NotFound else Execute(commands[selected.value].action, recorded))
  }

  class Mysh {
    var commands: seq<Command>
    var inputHistory: seq<string>

    /** A shell with an empty registry and an empty history. */
    constructor ()
      ensures commands == [] && inputHistory == []
    {
      commands := [];
      inputHistory := [];
    }

    /** Registers `history` and then `byebye`, after whatever is already registered. */
    method InitializeCommands()
      modifies this
      ensures commands == old(commands) + [HistoryCommand, ExitCommand]
      ensures inputHistory == old(inputHistory)
    {
      commands := commands + [HistoryCommand];
      commands := commands + [ExitCommand];
    }

    /** The registry size and its keywords in registration order. */
    method PrintCommands() returns (count: nat, keywords: seq<string>)
      ensures count == |commands|
      ensures |keywords| == |commands|
      ensures forall i :: 0 <= i < |commands| ==> keywords[i] == commands[i].keyword
    {
      count := |commands|;
      keywords := [];
      for i := 0 to |commands|
        invariant |keywords| == i
        invariant forall k :: 0 <= k < i ==> keywords[k] == commands[k].keyword
      {
        keywords := keywords + [commands[i].keyword];
      }
    }

    /** The history entries, one per output line, oldest first. */
    method PrintInputHistory() returns (lines: seq<string>)
      ensures lines == inputHistory
    {
      lines := [];
      for i := 0 to |inputHistory|
        invariant lines == inputHistory[..i]
      {
        lines := lines + [inputHistory[i]];
      }
    }

    /** The lookup loop of ProcessInput: every match overwrites the previous one. */
    method FindCommand(firstToken: string) returns (selected: Option<nat>)
      ensures selected == LastMatch(commands, firstToken)
    {
      selected := None;
      for i := 0 to |commands|
        invariant selected == LastMatch(commands[..i], firstToken)
      {
        assert commands[..i + 1][..i] == commands[..i];
        if firstToken == commands[i].keyword {
          selected := Some(i);
        }
      }
      assert commands[..|commands|] == commands;
    }

    /**
     Records `line`, splits it, selects the command for the first token and
     runs it. Returns the selected registry index (None when no keyword
     matched) and what the shell then prints or does.
     */
    method ProcessInput(line: string) returns (selected: Option<nat>, outcome: Outcome)
      modifies this
      ensures commands == old(commands)
      ensures inputHistory == old(inputHistory) + [HistoryEntry(line)]
      ensures Reply(inputHistory, selected, outcome) == Dispatch(commands, old(inputHistory), line)
    {
      inputHistory := inputHistory + [HistoryEntry(line)];
      var tokens := Tokenize(line);
      var firstToken := tokens[0];
      FirstTokenIsHead(line);
      selected := FindCommand(firstToken);
      if selected.None? {
        outcome := NotFound;
        return;
      }
      match commands[selected.value].action
      case PrintHistory =>
        var lines := PrintInputHistory();
        outcome := Printed(lines);
      case Exit =>
        outcome := Exited(ExitFailure);
    }
  }

  /** What the program prints at start-up: a fresh shell after InitializeCommands. */
  method StartupListing() returns (count: nat, keywords: seq<string>)
    ensures count == 2
    ensures keywords == ["history", "byebye"]
  {
    var shell := new Mysh();
    shell.InitializeCommands();
    count, keywords := shell.PrintCommands();
  }

  /** The registry InitializeCommands builds from the constructor's empty one. */
  const StandardRegistry: seq<Command> := [HistoryCommand, ExitCommand]

  /**
   Nothing runs exactly when no registered keyword equals the first token;
   the history still gains the line.
   */
  lemma NotFoundIff(commands: seq<Command>, history: seq<string>, line: string)
    ensures Dispatch(commands, history, line).outcome == NotFound
        <==> forall j :: 0 <= j < |commands| ==> commands[j].keyword != FirstToken(line)
    ensures Dispatch(commands, history, line).history == history + [HistoryEntry(line)]
  {
  }

  /** A command registered later with the same keyword shadows every earlier one. */
  lemma LaterRegistrationWins(commands: seq<Command>, c: Command, history: seq<string>, line: string)
    requires FirstToken(line) == c.keyword
    ensures Dispatch(commands + [c], history, line).selected == Some(|commands|)
    ensures Dispatch(commands + [c], history, line).outcome == Execute(c.action, history + [HistoryEntry(line)])
  {
  }

  /** Registering a command whose keyword differs from the first token does not change the selection. */
  lemma OtherRegistrationIrrelevant(commands: seq<Command>, c: Command, history: seq<string>, line: string)
    requires FirstToken(line) != c.keyword
    ensures Dispatch(commands + [c], history, line) == Dispatch(commands, history, line)
  {
  }

  /** A standard keyword typed alone selects its own registry entry. */
  lemma StandardSelection(keyword: string, i: nat)
    requires i < |StandardRegistry| && keyword == StandardRegistry[i].keyword
    ensures Tokenize(keyword) == [keyword]
    ensures LastMatch(StandardRegistry, keyword) == Some(i)
  {
    assert NoWhitespace(HistoryCommand.keyword) && NoWhitespace(ExitCommand.keyword);
    SingleTokenIff(keyword);
    assert HistoryCommand.keyword != ExitCommand.keyword;
  }

  /** `history` prints the log including its own line, which was recorded before it ran. */
  lemma HistoryPrintsItself(history: seq<string>)
    ensures Dispatch(StandardRegistry, history, "history").selected == Some(0)
    ensures Dispatch(StandardRegistry, history, "history").outcome == Printed(history + ["history"])
  {
    StandardSelection(HistoryCommand.keyword, 0);
    HistoryEntryOfText("history");
  }

  /** `byebye` ends the process with the failure status. */
  lemma ByebyeExits(history: seq<string>)
    ensures Dispatch(StandardRegistry, history, "byebye").selected == Some(1)
    ensures Dispatch(StandardRegistry, history, "byebye").outcome == Exited(ExitFailure)
  {
  }

  /**
   A line that is empty or starts with whitespace has an empty first token,
   which no standard keyword equals: it is reported as not found, and it is
   still recorded.
   */
  lemma LeadingBlankNotFound(history: seq<string>, line: string)
    requires line == [] || IsWhitespace(line[0])
    ensures Dispatch(StandardRegistry, history, line).outcome == NotFound
    ensures Dispatch(StandardRegistry, history, line).history == history + [HistoryEntry(line)]
  {
  }

  /** The final history and the outcome of each line processed. */
  datatype Trace = Trace(history: seq<string>, outcomes: seq<Outcome>)

  /**
   Feeding `lines` to ProcessInput one after another. A selected ExitCommand
   ends the process, so no later line is read.
   */
  function Session(commands: seq<Command>, history: seq<string>, lines: seq<string>): (t: Trace)
    ensures |t.outcomes| <= |lines|
    ensures lines != [] ==> t.outcomes != []
    decreases |lines|
  {
    if lines == [] then Trace(history, [])
    else
      var r := Dispatch(commands, history, lines[0]);
      if r.outcome.Exited? then Trace(r.history, [r.outcome])
      else
        var t := Session(commands, r.history, lines[1..]);
        Trace(t.history, [r.outcome] + t.outcomes)
  }

  /** A session whose first line does not exit: that line's outcome, then the session of the remaining lines. */
  lemma SessionStep(commands: seq<Command>, history: seq<string>, lines: seq<string>, r: Reply)
    requires lines != [] && r == Dispatch(commands, history, lines[0]) && !r.outcome.Exited?
    ensures Session(commands, history, lines).history == Session(commands, r.history, lines[1..]).history
    ensures Session(commands, history, lines).outcomes == [r.outcome] + Session(commands, r.history, lines[1..]).outcomes
  {
  }

  /**
   Over a whole session the history holds an entry for exactly the lines
   read, in the order read, blank ones included.
   */
  lemma {:induction false} SessionRecordsInOrder(commands: seq<Command>, history: seq<string>, lines: seq<string>)
    ensures |Session(commands, history, lines).outcomes| <= |lines|
    ensures Session(commands, history, lines).history
         == history + HistoryEntries(lines[..|Session(commands, history, lines).outcomes|])
    decreases |lines|
  {
    if lines == [] {
      assert HistoryEntries([]) == [];
    } else {
      var r := Dispatch(commands, history, lines[0]);
      if r.outcome.Exited? {
        assert Session(commands, history, lines) == Trace(r.history, [r.outcome]);
        assert lines[..1] == [lines[0]] + [];
        HistoryEntriesCons(lines[0], []);
      } else {
        var rest := lines[1..];
        SessionStep(commands, history, lines, r);
        SessionRecordsInOrder(commands, r.history, rest);
        var n := |Session(commands, r.history, rest).outcomes|;
        assert lines[..n + 1] == [lines[0]] + rest[..n];
        HistoryEntriesCons(lines[0], rest[..n]);
        assert history + HistoryEntries(lines[..n + 1]) == r.history + HistoryEntries(rest[..n]);
      }
    }
  }

  /** Lines are read until the first one that exits, and only then does reading stop. */
  lemma {:induction false} SessionStopsAtExit(commands: seq<Command>, history: seq<string>, lines: seq<string>)
    ensures forall k :: 0 <= k < |Session(commands, history, lines).outcomes| - 1
              ==> !Session(commands, history, lines).outcomes[k].Exited?
    ensures |Session(commands, history, lines).outcomes| < |lines| ==>
                 Session(commands, history, lines).outcomes != []
                 && Session(commands, history, lines).outcomes[|Session(commands, history, lines).outcomes| - 1].Exited?
    decreases |lines|
  {
    if lines != [] {
      var r := Dispatch(commands, history, lines[0]);
      if !r.outcome.Exited? {
        var rest := lines[1..];
        SessionStopsAtExit(commands, r.history, rest);
        SessionRecordsInOrder(commands, r.history, rest);
        var outs, later := Session(commands, history, lines).outcomes, Session(commands, r.history, rest).outcomes;
        assert outs == [r.outcome] + later;
        forall k | 1 <= k < |outs| ensures outs[k] == later[k - 1] { }
      }
    }
  }

  /** Every `history` output in a session is the log up to and including the line that asked for it. */
  lemma {:induction false} SessionPrintsLog(commands: seq<Command>, history: seq<string>, lines: seq<string>, k: nat)
    requires k < |Session(commands, history, lines).outcomes|
    requires Session(commands, history, lines).outcomes[k].Printed?
    ensures k < |lines|
    ensures Session(commands, history, lines).outcomes[k].lines == history + HistoryEntries(lines[..k + 1])
    decreases |lines|
  {
    var r := Dispatch(commands, history, lines[0]);
    var rest := lines[1..];
    if k == 0 {
      assert lines[..1] == [lines[0]] + [];
      HistoryEntriesCons(lines[0], []);
    } else {
      assert !r.outcome.Exited?;
      SessionStep(commands, history, lines, r);
      SessionPrintsLog(commands, r.history, rest, k - 1);
      assert lines[..k + 1] == [lines[0]] + rest[..k];
      HistoryEntriesCons(lines[0], rest[..k]);
    }
  }
}
