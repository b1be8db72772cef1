# mysh: the dispatcher of an early interactive shell, in Dafny

mysh is the skeleton of an interactive shell written in C++ (`mysh.cpp`). A
`Mysh` object owns a registry of built-in commands, each tagged with a keyword
(`history`, `byebye`), and a log of every line typed. For each line it:

1. copies the line into the history as a C string, unconditionally (so the entry
   ends at the line's first NUL character, if it has one);
2. splits the line on runs of whitespace (`std::regex` `\s+`, submatch -1);
3. compares the first token with every registered keyword, letting each match
   overwrite the previous one, so the last registered match wins;
4. reports "Command was not found" when nothing matched, and otherwise runs the
   selected command: `history` prints the log, oldest first; `byebye` ends the
   process with `EXIT_FAILURE`.

The project has two modules:

- `Tokenizer` (`tokenizer.dfy`) models the split as a pure function over
  characters. It does not model a regex engine. `WordEnd` finds where the
  leftmost `\s+` match starts. `SpaceEnd` finds where that greedy match ends.
  `Tokenize` reproduces what `std::sregex_token_iterator` yields with submatch
  -1. Each match yields the text before it. The text after the last match is
  yielded only when it is non-empty. A line with no match is yielded whole. So
  `""` and `"  "` both give `[""]`, `" ls"` gives `["", "ls"]`, and `"ls  "`
  gives `["ls"]`. `\s` is taken as the classic-locale space class: space, tab,
  line feed, vertical tab, form feed and carriage return.
- `Shell` (`mysh.dfy`) has these parts:
  - the `Command` datatype. It holds a keyword and an `Action`. `PrintHistory`
    and `Exit` stand for `HistoryCommand` and `ExitCommand`.
  - the `Mysh` class. Its fields `commands: seq<Command>` and
    `inputHistory: seq<string>` are reassigned by its methods.
  - the specification functions `LastMatch`, `Dispatch` and `Session`, and the
    lemmas about them.

`ProcessInput` takes the line as a parameter instead of reading standard
input. It returns the selected registry index (`None` when no keyword
matched) and an `Outcome`: `NotFound`, `Printed(lines)` or `Exited(status)`.

The comment at the head of `mysh.cpp` (lines 7-27) lists the commands the
shell is meant to grow: `movetodir`, `whereami`, `history [-c]`, `byebye`,
`start`/`run`, `background` and `exterminate`. The code implements only
`history` (without `-c`) and `byebye`, and the model covers what the code
does:
- A line that starts with whitespace has an empty first token, so
  `" history"` is reported as not found.
- An empty or all-blank line has the empty first token too, and is reported as
  not found (and still recorded).
- Nothing checks for duplicate keywords. Among equal keywords the last one
  registered is the one run.
- `history -c` is looked up by its first token and prints the log; it does not
  clear it.

## Model

| member | source | states |
|---|---|---|
| `Tokenizer.IsWhitespace` | mysh.cpp:131 | the `\s` class is exactly space, tab, line feed, vertical tab, form feed and carriage return |
| `Tokenizer.WordEnd` | mysh.cpp:131-134 | the leftmost `\s+` match from a position starts at the first whitespace character there or later: everything before the result is non-whitespace, and the character at the result (if any) is whitespace |
| `Tokenizer.SpaceEnd` | mysh.cpp:131-134 | a greedy `\s+` match covers exactly the run of whitespace from its start and stops before the first non-whitespace character |
| `Tokenizer.Tokenize` | mysh.cpp:130-138 | the split always yields at least one token, the empty line included, so `tokens[0]` is safe |
| `Tokenizer.TokenizeWellFormed` | mysh.cpp:130-138 | no token contains whitespace, and only the first token can be empty |
| `Tokenizer.FirstTokenIsHead` | mysh.cpp:110-111 | the first token that `ProcessInput` reads is the text before the leftmost whitespace run, or the whole line |
| `Tokenizer.SingleTokenIff` | mysh.cpp:130-138 | a line is returned as its only token exactly when it contains no whitespace (both directions) |
| `Tokenizer.FirstTokenEmptyIff` | mysh.cpp:130-138 | the first token is empty exactly when the line is empty or begins with whitespace |
| `Tokenizer.TokenizeKeepsText` | mysh.cpp:131-135 | splitting drops exactly the whitespace: the tokens concatenated in order equal the line with all whitespace removed |
| `Tokenizer.TokenizeJoin` | mysh.cpp:130-138 | splitting inverts joining with single spaces on every well-formed token sequence, so well-formedness is exactly the splitter's range |
| `Tokenizer.JoinTokenize` | mysh.cpp:131-135 | every run of whitespace followed by more text is a split point and nothing else is: the tokens of any line, joined with single spaces, are the line with each inner run collapsed to one space and a trailing run dropped (`Collapse`, defined character by character); with `TokenizeJoin` and `TokenizeWellFormed` this fixes the split of every line |
| `Shell.LastMatch` | mysh.cpp:113-118 | the selected index is the last registry position whose keyword equals the token; no later position matches; the result is None exactly when no keyword matches |
| `Shell.HistoryEntry` | mysh.cpp:104-107 | the entry `strcpy` stores for a line is its longest prefix without a NUL character: a prefix of the line, NUL-free, and cut exactly at the first NUL when there is one |
| `Shell.HistoryEntries` | mysh.cpp:104-107 | the entries kept for successive lines: one per line, entry k being line k cut at its first NUL |
| `Shell.Execute` | mysh.cpp:51-66 | the history command prints the history it is given, the exit command ends with `EXIT_FAILURE` (1), and neither reports not-found |
| `Shell.Dispatch` | mysh.cpp:100-128 | one line processed on a given state: the history gains the line's entry, the selection is `LastMatch` on the first token, and the outcome is not-found exactly when nothing is selected (see `NotFoundIff`, `HistoryPrintsItself`, `ByebyeExits`) |
| `Shell.Session` | mysh.cpp:87-98 | the `Start` loop fed a finite list of lines: at most one outcome per line, and at least one when there is a line (see the three `Session*` lemmas) |
| `Shell.Mysh.FindCommand` | mysh.cpp:113-118 | the for loop that overwrites `currentCommand` on every match ends with the last match in registry order, as `LastMatch` specifies |
| `Shell.Mysh.constructor` | mysh.cpp:70-72 | a new shell has an empty registry and an empty history |
| `Shell.Mysh.InitializeCommands` | mysh.cpp:74-77 | appends exactly `history` then `byebye` after the existing registry and leaves the history alone |
| `Shell.Mysh.PrintCommands` | mysh.cpp:79-85 | reports the registry size and every keyword in registration order, changing nothing |
| `Shell.Mysh.PrintInputHistory` | mysh.cpp:140-144 | emits the history entries in insertion order, one per line, changing nothing |
| `Shell.Mysh.ProcessInput` | mysh.cpp:100-128 | the history gains exactly the line's entry (the line up to its first NUL) at its end with earlier entries unchanged, even when nothing is found or the line is blank; the registry is unchanged; the selection and outcome are those of `Dispatch` on the old state |
| `Shell.StartupListing` | mysh.cpp:70-85 | from the constructor's empty registry, `InitializeCommands` then `PrintCommands` reports 2 commands, `history` then `byebye` |
| `Shell.NotFoundIff` | mysh.cpp:113-123 | no command runs (the outcome is not-found) exactly when no registered keyword equals the first token, and the line's entry is recorded either way |
| `Shell.LaterRegistrationWins` | mysh.cpp:113-118 | a command registered after others with the keyword of the first token is the one selected and executed, shadowing earlier duplicates |
| `Shell.OtherRegistrationIrrelevant` | mysh.cpp:113-118 | registering a command whose keyword differs from the first token changes neither the selection nor the outcome |
| `Shell.StandardSelection` | mysh.cpp:110-118 | in the registry built by `InitializeCommands`, a standard keyword typed alone is its own single token and selects its own entry |
| `Shell.HistoryPrintsItself` | mysh.cpp:104-127 | `history` prints the earlier log followed by the `history` line itself, because the line is recorded before the command runs |
| `Shell.ByebyeExits` | mysh.cpp:56-67 | `byebye` selects the exit command, and the process ends with status `EXIT_FAILURE` (1) |
| `Shell.LeadingBlankNotFound` | mysh.cpp:110-123 | an empty line, or one starting with whitespace, is reported as not found in the standard registry and its entry is still recorded |
| `Shell.SessionRecordsInOrder` | mysh.cpp:91-107 | over successive lines the history gains exactly the entries of the lines processed, in arrival order, blank ones included |
| `Shell.SessionStopsAtExit` | mysh.cpp:91-97 | successive lines are processed until the first one that exits; no earlier outcome is an exit, and input is left unread only after an exit |
| `Shell.SessionPrintsLog` | mysh.cpp:140-144 | every `history` output in a session is the log of entries up to and including the one for the line that asked for it, in insertion order |

## Left out

- Terminal I/O. `std::getline` becomes the `line` parameter of `ProcessInput`. Output is returned as values.
- Exact output text. The count and keywords of `PrintCommands` are returned, but the banner text and the `fflush` are not modelled. The "base called" constructor message and the "Command was not found" message are not modelled either.
- Process exit. `exit(EXIT_FAILURE)` in `ExitCommand::Execute` becomes the outcome `Exited(1)`. `Session` stops reading lines after it.
- The memory of the raw `char*` history entry. `new char` allocates one byte, and `strcpy` then writes the line up to its first NUL, plus a terminating NUL, into it. So any line whose first character is not NUL overflows the buffer. The model keeps the text `strcpy` copies (`HistoryEntry`: the line up to its first NUL), as a string in a sequence. It does not model the buffer, the overflow or the leaked allocation.
- The `Start` loop is not a method. It prints a prompt and never ends, because `keepGoing` is never assigned. Its effect over a finite list of lines is stated by `Session` and its lemmas.
- `main`, the heap-allocated registry vector, the leaked command objects and the `mysh` back-pointer in `Command` are not modelled. Values stand in for all of them.
- The base `Command::Execute` ("ight") is not modelled, because only the two subclasses are ever constructed.
- The `std::regex` engine is not modelled. `\s` is assumed to be the classic-locale space class, not another locale's.
