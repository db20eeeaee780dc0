# Verified model of TundraUX

TundraUX is a console application split into a frontend (a shell, an editor and forms) and a backend that
owns the accounts, the managed files, the TUX files and the audit log. The two talk in JSON, one line per
request and response, over pipes. This project models the parts of it that compute: it states what they
promise and proves it with Dafny 4.11.

`dafny verify dfyconfig.toml` checks everything.

## What is modelled

**JSON, from value to value.** `JsonGrammar` gives the grammar of RFC 8259 as the code restricts it, as parse
trees with a rendering and a meaning. `JsonParsing` is the recursive descent as a function, `JsonSound` and
`JsonComplete` prove that it accepts exactly the documents of the grammar, with the value they denote.
`JsonMachine` is the parser object that moves a position, and the printer with its accumulators. `JsonPrinting`
proves the round trip. `LineFraming` reassembles lines from arbitrary chunks, `JsonRpc` answers requests, and
together they give, on the client's transport object: the i-th line received is the answer to the i-th request value
sent, up to the first failure. `JsonAnswers` says what each answer contains, from the parsed request alone.

**Starting the backend.** `CommandLine` quotes arguments and reads them back by the rules of the Microsoft C
runtime, for arguments and, by its other rule, for the program name. `BackendStart` reads the flags as the backend
does: it starts with exactly the values the client gave.

**The shell.** `LineEditor` draws an edited line with printed characters and backspaces on a terminal, and the
drawn line always shows the buffer; `EditDistance` and `Suggestion` show that the bounded two-row computation
is the true edit distance and what a suggestion therefore is. `ShellRules` spells out words, commands and key codes.

**The editor.** `TextBuffers` refines lines and a cursor to a flat text and an offset, `Editor` covers the keys
of normal mode, cutting, pasting and searching, `Highlighting` is the lexer, which loses nothing, and
`ContentView` the clipped drawing, which looks the same with and without it. `EditorKeys`, `HighlightRules` and
`RowRules` spell out what each key does, which token begins where, and what stands in each cell.

**The audit log.** `AuditLog` has both ciphers, the sniffer that tells them apart, the record format, appending,
reading and exporting, over whole runs and for truncated files. `AuditLines` says what a line tells about its
record, and when appending and reading succeed.

**Accounts.** `UserFile` is the binary format and the password cipher, `UserStores` the list in memory with its
rollbacks and the store that loads, changes and saves in one call, `FileReplace` the replacement of the file
through a backup name. `Accounts` is the state machine of user management and sessions, with a save that goes
through, changes nothing or loses the file. `AccountStorage` shows that each call of the store on the file is the
call on the list it holds, and `AccountServices` has the services as objects on the file that take the steps of the
state machine. `AccountRules` proves what every step keeps, `AccountEntries` who may do what and what becomes of each
field, and `Lockout` what any interleaving of operations does to a locked account.

**Files.** `FileTree`, `FileStore` and `FileSearch` cover path checks, recursive removal and the pruned search;
`TuxFormat`, `TuxFiles` and `TuxServices` the TUX format, ownership of TUX files and the service. `FileGuards` and
`TuxRules` spell out protected and refused names and who may touch which file, and `FileLayouts` gives the bytes of the
file formats.

`Bytes`, `Ascii`, `Numbers`, `Lines`, `Ordering`, `Concat`, `Wrappers` and `BackendErrors` hold what several of these
need.

Objects whose methods change their fields are classes, and loops are loops; each is proved to compute a function
or to take a step, and the properties are proved of those. The disk, the clock, random identifiers, the
keystream of the password cipher and the methods behind the dispatcher are parameters, so every statement holds
for all of them.

## Where the code does less than one might expect

Each of these is proved as an exact condition, with an example where one helps.

- The suggestion for a word stops at distance 1 and can miss an exact match in a later command. In the shell that
  happens exactly when the word is given with an argument and the command it names allows none.
- An empty line leaves the history index where it was, so the next draft may not come back.
- The program name of a command line has no escapes: a name that needs quotes and ends in a backslash is misread.
- Saving and loading a text loses an empty last line and a carriage return at the end of a line.
- Pasting after cutting puts a last line before the line above it, and does nothing for an empty line.
- Paging leaves the buffer when the screen started with fewer than three rows.
- The backend does not start with an empty files root.
- An escaped text in the audit log that had what looks like an escape in it is not read back.
- A user file with too many users, over 64 MiB or without an administrator is saved but never read again.
- Creating a first user that is no administrator in the place of the placeholder leaves no active administrator.
- Editing the placeholder without a new password keeps a password the rules may forbid.
- The debug user can delete the last administrator entry, or edit its type away, when it is disabled, and the file is
  then unreadable.
- When adding beside the placeholder, and the removal and the undoing both cannot be saved, the call fails and both
  users stay.
- A save that can neither replace the user file nor restore it leaves none: no user and no administrator is left, and
  setup is open again. The old file is under its backup name, where nothing looks for it.
- On Windows a path that spells out the root from its drive resolves to the root even where the root is not allowed.
- A TUX name with one separator at the end means the same file as without.

## Model

| member | source | states |
|---|---|---|
| `JsonSound.ParserMatchesGrammar` | SHARED/protocol/json.cpp:14-259 | for every text and every value: parsing succeeds with that value exactly when the text is a document of the grammar of sections 2 to 7 of RFC 8259 (as restricted by the code: no exponent, `\u` up to 007F, unique names, numbers in range) and denotes that value |
| `JsonSound.DocumentUnambiguous` | SHARED/protocol/json.cpp:14-259 | a text denotes at most one value |
| `JsonComplete.DocumentAccepted` | SHARED/protocol/json.cpp:18-34 | every document of the grammar is accepted, with the value it denotes |
| `JsonComplete.ValueComplete` | SHARED/protocol/json.cpp:84-99 | every rendering of a well-formed value, after blanks and before a delimiter, is read back as what it denotes, and exactly that much is consumed |
| `JsonMachine.JsonParser.ParseValue` | SHARED/protocol/json.cpp:84-99 | the parser object, moving its position, reads what the grammar-related function reads; every call ends because it advances |
| `JsonMachine.JsonParser.ParseObject` | SHARED/protocol/json.cpp:110-139 | the member loop, with the duplicate-name error, reads what the function reads |
| `JsonMachine.JsonParser.ParseArray` | SHARED/protocol/json.cpp:141-159 | the item loop reads what the function reads, from the same position to the same position |
| `JsonMachine.JsonParser.ParseString` | SHARED/protocol/json.cpp:161-206 | the string loop with its escapes reads what the function reads |
| `JsonMachine.JsonParser.ParseNumber` | SHARED/protocol/json.cpp:221-255 | the number scanner reads what the function reads |
| `JsonValues.InsertKeepsMembers` | SHARED/protocol/json.cpp:127-130 | adding a member to an object loses none |
| `JsonValues.InsertAllSorted` | SHARED/protocol/json.cpp:110-139 | the members of an object stay sorted by name |
| `JsonMachine.JsonParser.Parse` | SHARED/protocol/json.cpp:18-34 | one value and nothing after it |
| `JsonMachine.ParseJson` | SHARED/protocol/json.cpp:392-394 | the result of a whole parse, both as the function and directly: success with a value exactly when the grammar has it |
| `JsonMachine.EscapeText` | SHARED/protocol/json.cpp:261-284 | the escaping loop computes the escaped text |
| `JsonMachine.StringifyNumber` | SHARED/protocol/json.cpp:286-308 | the printed number, with trimmed zeros and no negative zero |
| `JsonMachine.StringifyJson` | SHARED/protocol/json.cpp:396-434 | the recursive printer with its accumulators computes the printed text |
| `JsonPrinting.RoundTrip` | SHARED/protocol/json.cpp:84-434 | parsing what was printed gives the same value back exactly when every number in it has at most 15 fraction digits |
| `JsonPrinting.PrintThenParse` | SHARED/protocol/json.cpp:84-434 | for every value, parsing what was printed succeeds and gives the value with its numbers rounded to 15 fraction digits, so printing is idempotent through the parser |
| `JsonPrinting.PrintInjective` | SHARED/protocol/json.cpp:396-434 | two values print alike exactly when they agree once rounded to 15 fraction digits, hence exact values only when they are equal |
| `JsonPrinting.PrintPrintable` | SHARED/protocol/json.cpp:261-284 | printed text never has a character below 0x20 and is never empty, so it is one line |
| `JsonPrinting.RoundedIsNear` | SHARED/protocol/json.cpp:286-308 | the printed number is within half a unit of the 15th fraction digit |
| `JsonPrinting.NumberTokenMeans` | SHARED/protocol/json.cpp:286-308 | the printed digits denote the rounded number, and are a number of the grammar |
| `JsonPrinting.EscapeTokensMean` | SHARED/protocol/json.cpp:261-284 | the escaped text is a sequence of string characters of the grammar that denotes the original text |
| `LineFraming.Transport.ConsumePendingLine` | APP/backend_client/backend_process.cpp:284-305 | what one call takes from the pending bytes, what it leaves, and when it reports a line as too long |
| `LineFraming.Transport.RequestLine` | APP/backend_client/backend_process.cpp:427-458 | for every way the bytes are cut into chunks: the response is exactly the next line of the stream without carriage returns, the rest is carried over, and failure stops the transport |
| `LineFraming.RequestAll` | APP/backend_client/backend_process.cpp:427-458 | call after call, for every chunking and whatever becomes of the writes: the responses are the next lines of the stream in order, up to the first write that fails or the first line that is missing or too long, and nothing after it |
| `LineFraming.Transport.Stop` | APP/backend_client/backend_process.cpp:460-480 | after stopping nothing is pending |
| `LineFraming.StripCrConcat` | APP/backend_client/backend_process.cpp:288-296 | removing carriage returns chunk by chunk is removing them from the whole |
| `LineFraming.NoCrLeft` | APP/backend_client/backend_process.cpp:288-296 | a response has no carriage return |
| `JsonRpc.JsonRpcDispatcher.Respond` | BACKEND/core/json_rpc.cpp:188-230 | one request, through all early returns and all kinds of exceptions of the dispatched method |
| `JsonRpc.JsonRpcDispatcher.HandleLine` | BACKEND/core/json_rpc.cpp:188-230 | the response as text |
| `JsonRpc.JsonRpcDispatcher.Serve` | BACKEND/stdio/main.cpp:74-80 | the serving loop answers every line that is not empty, in order |
| `JsonRpc.ResponseShape` | BACKEND/core/json_rpc.cpp:188-230 | every response is a valid object with the id of the request (null when it has none) and exactly one of result and error; a result exactly when the request was well formed and its method returned |
| `JsonAnswers.CallAnswered` | BACKEND/core/json_rpc.cpp:186-230 | for a request whose parsed object has a string method, no id or a string one, and no parameters or an object of them: the method gets exactly these, the state is what it leaves, and the answer carries the id and its result, or its error code and message, or InternalError |
| `JsonAnswers.MalformedAnswered` | BACKEND/core/json_rpc.cpp:188-221 | every other line changes nothing and is answered with its own code and message, under the id if that was in order |
| `JsonAnswers.CallOrMalformed` | BACKEND/core/json_rpc.cpp:188-221 | every line is either |
| `JsonAnswers.CodeNamesAre` | BACKEND/core/backend_error.hpp:26-45 | the names of the codes in an answer |
| `JsonAnswers.AnswersInTurn` | BACKEND/stdio/main.cpp:74-80 | the i-th answer is given in the state that all earlier requests have left |
| `JsonAnswers.EmptyLinesSkipped` | BACKEND/stdio/main.cpp:74-80 | empty lines are passed over |
| `JsonRpc.ResponseLine` | BACKEND/core/json_rpc.cpp:689-704 | every response is one line, and parses to the response |
| `JsonRpc.FramedLines` | APP/backend_client/backend_process.cpp:427-458 | lines sent one after the other, with either line ending, are received in order, up to the first that is over the limit |
| `JsonRpc.TooLongLine` | APP/backend_client/backend_process.cpp:292-294 | a line over the limit is never received |
| `JsonRpc.RequestLines` | BACKEND/stdio/main.cpp:74-80 | printed requests, one per line, are exactly the lines the backend reads |
| `JsonRpc.AnswersCross` | APP/backend_client/backend_process.cpp:427-458 | what is received of the answers to any request values is exactly the printed answers before the first over-long one |
| `JsonRpc.AnswersAreResponses` | BACKEND/core/json_rpc.cpp:188-230 | the i-th answer is the response to the i-th request value, which the backend parses as the value rounded to 15 fraction digits |
| `JsonRpc.ValuesCrossThePipe` | APP/backend_client/backend_process.cpp:427-458 | end to end on the transport of the client, for every sequence of request values, every dispatcher, every line ending, every chunking and every failing write: the i-th line received is the printed answer to the i-th request and parses to it up to rounding, and there are as many as were asked for before the first failed write or the first over-long answer |
| `JsonAnswers.CallsAcross` | BACKEND/core/json_rpc.cpp:186-230 | end to end: a value that calls a method is answered with what the method does, to the state all earlier values have left, with the parameters as the backend parses them |
| `CommandLine.QuoteWindowsArg` | APP/backend_client/backend_process.cpp:74-104 | the loop with its backslash counter computes the quoted argument |
| `CommandLine.ArgumentRoundTrip` | APP/backend_client/backend_process.cpp:74-104 | a quoted argument is read back exactly by the argument rules of the Microsoft C runtime, for every mix of backslashes, quotes and blanks, the empty argument included |
| `CommandLine.ArgumentsRoundTrip` | APP/backend_client/backend_process.cpp:381-391 | so is every list of arguments joined with blanks |
| `CommandLine.ProgramRoundTrip` | APP/backend_client/backend_process.cpp:381-381 | the program name follows other rules: it is read back exactly when it has no quote and does not both need quotes and end in a backslash |
| `CommandLine.ProgramCounterexample` | APP/backend_client/backend_process.cpp:381-381 | a program name that is not read back |
| `CommandLine.CommandLineRoundTrip` | APP/backend_client/backend_process.cpp:381-391 | the whole command line is read back exactly when the program name is |
| `CommandLine.BuildCommandLine` | APP/backend_client/backend_process.cpp:381-391 | the assembled command line gives the backend its flags and values |
| `BackendStart.ParseArgs` | BACKEND/stdio/main.cpp:21-54 | the argument loop reads the flags and values, or ends with the usage |
| `BackendStart.StartsWithWhatIsGiven` | BACKEND/stdio/main.cpp:21-73 | the arguments of the client give the backend its user file, files root and token, with the default for a user file that is not given; exactly for an empty files root it does not start |
| `BackendStart.StartBackend` | APP/backend_client/backend_process.cpp:381-391 | from the client over the command line to the settings of the backend |
| `EditDistance.DistanceIsLeast` | APP/shell/command.cpp:313-335 | no sequence of insertions, deletions and substitutions is shorter than the distance |
| `EditDistance.DistanceIsReached` | APP/shell/command.cpp:313-335 | some sequence of that many steps leads from one text to the other |
| `EditDistance.BoundedLevenshtein` | APP/shell/command.cpp:313-335 | two rows and an early exit: the result is the distance when it is within the bound, and above the bound otherwise, for every bound, negative ones included |
| `EditDistance.FillTable` | APP/shell/command.cpp:321-334 | the row loop with the row-minimum exit |
| `EditDistance.FillRow` | APP/shell/command.cpp:324-331 | the inner loop fills the next row of the distance table |
| `Suggestion.GuessSimilarCommand` | APP/shell/command.cpp:337-371 | the scan over commands and aliases computes the suggestion |
| `Suggestion.SuggestionIsFirstNearest` | APP/shell/command.cpp:337-371 | a suggestion is at distance 1 or 2 and is the first nearest of the candidates scanned, which are all of them unless it is at distance 1 |
| `Suggestion.NoSuggestion` | APP/shell/command.cpp:337-371 | for a word that is no candidate, there is no suggestion exactly when every candidate is further than 2 |
| `Suggestion.TryExecute` | APP/shell/commandReg.cpp:66-90 | the loop takes an input exactly when the first command called by its word allows arguments or the input has none |
| `Suggestion.SuggestionNearestOfAll` | APP/shell/command.cpp:361-369 | a suggestion is nearest among all candidates exactly when the word itself is no candidate: stopping at distance 1 can miss an exact match |
| `Suggestion.ShellSuggestionNearest` | APP/shell/command.cpp:298-311 | in the shell, which suggests only for an input no command takes: a suggestion is nearest among all candidates exactly when nothing follows the word or the word is no candidate |
| `Suggestion.ExactMatchMissed` | APP/shell/command.cpp:298-311 | such an input: the word names a command that allows no arguments, one is given, and the suggestion is an earlier command at distance 1 |
| `ShellRules.WordsExactly` | APP/shell/commandReg.cpp:72-74 | the first word is what comes before the next blank behind the blanks at the beginning, and there is an argument exactly when there is a second word |
| `ShellRules.CandidatesExactly` | APP/shell/command.cpp:337-371 | the candidates are the names and all aliases of the commands that are neither hidden nor forbidden |
| `ShellRules.ExecutesExactly` | APP/shell/commandReg.cpp:66-90 | an input is taken by the first command of its word, if that allows arguments or none is given |
| `LineEditor.Reader.ReadKey` | TundraTUI/src/color.cpp:358-465 | after every key the terminal line shows the buffer and then blanks, with the cursor at its position |
| `LineEditor.Reader.ReadLine` | TundraTUI/src/color.cpp:352-467 | for every sequence of key codes, the drawn line stays in step and the state is that of the key semantics |
| `LineEditor.Terminal.Print` | TundraTUI/src/color.cpp:406-415 | printing moves the column and overwrites the cells |
| `LineEditor.StepValid` | TundraTUI/src/color.cpp:352-467 | every key keeps the cursor in the buffer, the history index in the history, and printable text |
| `LineEditor.UpsThenDowns` | TundraTUI/src/color.cpp:393-440 | k Ups and as many Downs as lead past the newest entry give the draft, or the saved draft when the history was already entered |
| `LineEditor.FreshDraftRestored` | TundraTUI/src/color.cpp:393-440 | from a fresh draft, k Ups and min(k, history size) Downs restore the draft |
| `LineEditor.DraftRestoredExactly` | TundraTUI/src/color.cpp:393-440 | from any state, one Up and the Downs past the newest entry restore the buffer exactly when the history was not entered or the buffer is the saved draft |
| `LineEditor.BackspaceUndoesCharacter` | TundraTUI/src/color.cpp:364-378 | backspace undoes a typed character, at any position |
| `LineEditor.ShellLoop.ReadCommand` | APP/shell/command.cpp:247-260 | one round of the shell: the line is read, and remembered unless it is empty or a repetition, with at most 100 entries |
| `LineEditor.ReadOneValid` | APP/shell/command.cpp:247-260 | the history and its index stay valid over rounds, and the newest entry is the last line that was not empty |
| `LineEditor.NextDraftRestored` | APP/shell/command.cpp:247-260 | text typed on the next line comes back after one Up and the Downs past the newest entry exactly when the line before was not empty or was left outside the history: an empty line skips the reset of the index |
| `LineEditor.DraftLost` | APP/shell/command.cpp:249-260 | then a draft is lost |
| `ShellRules.RememberedExactly` | APP/shell/command.cpp:254-260 | a line is put behind the history unless it is the last one again, and only the oldest of a hundred goes |
| `ShellRules.ArrowCodes` | TundraTUI/src/color.cpp:379-440 | the extended codes 72, 80, 75 and 77 lead to older and newer lines and one place to the left and right, from every state of the line |
| `ShellRules.PlainCodes` | TundraTUI/src/color.cpp:358-465 | the codes 8 and 127 take out the character before the cursor, printable ones are put in there, and others do nothing |
| `ShellRules.EnterCodes` | TundraTUI/src/color.cpp:358-363 | the codes 10 and 13 end the line |
| `TextBuffers.TextBuffer.InsertChar` | APP/editor/editor_win.cpp:425-432 | the buffer after inserting, as lines and as a flat text with an offset |
| `TextBuffers.TextBuffer.Backspace` | APP/editor/editor_win.cpp:434-447 | the buffer after backspace, within a line and across lines |
| `TextBuffers.TextBuffer.DeleteChar` | APP/editor/editor_win.cpp:449-458 | the buffer after delete |
| `TextBuffers.TextBuffer.InsertNewline` | APP/editor/editor_win.cpp:460-471 | the buffer after a newline |
| `TextBuffers.TextBuffer.MoveCursor` | APP/editor/editor_win.cpp:473-483 | a move keeps the text and the cursor in its line |
| `TextBuffers.TextBuffer.LoadFromFile` | APP/editor/editor_win.cpp:517-537 | the lines of a file |
| `TextBuffers.TextBuffer.SaveToFile` | APP/editor/editor_win.cpp:539-551 | the file is the flat text |
| `TextBuffers.TextBuffer.Clear` | APP/editor/editor_win.cpp:506-515 | an empty buffer |
| `TextBuffers.InsertedText` | APP/editor/editor_win.cpp:425-432 | insertion puts one character into the flat text at the offset |
| `TextBuffers.BrokenText` | APP/editor/editor_win.cpp:460-471 | a newline puts one line break into the flat text at the offset |
| `TextBuffers.BackspacedText` | APP/editor/editor_win.cpp:434-447 | backspace takes the character before the offset out of the flat text, and does nothing at its start |
| `TextBuffers.DeletedText` | APP/editor/editor_win.cpp:449-458 | delete takes the character at the offset out, and does nothing at the end |
| `TextBuffers.TextAndOffsetDetermine` | APP/editor/editor_win.cpp:405-415 | lines and cursor are determined by the flat text and the offset |
| `TextBuffers.BackspaceUndoes` | APP/editor/editor_win.cpp:425-471 | backspace undoes insertion and newline exactly |
| `TextBuffers.SaveThenLoad` | APP/editor/editor_win.cpp:517-551 | saving and loading gives the lines back exactly when no line ends in a carriage return and the last line is not empty (or the only one) |
| `TextBuffers.LoadedValid` | APP/editor/editor_win.cpp:517-537 | a loaded buffer has a line and a cursor in it |
| `EditorKeys.CarriageReturnsGo` | APP/editor/editor_win.cpp:517-537 | a file whose lines end in a carriage return and a newline gives the lines without either |
| `Editor.TerminalEditor.ProcessNormalInput` | APP/editor/editor_win.cpp:1140-1181 | every key in normal mode has the effect of the key semantics and keeps the buffer valid |
| `EditorKeys.UpAndDown` | APP/editor/editor_win.cpp:1152-1153 | up and down lead one line up and down, in the same column or at the end of a shorter line, and do nothing at the first and last line |
| `EditorKeys.LeftAndRight` | APP/editor/editor_win.cpp:1154-1155 | left and right lead one column aside within the line |
| `EditorKeys.HomeAndEnd` | APP/editor/editor_win.cpp:1156-1157 | to the beginning and the end of the line |
| `EditorKeys.PageUpAndDown` | APP/editor/editor_win.cpp:1158-1159 | a page up and down, to the first and last line at most |
| `EditorKeys.Printables` | APP/editor/editor_win.cpp:1177-1179 | a printable code is put into the text at the cursor |
| `EditorKeys.Enter` | APP/editor/editor_win.cpp:1169-1171 | a line end is put into the text at the cursor |
| `EditorKeys.Tab` | APP/editor/editor_win.cpp:1173-1175 | four blanks are |
| `EditorKeys.BackspaceAndDelete` | APP/editor/editor_win.cpp:1161-1167 | the character before and the one at the cursor are taken out of the text |
| `EditorKeys.CutKey` | APP/editor/editor_win.cpp:1383-1397 | the cursor line, and nothing else, goes from the text to the clipboard, and where the cursor is then |
| `EditorKeys.PasteKey` | APP/editor/editor_win.cpp:1399-1410 | the line of the clipboard comes above the cursor line, and nothing else changes |
| `EditorKeys.OtherKeys` | APP/editor/editor_win.cpp:1140-1181 | no other code changes text or cursor |
| `Editor.TerminalEditor.CutLine` | APP/editor/editor_win.cpp:1383-1397 | cutting, the last line included |
| `Editor.TerminalEditor.PasteLine` | APP/editor/editor_win.cpp:1399-1410 | pasting before the current line |
| `Editor.TerminalEditor.PerformSearch` | APP/editor/editor_win.cpp:1338-1381 | the search finds the nearest findable place after the cursor, wrapping around, and finds nothing exactly when there is none; it does not look before the cursor on its own line |
| `Editor.PressedValid` | APP/editor/editor_win.cpp:1140-1181 | every key keeps at least one line and the cursor inside its line |
| `Editor.TerminalEditor.CheckTerminalSize` | APP/editor/editor_win.cpp:862-875 | the size of a page after a look at the window: only a change of size applies the lower bound |
| `Editor.TerminalEditor.ProcessTurns` | APP/editor/editor_win.cpp:851-858 | whole runs of the main loop on keys of normal mode, with any resizing between them, have the effect of the key semantics |
| `Editor.RunTurns` | APP/editor/editor_win.cpp:851-858 | such a run keeps the buffer valid and the page from becoming negative, from any page that is not |
| `Editor.PagesSafe` | APP/editor/editor_win.cpp:489-499 | paging is safe for all buffers exactly when the page size is not negative |
| `Editor.PageNegative` | APP/editor/editor_win.cpp:862-875 | after any checks of the size, the page is negative exactly when the window started with fewer than three rows and never changed |
| `EditorKeys.PageSize` | APP/editor/editor_win.cpp:862-875 | a page has three rows less than the window, and at least one once a change was seen |
| `Editor.PasteAfterCut` | APP/editor/editor_win.cpp:1383-1410 | pasting right after cutting gives the lines back exactly when the cut line is not empty and not the last one (or equals the one above it), or is the only, empty line |
| `Highlighting.TokenizeLine` | APP/editor/editor_win.cpp:632-751 | the scanning loop computes the tokens and the comment state, and ends |
| `Highlighting.ScanToken` | APP/editor/editor_win.cpp:648-749 | one round of the loop reads one token |
| `Highlighting.Lossless` | APP/editor/editor_win.cpp:632-751 | the texts of the tokens, none of them empty, are the line, for every line and every incoming state |
| `Highlighting.KindsAndState` | APP/editor/editor_win.cpp:632-751 | each token looks like its kind, and the outgoing state says whether a block comment is open at the end |
| `HighlightRules.WordToken` | APP/editor/editor_win.cpp:730-739 | a longest word is a keyword exactly when it is one of the listed ones |
| `HighlightRules.LiteralCloses` | APP/editor/editor_win.cpp:687-709 | a literal ends behind its first quote that is not escaped |
| `HighlightRules.LiteralStaysOpen` | APP/editor/editor_win.cpp:687-709 | and at the end of the line when there is none |
| `HighlightRules.BlockCommentToken` | APP/editor/editor_win.cpp:649-685 | a block comment goes to its first end and stays open without one |
| `HighlightRules.NumberToken` | APP/editor/editor_win.cpp:711-728 | where a number begins and ends, hexadecimal or not |
| `HighlightRules.OrdinaryToken` | APP/editor/editor_win.cpp:741-748 | anything else is an ordinary character |
| `HighlightRules.TokensGathered` | APP/editor/editor_win.cpp:741-748 | ordinary characters in a row are one token |
| `HighlightRules.CommentLine` | APP/editor/editor_win.cpp:649-662 | in an open comment a line without its end is nothing but comment and leaves it open |
| `ContentView.DrawTokens` | APP/editor/editor_win.cpp:955-977 | the clipping loop draws exactly the visible part of the line, contiguously, for every scroll and width |
| `ContentView.DrawRow` | APP/editor/editor_win.cpp:930-996 | a row shows the same characters in the same columns with and without highlighting |
| `ContentView.RenderContent` | APP/editor/editor_win.cpp:910-1001 | so does the whole area, and every row is coloured by the tokens of its line in the comment state left by all lines above |
| `ContentView.CommentStateAbove` | APP/editor/editor_win.cpp:915-923 | the lines above the window are read for their comment state |
| `ContentView.WriteContiguous` | APP/editor/editor_win.cpp:969-975 | pieces written one after the other are written as one |
| `RowRules.RowCells` | APP/editor/editor_win.cpp:922-996 | what stands in each cell of a row: the number, the scrolled line, the mark that it goes on, and a tilde below the text |
| `AuditLog.LegacyNeverLooksCurrent` | BACKEND/core/audit_service.cpp:76-102 | what the old cipher made of an audit line never looks like one under the current key |
| `AuditLog.DecodesBothCiphers` | BACKEND/core/audit_service.cpp:104-116 | every line of audit shape is recovered from either encoding |
| `AuditLog.DecodesExactly` | BACKEND/core/audit_service.cpp:104-116 | a line of any shape is recovered from the current encoding exactly when it has audit shape or its encoding does not decode to audit shape under the old key |
| `AuditLog.ObfuscateCopy` | BACKEND/core/audit_service.cpp:76-84 | the loop over the copy computes the encoded text |
| `AuditLog.ObfuscateTwice` | BACKEND/core/audit_service.cpp:208-214 | the cipher undoes itself |
| `FileLayouts.AuditBits` | BACKEND/core/audit_service.cpp:76-84 | the audit cipher turns over the bits of the letter of the key for the place |
| `AuditLog.EscapeControlCharacters` | BACKEND/core/audit_service.cpp:125-156 | the escaping loop computes the escaped text |
| `AuditLog.EscapeFixes` | BACKEND/core/audit_service.cpp:125-156 | escaping leaves a text alone exactly when it has no control character |
| `AuditLog.FormattedLooksLike` | BACKEND/core/audit_service.cpp:197-206 | every formatted line has audit shape |
| `AuditLog.FormattedIsTrimmed` | BACKEND/core/audit_service.cpp:118-123 | trimming never changes a formatted line |
| `AuditLines.LineTells` | BACKEND/core/audit_service.cpp:197-206 | a line gives back the time, the name, the type and, behind them, the escaped category and detail, unless the name or type has a bar in it |
| `AuditLines.SameLine` | BACKEND/core/audit_service.cpp:197-206 | so lines of different users are different |
| `AuditLines.UnescapesExactly` | BACKEND/core/audit_service.cpp:125-156 | escaping can be undone exactly for a text in which no backslash is followed by n, r or t, or by u00 and two hexadecimal digits |
| `AuditLines.UnescapeEscaped` | BACKEND/core/audit_service.cpp:125-156 | hence for every text without a backslash |
| `AuditLines.EscapeAmbiguous` | BACKEND/core/audit_service.cpp:125-156 | a text with one for which it cannot |
| `AuditLines.EscapedIsPrintable` | BACKEND/core/audit_service.cpp:125-156 | no code below 32 and no 127 is left |
| `AuditLog.OnlyFramesRead` | BACKEND/core/audit_service.cpp:407-429 | the reader accepts nothing but whole records within the limit |
| `AuditLog.AppendTo` | BACKEND/core/audit_service.cpp:307-382 | one append on any file: header first, the limits, and the record at the end |
| `AuditLines.AppendsExactly` | BACKEND/core/audit_service.cpp:307-382 | an append succeeds exactly when the file system works, the file is new or has the header, and record and file keep their limits; then the length and the ciphered line are added, and otherwise nothing but a new header |
| `AuditLog.ReadAny` | BACKEND/core/audit_service.cpp:384-438 | the read loop on any file |
| `AuditLines.ReadsExactly` | BACKEND/core/audit_service.cpp:384-438 | a file is read exactly when it is within its limit and is the header and whole records within theirs |
| `AuditLog.LogFile.AppendRecord` | BACKEND/core/audit_service.cpp:307-382 | the file holds exactly the lines of the calls that succeeded |
| `AuditLog.LogFile.ReadRecords` | BACKEND/core/audit_service.cpp:384-438 | reading gives these lines |
| `AuditLog.LogFile.ExportTlog` | BACKEND/core/audit_service.cpp:486-513 | the export is these lines joined with newlines |
| `AuditLog.RunReads` | BACKEND/core/audit_service.cpp:307-438 | after any run of appends with any failures from no file, reading gives exactly the lines of the calls that succeeded, in order; there is no file only when every call failed before creating one |
| `AuditLog.Truncated` | BACKEND/core/audit_service.cpp:384-438 | a copy cut to any length is accepted exactly when it is cut at a record boundary, and then gives the lines before the cut |
| `AuditLog.NewlineInLine` | BACKEND/core/audit_service.cpp:197-206 | a line has a newline exactly when the user name or type has one |
| `AuditLog.ExportSplits` | BACKEND/core/audit_service.cpp:505-512 | splitting an export gives the lines back exactly when none has a newline |
| `AuditLog.ExportOfRecords` | BACKEND/core/audit_service.cpp:505-512 | hence exactly when no user name or type of a record has a newline |
| `Bytes.XorBit` | BACKEND/core/audit_service.cpp:76-91 | the exclusive or used by the ciphers is that of the bits |
| `UserFile.EncryptText` | SYSTEM/crypto/crypto.cpp:25-39 | the encryption loop computes the ciphertext |
| `UserFile.DecryptText` | SYSTEM/crypto/crypto.cpp:42-56 | the decryption loop computes the plaintext |
| `UserFile.DecryptEncrypt` | SYSTEM/crypto/crypto.cpp:25-56 | decryption undoes encryption, for every keystream |
| `UserFile.EncryptDecrypt` | SYSTEM/crypto/crypto.cpp:25-56 | and the other way round |
| `UserFile.TakeEncodedUser` | USER/udata/udata.cpp:327-377 | a stored user is read back, passwords and negative counts included, and the rest of the stream is left |
| `UserFile.LoadSaved` | USER/udata/udata.cpp:230-397 | a saved file gives back the same users in the same order and the same flag exactly when it is within the limits of the reader and has an administrator, and nothing otherwise: saving checks neither |
| `FileLayouts.UserFileLayout` | USER/udata/udata.cpp:320-397 | version, flag, count and users, piece by piece |
| `FileLayouts.UserLayout` | USER/udata/udata.cpp:327-377 | the fields of a stored user, in order, each behind its length, and the count |
| `FileLayouts.LittleBytes` | USER/udata/udata.cpp:320-377 | byte k of a stored number has the worth 256 to the power of k |
| `FileLayouts.PasswordBytes` | SYSTEM/crypto/crypto.cpp:25-39 | a stored byte of a password is the sum of the byte and that of the keystream |
| `UserStores.EncodeText` | USER/udata/udata.cpp:327-377 | the writing loop writes the format, or gives up at a string that is too long |
| `UserStores.LoadText` | USER/udata/udata.cpp:230-301 | the reading loop reads the format |
| `UserStores.DataManager.constructor` | USER/udata/udata.cpp:161-163 | memory is what the file holds |
| `UserStores.DataManager.SaveUsersToFile` | USER/udata/udata.cpp:303-397 | a save writes all of memory, changes nothing, or loses the target when the old file can be neither replaced nor restored, and the old file is then under the backup name |
| `UserStores.DataManager.AddUser` | USER/udata/udata.cpp:165-177 | memory changes exactly when the changed memory was saved; otherwise the file is as before or lost |
| `UserStores.DataManager.UpdateUser` | USER/udata/udata.cpp:179-192 | memory changes exactly when the name exists and the changed memory was saved |
| `UserStores.DataManager.RemoveUser` | USER/udata/udata.cpp:194-210 | memory changes exactly when the name exists and the changed memory was saved; a removal that cannot be saved restores the order of the list |
| `UserStores.DataManager.SetStrictMode` | USER/udata/udata.cpp:220-228 | the flag changes exactly when the change was saved |
| `UserStores.RunKeepsSync` | USER/udata/udata.cpp:165-228 | after any run of mutations with any failing saves, lost files included, memory is the last saved state or the one read at the start; the file is missing exactly when it was at the start or a save lost it, and otherwise holds what was written last |
| `UserStores.ChangedExactly` | USER/udata/udata.cpp:165-228 | what is in memory after a change that goes through, and when there is none |
| `UserStores.Reopened` | USER/udata/udata.cpp:161-301 | opening the file again after a save gives memory back exactly when the data is loadable |
| `UserStores.UserStore.ListUsers` | BACKEND/adapters/data_manager_user_store.cpp:86-104 | the listed users, or an exception for a missing, empty or unreadable file |
| `UserStores.UserStore.IsStoreEmpty` | BACKEND/adapters/data_manager_user_store.cpp:106-122 | when a store counts as empty |
| `UserStores.UserStore.UpdateUser` | BACKEND/adapters/data_manager_user_store.cpp:124-138 | load, change and save in one call |
| `UserStores.UserStore.RemoveUser` | BACKEND/adapters/data_manager_user_store.cpp:170-184 | load, remove and save in one call |
| `UserStores.UserStore.AddUser` | BACKEND/adapters/data_manager_user_store.cpp:140-168 | the file after adding, in up to three saves |
| `Users.FailedAddKeepsList` | BACKEND/adapters/data_manager_user_store.cpp:140-168 | a failed addition leaves the list as it was exactly unless the placeholder was alone, the user was saved, and neither the removal of the placeholder nor the undoing was, or a save that was reached lost the file |
| `Users.BothCanStay` | BACKEND/adapters/data_manager_user_store.cpp:158-166 | such a case |
| `UserStores.AddedInFile` | BACKEND/adapters/data_manager_user_store.cpp:140-168 | what up to three saves make of the file, whichever fail or lose the file, is what they make of the list |
| `UserStores.FailedAddKeepsFile` | BACKEND/adapters/data_manager_user_store.cpp:140-168 | a failed addition leaves the file as it was exactly unless both users stay or a save loses the file |
| `UserStores.BothCanStayInFile` | BACKEND/adapters/data_manager_user_store.cpp:158-166 | two users in the file after a failed addition |
| `UserStores.LossOpensSetup` | BACKEND/adapters/data_manager_user_store.cpp:106-122 | a store whose file was lost counts as empty, so setup is open again |
| `UserStores.SaveCanLose` | USER/udata/udata.cpp:83-123 | faults with which any save of a storable change loses the file |
| `FileReplace.AlwaysSafe` | USER/udata/udata.cpp:83-123 | whichever operations fail and wherever it is cut short, a complete copy exists; success means new, failure means old unless the restoring failed |
| `FileReplace.FileSystem.ReplaceFileAtomically` | USER/udata/udata.cpp:83-123 | the protocol goes through exactly these states |
| `FileReplace.FileSystem.FinishSave` | USER/udata/udata.cpp:389-396 | the end of a save: success exactly when the new file is in place; the target is missing exactly when the restoring failed, and the old file is then under the backup name |
| `AccountRules.StepKeepsWellFormed` | BACKEND/core/user_service.cpp:86-139 | a step keeps names distinct and every user within the rules, except exactly the edit of the placeholder that goes through without a new password while the old one is against the rules |
| `AccountRules.PlaceholderKeepsPassword` | BACKEND/core/user_service.cpp:294-337 | such an edit |
| `AccountRules.StepKeepsActiveAdmin` | BACKEND/core/user_service.cpp:58-139 | some administrator stays active except exactly when a wrong password disables the last one, a user that is none is created in the place of the placeholder, or a save that is reached loses the file; the condition is on the state, the request and the disk |
| `AccountRules.FirstUserCanStrand` | BACKEND/core/user_service.cpp:265-292 | such a creation |
| `AccountRules.StepKeepsFileReadable` | BACKEND/core/user_service.cpp:265-422 | a step leaves no administrator entry, without which the file is unreadable, exactly when it deletes the only one although it is not the last active administrator, edits the only one to another type, creates a user of another type in the place of the placeholder, or reaches a save that loses the file |
| `AccountRules.OnlyDebugLoses` | BACKEND/core/user_service.cpp:294-367 | by deleting or editing only the synthetic debug user can |
| `AccountRules.DebugCanStrandTheFile` | BACKEND/core/user_service.cpp:339-367 | and it does when the only administrator is disabled |
| `AccountRules.RunKeepsWellFormed` | BACKEND/core/user_service.cpp:225-459 | in every run, sessions that start included, the users are well formed throughout exactly when no step is that edit |
| `AccountRules.RunKeepsActiveAdmin` | BACKEND/core/user_service.cpp:225-459 | and some administrator is active throughout exactly when moreover no step is one of the three that take the last one away |
| `AccountRules.RunKeepsFileReadable` | BACKEND/core/user_service.cpp:225-459 | and an administrator entry is there throughout exactly when moreover no step loses it |
| `AccountRules.StepKept` | BACKEND/core/user_service.cpp:225-459 | the three rules over one step together, as every method of the services ensures them |
| `AccountRules.CountOthers` | BACKEND/core/user_service.cpp:58-69 | the count is positive exactly when another active administrator exists |
| `AccountRules.StepEffect` | BACKEND/core/user_service.cpp:225-459 | the list after a step and whether there is a store, from what the step gets as far as and what the disk does to its saves |
| `AccountRules.StoreStays` | USER/udata/udata.cpp:83-123 | a store is there after a step exactly unless a save the step reached lost the file; that step fails, no user is left, and the sessions go on |
| `AccountRules.ResetCanLoseStore` | BACKEND/core/user_service.cpp:369-393 | a reset by a manager whose save loses the file |
| `AccountRules.CreatedIsRuled` | BACKEND/core/user_service.cpp:86-126 | what validation lets through obeys the rules |
| `AccountRules.EditedIsRuled` | BACKEND/core/user_service.cpp:86-139 | an edited user obeys the rules exactly when it has a new password or the old one did |
| `AccountEntries.OwnChangeStored` | BACKEND/core/user_service.cpp:424-459 | after an own change that is done, the entry of the session user has the new password, the trimmed new hint, and all else, in this entry and in every other, as before |
| `AccountEntries.OwnChangeDone` | BACKEND/core/user_service.cpp:424-459 | when an own change is done |
| `AccountEntries.NewPasswordLogsIn` | BACKEND/core/session_service.cpp:58-114 | then any session logs in with the new password, when the count can be saved, and with no other |
| `AccountEntries.CreationStored` | BACKEND/core/user_service.cpp:265-292 | a creation that is done puts one entry with the trimmed and lowered fields asked for behind all others, or in the place of the lone placeholder |
| `AccountEntries.CreatedExactly` | BACKEND/core/user_service.cpp:265-292 | when a creation is done |
| `AccountEntries.CreatedLogsIn` | BACKEND/core/session_service.cpp:58-114 | a created user logs in with the password it was given |
| `AccountEntries.InitialAdminStored` | BACKEND/core/user_service.cpp:225-263 | setup that is done puts the administrator asked for in the place of the placeholder, or first |
| `AccountEntries.SetUpExactly` | BACKEND/core/user_service.cpp:225-263 | when setup is done |
| `AccountEntries.EditStored` | BACKEND/core/user_service.cpp:294-337 | an edit that is done replaces one entry by the fields asked for, with the old password when none is given |
| `AccountEntries.EditedExactly` | BACKEND/core/user_service.cpp:294-337 | when an edit is done |
| `AccountEntries.CountStored` | BACKEND/core/user_service.cpp:369-422 | a reset or disabling that is done sets one count to 0 or 8 and leaves all else |
| `AccountEntries.DeletionStored` | BACKEND/core/user_service.cpp:339-367 | a deletion that is done takes out one entry and keeps the others in order |
| `AccountEntries.ManagersManage` | BACKEND/core/user_service.cpp:151-198 | who manages users: the synthetic debug user, and stored users of type admin or debug, in any case, that are not locked |
| `AccountEntries.OnlyManagers` | BACKEND/core/user_service.cpp:265-422 | nobody else creates, edits, deletes, resets or disables, or changes anything by asking |
| `AccountEntries.ManagersSucceed` | BACKEND/core/user_service.cpp:339-422 | when a deletion, reset or disabling is done |
| `AccountEntries.CreatableExactly` | BACKEND/core/user_service.cpp:86-126 | which users can be created |
| `AccountEntries.EditableExactly` | BACKEND/core/user_service.cpp:86-139 | which edits are allowed |
| `AccountEntries.PasswordBounds` | BACKEND/core/user_service.cpp:37-48 | the password rules at their bounds |
| `AccountEntries.TrimMeans` | BACKEND/core/user_service.cpp:22-29 | trimming takes the blanks off both ends and nothing else |
| `AccountEntries.LoggedOut` | BACKEND/core/session_service.cpp:116-123 | after a logout the session is one of a guest, and all else is as before |
| `AccountEntries.GuestsMayNothing` | BACKEND/core/session_service.cpp:116-123 | which may do nothing that needs a user |
| `AccountEntries.SessionStarted` | BACKEND/core/session_service.cpp:40-56 | a session that starts is a new one for the given user, and no other changes |
| `AccountServices.SessionService.StartSession` | BACKEND/core/session_service.cpp:40-56 | an identifier no session has is drawn, and starting the session is the step of the state machine |
| `AccountServices.SessionService.Login` | BACKEND/core/session_service.cpp:58-114 | a login, on the user file, is the step of the state machine on the list the file holds, and keeps the rules but for the named exceptions |
| `AccountServices.SessionService.Logout` | BACKEND/core/session_service.cpp:116-123 | a logout makes the session a guest and touches no user |
| `AccountServices.UserService.CreateInitialAdmin` | BACKEND/core/user_service.cpp:225-263 | setup, only for an empty store or one with nothing but the placeholder, is that step on the list the user file holds, and keeps the rules but for the named exceptions |
| `AccountServices.UserService.CreateUser` | BACKEND/core/user_service.cpp:265-292 | creation by a manager of a normalized, valid user is the step of the state machine, and keeps an active administrator and the file readable but for the named exceptions |
| `AccountServices.UserService.UpdateUser` | BACKEND/core/user_service.cpp:294-337 | editing by a manager, with the old password when none is given, is the step and keeps the rules but for the named exceptions |
| `AccountServices.UserService.DeleteUser` | BACKEND/core/user_service.cpp:339-367 | deletion, guarded by the count of other active administrators, is the step and keeps the rules but for the named exceptions |
| `AccountServices.UserService.ResetFailedCount` | BACKEND/core/user_service.cpp:369-393 | a manager sets the failed count to 0; the step on the list the file holds |
| `AccountServices.UserService.DisableUser` | BACKEND/core/user_service.cpp:395-422 | a manager sets the failed count to 8, unless that is the last active administrator; the step on the list the file holds |
| `AccountServices.UserService.UpdateOwnAccount` | BACKEND/core/user_service.cpp:424-459 | a stored session user changes the own password and hint within the rules; the step on the list the file holds |
| `AccountServices.CountActiveAdmins` | BACKEND/core/user_service.cpp:58-69 | the counting loop |
| `AccountServices.StoredUsers.AddUser` | BACKEND/adapters/data_manager_user_store.cpp:140-168 | adding to the user file is adding to the list it holds, and the file holds the new list |
| `AccountServices.StoredUsers.UpdateUser` | BACKEND/adapters/data_manager_user_store.cpp:124-138 | updating the user file is updating the list it holds |
| `AccountServices.StoredUsers.RemoveUser` | BACKEND/adapters/data_manager_user_store.cpp:170-184 | removing from the user file is removing from the list it holds |
| `AccountServices.StoredUsers.ListUsers` | BACKEND/adapters/data_manager_user_store.cpp:86-104 | listing the user file is loading the list it holds |
| `Lockout.TryCounts` | BACKEND/core/session_service.cpp:58-114 | one login moves the count of an account as the attempt says, or not at all, or its save loses the file and no account is left |
| `Lockout.RunKeepsAccounts` | BACKEND/core/session_service.cpp:58-114 | a run of logins changes counts and sessions only, or has lost the file; then no account is left and no login brings one back |
| `Lockout.RunCounts` | BACKEND/core/session_service.cpp:58-114 | over any interleaving, an account is there unless the file was lost, and its count is determined by the saved attempts on it alone |
| `Lockout.LocksAfter` | BACKEND/core/session_service.cpp:84-101 | from a count of at most 7, unless the file is lost, an account locks after exactly 8 minus count saved wrong passwords, and the count stays at 8 |
| `Lockout.NeverAboveEight` | BACKEND/core/session_service.cpp:84-101 | the count never goes above 8, nor above where it started |
| `Lockout.LockedRejects` | BACKEND/core/session_service.cpp:84-86 | a locked account rejects every login and nothing changes |
| `Lockout.LockedStays` | BACKEND/core/session_service.cpp:84-86 | and keeps its count whatever logins follow, unless one loses the file |
| `Lockout.StepKeepsLocked` | BACKEND/core/user_service.cpp:225-459 | over any operation a locked account stays locked exactly unless a saved reset, edit or deletion names it, the first user takes the place of the placeholder, or a save loses the file |
| `Lockout.RunKeepsLocked` | BACKEND/core/user_service.cpp:225-459 | so over any run of operations of all users, it is locked throughout exactly when none of these occurs |
| `Lockout.SessionChangesOnSavedReset` | BACKEND/core/session_service.cpp:103-113 | a login is accepted, and the session changes, exactly when the password is right, the account is not locked and the reset of its count is saved |
| `AccountStorage.ListedIsLoaded` | BACKEND/adapters/data_manager_user_store.cpp:86-104 | listing a file saved from the list of the state machine is loading that list, where a file over the limits of the reader is an unreadable one |
| `AccountStorage.EmptyIsEmpty` | BACKEND/adapters/data_manager_user_store.cpp:106-122 | the store counts as empty, unreadable or in use as the list does |
| `AccountStorage.LoadedIsList` | BACKEND/adapters/data_manager_user_store.cpp:106-168 | what a call of the store reads first is the list |
| `AccountStorage.UpdatedInBoth` | BACKEND/adapters/data_manager_user_store.cpp:124-138 | an update of the file is the update of the list, whether it is saved, refused, too long for the format or loses the file |
| `AccountStorage.RemovedInBoth` | BACKEND/adapters/data_manager_user_store.cpp:170-184 | so is a removal |
| `AccountStorage.AddedInBoth` | BACKEND/adapters/data_manager_user_store.cpp:140-168 | so is an addition, whichever of its up to three saves fail or lose the file, and whether the file was there, empty or missing |
| `FileTree.IsPathInside` | BACKEND/adapters/filesystem_file_store.cpp:82-91 | the loop decides whether one path is a prefix of the other |
| `FileTree.ProtectedStep` | BACKEND/adapters/filesystem_file_store.cpp:122-134 | a path is protected when its directory or its name is |
| `FileGuards.ProtectedExactly` | BACKEND/adapters/filesystem_file_store.cpp:122-134 | the protected names: the user file, the temporary directory, and what ends in .tux or .tlog behind something else, in any case |
| `FileGuards.BlockedExactly` | BACKEND/adapters/filesystem_file_store.cpp:613-647 | a walk is blocked exactly by such a name on the way to the tree or in it, or by a link |
| `FileGuards.ComponentExactly` | BACKEND/adapters/filesystem_file_store.cpp:772-796 | which components are accepted, with all names of devices |
| `FileTree.ResolveManagedPath` | BACKEND/adapters/filesystem_file_store.cpp:772-805 | the component checks and the final check, with the separators and absolute paths of POSIX or Windows, compute the resolution |
| `FileTree.ResolvedInside` | BACKEND/adapters/filesystem_file_store.cpp:772-805 | a resolved path is inside the root, and below it unless the root was asked for, by nothing or, on Windows, by its own name from the drive; no component of it steps up, stays or separates; and a path that is not from the drive never fails the final check |
| `FileTree.RootReached` | BACKEND/adapters/filesystem_file_store.cpp:772-805 | where the root is not allowed it is reached exactly on Windows, by a path from the drive that is no network or device name and names the components of the root, all of them valid |
| `FileTree.RootByName` | BACKEND/adapters/filesystem_file_store.cpp:772-805 | such a path |
| `FileTree.CollectRefuses` | BACKEND/adapters/filesystem_file_store.cpp:613-647 | collecting is refused exactly when something in the tree is protected or a link |
| `FileTree.CollectsOnceChildrenFirst` | BACKEND/adapters/filesystem_file_store.cpp:613-647 | each path of the tree is collected, and each after everything below it |
| `FileTree.ChildrenFirstOnce` | BACKEND/adapters/filesystem_file_store.cpp:613-647 | and none twice |
| `FileStore.NextIsEmpty` | BACKEND/adapters/filesystem_file_store.cpp:657-662 | each directory is empty when its turn comes |
| `FileStore.PrefixLeavesTree` | BACKEND/adapters/filesystem_file_store.cpp:657-662 | wherever the removal stops, no path has lost its directory |
| `FileStore.Store.CollectTree` | BACKEND/adapters/filesystem_file_store.cpp:613-647 | the recursive walk that pushes to one list |
| `FileStore.Store.RemoveAll` | BACKEND/adapters/filesystem_file_store.cpp:657-662 | the removal loop fails only when the disk does |
| `FileStore.Store.RemoveDirectory` | BACKEND/adapters/filesystem_file_store.cpp:579-671 | a removal is refused exactly for a guarded name or a link, and then deletes nothing; otherwise the whole tree goes, or a prefix of the order up to the removal the disk refused |
| `FileSearch.SearchIsFilter` | BACKEND/adapters/filesystem_file_store.cpp:709-737 | the pruned traversal finds exactly the matching entries that are neither protected nor links, in the order of the full traversal |
| `FileSearch.EverythingIsThere` | BACKEND/adapters/filesystem_file_store.cpp:709-737 | the full traversal meets exactly the paths of the tree |
| `FileSearch.SearchLoop` | BACKEND/adapters/filesystem_file_store.cpp:709-737 | the iterator loop finds them |
| `FileSearch.SearchSorted` | BACKEND/adapters/filesystem_file_store.cpp:673-746 | the results are exactly the entries below that are named by the query, in any case, and neither links nor guarded, sorted |
| `FileSearch.OrderedMeans` | BACKEND/adapters/filesystem_file_store.cpp:738-745 | sorted by the path without regard to case, and where that is the same by the path itself |
| `Ordering.LessMeans` | BACKEND/adapters/filesystem_file_store.cpp:738-745 | the shorter text is the beginning of the longer one, or at the first difference the character is smaller |
| `FileSearch.BeforeTransitive` | BACKEND/adapters/filesystem_file_store.cpp:738-745 | the comparison orders the results |
| `TuxFormat.EncryptDecryptInPlace` | SYSTEM/crypto/crypto.cpp:58-65 | the loop in place computes the encoded text |
| `TuxFormat.TakePut` | BACKEND/adapters/filesystem_tux_store.cpp:188-217 | a written string is read back and the rest of the stream is left |
| `TuxFormat.EncodedReads` | BACKEND/adapters/filesystem_tux_store.cpp:219-329 | what is written is read back, the metadata alone and the whole file |
| `FileLayouts.TuxLayout` | BACKEND/adapters/filesystem_tux_store.cpp:219-329 | the fields of a TUX file, in order |
| `FileLayouts.TuxBits` | SYSTEM/crypto/crypto.cpp:58-65 | the TUX cipher turns over every other bit, the lowest included |
| `TuxFormat.SameFile` | BACKEND/adapters/filesystem_tux_store.cpp:123-156 | two accepted names mean the same file exactly when they differ at most by one separator at the end |
| `TuxRules.UsableExactly` | BACKEND/adapters/filesystem_tux_store.cpp:104-121 | which parts a name may have |
| `TuxRules.NamesExactly` | BACKEND/adapters/filesystem_tux_store.cpp:123-156 | an accepted name is usable parts between separators, and all such names are accepted |
| `TuxFormat.OneFileTwoNames` | BACKEND/adapters/filesystem_tux_store.cpp:123-156 | such names |
| `TuxFiles.OnlyOwnFiles` | BACKEND/core/tux_service.cpp:174-288 | without privileges an operation neither changes a file created by someone else nor an unreadable one, and leaves behind nothing but own files |
| `TuxFiles.RunKeepsOthersFiles` | BACKEND/core/tux_service.cpp:174-288 | in every run by users without privileges, a file created by none of them keeps its path and every byte |
| `TuxFiles.WriteKeepsCreator` | BACKEND/core/tux_service.cpp:197-210 | writing replaces the content, keeps creator and creation time, and touches nothing else |
| `TuxFiles.MoveConserves` | BACKEND/core/tux_service.cpp:269-288 | a successful move takes every byte to the destination, removes the source, changes nothing else, and replaces a destination only on request by someone who may access it |
| `TuxFiles.CopyBelongsToUser` | BACKEND/core/tux_service.cpp:248-267 | a copy has the content and belongs to the user; the source stays |
| `TuxFiles.FailureKeepsFiles` | BACKEND/core/tux_service.cpp:32-44 | an operation that fails changes nothing |
| `TuxServices.TuxService.RequireAccess` | BACKEND/core/tux_service.cpp:51-80 | who may use TUX files at all |
| `TuxRules.AccessExactly` | BACKEND/core/tux_service.cpp:51-80 | access is for the synthetic debug user and for stored users that are no guests and not locked, as they are stored |
| `TuxRules.CreatesExactly` | BACKEND/core/tux_service.cpp:174-195 | when a file is created, empty and the property of the user |
| `TuxRules.WritesExactly` | BACKEND/core/tux_service.cpp:197-210 | when a file is written: by privileged users and its creator |
| `TuxRules.DeletesExactly` | BACKEND/core/tux_service.cpp:212-225 | when a file is deleted, and why not |
| `TuxRules.CopiesExactly` | BACKEND/core/tux_service.cpp:248-267 | when a file is copied |
| `TuxRules.MovesExactly` | BACKEND/core/tux_service.cpp:269-288 | when a file is moved |
| `TuxServices.ServedRespects` | BACKEND/core/tux_service.cpp:174-288 | whatever access the session has: without access nothing changes, without privileges only own files do, and a refused operation changes nothing |
| `TuxServices.TuxService.Create` | BACKEND/core/tux_service.cpp:174-195 | creation, with the check of an existing file to be overwritten, is the step of the state machine; files of others and of nobody stay as they are without privileges, and all files do when it fails |
| `TuxServices.TuxService.Write` | BACKEND/core/tux_service.cpp:197-210 | writing by someone with access only, with creator and creation time carried over; files of others and of nobody stay as they are without privileges, and all files do when it fails |
| `TuxServices.TuxService.DeleteFile` | BACKEND/core/tux_service.cpp:212-225 | deletion by someone with access only; files of others and of nobody stay as they are without privileges, and all files do when it fails |
| `TuxServices.TuxService.CopyFile` | BACKEND/core/tux_service.cpp:248-267 | copying with access to the source and to an existing destination; files of others and of nobody stay as they are without privileges, and all files do when it fails |
| `TuxServices.TuxService.MoveFile` | BACKEND/core/tux_service.cpp:227-288 | renaming and moving with access to the source and to an existing destination; files of others and of nobody stay as they are without privileges, and all files do when it fails |
| `TuxServices.TuxService.Read` | BACKEND/core/tux_service.cpp:153-172 | a file is read by someone with access only, and all errors in their order |
| `TuxServices.TuxService.RequireDestinationAccessForOverwrite` | BACKEND/core/tux_service.cpp:104-123 | only a missing destination is overlooked |
| `TuxServices.TuxService.FilterVisibleEntries` | BACKEND/core/tux_service.cpp:86-102 | the listing loop; one unreadable file fails the listing for a user without privileges |
| `TuxServices.VisibleMeans` | BACKEND/core/tux_service.cpp:86-102 | a user sees exactly the directories and the files it may access |
| `TuxServices.TuxStore.Create` | BACKEND/adapters/filesystem_tux_store.cpp:440-452 | a new empty file that is read back with the given metadata and touches no other, or nothing changes; refused when the name is invalid or taken and overwriting was not asked for |
| `TuxServices.TuxStore.Write` | BACKEND/adapters/filesystem_tux_store.cpp:454-465 | the content and metadata are read back and no other file is touched, or nothing changes |
| `TuxServices.TuxStore.DeleteFile` | BACKEND/adapters/filesystem_tux_store.cpp:467-493 | the file is gone and no other is touched, or nothing changes |
| `TuxServices.TuxStore.CopyFile` | BACKEND/adapters/filesystem_tux_store.cpp:499-515 | the destination is read back with the content of the source and the given metadata, the source and all else stay, or nothing changes; refused for the same path, a taken destination or unreadable content |
| `TuxServices.TuxStore.MoveFile` | BACKEND/adapters/filesystem_tux_store.cpp:517-556 | the destination reads as the source did, the source is gone and all else stays, or nothing changes; refused for the same path, a taken destination or a missing source |
| `TuxServices.TuxStore.WriteFile` | BACKEND/adapters/filesystem_tux_store.cpp:294-329 | the file becomes the encoded content, or nothing changes when a length is over its limit or the disk fails |

## Left out

- Win32 processes, pipe handles, deadlines and overlapped reads: reading a pipe is an arbitrary sequence of chunks, and writing to it succeeds or fails.
- Floating point: numbers are exact reals between plus and minus the largest double; rounding in arithmetic, infinities and locales are not modelled.
- UTF-8: strings are sequences of characters, one for each byte, and no encoding is checked.
- The method table of `BACKEND/core/json_rpc.cpp`: it is an arbitrary function of the state, the method and the parameters.
- Error messages: failures carry their code only, except in the JSON layer.
- Consoles, colours, line wrapping and the fixed buffers of formatted output: a terminal line is unbounded.
- ContentView.RenderContent: scroll offsets are natural numbers and the screen has at least one column; the code that adjusts the offsets is not modelled.
- Rendering other than the text area, prompts, file dialogs, setup and account forms, and the explorer.
- Text-mode newline translation on saving and loading, and NUL characters in a command line.
- Symbolic links and reparse points outside the managed tree, canonical paths, and case-insensitive or short file names: paths are lists of names, and a link is a kind of node.
- Copying, moving, reading and writing of managed files in `BACKEND/adapters/filesystem_file_store.cpp`: branch after branch of the same checks.
- Partial writes: a write that fails leaves the file as it was; a temporary TUX file that is left behind after an oversized name is not modelled.
- The Windows branch of the file replacement, a single system call.
- LineEditor.KeyOf: the codes are those of the Windows console, where 0 and 224 begin an extended key; the other branch of `TundraTUI/src/color.cpp` is not modelled.
- AccountServices.StoredUsers.ListUsers: within one call of a service all reads of the user file find its path usable or none does; between calls that may change.
- FileTree.Resolve: Windows paths are read as the Microsoft standard library reads them; a path that begins with a drive is refused for its colon either way.
- Random session identifiers, tick-based temporary names and clocks: identifiers are any that are unused, times are parameters.
- The Mersenne twister behind the password keystream, which is any function of the position, and its strength.
- Who may log and read audit records, strict mode in `logEvent`, and the names of log files.
- The listing order of directories, and the searches of the TUX store.
- The strict-mode operations of the user service.
- Exceptions as such: a thrown error is an answer with its code, and catching one is a comparison of codes.
- AccountServices.SessionService.StartSession: the identifiers drawn are a given list with an unused one in it, so that drawing again ends.
