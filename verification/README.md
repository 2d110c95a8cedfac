# Viewglob, verified

Viewglob watches a shell's raw byte stream, rebuilds the command line being typed by
matching patterns in it, expands that command line in a second shell, and shows what it
finds in a display window. This project models the programs of that chain and proves what
they owe each other:

- **vgseer** scans the shell's output (`Patterns`, `Sequences`, `Connections`, `Scanning`,
  `ShellMachine`, `Scanner`, `PromptWords`, `ShellRuns`,
  `Announcements`, `Levels`), keeps the command line
  (`CmdLines`, `TerminalRow`, `RowMoves`, `Echoes`), sanitises it (`Sanitize`, `SaneText`) and cuts an expansion out of the
  sandbox shell's output (`Sandbox`).
- **vgexpand** splits the masks (`Split`), collects directories and files, counts them and
  prints them (`Expansion`, `Vgexpand`, `Listings`).
- **vgd** keeps the clients and mirrors the current one on a display (`DaemonSpec`,
  `DaemonLaws`, `DaemonImpl`); the programs talk through `ParamIo` over `HardenedIo`.
- **vgmini**, the display, reads the listing (`GlobData`), keeps its directories and files
  up to date in place (`Items`, `BoxOrder`, `FileBoxes`, `Display`, `Scores`, `Vgmini`), lays them
  out in columns (`WrapBox`, `Measures`) and decodes its colours (`LsColors`, `LsEscapes`).
- `Pipeline` joins printer, sandbox, framing, parser and display.

A byte is a `char`, a C string a `string` without NUL. Objects the programs update in place
are classes with the same fields; their methods are proved against functions on values, and
the theorems are lemmas about those functions. `dafny verify dfyconfig.toml` checks the
whole project.

## What is proved

**Recognition.** A pattern's automaton is in progress, matched or dead exactly when the bytes
fed to it are the beginning of a word, a word, or neither of its language, and the group of
automata of a level fires the first sequence at the earliest length that completes.

**Chunk invariance.** A read may end anywhere, except that it may not leave a single space open
at the prompt: that is proved to be the exact condition, over every continuation.

**Conservation.** Over any run of reads the bytes shown and still to be shown are the bytes
read without the directory announcements, as long as, before each read, the bytes held over at
the prompt (which have been shown) neither begin an announcement nor end in an escape. That is
exactly when every next read conserves; a session that loses a byte is reached from the start
in three reads. Read off the table: it is exactly when no announcement begins within them.

**Levels.** From the bytes scanned: text typed at a prompt appears on the line; Enter runs the
command, and nothing it prints without an escape touches the line; a scan comes back to the
prompt only by reading a whole prompt separator; a right prompt leaves the line as it is.

**Terminal row.** When a shell writes the bytes of any series of edits that is nowhere refused,
the line afterwards is the row those edits draw on the terminal. The edits a line sees agree
with an unbounded terminal row (sections 8.3.5, 8.3.18, 8.3.20, 8.3.26, 8.3.41 and 8.3.64 of
ECMA-48) for any series of them up to the first that is refused; cursor up (section 8.3.22)
lands where a grid of wrapped rows says, and so do newlines, carriage returns, wraps and
erasures.

**Balance.** A line slips when a backslash is held over a separator inside an extended glob.
The output for a line that does not slip is closed under the sanitiser's own quoting rules, and
every beginning of a line is sanitised to closed text if and only if the line never slips. (A
single line may slip and still come out closed.) The splitter, which relies on closed input,
then returns exactly the pieces between bare spaces. What is kept of a line is proved by the
kinds of text that may come next: ordinary, quoted, grouped and escaped text stays, a bare
separator ends the command, a bare redirection leaves nothing of it.

**Listings.** What vgexpand prints is what the display reads, in order and with every count,
through any splitting of the sandbox pipe and through both frames; and whatever the display
showed before, it ends up showing exactly the directories and files of the listing, each once.
It shows a directory's files in the listing's order exactly when a condition on the old box and
the new listing holds. A directory's score, by which one is made active, is what the listing
changed of it, and the highest wins.

**Daemon.** In every reachable state the current client is one of the clients, and nothing a
running display has been told is wrong of it; the display shows all that is stored for it
exactly when it has been told the window and whatever else it has not been told is as a client
starts. After a context switch, or when started for the first client, it always does. Focus on
a client's window makes a client with that window current and shows it; and for every other
event it is proved who is current, what is stored and what the display hears.

**Columns.** The size request settles on the largest number of columns up to a first guess that
fits with the fewest rows that hold the children; the guess is an upper bound for every width
exactly when no layout is narrower than as many of the first children side by side. Given the
requested height the allocation needs no more columns than were requested, the single one asked
for when nothing fits included, whatever the children's heights, exactly when the last column
was measured or holds a single child. The columns of an allocation are the only greedy ones
there are.

**Framing, colours.** See the table.

Places where the code does not do what its comments say, each shown on an input and with the
exact condition under which it does: a lone space at the prompt (`ShellRuns.CutUnsafe`,
`CutSafeIff`), an announcement split over two reads (`Announcements.LosingSession`,
`ConservesIff`), the sanitiser's slip (`Sanitize.SlipExample`, `BalancedIffNoSlip`), the first
guess at a number of columns that is no upper bound (`WrapBox.FirstGuessTooSmall`,
`TrueBoundIff`), files shown out of order after an update (`Items.OrderMayDiffer`,
`BoxOrder.OrderIff`), values that end in half a delimiter (`ParamIo.SurvivesIff`), a receiver
that reads past its buffer (`ParamIo.GetParam`), a column that is laid out but not measured
(`WrapBox.UncountedColumn`, `AgreesIff`), a display started for a further client
(`DaemonSpec.UnswitchedStarts`, `JoinedMirrorsIff`, `MirrorsIff`), the cursor of an erased row
(`TerminalRow.EraseAllIff`). `delete_current_word` reads the terminator and so empties the
whole command; `^?` in LS_COLORS leaves its question mark to be read again. These are modelled
as the code has them.

## Model

| member | source | states |
|---|---|---|
| Patterns.Recognises | vgseer/sequences.c:413-498 | a well-formed pattern's automaton, fed from position 0, reports a match, progress or failure exactly when the bytes are a word, a proper beginning of one, or neither |
| Patterns.FeedDerives | vgseer/sequences.c:419-498 | one byte takes the automaton from a suffix of the pattern to the suffix that accepts what is left of the word |
| Patterns.PrefixFree | vgseer/sequences.c:419-498 | no word of a pattern begins another, so the earliest match is the only one |
| Patterns.OpenAvoids | vgseer/sequences.c:419-498 | a byte no part of a pattern accepts occurs in no segment in progress |
| CmdLines.TrimmedTwice | vgseer/cmdline.c:343-354 | dropping trailing carriage returns a second time changes nothing |
| CmdLines.CmdLine.OverwriteChar | vgseer/cmdline.c:130-186 | the character stands at the cursor, the cursor moves on, and the line keeps cursor and length in bounds |
| CmdLines.CmdLine.DelChars | vgseer/cmdline.c:190-221 | that many characters at the cursor go, or nothing changes and failure is reported |
| CmdLines.CmdLine.WipeInLine | vgseer/cmdline.c:225-316 | erases to the right up to the row's end, or the row and moves to its start; to the left is refused |
| CmdLines.CmdLine.InsertChars | vgseer/cmdline.c:319-335 | copies of the character go in at the cursor, which stays |
| CmdLines.CmdLine.DelTrailingCRs | vgseer/cmdline.c:343-354 | carriage returns at the end go, the cursor staying in the line |
| CmdLines.CmdLine.Forward | vgseer/cmdline.c:388-418 | the cursor moves exactly that far, or not at all when it would leave the line |
| CmdLines.CmdLine.Backward | vgseer/cmdline.c:421-449 | the cursor moves back exactly that far, or not at all |
| Connections.Connection.PrependHoldover | vgseer/connection.c:72-102 | the bytes held over are in front again, and those already shown are marked to be skipped |
| Connections.Connection.CreateHoldover | vgseer/connection.c:105-121 | the open segment is kept for the next read, and cut off if it is to be written later |
| Connections.Connection.EatSegment | vgseer/connection.c:125-143 | exactly the segment is cut out of the buffer |
| Connections.Connection.PassSegment | vgseer/connection.c:146-152 | the segment is stepped over and nothing is lost |
| Connections.Connection.Write | vgseer/connection.c:197-221 | writes the buffer without the bytes already shown |
| Sequences.PatternsShape | vgseer/sequences.c:112-214 | every pattern of the tables has at most one run of digits or printable characters, closed by a delimiter |
| Sequences.NoPatternHoldsNul | vgseer/sequences.c:112-214 | no pattern can take in a NUL, so a holdover's string length is its length |
| Sequences.RowUp | vgseer/sequences.c:757-828 | the target of a cursor up lies in the line |
| Sequences.Handle | vgseer/sequences.c:565-894 | every handler keeps the cursor within the line and takes no more bytes than there are |
| Sequences.RunHandler | vgseer/sequences.c:565-894 | the handlers on the objects do to line, segment and buffer what the table of outcomes says |
| Sequences.AnalyzeEffect | vgseer/sequences.c:501-553 | each effect changes level, shell state and line as listed, and no other |
| Scanning.ScanSplits | vgseer/vgseer.c:872-917 | scanning a stream in two parts, resuming with the open segment, gives the state, pieces and open segment of scanning it whole |
| Scanning.ScanCovers | vgseer/vgseer.c:872-917 | the pieces and the open segment are the bytes scanned, in order |
| Scanning.EatenAre | vgseer/vgseer.c:872-917 | every piece cut out is one a matched sequence cuts out |
| Scanning.OpenGrows | vgseer/vgseer.c:872-917 | an open segment is one in which some sequence is still in progress |
| ShellMachine.EarliestFirst | vgseer/vgseer.c:872-897 | every scan takes the shortest beginning of its input that is decided: if it is a word, the first listed sequence it is a word of completes, and nothing shorter does; if nothing can come of it, only its first byte goes; if none is ever decided, all of it stays open |
| Scanner.TracksStep | vgseer/sequences.c:419-498 | a byte keeps an automaton at the position its segment calls for |
| Scanner.FirstFires | vgseer/sequences.c:387-410 | the sequence found by trying a level's automata in order is the first whose word the segment is |
| Scanner.OpenHoldsNoNul | vgseer/connection.c:105-121 | no open segment holds a NUL, so nothing is lost when it is kept as a C string |
| Scanner.SeqTable.CheckSeq | vgseer/sequences.c:419-498 | the table's automaton for a sequence takes one step of its specification, the others keep still |
| Scanner.SeqTable.EnableAll | vgseer/sequences.c:380-385 | all automata of a level are enabled and back at 0 |
| Scanner.FeedGroup | vgseer/sequences.c:387-410 | one byte fed to a level's automata in order: the first to match wins, else progress, else failure |
| Scanner.CheckSeqs | vgseer/sequences.c:387-410 | the outcome for a segment is that of the earliest and first matching sequence, with its handler run |
| Scanner.ScanStep | vgseer/vgseer.c:872-897 | one iteration moves, grows or eats as the segment's reaction says |
| Scanner.ScanAll | vgseer/vgseer.c:872-897 | the loop ends, keeps the segment inside the buffer, and leaves what the scan of the whole buffer leaves |
| Scanner.SettleScan | vgseer/vgseer.c:899-917 | the open segment is kept for the next read, except for a lone space at the prompt, which is let go |
| Scanner.ScanSequences | vgseer/vgseer.c:872-917 | state, buffer and holdover are those of the abstract scan of holdover and read |
| Scanner.ProcessShell | vgseer/vgseer.c:683-703 | one read from the shell, scanned and written, is one turn of the session, provided the buffer holds holdover and read |
| PromptWords.WordIs | vgseer/sequences.c:112-214 | the words of each sequence, spelled out byte for byte |
| PromptWords.NothingInside | vgseer/sequences.c:112-214 | no sequence of the prompt completes wholly inside a segment held open |
| PromptWords.QuietIff | vgseer/sequences.c:112-214 | no announcement begins within a segment open at the prompt exactly when the segment neither begins with an announcement's two bytes nor ends in an escape |
| ShellRuns.CutSafe | vgseer/vgseer.c:872-917 | scanning two reads is scanning them as one, in state, line, pieces and open segment, unless the first leaves a lone space |
| ShellRuns.CutUnsafe | vgseer/vgseer.c:906-913 | after a lone space at the prompt a carriage return is scanned differently |
| ShellRuns.CutSafeIff | vgseer/vgseer.c:872-917 | a read may end somewhere for all continuations exactly when it leaves no lone space |
| ShellRuns.ChunksDoNotMatter | vgseer/vgseer.c:872-917 | while the terminal's side leaves the line alone, any splitting of a stream into reads with safe ends gives the session of a single read |
| ShellRuns.TurnExpects | vgseer/vgseer.c:861-917 | scanning never changes whether a newline is expected |
| ShellRuns.WritesDoNotMatter | vgseer/vgseer.c:683-703 | nor does the splitting change what is written, as long as what was already shown is quiet before every read |
| ShellRuns.HeadSurvives | vgseer/connection.c:72-102 | bytes already shown stay at the front of the buffer while no announcement begins among them |
| ShellRuns.QuietIsLate | vgseer/connection.c:125-142 | nothing is cut out of quiet bytes already shown, whatever is read next |
| ShellRuns.TurnConserves | vgseer/vgseer.c:683-703 | while the bytes already shown are quiet, a read shows and holds exactly the bytes read without announcements, and never skips past the buffer |
| ShellRuns.RunConserves | vgseer/vgseer.c:683-703 | over any run whose held-over bytes are quiet before every read, whatever the terminal's side makes the line expect: bytes shown and still held are the bytes read without announcements |
| ShellRuns.RunCovers | vgseer/vgseer.c:683-703 | over any run: what is kept, cut out and open is what was read |
| ShellRuns.OnlyAnnouncementsCut | vgseer/sequences.c:586-594 | every piece cut out of a run is one complete directory announcement |
| Announcements.ConservesIff | vgseer/connection.c:125-142 | whatever is read next is conserved exactly when the bytes held over and already shown neither begin an announcement nor end in an escape |
| Announcements.AnnouncementCut | vgseer/sequences.c:586-594 | an announcement met at the prompt is cut out whole however it arrives |
| Announcements.SplitAnnouncementLoses | vgseer/connection.c:125-142 | an announcement split after bytes were shown makes as many bytes of what follows go unwritten, or the write run past the buffer |
| Announcements.ScanPasses | vgseer/vgseer.c:872-897 | where nothing that starts in the first n bytes completes or lives on, the scan lets them go one by one and comes to stand right behind them |
| Announcements.LosesLater | vgseer/connection.c:125-142 | an open segment that ends in an escape: an announcement begun there makes the read lose bytes |
| Announcements.LosingSession | vgseer/connection.c:89-90 | from the start of a session: a prompt, an announcement cut after its escape, and a letter that is never written |
| Levels.PassesBy | vgseer/vgseer.c:872-917 | away from the prompt, output without an escape passes by: it is kept and the line is only trimmed |
| Levels.EnterRuns | vgseer/sequences.c:501-553 | at a prompt awaiting a newline, a newline and any output without an escape after it end away from the prompt, executing, with text and cursor as they were |
| Levels.PromptNeedsSeparator | vgseer/sequences.c:501-553 | a scan that comes to the prompt from another level has read a whole prompt separator or right prompt's end |
| Levels.PromptBegins | vgseer/sequences.c:501-553 | a separator begins a prompt with an empty line, unless the line is being rebuilt: then it stays |
| Levels.CompletionRebuilds | vgseer/sequences.c:597-602 | the end of a list of completions keeps the line for the prompt to come |
| Levels.TypingShows | vgseer/vgseer.c:885-917 | text typed at a prompt stands on the line over what stood at the cursor, trailing space included |
| Levels.BackTooFar | vgseer/sequences.c:625-636 | going back from the first column empties the line and loses the prompt |
| Levels.ReturnRebuilds | vgseer/sequences.c:833-865 | a carriage return on the first row goes to its start and keeps the line to be rebuilt; the byte behind it is scanned again |
| Levels.RightPromptUnseen | vgseer/sequences.c:572-583 | from the start of a right prompt to its end the line stays as it is, whatever is printed |
| TerminalRow.HandlersEdit | vgseer/sequences.c:625-745 | the handlers for backspace, cursor, insert, delete and erase do the edit their control function names, or report a rebuild and change nothing |
| TerminalRow.EditShows | vgseer/cmdline.c:176-335 | an edit that succeeds keeps the line, padded with blanks, equal to an unbounded terminal row with the same cursor |
| TerminalRow.EraseAllIff | vgseer/cmdline.c:274-316 | erasing a whole row without wraps agrees with the terminal exactly when the cursor was at its start |
| TerminalRow.RowSimulation | vgseer/cmdline.c:176-449 | so does any series of edits, up to the first that is refused, which leaves the line unchanged |
| TerminalRow.NthCrOfRow | vgseer/sequences.c:757-828 | the carriage returns found to the left of a place in wrapped rows are those that end the rows above |
| TerminalRow.CursorUpLands | vgseer/sequences.c:757-828 | over rows of one width, n rows up lands n rows higher in the same column, or at the top row when a carriage return lies to the right; otherwise a rebuild with the cursor at 0 |
| RowMoves.NumberRead | vgseer/sequences.c:221-240 | the number written in a control sequence, after any zeros, is the number read; none is 0 |
| RowMoves.EditsTold | vgseer/sequences.c:639-745 | a control sequence asks for the edit its final byte names, as often as its number says, 0 and none standing for 1; erasing takes the number as it is |
| RowMoves.PwdTold | vgseer/sequences.c:586-594 | the directory announced is what stands between introducer and terminator |
| RowMoves.NewlineLands | vgseer/sequences.c:868-894 | over wrapped rows a newline goes to the start of the next; in the last it runs an awaited command, or else begins another row |
| RowMoves.ReturnLands | vgseer/sequences.c:833-865 | a carriage return goes to the start of its row, from the first row with a rebuild; an awaited command is run |
| RowMoves.WrapSplits | vgseer/sequences.c:607-622 | a wrap splits a row at the cursor, goes on to a next row that is there, or begins one |
| RowMoves.ErasedRight | vgseer/cmdline.c:225-272 | erasing to the right leaves a row what stands left of the cursor; at the very start of a line that goes on below, the first row goes altogether |
| RowMoves.ErasedAll | vgseer/cmdline.c:274-316 | erasing a row takes the carriage return before it and goes to the end of the row above; the first row is only emptied |
| Echoes.ControlScanned | vgseer/sequences.c:625-745 | scanning the bytes of one edit does that edit on the line and nothing else, whatever follows |
| Echoes.EchoShows | vgseer/vgseer.c:872-917 | after the bytes of any series of edits that is nowhere refused, the line is the row those edits draw on the terminal |
| Sanitize.SanitizeLine | vgseer/sanitize.c:60-340 | the loop over the line computes the sanitised string |
| Sanitize.SaneCmd.TakeChar | vgseer/sanitize.c:88-300 | one character does to quotes, flags and command what the rules say |
| Sanitize.SaneCmd.Close | vgseer/sanitize.c:302-335 | quotes still open are closed innermost first |
| Sanitize.StepKeeps | vgseer/sanitize.c:88-300 | unless the input slips, the command so far re-reads to the quotes that are on the stack |
| Sanitize.RunKeeps | vgseer/sanitize.c:60-300 | so does it after any input that does not slip |
| Sanitize.OutputBalanced | vgseer/sanitize.c:60-340 | the output then ends outside quotes with no pending escape, no bare separator at top level and no bare backtick outside single quotes |
| Sanitize.SlipUnbalances | vgseer/sanitize.c:258-284 | a slip leaves the flag set after an unescaped separator inside a group, and no later closing balances it |
| Sanitize.BalancedIffNoSlip | vgseer/sanitize.c:60-340 | every beginning of an input is sanitised to balanced text exactly when the input does not slip |
| Sanitize.SlipExample | vgseer/sanitize.c:258-284 | an input that slips |
| Sanitize.SlipHealed | vgseer/sanitize.c:258-284 | an input that slips and still comes out closed |
| SaneText.ReadyIff | vgseer/sanitize.c:60-340 | from the outputs alone: the loop goes on, with no flag up and nothing open |
| SaneText.OrdinaryKept | vgseer/sanitize.c:292-300 | ordinary text is kept after any such beginning |
| SaneText.EnclosedKept | vgseer/sanitize.c:108-245 | quoted text and groups behind a pattern character are kept, separators and redirections in them too, and closed when the line ends inside them |
| SaneText.EscapedKept | vgseer/sanitize.c:142-153 | an escaped character is kept with its backslash, a last backslash is not |
| SaneText.StopsThere | vgseer/sanitize.c:201-291 | a bare separator or backtick ends the command, a bare redirection leaves nothing of it, a bare parenthesis ends it |
| SaneText.DollarStops | vgseer/sanitize.c:84-97 | a dollar sign that begins something ends the command; before a blank it is kept |
| SaneText.StrayDropped | vgseer/sanitize.c:233-275 | a stray closing parenthesis and line ends are left out |
| SaneText.HistoryDropped | vgseer/sanitize.c:74-104 | a word of history expansion is left out up to the blank that ends it |
| SaneText.BangKept | vgseer/sanitize.c:170-231 | an exclamation mark before a blank is kept, and so is a group it opens |
| SaneText.LineCut | vgseer/sanitize.c:60-340 | a line of ordinary words is kept up to where its command ends, and a redirection leaves nothing |
| Split.SplitMask | vgexpand/vgexpand.c:827-907 | on text that ends outside quotes the cutter ends inside the buffer and returns for each word its text, a trailing slash told by the flag instead; otherwise it is what runs off the end |
| Split.CutWords | vgexpand/vgexpand.c:835-890 | the words cut in place are the words read character by character |
| Split.WordsAreThePieces | vgexpand/vgexpand.c:835-890 | words and the runs of bare spaces between them make up the mask, no word is empty or holds a bare space |
| Split.ClosedSplits | vgexpand/vgexpand.c:823-907 | closed text is split without running past its terminator |
| Split.SanitizedSplits | vgseer/sanitize.c:302-335 | what the sanitiser closes is split without running past its terminator |
| Sandbox.Sandbox.ProcessSandbox | vgseer/vgseer.c:728-775 | an awaited expansion is cut out of the reads that hold it; without both marks nothing is sent and it stays awaited |
| Sandbox.Sandbox.CopyToEnd | vgseer/vgseer.c:756-768 | everything up to the closing mark is copied, over any number of reads |
| Sandbox.AnyChunking | vgseer/vgseer.c:745-768 | the text between the first opening mark and the next closing mark is cut out however the stream is split into reads |
| Sandbox.OutputComesThrough | vgseer/vgseer.c:739-768 | vgexpand's output comes through whatever the shell wrote before it |
| Listings.DecimalRoundTrip | vgexpand/vgexpand.c:347-350 | different counts are printed differently |
| Listings.TextFree | vgexpand/vgexpand.c:310-358 | a printed listing holds neither the closing mark nor a NUL |
| Listings.LinesExample | vgexpand/vgexpand.c:382-413 | the line of a file of each type and selection, character by character |
| Listings.PrintedExample | vgexpand/vgexpand.c:310-358 | a whole output, character by character |
| GlobData.FileLineRead | vgdisplay/vgmini.c:327-345 | a file's line is read back as its name, type and selection |
| GlobData.HeadingRead | vgdisplay/vgmini.c:283-306 | a heading is read back as the three counts and the name with its mark |
| GlobData.TextRead | vgdisplay/vgmini.c:254-351 | a printed listing is read back as exactly its directories and shown files, in order |
| Items.BoxAgrees | vgdisplay/file_box.c:440-543 | whatever a box held, after a directory is read and the rest swept out it holds exactly the directory's files, each once |
| Items.FreshBoxOrder | vgdisplay/file_box.c:440-459 | an empty box shows the files in the order of the listing |
| Items.OrderMayDiffer | vgdisplay/file_box.c:440-459 | a box updated from one listing to another may show files in another order than a new one |
| BoxOrder.OrderIff | vgdisplay/file_box.c:678-716 | whatever a box held, it shows a directory's files in the listing's order exactly when files that keep their items stood in that order, and before no file put in does an item that is unread or to be swept out precede an earlier file that kept its item |
| BoxOrder.OrderIffNoneRemoved | vgdisplay/file_box.c:440-459 | when the files known before keep type and order, that is: no file is added behind a kept one that a removed one preceded |
| Items.AddedShown | vgdisplay/file_box.c:440-474 | a file not read before in a listing becomes one more marked item |
| FileBoxes.FileBox.Add | vgdisplay/file_box.c:440-474 | reading a file updates, moves or adds its item and says how much changed; the wrap box's children stay the items' widgets in order, and the changed item is never one that is swept out |
| FileBoxes.FileBox.Update | vgdisplay/file_box.c:678-716 | a changed type costs the item its widget and moves it to its rank |
| FileBoxes.FileBox.BuildWidget | vgdisplay/file_box.c:463-492 | the new widget goes where its item stands |
| FileBoxes.FileBox.PackPos | vgdisplay/wrap_box.c:411-453 | the widget is packed at the place given, or last |
| FileBoxes.FileBox.RemoveWidget | vgdisplay/wrap_box.c:534-562 | the first child that is the widget goes, and no other |
| FileBoxes.FileBox.BeginRead | vgdisplay/file_box.c:497-513 | every item is unmarked, and nothing else changes |
| FileBoxes.FileBox.Flush | vgdisplay/file_box.c:517-543 | exactly the marked items stay, with their widgets |
| Display.ApplyFiles | vgdisplay/vgmini.c:310-345 | a directory's shown files are read into its box, each at its rank |
| Display.DirStep | vgdisplay/vgmini.c:386-443 | reading a directory makes its entry agree with it and leaves every other alone |
| Display.AllRead | vgdisplay/vgmini.c:254-351 | after all directories have been read each has an entry that agrees, and only they are marked |
| Display.SweptAgrees | vgdisplay/vgmini.c:448-469 | the sweep leaves exactly those entries with exactly those files |
| Display.DisplayAgrees | vgdisplay/vgmini.c:254-355 | from any earlier state the display agrees with a listing once it has been read |
| Scores.ScoreAdds | vgdisplay/file_box.c:440-474 | reading a directory adds up what each file changes in what was shown before, though files are compared with what has been read so far |
| Scores.UnchangedIff | vgdisplay/file_box.c:678-716 | that is nothing exactly when every file was shown before as it is now |
| Scores.ListingScores | vgdisplay/vgmini.c:386-516 | read by a display in any state, a listing leaves each directory the score of what changed there, 100 and 2 for each file if it is new, and -1 if nothing can be read of it |
| Vgmini.Vgmini.ProcessGlobData | vgdisplay/vgmini.c:254-355 | parsing in place, sweeping and committing leave the directories the text says, and one of them active, of the highest score after a fair start |
| Vgmini.Vgmini.ReadListing | vgdisplay/vgmini.c:272-351 | the state machine over the buffer tells the display exactly what the text says |
| Vgmini.UpToDelimiter | vgdisplay/display-common.c:245-253 | the string up to the delimiter is terminated in place and the rest is untouched |
| GlobData.MapSelectionState | vgdisplay/display-common.c:257-269 | undoes the printed selection |
| GlobData.MapFileType | vgdisplay/display-common.c:273-295 | undoes the printed type |
| Vgmini.Vgmini.AddDirCont | vgdisplay/vgmini.c:386-443 | a known directory is updated and marked, an unknown one added at the end, and all stay apart from each other |
| Vgmini.Vgmini.UnmarkAllDirconts | vgdisplay/vgmini.c:472-481 | marks and scores are cleared, nothing else changes |
| Vgmini.Vgmini.CullDcs | vgdisplay/vgmini.c:448-469 | exactly the marked directories stay, and the active one is forgotten if it goes |
| Vgmini.Vgmini.RearrangeAndShow | vgdisplay/vgmini.c:484-532 | every box is committed rank by rank; the active directory is the old one unless another scores more, and none scores more than it |
| Vgmini.CommittedAll | vgdisplay/vgmini.c:489-520 | when every rank is taken once, no directory is missed |
| Vgmini.HighestBest | vgdisplay/vgmini.c:489-524 | the search ends on a highest score, although scores change while it runs |
| Vgmini.FairListing | vgdisplay/vgmini.c:472-520 | a listing in which nothing is shown of unreadable directories gives that search a fair start |
| Vgmini.PrintedIsShown | vgdisplay/vgmini.c:254-355 | what vgexpand prints, read by a display in any state, is what the display shows |
| Expansion.MarkFromCounts | vgexpand/vgexpand.c:496-520 | marking keeps the selected and hidden counts right and touches only files the word begins |
| Expansion.CompiledFound | vgexpand/vgexpand.c:193-248 | after any words each directory is listed once and each file is selected by the words that name it and may be meant by those that begin it, whatever their order |
| Expansion.DirsInOrder | vgexpand/vgexpand.c:422-465 | directories are those mentioned, by device and inode, in order of first appearance, the working directory first and alone marked |
| Expansion.MaskFromCounts | vgexpand/vgexpand.c:474-493 | masking keeps the hidden count right and shows exactly the unselected files a mask takes |
| Expansion.ExpansionReports | vgexpand/vgexpand.c:193-258 | every directory reported: counts, selections and shown files as the words and masks say |
| Expansion.MaskShows | vgexpand/vgexpand.c:474-493 | a file is shown exactly when it is selected or some word of the mask takes it: one that matches its name, or, for a directory, one that does so without its trailing slash |
| Expansion.EachOnce | vgexpand/vgexpand.c:316-338 | in each of the three orders every directory is printed once |
| Expansion.OrderPlaces | vgexpand/vgexpand.c:316-338 | where each directory is printed in each of the three orders |
| Vgexpand.Directory.MarkTraverse | vgexpand/vgexpand.c:496-520 | the traversal marks the files the word names or begins |
| Vgexpand.Directory.MaskTraverse | vgexpand/vgexpand.c:474-493 | the traversal shows the files a mask takes |
| Vgexpand.Vgexpand.HaveDir | vgexpand/vgexpand.c:448-465 | finds the directory of that identity, or the last of the list |
| Vgexpand.Vgexpand.Correlate | vgexpand/vgexpand.c:422-443 | the word's file is looked for in the known directory, or in a new one linked at the end |
| Vgexpand.Vgexpand.CompileData | vgexpand/vgexpand.c:193-248 | the linked list holds the directories compiled from all words |
| Vgexpand.ReverseList | vgexpand/vgexpand.c:361-379 | rewriting the links turns the list around and loses nothing |
| Vgexpand.PrintDir | vgexpand/vgexpand.c:345-358 | prints the directory's heading and shown files |
| Vgexpand.Vgexpand.Report | vgexpand/vgexpand.c:310-342 | prints all directories between the marks in the order asked for |
| Vgexpand.Expand | vgexpand/vgexpand.c:101-139 | the whole program splits the mask and prints the listing of what the words and masks pick out; fails exactly on a mask that ends inside quotes |
| Pipeline.ListingArrives | vgseer/vgseer.c:739-773 | a listing that fits a frame and holds no delimiter gets from printer to display intact through any splitting |
| Pipeline.ListingPrintable | vgexpand/vgexpand.c:310-358 | what vgexpand lists for words whose names the format can carry can be printed and read back |
| Pipeline.CommandShown | vgd/vgd.c:673-676 | from the words of a command line through sandbox, daemon and both frames to a display that shows exactly the directories and files listed, with a fair start for the choice of the active one |
| Pipeline.ListingFair | vgexpand/vgexpand.c:345-358 | nothing is shown of a directory that is listed with no files |
| HardenedIo.ReadAll | common/hardened-io.c:73-101 | reads exactly that many bytes over interrupts and short reads, or reports that the stream ended before them, or a failure |
| HardenedIo.WriteAll | common/hardened-io.c:106-130 | writes everything in order, or a beginning of it and reports a failure |
| HardenedIo.WritevAll | common/hardened-io.c:134-175 | writes all buffers in order over partial transfers that end anywhere in any of them |
| ParamIo.PutParam | common/param-io.c:136-169 | a pair that fits is written as one frame; one that does not is refused and nothing written |
| ParamIo.GetParam | common/param-io.c:54-133 | reads exactly one frame and answers with its pair, the end of the stream, or a refusal; tells exactly when the announced length would take it past its buffer |
| ParamIo.FrameInBounds | common/param-io.c:136-169 | no frame that is sent does |
| ParamIo.StringToParam | common/param-io.c:172-187 | the parameter of a name, or none for an unknown one |
| ParamIo.LengthRoundTrip | common/param-io.c:63-66 | lengths survive network byte order |
| ParamIo.NetworkOrder | common/param-io.c:155-155 | the most significant byte of a length comes first |
| ParamIo.FrameExample | common/param-io.c:136-169 | a frame, byte by byte |
| ParamIo.SurvivesIff | common/param-io.c:112-118 | a value comes through whole exactly when it holds no delimiter and does not end in half of one |
| ParamIo.BodyParses | common/param-io.c:97-123 | the parser undoes the writer, up to the first delimiter in the value |
| ParamIo.StreamRoundTrip | common/param-io.c:54-169 | however many bytes of a conversation get through, the receiver gets exactly the pairs sent whole, in order, and then the end |
| DaemonSpec.StepKeeps | vgd/vgd.c:476-744 | every event keeps: the current client is one of the clients, none only if there are none, and the display shows it |
| DaemonSpec.RunKeeps | vgd/vgd.c:417-474 | so does any run of events |
| DaemonSpec.MirrorAlways | vgd/vgd.c:508-527 | in every reachable state a display that was switched to a client, or started for the first, has last been told what is stored for the current client |
| DaemonSpec.MirrorsIff | vgd/vgd.c:508-527 | in every reachable state, switched or not, nothing a running display was told is wrong of the current client; so it mirrors that client exactly when it was told the window and all it was not told is as a client starts |
| DaemonSpec.UnswitchedStarts | vgd/vgd.c:861-879 | right after a restart, or when forked for a further client, a display mirrors nobody |
| DaemonSpec.JoinedMirrorsIff | vgd/vgd.c:861-879 | a display started for a client that joins mirrors the current client exactly when that one is the first |
| DaemonSpec.MirrorsUnswitched | vgd/vgd.c:530-588 | a restarted display may come to mirror the current client without a switch |
| DaemonSpec.LookupWithout | vgd/vgd.c:709-744 | dropping a client leaves what is stored for the others |
| DaemonLaws.FocusFollows | vgd/vgd.c:476-505 | in every reachable state: if some client has the active window, one with it is current afterwards and a display switched to it shows it; otherwise nothing changes but that the current client is not active |
| DaemonLaws.FocusMoves | vgd/vgd.c:490-503 | the client that becomes current is the first with the window |
| DaemonLaws.FocusStays | vgd/vgd.c:481-489 | the current client's own window leaves it current; the display is told the window when it was not known to be active |
| DaemonLaws.RefocusTakes | vgd/vgd.c:640-650 | refocusing makes the sender current and shows it, or goes to the display when it is current already |
| DaemonLaws.ToggleFlips | vgd/vgd.c:651-661 | toggling ends a running display and starts one that shows the current client |
| DaemonLaws.OrdersPassOn | vgd/vgd.c:662-671 | other orders go to the display, from the current client only, and change nothing else |
| DaemonLaws.ValueStored | vgd/vgd.c:606-676 | a value is stored with its sender and nowhere else, and a running display hears it exactly when the sender is current |
| DaemonLaws.ClientLeaves | vgd/vgd.c:709-744 | a client that leaves is taken out and no other moved; if it was current the first of the rest is, and is shown; with the last the display goes, and the daemon unless it persists |
| DaemonLaws.ClientJoins | vgd/vgd.c:861-879 | a client that joins comes first with nothing known but its window, is current only when alone, and finds or starts a display |
| DaemonLaws.RepliesTouchDisplay | vgd/vgd.c:530-588 | a reply that cannot be passed on counts as the current client leaving; no other touches the clients |
| DaemonImpl.Vgd.ProcessClient | vgd/vgd.c:591-689 | a message from a client is stored and shown as the step says, and an invalid one drops it |
| DaemonImpl.Vgd.ProcessDisplay | vgd/vgd.c:530-588 | a reply of the display is passed on, or ends it |
| DaemonImpl.Vgd.CheckActiveWindow | vgd/vgd.c:476-505 | focus on another client's window makes it current and switches the display to it |
| DaemonImpl.Vgd.ContextSwitch | vgd/vgd.c:508-527 | the display is told everything stored for the client |
| DaemonImpl.Vgd.UpdateDisplay | vgd/vgd.c:692-706 | the display is told only about the current client |
| DaemonImpl.Vgd.DropClient | vgd/vgd.c:709-744 | the client goes, another becomes current if it was, and the display goes with the last |
| DaemonImpl.Vgd.NewVgseerClient | vgd/vgd.c:805-881 | a client is added in front, becomes current if it is the first, and has a display started |
| WrapBox.ColumnsPartition | vgdisplay/wrap_box.c:653-714 | the columns tried hold all children in order |
| WrapBox.GetUpperBoundCols | vgdisplay/wrap_box.c:587-611 | how many children fit side by side from the first on |
| WrapBox.UpperBoundUnique | vgdisplay/wrap_box.c:587-611 | there is only one such number |
| WrapBox.FirstGuessTooSmall | vgdisplay/wrap_box.c:587-611 | more columns may fit than it says |
| WrapBox.TrueBoundIff | vgdisplay/wrap_box.c:587-611 | the first guess bounds the columns of every layout that fits, for every width, exactly when no layout is narrower than as many of the first children side by side |
| WrapBox.RisingWidthsBound | vgdisplay/wrap_box.c:587-611 | so it does when widths never decrease |
| WrapBox.TryColumns | vgdisplay/wrap_box.c:665-705 | one pass finds whether a number of columns fits, and then its exact width and height |
| WrapBox.SizeRequestOptimal | vgdisplay/wrap_box.c:630-727 | the search ends with the largest number of columns, up to the first guess, that fits with the fewest rows holding the children, and with the size of that layout, or with one column when none fits |
| WrapBox.LeastRowsMeans | vgdisplay/wrap_box.c:653-665 | the rows a number of columns is tried with are the fewest that need no more columns |
| Measures.WidthIsRightEdge | vgdisplay/wrap_box.c:665-714 | the width of a layout is where its last column ends when columns stand side by side |
| Measures.HeightIsBottomEdge | vgdisplay/wrap_box.c:665-714 | the height of a column is where its last child ends |
| Measures.RowIsSingles | vgdisplay/wrap_box.c:587-611 | children in a row are as wide as columns of one child each |
| WrapBox.FillColumn | vgdisplay/wrap_box.c:761-806 | takes the first child and all that still fit, and measures the widest |
| WrapBox.LayoutCols | vgdisplay/wrap_box.c:919-945 | the allocation is the greedy filling |
| WrapBox.PackedPartition | vgdisplay/wrap_box.c:919-945 | it leaves no child out and changes no order |
| Measures.AllocatedIff | vgdisplay/wrap_box.c:761-806 | the columns of an allocation are exactly those that hold all children in order, each more than one child only while they fit and never ending before a child that still fits |
| WrapBox.PackedBehind | vgdisplay/wrap_box.c:761-806 | started anywhere, it needs no more columns than a layout of fitting columns that starts no later |
| WrapBox.AllocationAgrees | vgdisplay/wrap_box.c:919-945 | given the requested height it uses at most the columns asked for, the single one included, if the last column was measured, holds one child, or is no higher than that |
| WrapBox.UncountedColumn | vgdisplay/wrap_box.c:689-714 | without that it may need more |
| WrapBox.AgreesIff | vgdisplay/wrap_box.c:653-714 | for given widths, the allocation needs no more columns than the request, whatever the heights, exactly when the last column was measured or holds one child |
| WrapBox.RequestGranted | vgdisplay/wrap_box.c:653-714 | whatever the request comes to and at least that is granted, the allocation has no more columns than the request settled on, one when nothing fitted |
| LsColors.GetFunkyString | vgdisplay/lscolors.c:133-326 | decodes in place up to a terminator, reports exactly the bytes written, and touches nothing before them |
| LsColors.DecodeBounds | vgdisplay/lscolors.c:151-325 | in no state have more bytes come out than gone in, and decoding that goes well stops at a terminator |
| LsColors.EscapeRoundTrip | vgdisplay/lscolors.c:133-326 | any bytes, NUL included, can be written so that they are decoded |
| LsEscapes.SpelledDecodes | vgdisplay/lscolors.c:151-325 | however a string is spelled, by bytes as they stand, letters, octal and hexadecimal numbers and carets, it decodes to what its pieces mean |
| LsColors.Colors.TakeString | vgdisplay/lscolors.c:344-349 | a string decoded after the others leaves them readable |
| LsColors.Colors.Parse | vgdisplay/lscolors.c:350-431 | all labels and values lie one after another in a buffer the size of the variable, and read as it defines; it fails exactly on a variable that cannot be parsed |
| LsColors.DefsRoundTrip | vgdisplay/lscolors.c:350-431 | any definitions written out with escapes are parsed back |
| LsEscapes.BadSpoilsAll | vgdisplay/lscolors.c:350-431 | one malformed definition spoils the variable, however many good ones stand before it |

## Left out

- Sequences of the terminal side (viewglob keys, navigation, masks being typed, arrow keys that peek ahead) and the action queue: only the shell's stream is scanned.
- UTF-8: lines are bytes, and cursor up is unfinished for UTF-8 in the code itself.
- Sequences.Handle: parameters of control sequences are unbounded numbers, so overflow of `atoi` is not modelled.
- Scanner.ProcessShell: a failed read or write ends the program and is not modelled.
- Sanitize.SanitizeLine: a NUL in the line is taken like any other character; the code's C string would end there. The quote stack is a sequence, not a list of nodes.
- Sanitize.OutputBalanced: says nothing about a real shell's quoting rules, which differ inside double quotes, nor about the quoting of the mask on vgexpand's command line.
- DaemonImpl.Vgd.ProcessClient: after an invalid status the code goes on using the dropped client; here the client is dropped and nothing more happens. Failed writes and failed forks are not modelled.
- WrapBox.SizeRequestOptimal: with an invisible child the code's search never ends, so all children are visible; sums do not wrap at 32 bits.
- WrapBox.LayoutCols: the lists of children and of lines are sequences; shrinking and justifying columns in floating point is not modelled.
- ParamIo.GetParam: says nothing of what happens once more is read than the buffer holds; the code's behaviour is then undefined.
- CmdLines.CmdLine.OverwriteChar: byte mode only, and without the option to step over carriage returns, which no caller uses.
- Vgexpand.Vgexpand.CompileData: a word comes with its directory's identity and entries already looked up.
- Vgexpand.Expand: likewise; options are parsed beforehand. On a mask that ends inside quotes it fails, where the code runs past the mask.
- Pipeline.ListingArrives: takes any listing with distinct plain names and one frame; `Pipeline.CommandShown` starts from the words and has both frames.
- DaemonImpl.Vgd.NewVgseerClient: the handshake and the ways it rejects a client come before this.
- HardenedIo.WriteAll: a descriptor that accepts nothing for ever is not modelled; calls beyond a finite schedule make progress.
- Vgexpand.Directory.MarkTraverse: a directory's tree of files is a sequence in tree order; sorting, reading directories, `stat` and `fnmatch` are inputs. Path normalisation and the home directory's tilde are not modelled.
- Vgmini.Vgmini.RearrangeAndShow: the order of the directories in the window, which the toolkit keeps, is not modelled, nor are titles, sizes, scrolling and painting.
- FileBoxes.FileBox.Add: labels, icons and widget states are not modelled; a widget is an identity.
- Vgmini.PrintedIsShown: needs names without newline, closing mark and NUL, distinct within the listing, and none but the working directory's marked; the code's text format cannot carry others.
- LsColors.Colors.Parse: what is kept of a variable that cannot be parsed, and the translation into text attributes, are not modelled; an extension is added to the list when its value has been read rather than before.
- Colours, fonts, X11, GTK, sockets, ptys, signals, options and configuration: foreign calls or finite tables.
