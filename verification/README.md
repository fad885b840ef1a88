# gBASIC: a verified model of its protocols, readers and checks

This Dafny 4.11 project models the parts of gBASIC that keep state and promise something about every run:
the Windows actor mailbox, the streaming CSV reader, the route check of `server` blocks, the line editor,
the lexer, the JSON diagnostics and the recogniser of text that is a number. `dafny verify dfyconfig.toml`
checks everything.

Each part has the same layout. A module of values and functions says what an operation does; lemmas prove
what that means over every input or every run; classes and loops, in the form the C file has, are proved to
do exactly that.

| part | specification and theorems | the code's own form |
|---|---|---|
| mailbox (`src/actor.c`, Windows half) | `Bytes`, `Frames`, `Connection`, `InboxService`, `Protocol`, `ProtocolRuns`, `RunTheorems`, `Wakeups`, `Startup`, `Fairness`, `Receives`, `Handles` | `Mailbox`, `HandleStore` |
| CSV (`src/csv_reader.c`, `src/modules/csv.c`) | `CsvSpec`, `CsvFields`, `CsvPositions`, `CsvLimits`, `CsvRoundTrip` | `CsvReader`, `CsvWriter` |
| routes (`src/frontend.c`, `stdlib/web.bas`) | `RoutePaths`, `RouteOrder`, `ServerScope`, `ServerReports` | `RouteTable`, `ServerCheck` |
| line editor (`src/lineedit.c`) | `Utf8`, `EditWindow`, `EditSpec`, `EditKeys`, `EditRuns` | `LineEditor`, `History` |
| lexer (`src/lexer.c`) | `LexerText`, `LexerSpec`, `LexerStrings`, `LexerWords`, `LexerBraces`, `LexerNesting`, `LexerTheorems` | `Lexer` |
| number text (`include/gb_number_text.h`) | `NumberText` | `NumberText` |
| diagnostics (`src/diagnostics.c`) | `JsonText` | `JsonText`, `DiagnosticSink` |

`Wrappers` and `Chars` hold what the parts share.

The mailbox theorems are about runs: a `World` is one inbox, the senders' ends of its connections and the
bytes under way, and a run is any list of steps. A send writes all of a frame, none of it or a part; the
network delivers any number of bytes at a time, and a read may find nothing, the end or an error. The classes
take the same nondeterminism as lists of what the reads, sends and polls will answer.

## What the code does not do

Some expectations turned out false of the code. Each is kept as it is, shown by a lemma, and bounded exactly.

- A handle path of no bytes or of more than 4096 is sent without complaint, and the receiver then treats
  the stream as corrupt (`Frames.UndeliverableIsBad`): the receiver gets the frames sent before it, one error and
  nothing else (`RunTheorems.UndeliverableEndsTheStream`). Order and no loss therefore hold for senders whose
  frames are `Deliverable`.
- The comment at line 349 of `src/actor.c` says that no sender starves another. If the turn is at the end of
  the list and a connection with a frame joins before each dequeue, the ones that were there are passed over as long
  as that goes on (`Fairness.NewcomersGoFirst`). A connection with a frame to give waits for at most one frame of
  each other, those that join meanwhile included (`Fairness.WaitIsBounded`).
- In a child the first frame never comes from a connection that was already waiting when the mailbox opened.
  If the parent had connected by then, it cannot speak first (`Startup.FirstIsNeverPending`). Otherwise, over
  every run, the first frame is from the earliest of those that connect later which lives and has something to
  give (`Startup.FirstFrameIsInTurn`), so the parent speaks first if it is the first of them to connect
  (`Startup.FirstConnectionSpeaksFirst`).
- Reading back what was written returns the same records except exactly when a record has no fields, is over
  the limit, or the very first field is unquoted and starts with the bytes of a byte order mark
  (`CsvRoundTrip.RoundTrip`). A record of one empty field survives, since the writer gives it quotes.
- An Escape followed quickly by a letter of several bytes takes the letter's first byte and leaves the others
  in the line (`EditRuns.EscapeSplitsALetter`). Editing keeps the text well-formed if and only if that never
  happens (`EditRuns.SoundIffClean`). The comment at lines 20 to 24 of `src/lineedit.c` says a line is never
  corrupted; the code decides here.
- On a line whose text starts inside a codepoint the one-pass scroll stops a codepoint short of the plain loop and
  leaves the cursor off the row, exactly when scrolling was needed (`EditWindow.OnePassIff`, with a witness in
  `EditWindow.StrayStartShiftsTheRow`).
- Every inline modifier puts the columns after it, to the end of its line, one too high, since the opening
  brace is counted twice (lines 833 and 903 of `src/lexer.c`). `LexerTheorems.EveryTokenIsRight` states the
  drift of every token, `LexerTheorems.ColumnIsRightIff` when there is none, and
  `LexerTheorems.ModifierShiftsTheColumn` shows a text. `include/diagnostics.h` describes columns without it.
- Twice the bytes left plus one for an SQL body that is due is not lowered by every token: the content of a lens
  that begins right before a brace is empty (`LexerTheorems.EmptyLens`). That is the only exception
  (`LexerTheorems.FallsUnlessEmptyLens`); with one more for a lens that was begun the measure always falls
  (`LexerSpec.NextFalls`).

## Model

| member | source | states |
|---|---|---|
| Frames.TakenIffEncoded | src/actor.c:388-441 | a buffer yields a frame if and only if it starts with the encoding of that frame within the limits, and exactly those bytes are taken |
| Frames.StrictPrefixWaits | src/actor.c:388-441 | on any strict prefix of a frame nothing is taken and nothing refused |
| Frames.EncodingIsPrefixFree | src/actor.c:288-325 | no frame's bytes begin another's, so a stream is cut into frames in one way |
| Frames.TakeExtends | src/actor.c:388-441 | a complete or corrupt frame stays so whatever bytes follow |
| Frames.UndeliverableIsBad | src/actor.c:288-325 | a frame with a path the receiver refuses is sent all the same and read as corrupt |
| Frames.WaitingIsBounded | src/actor.c:388-441 | a buffer still waiting for the rest of a frame is shorter than the longest frame |
| Frames.ItemsOfEncodeAll | src/actor.c:388-441 | the joined bytes of any frames, and then anything, decode to those frames and then what the rest means |
| Connection.ServiceConserves | src/actor.c:446-485 | however arrivals are cut up, a service takes one frame's bytes off the stream or none, and calls it corrupt only if it is |
| Connection.ServiceLeaves | src/actor.c:446-485 | unless it queued something no whole frame is left in the buffer; a connection is dropped only at its end or when corrupt |
| Connection.ServiceIs | src/actor.c:446-485 | whatever the chunks and the capacity, a service answers by all the bytes that have arrived: the frame at their front, corrupt, or nothing, and then it keeps them all and drops the connection only if it ends there |
| Connection.GrowthIsBounded | src/actor.c:461-473 | the buffer grows only while no frame is complete, so its size is one of nine, at most 8 MiB |
| InboxService.RotAround | src/actor.c:374-383 | dropping or replacing a connection and adjusting the read position leaves the order of the others as it was |
| InboxService.LoopIsWalk | src/actor.c:513-541 | the loop with its shifting indices visits each connection once round the ring, stopping at the first that answers |
| Protocol.AccountAfterServe | src/actor.c:446-485 | taken, buffered, arrived and under way stay exactly what was written when a connection is served or dropped |
| RunTheorems.InvStep | src/actor.c:260-541 | every step of sender, network or receiver keeps the invariant |
| RunTheorems.ReceivedInOrder | src/actor.c:260-541 | over every run what is received on a connection is a prefix of the frames sent OK on it, in order, unchanged, none twice |
| RunTheorems.NothingIsLost | src/actor.c:446-541 | over every run the frames sent OK are those taken, then those buffered or under way; all are taken before the connection is dropped |
| RunTheorems.UndeliverableEndsTheStream | src/actor.c:288-325 | over every run with a frame whose path is bad: the frames before it, one error, nothing more; exactly those are taken, buffered or under way while the sender lives, and all are taken once the connection is dropped |
| RunTheorems.MemoryIsBounded | src/actor.c:446-541 | over every run at most one frame is queued and every buffer is within 8 MiB |
| Wakeups.NoLostWakeup | src/actor.c:699-763 | over every run an empty queue means no buffer holds a whole frame |
| Wakeups.WithoutTheSecondService | src/actor.c:725-735 | without the service after a dequeue a message could lie in memory unseen |
| Wakeups.OnlyStartupIsRead | src/actor.c:513-541 | until the first frame nothing is read but from the startup connection |
| Receives.ReceiveLeavesNothingUnseen | src/actor.c:699-735 | after any receive, whatever happened in its sleeps, an empty queue means no whole frame in any buffer; it fails only so |
| Receives.ReceiveIsARun | src/actor.c:699-735 | a receive is a run of the protocol's steps, the senders' and the network's among them, and answers the next frame of the log, or none when nothing is queued |
| Receives.ReceiveGoesOn | src/actor.c:699-735 | so after any run a receive is more of that run, and every theorem about runs holds after it |
| Startup.FirstIsNeverPending | src/actor.c:571-622 | the first frame never comes from a connection accepted when the mailbox opened |
| Startup.FirstFrameIsInTurn | src/actor.c:513-541 | over every run the first frame is from a connection made after the opening, and each made before it died, or ended with nothing to give |
| Startup.FirstConnectionSpeaksFirst | src/actor.c:571-622 | over every run the first connection made after the opening, whenever that was, speaks first if it sends and lives |
| Fairness.AtMostOneEach | src/actor.c:513-541 | while a connection has a frame to give, no other connection has two queued before it |
| Fairness.ReadyMeansProgress | src/actor.c:513-541 | while one has a frame to give, a service that finds the queue empty queues a frame of some connection |
| Fairness.WaitIsBounded | src/actor.c:513-541 | over every run a connection with a frame to give waits for no more frames than there are other connections, those made meanwhile included |
| Fairness.NewcomerGoesFirst | src/actor.c:490-541 | with the turn at the end of the list, one that joins with a frame is served before everybody and the turn is at the end again |
| Fairness.NewcomersGoFirst | src/actor.c:343-353 | so while one joins before each dequeue, however often, those that were there are not served |
| Mailbox.WinConn.Take | src/actor.c:388-441 | on the buffer itself: the specified answer, and the bytes taken shifted out |
| Mailbox.WinConn.Grow | src/actor.c:461-473 | room is made without losing a byte, to the specified capacity |
| Mailbox.WinConn.Service | src/actor.c:446-485 | the loop over the buffer and the socket is the specified service |
| Mailbox.OwnInbox.constructor | src/actor.c:571-636 | opening accepts what waits and sets the startup rule for a child only |
| Mailbox.OwnInbox.AcceptAll | src/actor.c:490-511 | all waiting connections are taken on, in order, with no buffer |
| Mailbox.OwnInbox.Drop | src/actor.c:374-383 | one connection leaves and the read position follows |
| Mailbox.OwnInbox.Serve | src/actor.c:523-540 | one round of the loop is the specified visit |
| Mailbox.OwnInbox.Service | src/actor.c:513-541 | the whole service is the specified one, startup rule included |
| Mailbox.OwnInbox.TakeQueued | src/actor.c:725-735 | the head is taken and the inbox serviced again |
| Mailbox.OwnInbox.Receive | src/actor.c:699-763 | a blocking receive services, returns the head, or sleeps until something happens; from a state with nothing unseen it leaves one |
| Handles.TableAlwaysAgrees | src/actor.c:112-220 | over every sequence of adopt, dup and close a path is listed exactly while a handle leads to it, and one connection is open for each that could be reached |
| Handles.CloseUndoesDup | src/actor.c:208-220 | a dup leads where its original does and closing it restores the table |
| Handles.CloseUndoesAdopt | src/actor.c:195-220 | closing what was adopted restores the table; a connection made for it is closed |
| HandleStore.AdoptedLead | src/actor.c:738-757 | the numbers returned for a frame are new handles, one for each of its paths in order, leading there; no other handle is disturbed |
| HandleStore.HandlesArrive | src/actor.c:288-325 | handles sent with a frame arrive: those the receiver gets lead, in order, to the paths that the sender's led to |
| HandleStore.HandleTable.SharedConnection | src/actor.c:112-150 | two live handles share a connection if and only if they have one path |
| HandleStore.HandleTable.Adopt | src/actor.c:195-206 | on the shared peers with their counts: the specified table, lowest free slot |
| HandleStore.HandleTable.Dup | src/actor.c:208-211 | likewise, -1 for a handle that is not live |
| HandleStore.HandleTable.Close | src/actor.c:213-220 | the count falls; at none the peer leaves the list and its connection closes |
| HandleStore.HandleTable.AdoptAll | src/actor.c:738-757 | received paths are adopted in order, each up to its first NUL |
| HandleStore.WinPeer.SendBytes | src/actor.c:260-282 | the loop gives the specified answer, uses up the specified writes, and has written all of the frame, none of it, or as much as the error says |
| HandleStore.AnsweredWhen | src/actor.c:260-282 | full if and only if the first write finds no room; OK if and only if writes and waits that all succeed, a write first, take every byte; else an error |
| HandleStore.HandleTable.Send | src/actor.c:288-325 | too big, refused or sent, each exactly when; what is sent is the payload's and the handles' frame, with the answer its writes give; otherwise the stream is untouched |
| HandleStore.SendsAreWritten | src/actor.c:260-325 | successive sends leave on the stream exactly what the protocol's books say was written |
| CsvReader.GbCsvReader.OverFile | src/csv_reader.c:66-79 | a reader over any refills of at most 64 KiB starts in the specified state |
| CsvReader.GbCsvReader.Put | src/csv_reader.c:135-150 | a byte is refused exactly when the record holds 64 MiB |
| CsvReader.GbCsvReader.Next | src/csv_reader.c:186-294 | for every cutting into refills: the outcome, record, problem, line, offset and place of one pass over the whole text |
| CsvReader.GbCsvReader.FieldBytes | src/csv_reader.c:300-313 | a field is the content between its start and the next |
| CsvFields.NextIsItsPieces | src/csv_reader.c:186-294 | for every text: only line breaks are skipped; a bare field is its bytes up to the delimiter, break or end, quotes included; a quoted one what stands in the quotes, undoubled, and the bytes after them; a record is marked exactly when there are such bytes; a quote reported as never closed is not closed, and stands on that line |
| CsvFields.PiecesAreNext | src/csv_reader.c:186-294 | and every text spelled by such fields is read as them, if they fit |
| CsvPositions.NextIsPlaced | src/csv_reader.c:186-294 | a record's bytes begin at its offset, read from there alone they give just that record, its line counts the breaks before, and the reader stops where it ends |
| CsvPositions.RecordsArePlaced | src/csv_reader.c:130-217 | that holds of every record of a text, with offsets rising |
| CsvLimits.LimitIsExact | src/csv_reader.c:135-184 | a call yields what it would without the limit unless what it gathers, a quote that never closes included, passes the limit; then and only then the record is too long |
| CsvLimits.RecordsAreShaped | src/csv_reader.c:152-164 | a record has a field, starts never fall, and its fields joined are its content |
| CsvLimits.RefillsDoNotMatter | src/csv_reader.c:105-198 | any first refill of three bytes, or of the whole file, gives the same records |
| CsvWriter.FindSpecial | src/csv_reader.c:323-332 | quoting is asked for if and only if a byte is the delimiter, the quote or a break |
| CsvWriter.PutField | src/modules/csv.c:300-355 | a field is written bare or quoted with its quotes doubled |
| CsvWriter.PutRecord | src/modules/csv.c:364-409 | fields joined by the delimiter; one empty field as two quotes |
| CsvWriter.WhenItCannotBeWritten | src/modules/csv.c:300-387 | writing fails if and only if there is no quoting and a field or a lone empty field needs it |
| CsvRoundTrip.RecordReads | src/csv_reader.c:186-294 | one written record is read back with its fields and nothing more consumed |
| CsvRoundTrip.RoundTrip | src/csv_reader.c:186-332 | reading returns the written records if and only if each has a field and fits and no byte order mark is spelled in front |
| RoutePaths.ParsedIffSpelled | src/frontend.c:123-222 | a path is accepted as some segments if and only if those are legal, at most 32, and spell it |
| RouteOrder.SameShapeMatchesSame | src/frontend.c:91-95 | routes of one shape match the same requests and neither is more specific |
| RouteOrder.SameShapeIffUndecided | src/frontend.c:224-239 | two legal routes have one shape if and only if some request matches both with neither more specific |
| RouteOrder.ComparedByRanks | stdlib/web.bas:203-220 | neither is more specific exactly when all ranks agree, and never both are |
| RouteOrder.MoreSpecificIsTransitive | stdlib/web.bas:203-220 | being more specific is a strict order |
| RouteOrder.LengthNeverDecides | stdlib/web.bas:201-220 | between routes that match one request the longer-wins rule is never needed |
| RouteOrder.NarrowerIsMoreSpecific | stdlib/web.bas:175-220 | a route whose requests another one matches too, and that is not of its shape, is the more specific |
| RouteOrder.FirstDifferenceDecides | stdlib/web.bas:201-220 | the first position where the kinds differ decides: static text before a capture before a rest |
| RouteOrder.ElseLengthDecides | stdlib/web.bas:201-220 | without one the longer route is ahead |
| RouteOrder.MatchesIffSpelled | stdlib/web.bas:224-272 | a route matches a request path if and only if values for its captures, without slashes but for the rest, make it that path |
| RouteOrder.CapturesRebuildThePath | stdlib/web.bas:224-272 | captured values put back into the pattern give the request path |
| RouteTable.SameShapeByLoop | stdlib/web.bas:178-199 | the loop decides being of one shape |
| RouteTable.MoreSpecificByLoop | stdlib/web.bas:203-220 | the loop decides the order |
| RouteTable.MatchRoute | stdlib/web.bas:224-272 | a match is found if and only if there is one, each capture bound to its piece or to the joined rest, nothing else bound |
| RouteTable.RefuseTies | stdlib/web.bas:274-293 | a table is refused if and only if two of its routes of one method have one shape |
| RouteTable.Resolve | stdlib/web.bas:418-454 | the answer is the first of the matches that none beats, with its captures; the methods are those of the matches, each once |
| RouteTable.ChosenIsBest | stdlib/web.bas:175-199 | in a settled table the route chosen strictly beats every other match |
| RouteTable.NarrowerIsNotPassedOver | stdlib/web.bas:418-454 | no route is chosen over a match that is narrower |
| RouteTable.SettledInAnyOrder | src/frontend.c:351-392 | being settled does not depend on the order of declaration |
| RouteTable.ChosenInAnyOrder | stdlib/web.bas:418-454 | nor does the route chosen |
| ServerScope.NoReportIffSettled | src/frontend.c:309-418 | a scope has no error if and only if every item is in order, there is one root at most, and the table is settled |
| ServerReports.ReportedIff | src/frontend.c:309-418 | over every scope an error is reported at an item if and only if that is wrong with it, each kind of error told by the items alone |
| ServerReports.StreamCollidesWithGet | src/frontend.c:84-89 | a stream and a get of one shape collide |
| ServerReports.ProblemIs | src/frontend.c:123-222 | the problem reported with a path is there, at a piece with only good segments before it |
| ServerScope.AcceptedNeverGuesses | src/frontend.c:351-392 | over a scope without errors dispatch has a unique most specific match or none, in any order of the routes, with the same captures |
| ServerCheck.SameShapes | src/frontend.c:224-239 | on two shapes as filled: equal exactly when the segments have one shape |
| ServerCheck.IdentSpan | src/frontend.c:105-119 | the loop accepts identifiers |
| ServerCheck.SrvCheck.ShapePath | src/frontend.c:123-222 | the shape filled is the path's segments; else exactly one error, the first problem met |
| ServerCheck.SrvCheck.CheckTies | src/frontend.c:368-391 | one error for each earlier route it ties with, in order |
| ServerCheck.SrvCheck.CheckScope | src/frontend.c:309-418 | exactly the specified errors are added, and counted |
| Utf8.NextThenPrev | src/lineedit.c:214-234 | forward and back return to a boundary |
| Utf8.PrevThenNext | src/lineedit.c:214-234 | back and forward too |
| Utf8.CutIffBoundary | src/lineedit.c:212-234 | well-formed text can be cut exactly where no continuation byte stands |
| Utf8.ColumnsAreCodepoints | src/lineedit.c:236-246 | the columns counted are the codepoints |
| EditWindow.OnePassIsWhileOffScreen | src/lineedit.c:283-296 | the one-pass scroll starts where advancing while the cursor is off the row would |
| EditWindow.WindowHoldsCursor | src/lineedit.c:283-300 | the row shows at most the columns there are, is full unless the text ends, and has the cursor |
| EditWindow.OnePassIff | src/lineedit.c:283-296 | whatever the text: the one pass starts where the plain loop does, and has the cursor on the row, if and only if the text does not start inside a codepoint or no scrolling is needed |
| EditWindow.StrayStartShiftsTheRow | src/lineedit.c:283-296 | a text on which they differ |
| EditSpec.UpThenDown | src/lineedit.c:553-580 | going up and as far down returns the line that was typed; entries are shown as they are |
| EditKeys.PressActs | src/lineedit.c:449-590 | whatever key is pressed, by control byte or escape sequence, the bytes change as its action changes a sheet of letters before and after the cursor, and just its bytes are read |
| EditKeys.ActionsUndo | src/lineedit.c:467-490 | erasing takes back what was typed; left and right undo each other; left and erasing ahead erase |
| EditKeys.EnterSubmitsTheSheet | src/lineedit.c:435-465 | over any presses from an empty line, Enter hands back the letters on the sheet |
| EditKeys.HowElseALineEnds | src/lineedit.c:437-477 | Ctrl-C hands back an empty line; Ctrl-D or the end of input on an empty line ends the input; the end elsewhere hands back the line |
| EditKeys.GoodLineIsShown | src/lineedit.c:214-234 | every line that is well-formed, cursor between codepoints, is on some sheet |
| EditRuns.InsertKeepsGood | src/lineedit.c:315-322 | an insertion keeps the line good if and only if what is inserted is well-formed |
| EditRuns.PlainKeepsGood | src/lineedit.c:467-520 | every one-byte key keeps the text well-formed and the cursor between codepoints |
| EditRuns.SoundIffClean | src/lineedit.c:449-590 | over every well-formed key stream text and cursor are right between codepoints if and only if no escape takes part of one |
| EditRuns.CleanIsAlwaysPaintable | src/lineedit.c:272-313 | then every repaint, also inside a codepoint, is one the scroll is right on |
| EditRuns.SubmittedIsWellFormed | src/lineedit.c:435-465 | and the line handed back is well-formed |
| EditRuns.EscapeSplitsALetter | src/lineedit.c:521-530 | three key bytes after which a stray byte is submitted |
| LineEditor.LineState.Grow | src/lineedit.c:258-270 | nothing is lost and the capacity stays within twice the need |
| LineEditor.LineState.InsertBytes | src/lineedit.c:315-322 | on the buffer: bytes before the cursor, the new ones, the rest; no NUL inside |
| LineEditor.LineState.DeleteRange | src/lineedit.c:324-332 | the range is cut out and the cursor stands there; an empty range changes nothing |
| LineEditor.LineState.Set | src/lineedit.c:334-342 | the buffer is the text, cursor at its end |
| LineEditor.LineState.Refresh | src/lineedit.c:275-313 | one row is painted, the specified one for the width the terminal answers |
| LineEditor.RowIsRight | src/lineedit.c:275-313 | that row is the plain loop's, fits, and leaves the cursor on its own codepoint's column |
| LineEditor.EveryRowFits | src/lineedit.c:272-313 | on a clean run every row painted fits its width and has the cursor in it |
| LineEditor.LineEdit | src/lineedit.c:417-593 | the whole loop gives the specified outcome, reads no byte past it, and paints exactly one row at the start and one after each key that goes on, of the line as it then is |
| History.LastThousand | src/lineedit.c:55-88 | the history is the last thousand of all lines not blank and not an immediate repeat |
| History.KeptIff | src/lineedit.c:55-88 | a line is kept if and only if it is not blank and not the last one said |
| History.NeverBlankNorTwice | src/lineedit.c:55-88 | nothing blank is kept and no line stands next to itself |
| History.Remembered.Add | src/lineedit.c:55-88 | one call is one specified step |
| LexerSpec.NextFalls | src/lexer.c:658-962 | every token but the last lowers the bytes left, counted twice, with one for a lens and one for an SQL body that is due |
| LexerTheorems.FallsUnlessEmptyLens | src/lexer.c:148-183 | without the one for a lens, exactly the empty content of a lens lowers nothing |
| LexerTheorems.EmptyLens | src/lexer.c:148-183 | such a token |
| LexerTheorems.EveryTokenIsRight | src/lexer.c:658-962 | in every text: each token's line is exact, its column off by the inline modifiers before it on its line, it spells its text, it follows the one before by blanks and comments only, and no NEWLINE stands while a bracket is open |
| LexerTheorems.ColumnIsRightIff | src/lexer.c:833-903 | in every text a column is right if and only if the text has no inline modifier before it on its line |
| LexerTheorems.ModifierShiftsTheColumn | src/lexer.c:770-836 | a text whose fourth byte is given column 5 |
| LexerTheorems.NumberIsLiteral | src/lexer.c:189-243 | a number's text is hexadecimal or accepted by the number recogniser |
| LexerTheorems.NumberIsLongest | src/lexer.c:189-243 | and is the longest literal that begins there |
| LexerTheorems.KeywordIff | src/lexer.c:421-480 | a word is a keyword if and only if it is reserved, after no dot and not a record's key, or is `end consider` |
| LexerWords.WordIs | src/lexer.c:421-593 | in every text and context a word is a name, a qualified name, a keyword, a `consider` branch, `end consider` or the head of a block if and only if the bytes after it and what is open say so, and the token ends there |
| LexerBraces.BraceIs | src/lexer.c:770-836 | a brace begins an inline modifier of either kind if and only if a name alone, or a phrase closed on its line outside strings, stands in it; its span is that without blanks |
| LexerBraces.SymbolIs | src/lexer.c:837-958 | a symbol is the longest that begins there |
| LexerNesting.EveryTokenMeans | src/lexer.c:658-962 | over every text each token is what its bytes, the brackets and `consider` blocks open there and the SQL head before it make it: an error or the end exactly when nothing begins, a bracket is open at the end, or nothing is left |
| LexerNesting.AroundIs | src/lexer.c:634-656 | what is open there is what was opened and not closed since, told by counting |
| LexerWords.SkipIs | src/lexer.c:85-98 | between tokens exactly blanks, comments and, inside brackets, line breaks are passed |
| LexerWords.SqlEndIs | src/lexer.c:368-393 | a line ends an SQL body if and only if it reads `end sql` and nothing more |
| LexerTheorems.ErrorIff | src/lexer.c:702-962 | an error is answered for a quote that no good end follows, `<>`, a lone `!` and a byte that begins nothing, and only then |
| LexerStrings.StringIff | src/lexer.c:100-146 | a string ends at the first quote after an even run of backslashes, and is an error if and only if there is none or an escape before it is bad: at the end, before a line break, or a malformed `\u{...}` |
| LexerStrings.LensIff | src/lexer.c:148-183 | the content of a lens ends at the first brace outside strings; it is an error if and only if there is none or a line break that no string escapes comes first |
| LexerTheorems.SqlBodyIsFirst | src/lexer.c:395-419 | an SQL body ends at the first line that reads `end sql`, or in an error when there is none |
| Lexer.Lexer.Advance | src/lexer.c:11-23 | one byte on: line and column follow |
| Lexer.Lexer.SkipToToken | src/lexer.c:666-673 | inside brackets line breaks are blanks; exactly blanks and comments are passed |
| Lexer.Lexer.StringToken | src/lexer.c:100-146 | the loop ends, well or in error, where the specification does |
| Lexer.Lexer.LensContentToken | src/lexer.c:148-183 | likewise for the content of a lens |
| Lexer.Lexer.NumberToken | src/lexer.c:189-243 | exactly the specified number is read |
| Lexer.Lexer.IdentifierToken | src/lexer.c:421-593 | exactly the specified word, kind and context; the look-aheads move nothing else |
| Lexer.Lexer.BraceToken | src/lexer.c:770-911 | an inline modifier exactly when what follows the brace says so, its phrase, and the column one further off; else a bracket opens |
| Lexer.Lexer.SqlBodyToken | src/lexer.c:395-419 | exactly the specified body is read |
| Lexer.Lexer.Next | src/lexer.c:658-962 | token, place, brackets, `consider` columns and what is due next are the specified ones |
| Lexer.LexAll | src/lexer.c:658-962 | a whole text gives exactly the specified tokens, whatever each call finds past the array of `consider` columns, and always ends |
| NumberText.FineIffShaped | include/gb_number_text.h:32-86 | accepted if and only if of the shape of a number, or of an integer within 64 bits |
| NumberText.IntegersAreNumbers | include/gb_number_text.h:32-86 | what is accepted as an integer is accepted as a number |
| NumberText.PastRangeIsANumber | include/gb_number_text.h:77-83 | refused for range exactly when a sign and digits past 64 bits, which still are a number |
| NumberText.TrimmedIsTheMiddle | include/gb_number_text.h:21-30 | whatever blanks stand around a text without blank ends, trimming gives it; trimming twice is trimming once |
| NumberText.TrimmedIsTight | include/gb_number_text.h:21-30 | every text is blanks, its trimmed middle and blanks |
| NumberText.Trim | include/gb_number_text.h:21-30 | in place: the answer up to its NUL is the trimmed text |
| NumberText.ProblemByWalk | include/gb_number_text.h:32-86 | the pointer walk gives the specified verdict |
| JsonText.QuotedReadBack | src/diagnostics.c:160-181 | a string written is read back by a reader of section 7 of RFC 8259, which stops right after it |
| JsonText.QuotedIsPrintable | src/diagnostics.c:157-181 | no byte below 0x20 is written inside a literal |
| JsonText.DiagnosticReadBack | src/diagnostics.c:183-202 | a diagnostic written is read back field for field, a missing message as an empty one |
| JsonText.DiagnosticIsOneLine | src/diagnostics.c:183-202 | its only line end is its last byte |
| JsonText.Out.JsonEscape | src/diagnostics.c:160-181 | the byte loop writes the specified literal |
| JsonText.Out.WriteJson | src/diagnostics.c:183-202 | the writes one after the other give the specified line |
| DiagnosticSink.Sink.Add | src/diagnostics.c:39-63 | one record is appended, those kept are untouched, the capacity stays within bounds |

## Left out

- The POSIX half of `src/actor.c`, sockets, `WSAPoll`, `DeleteFileW` and `atexit`: only what they answer is modelled, as steps and lists of events.
- An allocation that fails, and integer casts of lengths of 2^31 bytes and more; a handle path of 2^32 bytes and more, whose length the sender truncates.
- A sender whose frame was cut off by an error sends no more: the socket is assumed to report a hang-up after an error, which the code checks before each send.
- The queue records which connection a frame came from so that theorems can name a sender; the C queue does not.
- mailbox_close, mailbox_new_path and peers_close_gracefully: they release what the others set up.
- The text of error messages everywhere; what is reported, where and how often is modelled.
- A CSV delimiter of 128 and more, where the reader compares a signed character with a byte; `RoundTrip` also asks for a quote below 128.
- Headers, field order and values other than text in `csv.write`, and its files.
- The option lists of a `server` block, host names of sites, nested blocks and the window and G-SQL checks in `src/frontend.c`.
- How `web.routes` prepares a path (it repeats the load-time rules without the limit of 32 segments), requests, responses and the sorting of allowed methods in `resolve`.
- Raw mode, the history file, plain_line, and escape sequences other than those `line_edit` knows. `isspace` and `isalnum` are those of the C locale.
- Past 64 nested `consider` blocks the code reads beyond its array of columns; the model takes what each call finds there as an arbitrary number.
- JsonText.DiagnosticReadBack: the reader follows the layout that is written and is not a reader of any JSON; `\u` escapes of surrogates are not read, as none are written.
- The evaluator, the grammar, the G-SQL engine, the Qt backend, the command line and tables of builtins and currencies.
