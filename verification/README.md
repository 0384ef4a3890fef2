# Diary: a verified model

A Dafny 4.11 model of the diary system: the ncurses editor of the C client, the diary dialect between the clients and
the server, the SQL tables behind it, and the Android client's editor. `dafny verify dfyconfig.toml` checks everything.

## What is modelled

**The editor of `client/ui.c`.** `EditorScreen.Screen` is the editor as the source runs it: a growable byte array edited
in place, a byte cursor, `dirty`, the entry id, the backup files. Each method is proved against `EditorModel`, a state
machine with one step per key and the reply that the network call got, if the key caused one. About that machine:

- `Layout` proves what `get_vpos` and `vpos_to_idx` compute, for every byte string, every number of columns and every
  target. `IsTarget` says what a visual target means without a loop; it has exactly one solution, and from it follow
  the round trip and where the targets of the cursor keys lie. `Wrap` gives positions, drawn cells and row totals in
  closed form by division and remainder, and shows on which texts the draw loops agree with `get_vpos`.
- `Keys` says for each key, by its code, what one step of the machine does: where cursor keys go, what editing keys
  insert and remove, which keys save and what a save leaves behind.
- `Zipper` proves that the byte editor refines an editor on lists of characters (`Utf8` holds section 3 of RFC 3629).
- `SaveMachine` proves what holds over whole sessions: what `dirty == 0` means, at most one POST, backups, leaving.
  `CrashSafety` adds what is left of the text when the client dies in the middle of a save.

**The dialect, end to end.** `Dialect` has the lines that `client/net.c` prints and `server/client_handler.c` parses and
the rows that go back, with decimal printing and parsing (`Decimal`) and the fixed buffers (`CStrings`) spelled out.
`Tables` and `Storage` are the two tables, the statements and each connection's own rowid and change count; `Handler` is
the command loop, which parses its line in place. `Children` runs any number of forked children in small steps, with
the statement and the later reading of `last_insert_rowid` or `changes` as separate steps; `Isolation` draws the
consequences for users and ids. `Client` is `net.c`, `JavaClient` is `DiaryConnection.java`, `Stack` takes one call
through everything, `Lockstep` says what the clients make of rows with any data, and `EndToEnd` composes any number of
clients with any number of children in every interleaving and refines them to one map from ids to (time stamp, text).
`SavedText` puts the editor on top of the whole system, as one of those clients.

**The Android editor.** `Android` has the fields of `EntryActivity.java` as a class, and the interleaving of the UI
thread, the single-threaded executor and the posted callbacks as a state machine over the same functions.

Automatic induction is switched off on every lemma, so each proof by induction is spelled out.

## What the code does where its documentation says something else

- `client/architecture.md` says that a second ESC discards unsaved changes. In `client/ui.c:341` `if (dirty)` is tested
  before `dirty == -1`, so no number of ESC presses leaves a dirty buffer: `SaveMachine.EscapeNeverDiscards`,
  `SaveMachine.LeavesExactly`.
- HOME does not reach the start of a row that begins at a soft wrap: no cursor position of such a row has column 0.
  `Layout.HomeReachesRowStart` has the exact condition, `Layout.HomeCanMoveRight` an instance.
- `tests/README.md` says that of several simultaneous first connections only one wins. `INSERT OR IGNORE` succeeds for
  all of them: each is told OK and served, and the first key stays. `Children.RegisteringIsServedIff` has the exact
  condition, `Children.BothRacersAreServed` a race from the start of the server.
- The test of `client_handler.c:72-83` for a client time stamp is a space in the payload. `Dialect.PostLineParses` has
  the exact condition under which a POST comes out as it went in; base64 always meets it.
- `client/architecture.md` says that one bad entry "must not hide the rest". A row whose data has no word makes
  `net_get_entries` fail, and the rows after it stay in the connection: `Lockstep.GetInStepIff` has the exact condition,
  and the lines `POST ` and `POST x` are an instance, `Lockstep.EmptyPostBreaksStep`. What the clients send always has a
  word. The Java client reads every row: `JavaClient.GetIsAlwaysRead`, `Lockstep.ClientsAgreeOnGetIff`.
- GET lists the 1024 lowest ids and so hides the newest entries above that: `Stack.GetListsLowestIds`,
  `Stack.GetHidesNewest`, `Stack.GetListsEverythingIff`.
- A backup is said to be removed once the server confirms. When a new entry is given an id whose backup file was left
  from an earlier session, that file stays until the next save: `SaveMachine.BackupSafety`,
  `SaveMachine.LeftOverBackupStays`.
- `client/architecture.md` says that the plaintext survives on disk when a save fails or the client dies. It does from
  the moment the backup is written; but opening the file empties it, so a client that dies right then loses the text of
  an earlier failed save too: `CrashSafety.LastAttemptSurvivesIff`, `CrashSafety.RewritingLosesBackup`.
- On Android a new text that is left before the connection is there is lost, the autosave drops a timer that fires
  during a save, and leaving drops a text that was changed, saved and changed back: `Android.ScreenTextIsStoredIff` has
  the exact condition, `Android.LeftUnconnected`, `Android.AutosaveDropped` and `Android.RevertedTextIsLost` are
  instances.

## Model

| member | source | states |
|---|---|---|
| `Utf8.ContIsMask` | client/ui.c:52 | the mask test of `u8_is_cont` accepts exactly the bytes 0x80 to 0xBF |
| `Utf8.CharLen` | client/ui.c:55-59 | stepping by `u8_char_len` leads to the least character boundary after `i`, on any bytes |
| `Utf8.EncodeAt` | client/ui.c:356-362 | in encoded text the step right and the step left from a character's offset cross exactly its own bytes |
| `Utf8.BoundaryIsOffset` | client/ui.c:51-59 | every character boundary of an encoded text is the offset of some character of it |
| `Utf8.DecodeEncode` | client/ui.c:51-59 | decoding with the editor's own stepping recovers the characters of every text, so its bytes determine it |
| `Utf8.EncodeExamples` | client/ui.c:50-59 | the bytes of sample characters of RFC 3629, section 7, and of the first and last character of each length |
| `Layout.GetVpos` | client/ui.c:74-83 | the loop computes the wrap rule folded over the bytes before the cursor, clipped at the end of the text |
| `Layout.RowCount` | client/ui.c:145-150 | `total_vrows` is one more than the row `get_vpos` gives for the end, on any bytes and columns |
| `Layout.PosStrict` | client/ui.c:74-83 | positions of different character boundaries differ and follow the order of the text |
| `Layout.VposToIdx` | client/ui.c:87-102 | for any bytes, columns and target: the index exactly at the target if there is one, else the last index on that row, else the end of the text |
| `Layout.TargetUnique` | client/ui.c:85-102 | that description is met by one index only |
| `Layout.FirstStopIsTarget` | client/ui.c:90-100 | the first index at which one of the three exits of the loop is taken meets it |
| `Layout.RoundTrip` | client/ui.c:74-102 | `vpos_to_idx` undoes `get_vpos`, rounding up to the next character boundary, for every buffer, columns and cursor |
| `Layout.UpMovesOneRow` | client/ui.c:87-102 | the target one row above a cursor, in its column, is an index exactly one row higher |
| `Layout.DownMovesOneRow` | client/ui.c:87-102 | the target one row below is an index exactly one row lower, or the end of the text from the last row |
| `Layout.EndIsIdempotent` | client/ui.c:87-102 | the target at column `cols` stays on the row, is its own target, and from two columns on is the row's last index |
| `Layout.HomeReachesRowStart` | client/ui.c:87-102 | the target at column 0 is the start of its row if and only if the row is not opened by a soft wrap or has one index; else it is the row's end |
| `Layout.HomeCanMoveRight` | client/ui.c:363 | a text and cursor from which HOME moves to the right |
| `Wrap.CursorClosedForm` | client/ui.c:71-83 | the cursor before character j of well-formed text is given by division and remainder by cols - 1 within its logical line |
| `Wrap.CellClosedForm` | client/ui.c:165-174 | character j is drawn at (base + j / w, j mod w) of its line |
| `Wrap.TotalRows` | client/ui.c:145-150 | the row count is the sum over the logical lines of max(1, ceil(k / w)) |
| `Wrap.DrawText` | client/ui.c:277-286 | on any bytes the loop draws the cells of `Wrap.Draw`, puts every character where `get_vpos` has the cursor if and only if no continuation byte comes first or after a newline, and shows exactly the rows of the text area |
| `Wrap.ShownIff` | client/ui.c:277-286 | a character is shown if and only if its row is in the view, one screen row below its place there |
| `Wrap.DrawAgreesIff` | client/ui.c:165-174 | the same equivalence for the sequence of cells that the loop draws |
| `Wrap.EncodedIsAnchored` | client/ui.c:166-174 | well-formed text meets that condition |
| `Wrap.CellsAreDistinct` | client/ui.c:278-286 | on any bytes and any screen two characters are never drawn in one cell, and the cells drawn follow the order of the text |
| `Wrap.DrawnInTextArea` | client/ui.c:278-286 | on any bytes, malformed ones included, nothing is drawn on the header, on the status line or in the last column |
| `EditorModel.BackupPathInjective` | client/ui.c:108-113 | different entries, and the new entry, have different backup files |
| `EditorModel.ClosedStays` | client/ui.c:346-348 | once left, the editor does nothing more |
| `Keys.UpKey` | client/ui.c:352-353 | UP moves the cursor to the index that the same column of the row above means, on that row, and does nothing on the first row; nothing else changes |
| `Keys.DownKey` | client/ui.c:354-355 | DOWN moves it to the index that the same column of the row below means, one row lower, or to the end of the text from the last row; nothing else changes |
| `Keys.HomeKey` | client/ui.c:363 | HOME moves it to the index that column 0 of its row means, on the same row; that is the start of the row if and only if the row is not opened by a soft wrap or has one index |
| `Keys.EndKey` | client/ui.c:364 | END moves it to the index that column `cols` of its row means, on the same row, and a second END does nothing; from two columns on that is the last index of the row |
| `Keys.LeftKey` | client/ui.c:356-359 | LEFT goes back over one character start and the continuation bytes after it, and does nothing at 0 |
| `Keys.RightKey` | client/ui.c:360-362 | RIGHT goes forward to the next byte that starts a character, and does nothing at the end |
| `Keys.BackspaceKeys` | client/ui.c:378-384 | Backspace, 127 and 8 remove the character before the cursor and make the buffer dirty, and do nothing at 0 |
| `Keys.DeleteKey` | client/ui.c:385-390 | Delete removes the character at the cursor and makes the buffer dirty, and does nothing at the end |
| `Keys.TypingKeys` | client/ui.c:399-406 | every byte from 32 to 126 and from 128 on comes in at the cursor, which goes over it, and makes the buffer dirty |
| `Keys.NewlineKeys` | client/ui.c:391-398 | Enter, 10 and 13 put a byte 10 in |
| `Keys.OtherKeys` | client/ui.c:304-407 | every other control code, unknown function keys and the wheel leave the editor as it was |
| `Keys.AcceptedSave` | client/ui.c:307-333 | Ctrl+S, Ctrl+W and F2 on a dirty or new text, and two idle seconds on a dirty one, with an accepting reply: dirty is 0, one more acknowledgement has the text under the right id, which a new entry takes from the reply, and the backup is gone |
| `Keys.RefusedSave` | client/ui.c:307-337 | the same keys with a refusal: the text is in the backup, and dirty, id and acknowledgements are as they were |
| `Keys.NothingToSave` | client/ui.c:307-317 | otherwise these keys do nothing |
| `Keys.OpenedIsClean` | client/ui.c:217-236 | an editor just opened has the text with the cursor at its end and nothing unsaved; ESC leaves it at once, without a call and with the files as they were |
| `Keys.EscapeKey` | client/ui.c:340-350 | ESC leaves a clean editor and only marks a dirty one |
| `EditorScreen.Screen.constructor` | client/ui.c:226-236 | the doubling loop ends with room for the text and a NUL, and no more than max(4096, 2 * (length + 1)) bytes; the text is the initial one with the cursor at its end |
| `EditorScreen.Screen.Grow` | client/ui.c:392-396 | growing keeps the text, makes room for one byte and the NUL, and keeps the size bound by the peak length |
| `EditorScreen.Screen.OpenGap` | client/ui.c:405-406 | memmove and store put one byte at the cursor and shift the rest |
| `EditorScreen.Screen.InsertByte` | client/ui.c:399-407 | typing refines insertion at the cursor and keeps the buffer valid: no NUL inside, length below size |
| `EditorScreen.Screen.CloseGap` | client/ui.c:382-389 | memmove over a range removes exactly that range |
| `EditorScreen.Screen.StepBack` | client/ui.c:380-381 | the loop stops at the nearest earlier byte that starts a character, or at 0 |
| `EditorScreen.Screen.BackspaceKey` | client/ui.c:378-384 | removes the bytes from the previous boundary to the cursor, in place |
| `EditorScreen.Screen.DeleteKey` | client/ui.c:385-390 | removes the bytes from the cursor to the next boundary, in place |
| `EditorScreen.Screen.LeftKey` | client/ui.c:356-359 | moves to the previous boundary and changes nothing else |
| `EditorScreen.Screen.RightKey` | client/ui.c:360-362 | moves to the next boundary and changes nothing else |
| `EditorScreen.Screen.VerticalKey` | client/ui.c:352-364 | the in-place editor moves the cursor as the state machine does, of which the `Keys` lemmas say where each vertical key goes; nothing else changes |
| `EditorScreen.Screen.Terminate` | client/ui.c:318 | after storing the NUL, the string that the network calls see by strlen is exactly the text |
| `EditorScreen.Screen.SaveCommand` | client/ui.c:312-337 | one save: backup written, call made, and on success backup removed, id adopted, buffer clean; on failure nothing else changes |
| `EditorScreen.Screen.Refresh` | client/ui.c:251-301 | scrolling puts the cursor inside the text area and moves only if it must; what is drawn is the visible part of the cells of the text, on any bytes |
| `EditorScreen.Screen.Scroll` | client/ui.c:366-375 | the wheel moves the view, never the cursor or the text |
| `EditorScreen.Screen.HandleKey` | client/ui.c:304-407 | one turn of the loop is one step of the state machine, of which `Keys` says what each key does, for every key and reply, and keeps the buffer valid |
| `EditorScreen.Screen.Session` | client/ui.c:250-408 | a whole session of the in-place editor, redrawn before every key, is the run of the state machine, with the view scrolled as `ViewOver` says and the buffer valid throughout and never larger than max(4096, 2 * (peak length + 1)), the peak being the greatest length that the run reaches |
| `Zipper.RepresentedDecodes` | client/ui.c:352-407 | the bytes before and after the cursor decode to the two character lists, and the cursor is never inside a character |
| `Zipper.TargetIsOffset` | client/ui.c:352-364 | a vertical key goes to the character that a character editor with the same layout would go to |
| `Zipper.StrokeRepresents` | client/ui.c:378-407 | one stroke, a typed character arriving as its UTF-8 bytes one key each, is one step of the list editor |
| `Zipper.EditorRefinesZipper` | client/ui.c:352-407 | for every sequence of strokes the byte editor holds the texts that the list editor holds |
| `Zipper.SessionRefinesZipper` | client/ui.c:217-407 | the same from opening an editor on any text: the bytes before and after the cursor decode to what the list editor has there, and the cursor is on a character boundary |
| `Zipper.NoNulIff` | client/ui.c:399-406 | encoded text is a C string if and only if it has no character 0 |
| `SaveMachine.SaveKeepsInv` | client/ui.c:318-337 | one save keeps the invariant, whatever the reply |
| `SaveMachine.StepShape` | client/ui.c:304-407 | a key that does not save changes no id, file or history, never makes a buffer clean, and leaves only a clean one |
| `SaveMachine.SessionSafety` | client/ui.c:304-350 | over every session: a clean buffer equals the last acknowledged text, at most one POST is acknowledged and every later save updates its id, and the editor is left only when clean |
| `SaveMachine.BackupAfterAttempt` | client/ui.c:318-337 | after one attempt the backup of the current id exists if and only if it failed, or the POST got an id whose file was already there |
| `SaveMachine.BackupSafety` | client/ui.c:108-126 | over every session, on any entry and from any files: after an attempt the current backup exists if and only if the attempt failed, or it was the POST that gave the entry an id whose file was already there; after a failure it holds the text attempted; no other file is touched |
| `SaveMachine.OpenedBackup` | client/ui.c:217-236 | opening the editor establishes the backup invariant, whatever files are there |
| `SaveMachine.LeftOverBackupStays` | client/ui.c:328-330 | the session of a letter and a successful POST of a new entry after which an old diary_1.tmp is still there |
| `SaveMachine.LeavesExactly` | client/ui.c:340-349 | the editor is left if and only if the key is ESC and nothing is unsaved |
| `SaveMachine.EscapeNeverDiscards` | client/ui.c:340-349 | no number of ESC presses leaves a dirty editor or changes its text |
| `SaveMachine.SecondEscapeStays` | client/ui.c:341-346 | the session of one letter and two ESC is still open |
| `SaveMachine.AutosaveThenEscapeLeaves` | client/ui.c:307-349 | one acknowledged autosave and ESC leave with everything acknowledged |
| `CrashSafety.PointsEndInSave` | client/ui.c:320-331 | the points at which a save can be cut off end in the files that the save leaves |
| `CrashSafety.LastAttemptSurvivesIff` | client/ui.c:115-126 | in every session, between saves and at every point of a save once its backup is written, the text attempted last is in the backup or on the server; while the backup is being written a text survives if and only if the server has it or the bytes written so far are it |
| `CrashSafety.RewritingLosesBackup` | client/ui.c:118-119 | a session in which a client that dies while reopening the backup loses the text of the failed save before |
| `SavedText.OnlyTriedSaves` | client/ui.c:307-317 | the keys that save, listed by their codes in `Keys.Saves`, run the save, and no other key does |
| `SavedText.MoveKeeps` | client/ui.c:321-331 | each key, each step of the rest of the system and each look for the reply keeps the editor, as it will be when it has heard its replies, in agreement with the diary |
| `SavedText.CleanIsStored` | client/ui.c:304-331 | at every moment of a session that runs as one client of the concurrent system, with saves failing and all other clients active between a commit and its reply: when the title shows no star the screen's text is the entry's text in the diary, provided that no other client updates or deletes that entry |
| `SavedText.SaveKeySaves` | client/ui.c:312-333 | a save completes: turns of the editor's own child alone store the text on the screen, the reply reaches the editor, and it is clean, unless the statement failed |
| `SavedText.OtherKeysAreTaken` | client/ui.c:304-407 | a key that does not save acts on the editor at once, whatever the system does |
| `Decimal.DecWidths` | server/client_handler.c:22 | a row id takes at most 10 characters, an int 11, a time stamp 20 |
| `Decimal.AtolOfDec` | server/client_handler.c:81 | `atol` and `atoi` recover every printed number in range, whatever non-digit follows |
| `Decimal.AtolSaturates` | client/net.c:88-89 | a printed number beyond a long is read as the limit that it passes |
| `Decimal.SubjectSkips` | client/net.c:88-89 | spaces, tabs and a plus sign before a number are skipped, and a string without a number is 0 |
| `Decimal.ParseJavaOfDec` | android-client/app/src/main/java/uk/coko/forge/diary/DiaryConnection.java:102-103 | Java's parsing recovers a printed number if and only if it is in range |
| `Decimal.ParseJavaIs` | android-client/app/src/main/java/uk/coko/forge/diary/DiaryConnection.java:102-103 | Java reads at least one digit with or without a sign, in range, and nothing else |
| `Dialect.VerbsAreExclusive` | server/client_handler.c:69-127 | no line satisfies two of the five guards, so their order does not matter |
| `Dialect.PostLineParses` | client/net.c:15-18 | printing and parsing a POST gives it back if and only if its time stamp was sent or the data cannot be taken for one |
| `Dialect.UpdateLineParses` | client/net.c:34-36 | every UPDATE is parsed as printed, for every int and any data |
| `Dialect.DeleteLineParses` | client/net.c:46-49 | every DELETE is parsed as printed |
| `Dialect.PrefixesFit` | client/net.c:15-48 | the 32-byte prefix buffers never truncate |
| `Dialect.RowFits` | server/client_handler.c:22-25 | a row is whole if and only if its two numbers take at most 30 characters, as they do for every non-negative id and 64-bit stamp |
| `Dialect.RowBufferIsExact` | server/client_handler.c:22 | the bound is attained, and a negative id can lose the last byte of the data |
| `Dialect.RowParses` | client/net.c:82-89 | the C client reads back id, stamp and the first word of the data if there is one, and rejects the row if not; the data comes back whole if and only if it is non-empty and free of spaces |
| `Dialect.TokenIs` | client/net.c:83-85 | `strtok_r` on every string, by how it begins: leading spaces are skipped, and a word ends at a space or with the string |
| `Dialect.RowParsesJava` | android-client/app/src/main/java/uk/coko/forge/diary/DiaryConnection.java:97-104 | the Java client reads back every row, whatever the data |
| `Tables.SelectIs` | server/storage.c:116-126 | the SELECT yields exactly the user's rows, each once, in ascending order of id |
| `Storage.Connection.RegisterUser` | server/storage.c:67-78 | a key that is already set stays, and the call still succeeds |
| `Storage.Connection.AddEntry` | server/storage.c:97-111 | inserts one row under the next id and returns that id as an int, or changes nothing and returns -1 |
| `Storage.Connection.GetEntries` | server/storage.c:113-129 | the step loop yields the rows of the SELECT |
| `Storage.Connection.UpdateEntry` | server/storage.c:131-144 | changes the data of the user's own row only, and succeeds if and only if the statement did and there was one |
| `Storage.Connection.DeleteEntry` | server/storage.c:146-157 | removes the user's own row only, and succeeds if and only if the statement did and there was one |
| `Handler.OneReplyPerCommand` | server/client_handler.c:67-129 | every command, malformed ones included, gets one line, or for a GET a header n and exactly n rows, even with rows dropped; all but rows fit the clients' 64 bytes |
| `Handler.LinesAreRefused` | server/client_handler.c:69-127 | the replies to QUIT, to an UPDATE without data and to a line that is none of the five commands; none changes a table |
| `Handler.ChangesAreAnswered` | server/client_handler.c:84-123 | UPDATE and DELETE are answered OK if and only if the statement succeeds and the user owns the entry; a failed POST and a GET out of memory get a FAIL line |
| `Handler.ParseUpdateLine` | server/client_handler.c:105-112 | writing a NUL over the space parses as splitting the line does |
| `Handler.ParseLine` | server/client_handler.c:69-119 | the in-place parse of the line in memory is the parse of its text before |
| `Handler.KeptSurvive` | server/client_handler.c:19-27 | row i is kept if and only if its malloc succeeds and fewer than 1024 rows before it were kept, at the place given by that number; nothing else is kept |
| `Handler.Collect` | server/client_handler.c:19-27 | the callback puts the line of each such row at that place, and as many lines as there are such rows |
| `Handler.HandleLine` | server/client_handler.c:67-129 | one turn of the loop does to the tables and answers what the sequential meaning of the command says |
| `Handler.RegistrationGate` | server/client_handler.c:38-65 | the command loop is entered if and only if the user is registered afterwards; a rejected line changes nothing |
| `Children.ExecuteRefinesExec` | server/storage.c:107-110 | the statement step and the later reading of rowid or changes together answer what the atomic command answers |
| `Children.Linearizable` | server/client_handler.c:67-129 | in every interleaving of any number of children the tables are those of the log run one command at a time, and every child sent or owes exactly the answers of that run to the commands it read |
| `Children.LogGrows` | server/client_handler.c:67-129 | the log only grows, so the order respects real time |
| `Children.ReadsInOrder` | server/client_handler.c:68 | in every interleaving a child past the gate reads the lines that arrive at it in the order of their arrival, each once |
| `Children.IdleChildIsAnswered` | server/client_handler.c:68 | a child back at its read has answered every command it read and nothing else |
| `Children.PostAnswersItsOwnId` | server/client_handler.c:84-91 | in every run from the start of the server: when the last statement of a child was a successful POST, the line the child sent last or still owes has the id of the row which that statement inserted, whatever other children did before `last_insert_rowid` was read |
| `Children.UsersChangeOnlyByRegistering` | server/client_handler.c:38-65 | one step changes the users only by the first key of a registering user; a rejected key changes nothing |
| `Children.RegistrationIsStable` | server/client_handler.c:38-65 | over every run a key once set never changes, only registered users reach the loop, and every entry's owner is registered |
| `Children.RegisteringIsServedIff` | server/storage.c:67-78 | a registering child is told OK and served if and only if its statement succeeds, and its key is stored if and only if also nobody was registered before |
| `Children.BothRacersAreServed` | server/client_handler.c:38-63 | a run from the start of the server in which two clients of a new user are both told OK and served and the key of the first stays |
| `Children.GateInSteps` | server/client_handler.c:38-65 | a child whose turns are not interleaved does what the gate does |
| `Children.GateTurns` | server/client_handler.c:38-65 | the gate turn by turn: OK for a user with a key, REGISTER else; a valid key after `REGISTER ` goes on to registering, any other line gets FAIL and a closed connection and changes neither table |
| `Children.QuitIsTheEnd` | server/client_handler.c:68-70 | in every run from the start of the server a child reads nothing after QUIT, answers it with BYE as its last line, and one that has read a command closes only after QUIT |
| `Children.QuitCloses` | server/client_handler.c:69-70 | three turns after QUIT has arrived the child has sent BYE and is closed, and no table has changed |
| `Children.StartedIsLinearized` | server/client_handler.c:33-36 | a fresh server satisfies the invariants of the run theorems |
| `Isolation.RowHistory` | server/storage.c:31-36 | over every run a row keeps its id, owner and time stamp from insertion to deletion, and a vanished id never names a row again |
| `Isolation.RowHistoryOfRun` | server/storage.c:31-36 | the same at any two moments of an interleaved run of children |
| `Isolation.IdsAreNeverReused` | server/storage.c:97-111 | two successful POSTs get different ids, deletions in between or not |
| `Isolation.OthersDoNotInterfere` | server/storage.c:131-157 | a command of one user changes no row of another |
| `Isolation.UsersAreIsolated` | server/client_handler.c:84-123 | a user's rows and all answers to the user are determined by the user's own commands with the ids, clocks and outcomes they got |
| `Isolation.ChildrenAreIsolated` | server/client_handler.c:67-129 | the same for two interleaved runs of children, child by child, at any moment |
| `Client.CallIsUnderstood` | client/net.c:11-53 | the handler parses the line of every call as that call |
| `Client.EntryCmpIsTotalOrder` | client/net.c:56-61 | the comparator does not overflow and orders newest first, then higher id; only equal pairs compare equal |
| `Client.SortedIsUnique` | client/net.c:97 | contents and order determine the list, so any correct qsort gives the same |
| `Client.ReceiveRows` | client/net.c:78-95 | the loop fills the array with the rows in order, or gives up at the first it cannot read, or blocks |
| `Client.NetGetEntries` | client/net.c:64-105 | the whole call on the lines that have arrived: blocked, failed, or the sorted array, and what is left unread |
| `Client.ReadRowsInStep` | client/net.c:78-104 | the loop returns all rows if and only if every row can be read, and leaves nothing unread if and only if every row but the last can |
| `Client.ReadRowsBlocks` | client/net.c:79-80 | with fewer rows than announced the call does not return |
| `JavaClient.DiaryConnection.PostEntry` | android-client/app/src/main/java/uk/coko/forge/diary/DiaryConnection.java:65-72 | sends the line that net.c sends without a time stamp and consumes one line; on a closed connection it fails |
| `JavaClient.DiaryConnection.UpdateEntry` | android-client/app/src/main/java/uk/coko/forge/diary/DiaryConnection.java:74-81 | sends net.c's line, returns the id if and only if the reply is OK; on a closed connection it fails |
| `JavaClient.DiaryConnection.DeleteEntry` | android-client/app/src/main/java/uk/coko/forge/diary/DiaryConnection.java:83-87 | sends net.c's line, succeeds if and only if the reply is OK; on a closed connection it fails |
| `JavaClient.DiaryConnection.GetEntries` | android-client/app/src/main/java/uk/coko/forge/diary/DiaryConnection.java:89-109 | the loop adds the parsed rows in order, skips rows without two spaces and throws at a bad number or when the connection closes |
| `JavaClient.GetIsAlwaysRead` | android-client/app/src/main/java/uk/coko/forge/diary/DiaryConnection.java:95-107 | every GET reply is read whole, in the order of the ids and whatever the data, and nothing is left unread |
| `JavaClient.RowReadingIs` | android-client/app/src/main/java/uk/coko/forge/diary/DiaryConnection.java:97-106 | a row without two spaces is skipped; one with two is an entry if and only if what is before each is a number in range, with "[could not decrypt]" for data that does not open, and throws else |
| `JavaClient.TooFewRows` | android-client/app/src/main/java/uk/coko/forge/diary/DiaryConnection.java:115-118 | when the connection closes before the last announced row the call throws |
| `JavaClient.BlanksAreTrimmed` | android-client/app/src/main/java/uk/coko/forge/diary/DiaryConnection.java:93 | the count of a header is read with any blanks around it |
| `Lockstep.GetInStepIff` | client/net.c:64-105 | on any stored data: the C client gets its entries if and only if the data of every row that is sent has a word, and the reply is consumed whole if and only if that of every row but the last has one |
| `Lockstep.EmptyPostBreaksStep` | server/client_handler.c:72-92 | after the lines `POST ` and `POST x` a GET fails and leaves a row in the connection |
| `Lockstep.ClientsAgreeOnChanges` | android-client/app/src/main/java/uk/coko/forge/diary/DiaryConnection.java:65-87 | on every reply of the handler to a POST, UPDATE or DELETE the two clients come to the same result |
| `Lockstep.ClientsAgreeOnGetIff` | android-client/app/src/main/java/uk/coko/forge/diary/DiaryConnection.java:89-109 | on a GET they come to the same entries if and only if every row that is sent has a word that opens to what the whole data opens to |
| `Lockstep.JavaShowsEveryRow` | android-client/app/src/main/java/uk/coko/forge/diary/DiaryConnection.java:95-107 | in every GET the Java client lists every row that is sent, in the order of the ids, each with the text that its data opens to, or "[could not decrypt]" if it does not open |
| `Lockstep.CShowsEveryRow` | client/net.c:91-97 | the C client lists the same entries, newest first, when the data of every row sent is non-empty and free of spaces: one that does not open hides no other |
| `Stack.PostThroughStack` | client/net.c:11-26 | a POST through client, wire, handler and table adds the text to the map under a fresh id and returns it, or changes nothing and returns -1 |
| `Stack.UpdateThroughStack` | client/net.c:29-43 | an UPDATE replaces the text and keeps the time stamp if the id is in the map, else changes nothing and returns -1 |
| `Stack.DeleteThroughStack` | client/net.c:46-53 | a DELETE removes the id if it is in the map, else changes nothing and returns -1 |
| `Stack.GetThroughStack` | client/net.c:64-105 | a GET returns entries of the map, newest first, each once, and an entry is among them if and only if it is not dropped and fewer than 1024 kept entries have smaller ids |
| `Stack.CallThroughStack` | client/net.c:11-105 | every call is the map operation, consumes its whole reply and does not return before the last line is there |
| `Stack.ListIsDetermined` | client/net.c:97-100 | the map and the dropped rows determine the list that a GET returns |
| `Stack.GetListsLowestIds` | server/client_handler.c:15-21 | when no row is dropped an entry is listed if and only if fewer than 1024 entries have smaller ids |
| `Stack.GetHidesNewest` | server/client_handler.c:15-21 | above 1024 entries the newest one is never listed |
| `Stack.GetListsEverythingIff` | server/client_handler.c:15-21 | when no row is dropped a GET lists everything if and only if there are at most 1024 entries |
| `EndToEnd.ClientsShareOneMap` | client/net.c:11-105 | for every interleaving of any number of a user's clients with any other traffic, the calls in commit order are a run of one map, the ids that POSTs return increase and so never return, every client got the results of that run, and between calls nothing is under way |
| `EndToEnd.IdsIncrease` | server/storage.c:31-36 | in every run of the map a later POST of any client returns a larger id, deletions in between or not |
| `EndToEnd.TraceGrows` | server/client_handler.c:67-129 | the trace only grows, so the order of the operations of different clients respects real time |
| `EndToEnd.StackRefinesMap` | server/client_handler.c:67-129 | the invariant behind it is kept by every run |
| `EndToEnd.FinishInStep` | client/net.c:22-25 | a call returns only when the child has sent the whole reply, and then both directions are empty |
| `EndToEnd.BetweenCallsNothingIsUnderWay` | client/net.c:66-95 | lockstep: a client that is not waiting has nothing unread and its child nothing unanswered |
| `EndToEnd.CallCompletes` | server/client_handler.c:67-129 | no call gets stuck: from any state of the system in which a call has reached its child, turns of that child alone do its operation, and then the client returns with its result |
| `EndToEnd.NewClientIsServed` | server/client_handler.c:33-65 | a new client is served after connecting and, if it is asked, sending a valid key, which is then the key of a user who had none |
| `EndToEnd.ActIsServerStep` | server/client_handler.c:33-129 | the server under the clients is that of `Children`: each action is at most one event of it, and connections, lines of other users and turns of children come in any order |
| `Android.EntryActivity.constructor` | android-client/app/src/main/java/uk/coko/forge/diary/EntryActivity.java:37-65 | the state after onCreate, with and without stored keys |
| `Android.EntryActivity.Save` | android-client/app/src/main/java/uk/coko/forge/diary/EntryActivity.java:172-195 | the text is queued if and only if connected, not saving and not empty |
| `Android.EntryActivity.SaveAndClose` | android-client/app/src/main/java/uk/coko/forge/diary/EntryActivity.java:86-110 | the activity finishes at once if and only if unconnected, empty or unchanged; else the text is queued |
| `Android.EntryActivity.OnDestroy` | android-client/app/src/main/java/uk/coko/forge/diary/EntryActivity.java:68-73 | the timer is removed and the disconnection is queued last |
| `Android.EntryActivity.Dispatch` | android-client/app/src/main/java/uk/coko/forge/diary/EntryActivity.java:99-107 | the callbacks of the two kinds of save: one ends saving, the other finishes |
| `Android.BackFinishes` | android-client/app/src/main/java/uk/coko/forge/diary/EntryActivity.java:86-110 | in every run after going back, whether or not the closing save succeeds, the activity is finished once nothing is queued, running or waiting for the UI thread |
| `Android.NextTimerSaves` | android-client/app/src/main/java/uk/coko/forge/diary/EntryActivity.java:172-195 | in every run without going back, failed autosaves included, once nothing is queued, running or waiting the activity is open and not saving, and the next timer takes the text |
| `Android.ResultIff` | android-client/app/src/main/java/uk/coko/forge/diary/EntryActivity.java:99-107 | in every run, once no callback is waiting, `RESULT_OK` is set if and only if some save succeeded |
| `Android.EntryActivity.BeginTask` | android-client/app/src/main/java/uk/coko/forge/diary/EntryActivity.java:179-182 | a save decides between POST and UPDATE by the id at the time it starts |
| `Android.EntryActivity.EndTask` | android-client/app/src/main/java/uk/coko/forge/diary/EntryActivity.java:182-193 | the id is adopted exactly from a POST that returned, and a callback is posted |
| `Android.EntryActivity.Handle` | android-client/app/src/main/java/uk/coko/forge/diary/EntryActivity.java:25-195 | one event, taken by the class, is one step of the state machine |
| `Android.Live` | android-client/app/src/main/java/uk/coko/forge/diary/EntryActivity.java:37-195 | a whole life of the activity, any events in any order, is a run of the state machine, so the run theorems hold of the class |
| `Android.AtMostOnePost` | android-client/app/src/main/java/uk/coko/forge/diary/EntryActivity.java:96-98 | in every interleaving every call after an acknowledged one updates its row, so at most one POST is acknowledged, and none for an existing entry |
| `Android.StoresAtMostOneRow` | android-client/app/src/main/java/uk/coko/forge/diary/EntryActivity.java:163-182 | in every run from the opening at most one new row is stored, none for an existing entry, however many saves fail and whether or not replies are lost: a lost reply ends the connection, and nothing connects again |
| `Android.DeletedStaysDeleted` | android-client/app/src/main/java/uk/coko/forge/diary/EntryActivity.java:179-182 | a row that another session deletes is gone in every run after it, whatever this one saves |
| `Android.StepCaptures` | android-client/app/src/main/java/uk/coko/forge/diary/EntryActivity.java:25 | texts go to the server in the order they were taken, none lost or duplicated; exactly the events that pass the guards take one |
| `Android.StepKeepsOrder` | android-client/app/src/main/java/uk/coko/forge/diary/EntryActivity.java:70-72 | at most one autosave is under way at a time and `saving` says so, and every save comes before the disconnection |
| `Android.RunKeepsInv` | android-client/app/src/main/java/uk/coko/forge/diary/EntryActivity.java:86-195 | all invariants hold over every run, and `OpenedInv` starts them |
| `Android.DrainedHoldsLastText` | android-client/app/src/main/java/uk/coko/forge/diary/EntryActivity.java:179-182 | once the queue has drained a row holds the text of the last call that reached the server with it |
| `Android.DrainedHoldsLastCapture` | android-client/app/src/main/java/uk/coko/forge/diary/EntryActivity.java:172-195 | once the queue has drained with a successful call the entry has an id if and only if it had one or a text was taken, and if nobody deleted it, it holds the text taken last |
| `Android.ScreenTextIsStoredIff` | android-client/app/src/main/java/uk/coko/forge/diary/EntryActivity.java:86-110 | after leaving, or after a timer, and when the last call succeeded: the entry exists with the text on the screen if and only if the guard took the text, or it was the last text taken and there is an entry, and nobody deleted the entry |
| `Android.LeftUnconnected` | android-client/app/src/main/java/uk/coko/forge/diary/EntryActivity.java:88 | a run in which a new text is left before `conn` is assigned and nothing is ever stored |
| `Android.AutosaveDropped` | android-client/app/src/main/java/uk/coko/forge/diary/EntryActivity.java:172-177 | a run that ends with nothing pending and the last character on the screen only |
| `Android.RevertedTextIsLost` | android-client/app/src/main/java/uk/coko/forge/diary/EntryActivity.java:90 | a run in which a text changed back after an autosave is left with the other text stored |

## Left out

- The `protocol/` submodule: framing, handshake, base64 and fork/accept; the wire is a list of lines, and a short reply
  fits the clients' 64 bytes (`Handler.OneReplyPerCommand`). `protocol/wire.c` is not part of this model.
- Sealing and unsealing: a parameter, with the assumption that unsealing undoes sealing and that sealed data is not
  empty and has no spaces.
- SQLite itself: a statement is one atomic step, AUTOINCREMENT never reuses an id, a SELECT is one snapshot; WAL, busy
  timeouts and rowid exhaustion are not modelled. Whether a statement fails is a free choice at each step.
- Row ids beyond 2^31 - 1: the conversions keep the low 32 bits as the source does, but the end-to-end theorems assume
  the ids fit an int.
- `atol` on numbers out of range: saturation as in glibc, which the C standard does not promise.
- Another failure of `net_post_entry` and the like than a reply that says so: a broken connection ends the client's part
  of a run.
- ncurses: drawing, colours and the decoding of mouse events; keys arrive decoded, and key codes above 255 that are not
  function keys of the editor do nothing. The screen does not change size during a run.
- Idle ticks between the bytes of one typed character: the bytes of a character arrive together in `Zipper`; the save
  machine is proved for every order of keys.
- Failing `realloc` in the editor and failing writes of backup files.
- The failing `calloc` of `net_get_entries` (client/net.c:75-76), which returns with the announced rows unread.
- Overflow of the row and column counters at 2^31.
- `strtok_r` and `strchr` on the client's rows work on values, not in place; qsort is represented by its contract.
- The list screen and the viewer's scroll limits, `main.c`, command-line and date parsing, file system set-up.
- The Android client, a lost reply: a call whose reply is lost takes effect, if at all, before it returns; a request
  that the server executes after the client has given up is not modelled. `conn` is taken to be dead when connecting
  failed.
- `Android.ScreenTextIsStoredIff`: other sessions may delete rows but not edit the same entry; the document backup, the
  status line, preferences, and the visibility of fields between Java threads are not modelled.
- `DiaryConnection.connect` and `disconnect`, `MainActivity`, `SetupActivity`, `Crypto`.
