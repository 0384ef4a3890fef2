/** What each key of the editor does, by its code: client/ui.c:304-407 read from the outside. Nothing here refers to how
    EditorModel sorts the keys or takes a step. */
module Keys {
  import opened Utf8
  import opened Layout
  import opened Decimal
  import opened EditorModel

  function At(e: Editor, cols: int): Pos
    requires e.Valid()
  {
    PosAt(e.text, cols, e.cursor)
  }

  /** Only the cursor is different. */
  predicate OnlyCursor(e: Editor, s: Editor) {
    s == e.(cursor := s.cursor)
  }

  // ---------------------------------------------------------------------------------------------
  // Cursor keys
  // ---------------------------------------------------------------------------------------------

  /** UP goes to the same column one row higher, or to the end of that row, and does nothing on the first row. */
  lemma {:induction false} UpKey(e: Editor, cols: int, reply: Reply)
    requires e.Valid() && e.open
    ensures var p, s := At(e, cols), Step(e, cols, Input(KeyUp, reply));
            if p.row > 0 then
              && OnlyCursor(e, s) && s.Valid() && IsTarget(e.text, cols, Pos(p.row - 1, p.col), s.cursor)
              && At(s, cols).row == p.row - 1
            else s == e
  {
    if At(e, cols).row > 0 {
      UpMovesOneRow(e.text, cols, e.cursor);
    }
  }

  /** DOWN goes to the same column one row lower, or to the end of that row, or to the end of the text from the last
      row. */
  lemma {:induction false} DownKey(e: Editor, cols: int, reply: Reply)
    requires e.Valid() && e.open
    ensures var p, s := At(e, cols), Step(e, cols, Input(KeyDown, reply));
            && OnlyCursor(e, s) && s.Valid() && IsTarget(e.text, cols, Pos(p.row + 1, p.col), s.cursor)
            && if p.row < PosAt(e.text, cols, |e.text|).row then At(s, cols).row == p.row + 1
               else s.cursor == |e.text|
  {
    DownMovesOneRow(e.text, cols, e.cursor);
  }

  /** HOME aims at column 0 of the cursor's row and stays on it. */
  lemma {:induction false} HomeKey(e: Editor, cols: int, reply: Reply)
    requires e.Valid() && e.open
    ensures var p, s := At(e, cols), Step(e, cols, Input(KeyHome, reply));
            && OnlyCursor(e, s) && s.Valid() && IsTarget(e.text, cols, Pos(p.row, 0), s.cursor)
            && At(s, cols).row == p.row
            && (FirstOnRow(e.text, cols, p.row, s.cursor)
                <==> HardRow(e.text, cols, p.row) || SingleIndexRow(e.text, cols, p.row))
  {
    StaysOnRow(e, cols, 0);
    HomeReachesRowStart(e.text, cols, e.cursor);
  }

  /** END aims at the column past the last one of the cursor's row, stays on it, and does nothing the second time. */
  lemma {:induction false} EndKey(e: Editor, cols: int, reply: Reply)
    requires e.Valid() && e.open
    ensures var p, s := At(e, cols), Step(e, cols, Input(KeyEnd, reply));
            && OnlyCursor(e, s) && s.Valid() && IsTarget(e.text, cols, Pos(p.row, cols), s.cursor)
            && At(s, cols).row == p.row && Step(s, cols, Input(KeyEnd, reply)) == s
            && (cols >= 2 ==> LastOnRow(e.text, cols, p.row, s.cursor))
  {
    EndIsIdempotent(e.text, cols, e.cursor);
  }

  lemma {:induction false} StaysOnRow(e: Editor, cols: int, col: int)
    requires e.Valid()
    ensures var row := At(e, cols).row; PosAt(e.text, cols, Target(e.text, cols, Pos(row, col))).row == row
  {
    PosBounds(e.text, cols, e.cursor);
    PosNeverGoesBack(e.text, cols, e.cursor, |e.text|);
    TargetKeepsRow(e.text, cols, Pos(At(e, cols).row, col));
  }

  /** The bytes from i to j are one character, as far as continuation bytes tell: none but the first starts one. */
  predicate OneStep(s: seq<byte>, i: int, j: int) {
    0 <= i < j <= |s| && forall k | i < k < j :: IsCont(s[k])
  }

  /** LEFT goes back over one character, and does nothing at the beginning. */
  lemma {:induction false} LeftKey(e: Editor, cols: int, reply: Reply)
    requires e.Valid() && e.open
    ensures var s := Step(e, cols, Input(KeyLeft, reply));
            if e.cursor == 0 then s == e
            else OnlyCursor(e, s) && OneStep(e.text, s.cursor, e.cursor) && (s.cursor == 0 || !IsCont(e.text[s.cursor]))
  {
  }

  /** RIGHT goes forward over one character, and does nothing at the end. */
  lemma {:induction false} RightKey(e: Editor, cols: int, reply: Reply)
    requires e.Valid() && e.open
    ensures var s := Step(e, cols, Input(KeyRight, reply));
            if e.cursor == |e.text| then s == e
            else OnlyCursor(e, s) && OneStep(e.text, e.cursor, s.cursor) && Boundary(e.text, s.cursor)
  {
  }

  // ---------------------------------------------------------------------------------------------
  // Editing keys
  // ---------------------------------------------------------------------------------------------

  /** Backspace, DEL and Ctrl+H take out the character before the cursor, and do nothing at the beginning. */
  lemma {:induction false} BackspaceKeys(e: Editor, cols: int, key: Key, reply: Reply)
    requires e.Valid() && e.open && (key == EditorModel.KeyBackspace || key == Byte(127) || key == Byte(8))
    ensures var s := Step(e, cols, Input(key, reply));
            if e.cursor == 0 then s == e
            else
              && s == e.(text := e.text[..s.cursor] + e.text[e.cursor..], cursor := s.cursor, dirty := 1)
              && OneStep(e.text, s.cursor, e.cursor) && (s.cursor == 0 || !IsCont(e.text[s.cursor]))
  {
  }

  /** Delete takes out the character at the cursor, and does nothing at the end. */
  lemma {:induction false} DeleteKey(e: Editor, cols: int, reply: Reply) returns (next: nat)
    requires e.Valid() && e.open
    ensures var s := Step(e, cols, Input(EditorModel.KeyDelete, reply));
            if e.cursor == |e.text| then s == e
            else
              && OneStep(e.text, e.cursor, next) && Boundary(e.text, next)
              && s == e.(text := e.text[..e.cursor] + e.text[next..], dirty := 1)
  {
    next := NextBoundary(e.text, if e.cursor < |e.text| then e.cursor + 1 else e.cursor);
  }

  /** The byte comes in at the cursor, and the cursor goes over it. */
  predicate Inserted(e: Editor, b: byte, s: Editor)
    requires e.Valid()
  {
    s == e.(text := e.text[..e.cursor] + [b] + e.text[e.cursor..], cursor := e.cursor + 1, dirty := 1)
  }

  /** Printable ASCII, and every byte beyond ASCII, is typed. */
  lemma {:induction false} TypingKeys(e: Editor, cols: int, b: byte, reply: Reply)
    requires e.Valid() && e.open && (32 <= b <= 126 || b >= 128)
    ensures Inserted(e, b, Step(e, cols, Input(Byte(b), reply)))
  {
  }

  /** Enter, line feed and carriage return type a line feed. */
  lemma {:induction false} NewlineKeys(e: Editor, cols: int, key: Key, reply: Reply)
    requires e.Valid() && e.open && (key == EditorModel.KeyEnter || key == Byte(10) || key == Byte(13))
    ensures Inserted(e, 10, Step(e, cols, Input(key, reply)))
  {
  }

  /** The other control codes, unknown function keys and the wheel leave the editor as it is. */
  lemma {:induction false} OtherKeys(e: Editor, cols: int, key: Key, reply: Reply)
    requires e.Valid() && e.open
    requires key.OtherKey? || key.Wheel? || (key.Byte? && key.b < 32 && key.b !in {8, 10, 13, 19, 23, 27})
    ensures Step(e, cols, Input(key, reply)) == e
  {
  }

  // ---------------------------------------------------------------------------------------------
  // Saving and leaving
  // ---------------------------------------------------------------------------------------------

  /** Ctrl+S, Ctrl+W and F2 save a text that is unsaved or new; two seconds without a key save an unsaved one. */
  predicate Saves(e: Editor, key: Key) {
    || ((key == Byte(19) || key == Byte(23) || key == KeyF2) && (e.dirty != 0 || e.entryId <= 0))
    || (key == Idle && e.dirty != 0)
  }

  /** The file in which the text is backed up. */
  function BackupOf(e: Editor): string {
    if e.entryId > 0 then "diary_" + Dec(e.entryId) + ".tmp" else "diary_new.tmp"
  }

  lemma {:induction false} BackupIs(e: Editor)
    ensures BackupPath(e.entryId) == BackupOf(e)
  {
    if e.entryId > 0 { NumberedPath(e.entryId); }
  }

  /** A save that the server accepts: the buffer is clean, the text is acknowledged under the entry's id, which a new
      entry takes from the reply, and the backup is gone. */
  lemma {:induction false} AcceptedSave(e: Editor, cols: int, key: Key, id: cint)
    requires e.Valid() && e.open && Saves(e, key) && id > 0
    ensures var s := Step(e, cols, Input(key, Accepted(id)));
            var ack := if e.entryId > 0 then Updated(e.entryId, e.text) else Posted(id, e.text);
            && s.text == e.text && s.cursor == e.cursor && s.open && s.dirty == 0
            && s.entryId == (if e.entryId > 0 then e.entryId else id)
            && s.acks == e.acks + [ack] && s.files == e.files - {BackupOf(e)}
  {
    BackupIs(e);
    var path := BackupOf(e);
    assert e.files[path := e.text] - {path} == e.files - {path};
  }

  /** A save that is refused, or a POST that is given no id: nothing changes but the backup, which has the text. */
  lemma {:induction false} RefusedSave(e: Editor, cols: int, key: Key, reply: Reply)
    requires e.Valid() && e.open && Saves(e, key) && (reply.Refused? || (reply.id <= 0 && e.entryId <= 0))
    ensures var s := Step(e, cols, Input(key, reply));
            && s.text == e.text && s.cursor == e.cursor && s.open && s.dirty == e.dirty
            && s.entryId == e.entryId && s.acks == e.acks && s.files == e.files[BackupOf(e) := e.text]
  {
    BackupIs(e);
  }

  /** Otherwise the save keys and idling do nothing. */
  lemma {:induction false} NothingToSave(e: Editor, cols: int, key: Key, reply: Reply)
    requires e.Valid() && e.open && !Saves(e, key)
    requires key == Byte(19) || key == Byte(23) || key == KeyF2 || key == Idle
    ensures Step(e, cols, Input(key, reply)) == e
  {
  }

  /** An editor that has just been opened on an entry, or empty, has the cursor at the end of the text and nothing
      unsaved: it can be left at once, without a call and with the files as they were. */
  lemma {:induction false} OpenedIsClean(
    entryId: cint, initial: seq<byte>, files: map<string, seq<byte>>, cols: int, reply: Reply)
    requires NoNul(initial)
    ensures var e := Opened(entryId, initial, files);
            && e.Valid() && e.open && e.text == initial && e.cursor == |initial| && e.entryId == entryId
            && e.files == files && e.acks == []
            && Step(e, cols, Input(Idle, reply)) == e && (entryId > 0 ==> Step(e, cols, Input(Byte(19), reply)) == e)
            && Step(e, cols, Input(Byte(27), reply)) == e.(open := false)
  {
  }

  /** ESC leaves a clean editor, and only marks an unsaved one. */
  lemma {:induction false} EscapeKey(e: Editor, cols: int, reply: Reply)
    requires e.Valid() && e.open
    ensures Step(e, cols, Input(Byte(27), reply)) == if e.dirty == 0 then e.(open := false) else e.(dirty := -1)
  {
  }
}
