/** The editor of client/ui.c as a state machine: one Step per key delivered by wgetch, with the reply that the
    network call got when the key caused a save. */
module EditorModel {
  import opened Utf8
  import opened Layout
  import opened Decimal
  import opened CStrings

  /** What wgetch delivers: a character code, a function key, a wheel event, or ERR after AUTOSAVE_MS of idling. */
  datatype Key =
    | Byte(b: byte)
    | KeyUp | KeyDown | KeyLeft | KeyRight | KeyHome | KeyEnd
    | KeyBackspace | KeyDelete | KeyEnter | KeyF2
    | Wheel(down: bool) | OtherKey
    | Idle

  /** The outcome of net_post_entry or net_update_entry. */
  datatype Reply = Refused | Accepted(id: cint)

  datatype Input = Input(key: Key, reply: Reply)

  /** Saves acknowledged by the server, in order. */
  datatype Ack = Posted(id: cint, text: seq<byte>) | Updated(id: cint, text: seq<byte>)

  /** The last save attempted: the backup file it used and whether the server acknowledged it. */
  datatype Attempt = NoAttempt | Attempt(path: string, text: seq<byte>, ok: bool)

  /** dirty is 0, 1, or -1 after a first ESC; files is the working directory; acks and attempt are history. */
  datatype Editor = Editor(
    text: seq<byte>, cursor: nat, dirty: int, entryId: cint, open: bool,
    files: map<string, seq<byte>>, acks: seq<Ack>, attempt: Attempt)
  {
    predicate Valid() {
      cursor <= |text| && -1 <= dirty <= 1 && NoNul(text)
    }
  }

  /** Editor texts are C strings. */
  predicate NoNul(s: seq<byte>) {
    forall i | 0 <= i < |s| :: s[i] != 0
  }

  function Opened(entryId: cint, initial: seq<byte>, files: map<string, seq<byte>>): Editor {
    Editor(initial, |initial|, 0, entryId, true, files, [], NoAttempt)
  }

  // ---------------------------------------------------------------------------------------------
  // Backup files
  // ---------------------------------------------------------------------------------------------

  function BackupPath(entryId: int): string {
    if entryId > 0 then Snprintf(64, "diary_" + Dec(entryId) + ".tmp") else Snprintf(64, "diary_new.tmp")
  }

  lemma {:induction false} NumberedPath(id: int)
    requires 0 < id <= INT_MAX
    ensures BackupPath(id) == "diary_" + Dec(id) + ".tmp" && BackupPath(id)[6] == Dec(id)[0] && IsDigit(Dec(id)[0])
    ensures BackupPath(id)[6..|BackupPath(id)| - 4] == Dec(id)
  {
    DecWidths(id);
    var path := "diary_" + Dec(id) + ".tmp";
    assert path[6..|path| - 4] == Dec(id) && path[6] == Dec(id)[0];
    assert Dec(id)[0] in Dec(id);
  }

  /** Different entries have different backup files, and none has that of a new entry. */
  lemma {:induction false} BackupPathInjective(a: int, b: int)
    requires 0 < a <= INT_MAX
    ensures b <= 0 ==> BackupPath(a) != BackupPath(b)
    ensures 0 < b <= INT_MAX && BackupPath(a) == BackupPath(b) ==> a == b
  {
    NumberedPath(a);
    if b <= 0 {
      assert BackupPath(b)[6] == 'n';
    } else if b <= INT_MAX && BackupPath(a) == BackupPath(b) {
      NumberedPath(b);
      DecInjective(a, b);
    }
  }

  // ---------------------------------------------------------------------------------------------
  // Edits and movements
  // ---------------------------------------------------------------------------------------------

  function Insert(e: Editor, b: byte): (r: Editor)
    requires e.Valid() && b != 0
    ensures r.Valid()
  {
    e.(text := e.text[..e.cursor] + [b] + e.text[e.cursor..], cursor := e.cursor + 1, dirty := 1)
  }

  function Backspace(e: Editor): (r: Editor)
    requires e.Valid()
    ensures r.Valid()
  {
    if e.cursor == 0 then e else
      var start := PrevBoundary(e.text, e.cursor);
      e.(text := e.text[..start] + e.text[e.cursor..], cursor := start, dirty := 1)
  }

  function Delete(e: Editor): (r: Editor)
    requires e.Valid()
    ensures r.Valid()
  {
    if e.cursor == |e.text| then e else
      e.(text := e.text[..e.cursor] + e.text[NextBoundary(e.text, e.cursor + 1)..], dirty := 1)
  }

  function Left(e: Editor): (r: Editor)
    requires e.Valid()
    ensures r.Valid()
  {
    if e.cursor == 0 then e else e.(cursor := PrevBoundary(e.text, e.cursor))
  }

  function Right(e: Editor): (r: Editor)
    requires e.Valid()
    ensures r.Valid()
  {
    if e.cursor == |e.text| then e else e.(cursor := NextBoundary(e.text, e.cursor + 1))
  }

  datatype Vertical = GoUp | GoDown | GoHome | GoEnd

  /** The visual position asked for by a vertical key when the cursor is at p. */
  function Aim(v: Vertical, p: Pos, cols: int): Pos {
    match v
    case GoUp => Pos(p.row - 1, p.col)
    case GoDown => Pos(p.row + 1, p.col)
    case GoHome => Pos(p.row, 0)
    case GoEnd => Pos(p.row, cols)
  }

  ghost function Vertically(e: Editor, cols: int, v: Vertical): (r: Editor)
    requires e.Valid()
    ensures r.Valid()
  {
    var p := PosAt(e.text, cols, e.cursor);
    if v.GoUp? && p.row <= 0 then e else e.(cursor := Target(e.text, cols, Aim(v, p, cols)))
  }

  // ---------------------------------------------------------------------------------------------
  // Saving and leaving
  // ---------------------------------------------------------------------------------------------

  /** new_id: net_update_entry gives back the id it was given, net_post_entry the id in the reply. */
  function NetResult(entryId: cint, reply: Reply): cint {
    match reply
    case Refused => -1
    case Accepted(id) => if entryId > 0 then entryId else id
  }

  function Save(e: Editor, reply: Reply): Editor {
    var path := BackupPath(e.entryId);
    var newId := NetResult(e.entryId, reply);
    var tried := e.(files := e.files[path := e.text], attempt := Attempt(path, e.text, newId > 0));
    if newId > 0 then
      tried.(files := tried.files - {path}, dirty := 0, entryId := if e.entryId <= 0 then newId else e.entryId,
             acks := e.acks + [if e.entryId > 0 then Updated(e.entryId, e.text) else Posted(newId, e.text)])
    else tried
  }

  /** Ctrl+S, F2 and Ctrl+W. */
  function SaveKey(e: Editor, reply: Reply): Editor {
    if e.dirty == 0 && e.entryId > 0 then e else Save(e, reply)
  }

  /** ESC: the test of `dirty` comes first, so a second ESC does not discard. */
  function Escape(e: Editor): Editor {
    if e.dirty != 0 then e.(dirty := -1) else e.(open := false)
  }

  // ---------------------------------------------------------------------------------------------
  // One key
  // ---------------------------------------------------------------------------------------------

  predicate IsPrint(b: byte) { 32 <= b <= 126 }

  /** Keys that save or leave, and idling. */
  predicate IsCommand(key: Key) {
    key.Idle? || key.KeyF2? || (key.Byte? && key.b in {19, 23, 27})
  }

  /** Keys that edit the text, and bytes that do nothing. */
  predicate IsEdit(key: Key) {
    key.KeyBackspace? || key.KeyDelete? || key.KeyEnter? || (key.Byte? && key.b !in {19, 23, 27})
  }

  function PressCommand(e: Editor, key: Key, reply: Reply): Editor
    requires e.Valid() && IsCommand(key)
  {
    if key.Idle? then (if e.dirty == 0 then e else SaveKey(e, reply))
    else if key.KeyF2? || key.b != 27 then SaveKey(e, reply)
    else Escape(e)
  }

  function PressEdit(e: Editor, key: Key): (r: Editor)
    requires e.Valid() && IsEdit(key)
    ensures r.Valid()
  {
    if key.KeyBackspace? then Backspace(e)
    else if key.KeyDelete? then Delete(e)
    else if key.KeyEnter? then Insert(e, NEWLINE)
    else if key.b == 127 || key.b == 8 then Backspace(e)
    else if key.b == 10 || key.b == 13 then Insert(e, NEWLINE)
    else if IsPrint(key.b) || key.b >= 0x80 then Insert(e, key.b)
    else e
  }

  ghost function PressMove(e: Editor, cols: int, key: Key): (r: Editor)
    requires e.Valid() && !IsCommand(key) && !IsEdit(key)
    ensures r.Valid()
  {
    match key
    case KeyUp => Vertically(e, cols, GoUp)
    case KeyDown => Vertically(e, cols, GoDown)
    case KeyHome => Vertically(e, cols, GoHome)
    case KeyEnd => Vertically(e, cols, GoEnd)
    case KeyLeft => Left(e)
    case KeyRight => Right(e)
    case _ => e
  }

  ghost function Press(e: Editor, cols: int, key: Key, reply: Reply): Editor
    requires e.Valid()
  {
    if IsCommand(key) then PressCommand(e, key, reply)
    else if IsEdit(key) then PressEdit(e, key)
    else PressMove(e, cols, key)
  }

  ghost function Step(e: Editor, cols: int, i: Input): Editor
    requires e.Valid()
  {
    if e.open then Press(e, cols, i.key, i.reply) else e
  }

  lemma {:induction false} StepValid(e: Editor, cols: int, i: Input)
    requires e.Valid()
    ensures Step(e, cols, i).Valid()
  {
  }

  /** The editor after a whole run. */
  ghost function Run(e: Editor, cols: int, inputs: seq<Input>): (r: Editor)
    requires e.Valid()
    ensures r.Valid()
    decreases |inputs|
  {
    if inputs == [] then e else
      StepValid(e, cols, inputs[0]);
      Run(Step(e, cols, inputs[0]), cols, inputs[1..])
  }

  lemma {:induction false} RunConcat(e: Editor, cols: int, a: seq<Input>, b: seq<Input>)
    requires e.Valid()
    ensures Run(e, cols, a + b) == Run(Run(e, cols, a), cols, b)
    decreases |a|
  {
    if a == [] {
      assert a + b == b;
    } else {
      StepValid(e, cols, a[0]);
      assert (a + b)[1..] == a[1..] + b;
      RunConcat(Step(e, cols, a[0]), cols, a[1..], b);
    }
  }

  /** Once the editor is left nothing changes any more. */
  lemma {:induction false} ClosedStays(e: Editor, cols: int, inputs: seq<Input>)
    requires e.Valid() && (inputs == [] || !e.open)
    ensures Run(e, cols, inputs) == e
    decreases |inputs|
  {
    if inputs != [] {
      ClosedStays(e, cols, inputs[1..]);
    }
  }
}
