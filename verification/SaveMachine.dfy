/** Guarantees of the editor's save machine over whole sessions: what `dirty` means, that an entry is posted at
    most once, where the last attempted text is, and when ESC leaves. */
module SaveMachine {
  import opened Utf8
  import opened Decimal
  import opened EditorModel

  const ESC: Key := Byte(27)

  /** The text the server last acknowledged in this session, or the text the session began with. */
  function Settled(e: Editor, initial: seq<byte>): seq<byte> {
    if e.acks == [] then initial else e.acks[|e.acks| - 1].text
  }

  /** The acknowledged saves of a session: for a new entry one POST and then UPDATEs of the id it returned, for
      an existing entry UPDATEs of its id only. */
  ghost predicate OnePost(e: Editor, id0: cint) {
    if id0 > 0 then
      e.entryId == id0 && forall k | 0 <= k < |e.acks| :: e.acks[k].Updated? && e.acks[k].id == id0
    else if e.acks == [] then
      e.entryId == id0
    else
      && e.entryId > 0 && e.acks[0].Posted? && e.acks[0].id == e.entryId
      && forall k | 1 <= k < |e.acks| :: e.acks[k].Updated? && e.acks[k].id == e.entryId
  }

  ghost predicate SaveInv(e: Editor, id0: cint, initial: seq<byte>) {
    && e.Valid()
    && OnePost(e, id0)
    && (e.dirty == 0 ==> e.text == Settled(e, initial))
    && (!e.open ==> e.dirty == 0)
  }

  lemma {:induction false} SaveKeepsInv(e: Editor, id0: cint, initial: seq<byte>, reply: Reply)
    requires SaveInv(e, id0, initial)
    ensures SaveInv(Save(e, reply), id0, initial)
  {
    var s := Save(e, reply);
    if NetResult(e.entryId, reply) > 0 {
      assert s.acks[..|e.acks|] == e.acks;
    }
  }

  /** No id, file or history changes, and only a clean buffer stays clean or is left. */
  ghost predicate NotSaved(e: Editor, s: Editor) {
    && s.entryId == e.entryId && s.files == e.files && s.acks == e.acks && s.attempt == e.attempt
    && (s.dirty == 0 ==> e.dirty == 0 && s.text == e.text)
    && (!s.open ==> !e.open || s.dirty == 0)
  }

  lemma {:induction false} EditIsNotSaved(e: Editor, key: Key)
    requires e.Valid() && IsEdit(key)
    ensures NotSaved(e, PressEdit(e, key))
  {
  }

  lemma {:induction false} MoveIsNotSaved(e: Editor, cols: int, key: Key)
    requires e.Valid() && !IsCommand(key) && !IsEdit(key)
    ensures NotSaved(e, PressMove(e, cols, key))
  {
  }

  /** Every key either runs the save or leaves ids, files and history alone; without a save a buffer does not
      become clean, and only a clean one is left. */
  lemma {:induction false} StepShape(e: Editor, cols: int, i: Input)
    requires e.Valid()
    ensures Step(e, cols, i) == Save(e, i.reply) || NotSaved(e, Step(e, cols, i))
  {
    if IsEdit(i.key) {
      EditIsNotSaved(e, i.key);
    } else if !IsCommand(i.key) {
      MoveIsNotSaved(e, cols, i.key);
    }
  }

  lemma {:induction false} StepKeepsInv(e: Editor, cols: int, i: Input, id0: cint, initial: seq<byte>)
    requires SaveInv(e, id0, initial)
    ensures SaveInv(Step(e, cols, i), id0, initial)
  {
    StepValid(e, cols, i);
    StepShape(e, cols, i);
    SaveKeepsInv(e, id0, initial, i.reply);
    if !e.open {
      assert Step(e, cols, i) == e;
    }
  }

  /** In every state of every session, for every sequence of keys and replies: a clean buffer is the text the
      server has, an entry is posted once, and the editor is left only when there is nothing unsaved. */
  lemma {:induction false} SessionSafety(e: Editor, cols: int, inputs: seq<Input>, id0: cint, initial: seq<byte>)
    requires SaveInv(e, id0, initial)
    ensures SaveInv(Run(e, cols, inputs), id0, initial)
    decreases |inputs|
  {
    if inputs != [] {
      StepKeepsInv(e, cols, inputs[0], id0, initial);
      SessionSafety(Step(e, cols, inputs[0]), cols, inputs[1..], id0, initial);
    }
  }

  lemma {:induction false} SessionStartsSafe(id0: cint, initial: seq<byte>, files: map<string, seq<byte>>)
    requires NoNul(initial)
    ensures SaveInv(Opened(id0, initial, files), id0, initial)
  {
  }

  // ---------------------------------------------------------------------------------------------
  // Backups
  // ---------------------------------------------------------------------------------------------

  /** One attempt, exactly. The backup of the entry as it is afterwards exists when the attempt failed, or when a
      POST was given an id whose backup file was already there. */
  lemma {:induction false} BackupAfterAttempt(e: Editor, reply: Reply)
    ensures var s := Save(e, reply);
            var ok := NetResult(e.entryId, reply) > 0;
            && (BackupPath(s.entryId) in s.files
                <==> !ok || (e.entryId <= 0 && BackupPath(s.entryId) in e.files))
            && (!ok ==> s.entryId == e.entryId && s.files[BackupPath(e.entryId)] == e.text)
            && (ok ==> BackupPath(e.entryId) !in s.files)
            && SameFiles(s.files, e.files, {BackupPath(e.entryId)})
  {
    var newId := NetResult(e.entryId, reply);
    if newId > 0 {
      BackupPathInjective(newId, e.entryId);
    }
  }

  predicate SameFile(a: map<string, seq<byte>>, b: map<string, seq<byte>>, path: string) {
    if path in a then path in b && a[path] == b[path] else path !in b
  }

  ghost predicate SameFiles(a: map<string, seq<byte>>, b: map<string, seq<byte>>, but: set<string>) {
    forall path | path !in but :: SameFile(a, b, path)
  }

  /** A backup of this entry was there when the session began, and the last attempt was the POST that gave the entry
      its id: that POST wrote and removed the file of a new entry, and the old file stays until the next save. */
  ghost predicate LeftOver(e: Editor, files0: map<string, seq<byte>>) {
    e.attempt.Attempt? && e.attempt.path == BackupPath(0) && e.entryId > 0 && BackupPath(e.entryId) in files0
  }

  /** Where the attempted text is: with the server when the last attempt succeeded, and else in the backup of the
      current entry, which is there exactly when that attempt failed or the backup is a left-over. No file of another
      entry is touched. */
  ghost predicate BackupInv(e: Editor, id0: cint, files0: map<string, seq<byte>>) {
    && (e.attempt.Attempt? ==>
          && (BackupPath(e.entryId) in e.files <==> !e.attempt.ok || LeftOver(e, files0))
          && (!e.attempt.ok ==> e.files[BackupPath(e.entryId)] == e.attempt.text)
          && (e.attempt.ok ==> e.acks != [] && e.acks[|e.acks| - 1].text == e.attempt.text)
          && (LeftOver(e, files0) ==> SameFile(e.files, files0, BackupPath(e.entryId))))
    && (e.attempt.NoAttempt? ==> e.files == files0 && e.entryId == id0)
    && (e.entryId == id0 || id0 <= 0)
    && SameFiles(e.files, files0, {BackupPath(id0), BackupPath(e.entryId)})
  }

  lemma {:induction false} OpenedBackup(id0: cint, initial: seq<byte>, files0: map<string, seq<byte>>)
    ensures BackupInv(Opened(id0, initial, files0), id0, files0)
  {
  }

  lemma {:induction false} RunKeepsBackup(
    e: Editor, cols: int, inputs: seq<Input>, id0: cint, files0: map<string, seq<byte>>)
    requires e.Valid() && BackupInv(e, id0, files0)
    ensures BackupInv(Run(e, cols, inputs), id0, files0)
    decreases |inputs|
  {
    if inputs != [] {
      StepValid(e, cols, inputs[0]);
      StepKeepsBackup(e, cols, inputs[0], id0, files0);
      RunKeepsBackup(Step(e, cols, inputs[0]), cols, inputs[1..], id0, files0);
    }
  }

  /** In every state of every session, on any entry and from any files: once a save was attempted, the current entry's
      backup exists exactly when the last attempt failed or a file was left over from before, and after a failure it
      holds the text attempted. */
  lemma {:induction false} BackupSafety(
    id0: cint, initial: seq<byte>, files0: map<string, seq<byte>>, cols: int, inputs: seq<Input>)
    requires NoNul(initial)
    ensures var e := Run(Opened(id0, initial, files0), cols, inputs);
            && (e.attempt.Attempt? ==>
                  && (BackupPath(e.entryId) in e.files <==> !e.attempt.ok || LeftOver(e, files0))
                  && (!e.attempt.ok ==> e.files[BackupPath(e.entryId)] == e.attempt.text))
            && (e.attempt.NoAttempt? ==> e.files == files0)
            && SameFiles(e.files, files0, {BackupPath(id0), BackupPath(e.entryId)})
  {
    OpenedBackup(id0, initial, files0);
    RunKeepsBackup(Opened(id0, initial, files0), cols, inputs, id0, files0);
  }

  lemma {:induction false} StepKeepsBackup(e: Editor, cols: int, i: Input, id0: cint, files0: map<string, seq<byte>>)
    requires e.Valid() && BackupInv(e, id0, files0)
    ensures BackupInv(Step(e, cols, i), id0, files0)
  {
    SaveKeepsBackup(e, i.reply, id0, files0);
    StepShape(e, cols, i);
  }

  lemma {:induction false} SaveKeepsBackup(e: Editor, reply: Reply, id0: cint, files0: map<string, seq<byte>>)
    requires BackupInv(e, id0, files0)
    ensures BackupInv(Save(e, reply), id0, files0)
  {
    var s, newId := Save(e, reply), NetResult(e.entryId, reply);
    BackupAfterAttempt(e, reply);
    if e.entryId > 0 {
      BackupPathInjective(e.entryId, 0);
    }
    if newId > 0 && e.entryId <= 0 {
      BackupPathInjective(newId, e.entryId);
      BackupPathInjective(newId, id0);
      assert SameFile(e.files, files0, BackupPath(newId));
      assert SameFile(s.files, e.files, BackupPath(newId));
    }
    forall path | path !in {BackupPath(id0), BackupPath(s.entryId)}
      ensures SameFile(s.files, files0, path)
    {
      assert SameFile(s.files, e.files, path) && SameFile(e.files, files0, path);
    }
  }

  /** Such a session: a letter is typed into a new entry and saved under the id 1, and diary_1.tmp was there. */
  lemma {:induction false} LeftOverBackupStays(stale: seq<byte>)
    ensures var e := Run(Opened(0, [], map[BackupPath(1) := stale]), 80,
                         [Input(Byte(97), Refused), Input(KeyF2, Accepted(1))]);
            && e.attempt.Attempt? && e.attempt.ok && e.entryId == 1 && e.text == [97]
            && e.files == map[BackupPath(1) := stale]
  {
    var e0 := Opened(0, [], map[BackupPath(1) := stale]);
    var typed, saved := Input(Byte(97), Refused), Input(KeyF2, Accepted(1));
    var e1 := Step(e0, 80, typed);
    BackupPathInjective(1, 0);
    assert [typed, saved][1..] == [saved] && [saved][1..] == [];
    StepValid(e0, 80, typed);
    assert e1 == e0.(text := [97], cursor := 1, dirty := 1);
    assert Step(e1, 80, saved) == Save(e1, Accepted(1));
    assert Run(e0, 80, [typed, saved]) == Run(e1, 80, [saved]) == Run(Step(e1, 80, saved), 80, []);
  }

  // ---------------------------------------------------------------------------------------------
  // Leaving
  // ---------------------------------------------------------------------------------------------

  /** The only way out is ESC with nothing unsaved. */
  lemma {:induction false} LeavesExactly(e: Editor, cols: int, i: Input)
    requires e.Valid() && e.open
    ensures !Step(e, cols, i).open <==> i.key == ESC && e.dirty == 0
  {
  }

  /** The promise that a second ESC discards unsaved changes is not kept: no number of ESC presses leaves the
      editor or changes its text while there are unsaved changes. */
  lemma {:induction false} EscapeNeverDiscards(e: Editor, cols: int, escapes: seq<Input>)
    requires e.Valid() && e.open && e.dirty != 0
    requires forall i | i in escapes :: i.key == ESC
    ensures var r := Run(e, cols, escapes); r.open && r.dirty != 0 && r.text == e.text
    decreases |escapes|
  {
    if escapes != [] {
      assert escapes[0].key == ESC;
      StepValid(e, cols, escapes[0]);
      EscapeNeverDiscards(Step(e, cols, escapes[0]), cols, escapes[1..]);
    }
  }

  /** The shortest such session: type a letter, press ESC twice. */
  lemma {:induction false} SecondEscapeStays()
    ensures var inputs := [Input(Byte(97), Refused), Input(ESC, Refused), Input(ESC, Refused)];
            Run(Opened(0, [], map[]), 80, inputs).open
  {
    var e := Opened(0, [], map[]);
    var typed := [Input(Byte(97), Refused)];
    var escapes := [Input(ESC, Refused), Input(ESC, Refused)];
    RunConcat(e, 80, typed, escapes);
    var a := Step(e, 80, typed[0]);
    assert typed[1..] == [];
    assert Run(e, 80, typed) == a;
    EscapeNeverDiscards(a, 80, escapes);
    assert typed + escapes == [Input(Byte(97), Refused), Input(ESC, Refused), Input(ESC, Refused)];
  }

  /** What does leave: one acknowledged autosave and then ESC, with everything typed acknowledged. */
  lemma {:induction false} AutosaveThenEscapeLeaves(e: Editor, cols: int, id: cint, id0: cint, initial: seq<byte>)
    requires SaveInv(e, id0, initial) && e.open && id > 0
    ensures var r := Run(e, cols, [Input(Idle, Accepted(id)), Input(ESC, Refused)]);
            !r.open && r.text == e.text == Settled(r, initial)
  {
    var inputs := [Input(Idle, Accepted(id)), Input(ESC, Refused)];
    var a := Step(e, cols, inputs[0]);
    StepKeepsInv(e, cols, inputs[0], id0, initial);
    assert inputs[1..] == [inputs[1]];
    StepValid(a, cols, inputs[1]);
    assert [inputs[1]][1..] == [];
    assert Run(a, cols, [inputs[1]]) == Step(a, cols, inputs[1]);
  }
}
