/** What is left of the text when the editor of client/ui.c dies in the middle of a save, at any point between the
    writing of the backup and its removal. */
module CrashSafety {
  import opened Options
  import opened Utf8
  import opened Decimal
  import opened EditorModel
  import opened SaveMachine

  /** How far a save has got: nothing done; the backup file opened, which empties it, and n bytes of the text in it; the
      call executed by the server; the backup removed. */
  datatype Point = Before | Writing(n: nat) | Executed | Removed

  predicate IsPoint(e: Editor, p: Point) {
    p.Writing? ==> p.n <= |e.text|
  }

  /** The files on disk at that point. */
  function FilesAt(e: Editor, p: Point): map<string, seq<byte>>
    requires IsPoint(e, p)
  {
    match p
    case Before => e.files
    case Writing(n) => e.files[BackupPath(e.entryId) := e.text[..n]]
    case Executed => e.files[BackupPath(e.entryId) := e.text]
    case Removed => e.files - {BackupPath(e.entryId)}
  }

  /** The text of the entry on the server at that point; server is what it was before. */
  function ServerAt(e: Editor, p: Point, server: Option<seq<byte>>): Option<seq<byte>> {
    if p.Executed? || p.Removed? then Some(e.text) else server
  }

  /** The point at which a save ends. When the server confirms a call it has executed it; when it does not confirm it,
      it may have done so all the same. */
  function LastPoint(e: Editor, executed: bool, reply: Reply): Point {
    if NetResult(e.entryId, reply) > 0 then Removed else if executed then Executed else Writing(|e.text|)
  }

  /** The points are those of the save. */
  lemma {:induction false} PointsEndInSave(e: Editor, executed: bool, reply: Reply)
    ensures IsPoint(e, LastPoint(e, executed, reply))
    ensures FilesAt(e, LastPoint(e, executed, reply)) == Save(e, reply).files
  {
    assert e.text[..|e.text|] == e.text;
  }

  /** The text is in the backup of the entry or on the server. */
  predicate Survives(text: seq<byte>, e: Editor, p: Point, server: Option<seq<byte>>)
    requires IsPoint(e, p)
  {
    var path, files := BackupPath(e.entryId), FilesAt(e, p);
    (path in files && files[path] == text) || ServerAt(e, p, server) == Some(text)
  }

  /** In every session, between the saves and at every point of a save from the moment the backup is written: the text
      whose save was attempted last survives. While the backup is being written, the file is emptied before the new text
      is in it, and exactly then a text that the server does not have can be lost, the old one and the new one. */
  lemma {:induction false} LastAttemptSurvivesIff(
    id0: cint, initial: seq<byte>, files0: map<string, seq<byte>>, cols: int, inputs: seq<Input>, p: Point,
    server: Option<seq<byte>>)
    requires NoNul(initial)
    requires var e := Run(Opened(id0, initial, files0), cols, inputs);
             IsPoint(e, p) && (e.attempt.Attempt? && e.attempt.ok ==> server == Some(e.attempt.text))
    ensures var e := Run(Opened(id0, initial, files0), cols, inputs);
            && (p.Before? && e.attempt.Attempt? ==> Survives(e.attempt.text, e, p, server))
            && (p.Executed? || p.Removed? ==> Survives(e.text, e, p, server))
            && (p.Writing? ==> (Survives(e.text, e, p, server) <==> p.n == |e.text| || server == Some(e.text)))
            && (p.Writing? && e.attempt.Attempt? ==>
                  (Survives(e.attempt.text, e, p, server)
                   <==> e.text[..p.n] == e.attempt.text || server == Some(e.attempt.text)))
  {
    var e := Run(Opened(id0, initial, files0), cols, inputs);
    BackupSafety(id0, initial, files0, cols, inputs);
    if p.Writing? {
      assert e.text[..|e.text|] == e.text;
      assert |e.text[..p.n]| == p.n;
    }
  }

  /** A letter, a save that fails, and another letter. */
  lemma {:induction false} LetterFailureLetter()
    ensures Run(Opened(0, [], map[]), 80,
                [Input(Byte(97), Refused), Input(KeyF2, Refused), Input(Byte(98), Refused)])
            == Editor([97, 98], 2, 1, 0, true, map[BackupPath(0) := [97]], [], Attempt(BackupPath(0), [97], false))
  {
    var e0, a, f, b := Opened(0, [], map[]), Input(Byte(97), Refused), Input(KeyF2, Refused), Input(Byte(98), Refused);
    var e1 := Step(e0, 80, a);
    assert e1 == e0.(text := [97], cursor := 1, dirty := 1);
    var e2 := Step(e1, 80, f);
    assert e2 == Save(e1, Refused);
    var e3 := Step(e2, 80, b);
    assert e3 == e2.(text := [97, 98], cursor := 2, dirty := 1);
    assert [a, f, b][1..] == [f, b] && [f, b][1..] == [b] && [b][1..] == [];
    assert Run(e0, 80, [a, f, b]) == Run(e1, 80, [f, b]) == Run(e2, 80, [b]) == Run(e3, 80, []);
  }

  /** The text of a failed save is lost when the client dies as the next save opens the backup: after that session
      the server has nothing, the backup has the first letter, and a save that is cut off leaves neither text. */
  lemma {:induction false} RewritingLosesBackup(e: Editor)
    requires e == Run(Opened(0, [], map[]), 80,
                      [Input(Byte(97), Refused), Input(KeyF2, Refused), Input(Byte(98), Refused)])
    ensures e.text == [97, 98] && e.attempt == Attempt(BackupPath(0), [97], false) && e.acks == []
    ensures Survives([97], e, Before, None)
    ensures !Survives([97], e, Writing(0), None) && !Survives([97, 98], e, Writing(0), None)
  {
    LetterFailureLetter();
  }
}
