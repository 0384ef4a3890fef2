/** The editor on top of the whole system: a session of client/ui.c whose saves go through net.c, the wire and the
    children of the server, while other clients of the same user, and other users, do what they like in between, even
    between the commit of a save and its reply. */
module SavedText {
  import opened Utf8
  import opened Decimal
  import opened EditorModel
  import opened SaveMachine
  import opened Handler
  import opened Client
  import opened Stack
  import C = Children
  import E = EndToEnd
  import I = Isolation
  import K = Keys
  import O = Options
  import T = Tables

  /** The bytes of a text as the diary's characters. */
  function Chars(s: seq<byte>): string {
    seq(|s|, i requires 0 <= i < |s| => s[i] as char)
  }

  /** The key makes the editor call the server. */
  predicate TriesSave(e: Editor, key: Key) {
    e.open && K.Saves(e, key)
  }

  /** The call saves the text on the screen: an UPDATE of the entry's id if it has one, else a POST. */
  predicate IsSave(e: Editor, c: Call) {
    if e.entryId > 0 then c.UpdateCall? && c.id == e.entryId && c.text == Chars(e.text)
    else c.PostCall? && c.text == Chars(e.text)
  }

  function ReplyOf(r: Result): Reply {
    if r.Number? && r.n > 0 then Accepted(r.n) else Refused
  }

  /** The diary has the text that was acknowledged last, under the id that the editor holds. */
  ghost predicate InDiary(e: Editor, m: Diary, initial: seq<byte>) {
    e.entryId > 0 ==> e.entryId as int in m && m[e.entryId as int].text == Chars(Settled(e, initial))
  }

  /** A save whose operation has been done leaves the editor and the diary in agreement, whatever came of it. */
  lemma {:induction false} SaveStores(
    e: Editor, m: Diary, id0: cint, initial: seq<byte>, c: Call, last: int, ch: Choice, r: Result, m': Diary)
    requires SaveInv(e, id0, initial) && InDiary(e, m, initial) && IsSave(e, c)
    requires DiaryOp(m, last, c, ch, r, m')
    ensures InDiary(Save(e, ReplyOf(r)), m', initial)
  {
  }

  predicate Touches(c: Call, id: int) {
    (c.UpdateCall? || c.DeleteCall?) && c.id == id
  }

  lemma {:induction false} OtherKeeps(
    e: Editor, m: Diary, initial: seq<byte>, c: Call, last: int, ch: Choice, r: Result, m': Diary)
    requires InDiary(e, m, initial) && DiaryOp(m, last, c, ch, r, m') && !Touches(c, e.entryId)
    ensures InDiary(e, m', initial)
  {
  }

  /** A key that calls the server runs the save, and no other does. */
  lemma {:induction false} OnlyTriedSaves(e: Editor, cols: int, key: Key, reply: Reply)
    requires e.Valid()
    ensures TriesSave(e, key) ==> Step(e, cols, Input(key, reply)) == Save(e, reply)
    ensures !TriesSave(e, key) ==> NotSaved(e, Step(e, cols, Input(key, reply)))
  {
    if IsEdit(key) {
      EditIsNotSaved(e, key);
    } else if !IsCommand(key) {
      MoveIsNotSaved(e, cols, key);
    }
  }

  // ---------------------------------------------------------------------------------------------
  // The session
  // ---------------------------------------------------------------------------------------------

  /** The editor as client k of the system, and the key it is serving while it waits for the reply to a save. */
  datatype Session = Session(sys: E.System, e: Editor, waiting: Keys)

  datatype Keys = NoKey | Serving(key: Key, call: Call)

  /** A key is pressed, with the call that is sent if it makes the editor save; anything else happens in the system; or
      the editor looks whether its reply is there. */
  datatype Move = Press(key: Key, call: Call) | Elsewhere(a: E.Action) | Look

  /** What the session is about: the number of the client, the screen, the user, and how data is unsealed. */
  datatype Setting = Setting(k: nat, cols: int, user: string, unseal: Unseal)

  predicate CanSend(g: Setting, s: Session, call: Call)
    requires E.Mine(s.sys, g.k, g.user)
  {
    IsSave(s.e, call) && LegalCall(call, g.unseal)
    && s.sys.s.kids[g.k].phase.Ready? && s.sys.peers[g.k].waiting.None?
  }

  ghost function Pressed(g: Setting, s: Session, key: Key, call: Call): Session
    requires s.e.Valid() && E.Mine(s.sys, g.k, g.user)
  {
    if !TriesSave(s.e, key) then s.(e := Step(s.e, g.cols, Input(key, Refused)))
    else if CanSend(g, s, call) then s.(sys := E.Begun(s.sys, g.k, call), waiting := Serving(key, call))
    else s
  }

  /** The calls and returns of client k are the editor's own. */
  predicate IsOwn(g: Setting, a: E.Action) {
    (a.Begin? || a.Finish?) && a.kid == g.k
  }

  ghost function Looked(g: Setting, s: Session): Session
    requires s.e.Valid() && E.Mine(s.sys, g.k, g.user)
  {
    var p := E.Returned(s.sys.s.kids[g.k], s.sys.peers[g.k], g.unseal);
    if s.waiting.NoKey? || p.waiting.Some? || p.done == [] then s
    else Session(s.sys.(peers := s.sys.peers[g.k := p]),
                 Step(s.e, g.cols, Input(s.waiting.key, ReplyOf(p.done[|p.done| - 1]))), NoKey)
  }

  /** While the editor waits it takes no key. */
  ghost function Moved(g: Setting, s: Session, move: Move): Session
    requires s.e.Valid() && E.Mine(s.sys, g.k, g.user)
  {
    match move
    case Press(key, call) => if s.waiting.NoKey? then Pressed(g, s, key, call) else s
    case Elsewhere(a) => if IsOwn(g, a) then s else s.(sys := E.Act(s.sys, g.user, g.unseal, a))
    case Look => Looked(g, s)
  }

  function Results(g: Setting, s: Session): seq<Result> {
    E.ResultsOf(s.sys.trace, |s.sys.trace|, g.k)
  }

  /** The editor as it will be when it has heard of everything that was done for it. */
  ghost function Settling(g: Setting, s: Session): Editor
    requires s.e.Valid() && E.Mine(s.sys, g.k, g.user)
  {
    var results := Results(g, s);
    if s.waiting.Serving? && results != [] && s.sys.peers[g.k].done != results
    then Save(s.e, ReplyOf(results[|results| - 1])) else s.e
  }

  /** No other client of the user commits an UPDATE or DELETE of the entry being edited. */
  ghost predicate LeavesAlone(g: Setting, s: Session, move: Move)
    requires s.e.Valid() && E.Mine(s.sys, g.k, g.user)
  {
    move.Elsewhere? && E.Commits(s.sys, g.user, move.a) && move.a.kid != g.k ==>
      !Touches(s.sys.peers[move.a.kid].waiting.value, Settling(g, s).entryId)
  }

  ghost predicate SessionInv(g: Setting, s: Session, m0: Diary, id0: cint, initial: seq<byte>) {
    && E.SystemInv(s.sys, g.user, g.unseal, m0) && E.Mine(s.sys, g.k, g.user)
    && Agrees(g, s, Decoded(s.sys.s.t, g.user, g.unseal), id0, initial)
  }

  /** The editor, when it has settled, agrees with the diary. */
  ghost predicate Agrees(g: Setting, s: Session, m: Diary, id0: cint, initial: seq<byte>)
    requires E.Mine(s.sys, g.k, g.user)
  {
    SaveInv(s.e, id0, initial) && InDiary(Settling(g, s), m, initial) && WaitsFor(s.waiting, s.e, s.sys.peers[g.k])
  }

  /** The editor waits exactly while its client does, for a save of the text on the screen. */
  predicate WaitsFor(waiting: Keys, e: Editor, p: E.Peer) {
    match waiting
    case NoKey => p.waiting.None?
    case Serving(key, call) => p.waiting == O.Some(call) && TriesSave(e, key) && IsSave(e, call)
  }

  // ---------------------------------------------------------------------------------------------
  // Every move keeps it
  // ---------------------------------------------------------------------------------------------

  /** Without a call the acknowledged text, and the id, stay. */
  lemma {:induction false} NotSavedInDiary(e: Editor, e': Editor, m: Diary, initial: seq<byte>)
    requires InDiary(e, m, initial) && NotSaved(e, e')
    ensures InDiary(e', m, initial)
  {
  }

  lemma {:induction false} QuietKeyKeeps(g: Setting, s: Session, m0: Diary, id0: cint, initial: seq<byte>, key: Key)
    requires SessionInv(g, s, m0, id0, initial) && s.waiting.NoKey? && !TriesSave(s.e, key)
    ensures SessionInv(g, s.(e := Step(s.e, g.cols, Input(key, Refused))), m0, id0, initial)
  {
    StepKeepsInv(s.e, g.cols, Input(key, Refused), id0, initial);
    OnlyTriedSaves(s.e, g.cols, key, Refused);
    NotSavedInDiary(s.e, Step(s.e, g.cols, Input(key, Refused)), Decoded(s.sys.s.t, g.user, g.unseal), initial);
  }

  lemma {:induction false} SendAgrees(
    g: Setting, s: Session, m: Diary, id0: cint, initial: seq<byte>, key: Key, call: Call)
    requires E.Mine(s.sys, g.k, g.user) && Agrees(g, s, m, id0, initial)
    requires s.waiting.NoKey? && TriesSave(s.e, key) && IsSave(s.e, call) && s.sys.peers[g.k].done == Results(g, s)
    ensures var s' := s.(sys := E.Begun(s.sys, g.k, call), waiting := Serving(key, call));
            E.Mine(s'.sys, g.k, g.user) && Agrees(g, s', m, id0, initial)
  {
  }

  lemma {:induction false} SendKeeps(
    g: Setting, s: Session, m0: Diary, id0: cint, initial: seq<byte>, key: Key, call: Call)
    requires SessionInv(g, s, m0, id0, initial) && s.waiting.NoKey? && TriesSave(s.e, key) && CanSend(g, s, call)
    ensures SessionInv(g, s.(sys := E.Begun(s.sys, g.k, call), waiting := Serving(key, call)), m0, id0, initial)
  {
    E.BeginKeepsInv(s.sys, g.user, g.unseal, m0, g.k, call);
    E.PeerHasHeard(s.sys, g.user, g.unseal, m0, g.k);
    SendAgrees(g, s, Decoded(s.sys.s.t, g.user, g.unseal), id0, initial, key, call);
  }

  /** The reply is heard: the editor becomes what it was settling to. */
  lemma {:induction false} LookAgrees(g: Setting, s: Session, m: Diary, id0: cint, initial: seq<byte>)
    requires E.Mine(s.sys, g.k, g.user) && Agrees(g, s, m, id0, initial) && s.waiting.Serving?
    requires var p := E.Returned(s.sys.s.kids[g.k], s.sys.peers[g.k], g.unseal);
             p.waiting.None? ==> p.done == Results(g, s) && s.sys.peers[g.k].done != Results(g, s)
    ensures E.Mine(Looked(g, s).sys, g.k, g.user) && Agrees(g, Looked(g, s), m, id0, initial)
  {
    var p := E.Returned(s.sys.s.kids[g.k], s.sys.peers[g.k], g.unseal);
    if p.waiting.None? && p.done != [] {
      SettlesToSave(s.e, g.cols, s.waiting.key, ReplyOf(p.done[|p.done| - 1]), id0, initial);
      assert Looked(g, s).e == Settling(g, s) && Settling(g, Looked(g, s)) == Looked(g, s).e;
    }
  }

  lemma {:induction false} LookKeeps(g: Setting, s: Session, m0: Diary, id0: cint, initial: seq<byte>)
    requires SessionInv(g, s, m0, id0, initial) && s.waiting.Serving?
    ensures SessionInv(g, Looked(g, s), m0, id0, initial)
  {
    HearsLast(g, s, m0);
    E.FinishKeepsInv(s.sys, g.user, g.unseal, m0, g.k);
    LookAgrees(g, s, Decoded(s.sys.s.t, g.user, g.unseal), id0, initial);
    assert Looked(g, s).sys.s == s.sys.s;
  }

  lemma {:induction false} HearsLast(g: Setting, s: Session, m0: Diary)
    requires E.SystemInv(s.sys, g.user, g.unseal, m0) && E.Mine(s.sys, g.k, g.user) && s.sys.peers[g.k].waiting.Some?
    ensures var p := E.Returned(s.sys.s.kids[g.k], s.sys.peers[g.k], g.unseal);
            p.waiting.None? ==> p.done == Results(g, s) && s.sys.peers[g.k].done != Results(g, s)
  {
    assert E.PeerOk(s.sys.s.kids[g.k], s.sys.peers[g.k], s.sys.trace, g.k, g.user, g.unseal);
    E.ReturnHearsResult(s.sys.s.kids[g.k], s.sys.peers[g.k], s.sys.trace, g.k, g.user, g.unseal);
  }

  lemma {:induction false} SettlesToSave(e: Editor, cols: int, key: Key, reply: Reply, id0: cint, initial: seq<byte>)
    requires SaveInv(e, id0, initial) && TriesSave(e, key)
    ensures Step(e, cols, Input(key, reply)) == Save(e, reply) && SaveInv(Save(e, reply), id0, initial)
  {
    SaveKeepsInv(e, id0, initial, reply);
    OnlyTriedSaves(e, cols, key, reply);
  }

  lemma {:induction false} QuietAgrees(
    g: Setting, s: Session, sys: E.System, m: Diary, id0: cint, initial: seq<byte>)
    requires E.Mine(s.sys, g.k, g.user) && Agrees(g, s, m, id0, initial) && E.Mine(sys, g.k, g.user)
    requires sys.trace == s.sys.trace && sys.peers[g.k] == s.sys.peers[g.k]
    ensures Agrees(g, s.(sys := sys), m, id0, initial)
  {
    assert Settling(g, s.(sys := sys)) == Settling(g, s);
  }

  /** Something else happens that commits nothing of the user's. */
  lemma {:induction false} QuietActKeeps(g: Setting, s: Session, m0: Diary, id0: cint, initial: seq<byte>, a: E.Action)
    requires SessionInv(g, s, m0, id0, initial) && !IsOwn(g, a) && !E.Commits(s.sys, g.user, a)
    requires E.SystemInv(E.Act(s.sys, g.user, g.unseal, a), g.user, g.unseal, m0)
    ensures SessionInv(g, s.(sys := E.Act(s.sys, g.user, g.unseal, a)), m0, id0, initial)
  {
    E.ActTrace(s.sys, g.user, g.unseal, a);
    E.ActPeer(s.sys, g.user, g.unseal, a, g.k);
    E.ActStaysMine(s.sys, g.user, g.unseal, a, g.k);
    E.ActDiary(s.sys, g.user, g.unseal, m0, a);
    QuietAgrees(g, s, E.Act(s.sys, g.user, g.unseal, a), Decoded(s.sys.s.t, g.user, g.unseal), id0, initial);
  }

  /** An operation of another client that does not touch the entry. */
  lemma {:induction false} OtherCommitAgrees(
    g: Setting, s: Session, sys: E.System, m: Diary, m': Diary, id0: cint, initial: seq<byte>, op: E.Operation)
    requires E.Mine(s.sys, g.k, g.user) && Agrees(g, s, m, id0, initial) && E.Mine(sys, g.k, g.user)
    requires sys.trace == s.sys.trace + [op] && sys.peers[g.k] == s.sys.peers[g.k] && op.kid != g.k
    requires DiaryOp(m, op.last, op.call, op.ch, op.result, m') && !Touches(op.call, Settling(g, s).entryId)
    ensures Agrees(g, s.(sys := sys), m', id0, initial)
  {
    E.ResultsGrow(s.sys.trace, op, g.k);
    assert Results(g, s) + [] == Results(g, s);
    assert Settling(g, s.(sys := sys)) == Settling(g, s);
    OtherKeeps(Settling(g, s), m, initial, op.call, op.last, op.ch, op.result, m');
  }

  /** The editor's own save. */
  lemma {:induction false} OwnCommitAgrees(
    g: Setting, s: Session, sys: E.System, m: Diary, m': Diary, id0: cint, initial: seq<byte>, op: E.Operation)
    requires E.Mine(s.sys, g.k, g.user) && Agrees(g, s, m, id0, initial) && E.Mine(sys, g.k, g.user)
    requires sys.trace == s.sys.trace + [op] && sys.peers[g.k] == s.sys.peers[g.k] && op.kid == g.k
    requires s.waiting.Serving? && op.call == s.waiting.call && s.sys.peers[g.k].done == Results(g, s)
    requires DiaryOp(m, op.last, op.call, op.ch, op.result, m')
    ensures Agrees(g, s.(sys := sys), m', id0, initial)
  {
    E.ResultsGrow(s.sys.trace, op, g.k);
    assert |Results(g, s) + [op.result]| != |Results(g, s)|;
    assert Settling(g, s) == s.e && Settling(g, s.(sys := sys)) == Save(s.e, ReplyOf(op.result));
    SaveStores(s.e, m, id0, initial, op.call, op.last, op.ch, op.result, m');
  }

  /** The server commits a call of one of the user's clients. */
  lemma {:induction false} CommitKeeps(g: Setting, s: Session, m0: Diary, id0: cint, initial: seq<byte>, a: E.Action)
    requires SessionInv(g, s, m0, id0, initial) && E.Commits(s.sys, g.user, a)
    requires a.kid != g.k ==> !Touches(s.sys.peers[a.kid].waiting.value, Settling(g, s).entryId)
    requires E.SystemInv(E.Act(s.sys, g.user, g.unseal, a), g.user, g.unseal, m0)
    ensures SessionInv(g, s.(sys := E.Act(s.sys, g.user, g.unseal, a)), m0, id0, initial)
  {
    var sys', op := E.Act(s.sys, g.user, g.unseal, a), E.Commit(s.sys, a.kid, a.ch, g.user, g.unseal);
    var m, m' := Decoded(s.sys.s.t, g.user, g.unseal), Decoded(sys'.s.t, g.user, g.unseal);
    E.ActTrace(s.sys, g.user, g.unseal, a);
    E.ActPeer(s.sys, g.user, g.unseal, a, g.k);
    E.ActStaysMine(s.sys, g.user, g.unseal, a, g.k);
    E.ActDiary(s.sys, g.user, g.unseal, m0, a);
    if a.kid == g.k {
      E.PeerHasHeard(s.sys, g.user, g.unseal, m0, g.k);
      OwnCommitAgrees(g, s, sys', m, m', id0, initial, op);
    } else {
      OtherCommitAgrees(g, s, sys', m, m', id0, initial, op);
    }
  }

  lemma {:induction false} MoveKeeps(g: Setting, s: Session, m0: Diary, id0: cint, initial: seq<byte>, move: Move)
    requires SessionInv(g, s, m0, id0, initial) && LeavesAlone(g, s, move)
    requires Moved(g, s, move).sys.s.t.nextId <= INT_MAX + 1
    ensures SessionInv(g, Moved(g, s, move), m0, id0, initial)
  {
    match move
    case Press(key, call) =>
      if s.waiting.NoKey? {
        if !TriesSave(s.e, key) {
          QuietKeyKeeps(g, s, m0, id0, initial, key);
        } else if CanSend(g, s, call) {
          SendKeeps(g, s, m0, id0, initial, key, call);
        }
      }
    case Elsewhere(a) =>
      if !IsOwn(g, a) {
        E.ActKeepsInv(s.sys, g.user, g.unseal, m0, a);
        if E.Commits(s.sys, g.user, a) {
          CommitKeeps(g, s, m0, id0, initial, a);
        } else {
          QuietActKeeps(g, s, m0, id0, initial, a);
        }
      }
    case Look =>
      if s.waiting.Serving? { LookKeeps(g, s, m0, id0, initial); }
  }

  // ---------------------------------------------------------------------------------------------
  // Runs
  // ---------------------------------------------------------------------------------------------

  /** The session stays one of client k. */
  lemma {:induction false} MovedIsMine(g: Setting, s: Session, move: Move)
    requires s.e.Valid() && E.Mine(s.sys, g.k, g.user)
    ensures Moved(g, s, move).e.Valid() && E.Mine(Moved(g, s, move).sys, g.k, g.user)
    ensures Moved(g, s, move).sys.s.t.nextId >= s.sys.s.t.nextId
  {
    match move
    case Press(key, call) => StepValid(s.e, g.cols, Input(key, Refused));
    case Elsewhere(a) =>
      if !IsOwn(g, a) {
        E.ActStaysMine(s.sys, g.user, g.unseal, a, g.k);
        E.ActNextId(s.sys, g.user, g.unseal, a);
      }
    case Look =>
      var p := E.Returned(s.sys.s.kids[g.k], s.sys.peers[g.k], g.unseal);
      if s.waiting.Serving? && p.waiting.None? && p.done != [] {
        StepValid(s.e, g.cols, Input(s.waiting.key, ReplyOf(p.done[|p.done| - 1])));
      }
  }

  ghost function Played(g: Setting, s: Session, moves: seq<Move>): Session
    requires s.e.Valid() && E.Mine(s.sys, g.k, g.user)
    decreases |moves|
  {
    if moves == [] then s else
      MovedIsMine(g, s, moves[0]);
      Played(g, Moved(g, s, moves[0]), moves[1..])
  }

  ghost predicate LeftAlone(g: Setting, s: Session, moves: seq<Move>)
    requires s.e.Valid() && E.Mine(s.sys, g.k, g.user)
    decreases |moves|
  {
    moves == [] ||
    (LeavesAlone(g, s, moves[0]) && (MovedIsMine(g, s, moves[0]); LeftAlone(g, Moved(g, s, moves[0]), moves[1..])))
  }

  lemma {:induction false} PlayedNextId(g: Setting, s: Session, moves: seq<Move>)
    requires s.e.Valid() && E.Mine(s.sys, g.k, g.user)
    ensures Played(g, s, moves).sys.s.t.nextId >= s.sys.s.t.nextId
    decreases |moves|
  {
    if moves != [] {
      MovedIsMine(g, s, moves[0]);
      PlayedNextId(g, Moved(g, s, moves[0]), moves[1..]);
    }
  }

  lemma {:induction false} RunKeepsSession(
    g: Setting, s: Session, m0: Diary, id0: cint, initial: seq<byte>, moves: seq<Move>)
    requires SessionInv(g, s, m0, id0, initial) && LeftAlone(g, s, moves)
    requires Played(g, s, moves).sys.s.t.nextId <= INT_MAX + 1
    ensures SessionInv(g, Played(g, s, moves), m0, id0, initial)
    decreases |moves|
  {
    if moves != [] {
      MovedIsMine(g, s, moves[0]);
      PlayedNextId(g, Moved(g, s, moves[0]), moves[1..]);
      MoveKeeps(g, s, m0, id0, initial, moves[0]);
      RunKeepsSession(g, Moved(g, s, moves[0]), m0, id0, initial, moves[1..]);
    }
  }

  /** An editor opened by an idle client, on a new entry or on one of the diary. */
  ghost predicate IsOpened(g: Setting, s: Session, m0: Diary, id0: cint, initial: seq<byte>) {
    && E.SystemInv(s.sys, g.user, g.unseal, m0) && E.Mine(s.sys, g.k, g.user) && s.sys.peers[g.k].waiting.None?
    && NoNul(initial) && (exists files :: s.e == Opened(id0, initial, files)) && s.waiting.NoKey?
    && InDiary(s.e, Decoded(s.sys.s.t, g.user, g.unseal), initial)
  }

  /** At every moment of every session, in every interleaving with the children of the server and with all other
      clients, and however many saves fail: when the title shows no star, the text on the screen is the text of the
      entry in the diary, provided that no other client updates or deletes that entry. */
  lemma {:induction false} CleanIsStored(
    g: Setting, s: Session, m0: Diary, id0: cint, initial: seq<byte>, moves: seq<Move>)
    requires IsOpened(g, s, m0, id0, initial) && s.e.Valid() && LeftAlone(g, s, moves)
    requires Played(g, s, moves).sys.s.t.nextId <= INT_MAX + 1
    ensures var end := Played(g, s, moves);
            var m, id := Decoded(end.sys.s.t, g.user, g.unseal), end.e.entryId as int;
            && SaveInv(end.e, id0, initial)
            && (end.e.dirty == 0 && id > 0 ==> id in m && m[id].text == Chars(end.e.text))
  {
    var files :| s.e == Opened(id0, initial, files);
    SessionStartsSafe(id0, initial, files);
    RunKeepsSession(g, s, m0, id0, initial, moves);
  }

  /** A key that does not save is taken at once, and does to the editor what the machine says, whatever the system
      does. */
  lemma {:induction false} OtherKeysAreTaken(g: Setting, s: Session, key: Key, call: Call)
    requires s.e.Valid() && E.Mine(s.sys, g.k, g.user) && s.waiting.NoKey? && !(s.e.open && K.Saves(s.e, key))
    ensures Moved(g, s, Press(key, call)) == s.(e := Step(s.e, g.cols, Input(key, Refused)))
  {
  }

  // ---------------------------------------------------------------------------------------------
  // A save completes
  // ---------------------------------------------------------------------------------------------

  /** The same things happen elsewhere, as moves of the session. */
  function AsMoves(actions: seq<E.Action>): seq<Move> {
    if actions == [] then [] else [Elsewhere(actions[0])] + AsMoves(actions[1..])
  }

  lemma {:induction false} PlayedElsewhere(g: Setting, s: Session, actions: seq<E.Action>)
    requires s.e.Valid() && E.Mine(s.sys, g.k, g.user) && forall a | a in actions :: !IsOwn(g, a)
    ensures Played(g, s, AsMoves(actions)) == s.(sys := E.Play(s.sys, g.user, g.unseal, actions))
    decreases |actions|
  {
    if actions != [] {
      assert actions[0] in actions && AsMoves(actions)[1..] == AsMoves(actions[1..]);
      MovedIsMine(g, s, Elsewhere(actions[0]));
      PlayedElsewhere(g, Moved(g, s, Elsewhere(actions[0])), actions[1..]);
    }
  }

  lemma {:induction false} TurnsAreNotOwn(g: Setting, ch: Choice, n: nat)
    ensures forall a | a in E.Turns(g.k, ch, n) :: !IsOwn(g, a)
  {
    if n > 0 {
      TurnsAreNotOwn(g, ch, n - 1);
      forall a | a in E.Turns(g.k, ch, n) ensures !IsOwn(g, a) {
        if a != E.OwnTurn(g.k, ch) { assert a in E.Turns(g.k, ch, n - 1); }
      }
    }
  }

  /** A save key does save: sent by a client that can send, and with turns of its own child alone, the text on the
      screen is stored in the diary, and the editor hears of it and is clean, unless the statement failed. */
  lemma {:induction false} SaveKeySaves(
    g: Setting, s: Session, m0: Diary, id0: cint, initial: seq<byte>, key: Key, call: Call, ch: Choice)
    returns (n: nat)
    requires SessionInv(g, s, m0, id0, initial) && s.waiting.NoKey? && TriesSave(s.e, key) && CanSend(g, s, call)
    requires ch.rc && s.sys.s.t.nextId <= INT_MAX
    ensures var sent := Moved(g, s, Press(key, call));
            && sent.e.Valid() && E.Mine(sent.sys, g.k, g.user)
            && var served := Played(g, sent, AsMoves(E.Turns(g.k, ch, n)));
               && served.e.Valid() && E.Mine(served.sys, g.k, g.user)
               && var end := Moved(g, served, Look);
                  var m := Decoded(end.sys.s.t, g.user, g.unseal);
                  && end.waiting.NoKey? && end.e.dirty == 0 && end.e.text == s.e.text && end.e.entryId > 0
                  && end.e.entryId as int in m && m[end.e.entryId as int].text == Chars(s.e.text)
  {
    var last, r, m';
    n, last, r, m' := SaveIsServed(g, s, m0, id0, initial, key, call, ch);
    var sys := E.Begun(s.sys, g.k, call);
    var served := E.Play(sys, g.user, g.unseal, E.Turns(g.k, ch, n));
    MovedIsMine(g, s, Press(key, call));
    TurnsAreNotOwn(g, ch, n);
    PlayedElsewhere(g, Moved(g, s, Press(key, call)), E.Turns(g.k, ch, n));
    LooksAtResult(g, Session(served, s.e, Serving(key, call)), r);
    DoneSave(s.e, Decoded(s.sys.s.t, g.user, g.unseal), call, last, ch, r, m', g.cols, key, id0, initial);
  }

  /** The turns of the child do the operation of the call, and its result is what the client has heard last. */
  lemma {:induction false} SaveIsServed(
    g: Setting, s: Session, m0: Diary, id0: cint, initial: seq<byte>, key: Key, call: Call, ch: Choice)
    returns (n: nat, last: int, r: Result, m': Diary)
    requires SessionInv(g, s, m0, id0, initial) && s.waiting.NoKey? && TriesSave(s.e, key) && CanSend(g, s, call)
    requires s.sys.s.t.nextId <= INT_MAX
    ensures InDiary(s.e, Decoded(s.sys.s.t, g.user, g.unseal), initial)
    ensures var sys := E.Begun(s.sys, g.k, call);
            && E.Mine(sys, g.k, g.user)
            && var served := E.Play(sys, g.user, g.unseal, E.Turns(g.k, ch, n));
               && E.Mine(served, g.k, g.user) && m' == Decoded(served.s.t, g.user, g.unseal)
               && Heard(served.s.kids[g.k], served.peers[g.k], g.unseal, r)
               && DiaryOp(Decoded(s.sys.s.t, g.user, g.unseal), last, call, ch, r, m')
  {
    var sys := E.Begun(s.sys, g.k, call);
    SendKeeps(g, s, m0, id0, initial, key, call);
    SentIsThere(g, s, m0, call);
    CallFits(s.sys.s.t, g.user, call, ch);
    n := E.CallCompletes(sys, g.user, g.unseal, m0, g.k, ch, call);
    var served := E.Play(sys, g.user, g.unseal, E.Turns(g.k, ch, n));
    var op := served.trace[|sys.trace|];
    last, r, m' := op.last, op.result, Decoded(served.s.t, g.user, g.unseal);
  }

  /** The client has its reply whole, and r is what it makes of it. */
  ghost predicate Heard(kid: C.Child, p: E.Peer, unseal: Unseal, r: Result) {
    var p' := E.Returned(kid, p, unseal);
    p'.waiting.None? && p'.done != [] && p'.done[|p'.done| - 1] == r
  }

  lemma {:induction false} LooksAtResult(g: Setting, s: Session, r: Result)
    requires s.e.Valid() && E.Mine(s.sys, g.k, g.user) && s.waiting.Serving?
    requires Heard(s.sys.s.kids[g.k], s.sys.peers[g.k], g.unseal, r)
    ensures var s' := Looked(g, s);
            && s'.waiting.NoKey? && s'.sys.s == s.sys.s
            && s'.e == Step(s.e, g.cols, Input(s.waiting.key, ReplyOf(r)))
  {
  }

  /** The line of the call is all that the child has to read. */
  lemma {:induction false} SentIsThere(g: Setting, s: Session, m0: Diary, call: Call)
    requires E.SystemInv(s.sys, g.user, g.unseal, m0) && E.Mine(s.sys, g.k, g.user)
    requires s.sys.s.kids[g.k].phase.Ready? && s.sys.peers[g.k].waiting.None?
    ensures var sys := E.Begun(s.sys, g.k, call);
            && E.Mine(sys, g.k, g.user) && sys.peers[g.k].waiting == O.Some(call)
            && sys.s.kids[g.k].phase.Ready? && sys.s.kids[g.k].inbox == [LineOf(call)] && sys.s.t == s.sys.s.t
  {
    E.BetweenCallsNothingIsUnderWay(s.sys, g.user, g.unseal, m0, g.k);
    assert [] + [LineOf(call)] == [LineOf(call)];
  }

  lemma {:induction false} CallFits(t: T.Tables, user: string, call: Call, ch: Choice)
    requires t.Valid() && t.nextId <= INT_MAX
    ensures Exec(t, user, CommandOf(call), ch).0.nextId <= INT_MAX + 1
  {
    I.ExecHistory(t, user, CommandOf(call), ch);
  }

  /** What a successful operation means for the editor. */
  lemma {:induction false} DoneSave(
    e: Editor, m: Diary, call: Call, last: int, ch: Choice, r: Result, m': Diary, cols: int, key: Key, id0: cint,
    initial: seq<byte>)
    requires SaveInv(e, id0, initial) && InDiary(e, m, initial) && TriesSave(e, key) && IsSave(e, call) && ch.rc
    requires DiaryOp(m, last, call, ch, r, m')
    ensures var s := Step(e, cols, Input(key, ReplyOf(r)));
            && s.dirty == 0 && s.text == e.text && s.entryId > 0
            && s.entryId as int in m' && m'[s.entryId as int].text == Chars(e.text)
  {
    SettlesToSave(e, cols, key, ReplyOf(r), id0, initial);
  }
}
