/** The whole system in every interleaving: any number of clients of one user, each using net.c on a connection of
    its own, next to any traffic of other users, on the children of the server. It behaves as one map from ids to
    (time stamp, text) on which the user's calls act one at a time. */
module EndToEnd {
  import opened Options
  import opened Decimal
  import opened Dialect
  import opened Handler
  import opened Children
  import opened Client
  import opened Stack
  import I = Isolation
  import T = Tables

  /** A client: the call it waits for, how many lines of the command loop it has read, and the results so far. */
  datatype Peer = Peer(waiting: Option<Call>, read: nat, done: seq<Result>)

  /** One operation on the diary, at the moment its statement commits. */
  datatype Operation = Operation(
    kid: nat, call: Call, ch: Choice, before: Diary, last: int, result: Result, after: Diary)

  datatype System = System(s: Server, peers: map<nat, Peer>, trace: seq<Operation>)

  datatype Action =
    | Open(kid: nat, user: string)                                        // a new connection of any user
    | OtherTraffic(kid: nat, line: string)                                // a line of another user
    | Handshake(kid: nat, line: string)                                   // the user's answer to REGISTER
    | ServerTurn(kid: nat, ch: Choice, keyOk: bool, rowid: int)
    | Begin(kid: nat, call: Call)                                         // a client sends a call
    | Finish(kid: nat)                                                    // a client has its reply and returns

  function Idle(users: T.Users, t: T.Tables): System {
    System(Started(users, t), map[], [])
  }

  predicate Mine(sys: System, k: nat, user: string) {
    k in sys.s.kids && k in sys.peers && sys.s.kids[k].user == user
  }

  function Opened(sys: System, user: string, k: nat, u: string): System {
    sys.(s := Step(sys.s, Connect(k, u)), peers := if u == user then sys.peers[k := Peer(None, 0, [])] else sys.peers)
  }

  function Delivered(sys: System, k: nat, line: string): System {
    sys.(s := Step(sys.s, Deliver(k, line)))
  }

  function Turned(sys: System, user: string, unseal: Unseal, k: nat, ch: Choice, keyOk: bool, rowid: int): System
    requires k in sys.s.kids
  {
    var s' := TakeTurn(sys.s, k, ch, keyOk, rowid);
    if Mine(sys, k, user) && sys.s.kids[k].phase.Committing? && sys.peers[k].waiting.Some?
    then System(s', sys.peers, sys.trace + [Commit(sys, k, ch, user, unseal)])
    else sys.(s := s')
  }

  function Begun(sys: System, k: nat, call: Call): System
    requires k in sys.peers
  {
    Delivered(sys, k, LineOf(call)).(peers := sys.peers[k := sys.peers[k].(waiting := Some(call))])
  }

  /** The client reads from the lines it has not read yet; when they do not suffice it goes on waiting. */
  function Returned(kid: Child, p: Peer, unseal: Unseal): Peer {
    if p.waiting.None? || p.read > |kid.sent| then p else
      match ReadReply(p.waiting.value, kid.sent[p.read..], unseal)
      case None => p
      case Some((r, rest)) => if |rest| > |kid.sent| then p else Peer(None, |kid.sent| - |rest|, p.done + [r])
  }

  function Act(sys: System, user: string, unseal: Unseal, a: Action): System {
    match a
    case Open(k, u) =>
      if k in sys.s.kids then sys else Opened(sys, user, k, u)
    case OtherTraffic(k, line) =>
      if k in sys.s.kids && sys.s.kids[k].user != user then Delivered(sys, k, line) else sys
    case Handshake(k, line) =>
      if Mine(sys, k, user) && sys.s.kids[k].phase.AwaitingKey? && sys.s.kids[k].inbox == []
      then Delivered(sys, k, line) else sys
    case ServerTurn(k, ch, keyOk, rowid) =>
      if k in sys.s.kids then Turned(sys, user, unseal, k, ch, keyOk, rowid) else sys
    case Begin(k, call) =>
      if Mine(sys, k, user) && sys.s.kids[k].phase.Ready? && sys.peers[k].waiting.None? && LegalCall(call, unseal)
      then Begun(sys, k, call) else sys
    case Finish(k) =>
      if Mine(sys, k, user) then sys.(peers := sys.peers[k := Returned(sys.s.kids[k], sys.peers[k], unseal)]) else sys
  }

  /** The operation that a committing child of the user performs on the diary. */
  function Commit(sys: System, k: nat, ch: Choice, user: string, unseal: Unseal): Operation
    requires Mine(sys, k, user) && sys.s.kids[k].phase.Committing? && sys.peers[k].waiting.Some?
  {
    var call := sys.peers[k].waiting.value;
    var (t', lines) := Exec(sys.s.t, user, CommandOf(call), ch);
    var reply := ReadReply(call, lines, unseal);
    Operation(k, call, ch, Decoded(sys.s.t, user, unseal), sys.s.t.nextId - 1,
              if reply.Some? then reply.value.0 else GetFailed, Decoded(t', user, unseal))
  }

  function Play(sys: System, user: string, unseal: Unseal, actions: seq<Action>): System
    decreases |actions|
  {
    if actions == [] then sys else Play(Act(sys, user, unseal, actions[0]), user, unseal, actions[1..])
  }

  // ---------------------------------------------------------------------------------------------
  // What holds
  // ---------------------------------------------------------------------------------------------

  /** The results, in commit order, of the operations of one client. */
  function ResultsOf(trace: seq<Operation>, n: nat, k: nat): seq<Result>
    requires n <= |trace|
  {
    if n == 0 then [] else ResultsOf(trace, n - 1, k) + if trace[n - 1].kid == k then [trace[n - 1].result] else []
  }

  predicate Posts(op: Operation) {
    op.call.PostCall? && op.ch.rc && op.result.Number?
  }

  /** The highest id given to anyone when the operation is done, as far as it tells. */
  function Newest(op: Operation): int {
    if Posts(op) then op.result.n else op.last
  }

  /** The trace is a run of the map: each operation acts on what the one before left, beginning with m0 and ending
      with m, and no id is below one that was given out before. */
  ghost predicate IsRun(trace: seq<Operation>, m0: Diary, m: Diary) {
    && (forall i, j | 0 <= i < j < |trace| :: Newest(trace[i]) <= trace[j].last)
    && (forall i | 0 <= i < |trace| ::
          DiaryOp(trace[i].before, trace[i].last, trace[i].call, trace[i].ch, trace[i].result, trace[i].after))
    && (forall i | 0 <= i < |trace| - 1 :: trace[i].after == trace[i + 1].before)
    && (if trace == [] then m == m0 else trace[0].before == m0 && trace[|trace| - 1].after == m)
  }

  /** A client and its child. A client that is not waiting has no line under way in either direction. */
  ghost predicate InStep(kid: Child, p: Peer, results: seq<Result>, unseal: Unseal) {
    && p.read <= |kid.sent|
    && (BeforeLoop(kid) ==> p == Peer(None, 0, []) && results == [] && kid.sent == [])
    && (kid.phase.Registering? ==> kid.inbox == [])
    && (kid.phase.AwaitingKey? ==> |kid.inbox| <= 1)
    && (kid.phase.Greeting? ==> kid.inbox == [])
    && match p.waiting
       case None =>
         BeforeLoop(kid) || (&& (kid.phase.Ready? || kid.phase.Closed?) && kid.inbox == []
                             && p.read == |kid.sent| && p.done == results)
       case Some(call) =>
         LegalCall(call, unseal) &&
         if kid.phase.Ready? && kid.inbox != [] then
           kid.inbox == [LineOf(call)] && p.read == |kid.sent| && p.done == results
         else if kid.phase.Committing? then
           kid.phase.cmd == CommandOf(call) && kid.inbox == [] && p.read == |kid.sent| && p.done == results
         else
           Replying(kid, p, call, results, unseal)
  }

  /** The last result is settled: it is what the call reads from the lines sent and owed. */
  ghost predicate Replying(kid: Child, p: Peer, call: Call, results: seq<Result>, unseal: Unseal)
    requires p.read <= |kid.sent|
  {
    && kid.inbox == [] && Answering(kid)
    && results != [] && p.done == results[..|results| - 1]
    && ReadsAs(call, kid.sent[p.read..] + Owed(kid), results[|results| - 1], unseal)
  }

  /** The child is answering a command other than QUIT, or has just done so. */
  predicate Answering(kid: Child) {
    match kid.phase
    case ReadingRowid(_) => true
    case ReadingChanges(_) => true
    case Sending(lines, quit) => lines != [] && !quit
    case Ready => true
    case _ => false
  }

  /** These lines are the whole reply to the call, and the call returns r. */
  ghost predicate ReadsAs(call: Call, lines: seq<string>, r: Result, unseal: Unseal) {
    && lines != [] && ReadReply(call, lines, unseal) == Some((r, []))
    && forall p | 0 <= p < |lines| :: ReadReply(call, lines[..p], unseal).None?
  }

  ghost predicate PeerOk(kid: Child, p: Peer, trace: seq<Operation>, k: nat, user: string, unseal: Unseal) {
    kid.user == user && InStep(kid, p, ResultsOf(trace, |trace|, k), unseal)
  }

  ghost predicate SystemInv(sys: System, user: string, unseal: Unseal, m0: Diary) {
    && sys.s.t.Valid() && Sealed(sys.s.t, user)
    && IsRun(sys.trace, m0, Decoded(sys.s.t, user, unseal))
    && (forall i | 0 <= i < |sys.trace| :: sys.trace[i].kid in sys.peers)
    && Below(sys.trace, sys.s.t.nextId)
    && PeersOk(sys.s.kids, sys.peers, sys.trace, user, unseal)
  }

  ghost predicate Below(trace: seq<Operation>, n: int) {
    forall i | 0 <= i < |trace| :: Newest(trace[i]) < n
  }

  /** The user's children and the clients are paired, and every pair is in step. */
  ghost predicate PeersOk(
    kids: map<nat, Child>, peers: map<nat, Peer>, trace: seq<Operation>, user: string, unseal: Unseal) {
    && (forall k | k in kids && kids[k].user == user :: k in peers)
    && (forall k | k in peers :: k in kids && PeerOk(kids[k], peers[k], trace, k, user, unseal))
  }

  // ---------------------------------------------------------------------------------------------
  // One client at a time
  // ---------------------------------------------------------------------------------------------

  /** Sending a line moves it from what is owed to what can be read. */
  lemma {:induction false} SendMovesLine(kid: Child, read: nat)
    requires kid.phase.Sending? && kid.phase.lines != [] && read <= |kid.sent|
    ensures read <= |Send(kid).sent|
    ensures Send(kid).sent[read..] + Owed(Send(kid)) == kid.sent[read..] + Owed(kid)
  {
    var lines, kid' := kid.phase.lines, Send(kid);
    assert Owed(kid) == [lines[0]] + Owed(kid');
    assert kid'.sent[read..] == kid.sent[read..] + [lines[0]];
  }

  lemma {:induction false} SendReplying(kid: Child, p: Peer, call: Call, results: seq<Result>, unseal: Unseal)
    requires kid.phase.Sending? && p.read <= |kid.sent| && Replying(kid, p, call, results, unseal)
    ensures p.read <= |Send(kid).sent| && Replying(Send(kid), p, call, results, unseal)
    ensures Send(kid).phase.Ready? || Send(kid).phase.Sending?
  {
    SendMovesLine(kid, p.read);
  }

  /** A turn of the child that commits nothing keeps the pair in step. */
  lemma {:induction false} ProceedInStep(
    users: T.Users, kid: Child, p: Peer, results: seq<Result>, unseal: Unseal, ch: Choice, keyOk: bool, rowid: int)
    requires InStep(kid, p, results, unseal) && !kid.phase.Committing?
    ensures InStep(Proceed(users, kid, ch, keyOk, rowid), p, results, unseal)
  {
    if p.waiting.Some? {
      if kid.phase.Ready? && kid.inbox != [] {
        CallIsUnderstood(p.waiting.value, unseal);
      } else if kid.phase.Sending? {
        SendReplying(kid, p, p.waiting.value, results, unseal);
      }
    }
  }

  lemma {:induction false} ExecuteAnswers(t: T.Tables, kid: Child, cmd: Command, ch: Choice)
    requires !cmd.Quit?
    ensures Answering(Execute(t, kid, cmd, ch).1) && !Execute(t, kid, cmd, ch).1.phase.Ready?
  {
  }

  /** A child that owes the whole reply to the call that its client waits for. */
  lemma {:induction false} OwesReply(
    kid: Child, kid': Child, p: Peer, results: seq<Result>, unseal: Unseal, lines: seq<string>, r: Result)
    requires InStep(kid, p, results, unseal) && kid.phase.Committing? && p.waiting.Some?
    requires kid'.inbox == kid.inbox && kid'.sent == kid.sent && Owed(kid') == lines
    requires Answering(kid') && !kid'.phase.Ready? && ReadsAs(p.waiting.value, lines, r, unseal)
    ensures InStep(kid', p, results + [r], unseal)
  {
    assert kid'.sent[p.read..] + lines == lines;
    assert (results + [r])[..|results|] == results;
    assert Replying(kid', p, p.waiting.value, results + [r], unseal);
  }

  /** The commit makes the result part of the trace and the child owe the reply. */
  lemma {:induction false} CommitInStep(
    t: T.Tables, kid: Child, p: Peer, results: seq<Result>, unseal: Unseal, ch: Choice, r: Result)
    requires InStep(kid, p, results, unseal) && kid.phase.Committing? && p.waiting.Some?
    requires ReadsAs(p.waiting.value, Exec(t, kid.user, kid.phase.cmd, ch).1, r, unseal)
    ensures InStep(Execute(t, kid, kid.phase.cmd, ch).1, p, results + [r], unseal)
  {
    var kid' := Execute(t, kid, kid.phase.cmd, ch).1;
    assert kid.phase.cmd == CommandOf(p.waiting.value);
    ExecuteRefinesExec(t, kid, kid.phase.cmd, ch);
    ExecuteAnswers(t, kid, kid.phase.cmd, ch);
    OwesReply(kid, kid', p, results, unseal, Exec(t, kid.user, kid.phase.cmd, ch).1, r);
  }

  /** A client only returns when the child has sent the whole reply; then nothing is left in either direction, and
      the result is that of its last operation. */
  lemma {:induction false} FinishInStep(kid: Child, p: Peer, results: seq<Result>, unseal: Unseal)
    requires InStep(kid, p, results, unseal) && p.waiting.Some?
    requires ReadReply(p.waiting.value, kid.sent[p.read..], unseal).Some?
    ensures var (r, rest) := ReadReply(p.waiting.value, kid.sent[p.read..], unseal).value;
            rest == [] && InStep(kid, Peer(None, |kid.sent|, p.done + [r]), results, unseal)
  {
    var unread := kid.sent[p.read..];
    var lines := unread + Owed(kid);
    if (kid.phase.Ready? && kid.inbox != []) || kid.phase.Committing? {
      assert unread == [];
      NothingReadsNothing(p.waiting.value, unseal);
    } else {
      assert lines[..|unread|] == unread;
      assert |unread| == |lines|;
      assert Owed(kid) == [] && lines == unread;
      assert results == results[..|results| - 1] + [results[|results| - 1]];
    }
  }

  lemma {:induction false} NothingReadsNothing(call: Call, unseal: Unseal)
    ensures ReadReply(call, [], unseal).None?
  {
  }

  // ---------------------------------------------------------------------------------------------
  // The system
  // ---------------------------------------------------------------------------------------------

  lemma {:induction false} NoResults(trace: seq<Operation>, n: nat, k: nat)
    requires n <= |trace| && forall i | 0 <= i < n :: trace[i].kid != k
    ensures ResultsOf(trace, n, k) == []
  {
    if n > 0 {
      NoResults(trace, n - 1, k);
    }
  }

  lemma {:induction false} ResultsPrefix(trace: seq<Operation>, more: seq<Operation>, n: nat, k: nat)
    requires n <= |trace| && trace <= more
    ensures ResultsOf(more, n, k) == ResultsOf(trace, n, k)
  {
    if n > 0 {
      ResultsPrefix(trace, more, n - 1, k);
    }
  }

  /** When one client and its child change and stay in step, and the tables and the trace do not change, the
      invariant is kept. */
  lemma {:induction false} OnePeerChanges(
    sys: System, sys': System, user: string, unseal: Unseal, m0: Diary, k: nat, kid: Child, p: Peer)
    requires SystemInv(sys, user, unseal, m0)
    requires sys'.s.t == sys.s.t && sys'.trace == sys.trace
    requires sys'.s.kids == sys.s.kids[k := kid] && sys'.peers == sys.peers[k := p]
    requires PeerOk(kid, p, sys.trace, k, user, unseal)
    ensures SystemInv(sys', user, unseal, m0)
  {
  }

  /** A child of another user changes. */
  lemma {:induction false} OtherChildChanges(
    sys: System, sys': System, user: string, unseal: Unseal, m0: Diary, k: nat, kid: Child)
    requires SystemInv(sys, user, unseal, m0)
    requires sys'.trace == sys.trace && sys'.peers == sys.peers && sys'.s.kids == sys.s.kids[k := kid]
    requires kid.user != user && (k in sys.s.kids ==> sys.s.kids[k].user != user)
    requires sys'.s.t.Valid() && Sealed(sys'.s.t, user) && sys'.s.t.nextId >= sys.s.t.nextId
    requires Decoded(sys'.s.t, user, unseal) == Decoded(sys.s.t, user, unseal)
    ensures SystemInv(sys', user, unseal, m0)
  {
    forall j | j in sys'.peers
      ensures j in sys'.s.kids && PeerOk(sys'.s.kids[j], sys'.peers[j], sys'.trace, j, user, unseal)
    {
      assert PeerOk(sys.s.kids[j], sys.peers[j], sys.trace, j, user, unseal);
    }
  }

  /** A command of another user leaves the diary alone. */
  lemma {:induction false} OthersKeepDiary(
    t: T.Tables, user: string, other: string, cmd: Command, ch: Choice, unseal: Unseal)
    requires t.Valid() && Sealed(t, user) && other != user
    ensures var t' := Exec(t, other, cmd, ch).0;
            && t'.Valid() && Sealed(t', user) && t'.nextId >= t.nextId
            && Decoded(t', user, unseal) == Decoded(t, user, unseal)
  {
    var t' := Exec(t, other, cmd, ch).0;
    I.ExecHistory(t, other, cmd, ch);
    I.OthersDoNotInterfere(t, user, other, cmd, ch);
    assert forall id :: t'.Owns(user, id) <==> id in I.View(t', user);
    assert forall id :: t.Owns(user, id) <==> id in I.View(t, user);
    forall id | t.Owns(user, id) ensures t'.Owns(user, id) && t'.entries[id] == t.entries[id] {
      assert I.View(t', user)[id] == I.View(t, user)[id];
    }
  }

  lemma {:induction false} RunGrows(trace: seq<Operation>, m0: Diary, op: Operation)
    requires IsRun(trace, m0, op.before) && Below(trace, op.last + 1)
    requires DiaryOp(op.before, op.last, op.call, op.ch, op.result, op.after)
    ensures IsRun(trace + [op], m0, op.after)
  {
  }

  /** One more operation in the trace adds its result to its client's results and to no other's. */
  lemma {:induction false} ResultsGrow(trace: seq<Operation>, op: Operation, k: nat)
    ensures ResultsOf(trace + [op], |trace| + 1, k)
            == ResultsOf(trace, |trace|, k) + if op.kid == k then [op.result] else []
  {
    ResultsPrefix(trace, trace + [op], |trace|, k);
  }

  lemma {:induction false} PeerOkAfterCommit(
    kid: Child, p: Peer, trace: seq<Operation>, op: Operation, k: nat, user: string, unseal: Unseal)
    requires op.kid != k && PeerOk(kid, p, trace, k, user, unseal)
    ensures PeerOk(kid, p, trace + [op], k, user, unseal)
  {
    ResultsGrow(trace, op, k);
    assert ResultsOf(trace, |trace|, k) + [] == ResultsOf(trace, |trace|, k);
  }

  lemma {:induction false} CommitterOk(
    kid: Child, p: Peer, trace: seq<Operation>, op: Operation, user: string, unseal: Unseal)
    requires kid.user == user && InStep(kid, p, ResultsOf(trace, |trace|, op.kid) + [op.result], unseal)
    ensures PeerOk(kid, p, trace + [op], op.kid, user, unseal)
  {
    ResultsGrow(trace, op, op.kid);
  }

  /** One more operation in the trace: its client has one more result, the other clients are as before. */
  lemma {:induction false} OnePeerCommits(
    sys: System, sys': System, user: string, unseal: Unseal, m0: Diary, op: Operation, kid: Child)
    requires SystemInv(sys, user, unseal, m0) && op.kid in sys.peers
    requires sys'.trace == sys.trace + [op] && sys'.peers == sys.peers && sys'.s.kids == sys.s.kids[op.kid := kid]
    requires op.before == Decoded(sys.s.t, user, unseal) && op.after == Decoded(sys'.s.t, user, unseal)
    requires DiaryOp(op.before, op.last, op.call, op.ch, op.result, op.after)
    requires sys'.s.t.Valid() && Sealed(sys'.s.t, user)
    requires op.last == sys.s.t.nextId - 1 && Newest(op) < sys'.s.t.nextId && sys.s.t.nextId <= sys'.s.t.nextId
    requires PeerOk(kid, sys.peers[op.kid], sys.trace + [op], op.kid, user, unseal)
    ensures SystemInv(sys', user, unseal, m0)
  {
    assert IsRun(sys'.trace, m0, op.after) by { RunGrows(sys.trace, m0, op); }
    assert forall i | 0 <= i < |sys'.trace| :: sys'.trace[i].kid in sys'.peers;
    OthersAfterCommit(sys.s.kids, sys.peers, sys.trace, op, kid, user, unseal);
  }

  lemma {:induction false} OthersAfterCommit(
    kids: map<nat, Child>, peers: map<nat, Peer>, trace: seq<Operation>, op: Operation, kid: Child, user: string,
    unseal: Unseal)
    requires PeersOk(kids, peers, trace, user, unseal)
    requires op.kid in peers && PeerOk(kid, peers[op.kid], trace + [op], op.kid, user, unseal)
    ensures PeersOk(kids[op.kid := kid], peers, trace + [op], user, unseal)
  {
    var trace' := trace + [op];
    assert forall k | k in peers && k != op.kid :: k in kids && PeerOk(kids[k], peers[k], trace', k, user, unseal) by {
      forall k | k in peers && k != op.kid ensures PeerOk(kids[k], peers[k], trace', k, user, unseal) {
        PeerOkAfterCommit(kids[k], peers[k], trace, op, k, user, unseal);
      }
    }
    PeersReplaced(kids, peers, trace', op.kid, kid, user, unseal);
  }

  lemma {:induction false} PeersReplaced(
    kids: map<nat, Child>, peers: map<nat, Peer>, trace: seq<Operation>, n: nat, kid: Child, user: string,
    unseal: Unseal)
    requires forall k | k in kids && kids[k].user == user :: k in peers
    requires forall k | k in peers && k != n :: k in kids && PeerOk(kids[k], peers[k], trace, k, user, unseal)
    requires n in peers && PeerOk(kid, peers[n], trace, n, user, unseal)
    ensures PeersOk(kids[n := kid], peers, trace, user, unseal)
  {
  }

  /** The commit of one of the user's clients. */
  lemma {:induction false} CommitKeepsInv(
    sys: System, user: string, unseal: Unseal, m0: Diary, k: nat, ch: Choice, keyOk: bool, rowid: int)
    requires SystemInv(sys, user, unseal, m0) && Mine(sys, k, user)
    requires sys.s.kids[k].phase.Committing? && sys.peers[k].waiting.Some?
    requires TakeTurn(sys.s, k, ch, keyOk, rowid).t.nextId <= INT_MAX + 1
    ensures SystemInv(Turned(sys, user, unseal, k, ch, keyOk, rowid), user, unseal, m0)
  {
    var kid, t := sys.s.kids[k], sys.s.t;
    var op := Commit(sys, k, ch, user, unseal);
    var (t', kid') := Execute(t, kid, kid.phase.cmd, ch);
    var results := ResultsOf(sys.trace, |sys.trace|, k);
    assert PeerOk(kid, sys.peers[k], sys.trace, k, user, unseal);
    assert kid.phase.cmd == CommandOf(op.call) && LegalCall(op.call, unseal);
    ExecuteRefinesExec(t, kid, kid.phase.cmd, ch);
    assert t' == Exec(t, user, kid.phase.cmd, ch).0;
    assert t'.nextId <= INT_MAX + 1;
    CallThroughStack(t, user, op.call, ch, unseal);
    I.ExecHistory(t, user, kid.phase.cmd, ch);
    CommitInStep(t, kid, sys.peers[k], results, unseal, ch, op.result);
    CommitterOk(kid', sys.peers[k], sys.trace, op, user, unseal);
    OnePeerCommits(sys, Turned(sys, user, unseal, k, ch, keyOk, rowid), user, unseal, m0, op, kid');
  }

  lemma {:induction false} ProceedKeepsUser(users: T.Users, kid: Child, ch: Choice, keyOk: bool, rowid: int)
    requires !kid.phase.Committing?
    ensures Proceed(users, kid, ch, keyOk, rowid).user == kid.user
  {
  }

  /** A turn of one of the user's children that commits nothing. */
  lemma {:induction false} QuietTurnKeepsInv(
    sys: System, user: string, unseal: Unseal, m0: Diary, k: nat, ch: Choice, keyOk: bool, rowid: int)
    requires SystemInv(sys, user, unseal, m0) && Mine(sys, k, user) && !sys.s.kids[k].phase.Committing?
    ensures SystemInv(Turned(sys, user, unseal, k, ch, keyOk, rowid), user, unseal, m0)
  {
    var kid := sys.s.kids[k];
    var kid' := Proceed(sys.s.users, kid, ch, keyOk, rowid);
    assert PeerOk(kid, sys.peers[k], sys.trace, k, user, unseal);
    ProceedInStep(sys.s.users, kid, sys.peers[k], ResultsOf(sys.trace, |sys.trace|, k), unseal, ch, keyOk, rowid);
    ProceedKeepsUser(sys.s.users, kid, ch, keyOk, rowid);
    assert sys.peers == sys.peers[k := sys.peers[k]];
    OnePeerChanges(sys, Turned(sys, user, unseal, k, ch, keyOk, rowid), user, unseal, m0, k, kid', sys.peers[k]);
  }

  lemma {:induction false} OtherTurnKeepsInv(
    sys: System, user: string, unseal: Unseal, m0: Diary, k: nat, ch: Choice, keyOk: bool, rowid: int)
    requires SystemInv(sys, user, unseal, m0) && k in sys.s.kids && sys.s.kids[k].user != user
    ensures SystemInv(Turned(sys, user, unseal, k, ch, keyOk, rowid), user, unseal, m0)
  {
    var kid := sys.s.kids[k];
    var sys' := Turned(sys, user, unseal, k, ch, keyOk, rowid);
    if kid.phase.Committing? {
      ExecuteRefinesExec(sys.s.t, kid, kid.phase.cmd, ch);
      OthersKeepDiary(sys.s.t, user, kid.user, kid.phase.cmd, ch, unseal);
      OtherChildChanges(sys, sys', user, unseal, m0, k, Execute(sys.s.t, kid, kid.phase.cmd, ch).1);
    } else {
      ProceedKeepsUser(sys.s.users, kid, ch, keyOk, rowid);
      OtherChildChanges(sys, sys', user, unseal, m0, k, Proceed(sys.s.users, kid, ch, keyOk, rowid));
    }
  }

  /** A client whose child is about to commit is waiting for that call. */
  lemma {:induction false} CommittingIsAwaited(kid: Child, p: Peer, results: seq<Result>, unseal: Unseal)
    requires InStep(kid, p, results, unseal) && kid.phase.Committing?
    ensures p.waiting.Some?
  {
  }

  lemma {:induction false} TurnKeepsInv(
    sys: System, user: string, unseal: Unseal, m0: Diary, k: nat, ch: Choice, keyOk: bool, rowid: int)
    requires SystemInv(sys, user, unseal, m0) && k in sys.s.kids
    requires TakeTurn(sys.s, k, ch, keyOk, rowid).t.nextId <= INT_MAX + 1
    ensures SystemInv(Turned(sys, user, unseal, k, ch, keyOk, rowid), user, unseal, m0)
  {
    if sys.s.kids[k].user != user {
      OtherTurnKeepsInv(sys, user, unseal, m0, k, ch, keyOk, rowid);
    } else if sys.s.kids[k].phase.Committing? {
      assert PeerOk(sys.s.kids[k], sys.peers[k], sys.trace, k, user, unseal);
      CommittingIsAwaited(sys.s.kids[k], sys.peers[k], ResultsOf(sys.trace, |sys.trace|, k), unseal);
      CommitKeepsInv(sys, user, unseal, m0, k, ch, keyOk, rowid);
    } else {
      QuietTurnKeepsInv(sys, user, unseal, m0, k, ch, keyOk, rowid);
    }
  }

  lemma {:induction false} OpenKeepsInv(sys: System, user: string, unseal: Unseal, m0: Diary, k: nat, u: string)
    requires SystemInv(sys, user, unseal, m0) && k !in sys.s.kids
    ensures SystemInv(Opened(sys, user, k, u), user, unseal, m0)
  {
    var kid := Child(u, Greeting, 0, 0, [], [], [], []);
    assert k !in sys.peers;
    if u == user {
      NoResults(sys.trace, |sys.trace|, k);
      OnePeerChanges(sys, Opened(sys, user, k, u), user, unseal, m0, k, kid, Peer(None, 0, []));
    } else {
      OtherChildChanges(sys, Opened(sys, user, k, u), user, unseal, m0, k, kid);
    }
  }

  /** A line that does not come from one of the user's clients. */
  lemma {:induction false} OtherTrafficKeepsInv(
    sys: System, user: string, unseal: Unseal, m0: Diary, k: nat, line: string)
    requires SystemInv(sys, user, unseal, m0) && k in sys.s.kids && sys.s.kids[k].user != user
    ensures SystemInv(Delivered(sys, k, line), user, unseal, m0)
  {
    OtherChildChanges(sys, Delivered(sys, k, line), user, unseal, m0, k,
                      sys.s.kids[k].(inbox := sys.s.kids[k].inbox + [line]));
  }

  /** The client has not sent anything yet. */
  lemma {:induction false} HandshakeInStep(kid: Child, p: Peer, results: seq<Result>, unseal: Unseal, line: string)
    requires InStep(kid, p, results, unseal) && kid.phase.AwaitingKey? && kid.inbox == []
    ensures InStep(kid.(inbox := [line]), p, results, unseal)
  {
  }

  lemma {:induction false} HandshakeKeepsInv(sys: System, user: string, unseal: Unseal, m0: Diary, k: nat, line: string)
    requires SystemInv(sys, user, unseal, m0) && Mine(sys, k, user)
    requires sys.s.kids[k].phase.AwaitingKey? && sys.s.kids[k].inbox == []
    ensures SystemInv(Delivered(sys, k, line), user, unseal, m0)
  {
    var kid, p := sys.s.kids[k], sys.peers[k];
    assert PeerOk(kid, p, sys.trace, k, user, unseal);
    HandshakeInStep(kid, p, ResultsOf(sys.trace, |sys.trace|, k), unseal, line);
    assert PeerOk(kid.(inbox := [line]), p, sys.trace, k, user, unseal);
    assert kid.inbox + [line] == [line] && sys.peers == sys.peers[k := p];
    OnePeerChanges(sys, Delivered(sys, k, line), user, unseal, m0, k, kid.(inbox := [line]), p);
  }

  /** A call can only be sent when nothing is under way, so its line is alone. */
  lemma {:induction false} BeginInStep(kid: Child, p: Peer, results: seq<Result>, unseal: Unseal, call: Call)
    requires InStep(kid, p, results, unseal) && kid.phase.Ready? && p.waiting.None? && LegalCall(call, unseal)
    ensures InStep(kid.(inbox := kid.inbox + [LineOf(call)]), p.(waiting := Some(call)), results, unseal)
  {
    assert kid.inbox + [LineOf(call)] == [LineOf(call)];
  }

  lemma {:induction false} BeginKeepsInv(sys: System, user: string, unseal: Unseal, m0: Diary, k: nat, call: Call)
    requires SystemInv(sys, user, unseal, m0) && Mine(sys, k, user)
    requires sys.s.kids[k].phase.Ready? && sys.peers[k].waiting.None? && LegalCall(call, unseal)
    ensures SystemInv(Begun(sys, k, call), user, unseal, m0)
  {
    var kid, p := sys.s.kids[k], sys.peers[k];
    assert PeerOk(kid, p, sys.trace, k, user, unseal);
    BeginInStep(kid, p, ResultsOf(sys.trace, |sys.trace|, k), unseal, call);
    assert PeerOk(kid.(inbox := kid.inbox + [LineOf(call)]), p.(waiting := Some(call)), sys.trace, k, user, unseal);
    OnePeerChanges(sys, Begun(sys, k, call), user, unseal, m0, k,
                   kid.(inbox := kid.inbox + [LineOf(call)]), p.(waiting := Some(call)));
  }

  lemma {:induction false} ReturnedInStep(kid: Child, p: Peer, results: seq<Result>, unseal: Unseal)
    requires InStep(kid, p, results, unseal)
    ensures InStep(kid, Returned(kid, p, unseal), results, unseal)
  {
    if p.waiting.Some? && ReadReply(p.waiting.value, kid.sent[p.read..], unseal).Some? {
      FinishInStep(kid, p, results, unseal);
    }
  }

  lemma {:induction false} FinishKeepsInv(sys: System, user: string, unseal: Unseal, m0: Diary, k: nat)
    requires SystemInv(sys, user, unseal, m0) && Mine(sys, k, user)
    ensures SystemInv(sys.(peers := sys.peers[k := Returned(sys.s.kids[k], sys.peers[k], unseal)]), user, unseal, m0)
  {
    var kid, p := sys.s.kids[k], sys.peers[k];
    var p' := Returned(kid, p, unseal);
    assert PeerOk(kid, p, sys.trace, k, user, unseal);
    ReturnedInStep(kid, p, ResultsOf(sys.trace, |sys.trace|, k), unseal);
    assert sys.s.kids == sys.s.kids[k := kid];
    OnePeerChanges(sys, sys.(peers := sys.peers[k := p']), user, unseal, m0, k, kid, p');
  }

  lemma {:induction false} ClientActKeepsInv(sys: System, user: string, unseal: Unseal, m0: Diary, a: Action)
    requires SystemInv(sys, user, unseal, m0) && (a.Handshake? || a.Begin? || a.Finish?) && Mine(sys, a.kid, user)
    ensures SystemInv(Act(sys, user, unseal, a), user, unseal, m0)
  {
    match a
    case Handshake(k, line) =>
      if sys.s.kids[k].phase.AwaitingKey? && sys.s.kids[k].inbox == [] {
        HandshakeKeepsInv(sys, user, unseal, m0, k, line);
      }
    case Begin(k, call) =>
      if sys.s.kids[k].phase.Ready? && sys.peers[k].waiting.None? && LegalCall(call, unseal) {
        BeginKeepsInv(sys, user, unseal, m0, k, call);
      }
    case Finish(k) =>
      FinishKeepsInv(sys, user, unseal, m0, k);
  }

  lemma {:induction false} ActKeepsInv(sys: System, user: string, unseal: Unseal, m0: Diary, a: Action)
    requires SystemInv(sys, user, unseal, m0) && Act(sys, user, unseal, a).s.t.nextId <= INT_MAX + 1
    ensures SystemInv(Act(sys, user, unseal, a), user, unseal, m0)
  {
    if a.Handshake? || a.Begin? || a.Finish? {
      if Mine(sys, a.kid, user) { ClientActKeepsInv(sys, user, unseal, m0, a); }
    } else if a.Open? {
      if a.kid !in sys.s.kids { OpenKeepsInv(sys, user, unseal, m0, a.kid, a.user); }
    } else if a.kid in sys.s.kids {
      if a.ServerTurn? {
        TurnKeepsInv(sys, user, unseal, m0, a.kid, a.ch, a.keyOk, a.rowid);
      } else if sys.s.kids[a.kid].user != user {
        OtherTrafficKeepsInv(sys, user, unseal, m0, a.kid, a.line);
      }
    }
  }

  lemma {:induction false} TurnNextId(s: Server, k: nat, ch: Choice, keyOk: bool, rowid: int)
    requires k in s.kids
    ensures TakeTurn(s, k, ch, keyOk, rowid).t.nextId >= s.t.nextId
  {
    if s.kids[k].phase.Committing? {
      ExecuteRefinesExec(s.t, s.kids[k], s.kids[k].phase.cmd, ch);
    }
  }

  lemma {:induction false} ActNextId(sys: System, user: string, unseal: Unseal, a: Action)
    ensures Act(sys, user, unseal, a).s.t.nextId >= sys.s.t.nextId
  {
    if a.ServerTurn? && a.kid in sys.s.kids {
      TurnNextId(sys.s, a.kid, a.ch, a.keyOk, a.rowid);
    }
  }

  lemma {:induction false} NextIdGrows(sys: System, user: string, unseal: Unseal, actions: seq<Action>)
    ensures Play(sys, user, unseal, actions).s.t.nextId >= sys.s.t.nextId
    decreases |actions|
  {
    if actions != [] {
      ActNextId(sys, user, unseal, actions[0]);
      NextIdGrows(Act(sys, user, unseal, actions[0]), user, unseal, actions[1..]);
    }
  }

  /** Every run, as long as row ids fit an int: the calls of all the user's clients, in the order of their commits,
      are a run of one map that ends as the map the tables now hold; each client got the results that this run gives
      it; and a client that is not waiting has nothing unread and nothing unanswered. */
  lemma {:induction false} StackRefinesMap(sys: System, user: string, unseal: Unseal, m0: Diary, actions: seq<Action>)
    requires SystemInv(sys, user, unseal, m0)
    requires Play(sys, user, unseal, actions).s.t.nextId <= INT_MAX + 1
    ensures SystemInv(Play(sys, user, unseal, actions), user, unseal, m0)
    decreases |actions|
  {
    if actions != [] {
      NextIdGrows(Act(sys, user, unseal, actions[0]), user, unseal, actions[1..]);
      ActKeepsInv(sys, user, unseal, m0, actions[0]);
      StackRefinesMap(Act(sys, user, unseal, actions[0]), user, unseal, m0, actions[1..]);
    }
  }

  lemma {:induction false} IdleSystem(users: T.Users, t: T.Tables, user: string, unseal: Unseal)
    requires t.Valid() && Sealed(t, user)
    ensures SystemInv(Idle(users, t), user, unseal, Decoded(t, user, unseal))
  {
  }

  /** Lockstep over whole runs: between calls both directions of a connection are empty, and the client has exactly
      the results of its operations. */
  lemma {:induction false} BetweenCallsNothingIsUnderWay(sys: System, user: string, unseal: Unseal, m0: Diary, k: nat)
    requires SystemInv(sys, user, unseal, m0) && k in sys.peers && sys.peers[k].waiting.None?
    ensures k in sys.s.kids
    ensures !BeforeLoop(sys.s.kids[k]) ==>
              && sys.s.kids[k].inbox == [] && sys.peers[k].read == |sys.s.kids[k].sent|
              && sys.peers[k].done == ResultsOf(sys.trace, |sys.trace|, k)
  {
    assert PeerOk(sys.s.kids[k], sys.peers[k], sys.trace, k, user, unseal);
  }

  /** A run never gives out an id twice, even after the entry was deleted: the POSTs of all clients of the user return
      increasing ids. */
  lemma {:induction false} IdsIncrease(trace: seq<Operation>, m0: Diary, m: Diary, i: nat, j: nat)
    requires IsRun(trace, m0, m) && i < j < |trace| && Posts(trace[i]) && Posts(trace[j])
    ensures trace[i].result.n < trace[j].result.n
  {
    assert Newest(trace[i]) <= trace[j].last;
    assert DiaryOp(trace[j].before, trace[j].last, trace[j].call, trace[j].ch, trace[j].result, trace[j].after);
  }

  /** The action is the commit of a call of one of the user's clients. */
  predicate Commits(sys: System, user: string, a: Action) {
    a.ServerTurn? && Mine(sys, a.kid, user) && sys.s.kids[a.kid].phase.Committing? && sys.peers[a.kid].waiting.Some?
  }

  /** Exactly the commits add to the trace. */
  lemma {:induction false} ActTrace(sys: System, user: string, unseal: Unseal, a: Action)
    ensures Act(sys, user, unseal, a).trace
            == if Commits(sys, user, a) then sys.trace + [Commit(sys, a.kid, a.ch, user, unseal)] else sys.trace
  {
  }

  /** Only its own calls and returns change a client. */
  lemma {:induction false} ActPeer(sys: System, user: string, unseal: Unseal, a: Action, k: nat)
    requires Mine(sys, k, user) && !((a.Begin? || a.Finish?) && a.kid == k)
    ensures k in Act(sys, user, unseal, a).peers && Act(sys, user, unseal, a).peers[k] == sys.peers[k]
  {
  }

  lemma {:induction false} ActStaysMine(sys: System, user: string, unseal: Unseal, a: Action, k: nat)
    requires Mine(sys, k, user)
    ensures Mine(Act(sys, user, unseal, a), k, user)
  {
    if a.ServerTurn? && a.kid in sys.s.kids {
      TurnStaysMine(sys, user, unseal, a.kid, a.ch, a.keyOk, a.rowid, k);
    }
  }

  lemma {:induction false} TurnStaysMine(
    sys: System, user: string, unseal: Unseal, j: nat, ch: Choice, keyOk: bool, rowid: int, k: nat)
    requires Mine(sys, k, user) && j in sys.s.kids
    ensures Mine(Turned(sys, user, unseal, j, ch, keyOk, rowid), k, user)
  {
    var kid := sys.s.kids[j];
    if kid.phase.Committing? {
      ExecuteRefinesExec(sys.s.t, kid, kid.phase.cmd, ch);
    } else {
      ProceedKeepsUser(sys.s.users, kid, ch, keyOk, rowid);
    }
  }

  /** What an action does to the diary: a commit is the operation of its call, and nothing else changes it. */
  lemma {:induction false} ActDiary(sys: System, user: string, unseal: Unseal, m0: Diary, a: Action)
    requires SystemInv(sys, user, unseal, m0) && SystemInv(Act(sys, user, unseal, a), user, unseal, m0)
    ensures var m, m' := Decoded(sys.s.t, user, unseal), Decoded(Act(sys, user, unseal, a).s.t, user, unseal);
            if Commits(sys, user, a) then
              var op := Commit(sys, a.kid, a.ch, user, unseal); DiaryOp(m, op.last, op.call, op.ch, op.result, m')
            else m' == m
  {
    ActTrace(sys, user, unseal, a);
    RunStep(sys.trace, Act(sys, user, unseal, a).trace, m0, Decoded(sys.s.t, user, unseal),
            Decoded(Act(sys, user, unseal, a).s.t, user, unseal));
  }

  /** Two runs that differ by one operation at most. */
  lemma {:induction false} RunStep(trace: seq<Operation>, more: seq<Operation>, m0: Diary, m: Diary, m': Diary)
    requires IsRun(trace, m0, m) && IsRun(more, m0, m')
    ensures more == trace ==> m' == m
    ensures |more| == |trace| + 1 && trace <= more ==>
              var op := more[|trace|]; DiaryOp(m, op.last, op.call, op.ch, op.result, m')
  {
    if |more| == |trace| + 1 && trace <= more {
      var n := |trace|;
      assert DiaryOp(more[n].before, more[n].last, more[n].call, more[n].ch, more[n].result, more[n].after);
      if n > 0 {
        assert more[n - 1] == trace[n - 1] && more[n - 1].after == more[n].before;
      }
    }
  }

  /** What a client has heard of its operations: all results, or all but the one it waits for. */
  ghost predicate Heard(p: Peer, results: seq<Result>) {
    p.done == results || (p.waiting.Some? && results != [] && p.done == results[..|results| - 1])
  }

  lemma {:induction false} PeerHasHeard(sys: System, user: string, unseal: Unseal, m0: Diary, k: nat)
    requires SystemInv(sys, user, unseal, m0) && k in sys.peers
    ensures Mine(sys, k, user) && Heard(sys.peers[k], ResultsOf(sys.trace, |sys.trace|, k))
    ensures sys.s.kids[k].phase.Committing? ==>
              sys.peers[k].waiting.Some? && sys.peers[k].done == ResultsOf(sys.trace, |sys.trace|, k)
  {
    assert PeerOk(sys.s.kids[k], sys.peers[k], sys.trace, k, user, unseal);
  }

  /** A call that returns gives the result of the last operation. */
  lemma {:induction false} ReturnHearsResult(
    kid: Child, p: Peer, trace: seq<Operation>, k: nat, user: string, unseal: Unseal)
    requires PeerOk(kid, p, trace, k, user, unseal) && p.waiting.Some?
    ensures var p', results := Returned(kid, p, unseal), ResultsOf(trace, |trace|, k);
            p' == p || (p'.waiting.None? && p'.done == results && p.done != results)
  {
    ReturnedInStep(kid, p, ResultsOf(trace, |trace|, k), unseal);
    ReturnedIsNew(kid, p, ResultsOf(trace, |trace|, k), unseal);
  }

  lemma {:induction false} ReturnedIsNew(kid: Child, p: Peer, results: seq<Result>, unseal: Unseal)
    requires InStep(kid, p, results, unseal) && p.waiting.Some?
    requires InStep(kid, Returned(kid, p, unseal), results, unseal)
    ensures var p' := Returned(kid, p, unseal);
            p' == p || (p'.waiting.None? && p'.done == results && p.done != results)
  {
  }

  /** Real time between clients: the trace only grows, so an operation whose call has returned comes before every
      operation whose call has not been sent. */
  lemma {:induction false} TraceGrows(sys: System, user: string, unseal: Unseal, actions: seq<Action>)
    ensures sys.trace <= Play(sys, user, unseal, actions).trace
    decreases |actions|
  {
    if actions != [] {
      OneActGrows(sys, user, unseal, actions[0]);
      TraceGrows(Act(sys, user, unseal, actions[0]), user, unseal, actions[1..]);
    }
  }

  lemma {:induction false} OneActGrows(sys: System, user: string, unseal: Unseal, a: Action)
    ensures sys.trace <= Act(sys, user, unseal, a).trace
  {
  }

  /** The whole statement from a server that has just started: for every interleaving of any number of clients of the
      user with any traffic of others, the calls in the order of their commits are a run of one map from what the
      tables held to what they hold now, and every client that has returned from its calls has the results which that
      run gives them, with nothing left over on its connection. */
  lemma {:induction false} ClientsShareOneMap(
    users: T.Users, t: T.Tables, user: string, unseal: Unseal, actions: seq<Action>)
    requires t.Valid() && Sealed(t, user)
    requires Play(Idle(users, t), user, unseal, actions).s.t.nextId <= INT_MAX + 1
    ensures var end := Play(Idle(users, t), user, unseal, actions);
            && IsRun(end.trace, Decoded(t, user, unseal), Decoded(end.s.t, user, unseal))
            && (forall i, j | 0 <= i < j < |end.trace| && Posts(end.trace[i]) && Posts(end.trace[j]) ::
                  end.trace[i].result.n < end.trace[j].result.n)
            && forall k | k in end.peers && end.peers[k].waiting.None? ::
                 && k in end.s.kids
                 && (!BeforeLoop(end.s.kids[k]) ==>
                       && end.peers[k].done == ResultsOf(end.trace, |end.trace|, k)
                       && end.s.kids[k].inbox == [] && end.peers[k].read == |end.s.kids[k].sent|)
  {
    var m0 := Decoded(t, user, unseal);
    var end := Play(Idle(users, t), user, unseal, actions);
    IdleSystem(users, t, user, unseal);
    StackRefinesMap(Idle(users, t), user, unseal, m0, actions);
    forall i, j | 0 <= i < j < |end.trace| && Posts(end.trace[i]) && Posts(end.trace[j])
      ensures end.trace[i].result.n < end.trace[j].result.n
    {
      IdsIncrease(end.trace, m0, Decoded(end.s.t, user, unseal), i, j);
    }
    forall k | k in end.peers && end.peers[k].waiting.None?
      ensures k in end.s.kids
      ensures !BeforeLoop(end.s.kids[k]) ==>
                && end.peers[k].done == ResultsOf(end.trace, |end.trace|, k)
                && end.s.kids[k].inbox == [] && end.peers[k].read == |end.s.kids[k].sent|
    {
      BetweenCallsNothingIsUnderWay(end, user, unseal, m0, k);
    }
  }

  /** The server under the clients is the concurrent server of Children: an action is one event of it, or, when a client
      only reads or does something out of turn, none. Every connection, every line of another user and every turn of a
      child, in any order, is an action. */
  lemma {:induction false} ActIsServerStep(sys: System, user: string, unseal: Unseal, a: Action)
    returns (events: seq<Event>)
    ensures |events| <= 1 && Act(sys, user, unseal, a).s == Run(sys.s, events)
    ensures a.Open? ==> Act(sys, user, unseal, a).s == Step(sys.s, Connect(a.kid, a.user))
    ensures a.OtherTraffic? && a.kid in sys.s.kids && sys.s.kids[a.kid].user != user ==>
              Act(sys, user, unseal, a).s == Step(sys.s, Deliver(a.kid, a.line))
    ensures a.ServerTurn? ==> Act(sys, user, unseal, a).s == Step(sys.s, Turn(a.kid, a.ch, a.keyOk, a.rowid))
  {
    var s' := Act(sys, user, unseal, a).s;
    if s' == sys.s {
      events := [];
    } else {
      events := [match a
                 case Open(k, u) => Connect(k, u)
                 case OtherTraffic(k, line) => Deliver(k, line)
                 case Handshake(k, line) => Deliver(k, line)
                 case ServerTurn(k, ch, keyOk, rowid) => Turn(k, ch, keyOk, rowid)
                 case Begin(k, call) => Deliver(k, LineOf(call))
                 case Finish(k) => Deliver(k, "")];
      assert Run(sys.s, events) == Step(sys.s, events[0]);
    }
  }

  // ---------------------------------------------------------------------------------------------
  // Calls complete
  // ---------------------------------------------------------------------------------------------

  function OwnTurn(k: nat, ch: Choice): Action {
    ServerTurn(k, ch, true, 0)
  }

  /** n turns of one child. */
  function Turns(k: nat, ch: Choice, n: nat): seq<Action> {
    if n == 0 then [] else [OwnTurn(k, ch)] + Turns(k, ch, n - 1)
  }

  lemma {:induction false} PlayFirst(sys: System, user: string, unseal: Unseal, a: Action, rest: seq<Action>)
    ensures Play(sys, user, unseal, [a] + rest) == Play(Act(sys, user, unseal, a), user, unseal, rest)
  {
    assert ([a] + rest)[1..] == rest;
  }

  /** What a new client of the user does until its child serves it. */
  function Joining(user: string, k: nat, key: string, ch: Choice): seq<Action> {
    [Open(k, user), OwnTurn(k, ch), Handshake(k, "REGISTER " + key), OwnTurn(k, ch), OwnTurn(k, ch)]
  }

  /** A new client is served after connecting and, if it is asked for one, sending a valid key; the key of a user who
      had none is then the one that was sent. */
  lemma {:induction false} NewClientIsServed(
    sys: System, user: string, unseal: Unseal, k: nat, key: string, ch: Choice)
    requires k !in sys.s.kids && ch.rc
    ensures var end := Play(sys, user, unseal, Joining(user, k, key, ch));
            && Mine(end, k, user) && end.s.kids[k].phase.Ready? && end.s.kids[k].inbox == []
            && end.peers == sys.peers[k := Peer(None, 0, [])] && end.trace == sys.trace && end.s.t == sys.s.t
            && end.s.users == if user in sys.s.users then sys.s.users else sys.s.users[user := key]
  {
    var turn, send := OwnTurn(k, ch), Handshake(k, "REGISTER " + key);
    var joined := Act(sys, user, unseal, Open(k, user));
    var greeted := Act(joined, user, unseal, turn);
    PlayFirst(sys, user, unseal, Open(k, user), [turn, send, turn, turn]);
    PlayFirst(joined, user, unseal, turn, [send, turn, turn]);
    KeyIsSent(greeted, user, unseal, k, key, ch);
  }

  lemma {:induction false} KeyIsSent(sys: System, user: string, unseal: Unseal, k: nat, key: string, ch: Choice)
    requires Mine(sys, k, user) && sys.s.kids[k].inbox == [] && ch.rc
    requires if user in sys.s.users then sys.s.kids[k].phase.Ready? else sys.s.kids[k].phase.AwaitingKey?
    ensures var turn := OwnTurn(k, ch);
            var end := Play(sys, user, unseal, [Handshake(k, "REGISTER " + key), turn, turn]);
            && Mine(end, k, user) && end.s.kids[k].phase.Ready? && end.s.kids[k].inbox == []
            && end.peers == sys.peers && end.trace == sys.trace && end.s.t == sys.s.t
            && end.s.users == if user in sys.s.users then sys.s.users else sys.s.users[user := key]
  {
    var turn, send := OwnTurn(k, ch), Handshake(k, "REGISTER " + key);
    var sent := Act(sys, user, unseal, send);
    var read := Act(sent, user, unseal, turn);
    PlayFirst(sys, user, unseal, send, [turn, turn]);
    PlayFirst(sent, user, unseal, turn, [turn]);
    PlayFirst(read, user, unseal, turn, []);
    if user !in sys.s.users {
      var line := "REGISTER " + key;
      assert line[9..] == key && line[..9] == "REGISTER ";
      assert sent.s.kids[k].inbox == [line];
    }
  }

  /** Everything but child k is as it was. */
  predicate OnlyChild(sys: System, sys': System, k: nat, kid: Child) {
    sys' == sys.(s := sys.s.(kids := sys.s.kids[k := kid]))
  }

  lemma {:induction false} QuietTurn(sys: System, user: string, unseal: Unseal, k: nat, ch: Choice)
    requires Mine(sys, k, user)
    requires var phase := sys.s.kids[k].phase; !phase.Committing? && !phase.Registering?
    ensures OnlyChild(sys, Act(sys, user, unseal, OwnTurn(k, ch)), k, Proceed(sys.s.users, sys.s.kids[k], ch, true, 0))
  {
  }

  /** The child sends all that it is sending, and waits for the next command. */
  lemma {:induction false} SendsAll(sys: System, user: string, unseal: Unseal, k: nat, ch: Choice)
    returns (n: nat, kid: Child)
    requires Mine(sys, k, user) && sys.s.kids[k].phase.Sending? && !sys.s.kids[k].phase.quit
    requires sys.s.kids[k].phase.lines != []
    ensures OnlyChild(sys, Play(sys, user, unseal, Turns(k, ch, n)), k, kid)
    ensures kid.phase.Ready? && kid.inbox == sys.s.kids[k].inbox && kid.user == user
    decreases |sys.s.kids[k].phase.lines|
  {
    var next := Act(sys, user, unseal, OwnTurn(k, ch));
    QuietTurn(sys, user, unseal, k, ch);
    if |sys.s.kids[k].phase.lines| == 1 {
      n, kid := 0, next.s.kids[k];
    } else {
      n, kid := SendsAll(next, user, unseal, k, ch);
    }
    PlayFirst(sys, user, unseal, OwnTurn(k, ch), Turns(k, ch, n));
    n := n + 1;
  }

  /** The child answers. */
  lemma {:induction false} AnswersAll(sys: System, user: string, unseal: Unseal, k: nat, ch: Choice)
    returns (n: nat, kid: Child)
    requires Mine(sys, k, user) && Answering(sys.s.kids[k])
    ensures OnlyChild(sys, Play(sys, user, unseal, Turns(k, ch, n)), k, kid)
    ensures kid.phase.Ready? && kid.inbox == sys.s.kids[k].inbox && kid.user == user
  {
    var phase := sys.s.kids[k].phase;
    if phase.Ready? {
      n, kid := 0, sys.s.kids[k];
      assert sys.s.kids == sys.s.kids[k := kid];
    } else if phase.Sending? {
      n, kid := SendsAll(sys, user, unseal, k, ch);
    } else {
      var next := Act(sys, user, unseal, OwnTurn(k, ch));
      QuietTurn(sys, user, unseal, k, ch);
      n, kid := SendsAll(next, user, unseal, k, ch);
      PlayFirst(sys, user, unseal, OwnTurn(k, ch), Turns(k, ch, n));
      n := n + 1;
    }
  }

  /** The turn of a child that commits the call of its client. */
  lemma {:induction false} CommitTurn(sys: System, user: string, unseal: Unseal, k: nat, ch: Choice, call: Call)
    requires Mine(sys, k, user) && sys.peers[k].waiting == Some(call)
    requires sys.s.kids[k].phase == Committing(CommandOf(call))
    ensures var next := Act(sys, user, unseal, OwnTurn(k, ch));
            && Mine(next, k, user) && Answering(next.s.kids[k]) && next.s.kids[k].inbox == sys.s.kids[k].inbox
            && next.peers == sys.peers && next.trace == sys.trace + [Commit(sys, k, ch, user, unseal)]
            && next.s.t == Exec(sys.s.t, user, CommandOf(call), ch).0
  {
    ExecuteRefinesExec(sys.s.t, sys.s.kids[k], CommandOf(call), ch);
    ExecuteAnswers(sys.s.t, sys.s.kids[k], CommandOf(call), ch);
  }

  /** A child that has the line of its client's call serves it when it gets its turns. */
  lemma {:induction false} ServesCall(sys: System, user: string, unseal: Unseal, k: nat, ch: Choice, call: Call)
    returns (n: nat)
    requires Mine(sys, k, user) && sys.peers[k].waiting == Some(call) && LegalCall(call, unseal)
    requires sys.s.kids[k].phase.Ready? && sys.s.kids[k].inbox == [LineOf(call)]
    ensures var end := Play(sys, user, unseal, Turns(k, ch, n));
            && Mine(end, k, user) && end.s.kids[k].phase.Ready? && end.s.kids[k].inbox == []
            && end.peers == sys.peers && end.s.t == Exec(sys.s.t, user, CommandOf(call), ch).0
            && |end.trace| == |sys.trace| + 1 && sys.trace <= end.trace
            && end.trace[|sys.trace|].kid == k && end.trace[|sys.trace|].call == call && end.trace[|sys.trace|].ch == ch
  {
    CallIsUnderstood(call, unseal);
    var read := Act(sys, user, unseal, OwnTurn(k, ch));
    QuietTurn(sys, user, unseal, k, ch);
    var done := Act(read, user, unseal, OwnTurn(k, ch));
    CommitTurn(read, user, unseal, k, ch, call);
    var kid;
    n, kid := AnswersAll(done, user, unseal, k, ch);
    PlayFirst(read, user, unseal, OwnTurn(k, ch), Turns(k, ch, n));
    PlayFirst(sys, user, unseal, OwnTurn(k, ch), Turns(k, ch, n + 1));
    n := n + 2;
  }

  /** What a child that has nothing left to say has sent is the whole reply. */
  lemma {:induction false} ReadySaidAll(kid: Child, p: Peer, results: seq<Result>, unseal: Unseal)
    requires InStep(kid, p, results, unseal) && p.waiting.Some? && kid.phase.Ready? && kid.inbox == []
    ensures p.read <= |kid.sent| && results != [] && p.done == results[..|results| - 1]
    ensures ReadReply(p.waiting.value, kid.sent[p.read..], unseal) == Some((results[|results| - 1], []))
  {
    assert kid.sent[p.read..] + Owed(kid) == kid.sent[p.read..];
    assert Replying(kid, p, p.waiting.value, results, unseal);
  }

  lemma {:induction false} ReturnsWith(kid: Child, p: Peer, r: Result, unseal: Unseal)
    requires p.waiting.Some? && p.read <= |kid.sent|
    requires ReadReply(p.waiting.value, kid.sent[p.read..], unseal) == Some((r, []))
    ensures Returned(kid, p, unseal) == Peer(None, |kid.sent|, p.done + [r])
  {
  }

  lemma {:induction false} LastIsLast(done: seq<Result>, results: seq<Result>)
    requires results != [] && done == results[..|results| - 1]
    ensures done + [results[|results| - 1]] == results
  {
    assert results == results[..|results| - 1] + [results[|results| - 1]];
  }

  /** A client whose child has nothing left to say returns, with the last result. */
  lemma {:induction false} ReadyReturns(kid: Child, p: Peer, results: seq<Result>, unseal: Unseal)
    requires InStep(kid, p, results, unseal) && p.waiting.Some? && kid.phase.Ready? && kid.inbox == []
    ensures Returned(kid, p, unseal) == Peer(None, |kid.sent|, results) && results != []
    ensures p.done == results[..|results| - 1]
  {
    ReadySaidAll(kid, p, results, unseal);
    LastIsLast(p.done, results);
    ReturnsWith(kid, p, results[|results| - 1], unseal);
  }

  /** No call gets stuck: from any state in which a client's call is under way at its child, turns of that child alone
      do the operation, and then the client returns from the call with its result. */
  lemma {:induction false} CallCompletes(
    sys: System, user: string, unseal: Unseal, m0: Diary, k: nat, ch: Choice, call: Call)
    returns (n: nat)
    requires SystemInv(sys, user, unseal, m0) && Mine(sys, k, user) && sys.peers[k].waiting == Some(call)
    requires LegalCall(call, unseal) && sys.s.kids[k].phase.Ready? && sys.s.kids[k].inbox == [LineOf(call)]
    requires Exec(sys.s.t, user, CommandOf(call), ch).0.nextId <= INT_MAX + 1
    ensures var end := Play(sys, user, unseal, Turns(k, ch, n));
            && SystemInv(end, user, unseal, m0) && Mine(end, k, user)
            && |end.trace| == |sys.trace| + 1 && sys.trace <= end.trace
            && var op, p := end.trace[|sys.trace|], Returned(end.s.kids[k], end.peers[k], unseal);
               && op.kid == k && op.call == call && op.ch == ch
               && p.waiting.None? && p.done == sys.peers[k].done + [op.result]
               && DiaryOp(Decoded(sys.s.t, user, unseal), op.last, call, ch, op.result, Decoded(end.s.t, user, unseal))
  {
    n := ServesCall(sys, user, unseal, k, ch, call);
    var end := Play(sys, user, unseal, Turns(k, ch, n));
    StackRefinesMap(sys, user, unseal, m0, Turns(k, ch, n));
    RunStep(sys.trace, end.trace, m0, Decoded(sys.s.t, user, unseal), Decoded(end.s.t, user, unseal));
    LastResult(end, user, unseal, m0, k);
  }

  lemma {:induction false} LastResult(sys: System, user: string, unseal: Unseal, m0: Diary, k: nat)
    requires SystemInv(sys, user, unseal, m0) && Mine(sys, k, user) && sys.peers[k].waiting.Some?
    requires sys.s.kids[k].phase.Ready? && sys.s.kids[k].inbox == []
    requires sys.trace != [] && sys.trace[|sys.trace| - 1].kid == k
    ensures var p := Returned(sys.s.kids[k], sys.peers[k], unseal);
            p.waiting.None? && p.done == sys.peers[k].done + [sys.trace[|sys.trace| - 1].result]
  {
    var results := ResultsOf(sys.trace, |sys.trace|, k);
    assert PeerOk(sys.s.kids[k], sys.peers[k], sys.trace, k, user, unseal);
    ReadyReturns(sys.s.kids[k], sys.peers[k], results, unseal);
    assert results == results[..|results| - 1] + [sys.trace[|sys.trace| - 1].result];
  }
}
