/** The forked children of the server, taking small steps on the shared database. A statement is one step, and
    reading the connection's rowid or change count is a later one, so other children run in between. Every statement
    that commits is recorded in a log, which turns out to be a linearization of the run. */
module Children {
  import opened Options
  import opened Decimal
  import opened CStrings
  import opened Dialect
  import opened Handler
  import T = Tables

  datatype Phase =
    | Greeting                                  // about to look the user up
    | AwaitingKey                               // REGISTER sent
    | Registering(key: string)                  // about to run INSERT OR IGNORE
    | Ready                                     // about to read a command
    | Committing(cmd: Command)                  // about to run the statement
    | ReadingRowid(rc: bool)                    // statement done, about to read last_insert_rowid
    | ReadingChanges(rc: bool)                  // statement done, about to read changes
    | Sending(lines: seq<string>, quit: bool)   // about to send these lines
    | Closed

  /** lastRowid and changes are fields of the child's own connection. got and sent are the lines read and written
      by the command loop so far, greeted the lines written before it. */
  datatype Child = Child(
    user: string, phase: Phase, lastRowid: int, changes: int,
    inbox: seq<string>, greeted: seq<string>, got: seq<string>, sent: seq<string>)

  datatype Commit = Commit(kid: nat, user: string, cmd: Command, ch: Choice)

  datatype Server = Server(users: T.Users, t: T.Tables, kids: map<nat, Child>, log: seq<Commit>)

  /** keyOk: the key sent is base64 of the right length; rowid: what registering does to last_insert_rowid. */
  datatype Event =
    | Connect(kid: nat, user: string)
    | Deliver(kid: nat, line: string)
    | Turn(kid: nat, ch: Choice, keyOk: bool, rowid: int)

  function Started(users: T.Users, t: T.Tables): Server {
    Server(users, t, map[], [])
  }

  // ---------------------------------------------------------------------------------------------
  // Steps
  // ---------------------------------------------------------------------------------------------

  /** Executing the statement of a command: the tables and the child afterwards. */
  function Execute(t: T.Tables, kid: Child, cmd: Command, ch: Choice): (T.Tables, Child) {
    match cmd
    case Post(ts, data) =>
      if ch.rc then
        (T.InsertEntry(t, kid.user, Stamp(ts, ch.clock), data),
         kid.(lastRowid := t.nextId, changes := 1, phase := ReadingRowid(true)))
      else (t, kid.(phase := ReadingRowid(false)))
    case Update(id, data) =>
      if ch.rc then
        (T.UpdateEntry(t, kid.user, id, data),
         kid.(changes := if t.Owns(kid.user, id) then 1 else 0, phase := ReadingChanges(true)))
      else (t, kid.(phase := ReadingChanges(false)))
    case Delete(id) =>
      if ch.rc then
        (T.DeleteEntry(t, kid.user, id),
         kid.(changes := if t.Owns(kid.user, id) then 1 else 0, phase := ReadingChanges(true)))
      else (t, kid.(phase := ReadingChanges(false)))
    case Get =>
      if ch.calloc then (t, kid.(phase := Sending(GetReply(Collected(t, kid.user, ch.dropped)), false)))
      else (t, kid.(phase := Sending(["FAIL out of memory"], false)))
    case Quit => (t, kid.(phase := Sending(["BYE"], true)))
    case BadUpdate => (t, kid.(phase := Sending(["FAIL invalid UPDATE format"], false)))
    case Unknown => (t, kid.(phase := Sending(["FAIL unknown command"], false)))
  }

  function Send(kid: Child): Child
    requires kid.phase.Sending?
  {
    var Sending(lines, quit) := kid.phase;
    if lines == [] then kid.(phase := if quit then Closed else Ready) else
      kid.(sent := kid.sent + [lines[0]],
           phase := if |lines| > 1 then Sending(lines[1..], quit) else if quit then Closed else Ready)
  }

  /** The turn of a child that is not about to run an entries statement. */
  function Proceed(users: T.Users, kid: Child, ch: Choice, keyOk: bool, rowid: int): Child
    requires !kid.phase.Committing?
  {
    match kid.phase
    case Greeting =>
      if kid.user in users then kid.(greeted := kid.greeted + ["OK"], phase := Ready)
      else kid.(greeted := kid.greeted + ["REGISTER"], phase := AwaitingKey)
    case AwaitingKey =>
      if kid.inbox == [] then kid else
        var line, rest := kid.inbox[0], kid.inbox[1..];
        if !StartsWith(line, "REGISTER ") then
          kid.(inbox := rest, phase := Closed, greeted := kid.greeted + ["FAIL expected REGISTER <enc_pubkey_b64>"])
        else if !keyOk then
          kid.(inbox := rest, phase := Closed, greeted := kid.greeted + ["FAIL invalid encryption key"])
        else
          kid.(inbox := rest, phase := Registering(line[9..]))
    case Registering(key) =>
      if !ch.rc then kid.(phase := Closed, greeted := kid.greeted + ["FAIL could not register user"])
      else if kid.user in users then kid.(phase := Ready, greeted := kid.greeted + ["OK"], changes := 0)
      else kid.(phase := Ready, greeted := kid.greeted + ["OK"], lastRowid := rowid, changes := 1)
    case Ready =>
      if kid.inbox == [] then kid else
        kid.(inbox := kid.inbox[1..], got := kid.got + [kid.inbox[0]], phase := Committing(ParseCommand(kid.inbox[0])))
    case ReadingRowid(rc) =>
      kid.(phase := Sending([PostReply(if rc then ToInt(kid.lastRowid) else -1)], false))
    case ReadingChanges(rc) =>
      kid.(phase := Sending([ChangeReply(rc && kid.changes > 0)], false))
    case Sending(_, _) => Send(kid)
    case Closed => kid
  }

  function TakeTurn(s: Server, k: nat, ch: Choice, keyOk: bool, rowid: int): Server
    requires k in s.kids
  {
    var kid := s.kids[k];
    if kid.phase.Committing? then
      var (t, kid') := Execute(s.t, kid, kid.phase.cmd, ch);
      s.(t := t, kids := s.kids[k := kid'], log := s.log + [Commit(k, kid.user, kid.phase.cmd, ch)])
    else
      var users :=
        if kid.phase.Registering? && ch.rc then T.RegisterUser(s.users, kid.user, kid.phase.key) else s.users;
      s.(users := users, kids := s.kids[k := Proceed(s.users, kid, ch, keyOk, rowid)])
  }

  function Step(s: Server, e: Event): Server {
    match e
    case Connect(k, user) =>
      if k in s.kids then s else s.(kids := s.kids[k := Child(user, Greeting, 0, 0, [], [], [], [])])
    case Deliver(k, line) =>
      if k !in s.kids then s else s.(kids := s.kids[k := s.kids[k].(inbox := s.kids[k].inbox + [line])])
    case Turn(k, ch, keyOk, rowid) =>
      if k !in s.kids then s else TakeTurn(s, k, ch, keyOk, rowid)
  }

  function Run(s: Server, events: seq<Event>): Server
    decreases |events|
  {
    if events == [] then s else Run(Step(s, events[0]), events[1..])
  }

  // ---------------------------------------------------------------------------------------------
  // The log as a sequential run
  // ---------------------------------------------------------------------------------------------

  /** The entries table after the first n commits, run one after the other on the atomic specification. */
  function After(t0: T.Tables, log: seq<Commit>, n: nat): T.Tables
    requires n <= |log|
  {
    if n == 0 then t0 else Exec(After(t0, log, n - 1), log[n - 1].user, log[n - 1].cmd, log[n - 1].ch).0
  }

  /** What commit i answers in that sequential run. */
  function Answer(t0: T.Tables, log: seq<Commit>, i: nat): seq<string>
    requires i < |log|
  {
    Exec(After(t0, log, i), log[i].user, log[i].cmd, log[i].ch).1
  }

  /** All lines that the sequential run answers to one child, and the commands it gets from it. */
  function Answers(t0: T.Tables, log: seq<Commit>, n: nat, k: nat): seq<string>
    requires n <= |log|
  {
    if n == 0 then [] else
      Answers(t0, log, n - 1, k) + if log[n - 1].kid == k then Answer(t0, log, n - 1) else []
  }

  function Commands(log: seq<Commit>, n: nat, k: nat): seq<Command>
    requires n <= |log|
  {
    if n == 0 then [] else Commands(log, n - 1, k) + if log[n - 1].kid == k then [log[n - 1].cmd] else []
  }

  function Parsed(lines: seq<string>): seq<Command> {
    if lines == [] then [] else Parsed(lines[..|lines| - 1]) + [ParseCommand(lines[|lines| - 1])]
  }

  /** The lines a child is still going to send for its last command. */
  function Owed(kid: Child): seq<string> {
    match kid.phase
    case ReadingRowid(rc) => [PostReply(if rc then ToInt(kid.lastRowid) else -1)]
    case ReadingChanges(rc) => [ChangeReply(rc && kid.changes > 0)]
    case Sending(lines, _) => lines
    case _ => []
  }

  /** The command a child has read but whose statement it has not run. */
  function Uncommitted(kid: Child): seq<Command> {
    if kid.phase.Committing? then [kid.phase.cmd] else []
  }

  predicate BeforeLoop(kid: Child) {
    kid.phase.Greeting? || kid.phase.AwaitingKey? || kid.phase.Registering?
  }

  // ---------------------------------------------------------------------------------------------
  // Linearizability
  // ---------------------------------------------------------------------------------------------

  /** What a child wrote, and still owes, are these answers, and what it read are these commands and possibly one
      that it has not committed. */
  ghost predicate Explained(kid: Child, answers: seq<string>, commands: seq<Command>) {
    && kid.sent + Owed(kid) == answers
    && Parsed(kid.got) == commands + Uncommitted(kid)
    && (BeforeLoop(kid) ==> kid.got == [] && kid.sent == [])
  }

  /** The log explains everything every child read and wrote. */
  ghost predicate Linearized(s: Server, t0: T.Tables) {
    && s.t == After(t0, s.log, |s.log|)
    && (forall k | k in s.kids :: Fits(s.kids[k], t0, s.log, k))
  }

  /** The log explains child k. */
  ghost predicate Fits(kid: Child, t0: T.Tables, log: seq<Commit>, k: nat) {
    Explained(kid, Answers(t0, log, |log|, k), Commands(log, |log|, k))
  }

  /** Every commit is by a child and for the user that this child authenticated as. */
  ghost predicate Attributed(s: Server) {
    forall i | 0 <= i < |s.log| :: s.log[i].kid in s.kids && s.log[i].user == s.kids[s.log[i].kid].user
  }

  /** A longer log has the same beginning. */
  lemma {:induction false} LogPrefix(t0: T.Tables, log: seq<Commit>, more: seq<Commit>, n: nat, k: nat)
    requires n <= |log| && log <= more
    ensures After(t0, more, n) == After(t0, log, n)
    ensures Answers(t0, more, n, k) == Answers(t0, log, n, k)
    ensures Commands(more, n, k) == Commands(log, n, k)
  {
    if n > 0 {
      LogPrefix(t0, log, more, n - 1, k);
    }
  }

  /** A child without commits has no answers. */
  lemma {:induction false} NoCommits(t0: T.Tables, log: seq<Commit>, n: nat, k: nat)
    requires n <= |log| && forall i | 0 <= i < n :: log[i].kid != k
    ensures Answers(t0, log, n, k) == [] && Commands(log, n, k) == []
  {
    if n > 0 {
      NoCommits(t0, log, n - 1, k);
    }
  }

  /** The statement step followed by the reading of rowid or changes answers what the atomic command answers. */
  lemma {:induction false} ExecuteRefinesExec(t: T.Tables, kid: Child, cmd: Command, ch: Choice)
    ensures var (t', kid') := Execute(t, kid, cmd, ch);
            && (t', Owed(kid')) == Exec(t, kid.user, cmd, ch)
            && kid'.(phase := kid.phase, lastRowid := kid.lastRowid, changes := kid.changes) == kid
            && Uncommitted(kid') == [] && !BeforeLoop(kid')
  {
  }

  /** One more commit is one more answer, and one more command, for its child. */
  lemma {:induction false} LogStep(t0: T.Tables, log: seq<Commit>, c: Commit, k: nat)
    ensures var t := After(t0, log, |log|);
            var (t', lines) := Exec(t, c.user, c.cmd, c.ch);
            && After(t0, log + [c], |log| + 1) == t'
            && Answers(t0, log + [c], |log| + 1, k) == Answers(t0, log, |log|, k) + (if c.kid == k then lines else [])
            && Commands(log + [c], |log| + 1, k) == Commands(log, |log|, k) + (if c.kid == k then [c.cmd] else [])
  {
    LogPrefix(t0, log, log + [c], |log|, k);
  }

  /** A child that owes the answer to the command it has committed. */
  lemma {:induction false} OneMoreAnswer(
    kid: Child, kid': Child, lines: seq<string>, answers: seq<string>, commands: seq<Command>)
    requires kid.phase.Committing? && Explained(kid, answers, commands)
    requires kid'.sent == kid.sent && kid'.got == kid.got && Owed(kid') == lines
    requires Uncommitted(kid') == [] && !BeforeLoop(kid')
    ensures Explained(kid', answers + lines, commands + [kid.phase.cmd])
  {
  }

  lemma {:induction false} CommitExplained(
    t: T.Tables, kid: Child, ch: Choice, answers: seq<string>, commands: seq<Command>)
    requires kid.phase.Committing? && Explained(kid, answers, commands)
    ensures Explained(Execute(t, kid, kid.phase.cmd, ch).1,
                      answers + Exec(t, kid.user, kid.phase.cmd, ch).1, commands + [kid.phase.cmd])
  {
    ExecuteRefinesExec(t, kid, kid.phase.cmd, ch);
    OneMoreAnswer(kid, Execute(t, kid, kid.phase.cmd, ch).1, Exec(t, kid.user, kid.phase.cmd, ch).1, answers, commands);
  }

  /** A commit of another child does not concern this one. */
  lemma {:induction false} FitsAfterOther(kid: Child, t0: T.Tables, log: seq<Commit>, c: Commit, k: nat)
    requires Fits(kid, t0, log, k) && c.kid != k
    ensures Fits(kid, t0, log + [c], k)
  {
    LogStep(t0, log, c, k);
  }

  lemma {:induction false} FitsAfterOwn(kid: Child, t0: T.Tables, log: seq<Commit>, k: nat, ch: Choice)
    requires kid.phase.Committing? && Fits(kid, t0, log, k)
    ensures Fits(Execute(After(t0, log, |log|), kid, kid.phase.cmd, ch).1, t0,
                 log + [Commit(k, kid.user, kid.phase.cmd, ch)], k)
  {
    var c := Commit(k, kid.user, kid.phase.cmd, ch);
    LogStep(t0, log, c, k);
    CommitExplained(After(t0, log, |log|), kid, ch, Answers(t0, log, |log|, k), Commands(log, |log|, k));
  }

  lemma {:induction false} CommitLinearized(s: Server, t0: T.Tables, k: nat, ch: Choice, keyOk: bool, rowid: int)
    requires Linearized(s, t0) && k in s.kids && s.kids[k].phase.Committing?
    ensures Linearized(TakeTurn(s, k, ch, keyOk, rowid), t0)
  {
    var kid := s.kids[k];
    var c := Commit(k, kid.user, kid.phase.cmd, ch);
    var (t', kid') := Execute(s.t, kid, kid.phase.cmd, ch);
    var s' := s.(t := t', kids := s.kids[k := kid'], log := s.log + [c]);
    assert t' == After(t0, s'.log, |s'.log|) by {
      ExecuteRefinesExec(s.t, kid, kid.phase.cmd, ch);
      LogStep(t0, s.log, c, k);
    }
    FitsAfterOwn(kid, t0, s.log, k, ch);
    forall j | j in s'.kids
      ensures Fits(s'.kids[j], t0, s'.log, j)
    {
      if j != k { FitsAfterOther(s.kids[j], t0, s.log, c, j); }
    }
    assert Linearized(s', t0);
    assert s' == TakeTurn(s, k, ch, keyOk, rowid);
  }

  lemma {:induction false} SendKeeps(kid: Child)
    requires kid.phase.Sending?
    ensures Send(kid).sent + Owed(Send(kid)) == kid.sent + Owed(kid)
    ensures Send(kid).got == kid.got && Uncommitted(Send(kid)) == [] && !BeforeLoop(Send(kid))
  {
    var lines := kid.phase.lines;
    if lines != [] {
      assert lines == [lines[0]] + lines[1..];
      assert kid.sent + lines == (kid.sent + [lines[0]]) + lines[1..];
    }
  }

  /** Without a commit, what a child wrote and owes stays the same. */
  lemma {:induction false} ProceedKeepsAnswers(users: T.Users, kid: Child, ch: Choice, keyOk: bool, rowid: int)
    requires !kid.phase.Committing?
    ensures var kid' := Proceed(users, kid, ch, keyOk, rowid);
            kid'.sent + Owed(kid') == kid.sent + Owed(kid)
  {
    if kid.phase.Sending? {
      SendKeeps(kid);
    }
  }

  /** And a line it reads is one it has not committed. */
  lemma {:induction false} ProceedReads(users: T.Users, kid: Child, ch: Choice, keyOk: bool, rowid: int)
    requires !kid.phase.Committing?
    ensures var kid' := Proceed(users, kid, ch, keyOk, rowid);
            && Parsed(kid'.got) == Parsed(kid.got) + Uncommitted(kid')
            && (BeforeLoop(kid') ==> BeforeLoop(kid) && kid'.got == kid.got && kid'.sent == kid.sent)
  {
    var kid' := Proceed(users, kid, ch, keyOk, rowid);
    if kid.phase.Sending? {
      SendKeeps(kid);
    } else if kid'.got != kid.got {
      assert kid'.got[..|kid.got|] == kid.got;
    }
  }

  lemma {:induction false} ProceedExplained(
    users: T.Users, kid: Child, ch: Choice, keyOk: bool, rowid: int, answers: seq<string>, commands: seq<Command>)
    requires !kid.phase.Committing? && Explained(kid, answers, commands)
    ensures Explained(Proceed(users, kid, ch, keyOk, rowid), answers, commands)
  {
    ProceedKeepsAnswers(users, kid, ch, keyOk, rowid);
    ProceedReads(users, kid, ch, keyOk, rowid);
  }

  /** Steps that commit nothing change one child at most. */
  lemma {:induction false} ChildChangeLinearized(s: Server, s': Server, t0: T.Tables, k: nat, kid: Child)
    requires Linearized(s, t0) && s'.t == s.t && s'.log == s.log && s'.kids == s.kids[k := kid]
    requires Fits(kid, t0, s.log, k)
    ensures Linearized(s', t0)
  {
  }

  lemma {:induction false} TurnLinearized(s: Server, t0: T.Tables, k: nat, ch: Choice, keyOk: bool, rowid: int)
    requires Linearized(s, t0) && k in s.kids
    ensures Linearized(TakeTurn(s, k, ch, keyOk, rowid), t0)
  {
    if s.kids[k].phase.Committing? {
      CommitLinearized(s, t0, k, ch, keyOk, rowid);
    } else {
      var kid' := Proceed(s.users, s.kids[k], ch, keyOk, rowid);
      assert Fits(kid', t0, s.log, k) by {
        assert Fits(s.kids[k], t0, s.log, k);
        ProceedExplained(s.users, s.kids[k], ch, keyOk, rowid,
                         Answers(t0, s.log, |s.log|, k), Commands(s.log, |s.log|, k));
      }
      ChildChangeLinearized(s, TakeTurn(s, k, ch, keyOk, rowid), t0, k, kid');
    }
  }

  /** A new child has no commits in the log. */
  lemma {:induction false} ConnectLinearized(s: Server, t0: T.Tables, k: nat, user: string)
    requires Linearized(s, t0) && Attributed(s) && k !in s.kids
    ensures Linearized(Step(s, Connect(k, user)), t0)
  {
    NoCommits(t0, s.log, |s.log|, k);
    var kid := Child(user, Greeting, 0, 0, [], [], [], []);
    assert Fits(kid, t0, s.log, k);
    ChildChangeLinearized(s, Step(s, Connect(k, user)), t0, k, kid);
  }

  lemma {:induction false} MoreInput(kid: Child, t0: T.Tables, log: seq<Commit>, k: nat, line: string)
    requires Fits(kid, t0, log, k)
    ensures Fits(kid.(inbox := kid.inbox + [line]), t0, log, k)
  {
    var kid' := kid.(inbox := kid.inbox + [line]);
    assert Owed(kid') == Owed(kid) && Uncommitted(kid') == Uncommitted(kid) && BeforeLoop(kid') == BeforeLoop(kid);
  }

  lemma {:induction false} DeliverLinearized(s: Server, t0: T.Tables, k: nat, line: string)
    requires Linearized(s, t0) && k in s.kids
    ensures Linearized(Step(s, Deliver(k, line)), t0)
  {
    MoreInput(s.kids[k], t0, s.log, k, line);
    ChildChangeLinearized(s, Step(s, Deliver(k, line)), t0, k, s.kids[k].(inbox := s.kids[k].inbox + [line]));
  }

  lemma {:induction false} StepLinearized(s: Server, t0: T.Tables, e: Event)
    requires Linearized(s, t0) && Attributed(s)
    ensures Linearized(Step(s, e), t0)
  {
    match e
    case Turn(k, ch, keyOk, rowid) =>
      if k in s.kids {
        TurnLinearized(s, t0, k, ch, keyOk, rowid);
        assert Step(s, e) == TakeTurn(s, k, ch, keyOk, rowid);
      }
    case Connect(k, user) =>
      if k !in s.kids { ConnectLinearized(s, t0, k, user); }
    case Deliver(k, line) =>
      if k in s.kids { DeliverLinearized(s, t0, k, line); }
  }

  lemma {:induction false} StepAttributed(s: Server, e: Event)
    requires Attributed(s)
    ensures Attributed(Step(s, e))
  {
    if e.Turn? && e.kid in s.kids && s.kids[e.kid].phase.Committing? {
      var c := Step(s, e).log[|s.log|];
      assert Step(s, e).log == s.log + [c];
    }
  }

  /** Every run of any number of children, in every interleaving, is explained by its log: the table is the one the
      log gives when its commands run one at a time, and each child has sent, or still owes, exactly the lines that
      this sequential run answers to the commands it read, in order. */
  lemma {:induction false} Linearizable(s: Server, t0: T.Tables, events: seq<Event>)
    requires Linearized(s, t0) && Attributed(s)
    ensures Linearized(Run(s, events), t0) && Attributed(Run(s, events))
    decreases |events|
  {
    if events != [] {
      StepAttributed(s, events[0]);
      StepLinearized(s, t0, events[0]);
      Linearizable(Step(s, events[0]), t0, events[1..]);
    }
  }

  /** The lines that arrive at a child, in the order of their arrival. */
  function LinesTo(events: seq<Event>, k: nat): seq<string> {
    if events == [] then [] else LineTo(events[0], k) + LinesTo(events[1..], k)
  }

  function LineTo(e: Event, k: nat): seq<string> {
    if e.Deliver? && e.kid == k then [e.line] else []
  }

  predicate PastGate(kid: Child) {
    !kid.phase.Greeting? && !kid.phase.AwaitingKey?
  }

  lemma {:induction false} StepReadsInOrder(s: Server, e: Event, k: nat)
    requires k in s.kids && PastGate(s.kids[k])
    ensures var kids := Step(s, e).kids;
            && k in kids && PastGate(kids[k])
            && kids[k].got + kids[k].inbox == s.kids[k].got + s.kids[k].inbox + LineTo(e, k)
  {
    var kid := s.kids[k];
    if e.Turn? && e.kid == k && kid.phase.Ready? && kid.inbox != [] {
      assert kid.got + kid.inbox == kid.got + [kid.inbox[0]] + kid.inbox[1..];
    }
  }

  /** In every interleaving a child past the gate reads the lines that arrive at it in the order of their arrival, each
      once; those that it has not read are waiting. */
  lemma {:induction false} ReadsInOrder(s: Server, events: seq<Event>, k: nat)
    requires k in s.kids && PastGate(s.kids[k])
    ensures var kids := Run(s, events).kids;
            k in kids && kids[k].got + kids[k].inbox == s.kids[k].got + s.kids[k].inbox + LinesTo(events, k)
    decreases |events|
  {
    if events != [] {
      StepReadsInOrder(s, events[0], k);
      ReadsInOrder(Step(s, events[0]), events[1..], k);
    }
  }

  /** Real-time order: the log only grows, so a command answered before another was read comes first in it. */
  lemma {:induction false} LogGrows(s: Server, events: seq<Event>)
    ensures s.log <= Run(s, events).log
    decreases |events|
  {
    if events != [] {
      LogGrows(Step(s, events[0]), events[1..]);
    }
  }

  /** A child that is back waiting for a command has been answered for every command it read, and nothing else. */
  lemma {:induction false} IdleChildIsAnswered(s: Server, t0: T.Tables, k: nat)
    requires Linearized(s, t0) && k in s.kids && s.kids[k].phase.Ready?
    ensures s.kids[k].sent == Answers(t0, s.log, |s.log|, k)
    ensures Parsed(s.kids[k].got) == Commands(s.log, |s.log|, k)
  {
    assert Fits(s.kids[k], t0, s.log, k);
  }

  /** Commit i is the last one of child k. */
  ghost predicate IsLastOf(log: seq<Commit>, i: nat, k: nat) {
    i < |log| && log[i].kid == k && forall j | i < j < |log| :: log[j].kid != k
  }

  /** The answers to a child end with the answer to its last commit, however many others committed since. */
  lemma {:induction false} AnswersEndWith(t0: T.Tables, log: seq<Commit>, n: nat, i: nat, k: nat)
    requires i < n <= |log| && log[i].kid == k && forall j | i < j < n :: log[j].kid != k
    ensures Answers(t0, log, n, k) == Answers(t0, log, i, k) + Answer(t0, log, i)
  {
    if i < n - 1 {
      AnswersEndWith(t0, log, n - 1, i, k);
    }
  }

  /** What a successful POST does and answers when it runs alone. */
  lemma {:induction false} PostInserts(t: T.Tables, user: string, cmd: Command, ch: Choice)
    requires t.Valid() && cmd.Post? && ch.rc
    ensures var (t', lines) := Exec(t, user, cmd, ch);
            && t.nextId !in t.entries
            && t'.entries == t.entries[t.nextId := T.Entry(user, Stamp(cmd.ts, ch.clock), cmd.data)]
            && lines == [PostReply(ToInt(t.nextId))]
  {
  }

  lemma {:induction false} AfterIsValid(t0: T.Tables, log: seq<Commit>, n: nat)
    requires t0.Valid() && n <= |log|
    ensures After(t0, log, n).Valid()
  {
    if n > 0 {
      AfterIsValid(t0, log, n - 1);
    }
  }

  /** The line that the child sent last or still owes. */
  predicate LastLineIs(kid: Child, line: string) {
    if Owed(kid) == [] then kid.sent != [] && kid.sent[|kid.sent| - 1] == line else Owed(kid)[|Owed(kid)| - 1] == line
  }

  /** It is the end of the answer to the child's last commit. */
  lemma {:induction false} LastLineIsLastAnswer(
    kid: Child, t0: T.Tables, log: seq<Commit>, k: nat, i: nat, line: string)
    requires Fits(kid, t0, log, k) && IsLastOf(log, i, k) && Answer(t0, log, i) == [line]
    ensures LastLineIs(kid, line)
  {
    AnswersEndWith(t0, log, |log|, i, k);
    EndsWith(kid.sent, Owed(kid), Answers(t0, log, i, k), line);
  }

  /** Commit i inserted one row, under an id that no row had, for the user of the child. */
  ghost predicate Inserted(t0: T.Tables, log: seq<Commit>, i: nat, id: int, user: string)
    requires i < |log|
  {
    var t, c := After(t0, log, i), log[i];
    && c.cmd.Post? && c.user == user && id !in t.entries
    && After(t0, log, i + 1).entries == t.entries[id := T.Entry(user, Stamp(c.cmd.ts, c.ch.clock), c.cmd.data)]
  }

  lemma {:induction false} CommitInserts(t0: T.Tables, log: seq<Commit>, i: nat)
    requires t0.Valid() && i < |log| && log[i].cmd.Post? && log[i].ch.rc
    ensures var id := After(t0, log, i).nextId;
            Inserted(t0, log, i, id, log[i].user) && Answer(t0, log, i) == [PostReply(ToInt(id))]
  {
    AfterIsValid(t0, log, i);
    PostInserts(After(t0, log, i), log[i].user, log[i].cmd, log[i].ch);
  }

  /** In every run of any number of children: when the last statement of a child was a successful POST, the line that
      the child sent last, or is about to send, has the id of the row which that statement inserted, whatever other
      children inserted before last_insert_rowid was read. */
  lemma {:induction false} PostAnswersItsOwnId(users: T.Users, t0: T.Tables, events: seq<Event>, k: nat, i: nat)
    returns (id: int)
    requires t0.Valid()
    requires var s := Run(Started(users, t0), events);
             k in s.kids && IsLastOf(s.log, i, k) && s.log[i].cmd.Post? && s.log[i].ch.rc
    ensures var s := Run(Started(users, t0), events);
            Inserted(t0, s.log, i, id, s.kids[k].user) && LastLineIs(s.kids[k], PostReply(ToInt(id)))
  {
    var s := Run(Started(users, t0), events);
    StartedIsLinearized(users, t0);
    Linearizable(Started(users, t0), t0, events);
    id := After(t0, s.log, i).nextId;
    CommitInserts(t0, s.log, i);
    LastLineIsLastAnswer(s.kids[k], t0, s.log, k, i, PostReply(ToInt(id)));
  }

  lemma {:induction false} EndsWith(sent: seq<string>, owed: seq<string>, before: seq<string>, line: string)
    requires sent + owed == before + [line]
    ensures owed == [] ==> sent != [] && sent[|sent| - 1] == line
    ensures owed != [] ==> owed[|owed| - 1] == line
  {
    var all := sent + owed;
    assert all[|all| - 1] == line;
    if owed == [] {
      assert all == sent;
    } else {
      assert all[|all| - 1] == owed[|owed| - 1];
    }
  }

  // ---------------------------------------------------------------------------------------------
  // QUIT
  // ---------------------------------------------------------------------------------------------

  /** Nothing is read after QUIT, which is answered by BYE and closes the connection; and the command loop ends no other
      way. */
  predicate EndsAtQuit(kid: Child) {
    && (BeforeLoop(kid) ==> kid.got == [] && kid.sent == [])
    && (forall i | 0 <= i < |kid.got| - 1 :: kid.got[i] != "QUIT")
    && (if kid.got != [] && kid.got[|kid.got| - 1] == "QUIT" then Quitting(kid)
        else !(kid.phase.Committing? && kid.phase.cmd.Quit?) && !(kid.phase.Sending? && kid.phase.quit)
             && (kid.phase.Closed? ==> kid.got == [] && kid.sent == []))
  }

  /** About to say BYE, or closed having said it. */
  predicate Quitting(kid: Child) {
    || (kid.phase.Committing? && kid.phase.cmd.Quit?)
    || (kid.phase.Sending? && kid.phase.lines == ["BYE"] && kid.phase.quit)
    || (kid.phase.Closed? && kid.sent != [] && kid.sent[|kid.sent| - 1] == "BYE")
  }

  lemma {:induction false} ExecuteEndsAtQuit(t: T.Tables, kid: Child, ch: Choice)
    requires EndsAtQuit(kid) && kid.phase.Committing?
    ensures EndsAtQuit(Execute(t, kid, kid.phase.cmd, ch).1)
  {
  }

  lemma {:induction false} SendEndsAtQuit(kid: Child)
    requires EndsAtQuit(kid) && kid.phase.Sending?
    ensures EndsAtQuit(Send(kid))
  {
  }

  lemma {:induction false} ReadEndsAtQuit(kid: Child)
    requires EndsAtQuit(kid) && kid.phase.Ready? && kid.inbox != []
    ensures EndsAtQuit(kid.(inbox := kid.inbox[1..], got := kid.got + [kid.inbox[0]],
                            phase := Committing(ParseCommand(kid.inbox[0]))))
  {
    OnlyQuitQuits(kid.inbox[0]);
  }

  lemma {:induction false} OnlyQuitQuits(line: string)
    ensures ParseCommand(line).Quit? <==> line == "QUIT"
  {
  }

  lemma {:induction false} ProceedEndsAtQuit(users: T.Users, kid: Child, ch: Choice, keyOk: bool, rowid: int)
    requires EndsAtQuit(kid) && !kid.phase.Committing?
    ensures EndsAtQuit(Proceed(users, kid, ch, keyOk, rowid))
  {
    if kid.phase.Sending? {
      SendEndsAtQuit(kid);
    } else if kid.phase.Ready? && kid.inbox != [] {
      ReadEndsAtQuit(kid);
    }
  }

  ghost predicate AllEndAtQuit(s: Server) {
    forall k | k in s.kids :: EndsAtQuit(s.kids[k])
  }

  lemma {:induction false} StepEndsAtQuit(s: Server, e: Event)
    requires AllEndAtQuit(s)
    ensures AllEndAtQuit(Step(s, e))
  {
    if e.Turn? && e.kid in s.kids {
      if s.kids[e.kid].phase.Committing? {
        ExecuteEndsAtQuit(s.t, s.kids[e.kid], e.ch);
      } else {
        ProceedEndsAtQuit(s.users, s.kids[e.kid], e.ch, e.keyOk, e.rowid);
      }
    }
  }

  lemma {:induction false} RunEndsAtQuit(s: Server, events: seq<Event>)
    requires AllEndAtQuit(s)
    ensures AllEndAtQuit(Run(s, events))
    decreases |events|
  {
    if events != [] {
      StepEndsAtQuit(s, events[0]);
      RunEndsAtQuit(Step(s, events[0]), events[1..]);
    }
  }

  /** In every run from the start of the server: a child reads nothing after QUIT, its last line is then BYE, and a
      child that has read a command closes only after QUIT. */
  lemma {:induction false} QuitIsTheEnd(users: T.Users, t: T.Tables, events: seq<Event>, k: nat)
    requires k in Run(Started(users, t), events).kids
    ensures var kid := Run(Started(users, t), events).kids[k];
            && (forall i | 0 <= i < |kid.got| - 1 :: kid.got[i] != "QUIT")
            && (kid.phase.Closed? && kid.got != [] ==>
                  kid.got[|kid.got| - 1] == "QUIT" && kid.sent != [] && kid.sent[|kid.sent| - 1] == "BYE")
            && (kid.phase.Ready? && kid.got != [] ==> kid.got[|kid.got| - 1] != "QUIT")
  {
    RunEndsAtQuit(Started(users, t), events);
  }

  /** And three turns after QUIT has arrived the child has said BYE and is closed, and no table has changed. */
  lemma {:induction false} QuitCloses(s: Server, k: nat, ch: Choice, keyOk: bool, rowid: int)
    requires k in s.kids && s.kids[k].phase.Ready? && s.kids[k].inbox != [] && s.kids[k].inbox[0] == "QUIT"
    ensures var turn := Turn(k, ch, keyOk, rowid);
            var end := Step(Step(Step(s, turn), turn), turn);
            && k in end.kids && end.kids[k].phase.Closed? && end.kids[k].sent == s.kids[k].sent + ["BYE"]
            && end.t == s.t && end.users == s.users
  {
    OnlyQuitQuits("QUIT");
    var kid := s.kids[k];
    var read := kid.(inbox := kid.inbox[1..], got := kid.got + ["QUIT"], phase := Committing(Quit));
    assert Proceed(s.users, kid, ch, keyOk, rowid) == read;
    assert Execute(s.t, read, Quit, ch) == (s.t, read.(phase := Sending(["BYE"], true)));
  }

  // ---------------------------------------------------------------------------------------------
  // Registration
  // ---------------------------------------------------------------------------------------------

  ghost predicate Registered(s: Server) {
    && (forall k | k in s.kids && !BeforeLoop(s.kids[k]) && !s.kids[k].phase.Closed? :: s.kids[k].user in s.users)
    && (forall id | id in s.t.entries :: s.t.entries[id].owner in s.users)
  }

  /** One step: the users table changes only when a child registers a user that has no key, and then only by that
      user's key; in particular a line that is rejected changes neither table. */
  lemma {:induction false} UsersChangeOnlyByRegistering(s: Server, e: Event)
    ensures var s' := Step(s, e);
            s'.users != s.users ==>
              && e.Turn? && e.kid in s.kids && s.kids[e.kid].phase.Registering? && e.ch.rc
              && s.kids[e.kid].user !in s.users
              && s'.users == s.users[s.kids[e.kid].user := s.kids[e.kid].phase.key]
              && s'.t == s.t
    ensures var s' := Step(s, e);
            e.Turn? && e.kid in s.kids && s.kids[e.kid].phase.AwaitingKey? ==> s'.users == s.users && s'.t == s.t
  {
  }

  /** A statement makes no one an owner but the child's own user. */
  lemma {:induction false} ExecuteOwners(t: T.Tables, kid: Child, cmd: Command, ch: Choice)
    ensures var t' := Execute(t, kid, cmd, ch).0;
            forall id | id in t'.entries ::
              t'.entries[id].owner == kid.user || (id in t.entries && t'.entries[id].owner == t.entries[id].owner)
  {
  }

  /** Only a child whose user is registered gets past the gate. */
  lemma {:induction false} ProceedRegistered(users: T.Users, kid: Child, ch: Choice, keyOk: bool, rowid: int)
    requires !kid.phase.Committing? && (!BeforeLoop(kid) && !kid.phase.Closed? ==> kid.user in users)
    ensures var kid' := Proceed(users, kid, ch, keyOk, rowid);
            && kid'.user == kid.user
            && (!BeforeLoop(kid') && !kid'.phase.Closed? ==> kid.user in users || (kid.phase.Registering? && ch.rc))
  {
  }

  lemma {:induction false} TurnRegistered(s: Server, k: nat, ch: Choice, keyOk: bool, rowid: int)
    requires Registered(s) && k in s.kids
    ensures Registered(TakeTurn(s, k, ch, keyOk, rowid))
    ensures var users := TakeTurn(s, k, ch, keyOk, rowid).users;
            forall u | u in s.users :: u in users && users[u] == s.users[u]
  {
    if s.kids[k].phase.Committing? {
      ExecuteOwners(s.t, s.kids[k], s.kids[k].phase.cmd, ch);
      ExecuteRefinesExec(s.t, s.kids[k], s.kids[k].phase.cmd, ch);
    } else {
      ProceedRegistered(s.users, s.kids[k], ch, keyOk, rowid);
    }
  }

  lemma {:induction false} StepRegistered(s: Server, e: Event)
    requires Registered(s)
    ensures Registered(Step(s, e))
    ensures forall u | u in s.users :: u in Step(s, e).users && Step(s, e).users[u] == s.users[u]
  {
    if e.Turn? && e.kid in s.kids {
      TurnRegistered(s, e.kid, e.ch, e.keyOk, e.rowid);
    }
  }

  /** Registration under race: with any number of children between the look-up and the insert, a key once set never
      changes, only registered users get to the command loop, and every entry belongs to a registered user. */
  lemma {:induction false} RegistrationIsStable(s: Server, events: seq<Event>)
    requires Registered(s)
    ensures Registered(Run(s, events))
    ensures forall u | u in s.users :: u in Run(s, events).users && Run(s, events).users[u] == s.users[u]
    decreases |events|
  {
    if events != [] {
      StepRegistered(s, events[0]);
      RegistrationIsStable(Step(s, events[0]), events[1..]);
    }
  }

  /** A child that takes its turns undisturbed does what the gate does; with others in between it may not, see
      BothRacersAreServed. */
  lemma {:induction false} GateInSteps(s: Server, k: nat, line: string, ch: Choice, keyOk: bool, rowid: int)
    requires k in s.kids && s.kids[k].phase.Greeting? && s.kids[k].greeted == [] && s.kids[k].inbox == [line]
    ensures var s1 := TakeTurn(s, k, ch, keyOk, rowid);
            var s3 := TakeTurn(TakeTurn(s1, k, ch, keyOk, rowid), k, ch, keyOk, rowid);
            var end := if s.kids[k].user in s.users then s1 else s3;
            (end.users, end.kids[k].greeted, end.kids[k].phase.Ready?)
            == Gate(s.users, s.kids[k].user, Some(line), keyOk, ch.rc)
  {
    var s1 := TakeTurn(s, k, ch, keyOk, rowid);
    assert [] + ["REGISTER"] == ["REGISTER"] && [] + ["OK"] == ["OK"];
    if s.kids[k].user !in s.users {
      var s2 := TakeTurn(s1, k, ch, keyOk, rowid);
      assert s1.kids[k] == s.kids[k].(phase := AwaitingKey, greeted := ["REGISTER"]);
      assert s2.kids[k].inbox == [] && s2.users == s.users;
    }
  }

  /** The gate asks only a user without a key, and a line that is not a valid key closes the connection with a failure
      and changes neither table. */
  lemma {:induction false} GateTurns(s: Server, k: nat, ch: Choice, keyOk: bool, rowid: int)
    requires k in s.kids
    ensures var kid, s' := s.kids[k], TakeTurn(s, k, ch, keyOk, rowid);
            && (kid.phase.Greeting? ==>
                  if kid.user in s.users then s'.kids[k] == kid.(phase := Ready, greeted := kid.greeted + ["OK"])
                  else s'.kids[k] == kid.(phase := AwaitingKey, greeted := kid.greeted + ["REGISTER"]))
            && (kid.phase.AwaitingKey? && kid.inbox != [] ==>
                  if "REGISTER " <= kid.inbox[0] && keyOk then
                    s'.kids[k] == kid.(phase := Registering(kid.inbox[0][9..]), inbox := kid.inbox[1..])
                  else
                    && s'.kids[k].phase.Closed? && s'.users == s.users && s'.t == s.t
                    && |s'.kids[k].greeted| == |kid.greeted| + 1 && "FAIL " <= s'.kids[k].greeted[|kid.greeted|])
  {
  }

  /** A child that registers is served exactly when its statement succeeds, and then its key is the user's exactly
      when nobody's was before; else the key is ignored, and the child does not tell. */
  lemma {:induction false} RegisteringIsServedIff(s: Server, k: nat, ch: Choice, keyOk: bool, rowid: int)
    requires k in s.kids && s.kids[k].phase.Registering?
    ensures var kid, s' := s.kids[k], TakeTurn(s, k, ch, keyOk, rowid);
            && (s'.kids[k].phase.Ready? <==> ch.rc)
            && (s'.kids[k].greeted == kid.greeted + ["OK"] <==> ch.rc)
            && (!ch.rc ==> s'.kids[k] ==
                             kid.(phase := Closed, greeted := kid.greeted + ["FAIL could not register user"]))
            && (s'.users != s.users <==> ch.rc && kid.user !in s.users)
            && (s'.users != s.users ==> s'.users == s.users[kid.user := kid.phase.key])
  {
    var users := s.users;
    var kid := s.kids[k];
    assert kid.user !in users ==> kid.user in users[kid.user := kid.phase.key];
    assert (kid.greeted + ["OK"])[|kid.greeted|] == "OK";
    assert (kid.greeted + ["FAIL could not register user"])[|kid.greeted|] != "OK";
  }

  /** A child that has asked for the key of a user. */
  function Asking(user: string): Child {
    Child(user, AwaitingKey, 0, 0, [], ["REGISTER"], [], [])
  }

  lemma {:induction false} TwoAreAsked(user: string, ch: Choice)
    ensures var s := Run(Started(map[], T.EMPTY),
                         [Connect(1, user), Connect(2, user), Turn(1, ch, true, 0), Turn(2, ch, true, 0)]);
            s.kids == map[1 := Asking(user), 2 := Asking(user)] && s.users == map[]
  {
    RunFour(Started(map[], T.EMPTY), Connect(1, user), Connect(2, user), Turn(1, ch, true, 0), Turn(2, ch, true, 0));
    assert [] + ["REGISTER"] == ["REGISTER"];
  }

  /** A child about to store the key of a user. */
  function Storing(user: string, key: string): Child {
    Asking(user).(phase := Registering(key))
  }

  lemma {:induction false} TwoAnswer(s: Server, user: string, a: string, b: string, ch: Choice)
    requires s.kids == map[1 := Asking(user), 2 := Asking(user)]
    ensures var s' := Run(s, [Deliver(1, "REGISTER " + a), Deliver(2, "REGISTER " + b),
                              Turn(1, ch, true, 0), Turn(2, ch, true, 0)]);
            s'.kids == map[1 := Storing(user, a), 2 := Storing(user, b)] && s'.users == s.users
  {
    RunFour(s, Deliver(1, "REGISTER " + a), Deliver(2, "REGISTER " + b), Turn(1, ch, true, 0), Turn(2, ch, true, 0));
    KeyIsRead(s.users, Asking(user).(inbox := [] + ["REGISTER " + a]), a, ch);
    KeyIsRead(s.users, Asking(user).(inbox := [] + ["REGISTER " + b]), b, ch);
  }

  lemma {:induction false} TwoRegister(s: Server, user: string, a: string, b: string, ch: Choice)
    requires s.kids == map[1 := Storing(user, a), 2 := Storing(user, b)] && s.users == map[] && ch.rc
    ensures var s' := Run(s, [Turn(1, ch, true, 0), Turn(2, ch, true, 0)]);
            && s'.users == map[user := a] && s'.kids.Keys == {1, 2}
            && s'.kids[1].phase.Ready? && s'.kids[1].greeted == ["REGISTER", "OK"]
            && s'.kids[2].phase.Ready? && s'.kids[2].greeted == ["REGISTER", "OK"]
  {
    RunTwo(s, Turn(1, ch, true, 0), Turn(2, ch, true, 0));
    assert ["REGISTER"] + ["OK"] == ["REGISTER", "OK"];
  }

  /** A race from the start of the server, with any two keys that are accepted: both clients of a new user are asked to
      register, both send their key, both are told OK and served, and the key of the first stays. */
  lemma {:induction false} BothRacersAreServed(
    user: string, a: string, b: string, ch: Choice) returns (events: seq<Event>)
    requires ch.rc
    ensures var s := Run(Started(map[], T.EMPTY), events);
            && s.users == map[user := a] && s.kids.Keys == {1, 2}
            && s.kids[1].phase.Ready? && s.kids[1].greeted == ["REGISTER", "OK"]
            && s.kids[2].phase.Ready? && s.kids[2].greeted == ["REGISTER", "OK"]
    ensures Deliver(1, "REGISTER " + a) in events && Deliver(2, "REGISTER " + b) in events
  {
    var s0, turns := Started(map[], T.EMPTY), [Turn(1, ch, true, 0), Turn(2, ch, true, 0)];
    var connected := [Connect(1, user), Connect(2, user), Turn(1, ch, true, 0), Turn(2, ch, true, 0)];
    var answered := [Deliver(1, "REGISTER " + a), Deliver(2, "REGISTER " + b),
                     Turn(1, ch, true, 0), Turn(2, ch, true, 0)];
    TwoAreAsked(user, ch);
    TwoAnswer(Run(s0, connected), user, a, b, ch);
    TwoRegister(Run(Run(s0, connected), answered), user, a, b, ch);
    events := connected + answered + turns;
    assert events[4] == Deliver(1, "REGISTER " + a) && events[5] == Deliver(2, "REGISTER " + b);
    RunConcat(s0, connected + answered, turns);
    RunConcat(s0, connected, answered);
  }

  lemma {:induction false} KeyIsRead(users: T.Users, kid: Child, key: string, ch: Choice)
    requires kid.phase.AwaitingKey? && kid.inbox == [] + ["REGISTER " + key]
    ensures Proceed(users, kid, ch, true, 0) == kid.(inbox := [], phase := Registering(key))
  {
    var line := "REGISTER " + key;
    assert line[9..] == key && StartsWith(line, "REGISTER ");
  }

  lemma {:induction false} RunConcat(s: Server, first: seq<Event>, second: seq<Event>)
    ensures Run(s, first + second) == Run(Run(s, first), second)
    decreases |first|
  {
    if first == [] {
      assert first + second == second;
    } else {
      assert (first + second)[1..] == first[1..] + second;
      RunConcat(Step(s, first[0]), first[1..], second);
    }
  }

  lemma {:induction false} RunTwo(s: Server, a: Event, b: Event)
    ensures Run(s, [a, b]) == Step(Step(s, a), b)
  {
    assert [a, b][1..] == [b] && [b][1..] == [];
    assert Run(Step(s, a), [b]) == Run(Step(Step(s, a), b), []);
  }

  lemma {:induction false} RunFour(s: Server, a: Event, b: Event, c: Event, d: Event)
    ensures Run(s, [a, b, c, d]) == Step(Step(Step(Step(s, a), b), c), d)
  {
    assert [a, b, c, d] == [a, b] + [c, d];
    RunConcat(s, [a, b], [c, d]);
    RunTwo(s, a, b);
    RunTwo(Step(Step(s, a), b), c, d);
  }

  /** A server that has just started is explained by the empty log. */
  lemma {:induction false} StartedIsLinearized(users: T.Users, t: T.Tables)
    ensures Linearized(Started(users, t), t) && Attributed(Started(users, t))
    ensures (forall id | id in t.entries :: t.entries[id].owner in users) ==> Registered(Started(users, t))
  {
  }
}
