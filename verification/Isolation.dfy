/** Consequences for users and ids, over every sequential run and hence, by Children.Linearizable, over every
    interleaved one: users do not interfere, ids are never reused, and a row keeps its id, owner and time stamp. */
module Isolation {
  import opened Dialect
  import opened Handler
  import opened Children
  import T = Tables

  // ---------------------------------------------------------------------------------------------
  // History of ids
  // ---------------------------------------------------------------------------------------------

  /** One command keeps ids below the next one, creates no row but the one it inserts, and changes no owner or
      time stamp. */
  lemma {:induction false} ExecHistory(t: T.Tables, user: string, cmd: Command, ch: Choice)
    requires t.Valid()
    ensures var t' := Exec(t, user, cmd, ch).0;
            && t'.Valid() && t'.nextId == (if cmd.Post? && ch.rc then t.nextId + 1 else t.nextId)
            && forall id | id in t'.entries && id < t.nextId ::
                 id in t.entries && t'.entries[id].owner == t.entries[id].owner && t'.entries[id].ts == t.entries[id].ts
  {
  }

  /** From insertion to deletion a row keeps its owner and time stamp, whatever is updated in between, and an id
      whose row is gone never names a row again. */
  lemma {:induction false} RowHistory(t0: T.Tables, log: seq<Commit>, i: nat, j: nat)
    requires t0.Valid() && i <= j <= |log|
    ensures After(t0, log, i).Valid() && After(t0, log, j).Valid()
    ensures var before, after := After(t0, log, i), After(t0, log, j);
            && before.nextId <= after.nextId
            && forall id | id in after.entries && id < before.nextId ::
                 && id in before.entries
                 && after.entries[id].owner == before.entries[id].owner
                 && after.entries[id].ts == before.entries[id].ts
  {
    if j > 0 {
      var c := log[j - 1];
      if i < j {
        RowHistory(t0, log, i, j - 1);
      } else {
        RowHistory(t0, log, i - 1, j - 1);
      }
      ExecHistory(After(t0, log, j - 1), c.user, c.cmd, c.ch);
    }
  }

  lemma {:induction false} SameAfter(t0: T.Tables, log: seq<Commit>, more: seq<Commit>, n: nat)
    requires n <= |log| && log <= more
    ensures After(t0, more, n) == After(t0, log, n)
  {
    LogPrefix(t0, log, more, n, 0);
  }

  /** The same at any two moments of an interleaved run of children. */
  lemma {:induction false} RowHistoryOfRun(s: Server, t0: T.Tables, events: seq<Event>)
    requires t0.Valid() && Linearized(s, t0) && Attributed(s)
    ensures var before, after := s.t, Run(s, events).t;
            && before.nextId <= after.nextId
            && forall id | id in after.entries && id < before.nextId ::
                 && id in before.entries
                 && after.entries[id].owner == before.entries[id].owner
                 && after.entries[id].ts == before.entries[id].ts
  {
    var end := Run(s, events);
    Linearizable(s, t0, events);
    LogGrows(s, events);
    SameAfter(t0, s.log, end.log, |s.log|);
    RowHistory(t0, end.log, |s.log|, |end.log|);
  }

  /** Two successful POSTs never get the same id, even when the first row was deleted in between. */
  lemma {:induction false} IdsAreNeverReused(t0: T.Tables, log: seq<Commit>, i: nat, j: nat)
    requires t0.Valid() && i < j < |log|
    requires log[i].cmd.Post? && log[i].ch.rc && log[j].cmd.Post? && log[j].ch.rc
    ensures After(t0, log, i).nextId < After(t0, log, j).nextId
  {
    RowHistory(t0, log, 0, i);
    ExecHistory(After(t0, log, i), log[i].user, log[i].cmd, log[i].ch);
    RowHistory(t0, log, i + 1, j);
  }

  // ---------------------------------------------------------------------------------------------
  // Per-user projection
  // ---------------------------------------------------------------------------------------------

  datatype Note = Note(ts: int, data: string)

  /** A user's own rows. */
  function View(t: T.Tables, user: string): map<int, Note> {
    map id | id in t.entries && t.entries[id].owner == user :: Note(t.entries[id].ts, t.entries[id].data)
  }

  /** A user's own part of a log: the commands, each with its child and what the environment decided, and the id each
      POST was given. */
  datatype Act = Act(kid: nat, cmd: Command, ch: Choice, id: int)

  function Projection(t0: T.Tables, log: seq<Commit>, n: nat, user: string): seq<Act>
    requires n <= |log|
  {
    if n == 0 then [] else
      var c := log[n - 1];
      Projection(t0, log, n - 1, user) +
      if c.user == user then
        [Act(c.kid, c.cmd, c.ch, if c.cmd.Post? && c.ch.rc then After(t0, log, n - 1).nextId else 0)]
      else []
  }

  /** The answers to all of a user's commands, each with the child it goes to. */
  function AnswersTo(t0: T.Tables, log: seq<Commit>, n: nat, user: string): seq<(nat, seq<string>)>
    requires n <= |log|
  {
    if n == 0 then [] else
      AnswersTo(t0, log, n - 1, user) +
      if log[n - 1].user == user then [(log[n - 1].kid, Answer(t0, log, n - 1))] else []
  }

  /** The lines in these answers that go to one child. */
  function LinesFor(answers: seq<(nat, seq<string>)>, k: nat): seq<string> {
    if answers == [] then [] else
      var last := answers[|answers| - 1];
      LinesFor(answers[..|answers| - 1], k) + if last.0 == k then last.1 else []
  }

  /** A command of one user changes no row of another. */
  lemma {:induction false} OthersDoNotInterfere(t: T.Tables, user: string, other: string, cmd: Command, ch: Choice)
    requires t.Valid() && user != other
    ensures View(Exec(t, other, cmd, ch).0, user) == View(t, user)
  {
  }

  lemma {:induction false} SelectBelowOfView(a: T.Tables, b: T.Tables, user: string, n: nat)
    requires View(a, user) == View(b, user)
    ensures T.SelectBelow(a, user, n) == T.SelectBelow(b, user, n)
  {
    if n > 0 {
      SelectBelowOfView(a, b, user, n - 1);
      assert a.Owns(user, n - 1) <==> n - 1 in View(a, user);
      assert b.Owns(user, n - 1) <==> n - 1 in View(b, user);
    }
  }

  lemma {:induction false} NothingAboveNextId(t: T.Tables, user: string, n: nat)
    requires t.Valid() && n >= t.nextId
    ensures T.SelectBelow(t, user, n) == T.Select(t, user)
  {
    if n > t.nextId {
      NothingAboveNextId(t, user, n - 1);
    }
  }

  /** The rows a GET returns depend on the user's own rows only. */
  lemma {:induction false} SelectOfView(a: T.Tables, b: T.Tables, user: string)
    requires a.Valid() && b.Valid() && View(a, user) == View(b, user)
    ensures T.Select(a, user) == T.Select(b, user)
  {
    var n := if a.nextId >= b.nextId then a.nextId else b.nextId;
    NothingAboveNextId(a, user, n);
    NothingAboveNextId(b, user, n);
    SelectBelowOfView(a, b, user, n);
  }

  /** A command of the user does the same to the user's rows, and answers the same, in any two tables that agree
      on those rows and, for a POST, on the next id. */
  lemma {:induction false} OwnCommand(a: T.Tables, b: T.Tables, user: string, cmd: Command, ch: Choice)
    requires a.Valid() && b.Valid() && View(a, user) == View(b, user)
    requires cmd.Post? && ch.rc ==> a.nextId == b.nextId
    ensures View(Exec(a, user, cmd, ch).0, user) == View(Exec(b, user, cmd, ch).0, user)
    ensures Exec(a, user, cmd, ch).1 == Exec(b, user, cmd, ch).1
  {
    SelectOfView(a, b, user);
    if cmd.Update? || cmd.Delete? {
      assert a.Owns(user, cmd.id) <==> cmd.id in View(a, user);
      assert b.Owns(user, cmd.id) <==> cmd.id in View(b, user);
    }
    ViewAfterOwn(a, user, cmd, ch);
    ViewAfterOwn(b, user, cmd, ch);
  }

  /** The effect of a command on the rows of its own user. */
  function OwnEffect(v: map<int, Note>, cmd: Command, ch: Choice, id: int): map<int, Note> {
    if !ch.rc then v else
      match cmd
      case Post(ts, data) => v[id := Note(Stamp(ts, ch.clock), data)]
      case Update(id, data) => if id in v then v[id as int := v[id].(data := data)] else v
      case Delete(id) => v - {id as int}
      case _ => v
  }

  lemma {:induction false} ViewAfterOwn(t: T.Tables, user: string, cmd: Command, ch: Choice)
    ensures View(Exec(t, user, cmd, ch).0, user) == OwnEffect(View(t, user), cmd, ch, t.nextId)
  {
  }

  /** Two runs of any users in which this user issued the same commands, with the same clock values and outcomes and
      the same ids for its POSTs, leave this user the same rows and answered every command the same, no matter what the
      other users did in either run. */
  lemma {:induction false} UsersAreIsolated(
    a0: T.Tables, a: seq<Commit>, n: nat, b0: T.Tables, b: seq<Commit>, m: nat, user: string)
    requires a0.Valid() && b0.Valid() && n <= |a| && m <= |b|
    requires View(a0, user) == View(b0, user)
    requires Projection(a0, a, n, user) == Projection(b0, b, m, user)
    ensures View(After(a0, a, n), user) == View(After(b0, b, m), user)
    ensures AnswersTo(a0, a, n, user) == AnswersTo(b0, b, m, user)
    decreases n + m
  {
    if n > 0 && a[n - 1].user != user {
      UsersAreIsolated(a0, a, n - 1, b0, b, m, user);
      RowHistory(a0, a, 0, n - 1);
      OthersDoNotInterfere(After(a0, a, n - 1), user, a[n - 1].user, a[n - 1].cmd, a[n - 1].ch);
    } else if m > 0 && b[m - 1].user != user {
      UsersAreIsolated(a0, a, n, b0, b, m - 1, user);
      RowHistory(b0, b, 0, m - 1);
      OthersDoNotInterfere(After(b0, b, m - 1), user, b[m - 1].user, b[m - 1].cmd, b[m - 1].ch);
    } else if n > 0 && m > 0 {
      LastActs(a0, a, n, b0, b, m, user);
      UsersAreIsolated(a0, a, n - 1, b0, b, m - 1, user);
      RowHistory(a0, a, 0, n - 1);
      RowHistory(b0, b, 0, m - 1);
      OwnCommand(After(a0, a, n - 1), After(b0, b, m - 1), user, a[n - 1].cmd, a[n - 1].ch);
    }
  }

  lemma {:induction false} LastActs(
    a0: T.Tables, a: seq<Commit>, n: nat, b0: T.Tables, b: seq<Commit>, m: nat, user: string)
    requires 0 < n <= |a| && 0 < m <= |b| && a[n - 1].user == user == b[m - 1].user
    requires Projection(a0, a, n, user) == Projection(b0, b, m, user)
    ensures Projection(a0, a, n - 1, user) == Projection(b0, b, m - 1, user)
    ensures a[n - 1].kid == b[m - 1].kid && a[n - 1].cmd == b[m - 1].cmd && a[n - 1].ch == b[m - 1].ch
    ensures a[n - 1].cmd.Post? && a[n - 1].ch.rc ==> After(a0, a, n - 1).nextId == After(b0, b, m - 1).nextId
  {
    var p, q := Projection(a0, a, n, user), Projection(b0, b, m, user);
    assert p[..|p| - 1] == Projection(a0, a, n - 1, user);
    assert q[..|q| - 1] == Projection(b0, b, m - 1, user);
    assert p[|p| - 1] == q[|q| - 1];
  }

  /** All answers to a child are answers to its user. */
  lemma {:induction false} AnswersOfChild(t0: T.Tables, log: seq<Commit>, n: nat, user: string, k: nat)
    requires n <= |log| && forall i | 0 <= i < n && log[i].kid == k :: log[i].user == user
    ensures Answers(t0, log, n, k) == LinesFor(AnswersTo(t0, log, n, user), k)
  {
    if n > 0 {
      AnswersOfChild(t0, log, n - 1, user, k);
      var answers := AnswersTo(t0, log, n, user);
      if log[n - 1].user == user {
        assert answers[..|answers| - 1] == AnswersTo(t0, log, n - 1, user);
      } else {
        assert answers == AnswersTo(t0, log, n - 1, user);
      }
    }
  }

  /** The same for two interleaved runs of children, at any moment of each: the user's rows are the same, and each of
      the user's children has written, or still owes, the same lines in both. */
  lemma {:induction false} ChildrenAreIsolated(a: Server, a0: T.Tables, b: Server, b0: T.Tables, user: string, k: nat)
    requires a0.Valid() && b0.Valid() && Linearized(a, a0) && Attributed(a) && Linearized(b, b0) && Attributed(b)
    requires View(a0, user) == View(b0, user)
    requires Projection(a0, a.log, |a.log|, user) == Projection(b0, b.log, |b.log|, user)
    requires k in a.kids && k in b.kids && a.kids[k].user == user == b.kids[k].user
    ensures View(a.t, user) == View(b.t, user)
    ensures a.kids[k].sent + Owed(a.kids[k]) == b.kids[k].sent + Owed(b.kids[k])
  {
    UsersAreIsolated(a0, a.log, |a.log|, b0, b.log, |b.log|, user);
    AnswersOfChild(a0, a.log, |a.log|, user, k);
    AnswersOfChild(b0, b.log, |b.log|, user, k);
    assert Fits(a.kids[k], a0, a.log, k) && Fits(b.kids[k], b0, b.log, k);
  }
}
