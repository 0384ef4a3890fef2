/** server/client_handler.c: what each command does to the tables and what it answers, and the handler's own code,
    which parses the line in place, run against a connection. */
module Handler {
  import opened Options
  import opened Decimal
  import opened CStrings
  import opened Dialect
  import T = Tables
  import S = Storage

  const MAX_ENTRIES := 1024

  /** What the environment decides for one command: the clock, whether the statement succeeds, and for GET whether
      the array can be allocated and at which rows malloc fails. */
  datatype Choice = Choice(clock: clong, rc: bool, calloc: bool, dropped: set<nat>)

  // ---------------------------------------------------------------------------------------------
  // Specification of one command
  // ---------------------------------------------------------------------------------------------

  function RowOf(row: T.Stored): string {
    RowLine(ToInt(row.id), row.ts, row.data)
  }

  /** The rows that collect_entry keeps of the first n: at most MAX_ENTRIES, and none whose malloc fails. */
  function Kept(rows: seq<T.Stored>, dropped: set<nat>, n: nat): (kept: seq<T.Stored>)
    requires n <= |rows|
    ensures |kept| <= MAX_ENTRIES
  {
    if n == 0 then [] else
      var kept := Kept(rows, dropped, n - 1);
      if |kept| >= MAX_ENTRIES || n - 1 in dropped then kept else kept + [rows[n - 1]]
  }

  /** How many of the first n rows are not dropped. */
  ghost function Undropped(dropped: set<nat>, n: nat): nat {
    |set i: nat | i < n && i !in dropped|
  }

  /** Row i of the SELECT is sent: its malloc succeeds, and fewer than MAX_ENTRIES rows before it were collected. */
  ghost predicate Survives(dropped: set<nat>, i: nat) {
    i !in dropped && Undropped(dropped, i) < MAX_ENTRIES
  }

  lemma {:induction false} UndroppedStep(dropped: set<nat>, n: nat)
    ensures Undropped(dropped, 0) == 0
    ensures Undropped(dropped, n + 1) == Undropped(dropped, n) + if n in dropped then 0 else 1
  {
    var before, after := set i: nat | i < n && i !in dropped, set i: nat | i < n + 1 && i !in dropped;
    assert after == if n in dropped then before else before + {n};
    assert (set i: nat | i < 0 && i !in dropped) == {};
  }

  lemma {:induction false} UndroppedGrows(dropped: set<nat>, i: nat, n: nat)
    requires i <= n
    ensures Undropped(dropped, i) <= Undropped(dropped, n)
    ensures i < n && i !in dropped ==> Undropped(dropped, i) < Undropped(dropped, n)
  {
    if i < n {
      UndroppedStep(dropped, n - 1);
      UndroppedGrows(dropped, i, n - 1);
    }
  }

  ghost predicate PlacedAt(dropped: set<nat>, i: nat, p: nat) {
    Survives(dropped, i) && Undropped(dropped, i) == p
  }

  ghost predicate Filled(dropped: set<nat>, n: nat, p: nat) {
    exists i: nat :: i < n && PlacedAt(dropped, i, p)
  }

  /** What is kept, without reference to the loop: row i is at the place given by the number of collected rows before
      it, if it survives, and nothing else is kept. */
  ghost predicate KeepsSurvivors(kept: seq<T.Stored>, rows: seq<T.Stored>, dropped: set<nat>, n: nat)
    requires n <= |rows|
  {
    && |kept| == (if Undropped(dropped, n) < MAX_ENTRIES then Undropped(dropped, n) else MAX_ENTRIES)
    && (forall i | 0 <= i < n && Survives(dropped, i) ::
          Undropped(dropped, i) < |kept| && kept[Undropped(dropped, i)] == rows[i])
    && (forall p: nat | p < |kept| :: Filled(dropped, n, p))
  }

  lemma {:induction false} KeepOne(kept: seq<T.Stored>, rows: seq<T.Stored>, dropped: set<nat>, n: nat)
    requires n < |rows| && KeepsSurvivors(kept, rows, dropped, n)
    ensures KeepsSurvivors(if Survives(dropped, n) then kept + [rows[n]] else kept, rows, dropped, n + 1)
  {
    UndroppedStep(dropped, n);
    var more := if Survives(dropped, n) then kept + [rows[n]] else kept;
    forall i | 0 <= i < n + 1 && Survives(dropped, i)
      ensures Undropped(dropped, i) < |more| && more[Undropped(dropped, i)] == rows[i]
    {
      UndroppedGrows(dropped, i, n);
    }
    var m := n + 1;
    forall p: nat | p < |more| ensures Filled(dropped, m, p) {
      FillOne(kept, rows, dropped, n, p);
    }
  }

  lemma {:induction false} FillOne(kept: seq<T.Stored>, rows: seq<T.Stored>, dropped: set<nat>, n: nat, p: nat)
    requires n < |rows| && KeepsSurvivors(kept, rows, dropped, n)
    requires p < |kept| || (p == |kept| && Survives(dropped, n))
    ensures Filled(dropped, n + 1, p)
  {
    if p < |kept| {
      assert Filled(dropped, n, p);
      var i: nat :| i < n && PlacedAt(dropped, i, p);
      assert i < n + 1;
    } else {
      assert PlacedAt(dropped, n, p);
    }
  }

  lemma {:induction false} KeptSurvive(rows: seq<T.Stored>, dropped: set<nat>, n: nat)
    requires n <= |rows|
    ensures KeepsSurvivors(Kept(rows, dropped, n), rows, dropped, n)
  {
    if n == 0 {
      UndroppedStep(dropped, 0);
    } else {
      KeptSurvive(rows, dropped, n - 1);
      KeepOne(Kept(rows, dropped, n - 1), rows, dropped, n - 1);
    }
  }

  /** One line for each row. */
  function Lines(kept: seq<T.Stored>): (lines: seq<string>)
    ensures |lines| == |kept|
  {
    if kept == [] then [] else Lines(kept[..|kept| - 1]) + [RowOf(kept[|kept| - 1])]
  }

  /** The rows that a GET sends. */
  function KeptRows(t: T.Tables, user: string, dropped: set<nat>): seq<T.Stored> {
    var rows := T.Select(t, user);
    Kept(rows, dropped, |rows|)
  }

  function Collected(t: T.Tables, user: string, dropped: set<nat>): seq<string> {
    Lines(KeptRows(t, user, dropped))
  }

  function PostReply(id: cint): string {
    if id < 0 then "FAIL could not save entry" else Snprintf(32, "OK " + Dec(id))
  }

  function ChangeReply(found: bool): string {
    if found then "OK" else "FAIL entry not found"
  }

  function GetReply(lines: seq<string>): seq<string> {
    [Snprintf(32, "ENTRIES " + Dec(|lines|))] + lines
  }

  function Stamp(ts: Option<clong>, clock: clong): clong {
    if ts.Some? then ts.value else clock
  }

  /** The sequential meaning of a command: the tables afterwards and the lines answered. */
  function Exec(t: T.Tables, user: string, cmd: Command, ch: Choice): (T.Tables, seq<string>) {
    match cmd
    case Quit => (t, ["BYE"])
    case Post(ts, data) =>
      if ch.rc then (T.InsertEntry(t, user, Stamp(ts, ch.clock), data), [PostReply(ToInt(t.nextId))])
      else (t, [PostReply(-1)])
    case Get =>
      if ch.calloc then (t, GetReply(Collected(t, user, ch.dropped))) else (t, ["FAIL out of memory"])
    case Update(id, data) =>
      if ch.rc then (T.UpdateEntry(t, user, id, data), [ChangeReply(t.Owns(user, id))])
      else (t, [ChangeReply(false)])
    case BadUpdate => (t, ["FAIL invalid UPDATE format"])
    case Delete(id) =>
      if ch.rc then (T.DeleteEntry(t, user, id), [ChangeReply(t.Owns(user, id))])
      else (t, [ChangeReply(false)])
    case Unknown => (t, ["FAIL unknown command"])
  }

  /** A line is a row of GET or one of the short replies. */
  predicate IsHeader(line: string, n: nat) {
    line == "ENTRIES " + Dec(n)
  }

  /** Lockstep: every command, malformed ones included, is answered by exactly one line, except that a GET is
      answered by a header with a number and exactly that many rows, even when rows are dropped. Every line but a
      row fits the 64-byte buffers of the clients. */
  lemma {:induction false} OneReplyPerCommand(t: T.Tables, user: string, cmd: Command, ch: Choice)
    ensures var lines := Exec(t, user, cmd, ch).1;
            && lines != [] && |lines[0]| < 64
            && (if cmd.Get? && ch.calloc then IsHeader(lines[0], |lines| - 1) && |lines| <= 1025
                else |lines| == 1 && !StartsWith(lines[0], "ENTRIES "))
  {
    DecWidths(ToInt(t.nextId));
    if cmd.Get? {
      DecWidths(|Collected(t, user, ch.dropped)|);
    }
    if !(cmd.Get? && ch.calloc) {
      assert Exec(t, user, cmd, ch).1[0][0] != 'E';
    }
  }

  /** The replies of the dialect, by the lines that the client sends: a line that is none of the five commands, or an
      UPDATE without data, is refused and changes nothing. */
  lemma {:induction false} LinesAreRefused(t: T.Tables, user: string, line: string, x: string, ch: Choice)
    requires ' ' !in x
    ensures Exec(t, user, ParseCommand("QUIT"), ch) == (t, ["BYE"])
    ensures Exec(t, user, ParseCommand("UPDATE " + x), ch) == (t, ["FAIL invalid UPDATE format"])
    ensures line != "QUIT" && line != "GET" && !("POST " <= line) && !("UPDATE " <= line) && !("DELETE " <= line) ==>
              Exec(t, user, ParseCommand(line), ch) == (t, ["FAIL unknown command"])
  {
    DispatchUpdate(x);
  }

  /** Changes are answered by OK exactly when the statement succeeds and the user owns the entry. */
  lemma {:induction false} ChangesAreAnswered(t: T.Tables, user: string, id: cint, data: string, ch: Choice)
    ensures var found := ch.rc && id in t.entries && t.entries[id].owner == user;
            && Exec(t, user, Update(id, data), ch).1 == [if found then "OK" else "FAIL entry not found"]
            && Exec(t, user, Delete(id), ch).1 == [if found then "OK" else "FAIL entry not found"]
    ensures !ch.rc ==> Exec(t, user, Post(None, data), ch) == (t, ["FAIL could not save entry"])
    ensures !ch.calloc ==> Exec(t, user, Get, ch) == (t, ["FAIL out of memory"])
  {
  }

  // ---------------------------------------------------------------------------------------------
  // The handler's code
  // ---------------------------------------------------------------------------------------------

  /** strchr in the string that starts at p. */
  method Strchr(mem: array<char>, p: nat, c: char) returns (k: Option<nat>)
    requires p <= mem.Length && c != NUL
    ensures var r := IndexOf(CStr(mem[..], p), c, 0);
            k == if r.None? then None else Some(p + r.value)
  {
    ghost var s := CStr(mem[..], p);
    var i := p;
    while i < mem.Length && mem[i] != NUL && mem[i] != c
      invariant p <= i <= p + |s|
      invariant IndexOf(s, c, 0) == IndexOf(s, c, i - p)
    {
      assert i < p + |s|;
      i := i + 1;
    }
    k := if i < mem.Length && mem[i] == c then Some(i) else None;
  }

  /** POST: a space in the payload announces a time stamp. */
  method ParsePostLine(mem: array<char>) returns (cmd: Command)
    requires 5 <= mem.Length
    ensures cmd == ParsePost(CStr(mem[..], 5))
  {
    var payload := CStr(mem[..], 5);
    cmd := Post(None, payload);
    var sp := Strchr(mem, 5, ' ');
    assert sp.Some? ==> IndexOf(payload, ' ', 0) == Some(sp.value - 5);
    if sp.Some? {
      var clientTs := Atol(payload);
      if clientTs > 0 {
        var rest := CStr(mem[..], sp.value + 1);
        assert rest == payload[sp.value - 5 + 1..] by { Tail(mem[..], 5, sp.value - 5 + 1); }
        cmd := Post(Some(clientTs), rest);
      }
    }
  }

  /** UPDATE: the space is overwritten by a NUL, so that the id becomes a string of its own. */
  method ParseUpdateLine(mem: array<char>) returns (cmd: Command)
    requires 7 <= mem.Length && 7 + |CStr(mem[..], 7)| < mem.Length
    modifies mem
    ensures cmd == ParseUpdate(old(CStr(mem[..], 7)))
  {
    var sp := Strchr(mem, 7, ' ');
    if sp.None? {
      cmd := BadUpdate;
    } else {
      ghost var before := mem[..];
      mem[sp.value] := NUL;
      assert mem[..] == before[sp.value := NUL];
      Cut(before, 7, sp.value);
      var uid := Atoi(CStr(mem[..], 7));
      cmd := Update(uid, CStr(mem[..], sp.value + 1));
    }
  }

  /** The parse of a command line, with the branches in the order of the source. */
  method ParseLine(mem: array<char>) returns (cmd: Command)
    requires NUL in mem[..]
    modifies mem
    ensures cmd == ParseCommand(old(CStr(mem[..], 0)))
  {
    var line := CStr(mem[..], 0);
    StringEnds(mem[..]);
    if line == "QUIT" {
      cmd := Quit;
    } else if StartsWith(line, "POST ") {
      Tail(mem[..], 0, 5);
      cmd := ParsePostLine(mem);
    } else if line == "GET" {
      cmd := Get;
    } else if StartsWith(line, "UPDATE ") {
      Tail(mem[..], 0, 7);
      cmd := ParseUpdateLine(mem);
    } else if StartsWith(line, "DELETE ") {
      Tail(mem[..], 0, 7);
      cmd := Delete(Atoi(CStr(mem[..], 7)));
    } else {
      cmd := Unknown;
    }
  }

  /** A string in memory that holds a NUL ends before the memory does. */
  lemma {:induction false} StringEnds(mem: seq<char>)
    requires NUL in mem
    ensures |CStr(mem, 0)| < |mem| && mem[|CStr(mem, 0)|] == NUL
  {
    assert mem[0..|mem|] == mem;
  }

  /** The string that starts inside another one is the rest of it. */
  lemma {:induction false} Tail(mem: seq<char>, p: nat, k: nat)
    requires p <= |mem| && k <= |CStr(mem, p)|
    ensures CStr(mem, p + k) == CStr(mem, p)[k..]
  {
    if k > 0 {
      Tail(mem, p, k - 1);
    }
  }

  lemma {:induction false} CutBefore(mem: seq<char>, after: seq<char>, p: nat, sp: nat)
    requires p <= |mem| && p <= sp < p + |CStr(mem, p)| < |mem| && after == mem[sp := NUL]
    ensures CStr(after, p) == CStr(mem, p)[..sp - p]
  {
    var before := CStr(mem, p)[..sp - p];
    assert after[p..sp] == mem[p..sp] == before;
    CStrIs(after, p, before);
  }

  /** Writing a NUL at sp ends the string at p there and leaves the string after sp as it was. */
  lemma {:induction false} Cut(mem: seq<char>, p: nat, sp: nat)
    requires p <= |mem| && p <= sp < p + |CStr(mem, p)| < |mem|
    ensures CStr(mem[sp := NUL], p) == CStr(mem, p)[..sp - p]
    ensures CStr(mem[sp := NUL], sp + 1) == CStr(mem, p)[sp + 1 - p..]
  {
    var after, rest := mem[sp := NUL], CStr(mem, p)[sp + 1 - p..];
    CutBefore(mem, after, p, sp);
    assert after[sp + 1..sp + 1 + |rest|] == mem[sp + 1..sp + 1 + |rest|] == rest;
    CStrIs(after, sp + 1, rest);
  }

  lemma {:induction false} LinesSnoc(kept: seq<T.Stored>, row: T.Stored)
    ensures Lines(kept + [row]) == Lines(kept) + [RowOf(row)]
  {
    assert (kept + [row])[..|kept|] == kept;
  }

  lemma {:induction false} LinesAt(kept: seq<T.Stored>, i: nat)
    requires i < |kept|
    ensures Lines(kept)[i] == RowOf(kept[i])
  {
    if i < |kept| - 1 {
      LinesAt(kept[..|kept| - 1], i);
    }
  }

  /** One call of collect_entry. */
  lemma {:induction false} CollectOne(rows: seq<T.Stored>, dropped: set<nat>, i: nat)
    requires i < |rows|
    ensures Lines(Kept(rows, dropped, i + 1))
            == if |Lines(Kept(rows, dropped, i))| < MAX_ENTRIES && i !in dropped
               then Lines(Kept(rows, dropped, i)) + [RowOf(rows[i])] else Lines(Kept(rows, dropped, i))
  {
    LinesSnoc(Kept(rows, dropped, i), rows[i]);
  }

  /** collect_entry as the callback of the SELECT loop. */
  method Collect(rows: seq<T.Stored>, dropped: set<nat>) returns (lines: seq<string>)
    ensures lines == Lines(Kept(rows, dropped, |rows|))
    ensures |lines| == if Undropped(dropped, |rows|) < MAX_ENTRIES then Undropped(dropped, |rows|) else MAX_ENTRIES
    ensures forall i | 0 <= i < |rows| && Survives(dropped, i) ::
              Undropped(dropped, i) < |lines| && lines[Undropped(dropped, i)] == RowOf(rows[i])
  {
    lines := [];
    for i := 0 to |rows|
      invariant lines == Lines(Kept(rows, dropped, i))
    {
      CollectOne(rows, dropped, i);
      if |lines| < MAX_ENTRIES && i !in dropped {
        lines := lines + [RowOf(rows[i])];
      }
    }
    SurvivorsAreSent(rows, dropped);
  }

  lemma {:induction false} SurvivorsAreSent(rows: seq<T.Stored>, dropped: set<nat>)
    ensures var lines := Lines(Kept(rows, dropped, |rows|));
            && |lines| == (if Undropped(dropped, |rows|) < MAX_ENTRIES then Undropped(dropped, |rows|) else MAX_ENTRIES)
            && forall i | 0 <= i < |rows| && Survives(dropped, i) ::
                 Undropped(dropped, i) < |lines| && lines[Undropped(dropped, i)] == RowOf(rows[i])
  {
    var kept := Kept(rows, dropped, |rows|);
    KeptSurvive(rows, dropped, |rows|);
    forall p: nat | p < |kept| ensures Lines(kept)[p] == RowOf(kept[p]) {
      LinesAt(kept, p);
    }
  }

  /** One turn of the command loop of diary_handle. */
  method HandleLine(conn: S.Connection, user: string, mem: array<char>, ch: Choice)
    returns (replies: seq<string>, quit: bool)
    requires NUL in mem[..]
    modifies conn, conn.db`entries, conn.db`nextId, mem
    ensures var cmd := ParseCommand(old(CStr(mem[..], 0)));
            && (conn.db.Tables(), replies) == Exec(old(conn.db.Tables()), user, cmd, ch)
            && quit == cmd.Quit?
  {
    quit := false;
    var cmd := ParseLine(mem);
    match cmd
    case Quit =>
      replies, quit := ["BYE"], true;
    case Post(clientTs, data) =>
      var id := conn.AddEntry(user, data, Stamp(clientTs, ch.clock), ch.rc);
      if id < 0 {
        replies := ["FAIL could not save entry"];
      } else {
        replies := [Snprintf(32, "OK " + Dec(id))];
      }
    case Get =>
      if ch.calloc {
        var rows := conn.GetEntries(user);
        var lines := Collect(rows, ch.dropped);
        replies := GetReply(lines);
      } else {
        replies := ["FAIL out of memory"];
      }
    case Update(id, data) =>
      var r := conn.UpdateEntry(user, id, data, ch.rc);
      if r == 0 { replies := ["OK"]; } else { replies := ["FAIL entry not found"]; }
    case BadUpdate =>
      replies := ["FAIL invalid UPDATE format"];
    case Delete(id) =>
      var r := conn.DeleteEntry(user, id, ch.rc);
      if r == 0 { replies := ["OK"]; } else { replies := ["FAIL entry not found"]; }
    case Unknown =>
      replies := ["FAIL unknown command"];
  }

  // ---------------------------------------------------------------------------------------------
  // The registration gate
  // ---------------------------------------------------------------------------------------------

  /** What the gate does when nobody interferes: the users, the lines sent, and whether the command loop is entered.
      line is what the client sends when asked to register, if anything; keyOk whether it carries a valid key. */
  function Gate(
    users: T.Users, user: string, line: Option<string>, keyOk: bool, rc: bool): (T.Users, seq<string>, bool) {
    if user in users then (users, ["OK"], true)
    else if line.None? then (users, ["REGISTER"], false)
    else if !StartsWith(line.value, "REGISTER ") then
      (users, ["REGISTER"] + ["FAIL expected REGISTER <enc_pubkey_b64>"], false)
    else if !keyOk then (users, ["REGISTER"] + ["FAIL invalid encryption key"], false)
    else if !rc then (users, ["REGISTER"] + ["FAIL could not register user"], false)
    else (users[user := line.value[9..]], ["REGISTER"] + ["OK"], true)
  }

  /** The beginning of diary_handle. */
  method RegistrationGate(conn: S.Connection, user: string, line: Option<string>, keyOk: bool, rc: bool)
    returns (sent: seq<string>, served: bool)
    modifies conn, conn.db`users
    ensures (conn.db.users, sent, served) == Gate(old(conn.db.users), user, line, keyOk, rc)
    ensures served <==> user in conn.db.users
  {
    var known := conn.UserExists(user);
    if known { return ["OK"], true; }
    sent := ["REGISTER"];
    if line.None? { return sent, false; }
    if !StartsWith(line.value, "REGISTER ") { return sent + ["FAIL expected REGISTER <enc_pubkey_b64>"], false; }
    if !keyOk { return sent + ["FAIL invalid encryption key"], false; }
    var r := conn.RegisterUser(user, line.value[9..], rc);
    if r != 0 { return sent + ["FAIL could not register user"], false; }
    return sent + ["OK"], true;
  }
}
