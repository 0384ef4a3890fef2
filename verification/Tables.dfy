/** The two SQL tables and the statements of server/storage.c as functions on them. A statement is atomic. */
module Tables {

  datatype Entry = Entry(owner: string, ts: int, data: string)

  /** The users table: an identity and its encryption key. */
  type Users = map<string, string>

  /** The entries table; nextId is what AUTOINCREMENT gives out next. */
  datatype Tables = Tables(entries: map<int, Entry>, nextId: int) {
    ghost predicate Valid() {
      nextId >= 1 && forall id | id in entries :: 1 <= id < nextId
    }

    /** The entry exists and belongs to the user. */
    predicate Owns(user: string, id: int) {
      id in entries && entries[id].owner == user
    }
  }

  const EMPTY := Tables(map[], 1)

  /** A row as SELECT id, timestamp, data returns it. */
  datatype Stored = Stored(id: int, ts: int, data: string)

  /** INSERT INTO entries(auth_pubkey, timestamp, data). */
  function InsertEntry(t: Tables, user: string, ts: int, data: string): Tables {
    t.(entries := t.entries[t.nextId := Entry(user, ts, data)], nextId := t.nextId + 1)
  }

  /** UPDATE entries SET data=? WHERE id=? AND auth_pubkey=?. */
  function UpdateEntry(t: Tables, user: string, id: int, data: string): Tables {
    if t.Owns(user, id) then t.(entries := t.entries[id := t.entries[id].(data := data)]) else t
  }

  /** DELETE FROM entries WHERE id=? AND auth_pubkey=?. */
  function DeleteEntry(t: Tables, user: string, id: int): Tables {
    if t.Owns(user, id) then t.(entries := t.entries - {id}) else t
  }

  /** SELECT ... FROM entries WHERE auth_pubkey=? ORDER BY id ASC, for the ids below n. */
  function SelectBelow(t: Tables, user: string, n: nat): seq<Stored> {
    if n == 0 then [] else
      SelectBelow(t, user, n - 1) +
      if t.Owns(user, n - 1) then [Stored(n - 1, t.entries[n - 1].ts, t.entries[n - 1].data)] else []
  }

  function Select(t: Tables, user: string): seq<Stored> {
    if t.nextId <= 0 then [] else SelectBelow(t, user, t.nextId)
  }

  /** INSERT OR IGNORE INTO users. */
  function RegisterUser(users: Users, user: string, key: string): Users {
    if user in users then users else users[user := key]
  }

  /** rows are the user's entries with ids below n, each once, in ascending order of id. */
  ghost predicate AreRows(rows: seq<Stored>, t: Tables, user: string, n: int) {
    && (forall i | 0 <= i < |rows| :: 0 <= rows[i].id < n && t.Owns(user, rows[i].id)
          && rows[i].ts == t.entries[rows[i].id].ts && rows[i].data == t.entries[rows[i].id].data)
    && (forall i, j | 0 <= i < j < |rows| :: rows[i].id < rows[j].id)
    && (forall id | 0 <= id < n && t.Owns(user, id) :: HasId(rows, id))
  }

  ghost predicate HasId(rows: seq<Stored>, id: int) {
    exists i :: 0 <= i < |rows| && rows[i].id == id
  }

  lemma {:induction false} SelectBelowIs(t: Tables, user: string, n: nat)
    ensures AreRows(SelectBelow(t, user, n), t, user, n)
  {
    if n > 0 {
      SelectBelowIs(t, user, n - 1);
      var before, rows := SelectBelow(t, user, n - 1), SelectBelow(t, user, n);
      forall id | 0 <= id < n && t.Owns(user, id)
        ensures HasId(rows, id)
      {
        if id == n - 1 {
          assert rows[|before|].id == id;
        } else {
          assert HasId(before, id);
          var i :| 0 <= i < |before| && before[i].id == id;
          assert rows[i] == before[i];
        }
      }
    }
  }

  /** SELECT returns exactly the user's entries, in ascending order of id. */
  lemma {:induction false} SelectIs(t: Tables, user: string)
    requires t.Valid()
    ensures AreRows(Select(t, user), t, user, t.nextId)
  {
    SelectBelowIs(t, user, t.nextId);
  }
}
