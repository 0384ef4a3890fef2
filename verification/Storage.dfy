/** server/storage.c: one database shared by all children, and each child's own connection to it with its own last
    inserted rowid and change count. `rc` is whether sqlite3_step succeeded. */
module Storage {
  import opened Decimal
  import T = Tables

  class Database {
    var users: T.Users
    var entries: map<int, T.Entry>
    var nextId: int

    function Tables(): T.Tables
      reads this
    {
      T.Tables(entries, nextId)
    }

    constructor ()
      ensures users == map[] && Tables() == T.EMPTY
    {
      users, entries, nextId := map[], map[], 1;
    }
  }

  class Connection {
    const db: Database
    var lastRowid: int
    var changes: int

    constructor (db: Database)
      ensures this.db == db
    {
      this.db := db;
      lastRowid, changes := 0, 0;
    }

    method UserExists(user: string) returns (exists_: bool)
      ensures exists_ <==> user in db.users
    {
      exists_ := user in db.users;
    }

    /** Registering under a key that is ignored still succeeds: the first key stays. */
    method RegisterUser(user: string, key: string, rc: bool) returns (r: int)
      modifies this, db`users
      ensures db.users == if rc then T.RegisterUser(old(db.users), user, key) else old(db.users)
      ensures r == if rc then 0 else -1
    {
      if rc {
        if user in db.users {
          changes := 0;
        } else {
          db.users := db.users[user := key];
          lastRowid, changes := |db.users|, 1;
        }
      }
      r := if rc then 0 else -1;
    }

    /** Returns the id of the inserted row converted to int, or -1. */
    method AddEntry(user: string, data: string, ts: int, rc: bool) returns (id: cint)
      modifies this, db`entries, db`nextId
      ensures db.Tables() == if rc then T.InsertEntry(old(db.Tables()), user, ts, data) else old(db.Tables())
      ensures rc ==> lastRowid == old(db.nextId) && changes == 1
      ensures id == if rc then ToInt(old(db.nextId)) else -1
    {
      if rc {
        var rowid := db.nextId;
        db.entries, db.nextId := db.entries[rowid := T.Entry(user, ts, data)], rowid + 1;
        lastRowid, changes := rowid, 1;
      }
      if !rc { return -1; }
      id := ToInt(lastRowid);
    }

    /** Steps through the rows of the SELECT, oldest id first. */
    method GetEntries(user: string) returns (rows: seq<T.Stored>)
      ensures rows == T.Select(db.Tables(), user)
    {
      rows := [];
      var id := 0;
      while id < db.nextId
        invariant 0 <= id <= if db.nextId > 0 then db.nextId else 0
        invariant rows == T.SelectBelow(db.Tables(), user, id)
      {
        if id in db.entries && db.entries[id].owner == user {
          rows := rows + [T.Stored(id, db.entries[id].ts, db.entries[id].data)];
        }
        id := id + 1;
      }
    }

    method UpdateEntry(user: string, id: cint, data: string, rc: bool) returns (r: int)
      modifies this`changes, db`entries
      ensures db.Tables() == if rc then T.UpdateEntry(old(db.Tables()), user, id, data) else old(db.Tables())
      ensures r == if rc && old(db.Tables()).Owns(user, id) then 0 else -1
    {
      if rc {
        if id in db.entries && db.entries[id].owner == user {
          db.entries := db.entries[id := db.entries[id].(data := data)];
          changes := 1;
        } else {
          changes := 0;
        }
      }
      r := if rc && changes > 0 then 0 else -1;
    }

    method DeleteEntry(user: string, id: cint, rc: bool) returns (r: int)
      modifies this`changes, db`entries
      ensures db.Tables() == if rc then T.DeleteEntry(old(db.Tables()), user, id) else old(db.Tables())
      ensures r == if rc && old(db.Tables()).Owns(user, id) then 0 else -1
    {
      if rc {
        if id in db.entries && db.entries[id].owner == user {
          db.entries := db.entries - {id as int};
          changes := 1;
        } else {
          changes := 0;
        }
      }
      r := if rc && changes > 0 then 0 else -1;
    }
  }
}
