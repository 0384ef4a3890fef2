/** One call through the whole stack: what net.c sends, what the handler does to the tables and answers, and what
    net.c makes of the answer, against the same operation on a plain map from ids to (time stamp, text). */
module Stack {
  import opened Options
  import opened Decimal
  import opened CStrings
  import opened Dialect
  import opened Handler
  import opened Client
  import T = Tables

  datatype Item = Item(ts: int, text: string)

  /** The diary of one user, as the user sees it. */
  type Diary = map<int, Item>

  /** What a client shows for data: the text that it opens to, or that it does not open. */
  function Plain(unseal: Unseal, data: string): string {
    match unseal(data)
    case Some(text) => text
    case None => "[could not decrypt]"
  }

  /** The diary that the tables hold for a user. */
  function Decoded(t: T.Tables, user: string, unseal: Unseal): Diary {
    map id | id in t.entries && t.entries[id].owner == user :: Item(t.entries[id].ts, Plain(unseal, t.entries[id].data))
  }

  /** The user's rows hold base64 and time stamps of C's range. */
  ghost predicate Sealed(t: T.Tables, user: string) {
    forall id | t.Owns(user, id) ::
      t.entries[id].data != "" && SpaceFree(t.entries[id].data) && IsLong(t.entries[id].ts)
  }

  /** es lists entries of m, newest first, each at most once. */
  ghost predicate Lists(es: seq<DiaryEntry>, m: Diary) {
    Sorted(es) && DistinctIds(es) && forall e | e in es :: e.id in m && m[e.id] == Item(e.ts, e.text)
  }

  /** How many entries have a smaller id. */
  ghost function Rank(m: Diary, id: int): nat {
    |set x | x in m && x < id|
  }

  /** es lists exactly the entries whose row survives: those that are not dropped and have fewer than MAX_ENTRIES
      collected entries with smaller ids. */
  ghost predicate ListsSurvivors(es: seq<DiaryEntry>, m: Diary, dropped: set<nat>) {
    && Lists(es, m) && |es| <= MAX_ENTRIES
    && forall id | id in m :: Listed(es, m, id) <==> Survives(dropped, Rank(m, id))
  }

  ghost predicate Listed(es: seq<DiaryEntry>, m: Diary, id: int)
    requires id in m
  {
    DiaryEntry(id, m[id].ts, m[id].text) in es
  }

  ghost predicate ListsAll(es: seq<DiaryEntry>, m: Diary) {
    Lists(es, m) && forall id | id in m :: Listed(es, m, id)
  }

  /** The operation on the map. last is the last id given to anyone: a POST gets a larger one. When a statement or
      an allocation fails the operation reports it and changes nothing; GET lists exactly the entries that survive. */
  ghost predicate DiaryOp(m: Diary, last: int, c: Call, ch: Choice, r: Result, m': Diary) {
    match c
    case PostCall(text, _, timestamp) =>
      && r.Number?
      && if ch.rc then r.n > last && r.n > 0 && r.n !in m
                       && m' == m[r.n as int := Item(if timestamp > 0 then timestamp else ch.clock, text)]
         else r.n == -1 && m' == m
    case UpdateCall(id, text, _) =>
      if ch.rc && id in m then r == Number(id) && m' == m[id as int := m[id].(text := text)]
      else r == Number(-1) && m' == m
    case DeleteCall(id) =>
      if ch.rc && id in m then r == Number(0) && m' == m - {id as int} else r == Number(-1) && m' == m
    case GetCall =>
      && m' == m
      && if !ch.calloc then r == GetFailed
         else r.Entries? && ListsSurvivors(r.entries, m, ch.dropped)
  }

  // ---------------------------------------------------------------------------------------------
  // POST, UPDATE, DELETE
  // ---------------------------------------------------------------------------------------------

  /** The client reads back the id in the reply to a POST, and -1 from a failure. */
  lemma {:induction false} PostReplyIsRead(id: cint)
    ensures var line := PostReply(id);
            (if StartsWith(line, "OK ") then Atoi(line[3..]) else -1) == if id < 0 then -1 else id
  {
    if id >= 0 {
      DecWidths(id);
      assert PostReply(id)[3..] == Dec(id);
      AtolOfDecAlone(id);
    }
  }

  lemma {:induction false} PostResult(c: Call, id: cint, unseal: Unseal)
    requires c.PostCall?
    ensures ReadReply(c, [PostReply(id)], unseal) == Some((Number(if id < 0 then -1 else id), []))
  {
    PostReplyIsRead(id);
    assert [PostReply(id)][1..] == [];
  }

  lemma {:induction false} PostAddsItem(t: T.Tables, user: string, ts: int, data: string, unseal: Unseal)
    requires t.Valid()
    ensures var m := Decoded(t, user, unseal);
            && t.nextId !in m
            && Decoded(T.InsertEntry(t, user, ts, data), user, unseal) == m[t.nextId := Item(ts, Plain(unseal, data))]
  {
  }

  lemma {:induction false} PostThroughStack(t: T.Tables, user: string, c: Call, ch: Choice, unseal: Unseal)
    requires t.Valid() && Sealed(t, user) && LegalCall(c, unseal) && c.PostCall? && (ch.rc ==> t.nextId <= INT_MAX)
    ensures var (t', lines) := Exec(t, user, CommandOf(c), ch);
            && |lines| == 1 && Sealed(t', user)
            && DiaryOp(Decoded(t, user, unseal), t.nextId - 1, c, ch, ReadReply(c, lines, unseal).value.0,
                       Decoded(t', user, unseal))
            && (ch.rc ==> ReadReply(c, lines, unseal).value.0 == Number(t.nextId))
  {
    PostResult(c, if ch.rc then ToInt(t.nextId) else -1, unseal);
    PostAddsItem(t, user, if c.timestamp > 0 then c.timestamp else ch.clock, c.data, unseal);
  }

  lemma {:induction false} UpdateThroughStack(t: T.Tables, user: string, c: Call, ch: Choice, unseal: Unseal)
    requires t.Valid() && Sealed(t, user) && LegalCall(c, unseal) && c.UpdateCall?
    ensures var (t', lines) := Exec(t, user, CommandOf(c), ch);
            && |lines| == 1 && Sealed(t', user)
            && DiaryOp(Decoded(t, user, unseal), t.nextId - 1, c, ch, ReadReply(c, lines, unseal).value.0,
                       Decoded(t', user, unseal))
  {
    var t' := T.UpdateEntry(t, user, c.id, c.data);
    var m, m' := Decoded(t, user, unseal), Decoded(t', user, unseal);
    if ch.rc && t.Owns(user, c.id) {
      assert m' == m[c.id as int := m[c.id].(text := c.text)];
    }
  }

  lemma {:induction false} DeleteThroughStack(t: T.Tables, user: string, c: Call, ch: Choice, unseal: Unseal)
    requires t.Valid() && Sealed(t, user) && c.DeleteCall?
    ensures var (t', lines) := Exec(t, user, CommandOf(c), ch);
            && |lines| == 1 && Sealed(t', user)
            && DiaryOp(Decoded(t, user, unseal), t.nextId - 1, c, ch, ReadReply(c, lines, unseal).value.0,
                       Decoded(t', user, unseal))
  {
    var t' := T.DeleteEntry(t, user, c.id);
    var m, m' := Decoded(t, user, unseal), Decoded(t', user, unseal);
    if ch.rc && t.Owns(user, c.id) {
      assert m' == m - {c.id as int};
    }
  }

  // ---------------------------------------------------------------------------------------------
  // GET
  // ---------------------------------------------------------------------------------------------

  ghost predicate Ascending(rows: seq<T.Stored>) {
    forall i, j | 0 <= i < j < |rows| :: rows[i].id < rows[j].id
  }

  /** They are rows, in their order. */
  lemma {:induction false} KeptIs(rows: seq<T.Stored>, dropped: set<nat>, n: nat)
    requires n <= |rows| && Ascending(rows)
    ensures var kept := Kept(rows, dropped, n);
            Ascending(kept) && forall i | 0 <= i < |kept| :: kept[i] in rows[..n]
  {
    if n > 0 {
      KeptIs(rows, dropped, n - 1);
      var kept, last := Kept(rows, dropped, n - 1), rows[n - 1];
      assert rows[..n] == rows[..n - 1] + [last];
      forall i | 0 <= i < |kept| ensures kept[i].id < last.id {
        assert kept[i] in rows[..n - 1];
        var j :| 0 <= j < n - 1 && rows[j] == kept[i];
      }
      assert Ascending(kept + [last]);
    }
  }

  /** The entry that the client makes of a row. */
  function EntryFor(row: T.Stored, unseal: Unseal): DiaryEntry {
    DiaryEntry(row.id, row.ts, Plain(unseal, row.data))
  }

  predicate InRange(row: T.Stored) {
    0 <= row.id <= INT_MAX && IsLong(row.ts)
  }

  predicate GoodRow(row: T.Stored) {
    InRange(row) && row.data != "" && SpaceFree(row.data)
  }

  /** Time stamps of C's range. */
  ghost predicate LongStamps(t: T.Tables, user: string) {
    forall id | t.Owns(user, id) :: IsLong(t.entries[id].ts)
  }

  /** The rows that a GET reply is printed from have ids and time stamps that fit, whatever their data. */
  lemma {:induction false} RowsBehindReply(t: T.Tables, user: string, dropped: set<nat>)
    requires t.Valid() && t.nextId <= INT_MAX + 1 && LongStamps(t, user)
    ensures var kept := KeptRows(t, user, dropped);
            && Ascending(kept) && |kept| <= MAX_ENTRIES
            && forall i | 0 <= i < |kept| :: InRange(kept[i]) && kept[i] in T.Select(t, user)
  {
    var rows, kept := T.Select(t, user), KeptRows(t, user, dropped);
    T.SelectIs(t, user);
    KeptIs(rows, dropped, |rows|);
    assert rows[..|rows|] == rows;
    forall i | 0 <= i < |kept| ensures InRange(kept[i]) {
      assert kept[i] in rows;
      var j :| 0 <= j < |rows| && rows[j] == kept[i];
      assert t.Owns(user, rows[j].id);
    }
  }

  lemma {:induction false} RowIsRead(row: T.Stored, unseal: Unseal)
    requires GoodRow(row)
    ensures Reader(unseal)(RowOf(row)) == Some(EntryFor(row, unseal))
  {
    RowParses(row.id, row.ts, row.data);
  }

  /** Every row kept is read back as its entry. */
  lemma {:induction false} KeptAreRead(kept: seq<T.Stored>, unseal: Unseal)
    requires forall row | row in kept :: GoodRow(row)
    ensures AllRead(Lines(kept), Reader(unseal))
    ensures forall i | 0 <= i < |kept| :: Reader(unseal)(Lines(kept)[i]) == Some(EntryFor(kept[i], unseal))
  {
    forall i | 0 <= i < |kept|
      ensures Reader(unseal)(Lines(kept)[i]) == Some(EntryFor(kept[i], unseal))
    {
      LinesAt(kept, i);
      RowIsRead(kept[i], unseal);
    }
  }

  /** A whole GET reply with any rows, given its header: what net_get_entries makes of it, and what it leaves. */
  lemma {:induction false} GetInStep(header: string, lines: seq<string>, read: RowReader)
    requires StartsWith(header, "ENTRIES ") && Atoi(header[8..]) == |lines|
    ensures ReadGet([header] + lines, read).Some?
    ensures var (r, rest) := ReadGet([header] + lines, read).value;
            && (r.Entries? <==> AllRead(lines, read)) && (!r.Entries? ==> r == GetFailed)
            && (r.Entries? ==> exists es :: ReadAs(lines, read, es) && r.entries == SortEntries(es))
            && (rest == [] <==> forall i | 0 <= i < |lines| - 1 :: read(lines[i]).Some?)
  {
    assert ([header] + lines)[1..] == lines;
    ReadRowsInStep(lines, read);
    if |lines| == 0 {
      assert ReadAs(lines, read, []);
    }
  }

  /** Reading a whole GET reply whose rows are fine, and a part of one. */
  lemma {:induction false} GetReplyIsRead(header: string, lines: seq<string>, read: RowReader)
    requires StartsWith(header, "ENTRIES ") && Atoi(header[8..]) == |lines| && AllRead(lines, read)
    ensures ReadGet([header] + lines, read).Some?
    ensures var (r, rest) := ReadGet([header] + lines, read).value;
            rest == [] && r.Entries? && exists es :: ReadAs(lines, read, es) && r.entries == SortEntries(es)
    ensures forall p | 0 <= p <= |lines| :: ReadGet(([header] + lines)[..p], read).None?
  {
    var reply := [header] + lines;
    GetInStep(header, lines, read);
    forall p | 0 <= p <= |lines|
      ensures ReadGet(reply[..p], read).None?
    {
      if p > 0 {
        assert reply[..p][0] == header && reply[..p][1..] == lines[..p - 1];
        ReadRowsBlocks(lines[..p - 1], |lines|, read);
      }
    }
  }

  lemma {:induction false} HeaderIsRead(n: nat)
    requires n <= MAX_ENTRIES
    ensures var line := Snprintf(32, "ENTRIES " + Dec(n));
            StartsWith(line, "ENTRIES ") && Atoi(line[8..]) == n
  {
    DecWidths(n);
    var line := Snprintf(32, "ENTRIES " + Dec(n));
    assert line[8..] == Dec(n);
    AtolOfDecAlone(n);
  }

  lemma {:induction false} Multiplicity(a: seq<DiaryEntry>, x: DiaryEntry)
    requires DistinctIds(a)
    ensures multiset(a)[x] <= 1
  {
    if a != [] {
      Multiplicity(a[1..], x);
      assert a == [a[0]] + a[1..];
      if a[0] == x {
        InTail(a, x);
      }
    }
  }

  /** A permutation of entries with distinct ids has distinct ids. */
  lemma {:induction false} DistinctPermutation(a: seq<DiaryEntry>, b: seq<DiaryEntry>)
    requires DistinctIds(a) && multiset(a) == multiset(b)
    ensures DistinctIds(b)
  {
    forall i, j | 0 <= i < j < |b|
      ensures b[i].id != b[j].id
    {
      Multiplicity(a, b[i]);
      assert b == b[..j] + b[j..];
      assert b[..j][i] == b[i] && b[j..][0] == b[j];
      assert multiset(b) == multiset(b[..j]) + multiset(b[j..]);
      assert b[i] != b[j];
      assert b[i] in multiset(a) && b[j] in multiset(a);
    }
  }

  /** The user's rows, read as entries, are what the map holds. */
  lemma {:induction false} RowsMatchDiary(t: T.Tables, user: string, unseal: Unseal)
    requires t.Valid() && Sealed(t, user) && t.nextId <= INT_MAX + 1
    ensures var rows, m := T.Select(t, user), Decoded(t, user, unseal);
            && Ascending(rows)
            && (forall row | row in rows ::
                  GoodRow(row) && row.id in m && m[row.id] == Item(row.ts, Plain(unseal, row.data)))
            && (forall id | id in m :: exists row :: row in rows && row.id == id)
            && |rows| == |m|
  {
    var rows, m := T.Select(t, user), Decoded(t, user, unseal);
    T.SelectIs(t, user);
    forall row | row in rows
      ensures GoodRow(row) && row.id in m && m[row.id] == Item(row.ts, Plain(unseal, row.data))
    {
      var i :| 0 <= i < |rows| && rows[i] == row;
      assert t.Owns(user, rows[i].id);
    }
    forall id | id in m
      ensures exists row :: row in rows && row.id == id
    {
      assert t.Owns(user, id);
      assert T.HasId(rows, id);
      var i :| 0 <= i < |rows| && rows[i].id == id;
      assert rows[i] in rows;
    }
    CountRows(rows, m.Keys);
  }

  /** Without its last row a list lacks one id. */
  lemma {:induction false} AllButLast(rows: seq<T.Stored>, ids: set<int>, n: nat)
    requires Ascending(rows) && |rows| == n + 1
    requires forall row | row in rows :: row.id in ids
    requires forall id | id in ids :: exists row :: row in rows && row.id == id
    ensures rows[n].id in ids
    ensures forall row | row in rows[..n] :: row.id in ids - {rows[n].id}
    ensures forall id | id in ids - {rows[n].id} :: exists row :: row in rows[..n] && row.id == id
  {
    assert rows[n] in rows;
    forall row | row in rows[..n] ensures row.id in ids - {rows[n].id} {
      var i :| 0 <= i < n && rows[i] == row;
      assert rows[i] in rows;
    }
    forall id | id in ids - {rows[n].id} ensures exists row :: row in rows[..n] && row.id == id {
      var row :| row in rows && row.id == id;
      var i :| 0 <= i < |rows| && rows[i] == row;
      assert rows[..n][i] == row;
    }
  }

  lemma {:induction false} CountRows(rows: seq<T.Stored>, ids: set<int>)
    requires Ascending(rows)
    requires forall row | row in rows :: row.id in ids
    requires forall id | id in ids :: exists row :: row in rows && row.id == id
    ensures |rows| == |ids|
    decreases |rows|
  {
    if rows == [] {
      assert ids == {};
    } else {
      var n := |rows| - 1;
      AllButLast(rows, ids, n);
      CountRows(rows[..n], ids - {rows[n].id});
    }
  }

  /** The rows behind the collected lines, each read back as its entry. */
  lemma {:induction false} CollectedFrom(t: T.Tables, user: string, dropped: set<nat>, unseal: Unseal)
    returns (kept: seq<T.Stored>)
    requires t.Valid() && Sealed(t, user) && t.nextId <= INT_MAX + 1
    ensures var rows, lines := T.Select(t, user), Collected(t, user, dropped);
            && Ascending(kept) && (forall i | 0 <= i < |kept| :: kept[i] in rows)
            && AllRead(lines, Reader(unseal)) && |lines| == |kept|
            && (forall i | 0 <= i < |kept| :: Reader(unseal)(lines[i]) == Some(EntryFor(kept[i], unseal)))
            && KeepsSurvivors(kept, rows, dropped, |rows|)
  {
    var rows := T.Select(t, user);
    var n := |rows|;
    kept := Kept(rows, dropped, n);
    RowsMatchDiary(t, user, unseal);
    KeptIs(rows, dropped, n);
    assert rows[..n] == rows;
    KeptSurvive(rows, dropped, n);
    KeptAreRead(kept, unseal);
  }

  /** The lines collected from the user's rows are read as entries that list the diary. */
  lemma {:induction false} CollectedListDiary(
    t: T.Tables, user: string, dropped: set<nat>, unseal: Unseal, lines: seq<string>, es: seq<DiaryEntry>)
    requires t.Valid() && Sealed(t, user) && t.nextId <= INT_MAX + 1
    requires lines == Collected(t, user, dropped)
    requires ReadAs(lines, Reader(unseal), es)
    ensures ListsSurvivors(SortEntries(es), Decoded(t, user, unseal), dropped)
  {
    var rows, m := T.Select(t, user), Decoded(t, user, unseal);
    var kept := CollectedFrom(t, user, dropped, unseal);
    RowsMatchDiary(t, user, unseal);
    KeptAreListed(rows, kept, es, m, unseal);
    forall id | id in m ensures Listed(SortEntries(es), m, id) <==> Survives(dropped, Rank(m, id)) {
      OneListedIff(rows, kept, es, m, dropped, unseal, id);
    }
  }

  /** What the client makes of the lines of a GET reply. */
  ghost predicate GetReadsAs(lines: seq<string>, read: RowReader, r: Result) {
    && ReadGet(lines, read) == Some((r, []))
    && forall p | 0 <= p < |lines| :: ReadGet(lines[..p], read).None?
  }

  lemma {:induction false} CollectedReadBack(t: T.Tables, user: string, dropped: set<nat>, unseal: Unseal)
    returns (r: Result)
    requires t.Valid() && Sealed(t, user) && t.nextId <= INT_MAX + 1
    ensures var m := Decoded(t, user, unseal);
            && GetReadsAs(GetReply(Collected(t, user, dropped)), Reader(unseal), r)
            && r.Entries? && ListsSurvivors(r.entries, m, dropped)
  {
    var lines, read := Collected(t, user, dropped), Reader(unseal);
    var header := GetReply(lines)[0];
    HeaderIsRead(|lines|);
    var kept := CollectedFrom(t, user, dropped, unseal);
    GetReplyIsRead(header, lines, read);
    assert GetReply(lines) == [header] + lines;
    r := ReadGet([header] + lines, read).value.0;
    var es :| ReadAs(lines, read, es) && r.entries == SortEntries(es);
    CollectedListDiary(t, user, dropped, unseal, lines, es);
  }

  lemma {:induction false} FailureIsRead(read: RowReader)
    ensures GetReadsAs(["FAIL out of memory"], read, GetFailed)
  {
    var lines := ["FAIL out of memory"];
    assert lines[0][0] == 'F' && "ENTRIES "[0] == 'E';
    assert !StartsWith(lines[0], "ENTRIES ");
    assert lines[1..] == [];
  }

  lemma {:induction false} GetThroughStack(t: T.Tables, user: string, ch: Choice, unseal: Unseal)
    returns (r: Result)
    requires t.Valid() && Sealed(t, user) && t.nextId <= INT_MAX + 1
    ensures var m := Decoded(t, user, unseal);
            && GetReadsAs(Exec(t, user, Get, ch).1, Reader(unseal), r)
            && DiaryOp(m, t.nextId - 1, GetCall, ch, r, m)
  {
    if ch.calloc {
      r := CollectedReadBack(t, user, ch.dropped, unseal);
      assert Exec(t, user, Get, ch).1 == GetReply(Collected(t, user, ch.dropped));
    } else {
      r := GetFailed;
      FailureIsRead(Reader(unseal));
      assert Exec(t, user, Get, ch).1 == ["FAIL out of memory"];
    }
  }

  lemma {:induction false} KeptAreListed(
    rows: seq<T.Stored>, kept: seq<T.Stored>, es: seq<DiaryEntry>, m: Diary, unseal: Unseal)
    requires |es| == |kept| && forall i | 0 <= i < |kept| :: es[i] == EntryFor(kept[i], unseal) && kept[i] in rows
    requires Ascending(kept)
    requires forall row | row in rows :: row.id in m && m[row.id] == Item(row.ts, Plain(unseal, row.data))
    ensures Lists(SortEntries(es), m) && |SortEntries(es)| == |es|
  {
    SortEntriesIs(es);
    assert |SortEntries(es)| == |multiset(SortEntries(es))| == |multiset(es)|;
    DistinctPermutation(es, SortEntries(es));
    forall e | e in SortEntries(es) ensures e.id in m && m[e.id] == Item(e.ts, e.text) {
      assert e in multiset(es);
      var i :| 0 <= i < |es| && es[i] == e;
    }
  }

  /** The rows before row i are those with smaller ids. */
  lemma {:induction false} RowsBelow(rows: seq<T.Stored>, ids: set<int>, i: nat, below: set<int>)
    requires Ascending(rows) && i < |rows| && below == set x | x in ids && x < rows[i].id
    requires forall row | row in rows :: row.id in ids
    requires forall id | id in ids :: exists row :: row in rows && row.id == id
    ensures forall row | row in rows[..i] :: row.id in below
    ensures forall id | id in below :: exists row :: row in rows[..i] && row.id == id
  {
    forall row | row in rows[..i] ensures row.id in below {
      var j :| 0 <= j < i && rows[j] == row;
      assert rows[j] in rows;
    }
    forall id | id in below ensures exists row :: row in rows[..i] && row.id == id {
      var row :| row in rows && row.id == id;
      var j :| 0 <= j < |rows| && rows[j] == row;
      assert j < i;
      assert rows[..i][j] == row;
    }
  }

  /** The place of a row among the user's rows is the rank of its id. */
  lemma {:induction false} RankIs(rows: seq<T.Stored>, m: Diary, i: nat)
    requires Ascending(rows) && i < |rows|
    requires forall row | row in rows :: row.id in m
    requires forall id | id in m :: exists row :: row in rows && row.id == id
    ensures Rank(m, rows[i].id) == i
  {
    var below := set x | x in m && x < rows[i].id;
    RowsBelow(rows, m.Keys, i, below);
    CountRows(rows[..i], below);
  }

  lemma {:induction false} ListedIffSurvives(
    rows: seq<T.Stored>, kept: seq<T.Stored>, es: seq<DiaryEntry>, m: Diary, dropped: set<nat>, unseal: Unseal, i: nat)
    requires Ascending(rows) && i < |rows| && KeepsSurvivors(kept, rows, dropped, |rows|)
    requires |es| == |kept| && forall p | 0 <= p < |kept| :: es[p] == EntryFor(kept[p], unseal)
    requires forall row | row in rows :: row.id in m && m[row.id] == Item(row.ts, Plain(unseal, row.data))
    ensures rows[i] in rows && (Listed(SortEntries(es), m, rows[i].id) <==> Survives(dropped, i))
  {
    assert rows[i] in rows;
    var e := EntryFor(rows[i], unseal);
    SortEntriesIs(es);
    assert e in SortEntries(es) <==> e in multiset(SortEntries(es)) <==> e in multiset(es) <==> e in es;
    if Survives(dropped, i) {
      assert es[Undropped(dropped, i)] == e;
    }
    if e in es {
      var p: nat :| p < |es| && es[p] == e;
      assert Filled(dropped, |rows|, p);
      var j: nat :| j < |rows| && PlacedAt(dropped, j, p);
      assert kept[p] == rows[j];
      assert j == i;
    }
  }

  lemma {:induction false} OneListedIff(
    rows: seq<T.Stored>, kept: seq<T.Stored>, es: seq<DiaryEntry>, m: Diary, dropped: set<nat>, unseal: Unseal,
    id: int)
    requires Ascending(rows) && id in m && KeepsSurvivors(kept, rows, dropped, |rows|)
    requires |es| == |kept| && forall p | 0 <= p < |kept| :: es[p] == EntryFor(kept[p], unseal)
    requires forall row | row in rows :: row.id in m && m[row.id] == Item(row.ts, Plain(unseal, row.data))
    requires forall id | id in m :: exists row :: row in rows && row.id == id
    ensures Listed(SortEntries(es), m, id) <==> Survives(dropped, Rank(m, id))
  {
    var row :| row in rows && row.id == id;
    var i :| 0 <= i < |rows| && rows[i] == row;
    RankIs(rows, m, i);
    ListedIffSurvives(rows, kept, es, m, dropped, unseal, i);
  }

  // ---------------------------------------------------------------------------------------------
  // Every call
  // ---------------------------------------------------------------------------------------------

  /** Any call on any state: the client's result and the new state are those of the map operation, every reply line
      is consumed, and the client blocks until the last one is there. */
  lemma {:induction false} CallThroughStack(t: T.Tables, user: string, c: Call, ch: Choice, unseal: Unseal)
    requires t.Valid() && Sealed(t, user) && LegalCall(c, unseal)
    requires Exec(t, user, CommandOf(c), ch).0.nextId <= INT_MAX + 1
    ensures var (t', lines) := Exec(t, user, CommandOf(c), ch);
            && Sealed(t', user) && lines != []
            && ReadReply(c, lines, unseal).Some? && ReadReply(c, lines, unseal).value.1 == []
            && DiaryOp(Decoded(t, user, unseal), t.nextId - 1, c, ch, ReadReply(c, lines, unseal).value.0,
                       Decoded(t', user, unseal))
            && (c.PostCall? && ch.rc ==> ReadReply(c, lines, unseal).value.0 == Number(t.nextId))
            && forall p | 0 <= p < |lines| :: ReadReply(c, lines[..p], unseal).None?
  {
    match c
    case PostCall(_, _, _) => PostThroughStack(t, user, c, ch, unseal);
    case UpdateCall(_, _, _) => UpdateThroughStack(t, user, c, ch, unseal);
    case DeleteCall(_) => DeleteThroughStack(t, user, c, ch, unseal);
    case GetCall => var r := GetThroughStack(t, user, ch, unseal);
  }

  /** The map and the choices determine what a GET returns: there is only one such list. */
  lemma {:induction false} ListIsDetermined(a: seq<DiaryEntry>, b: seq<DiaryEntry>, m: Diary, dropped: set<nat>)
    requires ListsSurvivors(a, m, dropped) && ListsSurvivors(b, m, dropped)
    ensures a == b
  {
    forall e ensures e in a <==> e in b {
      if e in a { assert e == DiaryEntry(e.id, m[e.id].ts, m[e.id].text) && Listed(a, m, e.id) && Listed(b, m, e.id); }
      if e in b { assert e == DiaryEntry(e.id, m[e.id].ts, m[e.id].text) && Listed(b, m, e.id) && Listed(a, m, e.id); }
    }
    assert (set e | e in a) == (set e | e in b);
    DistinctLength(a);
    DistinctLength(b);
    SortedIsUnique(a, b);
  }

  lemma {:induction false} DistinctLength(a: seq<DiaryEntry>)
    requires DistinctIds(a)
    ensures |set e | e in a| == |a|
  {
    if a != [] {
      DistinctLength(a[1..]);
      forall e ensures e in a[1..] <==> e in a && e != a[0] {
        InTail(a, e);
      }
      assert (set e | e in a) == {a[0]} + (set e | e in a[1..]);
    }
  }

  lemma {:induction false} ListLength(es: seq<DiaryEntry>)
    ensures |set e | e in es :: e.id| <= |es|
  {
    if es != [] {
      ListLength(es[1..]);
      assert es == [es[0]] + es[1..];
      assert (set e | e in es :: e.id) == {es[0].id} + (set e | e in es[1..] :: e.id);
    }
  }

  lemma {:induction false} SubsetSize(a: set<int>, b: set<int>)
    requires a <= b
    ensures |a| <= |b|
  {
    assert b == a + (b - a);
  }

  lemma {:induction false} UndroppedOfNone(n: nat)
    ensures Undropped({}, n) == n
  {
    UndroppedStep({}, if n == 0 then 0 else n - 1);
    if n > 0 {
      UndroppedOfNone(n - 1);
    }
  }

  /** When no row is dropped, GET lists an entry exactly when fewer than 1024 entries have smaller ids. */
  lemma {:induction false} GetListsLowestIds(m: Diary, last: int, ch: Choice, r: Result, id: int)
    requires DiaryOp(m, last, GetCall, ch, r, m) && ch.calloc && ch.dropped == {} && id in m
    ensures Listed(r.entries, m, id) <==> Rank(m, id) < 1024
  {
    UndroppedOfNone(Rank(m, id));
  }

  /** So above the cap the newest entry, the one with the highest id, is never shown. */
  lemma {:induction false} GetHidesNewest(m: Diary, last: int, ch: Choice, r: Result, id: int)
    requires DiaryOp(m, last, GetCall, ch, r, m) && ch.calloc && ch.dropped == {}
    requires id in m && (forall x | x in m :: x <= id) && |m| > 1024
    ensures !Listed(r.entries, m, id)
  {
    GetListsLowestIds(m, last, ch, r, id);
    RankOfNewest(m, id);
  }

  lemma {:induction false} RankOfNewest(m: Diary, id: int)
    requires id in m && forall x | x in m :: x <= id
    ensures Rank(m, id) == |m| - 1
  {
    assert (set x | x in m && x < id) == m.Keys - {id};
  }

  /** When no row is dropped, GET lists everything exactly when there are at most 1024 entries. */
  lemma {:induction false} GetListsEverythingIff(m: Diary, last: int, ch: Choice, r: Result)
    requires DiaryOp(m, last, GetCall, ch, r, m) && ch.calloc && ch.dropped == {}
    ensures ListsAll(r.entries, m) <==> |m| <= 1024
  {
    if ListsAll(r.entries, m) {
      var ids := set e | e in r.entries :: e.id;
      forall id | id in m.Keys ensures id in ids {
        assert Listed(r.entries, m, id);
      }
      SubsetSize(m.Keys, ids);
      ListLength(r.entries);
    } else {
      var id :| id in m && !Listed(r.entries, m, id);
      GetListsLowestIds(m, last, ch, r, id);
      SubsetSize((set x | x in m && x < id), m.Keys - {id});
    }
  }
}
