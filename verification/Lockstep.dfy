/** GET on whatever data the table holds: when net.c keeps in step with the handler, and when the two clients agree. */
module Lockstep {
  import opened Options
  import opened Decimal
  import opened Dialect
  import opened Handler
  import opened Client
  import opened Stack
  import J = JavaClient
  import T = Tables

  /** The first word of a row's data, which is all that strtok_r leaves of it. */
  function WordOf(row: T.Stored): Option<string> {
    Token(row.data).0
  }

  /** What net.c makes of a row. */
  function CEntry(row: T.Stored, unseal: Unseal): Option<DiaryEntry> {
    match WordOf(row)
    case None => None
    case Some(word) => Some(DiaryEntry(row.id, row.ts, Plain(unseal, word)))
  }

  lemma {:induction false} ReaderOf(line: string, row: T.Stored, unseal: Unseal)
    requires ParseRow(line) == match WordOf(row) case None => None case Some(word) => Some(Row(row.id, row.ts, word))
    ensures Reader(unseal)(line) == CEntry(row, unseal)
  {
  }

  lemma {:induction false} CReadsRow(row: T.Stored, unseal: Unseal)
    requires InRange(row)
    ensures Reader(unseal)(RowOf(row)) == CEntry(row, unseal)
  {
    var line := RowLine(row.id, row.ts, row.data);
    assert line == RowOf(row);
    RowParses(row.id, row.ts, row.data);
    ReaderOf(line, row, unseal);
  }

  lemma {:induction false} CReadsRows(kept: seq<T.Stored>, unseal: Unseal)
    requires forall i | 0 <= i < |kept| :: InRange(kept[i])
    ensures forall i | 0 <= i < |kept| :: Reader(unseal)(Lines(kept)[i]) == CEntry(kept[i], unseal)
  {
    forall i | 0 <= i < |kept| ensures Reader(unseal)(Lines(kept)[i]) == CEntry(kept[i], unseal) {
      LinesAt(kept, i);
      CReadsRow(kept[i], unseal);
    }
  }

  lemma {:induction false} CReadsReply(kept: seq<T.Stored>, lines: seq<string>, unseal: Unseal, read: RowReader)
    requires lines == Lines(kept) && |kept| <= MAX_ENTRIES
    requires forall i | 0 <= i < |kept| :: read(lines[i]) == CEntry(kept[i], unseal)
    ensures ReadGet(GetReply(lines), read).Some?
    ensures var (r, rest) := ReadGet(GetReply(lines), read).value;
            && (r.Entries? <==> forall i | 0 <= i < |kept| :: WordOf(kept[i]).Some?) && (!r.Entries? ==> r == GetFailed)
            && (r.Entries? ==> exists es :: ReadAs(lines, read, es) && r.entries == SortEntries(es))
            && (rest == [] <==> forall i | 0 <= i < |kept| - 1 :: WordOf(kept[i]).Some?)
  {
    HeaderIsRead(|lines|);
    assert GetReply(lines) == [GetReply(lines)[0]] + lines;
    GetInStep(GetReply(lines)[0], lines, read);
    assert forall i | 0 <= i < |kept| :: read(lines[i]).Some? <==> WordOf(kept[i]).Some?;
  }

  /** The C client gets its entries exactly when the data of every row that is sent has a word, and nothing is left in
      the connection exactly when the data of every row but the last has one. The data of net.c always has one. */
  lemma {:induction false} GetInStepIff(t: T.Tables, user: string, ch: Choice, unseal: Unseal)
    requires t.Valid() && t.nextId <= INT_MAX + 1 && LongStamps(t, user) && ch.calloc
    ensures ReadReply(GetCall, Exec(t, user, Get, ch).1, unseal).Some?
    ensures var kept := KeptRows(t, user, ch.dropped);
            var (r, rest) := ReadReply(GetCall, Exec(t, user, Get, ch).1, unseal).value;
            && (r.Entries? <==> forall i | 0 <= i < |kept| :: WordOf(kept[i]).Some?)
            && (rest == [] <==> forall i | 0 <= i < |kept| - 1 :: WordOf(kept[i]).Some?)
  {
    var kept := KeptRows(t, user, ch.dropped);
    RowsBehindReply(t, user, ch.dropped);
    CReadsRows(kept, unseal);
    CReadsReply(kept, Lines(kept), unseal, Reader(unseal));
  }

  /** The table after the lines "POST " and "POST x". */
  function AfterEmptyPost(user: string, ch: Choice): T.Tables {
    Exec(Exec(T.EMPTY, user, ParseCommand("POST "), ch).0, user, ParseCommand("POST x"), ch).0
  }

  /** A table with two rows of a user. */
  function TwoRows(user: string, ts: int, first: string, second: string): T.Tables {
    T.Tables(map[1 := T.Entry(user, ts, first), 2 := T.Entry(user, ts, second)], 3)
  }

  lemma {:induction false} TwoRowsAreKept(user: string, ts: clong, first: string, second: string)
    ensures var t := TwoRows(user, ts, first, second);
            && t.Valid() && LongStamps(t, user)
            && KeptRows(t, user, {}) == [T.Stored(1, ts, first), T.Stored(2, ts, second)]
  {
    var t := TwoRows(user, ts, first, second);
    assert T.SelectBelow(t, user, 1) == [];
    assert T.SelectBelow(t, user, 2) == [T.Stored(1, ts, first)];
    var rows := T.Select(t, user);
    assert rows == [T.Stored(1, ts, first), T.Stored(2, ts, second)];
    assert Kept(rows, {}, 1) == [rows[0]];
  }

  lemma {:induction false} EmptyPostIsStored(user: string, ch: Choice)
    requires ch.rc
    ensures AfterEmptyPost(user, ch) == TwoRows(user, ch.clock, "", "x")
  {
    DispatchPost("");
    DispatchPost("x");
    assert "POST " + "" == "POST " && "POST " + "x" == "POST x";
  }

  /** A GET out of step: after the lines "POST " and "POST x" it fails and leaves a row in the connection. */
  lemma {:induction false} EmptyPostBreaksStep(user: string, ch: Choice, unseal: Unseal)
    requires ch.rc && ch.calloc && ch.dropped == {}
    ensures var reply := ReadReply(GetCall, Exec(AfterEmptyPost(user, ch), user, Get, ch).1, unseal);
            reply.Some? && !reply.value.0.Entries? && reply.value.1 != []
  {
    EmptyPostIsStored(user, ch);
    TwoRowsAreKept(user, ch.clock, "", "x");
    GetInStepIff(AfterEmptyPost(user, ch), user, ch, unseal);
    var kept := KeptRows(AfterEmptyPost(user, ch), user, {});
    assert WordOf(kept[0]).None?;
  }

  // ---------------------------------------------------------------------------------------------
  // The two clients
  // ---------------------------------------------------------------------------------------------

  /** What a Java call makes of a reply, as net.c would return it. */
  function JavaResult(c: Call, lines: seq<string>, unseal: Unseal): (Result, seq<string>) {
    match c
    case PostCall(_, _, _) =>
      var (id, rest) := J.ReadPost(lines);
      (Number(if id.Some? && IsInt(id.value) then id.value else -1), rest)
    case UpdateCall(id, _, _) =>
      var (ok, rest) := J.ReadOk(lines);
      (Number(if ok then id else -1), rest)
    case DeleteCall(_) =>
      var (ok, rest) := J.ReadOk(lines);
      (Number(if ok then 0 else -1), rest)
    case GetCall =>
      var (es, rest) := J.ReadEntries(lines, J.JavaReader(unseal));
      (if es.Some? then Entries(SortEntries(es.value)) else GetFailed, rest)
  }

  /** The clients come to the same result on every reply to a POST, an UPDATE and a DELETE. */
  lemma {:induction false} ClientsAgreeOnChanges(t: T.Tables, user: string, c: Call, ch: Choice, unseal: Unseal)
    requires !c.GetCall?
    ensures var lines := Exec(t, user, CommandOf(c), ch).1;
            Some(JavaResult(c, lines, unseal)) == ReadReply(c, lines, unseal)
  {
    if c.PostCall? {
      var id := if ch.rc then ToInt(t.nextId) else -1;
      PostReplyIsRead(id);
      J.PostReplyIsReadToo(id);
    }
  }

  /** The entry that a client should show for a row: a row that does not open says so. */
  predicate Shows(e: DiaryEntry, row: T.Stored, unseal: Unseal) {
    && e.id == row.id && e.ts == row.ts
    && match unseal(row.data) case Some(text) => e.text == text case None => e.text == "[could not decrypt]"
  }

  ghost predicate ShowsAll(es: seq<DiaryEntry>, rows: seq<T.Stored>, unseal: Unseal) {
    |es| == |rows| && forall i | 0 <= i < |rows| :: Shows(es[i], rows[i], unseal)
  }

  /** Lists of entries with the same ids in the same order sort alike exactly when they are the same. */
  lemma {:induction false} SortedAlike(a: seq<DiaryEntry>, b: seq<DiaryEntry>)
    requires |a| == |b| && DistinctIds(a) && forall i | 0 <= i < |a| :: a[i].id == b[i].id
    ensures SortEntries(a) == SortEntries(b) <==> a == b
  {
    SortEntriesIs(a);
    SortEntriesIs(b);
    if SortEntries(a) == SortEntries(b) {
      forall i | 0 <= i < |a| ensures a[i] == b[i] {
        assert a[i] in multiset(b);
        var j :| 0 <= j < |b| && b[j] == a[i];
      }
    }
  }

  /** The word of a row opens to what its whole data opens to. */
  predicate SameText(row: T.Stored, unseal: Unseal) {
    WordOf(row).Some? && Plain(unseal, WordOf(row).value) == Plain(unseal, row.data)
  }

  /** On a GET they agree, up to the order in which it is presented, exactly when every row that is sent has a word
      that opens to what the whole data opens to, as the sealed data of the clients does. */
  lemma {:induction false} ClientsAgreeOnGetIff(t: T.Tables, user: string, ch: Choice, unseal: Unseal)
    requires t.Valid() && t.nextId <= INT_MAX + 1 && LongStamps(t, user)
    ensures var kept, lines := KeptRows(t, user, ch.dropped), Exec(t, user, Get, ch).1;
            Some(JavaResult(GetCall, lines, unseal)) == ReadReply(GetCall, lines, unseal)
            <==> !ch.calloc || forall i | 0 <= i < |kept| :: SameText(kept[i], unseal)
  {
    J.GetIsAlwaysRead(t, user, ch, unseal);
    if ch.calloc {
      var kept := KeptRows(t, user, ch.dropped);
      RowsBehindReply(t, user, ch.dropped);
      CReadsRows(kept, unseal);
      ReplyAgreesIff(kept, Lines(kept), unseal, Reader(unseal));
    } else {
      FailureIsRead(Reader(unseal));
    }
  }

  lemma {:induction false} SameEntriesIff(
    kept: seq<T.Stored>, es: seq<DiaryEntry>, all: seq<DiaryEntry>, unseal: Unseal)
    requires Ascending(kept) && |es| == |all| == |kept|
    requires forall i | 0 <= i < |kept| :: CEntry(kept[i], unseal) == Some(es[i]) && all[i] == EntryFor(kept[i], unseal)
    ensures SortEntries(es) == SortEntries(all) <==> forall i | 0 <= i < |kept| :: SameText(kept[i], unseal)
  {
    SortedAlike(es, all);
    forall i | 0 <= i < |kept| ensures es[i] == all[i] <==> SameText(kept[i], unseal) {
      assert CEntry(kept[i], unseal) == Some(es[i]) && all[i] == EntryFor(kept[i], unseal);
    }
    if forall i | 0 <= i < |kept| :: SameText(kept[i], unseal) {
      assert forall i | 0 <= i < |kept| :: es[i] == all[i];
      assert es == all;
    } else {
      var i :| 0 <= i < |kept| && !SameText(kept[i], unseal);
      assert es[i] != all[i];
    }
  }

  lemma {:induction false} ReplyAgreesIff(kept: seq<T.Stored>, lines: seq<string>, unseal: Unseal, read: RowReader)
    requires lines == Lines(kept) && |kept| <= MAX_ENTRIES && Ascending(kept)
    requires forall i | 0 <= i < |kept| :: read(lines[i]) == CEntry(kept[i], unseal)
    ensures ReadGet(GetReply(lines), read) == Some((Entries(SortEntries(J.EntriesFor(kept, unseal))), []))
            <==> forall i | 0 <= i < |kept| :: SameText(kept[i], unseal)
  {
    CReadsReply(kept, lines, unseal, read);
    var (r, rest) := ReadGet(GetReply(lines), read).value;
    if r.Entries? {
      var es :| ReadAs(lines, read, es) && r.entries == SortEntries(es);
      SameEntriesIff(kept, es, J.EntriesFor(kept, unseal), unseal);
    } else {
      var i :| 0 <= i < |kept| && WordOf(kept[i]).None?;
      assert !SameText(kept[i], unseal);
    }
  }

  lemma {:induction false} EntriesShowRows(kept: seq<T.Stored>, unseal: Unseal)
    ensures ShowsAll(J.EntriesFor(kept, unseal), kept, unseal)
  {
  }

  /** In every GET the Java client shows every row that is sent, in the order of the ids; one that does not open is
      shown as such, and hides no other. */
  lemma {:induction false} JavaShowsEveryRow(t: T.Tables, user: string, ch: Choice, unseal: Unseal)
    returns (es: seq<DiaryEntry>)
    requires t.Valid() && t.nextId <= INT_MAX + 1 && LongStamps(t, user) && ch.calloc
    ensures ShowsAll(es, KeptRows(t, user, ch.dropped), unseal)
    ensures J.ReadEntries(Exec(t, user, Get, ch).1, J.JavaReader(unseal)) == (Some(es), [])
  {
    es := J.EntriesFor(KeptRows(t, user, ch.dropped), unseal);
    J.GetIsAlwaysRead(t, user, ch, unseal);
    EntriesShowRows(KeptRows(t, user, ch.dropped), unseal);
  }

  /** The C client shows the same entries, newest first, when the data of every row that is sent is one word, as all
      base64 is. */
  lemma {:induction false} CShowsEveryRow(t: T.Tables, user: string, ch: Choice, unseal: Unseal)
    returns (es: seq<DiaryEntry>, shown: seq<DiaryEntry>)
    requires t.Valid() && t.nextId <= INT_MAX + 1 && LongStamps(t, user) && ch.calloc
    requires forall row | row in KeptRows(t, user, ch.dropped) :: row.data != "" && ' ' !in row.data
    ensures ShowsAll(es, KeptRows(t, user, ch.dropped), unseal)
    ensures ReadReply(GetCall, Exec(t, user, Get, ch).1, unseal) == Some((Entries(shown), []))
    ensures Sorted(shown) && multiset(shown) == multiset(es)
  {
    var kept := KeptRows(t, user, ch.dropped);
    es := J.EntriesFor(kept, unseal);
    shown := SortEntries(es);
    EntriesShowRows(kept, unseal);
    SortEntriesIs(es);
    WordsAreWhole(kept, unseal);
    ReadsSorted(t, user, ch, unseal, kept);
  }

  lemma {:induction false} WordsAreWhole(kept: seq<T.Stored>, unseal: Unseal)
    requires forall row | row in kept :: row.data != "" && ' ' !in row.data
    ensures forall i | 0 <= i < |kept| :: SameText(kept[i], unseal)
  {
    forall i | 0 <= i < |kept| ensures SameText(kept[i], unseal) {
      assert kept[i] in kept;
      WordIsWhole(kept[i].data);
    }
  }

  lemma {:induction false} ReadsSorted(t: T.Tables, user: string, ch: Choice, unseal: Unseal, kept: seq<T.Stored>)
    requires t.Valid() && t.nextId <= INT_MAX + 1 && LongStamps(t, user) && ch.calloc
    requires kept == KeptRows(t, user, ch.dropped) && forall i | 0 <= i < |kept| :: SameText(kept[i], unseal)
    ensures ReadReply(GetCall, Exec(t, user, Get, ch).1, unseal)
            == Some((Entries(SortEntries(J.EntriesFor(kept, unseal))), []))
  {
    RowsBehindReply(t, user, ch.dropped);
    CReadsRows(kept, unseal);
    ReplyAgreesIff(kept, Lines(kept), unseal, Reader(unseal));
  }
}
