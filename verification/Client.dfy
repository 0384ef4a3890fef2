/** client/net.c: the calls, the lines they send, and how they read the replies. A call reads from the lines that
    have arrived; it blocks when it needs a line that has not. */
module Client {
  import opened Options
  import opened Decimal
  import opened CStrings
  import opened Dialect

  datatype DiaryEntry = DiaryEntry(id: int, ts: int, text: string)

  /** unseal of a base64 blob; None when it cannot be opened. */
  type Unseal = string -> Option<string>

  /** A call, with the plain text and the sealed base64 blob that is sent for it. */
  datatype Call =
    | PostCall(text: string, data: string, timestamp: clong)
    | UpdateCall(id: cint, text: string, data: string)
    | DeleteCall(id: cint)
    | GetCall

  /** The integer that net_post_entry, net_update_entry and net_delete_entry return, or the outcome of
      net_get_entries. */
  datatype Result = Number(n: cint) | Entries(entries: seq<DiaryEntry>) | GetFailed

  /** Sealing produces non-empty base64, which has no spaces, and unsealing undoes it. */
  predicate LegalCall(c: Call, unseal: Unseal) {
    (c.PostCall? || c.UpdateCall?) ==> c.data != "" && SpaceFree(c.data) && unseal(c.data) == Some(c.text)
  }

  function LineOf(c: Call): string {
    match c
    case PostCall(_, data, timestamp) => PostLine(data, timestamp)
    case UpdateCall(id, _, data) => UpdateLine(id, data)
    case DeleteCall(id) => DeleteLine(id)
    case GetCall => "GET"
  }

  function CommandOf(c: Call): Command {
    match c
    case PostCall(_, data, timestamp) => Post(if timestamp > 0 then Some(timestamp) else None, data)
    case UpdateCall(id, _, data) => Update(id, data)
    case DeleteCall(id) => Delete(id)
    case GetCall => Get
  }

  /** The handler understands what the client says. */
  lemma {:induction false} CallIsUnderstood(c: Call, unseal: Unseal)
    requires LegalCall(c, unseal)
    ensures ParseCommand(LineOf(c)) == CommandOf(c)
  {
    match c
    case PostCall(_, data, timestamp) => PostLineParses(data, timestamp);
    case UpdateCall(id, _, data) => UpdateLineParses(id, data);
    case DeleteCall(id) => DeleteLineParses(id);
    case GetCall =>
  }

  // ---------------------------------------------------------------------------------------------
  // Sorting
  // ---------------------------------------------------------------------------------------------

  function EntryCmp(a: DiaryEntry, b: DiaryEntry): int {
    if a.ts != b.ts then (if a.ts < b.ts then 1 else -1) else b.id - a.id
  }

  /** On the ids the server gives out the comparator does not overflow, and it orders newest first, higher id first
      among equal time stamps; only the same id and time stamp compare equal. */
  lemma {:induction false} EntryCmpIsTotalOrder(a: DiaryEntry, b: DiaryEntry, c: DiaryEntry)
    requires 0 <= a.id <= INT_MAX && 0 <= b.id <= INT_MAX
    ensures IsInt(EntryCmp(a, b))
    ensures EntryCmp(a, b) < 0 <==> a.ts > b.ts || (a.ts == b.ts && a.id > b.id)
    ensures EntryCmp(a, b) == 0 <==> a.ts == b.ts && a.id == b.id
    ensures EntryCmp(a, b) < 0 <==> EntryCmp(b, a) > 0
    ensures EntryCmp(a, b) <= 0 && EntryCmp(b, c) <= 0 ==> EntryCmp(a, c) <= 0
  {
  }

  ghost predicate Sorted(es: seq<DiaryEntry>) {
    forall i, j | 0 <= i < j < |es| :: EntryCmp(es[i], es[j]) <= 0
  }

  function Place(e: DiaryEntry, es: seq<DiaryEntry>): seq<DiaryEntry> {
    if es == [] then [e] else if EntryCmp(e, es[0]) <= 0 then [e] + es else [es[0]] + Place(e, es[1..])
  }

  /** What qsort leaves in the array: a sorted permutation. Only this contract of it is used. */
  function SortEntries(es: seq<DiaryEntry>): seq<DiaryEntry> {
    if es == [] then [] else Place(es[0], SortEntries(es[1..]))
  }

  lemma {:induction false} PlaceContents(e: DiaryEntry, es: seq<DiaryEntry>)
    ensures multiset(Place(e, es)) == multiset{e} + multiset(es)
  {
    if es != [] {
      assert es == [es[0]] + es[1..];
      PlaceContents(e, es[1..]);
    }
  }

  lemma {:induction false} PlaceIs(e: DiaryEntry, es: seq<DiaryEntry>)
    requires Sorted(es)
    ensures Sorted(Place(e, es)) && multiset(Place(e, es)) == multiset{e} + multiset(es)
  {
    PlaceContents(e, es);
    if es != [] && EntryCmp(e, es[0]) > 0 {
      PlaceIs(e, es[1..]);
      var p := Place(e, es[1..]);
      forall i | 0 <= i < |p| ensures EntryCmp(es[0], p[i]) <= 0 {
        assert p[i] in multiset(p);
        assert p[i] == e || p[i] in es[1..];
      }
    }
  }

  lemma {:induction false} SortEntriesIs(es: seq<DiaryEntry>)
    ensures Sorted(SortEntries(es)) && multiset(SortEntries(es)) == multiset(es)
  {
    if es != [] {
      assert es == [es[0]] + es[1..];
      SortEntriesIs(es[1..]);
      PlaceIs(es[0], SortEntries(es[1..]));
    }
  }

  /** No two entries have the same id. */
  ghost predicate DistinctIds(es: seq<DiaryEntry>) {
    forall i, j | 0 <= i < j < |es| :: es[i].id != es[j].id
  }

  lemma {:induction false} SameHead(a: seq<DiaryEntry>, b: seq<DiaryEntry>)
    requires Sorted(a) && Sorted(b) && DistinctIds(a) && a != [] && b != [] && a[0] in b && b[0] in a
    ensures a[0] == b[0]
  {
    var i :| 0 <= i < |a| && a[i] == b[0];
    var j :| 0 <= j < |b| && b[j] == a[0];
    assert EntryCmp(a[0], b[0]) <= 0 && EntryCmp(b[0], a[0]) <= 0;
    assert a[0].id == a[i].id;
  }

  /** Contents and order determine the list, so it does not matter how qsort works. */
  lemma {:induction false} SortedIsUnique(a: seq<DiaryEntry>, b: seq<DiaryEntry>)
    requires Sorted(a) && Sorted(b) && DistinctIds(a) && DistinctIds(b)
    requires |a| == |b| && forall e :: e in a <==> e in b
    ensures a == b
    decreases |a|
  {
    if a != [] {
      SameHead(a, b);
      forall e ensures e in a[1..] <==> e in b[1..] {
        InTail(a, e);
        InTail(b, e);
      }
      SortedIsUnique(a[1..], b[1..]);
      assert a == [a[0]] + a[1..] && b == [b[0]] + b[1..];
    }
  }

  lemma {:induction false} InTail(a: seq<DiaryEntry>, e: DiaryEntry)
    requires a != [] && DistinctIds(a)
    ensures e in a[1..] <==> e in a && e != a[0]
  {
    if e in a[1..] {
      var i :| 0 <= i < |a| - 1 && a[1..][i] == e;
      assert a[i + 1] == e;
    }
    if e in a && e != a[0] {
      var i :| 0 <= i < |a| && a[i] == e;
      assert a[1..][i - 1] == e;
    }
  }

  // ---------------------------------------------------------------------------------------------
  // Reading replies
  // ---------------------------------------------------------------------------------------------

  function EntryOf(row: Row, unseal: Unseal): DiaryEntry {
    var plain := unseal(row.data);
    DiaryEntry(row.id, row.ts, if plain.Some? then plain.value else "[could not decrypt]")
  }

  /** The rows of a GET reply: blocked, given up at a bad row, or all read; rest is what is left unread. */
  datatype RowsRead = Blocked | GaveUp(rest: seq<string>) | Rows(entries: seq<DiaryEntry>, rest: seq<string>)

  type RowReader = string -> Option<DiaryEntry>

  function Reader(unseal: Unseal): RowReader {
    (line: string) =>
      match ParseRow(line)
      case None => None
      case Some(row) => Some(EntryOf(row, unseal))
  }

  function ReadRows(lines: seq<string>, n: nat, read: RowReader): RowsRead {
    if n == 0 then Rows([], lines)
    else if lines == [] then Blocked
    else
      match read(lines[0])
      case None => GaveUp(lines[1..])
      case Some(e) => Prepend([e], ReadRows(lines[1..], n - 1, read))
  }

  function Prepend(es: seq<DiaryEntry>, r: RowsRead): RowsRead {
    if r.Rows? then r.(entries := es + r.entries) else r
  }

  function ReadGet(lines: seq<string>, read: RowReader): Option<(Result, seq<string>)> {
    if lines == [] then None
    else if !StartsWith(lines[0], "ENTRIES ") then Some((GetFailed, lines[1..]))
    else
      var n := Atoi(lines[0][8..]);
      if n <= 0 then Some((Entries([]), lines[1..]))
      else
        match ReadRows(lines[1..], n, read)
        case Blocked => None
        case GaveUp(rest) => Some((GetFailed, rest))
        case Rows(es, rest) => Some((Entries(SortEntries(es)), rest))
  }

  /** The result of a call and the lines it leaves unread, or None while it blocks. */
  function ReadReply(c: Call, lines: seq<string>, unseal: Unseal): Option<(Result, seq<string>)> {
    if c.GetCall? then ReadGet(lines, Reader(unseal))
    else if lines == [] then None
    else
      var r: cint :=
        match c
        case PostCall(_, _, _) => if StartsWith(lines[0], "OK ") then Atoi(lines[0][3..]) else -1
        case UpdateCall(id, _, _) => if lines[0] == "OK" then id else -1
        case DeleteCall(_) => if lines[0] == "OK" then 0 else -1;
      Some((Number(r), lines[1..]))
  }

  /** qsort on the array. */
  method Qsort(arr: array<DiaryEntry>)
    modifies arr
    ensures arr[..] == SortEntries(old(arr[..]))
  {
    var sorted := SortEntries(arr[..]);
    SortEntriesIs(arr[..]);
    assert |sorted| == |multiset(sorted)| == |multiset(arr[..])| == arr.Length;
    forall i | 0 <= i < arr.Length { arr[i] := sorted[i]; }
    assert arr[..] == sorted;
  }

  /** net_get_entries: the loop that fills the array, and the sort. */
  method NetGetEntries(lines: seq<string>, unseal: Unseal) returns (reply: Option<(Result, seq<string>)>)
    ensures reply == ReadGet(lines, Reader(unseal))
  {
    if lines == [] { return None; }
    if !StartsWith(lines[0], "ENTRIES ") { return Some((GetFailed, lines[1..])); }
    var n := Atoi(lines[0][8..]);
    if n <= 0 { return Some((Entries([]), lines[1..])); }
    var arr := new DiaryEntry[n];
    var gaveUp, rest := ReceiveRows(lines[1..], n, Reader(unseal), arr);
    match gaveUp
    case None =>
      return None;
    case Some(true) =>
      return Some((GetFailed, rest));
    case Some(false) =>
      Qsort(arr);
      return Some((Entries(arr[..]), rest));
  }

  /** The loop of net_get_entries: whether it gave up, if it did not block, and the lines left unread. */
  method ReceiveRows(lines: seq<string>, n: nat, read: RowReader, arr: array<DiaryEntry>)
    returns (gaveUp: Option<bool>, rest: seq<string>)
    requires arr.Length == n
    modifies arr
    ensures ReadRows(lines, n, read) ==
            match gaveUp
            case None => Blocked
            case Some(true) => GaveUp(rest)
            case Some(false) => Rows(arr[..], rest)
  {
    var i := 0;
    rest := lines;
    while i < n
      invariant 0 <= i <= n
      invariant ReadRows(lines, n, read) == Prepend(arr[..i], ReadRows(rest, n - i, read))
    {
      if rest == [] { return None, []; }
      var e := read(rest[0]);
      rest := rest[1..];
      if e.None? { return Some(true), rest; }
      ghost var before := arr[..i];
      arr[i] := e.value;
      assert arr[..i + 1] == before + [arr[i]];
      PrependTwice(before, [arr[i]], ReadRows(rest, n - i - 1, read));
      i := i + 1;
    }
    assert arr[..] == arr[..n];
    return Some(false), rest;
  }

  lemma {:induction false} PrependTwice(a: seq<DiaryEntry>, b: seq<DiaryEntry>, r: RowsRead)
    ensures Prepend(a, Prepend(b, r)) == Prepend(a + b, r)
  {
    if r.Rows? {
      assert a + (b + r.entries) == (a + b) + r.entries;
    }
  }

  // ---------------------------------------------------------------------------------------------
  // When GET keeps in step
  // ---------------------------------------------------------------------------------------------

  /** The first line that cannot be read. */
  function FirstBad(lines: seq<string>, read: RowReader): nat {
    if lines == [] || read(lines[0]).None? then 0 else 1 + FirstBad(lines[1..], read)
  }

  ghost predicate AllRead(lines: seq<string>, read: RowReader) {
    forall i | 0 <= i < |lines| :: read(lines[i]).Some?
  }

  ghost predicate ReadAs(lines: seq<string>, read: RowReader, es: seq<DiaryEntry>) {
    |es| == |lines| && forall i | 0 <= i < |lines| :: read(lines[i]) == Some(es[i])
  }

  lemma {:induction false} FirstBadIs(lines: seq<string>, read: RowReader)
    ensures var n := FirstBad(lines, read);
            && n <= |lines| && (forall i | 0 <= i < n :: read(lines[i]).Some?)
            && (n < |lines| ==> read(lines[n]).None?)
  {
    if lines != [] && read(lines[0]).Some? {
      FirstBadIs(lines[1..], read);
    }
  }

  /** With all the announced rows there, the rows after the first bad one are left in the connection; if there is none
      they are all read. */
  lemma {:induction false} ReadRowsStops(lines: seq<string>, read: RowReader)
    ensures var r, n := ReadRows(lines, |lines|, read), FirstBad(lines, read);
            if n < |lines| then r == GaveUp(lines[n + 1..])
            else r.Rows? && r.rest == [] && ReadAs(lines, read, r.entries)
  {
    if lines != [] && read(lines[0]).Some? {
      ReadRowsStops(lines[1..], read);
    }
  }

  /** So all rows are returned exactly when all can be read, and the reply is consumed whole exactly when all but the
      last can. */
  lemma {:induction false} ReadRowsInStep(lines: seq<string>, read: RowReader)
    ensures var r := ReadRows(lines, |lines|, read);
            && !r.Blocked?
            && (r.Rows? <==> AllRead(lines, read))
            && (r.Rows? ==> ReadAs(lines, read, r.entries))
            && (r.rest == [] <==> forall i | 0 <= i < |lines| - 1 :: read(lines[i]).Some?)
  {
    FirstBadIs(lines, read);
    ReadRowsStops(lines, read);
  }

  /** With fewer readable rows than announced the call blocks. */
  lemma {:induction false} ReadRowsBlocks(lines: seq<string>, n: nat, read: RowReader)
    requires |lines| < n && AllRead(lines, read)
    ensures ReadRows(lines, n, read) == Blocked
  {
    if lines != [] {
      assert AllRead(lines[1..], read);
      ReadRowsBlocks(lines[1..], n - 1, read);
    }
  }
}
