/** DiaryConnection.java, the second client of the same dialect: what it sends, how it reads the replies, and that it
    agrees with net.c. */
module JavaClient {
  import opened Options
  import opened Decimal
  import opened CStrings
  import opened Dialect
  import opened Handler
  import opened Client
  import opened Stack
  import T = Tables

  // ---------------------------------------------------------------------------------------------
  // Reading replies; None is an exception
  // ---------------------------------------------------------------------------------------------

  function TrimLeft(s: string): string {
    if s != [] && s[0] <= ' ' then TrimLeft(s[1..]) else s
  }

  function TrimRight(s: string): string {
    if s != [] && s[|s| - 1] <= ' ' then TrimRight(s[..|s| - 1]) else s
  }

  /** String.trim. */
  function Trim(s: string): string {
    TrimRight(TrimLeft(s))
  }

  function ParseInt(s: string): Option<int> {
    ParseJava(Trim(s), INT_MIN, INT_MAX)
  }

  /** The id that postEntry returns, and the lines left unread. */
  function ReadPost(lines: seq<string>): (Option<int>, seq<string>) {
    if lines == [] then (None, []) else
      (if StartsWith(lines[0], "OK ") then ParseInt(lines[0][3..]) else None, lines[1..])
  }

  /** Whether updateEntry and deleteEntry return without an exception. */
  function ReadOk(lines: seq<string>): (bool, seq<string>) {
    if lines == [] then (false, []) else (lines[0] == "OK", lines[1..])
  }

  /** What a turn of the loop does with a row. */
  datatype Reading = Skip | Throw | Add(entry: DiaryEntry)

  type RowReading = string -> Reading

  function JavaReader(unseal: Unseal): RowReading {
    (line: string) =>
      match ParseRowJava(line)
      case Skipped => Skip
      case NumberFormat => Throw
      case Parsed(row) => Add(EntryOf(row, unseal))
  }

  function ParseRows(lines: seq<string>, n: nat, read: RowReading): (Option<seq<DiaryEntry>>, seq<string>) {
    if n == 0 then (Some([]), lines)
    else if lines == [] then (None, [])
    else
      match read(lines[0])
      case Throw => (None, lines[1..])
      case Skip => ParseRows(lines[1..], n - 1, read)
      case Add(e) => Extend([e], ParseRows(lines[1..], n - 1, read))
  }

  function Extend(
    es: seq<DiaryEntry>, r: (Option<seq<DiaryEntry>>, seq<string>)): (Option<seq<DiaryEntry>>, seq<string>) {
    if r.0.None? then r else (Some(es + r.0.value), r.1)
  }

  function ReadEntries(lines: seq<string>, read: RowReading): (Option<seq<DiaryEntry>>, seq<string>) {
    if lines == [] then (None, [])
    else if !StartsWith(lines[0], "ENTRIES ") then (None, lines[1..])
    else
      match ParseInt(lines[0][8..])
      case None => (None, lines[1..])
      case Some(n) => if n < 0 then (None, lines[1..]) else ParseRows(lines[1..], n, read)
  }

  // ---------------------------------------------------------------------------------------------
  // The class
  // ---------------------------------------------------------------------------------------------

  /** incoming is everything the server sends from now on until it closes the connection. */
  class DiaryConnection {
    const unseal: Unseal
    var incoming: seq<string>
    var outgoing: seq<string>

    constructor (unseal: Unseal, incoming: seq<string>)
      ensures this.unseal == unseal && this.incoming == incoming && outgoing == []
    {
      this.unseal, this.incoming, outgoing := unseal, incoming, [];
    }

    method SendLine(line: string)
      modifies this`outgoing
      ensures outgoing == old(outgoing) + [line]
    {
      outgoing := outgoing + [line];
    }

    method ReadLine() returns (line: Option<string>)
      modifies this`incoming
      ensures old(incoming) == [] ==> line == None && incoming == []
      ensures old(incoming) != [] ==> line == Some(old(incoming)[0]) && incoming == old(incoming)[1..]
    {
      if incoming == [] { return None; }
      line, incoming := Some(incoming[0]), incoming[1..];
    }

    /** b64 is None when sealing fails. */
    method PostEntry(b64: Option<string>) returns (id: Option<int>)
      modifies this
      ensures b64.None? ==> id == None && outgoing == old(outgoing) && incoming == old(incoming)
      ensures b64.Some? ==> outgoing == old(outgoing) + [PostLine(b64.value, 0)]
      ensures b64.Some? ==> (id, incoming) == ReadPost(old(incoming))
      ensures old(incoming) == [] ==> id == None && incoming == []
    {
      if b64.None? { return None; }
      SendLine("POST " + b64.value);
      var resp := ReadLine();
      if resp.None? || !StartsWith(resp.value, "OK ") { return None; }
      id := ParseInt(resp.value[3..]);
    }

    method UpdateEntry(id: cint, b64: Option<string>) returns (r: Option<int>)
      modifies this
      ensures b64.None? ==> r == None && outgoing == old(outgoing) && incoming == old(incoming)
      ensures b64.Some? ==> outgoing == old(outgoing) + [UpdateLine(id, b64.value)]
      ensures b64.Some? ==> (r == Some(id as int), incoming) == ReadOk(old(incoming))
      ensures old(incoming) == [] ==> r == None && incoming == []
      ensures r.Some? ==> r.value == id
    {
      if b64.None? { return None; }
      PrefixesFit(0, id);
      SendLine("UPDATE " + Dec(id) + " " + b64.value);
      var resp := ReadLine();
      if resp != Some("OK") { return None; }
      r := Some(id);
    }

    method DeleteEntry(id: cint) returns (ok: bool)
      modifies this
      ensures outgoing == old(outgoing) + [DeleteLine(id)] && (ok, incoming) == ReadOk(old(incoming))
      ensures old(incoming) == [] ==> !ok && incoming == []
    {
      PrefixesFit(0, id);
      SendLine("DELETE " + Dec(id));
      var resp := ReadLine();
      ok := resp == Some("OK");
    }

    method GetEntries() returns (entries: Option<seq<DiaryEntry>>)
      modifies this
      ensures outgoing == old(outgoing) + ["GET"]
      ensures (entries, incoming) == ReadEntries(old(incoming), JavaReader(unseal))
      ensures old(incoming) == [] ==> entries == None && incoming == []
    {
      SendLine("GET");
      var header := ReadLine();
      if header.None? || !StartsWith(header.value, "ENTRIES ") { return None; }
      var count := ParseInt(header.value[8..]);
      if count.None? || count.value < 0 { return None; }
      entries := ReceiveRows(count.value, JavaReader(unseal));
    }

    /** The loop of getEntries. */
    method ReceiveRows(count: nat, read: RowReading) returns (entries: Option<seq<DiaryEntry>>)
      modifies this`incoming
      ensures (entries, incoming) == ParseRows(old(incoming), count, read)
      ensures |old(incoming)| < count ==> entries == None
    {
      var list := [];
      Whole(ParseRows(incoming, count, read));
      TooFewRows(incoming, count, read);
      for i := 0 to count
        invariant ParseRows(old(incoming), count, read) == Extend(list, ParseRows(incoming, count - i, read))
      {
        var line := ReadLine();
        if line.None? { return None; }
        match read(line.value)
        case Skip =>
        case Throw => return None;
        case Add(e) =>
          ExtendTwice(list, [e], ParseRows(incoming, count - i - 1, read));
          list := list + [e];
      }
      assert list + [] == list;
      entries := Some(list);
    }
  }

  /** When the connection is closed before the last row that was announced, the call throws. */
  lemma {:induction false} TooFewRows(lines: seq<string>, n: nat, read: RowReading)
    ensures |lines| < n ==> ParseRows(lines, n, read).0 == None
  {
    if lines != [] && n > 0 {
      TooFewRows(lines[1..], n - 1, read);
    }
  }

  /** A row without two spaces is skipped; one with two is an entry exactly when what is before each is a number in
      range, and throws else. */
  lemma {:induction false} RowReadingIs(a: string, b: string, data: string, unseal: Unseal)
    requires SpaceFree(a) && SpaceFree(b)
    ensures JavaReader(unseal)(a) == Skip && JavaReader(unseal)(a + " " + b) == Skip
    ensures var id, ts := ParseJava(a, -0x8000_0000, 0x7FFF_FFFF), ParseJava(b, LONG_MIN, LONG_MAX);
            JavaReader(unseal)(a + " " + b + " " + data)
            == if id.None? || ts.None? then Throw
               else Add(DiaryEntry(id.value, ts.value, match unseal(data) case Some(text) => text
                                                                       case None => "[could not decrypt]"))
  {
    OneSpace(a, b);
    JavaRowOfWords(a, b, data);
  }

  lemma {:induction false} OneSpace(a: string, b: string)
    requires SpaceFree(a) && SpaceFree(b)
    ensures IndexOf(a, ' ', 0) == None
    ensures IndexOf(a + " " + b, ' ', 0) == Some(|a|) && IndexOf(a + " " + b, ' ', |a| + 1) == None
  {
    var line := a + " " + b;
    forall k | 0 <= k < |a| ensures line[k] != ' ' && a[k] != ' ' { assert line[k] in a; }
    forall k | |a| < k < |line| ensures line[k] != ' ' { assert line[k] == b[k - |a| - 1]; assert line[k] in b; }
    IndexOfIs(line, ' ', 0, |a|);
  }

  lemma {:induction false} Whole(r: (Option<seq<DiaryEntry>>, seq<string>))
    ensures Extend([], r) == r
  {
    if r.0.Some? {
      assert [] + r.0.value == r.0.value;
    }
  }

  lemma {:induction false} ExtendTwice(
    a: seq<DiaryEntry>, b: seq<DiaryEntry>, r: (Option<seq<DiaryEntry>>, seq<string>))
    ensures Extend(a, Extend(b, r)) == Extend(a + b, r)
  {
    if r.0.Some? {
      assert a + (b + r.0.value) == (a + b) + r.0.value;
    }
  }

  // ---------------------------------------------------------------------------------------------
  // Reading what the handler sends
  // ---------------------------------------------------------------------------------------------

  lemma {:induction false} NothingToTrim(s: string)
    requires s != [] && s[0] > ' ' && s[|s| - 1] > ' '
    ensures Trim(s) == s
  {
  }

  predicate AllBlank(s: string) {
    forall i | 0 <= i < |s| :: s[i] <= ' '
  }

  lemma {:induction false} LeftIsTrimmed(a: string, s: string)
    requires AllBlank(a)
    ensures TrimLeft(a + s) == TrimLeft(s)
  {
    if a == [] {
      assert a + s == s;
    } else {
      assert (a + s)[1..] == a[1..] + s;
      LeftIsTrimmed(a[1..], s);
    }
  }

  lemma {:induction false} RightIsTrimmed(s: string, b: string)
    requires AllBlank(b)
    ensures TrimRight(s + b) == TrimRight(s)
  {
    if b == [] {
      assert s + b == s;
    } else {
      var init := b[..|b| - 1];
      assert (s + b)[..|s + b| - 1] == s + init;
      RightIsTrimmed(s, init);
    }
  }

  /** The count of a header is read with any blanks around it. */
  lemma {:induction false} BlanksAreTrimmed(a: string, n: cint, b: string)
    requires AllBlank(a) && AllBlank(b)
    ensures ParseInt(a + Dec(n) + b) == Some(n as int)
  {
    NumberHasNoBlanks(n);
    LeftIsTrimmed(a, Dec(n) + b);
    assert a + Dec(n) + b == a + (Dec(n) + b);
    RightIsTrimmed(Dec(n), b);
    NothingToTrim(Dec(n));
    ParseIntOfDec(n);
  }

  lemma {:induction false} ParseIntOfDec(n: cint)
    ensures ParseInt(Dec(n)) == Some(n as int)
  {
    NumberHasNoBlanks(n);
    NothingToTrim(Dec(n));
    ParseJavaOfDec(n, INT_MIN, INT_MAX);
    assert IsInt(n);
  }

  lemma {:induction false} NumberHasNoBlanks(n: int)
    ensures Dec(n)[0] > ' ' && Dec(n)[|Dec(n)| - 1] > ' '
  {
    if n >= 0 {
      assert Dec(n)[0] in Dec(n) && Dec(n)[|Dec(n)| - 1] in Dec(n);
    } else {
      var d := Digits(-n);
      assert Dec(n) == "-" + d && d[|d| - 1] in d;
    }
  }

  function EntriesFor(kept: seq<T.Stored>, unseal: Unseal): (es: seq<DiaryEntry>)
    ensures |es| == |kept| && forall i | 0 <= i < |kept| :: es[i] == EntryFor(kept[i], unseal)
  {
    if kept == [] then [] else [EntryFor(kept[0], unseal)] + EntriesFor(kept[1..], unseal)
  }

  lemma {:induction false} AllRowsAreRead(lines: seq<string>, kept: seq<T.Stored>, unseal: Unseal, read: RowReading)
    requires |lines| == |kept|
    requires forall i | 0 <= i < |kept| :: read(lines[i]) == Add(EntryFor(kept[i], unseal))
    ensures ParseRows(lines, |lines|, read) == (Some(EntriesFor(kept, unseal)), [])
  {
    if lines != [] {
      AllRowsAreRead(lines[1..], kept[1..], unseal, read);
    }
  }

  lemma {:induction false} RowIsRead(row: T.Stored, unseal: Unseal)
    requires InRange(row)
    ensures JavaReader(unseal)(RowOf(row)) == Add(EntryFor(row, unseal))
  {
    RowParsesJava(row.id, row.ts, row.data);
  }

  lemma {:induction false} WholeReplyIsRead(
    header: string, lines: seq<string>, kept: seq<T.Stored>, unseal: Unseal, read: RowReading)
    requires StartsWith(header, "ENTRIES ") && ParseInt(header[8..]) == Some(|lines| as int)
    requires |lines| == |kept| && forall i | 0 <= i < |kept| :: read(lines[i]) == Add(EntryFor(kept[i], unseal))
    ensures ReadEntries([header] + lines, read) == (Some(EntriesFor(kept, unseal)), [])
  {
    AllRowsAreRead(lines, kept, unseal, read);
    assert ([header] + lines)[1..] == lines;
  }

  /** The Java client reads every row of every GET reply, in the order of the ids and whatever the data, and leaves
      nothing unread. (net.c does not: Lockstep.GetInStepIff.) */
  lemma {:induction false} GetIsAlwaysRead(t: T.Tables, user: string, ch: Choice, unseal: Unseal)
    requires t.Valid() && t.nextId <= INT_MAX + 1 && LongStamps(t, user)
    ensures ReadEntries(Exec(t, user, Get, ch).1, JavaReader(unseal))
            == (if ch.calloc then Some(EntriesFor(KeptRows(t, user, ch.dropped), unseal)) else None, [])
  {
    var kept := KeptRows(t, user, ch.dropped);
    RowsBehindReply(t, user, ch.dropped);
    if ch.calloc {
      var lines, read := Lines(kept), JavaReader(unseal);
      forall i | 0 <= i < |kept| ensures read(lines[i]) == Add(EntryFor(kept[i], unseal)) {
        LinesAt(kept, i);
        RowIsRead(kept[i], unseal);
      }
      HeaderIsWhole(|kept|);
      WholeReplyIsRead(GetReply(lines)[0], lines, kept, unseal, read);
    } else {
      FailureThrows(JavaReader(unseal));
    }
  }

  lemma {:induction false} FailureThrows(read: RowReading)
    ensures ReadEntries(["FAIL out of memory"], read) == (None, [])
  {
    var lines := ["FAIL out of memory"];
    assert lines[0][0] == 'F' && "ENTRIES "[0] == 'E';
    assert !StartsWith(lines[0], "ENTRIES ") && lines[1..] == [];
  }

  lemma {:induction false} HeaderIsWhole(n: nat)
    requires n <= MAX_ENTRIES
    ensures var line := Snprintf(32, "ENTRIES " + Dec(n));
            StartsWith(line, "ENTRIES ") && ParseInt(line[8..]) == Some(n as int)
  {
    DecWidths(n);
    var line := Snprintf(32, "ENTRIES " + Dec(n));
    assert line[8..] == Dec(n);
    ParseIntOfDec(n);
  }

  /** The id of the reply to a POST is read as net.c reads it, and a failure throws. */
  lemma {:induction false} PostReplyIsReadToo(id: cint)
    ensures ReadPost([PostReply(id)]) == (if id < 0 then None else Some(id as int), [])
  {
    var line := PostReply(id);
    if id >= 0 {
      DecWidths(id);
      assert StartsWith(line, "OK ") && line[3..] == Dec(id);
      ParseIntOfDec(id);
    } else {
      assert line[0] == 'F' && "OK "[0] == 'O';
    }
    assert [line][1..] == [];
  }
}
