/** The diary dialect on the wire: the lines net.c prints and the handler parses, and the rows the handler prints
    and the two clients parse. */
module Dialect {
  import opened Options
  import opened Decimal
  import opened CStrings

  /** What the handler understands. The time stamp of a POST is the client's when it sent a positive one. */
  datatype Command =
    | Quit
    | Post(ts: Option<clong>, data: string)
    | Get
    | Update(id: cint, data: string)
    | BadUpdate
    | Delete(id: cint)
    | Unknown

  // ---------------------------------------------------------------------------------------------
  // Command lines, as net.c prints them
  // ---------------------------------------------------------------------------------------------

  /** A timestamp of at most 0 is not sent. */
  function PostLine(data: string, timestamp: clong): string {
    (if timestamp > 0 then Snprintf(32, "POST " + Dec(timestamp) + " ") else "POST ") + data
  }

  function UpdateLine(id: cint, data: string): string {
    Snprintf(32, "UPDATE " + Dec(id) + " ") + data
  }

  function DeleteLine(id: cint): string {
    Snprintf(32, "DELETE " + Dec(id))
  }

  // ---------------------------------------------------------------------------------------------
  // Command lines, as the handler parses them
  // ---------------------------------------------------------------------------------------------

  function ParsePost(payload: string): Command {
    match IndexOf(payload, ' ', 0)
    case None => Post(None, payload)
    case Some(sp) =>
      var ts := Atol(payload);
      if ts > 0 then Post(Some(ts), payload[sp + 1..]) else Post(None, payload)
  }

  function ParseUpdate(rest: string): Command {
    match IndexOf(rest, ' ', 0)
    case None => BadUpdate
    case Some(sp) => Update(Atoi(rest[..sp]), rest[sp + 1..])
  }

  function ParseCommand(line: string): Command {
    if line == "QUIT" then Quit
    else if StartsWith(line, "POST ") then ParsePost(line[5..])
    else if line == "GET" then Get
    else if StartsWith(line, "UPDATE ") then ParseUpdate(line[7..])
    else if StartsWith(line, "DELETE ") then Delete(Atoi(line[7..]))
    else Unknown
  }

  /** The guards of the branches, in the order of the source. */
  function Guards(line: string): seq<bool> {
    [line == "QUIT", StartsWith(line, "POST "), line == "GET", StartsWith(line, "UPDATE "), StartsWith(line, "DELETE ")]
  }

  /** No line satisfies two guards, so the order of the branches does not matter. */
  lemma {:induction false} VerbsAreExclusive(line: string, i: nat, j: nat)
    requires i < 5 && j < 5 && Guards(line)[i] && Guards(line)[j]
    ensures i == j
  {
    assert line[0] == "QPGUD"[i];
    assert line[0] == "QPGUD"[j];
  }

  /** A number, a space and data are taken apart again at the first space. */
  lemma {:induction false} NumberedPayload(n: int, data: string)
    ensures var p := Dec(n) + " " + data;
            var k := |Dec(n)|;
            && IndexOf(p, ' ', 0) == Some(k) && p[..k] == Dec(n) && p[k + 1..] == data
            && (IsLong(n) ==> Atol(p) == n)
  {
    var p, k := Dec(n) + " " + data, |Dec(n)|;
    forall j | 0 <= j < k ensures p[j] != ' ' { assert p[j] in Dec(n); }
    IndexOfIs(p, ' ', 0, k);
    AtolOfDec(n, " " + data);
    assert p == Dec(n) + (" " + data);
  }

  lemma {:induction false} DispatchPost(payload: string)
    ensures ParseCommand("POST " + payload) == ParsePost(payload)
  {
    var line := "POST " + payload;
    assert line[0] == 'P' && line[5..] == payload;
  }

  lemma {:induction false} DispatchUpdate(rest: string)
    ensures ParseCommand("UPDATE " + rest) == ParseUpdate(rest)
  {
    var line := "UPDATE " + rest;
    assert line[0] == 'U' && line[7..] == rest;
  }

  lemma {:induction false} DispatchDelete(rest: string)
    ensures ParseCommand("DELETE " + rest) == Delete(Atoi(rest))
  {
    var line := "DELETE " + rest;
    assert line[0] == 'D' && line[7..] == rest;
  }

  /** Printing a POST and parsing it gives it back exactly when its time stamp was sent, or the data cannot be
      taken for a time stamp followed by data. */
  lemma {:induction false} PostLineParses(data: string, timestamp: clong)
    ensures ParseCommand(PostLine(data, timestamp)) == Post(if timestamp > 0 then Some(timestamp) else None, data)
            <==> timestamp > 0 || ' ' !in data || Atol(data) <= 0
  {
    if timestamp > 0 {
      DecWidths(timestamp);
      var payload := Dec(timestamp) + " " + data;
      assert PostLine(data, timestamp) == "POST " + payload;
      DispatchPost(payload);
      NumberedPayload(timestamp, data);
    } else {
      DispatchPost(data);
    }
  }

  lemma {:induction false} UpdateLineParses(id: cint, data: string)
    ensures ParseCommand(UpdateLine(id, data)) == Update(id, data)
  {
    DecWidths(id);
    var rest := Dec(id) + " " + data;
    assert UpdateLine(id, data) == "UPDATE " + rest;
    DispatchUpdate(rest);
    NumberedPayload(id, data);
    AtolOfDecAlone(id);
  }

  lemma {:induction false} DeleteLineParses(id: cint)
    ensures ParseCommand(DeleteLine(id)) == Delete(id)
  {
    DecWidths(id);
    DispatchDelete(Dec(id));
    AtolOfDecAlone(id);
  }

  /** None of the 32-byte command prefixes is ever truncated. */
  lemma {:induction false} PrefixesFit(timestamp: clong, id: cint)
    ensures |"POST " + Dec(timestamp) + " "| < 32
    ensures |"UPDATE " + Dec(id) + " "| < 32 && |"DELETE " + Dec(id)| < 32
  {
    DecWidths(timestamp);
    DecWidths(id);
  }

  // ---------------------------------------------------------------------------------------------
  // Rows of a GET reply
  // ---------------------------------------------------------------------------------------------

  function WholeRow(id: int, ts: int, data: string): string {
    Dec(id) + " " + Dec(ts) + " " + data
  }

  /** collect_entry: the row is printed into a buffer of exactly this size. */
  function RowLine(id: int, ts: int, data: string): string {
    Snprintf(10 + 1 + 20 + 1 + |data| + 1, WholeRow(id, ts, data))
  }

  /** The row is whole exactly when the two numbers take at most 30 characters, as they do for every row id that
      is a non-negative int and every time stamp. */
  lemma {:induction false} RowFits(id: int, ts: int, data: string)
    ensures RowLine(id, ts, data) == WholeRow(id, ts, data) <==> |Dec(id)| + |Dec(ts)| <= 30
    ensures 0 <= id <= INT_MAX && IsLong(ts) ==> RowLine(id, ts, data) == WholeRow(id, ts, data)
  {
    DecWidths(id);
    DecWidths(ts);
  }

  /** The buffer has not a byte to spare, and a negative id can lose the last byte of the data. */
  lemma {:induction false} RowBufferIsExact()
    ensures |WholeRow(INT_MAX, LONG_MIN, "")| + 1 == 10 + 1 + 20 + 1 + 0 + 1
    ensures RowLine(INT_MIN, LONG_MIN, "x") != WholeRow(INT_MIN, LONG_MIN, "x")
  {
    Powers();
    DigitsWidth(INT_MAX, 10);
    DigitsWidth(INT_MAX, 9);
    DigitsWidth(-INT_MIN, 10);
    DigitsWidth(-INT_MIN, 9);
    DigitsWidth(-LONG_MIN, 19);
    DigitsWidth(-LONG_MIN, 18);
  }

  predicate SpaceFree(s: string) { ' ' !in s }

  function SkipBlanks(s: string): (r: string)
    ensures r != "" ==> r[0] != ' '
    ensures |r| <= |s| && s[|s| - |r|..] == r && forall k | 0 <= k < |s| - |r| :: s[k] == ' '
  {
    if s != [] && s[0] == ' ' then SkipBlanks(s[1..]) else s
  }

  /** strtok_r with the delimiter " ": the next token, and where the following call resumes. */
  function Token(s: string): (Option<string>, string) {
    var t := SkipBlanks(s);
    if t == "" then (None, "") else
      match IndexOf(t, ' ', 0)
      case None => (Some(t), "")
      case Some(k) => (Some(t[..k]), t[k + 1..])
  }

  datatype Row = Row(id: int, ts: int, data: string)

  /** The row parser of net_get_entries. */
  function ParseRow(line: string): Option<Row> {
    var (sid, s1) := Token(line);
    var (sts, s2) := Token(s1);
    var (sdat, _) := Token(s2);
    if sid.None? || sts.None? || sdat.None? then None else Some(Row(Atoi(sid.value), Atol(sts.value), sdat.value))
  }

  lemma {:induction false} TokenOf(a: string, rest: string)
    requires a != "" && SpaceFree(a)
    ensures Token(a + " " + rest) == (Some(a), rest)
  {
    var s := a + " " + rest;
    assert s[0] == a[0] && a[0] in a;
    assert SkipBlanks(s) == s;
    forall k | 0 <= k < |a| ensures s[k] != ' ' { assert s[k] in a; }
    IndexOfIs(s, ' ', 0, |a|);
    assert s[..|a|] == a && s[|a| + 1..] == rest;
  }

  /** strtok_r on every string, by how it begins: spaces are skipped, a word ends at a space or with the string. */
  lemma {:induction false} TokenIs(a: string, rest: string)
    requires SpaceFree(a)
    ensures Token("") == (None, "") && Token(" " + rest) == Token(rest)
    ensures a != "" ==> Token(a) == (Some(a), "") && Token(a + " " + rest) == (Some(a), rest)
  {
    BlankIsSkipped(rest);
    if a != "" {
      TokenOf(a, rest);
      WordIsToken(a);
    }
  }

  lemma {:induction false} BlankIsSkipped(rest: string)
    ensures SkipBlanks(" " + rest) == SkipBlanks(rest)
  {
    assert (" " + rest)[1..] == rest;
  }

  lemma {:induction false} WordIsToken(a: string)
    requires a != "" && SpaceFree(a)
    ensures Token(a) == (Some(a), "")
  {
    assert a[0] in a;
    assert SkipBlanks(a) == a;
  }

  lemma {:induction false} RowOfWords(a: string, b: string, data: string)
    requires a != "" && SpaceFree(a) && b != "" && SpaceFree(b)
    ensures ParseRow(a + " " + b + " " + data)
            == match Token(data).0 case None => None case Some(word) => Some(Row(Atoi(a), Atol(b), word))
  {
    TokensOfWords(a, b, data);
    RowOfTokens(a + " " + b + " " + data, a, b + " " + data, b, data);
  }

  lemma {:induction false} TokensOfWords(a: string, b: string, data: string)
    requires a != "" && SpaceFree(a) && b != "" && SpaceFree(b)
    ensures Token(a + " " + b + " " + data) == (Some(a), b + " " + data) && Token(b + " " + data) == (Some(b), data)
  {
    TokenOf(a, b + " " + data);
    assert a + " " + b + " " + data == a + " " + (b + " " + data);
    TokenOf(b, data);
  }

  lemma {:induction false} RowOfTokens(line: string, a: string, s1: string, b: string, s2: string)
    requires Token(line) == (Some(a), s1) && Token(s1) == (Some(b), s2)
    ensures ParseRow(line) == match Token(s2).0 case None => None case Some(word) => Some(Row(Atoi(a), Atol(b), word))
  {
  }

  /** The C client reads back the id, the time stamp and the first word of the data; it rejects the row when the
      data has no word. So the data comes back exactly when it is non-empty and has no space. */
  lemma {:induction false} RowParses(id: int, ts: int, data: string)
    requires 0 <= id <= INT_MAX && IsLong(ts)
    ensures ParseRow(RowLine(id, ts, data))
            == match Token(data).0 case None => None case Some(word) => Some(Row(id, ts, word))
    ensures ParseRow(RowLine(id, ts, data)) == Some(Row(id, ts, data)) <==> data != "" && SpaceFree(data)
  {
    RowFits(id, ts, data);
    RowOfWords(Dec(id), Dec(ts), data);
    AtolOfDecAlone(id);
    AtolOfDecAlone(ts);
    WordIsWhole(data);
  }

  lemma {:induction false} WordIsWhole(data: string)
    ensures Token(data).0 == Some(data) <==> data != "" && SpaceFree(data)
  {
    var t := SkipBlanks(data);
    if data != "" && SpaceFree(data) {
      assert data[0] in data;
      assert t == data;
    }
    if t != "" && IndexOf(t, ' ', 0).None? && t == data {
      assert SpaceFree(data);
    }
  }

  /** The row parser of DiaryConnection.getEntries: rows without two spaces are skipped, and a number that
      Integer.parseInt or Long.parseLong rejects throws. */
  datatype JavaRow = Skipped | NumberFormat | Parsed(row: Row)

  function ParseRowJava(line: string): JavaRow {
    match IndexOf(line, ' ', 0)
    case None => Skipped
    case Some(s1) =>
      match IndexOf(line, ' ', s1 + 1)
      case None => Skipped
      case Some(s2) =>
        match (ParseJava(line[..s1], INT_MIN, INT_MAX), ParseJava(line[s1 + 1..s2], LONG_MIN, LONG_MAX))
        case (Some(id), Some(ts)) => Parsed(Row(id, ts, line[s2 + 1..]))
        case _ => NumberFormat
  }

  /** Two words and data are taken apart again at the first two spaces. */
  lemma {:induction false} TwoSpaces(a: string, b: string, data: string)
    requires SpaceFree(a) && SpaceFree(b)
    ensures var line := a + " " + b + " " + data;
            var s1, s2 := |a|, |a| + 1 + |b|;
            && IndexOf(line, ' ', 0) == Some(s1) && IndexOf(line, ' ', s1 + 1) == Some(s2)
            && line[..s1] == a && line[s1 + 1..s2] == b && line[s2 + 1..] == data
  {
    var line := a + " " + b + " " + data;
    var s1, s2 := |a|, |a| + 1 + |b|;
    forall k | 0 <= k < s1 ensures line[k] != ' ' { assert line[k] in a; }
    forall k | s1 < k < s2 ensures line[k] != ' ' { assert line[k] == b[k - s1 - 1]; assert line[k] in b; }
    IndexOfIs(line, ' ', 0, s1);
    IndexOfIs(line, ' ', s1 + 1, s2);
  }

  lemma {:induction false} JavaRowOfWords(a: string, b: string, data: string)
    requires SpaceFree(a) && SpaceFree(b)
    ensures ParseRowJava(a + " " + b + " " + data)
            == match (ParseJava(a, INT_MIN, INT_MAX), ParseJava(b, LONG_MIN, LONG_MAX))
               case (Some(id), Some(ts)) => Parsed(Row(id, ts, data))
               case _ => NumberFormat
  {
    TwoSpaces(a, b, data);
  }

  /** The Java client reads back every row, whatever the data. */
  lemma {:induction false} RowParsesJava(id: int, ts: int, data: string)
    requires 0 <= id <= INT_MAX && IsLong(ts)
    ensures ParseRowJava(RowLine(id, ts, data)) == Parsed(Row(id, ts, data))
  {
    RowFits(id, ts, data);
    JavaRowOfWords(Dec(id), Dec(ts), data);
    ParseJavaOfDec(id, INT_MIN, INT_MAX);
    ParseJavaOfDec(ts, LONG_MIN, LONG_MAX);
  }
}
