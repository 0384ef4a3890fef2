/** The soft-wrap layout of client/ui.c: the cursor position of a byte index, its inverse and the row count. The rule
    is written once here, as Advance, and the loops of the source are proved against it. */
module Layout {
  import opened Utf8

  datatype Pos = Pos(row: int, col: int) {
    /** Reading order. */
    predicate Before(q: Pos) {
      row < q.row || (row == q.row && col < q.col)
    }
  }

  /** Moving over one byte: a newline opens a row at column 0; a character that does not fit opens a row and
      leaves the cursor after it, in column 1. */
  function Advance(p: Pos, b: byte, cols: int): Pos {
    if IsCont(b) then p
    else if b == NEWLINE then Pos(p.row + 1, 0)
    else if p.col >= cols - 1 then Pos(p.row + 1, 1)
    else Pos(p.row, p.col + 1)
  }

  /** The cursor position of byte index i. */
  function PosAt(s: seq<byte>, cols: int, i: nat): Pos
    requires i <= |s|
  {
    if i == 0 then Pos(0, 0) else Advance(PosAt(s, cols, i - 1), s[i - 1], cols)
  }

  /** The character at i starts a new row. */
  predicate RowEnds(s: seq<byte>, cols: int, i: nat)
    requires i < |s|
  {
    s[i] == NEWLINE || PosAt(s, cols, i).col >= cols - 1
  }

  // ---------------------------------------------------------------------------------------------
  // Order of positions
  // ---------------------------------------------------------------------------------------------

  lemma {:induction false} PosBounds(s: seq<byte>, cols: int, i: nat)
    requires i <= |s|
    ensures PosAt(s, cols, i).row >= 0 && 0 <= PosAt(s, cols, i).col
    ensures cols >= 2 ==> PosAt(s, cols, i).col <= cols - 1
  {
    if i > 0 {
      PosBounds(s, cols, i - 1);
    }
  }

  /** Continuation bytes do not move the cursor. */
  lemma {:induction false} PosOverConts(s: seq<byte>, cols: int, i: nat, j: nat)
    requires i <= j <= |s|
    requires forall k | i <= k < j :: IsCont(s[k])
    ensures PosAt(s, cols, i) == PosAt(s, cols, j)
  {
    if i < j {
      PosOverConts(s, cols, i, j - 1);
    }
  }

  lemma {:induction false} PosNeverGoesBack(s: seq<byte>, cols: int, i: nat, j: nat)
    requires i <= j <= |s|
    ensures PosAt(s, cols, i) == PosAt(s, cols, j) || PosAt(s, cols, i).Before(PosAt(s, cols, j))
  {
    if i < j {
      PosNeverGoesBack(s, cols, i, j - 1);
    }
  }

  /** Different boundaries have different positions, in text order. */
  lemma {:induction false} PosStrict(s: seq<byte>, cols: int, i: nat, j: nat)
    requires i < j && Boundary(s, i) && Boundary(s, j)
    ensures PosAt(s, cols, i).Before(PosAt(s, cols, j))
  {
    PosNeverGoesBack(s, cols, i + 1, j);
  }

  /** After a row ends, later positions are on later rows. */
  lemma {:induction false} AfterRowEnds(s: seq<byte>, cols: int, i: nat, j: nat)
    requires i < j <= |s| && !IsCont(s[i]) && RowEnds(s, cols, i)
    ensures PosAt(s, cols, j).row > PosAt(s, cols, i).row
  {
    PosNeverGoesBack(s, cols, i + 1, j);
  }

  /** Rows are not skipped: every row up to that of j has a boundary on it. */
  lemma {:induction false} RowExists(s: seq<byte>, cols: int, j: nat, row: nat) returns (i: nat)
    requires j <= |s| && row <= PosAt(s, cols, j).row
    ensures Boundary(s, i) && PosAt(s, cols, i).row == row
  {
    if PosAt(s, cols, j).row == row {
      i := NextBoundary(s, j);
      PosOverConts(s, cols, j, i);
    } else {
      i := RowExists(s, cols, j - 1, row);
    }
  }

  /** A row that is not the last one ends somewhere at or after each of its boundaries. */
  lemma {:induction false} RowHasEnd(s: seq<byte>, cols: int, i: nat) returns (k: nat)
    requires Boundary(s, i) && PosAt(s, cols, i).row < PosAt(s, cols, |s|).row
    ensures i <= k < |s| && Boundary(s, k) && RowEnds(s, cols, k) && PosAt(s, cols, k).row == PosAt(s, cols, i).row
    decreases |s| - i
  {
    if RowEnds(s, cols, i) {
      k := i;
    } else {
      var n := NextBoundary(s, i + 1);
      PosOverConts(s, cols, i + 1, n);
      k := RowHasEnd(s, cols, n);
    }
  }

  // ---------------------------------------------------------------------------------------------
  // get_vpos
  // ---------------------------------------------------------------------------------------------

  method GetVpos(buf: array<byte>, bufLen: nat, cursor: nat, cols: int) returns (vr: int, vc: int)
    requires bufLen <= buf.Length
    ensures Pos(vr, vc) == PosAt(buf[..bufLen], cols, if cursor < bufLen then cursor else bufLen)
  {
    var r, c, i := 0, 0, 0;
    while i < cursor && i < bufLen
      invariant 0 <= i <= bufLen && i <= cursor
      invariant Pos(r, c) == PosAt(buf[..bufLen], cols, i)
    {
      if !IsCont(buf[i]) {
        if buf[i] == NEWLINE {
          r, c := r + 1, 0;
        } else {
          if c >= cols - 1 {
            r, c := r + 1, 0;
          }
          c := c + 1;
        }
      }
      i := i + 1;
    }
    vr, vc := r, c;
  }

  /** total_vrows of screen_view. */
  method RowCount(buf: array<byte>, bufLen: nat, cols: int) returns (total: int)
    requires bufLen <= buf.Length
    ensures total == 1 + PosAt(buf[..bufLen], cols, bufLen).row
  {
    total := 1;
    var vcol, i := 0, 0;
    while i < bufLen
      invariant 0 <= i <= bufLen
      invariant Pos(total - 1, vcol) == PosAt(buf[..bufLen], cols, i)
    {
      if !IsCont(buf[i]) {
        if buf[i] == NEWLINE {
          total, vcol := total + 1, 0;
        } else {
          if vcol >= cols - 1 {
            total, vcol := total + 1, 0;
          }
          vcol := vcol + 1;
        }
      }
      i := i + 1;
    }
  }

  // ---------------------------------------------------------------------------------------------
  // vpos_to_idx
  // ---------------------------------------------------------------------------------------------

  /** No boundary is exactly at t. */
  ghost predicate NoneAt(s: seq<byte>, cols: int, t: Pos) {
    forall j | Boundary(s, j) :: PosAt(s, cols, j) != t
  }

  ghost predicate NoneOnRow(s: seq<byte>, cols: int, row: int) {
    forall j | Boundary(s, j) :: PosAt(s, cols, j).row != row
  }

  ghost predicate LastOnRow(s: seq<byte>, cols: int, row: int, i: int) {
    && Boundary(s, i) && PosAt(s, cols, i).row == row
    && forall j | Boundary(s, j) && PosAt(s, cols, j).row == row :: j <= i
  }

  ghost predicate FirstOnRow(s: seq<byte>, cols: int, row: int, i: int) {
    && Boundary(s, i) && PosAt(s, cols, i).row == row
    && forall j | Boundary(s, j) && PosAt(s, cols, j).row == row :: i <= j
  }

  /** What a visual target means, without reference to any loop: the index exactly there if there is one, else
      the last index of that row, else the end of the text when there is no such row. */
  ghost predicate IsTarget(s: seq<byte>, cols: int, t: Pos, i: int) {
    Boundary(s, i) &&
    (|| PosAt(s, cols, i) == t
     || (NoneAt(s, cols, t) && LastOnRow(s, cols, t.row, i))
     || (NoneOnRow(s, cols, t.row) && i == |s|))
  }

  lemma {:induction false} TargetUnique(s: seq<byte>, cols: int, t: Pos, i: int, j: int)
    requires IsTarget(s, cols, t, i) && IsTarget(s, cols, t, j)
    ensures i == j
  {
    if i < j { PosStrict(s, cols, i, j); }
    if j < i { PosStrict(s, cols, j, i); }
  }

  /** The conditions under which the loop of vpos_to_idx returns i. */
  predicate Stops(s: seq<byte>, cols: int, t: Pos, i: nat) {
    Boundary(s, i) &&
    (|| PosAt(s, cols, i) == t
     || i == |s|
     || (RowEnds(s, cols, i) && PosAt(s, cols, i).row == t.row))
  }

  /** The first index at which the loop stops is the one the target means. */
  lemma {:induction false} FirstStopIsTarget(s: seq<byte>, cols: int, t: Pos, i: nat)
    requires Stops(s, cols, t, i) && forall j | 0 <= j < i :: !Stops(s, cols, t, j)
    ensures IsTarget(s, cols, t, i)
  {
    if PosAt(s, cols, i) != t {
      forall j | Boundary(s, j) && j > i
        ensures PosAt(s, cols, j).row > t.row
      {
        AfterRowEnds(s, cols, i, j);
      }
      forall j | Boundary(s, j)
        ensures PosAt(s, cols, j) != t
      {
        assert j < i ==> !Stops(s, cols, t, j);
      }
      if PosAt(s, cols, i).row != t.row {
        forall j | Boundary(s, j)
          ensures PosAt(s, cols, j).row != t.row
        {
          if PosAt(s, cols, j).row == t.row {
            PosNeverGoesBack(s, cols, j, |s|);
            var k := RowHasEnd(s, cols, j);
            assert Stops(s, cols, t, k);
          }
        }
      }
    }
  }

  method VposToIdx(buf: array<byte>, bufLen: nat, cols: int, tvr: int, tvc: int) returns (idx: nat)
    requires bufLen <= buf.Length
    ensures IsTarget(buf[..bufLen], cols, Pos(tvr, tvc), idx)
  {
    ghost var s, t := buf[..bufLen], Pos(tvr, tvc);
    var r, c, i := 0, 0, 0;
    while i <= bufLen
      invariant 0 <= i <= bufLen
      invariant Pos(r, c) == PosAt(s, cols, i)
      invariant forall j | 0 <= j < i :: !Stops(s, cols, t, j)
      decreases bufLen + 1 - i
    {
      if !(i < bufLen && IsCont(buf[i])) {
        if r == tvr && c == tvc {
          FirstStopIsTarget(s, cols, t, i);
          return i;
        }
        if i == bufLen {
          FirstStopIsTarget(s, cols, t, i);
          return i;
        }
        var ch := buf[i];
        if ch == NEWLINE || c >= cols - 1 {
          if r == tvr {
            FirstStopIsTarget(s, cols, t, i);
            return i;
          }
          r, c := r + 1, 0;
        }
        if ch != NEWLINE {
          c := c + 1;
        }
      }
      i := i + 1;
    }
    return bufLen;
  }

  lemma {:induction false} TargetExists(s: seq<byte>, cols: int, t: Pos)
    ensures exists i: nat :: IsTarget(s, cols, t, i)
  {
    var i := 0;
    while !Stops(s, cols, t, i)
      invariant i <= |s| && forall j | 0 <= j < i :: !Stops(s, cols, t, j)
      decreases |s| - i
    {
      i := i + 1;
    }
    FirstStopIsTarget(s, cols, t, i);
  }

  /** The index that a visual target denotes. */
  ghost function Target(s: seq<byte>, cols: int, t: Pos): (i: nat)
    ensures IsTarget(s, cols, t, i)
  {
    TargetExists(s, cols, t);
    var i: nat :| IsTarget(s, cols, t, i);
    i
  }

  // ---------------------------------------------------------------------------------------------
  // What the two maps do to each other, and what the vertical keys do
  // ---------------------------------------------------------------------------------------------

  /** vpos_to_idx undoes get_vpos, rounding up to the next character boundary. */
  lemma {:induction false} RoundTrip(s: seq<byte>, cols: int, cursor: nat)
    requires cursor <= |s|
    ensures Target(s, cols, PosAt(s, cols, cursor)) == NextBoundary(s, cursor)
  {
    var n := NextBoundary(s, cursor);
    PosOverConts(s, cols, cursor, n);
    TargetUnique(s, cols, PosAt(s, cols, cursor), n, Target(s, cols, PosAt(s, cols, cursor)));
  }

  /** A target on a row that exists lands on that row. */
  lemma {:induction false} TargetKeepsRow(s: seq<byte>, cols: int, t: Pos)
    requires 0 <= t.row <= PosAt(s, cols, |s|).row
    ensures PosAt(s, cols, Target(s, cols, t)).row == t.row
  {
    var i := RowExists(s, cols, |s|, t.row);
  }

  /** UP goes up exactly one row. */
  lemma {:induction false} UpMovesOneRow(s: seq<byte>, cols: int, cursor: nat)
    requires cursor <= |s| && PosAt(s, cols, cursor).row > 0
    ensures var p := PosAt(s, cols, cursor);
            PosAt(s, cols, Target(s, cols, Pos(p.row - 1, p.col))).row == p.row - 1
  {
    var p := PosAt(s, cols, cursor);
    PosNeverGoesBack(s, cols, cursor, |s|);
    TargetKeepsRow(s, cols, Pos(p.row - 1, p.col));
  }

  /** DOWN goes down exactly one row, or to the end of the text from the last row. */
  lemma {:induction false} DownMovesOneRow(s: seq<byte>, cols: int, cursor: nat)
    requires cursor <= |s|
    ensures var p := PosAt(s, cols, cursor);
            var i := Target(s, cols, Pos(p.row + 1, p.col));
            if p.row < PosAt(s, cols, |s|).row then PosAt(s, cols, i).row == p.row + 1 else i == |s|
  {
    var p := PosAt(s, cols, cursor);
    PosBounds(s, cols, cursor);
    if p.row < PosAt(s, cols, |s|).row {
      TargetKeepsRow(s, cols, Pos(p.row + 1, p.col));
    } else {
      forall j | Boundary(s, j)
        ensures PosAt(s, cols, j).row != p.row + 1
      {
        PosNeverGoesBack(s, cols, j, |s|);
      }
    }
  }

  /** END lands on the last index of the row, so a second END does nothing. */
  lemma {:induction false} EndIsIdempotent(s: seq<byte>, cols: int, cursor: nat)
    requires cursor <= |s|
    ensures var row := PosAt(s, cols, cursor).row;
            var i := Target(s, cols, Pos(row, cols));
            && PosAt(s, cols, i).row == row
            && Target(s, cols, Pos(PosAt(s, cols, i).row, cols)) == i
            && (cols >= 2 ==> LastOnRow(s, cols, row, i))
  {
    var row := PosAt(s, cols, cursor).row;
    PosBounds(s, cols, cursor);
    PosNeverGoesBack(s, cols, cursor, |s|);
    TargetKeepsRow(s, cols, Pos(row, cols));
    PosBounds(s, cols, Target(s, cols, Pos(row, cols)));
  }

  /** A row that was opened by the start of the text or by a newline. */
  ghost predicate HardRow(s: seq<byte>, cols: int, row: int) {
    row == 0 || exists k | 0 <= k < |s| :: s[k] == NEWLINE && PosAt(s, cols, k).row == row - 1
  }

  ghost predicate SingleIndexRow(s: seq<byte>, cols: int, row: int) {
    exists i :: FirstOnRow(s, cols, row, i) && LastOnRow(s, cols, row, i)
  }

  /** Only hard rows have a column 0. */
  lemma {:induction false} ColumnZero(s: seq<byte>, cols: int, i: nat)
    requires i <= |s|
    ensures PosAt(s, cols, i).col >= 0
    ensures PosAt(s, cols, i).col == 0 ==> HardRow(s, cols, PosAt(s, cols, i).row)
  {
    if i > 0 {
      ColumnZero(s, cols, i - 1);
      if s[i - 1] == NEWLINE {
        assert !IsCont(NEWLINE);
      }
    }
  }

  /** HOME goes to the start of the cursor's row exactly when that row does not begin at a soft wrap, or has one
      index only; on any other row it goes to the row's last index. */
  lemma {:induction false} HomeReachesRowStart(s: seq<byte>, cols: int, cursor: nat)
    requires cursor <= |s|
    ensures var row := PosAt(s, cols, cursor).row;
            var i := Target(s, cols, Pos(row, 0));
            && (FirstOnRow(s, cols, row, i) <==> HardRow(s, cols, row) || SingleIndexRow(s, cols, row))
            && (!HardRow(s, cols, row) ==> LastOnRow(s, cols, row, i))
  {
    var row := PosAt(s, cols, cursor).row;
    var i := Target(s, cols, Pos(row, 0));
    PosBounds(s, cols, cursor);
    PosNeverGoesBack(s, cols, cursor, |s|);
    TargetKeepsRow(s, cols, Pos(row, 0));
    if HardRow(s, cols, row) {
      var f := 0;
      if row != 0 {
        var k :| 0 <= k < |s| && s[k] == NEWLINE && PosAt(s, cols, k).row == row - 1;
        f := NextBoundary(s, k + 1);
        PosOverConts(s, cols, k + 1, f);
        assert PosAt(s, cols, k + 1) == Pos(row, 0);
      } else {
        f := NextBoundary(s, 0);
        PosOverConts(s, cols, 0, f);
      }
      assert PosAt(s, cols, f) == Pos(row, 0);
      TargetUnique(s, cols, Pos(row, 0), f, i);
      forall j | Boundary(s, j) && PosAt(s, cols, j).row == row
        ensures i <= j
      {
        if j < i {
          PosStrict(s, cols, j, i);
          PosBounds(s, cols, j);
        }
      }
    } else {
      ColumnZero(s, cols, i);
      assert LastOnRow(s, cols, row, i);
      if SingleIndexRow(s, cols, row) {
        var k :| FirstOnRow(s, cols, row, k) && LastOnRow(s, cols, row, k);
      }
    }
  }

  /** A soft-wrapped row on which HOME moves the cursor to the right: "abcd" on a screen of three columns. */
  lemma {:induction false} HomeCanMoveRight()
    ensures var s: seq<byte> := [97, 98, 99, 100];
            && PosAt(s, 3, 3) == Pos(1, 1)
            && Target(s, 3, Pos(1, 0)) == 4
  {
    var s: seq<byte> := [97, 98, 99, 100];
    assert PosAt(s, 3, 1) == Pos(0, 1);
    assert PosAt(s, 3, 2) == Pos(0, 2);
    assert PosAt(s, 3, 3) == Pos(1, 1);
    assert PosAt(s, 3, 4) == Pos(1, 2);
    assert LastOnRow(s, 3, 1, 4);
    TargetUnique(s, 3, Pos(1, 0), 4, Target(s, 3, Pos(1, 0)));
  }
}
