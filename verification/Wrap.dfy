/** The soft-wrap layout in closed form. For well-formed text on a screen of cols >= 2 columns, positions, drawn
    cells and row totals are given by division and remainder by w = cols - 1 within each logical line. */
module Wrap {
  import opened Utf8
  import opened Layout

  /** The lengths of the logical lines of the first j characters: newlines separate them, and the last number
      is how many characters of the current line come before character j. */
  function Lines(t: seq<scalar>, j: nat): (lens: seq<nat>)
    requires j <= |t|
    ensures lens != []
  {
    if j == 0 then [0] else
      var lens := Lines(t, j - 1);
      if t[j - 1] == NEWLINE then lens + [0] else Earlier(lens) + [Current(lens) + 1]
  }

  function Earlier(lens: seq<nat>): seq<nat>
    requires lens != []
  {
    lens[..|lens| - 1]
  }

  function Current(lens: seq<nat>): nat
    requires lens != []
  {
    lens[|lens| - 1]
  }

  /** The rows taken by a logical line of k characters: max(1, ceil(k / w)). */
  function Height(k: nat, w: nat): (h: nat)
    requires w >= 1
    ensures h >= 1
  {
    if k == 0 then 1 else DivStep(k, w); (k - 1) / w + 1
  }

  function Sum(lens: seq<nat>, w: nat): nat
    requires w >= 1
  {
    if lens == [] then 0 else Sum(Earlier(lens), w) + Height(Current(lens), w)
  }

  /** The cursor position after k characters of a logical line whose first row is base. */
  function CursorIn(base: nat, k: nat, w: nat): Pos
    requires w >= 1
  {
    if k == 0 then Pos(base, 0) else Pos(base + (k - 1) / w, (k - 1) % w + 1)
  }

  lemma {:induction false} MulAtLeast(d: int, w: int)
    requires d >= 1 && w >= 0
    ensures d * w >= w
  {
    assert d * w == (d - 1) * w + w;
    assert (d - 1) * w >= 0;
  }

  lemma {:induction false} QuotientUnique(w: nat, q: int, r: int, q': int, r': int)
    requires 0 <= r < w && 0 <= r' < w && q * w + r == q' * w + r'
    ensures q == q' && r == r'
  {
    if q > q' {
      assert q * w == q' * w + (q - q') * w;
      MulAtLeast(q - q', w);
    } else if q < q' {
      assert q' * w == q * w + (q' - q) * w;
      MulAtLeast(q' - q, w);
    }
  }

  lemma {:induction false} DivIs(k: nat, w: nat, q: int, r: int)
    requires 0 <= r < w && k == q * w + r
    ensures k / w == q && k % w == r
  {
    QuotientUnique(w, q, r, k / w, k % w);
  }

  /** Division by w when the dividend goes up by one. */
  lemma {:induction false} DivStep(k: nat, w: nat)
    requires k >= 1 && w >= 1
    ensures (k - 1) / w >= 0 && 0 <= (k - 1) % w < w
    ensures (k - 1) % w == w - 1 ==> k / w == (k - 1) / w + 1 && k % w == 0
    ensures (k - 1) % w != w - 1 ==> k / w == (k - 1) / w && k % w == (k - 1) % w + 1
  {
    var q, r := (k - 1) / w, (k - 1) % w;
    assert k - 1 == q * w + r;
    if r == w - 1 {
      assert (q + 1) * w == q * w + w;
      DivIs(k, w, q + 1, 0);
    } else {
      DivIs(k, w, q, r + 1);
    }
  }

  /** The closed form obeys the wrap rule within a line, and gives the drawn cell and the rows used so far. */
  lemma {:induction false} CursorStep(base: nat, k: nat, w: nat, b: byte)
    requires w >= 1 && !IsCont(b) && b != NEWLINE
    ensures Advance(CursorIn(base, k, w), b, w + 1) == CursorIn(base, k + 1, w)
    ensures CellOf(CursorIn(base, k, w), w + 1) == Pos(base + k / w, k % w)
    ensures CursorIn(base, k, w).row + 1 == base + Height(k, w)
  {
    if k == 0 {
      DivIs(0, w, 0, 0);
    } else {
      DivStep(k, w);
    }
  }

  /** Moving over one whole character is one step of the wrap rule. */
  lemma {:induction false} AdvanceChar(t: seq<scalar>, cols: int, j: nat)
    requires j < |t|
    ensures Offset(t, j) < |Encode(t)| && Offset(t, j + 1) <= |Encode(t)|
    ensures Encode(t)[Offset(t, j)] == NEWLINE <==> t[j] == NEWLINE
    ensures !IsCont(Encode(t)[Offset(t, j)])
    ensures PosAt(Encode(t), cols, Offset(t, j + 1))
            == Advance(PosAt(Encode(t), cols, Offset(t, j)), Encode(t)[Offset(t, j)], cols)
  {
    var s, o := Encode(t), Offset(t, j);
    EncodeAt(t, j);
    assert s[o] == s[o..Offset(t, j + 1)][0] == EncodeChar(t[j])[0];
    PosOverConts(s, cols, o + 1, Offset(t, j + 1));
  }

  /** The first row of the logical line that character j is on. */
  function Base(t: seq<scalar>, j: nat, w: nat): nat
    requires j <= |t| && w >= 1
  {
    Sum(Earlier(Lines(t, j)), w)
  }

  /** How many characters of that line come before character j. */
  function Column(t: seq<scalar>, j: nat): nat
    requires j <= |t|
  {
    Current(Lines(t, j))
  }

  lemma {:induction false} LinesStep(t: seq<scalar>, j: nat, w: nat)
    requires j < |t| && w >= 1
    ensures t[j] == NEWLINE ==>
              Base(t, j + 1, w) == Base(t, j, w) + Height(Column(t, j), w) && Column(t, j + 1) == 0
    ensures t[j] != NEWLINE ==> Base(t, j + 1, w) == Base(t, j, w) && Column(t, j + 1) == Column(t, j) + 1
  {
    var before, lens := Lines(t, j), Lines(t, j + 1);
    if t[j] == NEWLINE {
      assert Earlier(lens) == before;
    } else {
      assert Earlier(lens) == Earlier(before);
    }
  }

  lemma {:induction false} CursorAdvances(p: Pos, b: byte, base: nat, k: nat, base': nat, k': nat, w: nat)
    requires w >= 1 && !IsCont(b) && p == CursorIn(base, k, w)
    requires if b == NEWLINE then base' == base + Height(k, w) && k' == 0 else base' == base && k' == k + 1
    ensures Advance(p, b, w + 1) == CursorIn(base', k', w)
  {
    CursorStep(base, k, w, if b == NEWLINE then 0 else b);
  }

  lemma {:induction false} CursorClosedStep(t: seq<scalar>, cols: int, i: nat)
    requires cols >= 2 && i < |t| && Offset(t, i) <= |Encode(t)|
    requires PosAt(Encode(t), cols, Offset(t, i)) == CursorIn(Base(t, i, cols - 1), Column(t, i), cols - 1)
    ensures Offset(t, i + 1) <= |Encode(t)|
    ensures PosAt(Encode(t), cols, Offset(t, i + 1)) == CursorIn(Base(t, i + 1, cols - 1), Column(t, i + 1), cols - 1)
  {
    var w, p := cols - 1, PosAt(Encode(t), cols, Offset(t, i));
    AdvanceChar(t, cols, i);
    LinesStep(t, i, w);
    CursorAdvances(p, Encode(t)[Offset(t, i)], Base(t, i, w), Column(t, i), Base(t, i + 1, w), Column(t, i + 1), w);
  }

  /** The cursor before character j. */
  lemma {:induction false} CursorClosedForm(t: seq<scalar>, cols: int, j: nat)
    requires cols >= 2 && j <= |t|
    ensures Offset(t, j) <= |Encode(t)|
    ensures PosAt(Encode(t), cols, Offset(t, j)) == CursorIn(Base(t, j, cols - 1), Column(t, j), cols - 1)
  {
    if j == 0 {
      assert t[..0] == [];
    } else {
      CursorClosedForm(t, cols, j - 1);
      CursorClosedStep(t, cols, j - 1);
    }
  }

  /** The cell in which the draw loops put character j. */
  lemma {:induction false} CellClosedForm(t: seq<scalar>, cols: int, j: nat)
    requires cols >= 2 && j < |t|
    ensures Offset(t, j) < |Encode(t)|
    ensures CellOf(PosAt(Encode(t), cols, Offset(t, j)), cols)
            == Pos(Base(t, j, cols - 1) + Column(t, j) / (cols - 1), Column(t, j) % (cols - 1))
  {
    AdvanceChar(t, cols, j);
    CursorClosedForm(t, cols, j);
    CursorStep(Base(t, j, cols - 1), Column(t, j), cols - 1, 0);
  }

  /** total_vrows, which is one more than the row of the end of the text, is the sum of the line heights. */
  lemma {:induction false} TotalRows(t: seq<scalar>, cols: int)
    requires cols >= 2
    ensures 1 + PosAt(Encode(t), cols, |Encode(t)|).row == Sum(Lines(t, |t|), cols - 1)
  {
    CursorClosedForm(t, cols, |t|);
    assert t[..|t|] == t;
    CursorStep(Base(t, |t|, cols - 1), Column(t, |t|), cols - 1, 0);
  }

  // ---------------------------------------------------------------------------------------------
  // The draw loops of screen_view and screen_editor
  // ---------------------------------------------------------------------------------------------

  /** A character drawn from byte `at`, `len` bytes long. */
  datatype Cell = Cell(at: nat, len: nat, pos: Pos)

  /** Where a character is drawn when the cursor before it is at p. */
  function CellOf(p: Pos, cols: int): Pos {
    if p.col >= cols - 1 then Pos(p.row + 1, 0) else p
  }

  /** One cell for every character before i that is not a newline, at the place its cursor position gives. */
  function CellsBefore(s: seq<byte>, cols: int, i: nat): seq<Cell>
    requires i <= |s|
  {
    if i == 0 then [] else
      CellsBefore(s, cols, i - 1) +
      if IsCont(s[i - 1]) || s[i - 1] == NEWLINE then []
      else [Cell(i - 1, NextBoundary(s, i) - (i - 1), CellOf(PosAt(s, cols, i - 1), cols))]
  }

  /** The cells of the text area of a screen of the given rows, in screen coordinates. */
  function Visible(cells: seq<Cell>, rows: int, viewTop: int): seq<Cell> {
    if cells == [] then [] else
      var c := cells[|cells| - 1];
      var wr := c.pos.row - viewTop + 1;
      Visible(cells[..|cells| - 1], rows, viewTop) +
      if 1 <= wr < rows - 1 then [c.(pos := Pos(wr, c.pos.col))] else []
  }

  lemma {:induction false} VisibleSnoc(cells: seq<Cell>, c: Cell, rows: int, viewTop: int)
    ensures var wr := c.pos.row - viewTop + 1;
            Visible(cells + [c], rows, viewTop)
            == Visible(cells, rows, viewTop) + if 1 <= wr < rows - 1 then [c.(pos := Pos(wr, c.pos.col))] else []
  {
    assert (cells + [c])[..|cells|] == cells;
  }

  /** No continuation byte comes first or right after a newline, among the first n bytes. */
  predicate Anchored(s: seq<byte>, n: nat)
    requires n <= |s|
  {
    forall i | 0 <= i < n && IsCont(s[i]) :: i > 0 && s[i - 1] != NEWLINE
  }

  lemma {:induction false} CellsOverConts(s: seq<byte>, cols: int, i: nat, j: nat)
    requires i <= j <= |s|
    requires forall k | i <= k < j :: IsCont(s[k])
    ensures CellsBefore(s, cols, i) == CellsBefore(s, cols, j)
  {
    if i < j {
      CellsOverConts(s, cols, i, j - 1);
    }
  }

  lemma {:induction false} CellsAreBoundaries(s: seq<byte>, cols: int, i: nat, k: nat)
    requires i <= |s| && k < |CellsBefore(s, cols, i)|
    ensures var c := CellsBefore(s, cols, i)[k];
            && c.at < i && !IsCont(s[c.at]) && s[c.at] != NEWLINE
            && c.pos == CellOf(PosAt(s, cols, c.at), cols)
  {
    if k < |CellsBefore(s, cols, i - 1)| {
      CellsAreBoundaries(s, cols, i - 1, k);
    }
  }

  /** What holds in the draw loop when it is about to look at byte i. A stray cell is one at a continuation byte. */
  ghost predicate Drawing(s: seq<byte>, cols: int, i: nat, p: Pos, cells: seq<Cell>)
    requires i <= |s|
  {
    if Anchored(s, i) then
      && p == PosAt(s, cols, i) && cells == CellsBefore(s, cols, i)
      && (Boundary(s, i) || i == 0 || s[i - 1] == NEWLINE)
    else
      HasStray(s, cells)
  }

  ghost predicate HasStray(s: seq<byte>, cells: seq<Cell>) {
    exists k | 0 <= k < |cells| :: cells[k].at < |s| && IsCont(s[cells[k].at])
  }

  lemma {:induction false} DrawingNewline(s: seq<byte>, cols: int, i: nat, p: Pos, cells: seq<Cell>)
    requires i < |s| && s[i] == NEWLINE && Drawing(s, cols, i, p, cells)
    ensures Drawing(s, cols, i + 1, Pos(p.row + 1, 0), cells)
  {
  }

  /** A character that starts with a byte of its own is drawn in its place, and the text up to its end is anchored. */
  lemma {:induction false} DrawingWhole(s: seq<byte>, cols: int, i: nat, next: nat)
    requires i < next <= |s| && s[i] != NEWLINE && !IsCont(s[i]) && Anchored(s, i) && next == NextBoundary(s, i + 1)
    ensures Anchored(s, next)
    ensures CellsBefore(s, cols, next) == CellsBefore(s, cols, i) + [Cell(i, next - i, CellOf(PosAt(s, cols, i), cols))]
    ensures PosAt(s, cols, next) == Advance(PosAt(s, cols, i), s[i], cols)
  {
    PosOverConts(s, cols, i + 1, next);
    CellsOverConts(s, cols, i + 1, next);
    forall k | i <= k < next && IsCont(s[k])
      ensures k > 0 && s[k - 1] != NEWLINE
    {
      assert k > i + 1 ==> IsCont(s[k - 1]);
    }
  }

  lemma {:induction false} DrawingStray(s: seq<byte>, cells: seq<Cell>, cell: Cell)
    requires HasStray(s, cells) || (cell.at < |s| && IsCont(s[cell.at]))
    ensures HasStray(s, cells + [cell])
  {
    if HasStray(s, cells) {
      var k :| 0 <= k < |cells| && cells[k].at < |s| && IsCont(s[cells[k].at]);
      assert (cells + [cell])[k] == cells[k];
    } else {
      assert (cells + [cell])[|cells|] == cell;
    }
  }

  lemma {:induction false} DrawingChar(s: seq<byte>, cols: int, i: nat, p: Pos, cells: seq<Cell>)
    requires i < |s| && s[i] != NEWLINE && Drawing(s, cols, i, p, cells)
    ensures var next := NextBoundary(s, i + 1);
            var q := CellOf(p, cols);
            Drawing(s, cols, next, Pos(q.row, q.col + 1), cells + [Cell(i, next - i, q)])
  {
    var next := NextBoundary(s, i + 1);
    if Anchored(s, i) && !IsCont(s[i]) {
      DrawingWhole(s, cols, i, next);
    } else {
      DrawingStray(s, cells, Cell(i, next - i, CellOf(p, cols)));
    }
  }

  lemma {:induction false} StraysTell(s: seq<byte>, cols: int, i: nat)
    requires i <= |s|
    ensures !HasStray(s, CellsBefore(s, cols, i))
  {
    forall k | 0 <= k < |CellsBefore(s, cols, i)|
      ensures var c := CellsBefore(s, cols, i)[k]; c.at < i && !IsCont(s[c.at])
    {
      CellsAreBoundaries(s, cols, i, k);
    }
  }

  /** The cells that the loop draws from byte i on, with the cursor at p. */
  function Draw(s: seq<byte>, cols: int, i: nat, p: Pos): seq<Cell>
    requires i <= |s|
    decreases |s| - i
  {
    if i == |s| then []
    else if s[i] == NEWLINE then Draw(s, cols, i + 1, Pos(p.row + 1, 0))
    else
      var next, q := NextBoundary(s, i + 1), CellOf(p, cols);
      [Cell(i, next - i, q)] + Draw(s, cols, next, Pos(q.row, q.col + 1))
  }

  /** One turn of the loop. */
  lemma {:induction false} DrawOne(s: seq<byte>, cols: int, i: nat, p: Pos, cells: seq<Cell>)
    requires i < |s|
    ensures s[i] == NEWLINE ==> Draw(s, cols, i, p) == Draw(s, cols, i + 1, Pos(p.row + 1, 0))
    ensures s[i] != NEWLINE ==>
              var next, q := NextBoundary(s, i + 1), CellOf(p, cols);
              cells + Draw(s, cols, i, p) == cells + [Cell(i, next - i, q)] + Draw(s, cols, next, Pos(q.row, q.col + 1))
  {
  }

  lemma {:induction false} DrawnToTheEnd(s: seq<byte>, cols: int, i: nat, p: Pos, cells: seq<Cell>) returns (q: Pos)
    requires i <= |s| && Drawing(s, cols, i, p, cells)
    ensures Drawing(s, cols, |s|, q, cells + Draw(s, cols, i, p))
    decreases |s| - i
  {
    if i == |s| {
      q := p;
      assert cells + [] == cells;
    } else if s[i] == NEWLINE {
      DrawingNewline(s, cols, i, p, cells);
      q := DrawnToTheEnd(s, cols, i + 1, Pos(p.row + 1, 0), cells);
    } else {
      var next, r := NextBoundary(s, i + 1), CellOf(p, cols);
      var cell := Cell(i, next - i, r);
      DrawingChar(s, cols, i, p, cells);
      q := DrawnToTheEnd(s, cols, next, Pos(r.row, r.col + 1), cells + [cell]);
      assert cells + [cell] + Draw(s, cols, next, Pos(r.row, r.col + 1)) == cells + Draw(s, cols, i, p);
    }
  }

  /** Every character is drawn where get_vpos says exactly when the text is anchored. */
  lemma {:induction false} DrawAgreesIff(s: seq<byte>, cols: int)
    ensures Anchored(s, |s|) <==> Draw(s, cols, 0, Pos(0, 0)) == CellsBefore(s, cols, |s|)
  {
    var q := DrawnToTheEnd(s, cols, 0, Pos(0, 0), []);
    assert [] + Draw(s, cols, 0, Pos(0, 0)) == Draw(s, cols, 0, Pos(0, 0));
    StraysTell(s, cols, |s|);
  }

  /** The draw loop places every character where get_vpos says exactly when the text is anchored. */
  method DrawText(buf: array<byte>, bufLen: nat, rows: int, cols: int, viewTop: int)
    returns (cells: seq<Cell>, drawn: seq<Cell>)
    requires bufLen <= buf.Length
    ensures cells == Draw(buf[..bufLen], cols, 0, Pos(0, 0))
    ensures Anchored(buf[..bufLen], bufLen) <==> cells == CellsBefore(buf[..bufLen], cols, bufLen)
    ensures drawn == Visible(cells, rows, viewTop)
  {
    ghost var s := buf[..bufLen];
    cells, drawn := [], [];
    var vrow, vcol, i := 0, 0, 0;
    while i < bufLen
      invariant 0 <= i <= bufLen
      invariant drawn == Visible(cells, rows, viewTop)
      invariant Draw(s, cols, 0, Pos(0, 0)) == cells + Draw(s, cols, i, Pos(vrow, vcol))
    {
      var c := buf[i];
      var clen := CharLen(buf, bufLen, i);
      DrawOne(s, cols, i, Pos(vrow, vcol), cells);
      if c == NEWLINE {
        vrow, vcol := vrow + 1, 0;
        i := i + 1;
      } else {
        if vcol >= cols - 1 {
          vrow, vcol := vrow + 1, 0;
        }
        var cell := Cell(i, clen, Pos(vrow, vcol));
        VisibleSnoc(cells, cell, rows, viewTop);
        cells := cells + [cell];
        var wr := vrow - viewTop + 1;
        if wr >= 1 && wr < rows - 1 {
          drawn := drawn + [cell.(pos := Pos(wr, vcol))];
        }
        vcol := vcol + 1;
        i := i + clen;
      }
    }
    DrawAgreesIff(s, cols);
  }

  /** A newline byte is a whole character. */
  lemma {:induction false} NewlineIsWhole(t: seq<scalar>, i: nat)
    requires 0 < i < |Encode(t)| && Encode(t)[i - 1] == NEWLINE
    ensures !IsCont(Encode(t)[i])
  {
    var j := BoundaryIsOffset(t, i - 1);
    EncodeSplit(t, |t|);
    assert t[..|t|] == t;
    AdvanceChar(t, 2, j);
    EncodeAt(t, j);
    EncodeSplit(t, j + 1);
  }

  /** Encoded text is anchored, so the draw loops and get_vpos agree on it. */
  lemma {:induction false} EncodedIsAnchored(t: seq<scalar>)
    ensures Anchored(Encode(t), |Encode(t)|)
  {
    var s := Encode(t);
    EncodeSplit(t, 0);
    assert t[..0] == [];
    forall i | 0 < i < |s| && s[i - 1] == NEWLINE
      ensures !IsCont(s[i])
    {
      NewlineIsWhole(t, i);
    }
  }

  /** Nothing is drawn before the place where the loop stands. */
  lemma {:induction false} DrawGoesForward(s: seq<byte>, cols: int, i: nat, p: Pos)
    requires i <= |s|
    ensures forall c | c in Draw(s, cols, i, p) :: c.pos == p || p.Before(c.pos)
    decreases |s| - i
  {
    if i < |s| {
      if s[i] == NEWLINE {
        DrawGoesForward(s, cols, i + 1, Pos(p.row + 1, 0));
      } else {
        var q := CellOf(p, cols);
        DrawGoesForward(s, cols, NextBoundary(s, i + 1), Pos(q.row, q.col + 1));
      }
    }
  }

  ghost predicate InOrder(cells: seq<Cell>) {
    forall i, j | 0 <= i < j < |cells| :: cells[i].pos.Before(cells[j].pos)
  }

  /** No two characters are drawn in the same cell, and they are drawn in the order of the text, on any bytes and any
      screen. */
  lemma {:induction false} CellsAreDistinct(s: seq<byte>, cols: int, i: nat, p: Pos)
    requires i <= |s|
    ensures InOrder(Draw(s, cols, i, p))
    decreases |s| - i
  {
    if i < |s| {
      if s[i] == NEWLINE {
        CellsAreDistinct(s, cols, i + 1, Pos(p.row + 1, 0));
      } else {
        var next, q := NextBoundary(s, i + 1), CellOf(p, cols);
        var rest := Draw(s, cols, next, Pos(q.row, q.col + 1));
        DrawGoesForward(s, cols, next, Pos(q.row, q.col + 1));
        CellsAreDistinct(s, cols, next, Pos(q.row, q.col + 1));
        assert forall b | 0 <= b < |rest| :: rest[b] in rest && q.Before(rest[b].pos);
      }
    }
  }

  /** No cell is in the last column or to the right of it, on any bytes. */
  lemma {:induction false} DrawInColumns(s: seq<byte>, cols: int, i: nat, p: Pos)
    requires cols >= 2 && i <= |s| && p.col >= 0
    ensures forall c | c in Draw(s, cols, i, p) :: 0 <= c.pos.col < cols - 1
    decreases |s| - i
  {
    if i < |s| {
      if s[i] == NEWLINE {
        DrawInColumns(s, cols, i + 1, Pos(p.row + 1, 0));
      } else {
        var q := CellOf(p, cols);
        DrawInColumns(s, cols, NextBoundary(s, i + 1), Pos(q.row, q.col + 1));
      }
    }
  }

  lemma {:induction false} VisibleRows(cells: seq<Cell>, rows: int, cols: int, viewTop: int)
    requires forall c | c in cells :: 0 <= c.pos.col < cols - 1
    ensures forall c | c in Visible(cells, rows, viewTop) :: 1 <= c.pos.row <= rows - 2 && 0 <= c.pos.col < cols - 1
  {
    if cells != [] {
      var c := cells[|cells| - 1];
      assert c in cells;
      VisibleRows(cells[..|cells| - 1], rows, cols, viewTop);
    }
  }

  /** A cell is shown exactly when its row is in the view, one row below the place it has there. */
  lemma {:induction false} ShownIff(cells: seq<Cell>, rows: int, viewTop: int, c: Cell)
    ensures c in Visible(cells, rows, viewTop)
            <==> 1 <= c.pos.row <= rows - 2 && c.(pos := Pos(c.pos.row + viewTop - 1, c.pos.col)) in cells
  {
    if cells != [] {
      var n := |cells| - 1;
      var last := cells[n];
      ShownIff(cells[..n], rows, viewTop, c);
      assert cells == cells[..n] + [last];
      var moved := c.(pos := Pos(c.pos.row + viewTop - 1, c.pos.col));
      assert last == moved <==> c == last.(pos := Pos(last.pos.row - viewTop + 1, last.pos.col));
    }
  }

  /** What is drawn stays in the text area, on any bytes: below the header, above the status line and within w
      columns. */
  lemma {:induction false} DrawnInTextArea(s: seq<byte>, rows: int, cols: int, viewTop: int)
    requires cols >= 2
    ensures forall c | c in Visible(Draw(s, cols, 0, Pos(0, 0)), rows, viewTop) ::
              1 <= c.pos.row <= rows - 2 && 0 <= c.pos.col < cols - 1
  {
    DrawInColumns(s, cols, 0, Pos(0, 0));
    VisibleRows(Draw(s, cols, 0, Pos(0, 0)), rows, cols, viewTop);
  }
}
