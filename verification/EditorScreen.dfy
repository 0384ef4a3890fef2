/** The editor screen as the source runs it: a growable byte buffer edited in place, proved against EditorModel. */
module EditorScreen {
  import opened Utf8
  import opened Layout
  import opened Wrap
  import opened EditorModel
  import opened Options
  import opened Decimal

  const INITIAL_SIZE := 4096
  const SCROLL_LINES := 3

  function Max(a: int, b: int): int { if a >= b then a else b }

  /** The greatest length of the text over a run, and at least p. */
  ghost function PeakOver(e: Editor, cols: int, inputs: seq<Input>, p: nat): nat
    requires e.Valid()
    decreases |inputs|
  {
    if inputs == [] then p else
      StepValid(e, cols, inputs[0]);
      var next := Step(e, cols, inputs[0]);
      PeakOver(next, cols, inputs[1..], Max(p, |next.text|))
  }

  lemma {:induction false} PeakStays(e: Editor, cols: int, inputs: seq<Input>, p: nat)
    requires e.Valid() && |e.text| <= p && (inputs == [] || !e.open)
    ensures PeakOver(e, cols, inputs, p) == p
    decreases |inputs|
  {
    if inputs != [] {
      PeakStays(e, cols, inputs[1..], p);
    }
  }

  /** The top row of the view after scrolling so that the cursor's row is in it. */
  function Scrolled(row: int, rows: int, top: int): int {
    var up := if row < top then row else top;
    var down := if row >= up + rows - 2 then row - (rows - 2) + 1 else up;
    Max(down, 0)
  }

  /** What a key does to the view itself. */
  function Wheeled(top: int, key: Key): int {
    if !key.Wheel? then top else if key.down then top + SCROLL_LINES else Max(0, top - SCROLL_LINES)
  }

  /** The top row of the view over a run: every turn first scrolls to the cursor. */
  ghost function ViewOver(e: Editor, rows: int, cols: int, inputs: seq<Input>, top: int): int
    requires e.Valid()
    decreases |inputs|
  {
    if inputs == [] || !e.open then top else
      StepValid(e, cols, inputs[0]);
      ViewOver(Step(e, cols, inputs[0]), rows, cols, inputs[1..],
               Wheeled(Scrolled(PosAt(e.text, cols, e.cursor).row, rows, top), inputs[0].key))
  }

  class Screen {
    var buf: array<byte>
    var bufSz: nat
    var bufLen: nat
    var cursor: nat
    var viewTop: int
    var dirty: int
    var entryId: cint
    var running: bool
    var files: map<string, seq<byte>>
    ghost var acks: seq<Ack>
    ghost var attempt: Attempt
    ghost var peak: nat   // the longest the text has been

    /** The buffer always has room for the terminating NUL, holds no other, and is never more than about twice
        what the longest text needed. */
    ghost predicate Valid()
      reads this, buf
    {
      && bufSz == buf.Length && bufLen < bufSz
      && bufLen <= peak && bufSz <= Max(4096, 2 * (peak + 1))
      && cursor <= bufLen
      && -1 <= dirty <= 1
      && NoNul(buf[..bufLen])
    }

    ghost function State(): (e: Editor)
      requires Valid()
      reads this, buf
      ensures e.Valid()
    {
      Editor(buf[..bufLen], cursor, dirty, entryId, running, files, acks, attempt)
    }

    constructor (entryId: cint, initial: Option<seq<byte>>, files: map<string, seq<byte>>)
      requires initial.Some? ==> NoNul(initial.value)
      ensures Valid() && fresh(buf) && bufSz >= 4096
      ensures State() == Opened(entryId, if initial.Some? then initial.value else [], files)
      ensures buf[..bufLen] == (if initial.Some? then initial.value else []) && cursor == bufLen == peak
      ensures viewTop == 0 && dirty == 0 && running && this.entryId == entryId && this.files == files && acks == []
    {
      var sz, len := INITIAL_SIZE, 0;
      if initial.Some? {
        len := |initial.value|;
        while len + 1 >= sz
          invariant sz >= INITIAL_SIZE && sz <= Max(INITIAL_SIZE, 2 * (len + 1))
          decreases len + 2 - sz
        {
          sz := sz * 2;
        }
      }
      var b := new byte[sz];
      if initial.Some? {
        forall i | 0 <= i < len { b[i] := initial.value[i]; }
        assert b[..len] == initial.value;
      }
      this.buf, bufSz, bufLen, cursor := b, sz, len, len;
      viewTop, dirty, running := 0, 0, true;
      this.entryId, this.files := entryId, files;
      acks, attempt, peak := [], NoAttempt, len;
    }

    // -------------------------------------------------------------------------------------------
    // The text: growing, opening a gap, closing a gap
    // -------------------------------------------------------------------------------------------

    /** realloc to twice the size when the text would fill the buffer. */
    method Grow()
      requires Valid()
      modifies this`buf, this`bufSz, this`peak
      ensures bufSz == buf.Length && bufLen + 1 < bufSz && bufSz <= Max(4096, 2 * (peak + 1))
      ensures buf[..bufLen] == old(buf[..bufLen]) && (buf == old(buf) || fresh(buf))
      ensures peak == Max(old(peak), bufLen + 1)
    {
      if bufLen + 1 >= bufSz {
        var nb := new byte[bufSz * 2];
        forall i | 0 <= i < bufLen { nb[i] := buf[i]; }
        assert nb[..bufLen] == buf[..bufLen];
        buf, bufSz := nb, bufSz * 2;
      }
      peak := Max(peak, bufLen + 1);
    }

    /** memmove by one at the cursor, and the byte stored in the gap. */
    method OpenGap(b: byte)
      requires bufLen + 1 < buf.Length && cursor <= bufLen
      modifies buf
      ensures buf[..bufLen + 1] == old(buf[..cursor]) + [b] + old(buf[cursor..bufLen])
    {
      forall i | cursor <= i < bufLen { buf[i + 1] := buf[i]; }
      buf[cursor] := b;
    }

    method InsertByte(b: byte)
      requires Valid() && b != 0
      modifies this`buf, this`bufSz, this`bufLen, this`cursor, this`dirty, this`peak, buf
      ensures Valid() && State() == Insert(old(State()), b)
      ensures buf == old(buf) || fresh(buf)
      ensures peak == Max(old(peak), bufLen)
    {
      ghost var s, e := buf[..bufLen], Insert(State(), b);
      Grow();
      assert buf[..cursor] == s[..cursor] && buf[cursor..bufLen] == s[cursor..];
      OpenGap(b);
      assert buf[..bufLen + 1] == e.text;
      bufLen, cursor, dirty := bufLen + 1, cursor + 1, 1;
    }

    /** memmove of the text after `to` down to `from`. */
    method CloseGap(from: nat, to: nat)
      requires bufLen <= buf.Length && from <= to <= bufLen
      modifies this`bufLen, buf
      ensures bufLen == old(bufLen) - (to - from)
      ensures buf[..bufLen] == old(buf[..bufLen][..from] + buf[..bufLen][to..])
    {
      ghost var s := buf[..bufLen];
      var d := to - from;
      forall j | from <= j < bufLen - d { buf[j] := buf[j + d]; }
      bufLen := bufLen - d;
      assert buf[..from] == s[..from] && buf[from..bufLen] == s[to..];
    }

    method StepBack() returns (start: nat)
      requires Valid() && cursor > 0
      ensures start == PrevBoundary(buf[..bufLen], cursor)
    {
      start := cursor - 1;
      while start > 0 && IsCont(buf[start])
        invariant start < cursor
        invariant PrevBoundary(buf[..bufLen], cursor) == PrevBoundary(buf[..bufLen], start + 1)
      {
        start := start - 1;
      }
    }

    method BackspaceKey()
      requires Valid()
      modifies this`bufLen, this`cursor, this`dirty, buf
      ensures Valid() && State() == Backspace(old(State()))
    {
      if cursor > 0 {
        ghost var e := Backspace(State());
        var start := StepBack();
        CloseGap(start, cursor);
        assert buf[..bufLen] == e.text;
        cursor, dirty := start, 1;
      }
    }

    method DeleteKey()
      requires Valid()
      modifies this`bufLen, this`dirty, buf
      ensures Valid() && State() == Delete(old(State()))
    {
      if cursor < bufLen {
        ghost var e := Delete(State());
        var clen := CharLen(buf, bufLen, cursor);
        CloseGap(cursor, cursor + clen);
        assert buf[..bufLen] == e.text;
        dirty := 1;
      }
    }

    method LeftKey()
      requires Valid()
      modifies this`cursor
      ensures Valid() && State() == Left(old(State()))
    {
      if cursor > 0 {
        cursor := StepBack();
      }
    }

    method RightKey()
      requires Valid()
      modifies this`cursor
      ensures Valid() && State() == Right(old(State()))
    {
      if cursor < bufLen {
        var clen := CharLen(buf, bufLen, cursor);
        cursor := cursor + clen;
      }
    }

    method VerticalKey(cols: int, v: Vertical)
      requires Valid()
      modifies this`cursor
      ensures Valid() && State() == Vertically(old(State()), cols, v)
    {
      var vr, vc := GetVpos(buf, bufLen, cursor, cols);
      if !(v.GoUp? && vr <= 0) {
        ghost var s := buf[..bufLen];
        var aim := Aim(v, Pos(vr, vc), cols);
        var i := VposToIdx(buf, bufLen, cols, aim.row, aim.col);
        TargetUnique(s, cols, aim, i, Target(s, cols, aim));
        cursor := i;
      }
    }

    // -------------------------------------------------------------------------------------------
    // Saving
    // -------------------------------------------------------------------------------------------

    /** strlen(buf), which the network calls use, is the length of the text once the NUL is in place. */
    method Terminate() returns (sent: seq<byte>)
      requires Valid()
      modifies buf
      ensures Valid() && buf[..bufLen] == old(buf[..bufLen])
      ensures sent == buf[..bufLen]
    {
      ghost var s := buf[..bufLen];
      buf[bufLen] := 0;
      assert buf[..bufLen] == s;
      var n := 0;
      while buf[n] != 0
        invariant 0 <= n <= bufLen
        decreases bufLen - n
      {
        assert buf[n] == s[n] || n == bufLen;
        n := n + 1;
      }
      sent := buf[..n];
    }

    method SaveCommand(reply: Reply)
      requires Valid()
      modifies this`files, this`entryId, this`dirty, this`acks, this`attempt, buf
      ensures Valid() && State() == SaveKey(old(State()), reply)
    {
      if dirty == 0 && entryId > 0 {
        return;
      }
      var sent := Terminate();
      var path := BackupPath(entryId);
      files := files[path := buf[..bufLen]];
      var newId := NetResult(entryId, reply);
      attempt := Attempt(path, sent, newId > 0);
      if newId > 0 {
        files := files - {path};
        acks := acks + [if entryId > 0 then Updated(entryId, sent) else Posted(newId, sent)];
        if entryId <= 0 {
          entryId := newId;
        }
        dirty := 0;
      }
    }

    // -------------------------------------------------------------------------------------------
    // One turn of the loop
    // -------------------------------------------------------------------------------------------

    /** Scrolls so that the cursor is visible and says what is drawn and where the cursor goes. */
    method Refresh(rows: int, cols: int) returns (drawn: seq<Cell>, at: Pos)
      requires Valid()
      modifies this`viewTop
      ensures Valid() && State() == old(State()) && viewTop >= 0
      ensures var p := PosAt(State().text, cols, cursor);
              && at == Pos(p.row - viewTop + 1, p.col)
              && (rows >= 3 ==> 1 <= at.row <= rows - 2)
              && 0 <= at.col && (cols >= 2 ==> at.col <= cols - 1)
              && (0 <= old(viewTop) <= p.row < old(viewTop) + rows - 2 ==> viewTop == old(viewTop))
              && viewTop == Scrolled(p.row, rows, old(viewTop))
              && (rows >= 3 && old(viewTop) >= 0 ==>
                    && (p.row < old(viewTop) ==> viewTop == p.row)
                    && (p.row >= old(viewTop) + rows - 2 ==> viewTop == p.row - (rows - 2) + 1))
      ensures drawn == Visible(Draw(State().text, cols, 0, Pos(0, 0)), rows, viewTop)
      ensures Anchored(State().text, bufLen) ==>
                drawn == Visible(CellsBefore(State().text, cols, bufLen), rows, viewTop)
    {
      var textRows := rows - 2;
      var vr, vc := GetVpos(buf, bufLen, cursor, cols);
      PosBounds(buf[..bufLen], cols, cursor);
      if vr < viewTop { viewTop := vr; }
      if vr >= viewTop + textRows { viewTop := vr - textRows + 1; }
      if viewTop < 0 { viewTop := 0; }
      var cells;
      cells, drawn := DrawText(buf, bufLen, rows, cols, viewTop);
      at := Pos(vr - viewTop + 1, vc);
    }

    method Scroll(down: bool)
      requires Valid()
      modifies this`viewTop
      ensures Valid() && State() == old(State())
      ensures viewTop == Wheeled(old(viewTop), Wheel(down))
      ensures viewTop == if down then old(viewTop) + 3 else Max(0, old(viewTop) - 3)
    {
      if down {
        viewTop := viewTop + SCROLL_LINES;
      } else {
        viewTop := viewTop - SCROLL_LINES;
        if viewTop < 0 { viewTop := 0; }
      }
    }

    method Navigate(cols: int, ch: Key)
      requires Valid() && !IsCommand(ch) && !IsEdit(ch)
      modifies this`cursor, this`viewTop
      ensures Valid() && State() == PressMove(old(State()), cols, ch)
      ensures viewTop == Wheeled(old(viewTop), ch)
    {
      if ch == KeyUp {
        VerticalKey(cols, GoUp);
      } else if ch == KeyDown {
        VerticalKey(cols, GoDown);
      } else if ch == KeyLeft {
        LeftKey();
      } else if ch == KeyRight {
        RightKey();
      } else if ch == KeyHome {
        VerticalKey(cols, GoHome);
      } else if ch == KeyEnd {
        VerticalKey(cols, GoEnd);
      } else if ch.Wheel? {
        Scroll(ch.down);
      }
    }

    method Edit(ch: Key)
      requires Valid() && IsEdit(ch)
      modifies this`buf, this`bufSz, this`bufLen, this`cursor, this`dirty, this`peak, buf
      ensures Valid() && State() == PressEdit(old(State()), ch)
      ensures buf == old(buf) || fresh(buf)
      ensures peak == Max(old(peak), bufLen)
    {
      if ch == EditorModel.KeyBackspace || ch == Byte(127) || ch == Byte(8) {
        BackspaceKey();
      } else if ch == EditorModel.KeyDelete {
        DeleteKey();
      } else if ch == Byte(10) || ch == Byte(13) || ch == EditorModel.KeyEnter {
        InsertByte(NEWLINE);
      } else if IsPrint(ch.b) || ch.b >= 0x80 {
        InsertByte(ch.b);
      }
    }

    method HandleKey(cols: int, key: Key, reply: Reply)
      requires Valid() && running
      modifies this, buf
      ensures Valid() && State() == Step(old(State()), cols, Input(key, reply))
      ensures buf == old(buf) || fresh(buf)
      ensures peak == Max(old(peak), bufLen)
      ensures viewTop == Wheeled(old(viewTop), key)
    {
      ghost var e := State();
      assert Step(e, cols, Input(key, reply)) == Press(e, cols, key, reply);
      var ch := key;
      if ch.Idle? {
        if dirty == 0 { return; }
        ch := Byte(19);
      }
      if ch == Byte(19) || ch == KeyF2 || ch == Byte(23) {
        assert Press(e, cols, key, reply) == SaveKey(e, reply);
        SaveCommand(reply);
      } else if ch == Byte(27) {
        if dirty != 0 { dirty := -1; } else { running := false; }
      } else if IsEdit(ch) {
        Edit(ch);
      } else {
        Navigate(cols, ch);
      }
    }

    /** A whole session: the screen is drawn and a key handled, until the editor is left or the input ends. */
    method Session(rows: int, cols: int, inputs: seq<Input>)
      requires Valid()
      modifies this, buf
      ensures Valid() && State() == Run(old(State()), cols, inputs)
      ensures peak == PeakOver(old(State()), cols, inputs, old(peak))
      ensures viewTop == ViewOver(old(State()), rows, cols, inputs, old(viewTop))
    {
      ghost var e, p, top := State(), peak, viewTop;
      var n := 0;
      assert inputs[0..] == inputs;
      while n < |inputs| && running
        invariant n <= |inputs| && Valid() && (buf == old(buf) || fresh(buf))
        invariant Run(e, cols, inputs) == Run(State(), cols, inputs[n..])
        invariant PeakOver(e, cols, inputs, p) == PeakOver(State(), cols, inputs[n..], peak)
        invariant ViewOver(e, rows, cols, inputs, top) == ViewOver(State(), rows, cols, inputs[n..], viewTop)
      {
        assert inputs[n..][0] == inputs[n] && inputs[n..][1..] == inputs[n + 1..];
        var drawn, at := Refresh(rows, cols);
        HandleKey(cols, inputs[n].key, inputs[n].reply);
        n := n + 1;
      }
      ClosedStays(State(), cols, inputs[n..]);
      PeakStays(State(), cols, inputs[n..], peak);
    }
  }
}
