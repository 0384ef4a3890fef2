/** The byte editor refines an editor on lists of characters: the characters to the left and to the right of the
    cursor. A typed character reaches the byte editor as the bytes of its UTF-8 encoding, one key each. */
module Zipper {
  import opened Utf8
  import opened Layout
  import opened Decimal
  import opened EditorModel
  import opened Options

  datatype Zipper = Zipper(left: seq<scalar>, right: seq<scalar>) {
    function Text(): seq<scalar> { left + right }
  }

  /** A user's stroke: a character beyond ASCII, or a key that is not a raw byte of such a character. */
  datatype Stroke = Typed(c: scalar) | Pressed(key: Key, reply: Reply) {
    predicate Legal() {
      match this
      case Typed(c) => c >= 0x80
      case Pressed(key, _) => key.Byte? ==> key.b < 0x80
    }

    /** The keys that wgetch delivers for it. */
    function Inputs(): seq<Input> {
      match this
      case Typed(c) => ByteInputs(EncodeChar(c))
      case Pressed(key, reply) => [Input(key, reply)]
    }
  }

  function ByteInputs(bytes: seq<byte>): seq<Input> {
    seq(|bytes|, i requires 0 <= i < |bytes| => Input(Byte(bytes[i]), Refused))
  }

  function AllInputs(strokes: seq<Stroke>): seq<Input> {
    if strokes == [] then [] else strokes[0].Inputs() + AllInputs(strokes[1..])
  }

  // ---------------------------------------------------------------------------------------------
  // The character editor
  // ---------------------------------------------------------------------------------------------

  /** The cursor position before character j. */
  function CharPos(t: seq<scalar>, cols: int, j: nat): Pos
    requires j <= |t|
  {
    EncodeSplit(t, j);
    PosAt(Encode(t), cols, Offset(t, j))
  }

  /** The character index at a visual position: the one exactly there, else the last one on that row, else the end. */
  ghost predicate IsCharTarget(t: seq<scalar>, cols: int, p: Pos, j: nat) {
    j <= |t| &&
    (|| CharPos(t, cols, j) == p
     || (&& (forall k: nat | k <= |t| :: CharPos(t, cols, k) != p)
         && CharPos(t, cols, j).row == p.row
         && (forall k: nat | k <= |t| && CharPos(t, cols, k).row == p.row :: k <= j))
     || ((forall k: nat | k <= |t| :: CharPos(t, cols, k).row != p.row) && j == |t|))
  }

  ghost function CharTarget(t: seq<scalar>, cols: int, p: Pos): (j: nat)
    ensures IsCharTarget(t, cols, p, j)
  {
    CharTargetExists(t, cols, p);
    var j: nat :| IsCharTarget(t, cols, p, j);
    j
  }

  ghost function VerticalStep(z: Zipper, cols: int, v: Vertical): Zipper {
    var t := z.Text();
    var p := CharPos(t, cols, |z.left|);
    if v.GoUp? && p.row <= 0 then z else
      var j := CharTarget(t, cols, Aim(v, p, cols));
      Zipper(t[..j], t[j..])
  }

  function InsertChar(z: Zipper, c: scalar): Zipper { Zipper(z.left + [c], z.right) }

  function BackspaceChar(z: Zipper): Zipper {
    if z.left == [] then z else Zipper(z.left[..|z.left| - 1], z.right)
  }

  function DeleteChar(z: Zipper): Zipper {
    if z.right == [] then z else Zipper(z.left, z.right[1..])
  }

  function LeftChar(z: Zipper): Zipper {
    if z.left == [] then z else Zipper(z.left[..|z.left| - 1], [z.left[|z.left| - 1]] + z.right)
  }

  function RightChar(z: Zipper): Zipper {
    if z.right == [] then z else Zipper(z.left + [z.right[0]], z.right[1..])
  }

  ghost function StrokeStep(z: Zipper, cols: int, s: Stroke): Zipper {
    match s
    case Typed(c) => InsertChar(z, c)
    case Pressed(key, _) =>
      match key
      case KeyUp => VerticalStep(z, cols, GoUp)
      case KeyDown => VerticalStep(z, cols, GoDown)
      case KeyHome => VerticalStep(z, cols, GoHome)
      case KeyEnd => VerticalStep(z, cols, GoEnd)
      case KeyLeft => LeftChar(z)
      case KeyRight => RightChar(z)
      case KeyBackspace => BackspaceChar(z)
      case KeyDelete => DeleteChar(z)
      case KeyEnter => InsertChar(z, 10)
      case Byte(b) =>
        if b == 127 || b == 8 then BackspaceChar(z)
        else if b == 10 || b == 13 then InsertChar(z, 10)
        else if 32 <= b <= 126 then InsertChar(z, b)
        else z
      case _ => z
  }

  ghost function StrokeRun(z: Zipper, cols: int, strokes: seq<Stroke>): Zipper
    decreases |strokes|
  {
    if strokes == [] then z else StrokeRun(StrokeStep(z, cols, strokes[0]), cols, strokes[1..])
  }

  // ---------------------------------------------------------------------------------------------
  // Character targets and byte targets
  // ---------------------------------------------------------------------------------------------

  lemma {:induction false} CharTargetExists(t: seq<scalar>, cols: int, p: Pos)
    ensures exists j: nat :: IsCharTarget(t, cols, p, j)
  {
    var i := Target(Encode(t), cols, p);
    var j := BoundaryIsOffset(t, i);
    EncodeSplit(t, |t|);
    assert t[..|t|] == t;
    forall k: nat | k <= |t|
      ensures Boundary(Encode(t), Offset(t, k)) && (Offset(t, k) <= i ==> k <= j)
    {
      EncodeSplit(t, k);
      if k > j { OffsetsIncrease(t, j, k); }
    }
    assert i == |Encode(t)| ==> |t| <= j;
    assert IsCharTarget(t, cols, p, j);
  }

  /** The byte index that a vertical key goes to is the offset of the character it should go to. */
  lemma {:induction false} TargetIsOffset(t: seq<scalar>, cols: int, p: Pos, j: nat)
    requires IsCharTarget(t, cols, p, j)
    ensures Target(Encode(t), cols, p) == Offset(t, j)
  {
    var s := Encode(t);
    EncodeSplit(t, |t|);
    assert t[..|t|] == t;
    EncodeSplit(t, j);
    forall i | Boundary(s, i)
      ensures exists k: nat :: k <= |t| && i == Offset(t, k) && PosAt(s, cols, i) == CharPos(t, cols, k)
                               && (k <= j ==> i <= Offset(t, j))
    {
      var k := BoundaryIsOffset(t, i);
      if k < j { OffsetsIncrease(t, k, j); }
    }
    assert IsTarget(s, cols, p, Offset(t, j));
    TargetUnique(s, cols, p, Offset(t, j), Target(s, cols, p));
  }

  // ---------------------------------------------------------------------------------------------
  // The simulation
  // ---------------------------------------------------------------------------------------------

  /** The bytes before and after the cursor are the encodings of the characters before and after it. */
  ghost predicate Represents(e: Editor, z: Zipper) {
    && e.Valid()
    && e.cursor == |Encode(z.left)|
    && e.text == Encode(z.left) + Encode(z.right)
  }

  /** Represented halves can be read back by decoding them. */
  lemma {:induction false} RepresentedDecodes(e: Editor, z: Zipper)
    requires Represents(e, z)
    ensures Decode(e.text[..e.cursor]) == Some(z.left) && Decode(e.text[e.cursor..]) == Some(z.right)
    ensures Boundary(e.text, e.cursor)
  {
    DecodeEncode(z.left);
    DecodeEncode(z.right);
    assert e.text[..e.cursor] == Encode(z.left) && e.text[e.cursor..] == Encode(z.right);
    if z.right != [] {
      assert e.text[e.cursor] == Encode(z.right)[0] == EncodeChar(z.right[0])[0];
    }
  }

  lemma {:induction false} RepresentsText(e: Editor, z: Zipper)
    requires Represents(e, z)
    ensures e.text == Encode(z.Text()) && e.cursor == Offset(z.Text(), |z.left|)
  {
    EncodeConcat(z.left, z.right);
    assert z.Text()[..|z.left|] == z.left;
  }

  /** A cursor on the offset of a character splits the text there. */
  lemma {:induction false} SplitRepresents(e: Editor, t: seq<scalar>, j: nat)
    requires e.Valid() && j <= |t| && e.text == Encode(t) && e.cursor == Offset(t, j)
    ensures Represents(e, Zipper(t[..j], t[j..]))
  {
    var l, r := t[..j], t[j..];
    assert l + r == t;
    assert Encode(t) == Encode(l) + Encode(r) by { EncodeConcat(l, r); }
    assert Offset(t, j) == |Encode(l)|;
  }

  lemma {:induction false} TypeByte(e: Editor, cols: int, b: byte)
    requires e.Valid() && e.open && (IsPrint(b) || b >= 0x80)
    ensures Step(e, cols, Input(Byte(b), Refused)) == Insert(e, b)
  {
  }

  lemma {:induction false} InsertSplits(e: Editor, b: byte)
    requires e.Valid() && b != 0
    ensures var n := Insert(e, b);
            n.text[..n.cursor] == e.text[..e.cursor] + [b] && n.text[n.cursor..] == e.text[e.cursor..]
  {
  }

  /** Inserting bytes one key at a time. */
  lemma {:induction false} TypeBytes(e: Editor, cols: int, bytes: seq<byte>)
    requires e.Valid() && e.open && forall b | b in bytes :: IsPrint(b) || b >= 0x80
    ensures var r := Run(e, cols, ByteInputs(bytes));
            && r.text == e.text[..e.cursor] + bytes + e.text[e.cursor..]
            && r.cursor == e.cursor + |bytes| && r.open
    decreases |bytes|
  {
    if bytes == [] {
      assert e.text == e.text[..e.cursor] + e.text[e.cursor..];
    } else {
      var b, rest, inputs := bytes[0], bytes[1..], ByteInputs(bytes);
      assert inputs[0] == Input(Byte(b), Refused) && inputs[1..] == ByteInputs(rest);
      assert b in bytes;
      TypeByte(e, cols, b);
      InsertSplits(e, b);
      TypeBytes(Insert(e, b), cols, rest);
      assert bytes == [b] + rest;
      assert e.text[..e.cursor] + [b] + rest == e.text[..e.cursor] + bytes;
    }
  }

  lemma {:induction false} InsertRepresents(e: Editor, z: Zipper, c: scalar, r: Editor)
    requires Represents(e, z) && r.Valid()
    requires r.text == e.text[..e.cursor] + EncodeChar(c) + e.text[e.cursor..]
    requires r.cursor == e.cursor + |EncodeChar(c)|
    ensures Represents(r, InsertChar(z, c))
  {
    EncodeSnoc(z.left, c);
    assert e.text[..e.cursor] == Encode(z.left) && e.text[e.cursor..] == Encode(z.right);
  }

  /** The character before the cursor is what a step to the left crosses. */
  lemma {:induction false} LeftOf(e: Editor, z: Zipper)
    requires Represents(e, z) && z.left != []
    ensures e.cursor > 0
    ensures PrevBoundary(e.text, e.cursor) == |Encode(z.left[..|z.left| - 1])|
    ensures e.text[..PrevBoundary(e.text, e.cursor)] == Encode(z.left[..|z.left| - 1])
  {
    var t, n := z.Text(), |z.left| - 1;
    RepresentsText(e, z);
    EncodeAt(t, n);
    EncodeSplit(t, n);
    assert t[..n] == z.left[..n];
  }

  /** The character after the cursor is what a step to the right crosses. */
  lemma {:induction false} RightOf(e: Editor, z: Zipper)
    requires Represents(e, z) && z.right != []
    ensures e.cursor < |e.text|
    ensures NextBoundary(e.text, e.cursor + 1) == |Encode(z.left + [z.right[0]])|
    ensures e.text[NextBoundary(e.text, e.cursor + 1)..] == Encode(z.right[1..])
  {
    var t, n := z.Text(), |z.left|;
    assert t[..n + 1] == z.left + [z.right[0]];
    assert t[n + 1..] == z.right[1..];
    assert e.text == Encode(t) && e.cursor == Offset(t, n) by { RepresentsText(e, z); }
    assert NextBoundary(e.text, e.cursor + 1) == Offset(t, n + 1) by { EncodeAt(t, n); }
    assert e.text[Offset(t, n + 1)..] == Encode(t[n + 1..]) by { EncodeSplit(t, n + 1); }
    assert e.cursor < |e.text| by { EncodeAt(t, n); }
  }

  lemma {:induction false} BackspaceRepresents(e: Editor, z: Zipper)
    requires Represents(e, z)
    ensures Represents(Backspace(e), BackspaceChar(z))
  {
    if z.left != [] {
      LeftOf(e, z);
      assert e.text[e.cursor..] == Encode(z.right);
    }
  }

  lemma {:induction false} DeleteRepresents(e: Editor, z: Zipper)
    requires Represents(e, z)
    ensures Represents(Delete(e), DeleteChar(z))
  {
    if z.right != [] {
      RightOf(e, z);
      assert e.text[..e.cursor] == Encode(z.left);
    }
  }

  lemma {:induction false} LeftRepresents(e: Editor, z: Zipper)
    requires Represents(e, z)
    ensures Represents(Left(e), LeftChar(z))
  {
    if z.left != [] {
      LeftOf(e, z);
      RepresentsText(e, z);
      var t, n := z.Text(), |z.left| - 1;
      assert t[..n] == LeftChar(z).left && t[n..] == LeftChar(z).right;
      SplitRepresents(Left(e), t, n);
    }
  }

  lemma {:induction false} RightRepresents(e: Editor, z: Zipper)
    requires Represents(e, z)
    ensures Represents(Right(e), RightChar(z))
  {
    if z.right != [] {
      RightOf(e, z);
      RepresentsText(e, z);
      var t, n := z.Text(), |z.left| + 1;
      assert t[..n] == RightChar(z).left && t[n..] == RightChar(z).right;
      SplitRepresents(Right(e), t, n);
    }
  }

  lemma {:induction false} VerticalRepresents(e: Editor, z: Zipper, cols: int, v: Vertical)
    requires Represents(e, z)
    ensures Represents(Vertically(e, cols, v), VerticalStep(z, cols, v))
  {
    RepresentsText(e, z);
    var t := z.Text();
    var p := CharPos(t, cols, |z.left|);
    if !(v.GoUp? && p.row <= 0) {
      var j := CharTarget(t, cols, Aim(v, p, cols));
      TargetIsOffset(t, cols, Aim(v, p, cols), j);
      SplitRepresents(Vertically(e, cols, v), t, j);
    }
  }

  lemma {:induction false} EditRepresents(e: Editor, z: Zipper, cols: int, key: Key, reply: Reply)
    requires Represents(e, z) && IsEdit(key) && Pressed(key, reply).Legal()
    ensures Represents(PressEdit(e, key), StrokeStep(z, cols, Pressed(key, reply)))
  {
    if key.KeyBackspace? || (key.Byte? && (key.b == 127 || key.b == 8)) {
      BackspaceRepresents(e, z);
    } else if key.KeyDelete? {
      DeleteRepresents(e, z);
    } else if key.KeyEnter? || key.b == 10 || key.b == 13 {
      InsertRepresents(e, z, NEWLINE, Insert(e, NEWLINE));
    } else if IsPrint(key.b) {
      InsertRepresents(e, z, key.b, Insert(e, key.b));
    }
  }

  lemma {:induction false} MoveRepresents(e: Editor, z: Zipper, cols: int, key: Key, reply: Reply)
    requires Represents(e, z) && !IsCommand(key) && !IsEdit(key)
    ensures Represents(PressMove(e, cols, key), StrokeStep(z, cols, Pressed(key, reply)))
  {
    match key
    case KeyUp => VerticalRepresents(e, z, cols, GoUp);
    case KeyDown => VerticalRepresents(e, z, cols, GoDown);
    case KeyHome => VerticalRepresents(e, z, cols, GoHome);
    case KeyEnd => VerticalRepresents(e, z, cols, GoEnd);
    case KeyLeft => LeftRepresents(e, z);
    case KeyRight => RightRepresents(e, z);
    case _ =>
  }

  /** One key other than the bytes of a typed character. */
  lemma {:induction false} PressRepresents(e: Editor, z: Zipper, cols: int, key: Key, reply: Reply)
    requires Represents(e, z) && e.open && Pressed(key, reply).Legal()
    ensures Represents(Step(e, cols, Input(key, reply)), StrokeStep(z, cols, Pressed(key, reply)))
  {
    StepValid(e, cols, Input(key, reply));
    if IsEdit(key) {
      EditRepresents(e, z, cols, key, reply);
    } else if !IsCommand(key) {
      MoveRepresents(e, z, cols, key, reply);
    }
  }

  lemma {:induction false} StrokeRepresents(e: Editor, z: Zipper, cols: int, s: Stroke)
    requires Represents(e, z) && e.open && s.Legal()
    ensures Represents(Run(e, cols, s.Inputs()), StrokeStep(z, cols, s))
  {
    match s
    case Typed(c) =>
      TypeBytes(e, cols, EncodeChar(c));
      InsertRepresents(e, z, c, Run(e, cols, s.Inputs()));
    case Pressed(key, reply) =>
      PressRepresents(e, z, cols, key, reply);
      assert s.Inputs()[1..] == [];
      assert Run(e, cols, s.Inputs()) == Step(e, cols, s.Inputs()[0]);
  }

  /** Whole runs: for every sequence of strokes, as long as the editor has not been left, the text and the cursor
      are those of the list editor after the same strokes. */
  lemma {:induction false} EditorRefinesZipper(e: Editor, z: Zipper, cols: int, strokes: seq<Stroke>)
    requires Represents(e, z) && forall s | s in strokes :: s.Legal()
    requires Run(e, cols, AllInputs(strokes)).open
    ensures Represents(Run(e, cols, AllInputs(strokes)), StrokeRun(z, cols, strokes))
    decreases |strokes|
  {
    if !e.open {
      ClosedStays(e, cols, AllInputs(strokes));
    }
    if strokes != [] {
      var s := strokes[0];
      assert s in strokes;
      StrokeRepresents(e, z, cols, s);
      RunConcat(e, cols, s.Inputs(), AllInputs(strokes[1..]));
      EditorRefinesZipper(Run(e, cols, s.Inputs()), StrokeStep(z, cols, s), cols, strokes[1..]);
    }
  }

  /** An editor opened on a well-formed text starts with everything to the left of the cursor. */
  lemma {:induction false} OpenedRepresents(e: Editor, t: seq<scalar>)
    requires e.Valid() && e.text == Encode(t) && e.cursor == |e.text|
    ensures Represents(e, Zipper(t, []))
  {
  }

  lemma {:induction false} NoNulIff(t: seq<scalar>)
    ensures NoNul(Encode(t)) <==> 0 !in t
  {
    if t != [] {
      var s, c, rest := Encode(t), EncodeChar(t[0]), Encode(t[1..]);
      NoNulIff(t[1..]);
      assert t == [t[0]] + t[1..];
      NoNulParts(c, rest);
      assert NoNul(c) <==> t[0] != 0 by {
        if t[0] != 0 { assert forall i | 0 <= i < |c| :: c[i] in c; } else { assert c[0] == 0; }
      }
    }
  }

  lemma {:induction false} NoNulParts(a: seq<byte>, b: seq<byte>)
    ensures NoNul(a + b) <==> NoNul(a) && NoNul(b)
  {
    if NoNul(a + b) {
      assert forall i | 0 <= i < |a| :: a[i] == (a + b)[i];
      assert forall i | 0 <= i < |b| :: b[i] == (a + b)[|a| + i];
    }
  }

  /** So for every text that an entry can have (NoNulIff) and every sequence of strokes, the bytes before and after the
      cursor decode to what the list editor has there. */
  lemma {:induction false} SessionRefinesZipper(
    t: seq<scalar>, entryId: cint, files: map<string, seq<byte>>, cols: int, strokes: seq<Stroke>)
    requires NoNul(Encode(t)) && forall s | s in strokes :: s.Legal()
    requires Run(Opened(entryId, Encode(t), files), cols, AllInputs(strokes)).open
    ensures var e := Run(Opened(entryId, Encode(t), files), cols, AllInputs(strokes));
            var z := StrokeRun(Zipper(t, []), cols, strokes);
            && Decode(e.text[..e.cursor]) == Some(z.left) && Decode(e.text[e.cursor..]) == Some(z.right)
            && Boundary(e.text, e.cursor)
  {
    var e := Opened(entryId, Encode(t), files);
    OpenedRepresents(e, t);
    EditorRefinesZipper(e, Zipper(t, []), cols, strokes);
    RepresentedDecodes(Run(e, cols, AllInputs(strokes)), StrokeRun(Zipper(t, []), cols, strokes));
  }
}
