/** Bytes, UTF-8 continuation bytes and the stepping rules of the editor (client/ui.c), together with the
    encoding of section 3 of RFC 3629 that gives them their meaning. */
module Utf8 {
  import opened Options

  type byte = x: int | 0 <= x < 256

  /** A Unicode scalar value: every code point except the surrogates. */
  type scalar = x: int | 0 <= x < 0xD800 || 0xE000 <= x < 0x110000

  const NEWLINE: byte := 10

  /** Continuation bytes, 10xxxxxx: they take no screen column. */
  predicate IsCont(b: byte) {
    0x80 <= b < 0xC0
  }

  /** The source tests the two top bits with a mask. */
  lemma {:induction false} ContIsMask(b: bv8)
    ensures (b & 0xC0 == 0x80) <==> IsCont(b as int)
  {
    assert (b & 0xC0 == 0x80) <==> (0x80 <= b && b < 0xC0);
  }

  // ---------------------------------------------------------------------------------------------
  // Character boundaries of an arbitrary byte string
  // ---------------------------------------------------------------------------------------------

  /** i is the start of a character or the end of the text. */
  predicate Boundary(s: seq<byte>, i: int) {
    0 <= i <= |s| && (i == |s| || !IsCont(s[i]))
  }

  /** The least boundary at or after i. */
  function NextBoundary(s: seq<byte>, i: nat): (j: nat)
    requires i <= |s|
    ensures i <= j && Boundary(s, j)
    ensures forall k | i <= k < j :: IsCont(s[k])
    decreases |s| - i
  {
    if i == |s| || !IsCont(s[i]) then i else NextBoundary(s, i + 1)
  }

  /** Where a step to the left from i stops: the nearest earlier byte that is not a continuation byte, or 0. */
  function PrevBoundary(s: seq<byte>, i: nat): (j: nat)
    requires 0 < i <= |s|
    ensures j < i && (j == 0 || !IsCont(s[j]))
    ensures forall k | j < k < i :: IsCont(s[k])
  {
    if i == 1 || !IsCont(s[i - 1]) then i - 1 else PrevBoundary(s, i - 1)
  }

  /** u8_char_len: the bytes of the character that starts at i. */
  method CharLen(buf: array<byte>, len: nat, i: nat) returns (n: nat)
    requires len <= buf.Length
    ensures i < len ==> i + n == NextBoundary(buf[..len], i + 1)
    ensures i >= len ==> n == 1
  {
    n := 1;
    while i + n < len && IsCont(buf[i + n])
      invariant n >= 1 && (i < len ==> i + n <= len) && (i >= len ==> n == 1)
      invariant i < len ==> NextBoundary(buf[..len], i + 1) == NextBoundary(buf[..len], i + n)
      decreases len - n
    {
      n := n + 1;
    }
  }

  // ---------------------------------------------------------------------------------------------
  // The encoding of section 3 of RFC 3629
  // ---------------------------------------------------------------------------------------------

  function EncodeChar(c: scalar): (s: seq<byte>)
    ensures 1 <= |s| <= 4
    ensures !IsCont(s[0]) && forall i | 1 <= i < |s| :: IsCont(s[i])
    ensures c < 0x80 ==> s == [c]
    ensures c >= 0x80 ==> forall b | b in s :: b >= 0x80
  {
    if c < 0x80 then [c]
    else if c < 0x800 then [0xC0 + c / 0x40, 0x80 + c % 0x40]
    else if c < 0x10000 then [0xE0 + c / 0x1000, 0x80 + c / 0x40 % 0x40, 0x80 + c % 0x40]
    else [0xF0 + c / 0x40000, 0x80 + c / 0x1000 % 0x40, 0x80 + c / 0x40 % 0x40, 0x80 + c % 0x40]
  }

  /** The examples of section 7 of RFC 3629, and the first and last character of each length. */
  lemma {:induction false} EncodeExamples()
    ensures EncodeChar(0x41) == [0x41] && EncodeChar(0x2262) == [0xE2, 0x89, 0xA2] && EncodeChar(0x391) == [0xCE, 0x91]
    ensures EncodeChar(0x233B4) == [0xF0, 0xA3, 0x8E, 0xB4]
    ensures EncodeChar(0x7F) == [0x7F] && EncodeChar(0x80) == [0xC2, 0x80] && EncodeChar(0x7FF) == [0xDF, 0xBF]
    ensures EncodeChar(0x800) == [0xE0, 0xA0, 0x80] && EncodeChar(0xFFFF) == [0xEF, 0xBF, 0xBF]
    ensures EncodeChar(0x10000) == [0xF0, 0x90, 0x80, 0x80] && EncodeChar(0x10FFFF) == [0xF4, 0x8F, 0xBF, 0xBF]
  {
  }

  function Encode(t: seq<scalar>): seq<byte> {
    if t == [] then [] else EncodeChar(t[0]) + Encode(t[1..])
  }

  lemma {:induction false} EncodeConcat(a: seq<scalar>, b: seq<scalar>)
    ensures Encode(a + b) == Encode(a) + Encode(b)
  {
    if a == [] {
      assert a + b == b;
    } else {
      EncodeConcat(a[1..], b);
      assert (a + b)[1..] == a[1..] + b && (a + b)[0] == a[0];
      assert EncodeChar(a[0]) + (Encode(a[1..]) + Encode(b)) == EncodeChar(a[0]) + Encode(a[1..]) + Encode(b);
    }
  }

  lemma {:induction false} EncodeSnoc(a: seq<scalar>, c: scalar)
    ensures Encode(a + [c]) == Encode(a) + EncodeChar(c)
  {
    EncodeConcat(a, [c]);
    assert Encode([c]) == EncodeChar(c) + Encode([]);
  }

  /** The byte offset of character j. */
  function Offset(t: seq<scalar>, j: nat): nat
    requires j <= |t|
  {
    |Encode(t[..j])|
  }

  /** Encoded text split before character j. */
  lemma {:induction false} EncodeSplit(t: seq<scalar>, j: nat)
    requires j <= |t|
    ensures Offset(t, j) <= |Encode(t)|
    ensures Encode(t)[..Offset(t, j)] == Encode(t[..j])
    ensures Encode(t)[Offset(t, j)..] == Encode(t[j..])
    ensures Boundary(Encode(t), Offset(t, j))
  {
    EncodeConcat(t[..j], t[j..]);
    assert t == t[..j] + t[j..];
    if j < |t| {
      assert Encode(t)[Offset(t, j)] == Encode(t[j..])[0] == EncodeChar(t[j])[0];
    }
  }

  /** Stepping over one character in either direction. */
  lemma {:induction false} StepOverChar(s: seq<byte>, o: nat, c: seq<byte>)
    requires c != [] && !IsCont(c[0]) && (forall i | 1 <= i < |c| :: IsCont(c[i]))
    requires o + |c| <= |s| && s[o..o + |c|] == c && Boundary(s, o + |c|)
    ensures NextBoundary(s, o + 1) == o + |c| && PrevBoundary(s, o + |c|) == o
  {
    assert forall k | 0 <= k < |c| :: s[o + k] == c[k];
    assert s[o] == c[0];
  }

  /** Character j occupies the bytes between two consecutive offsets. */
  lemma {:induction false} EncodeAt(t: seq<scalar>, j: nat)
    requires j < |t|
    ensures Offset(t, j + 1) == Offset(t, j) + |EncodeChar(t[j])| <= |Encode(t)|
    ensures Encode(t)[Offset(t, j)..Offset(t, j + 1)] == EncodeChar(t[j])
    ensures NextBoundary(Encode(t), Offset(t, j) + 1) == Offset(t, j + 1)
    ensures PrevBoundary(Encode(t), Offset(t, j + 1)) == Offset(t, j)
  {
    EncodeSnoc(t[..j], t[j]);
    assert t[..j] + [t[j]] == t[..j + 1];
    EncodeSplit(t, j + 1);
    EncodeSplit(t, j);
    var s, o, c := Encode(t), Offset(t, j), EncodeChar(t[j]);
    assert s[o..o + |c|] == s[..o + |c|][o..] == (s[..o] + c)[o..] == c;
    StepOverChar(s, o, c);
  }

  lemma {:induction false} LastOffset(t: seq<scalar>)
    ensures Offset(t, |t|) == |Encode(t)|
  {
    assert t[..|t|] == t;
  }

  /** Every boundary of an encoded text is the offset of a character. */
  lemma {:induction false} BoundaryIsOffset(t: seq<scalar>, i: nat) returns (j: nat)
    requires Boundary(Encode(t), i)
    ensures j <= |t| && i == Offset(t, j)
  {
    LastOffset(t);
    j := 0;
    while Offset(t, j) != i
      invariant j <= |t| && Offset(t, j) <= i
      decreases |t| - j
    {
      EncodeAt(t, j);
      j := j + 1;
    }
  }

  lemma {:induction false} OffsetsIncrease(t: seq<scalar>, j: nat, k: nat)
    requires j < k <= |t|
    ensures Offset(t, j) < Offset(t, k)
  {
    EncodeAt(t, k - 1);
    if j < k - 1 {
      OffsetsIncrease(t, j, k - 1);
    }
  }

  // ---------------------------------------------------------------------------------------------
  // Decoding: the encoding can be undone, so the bytes determine the characters
  // ---------------------------------------------------------------------------------------------

  /** Decodes one character given all of its bytes; None when they are not what EncodeChar produces. */
  function DecodeChar(s: seq<byte>): (r: Option<scalar>)
    ensures r.Some? ==> EncodeChar(r.value) == s
  {
    var d := seq(|s|, i requires 0 <= i < |s| => s[i] as int);
    var v: int :=
      if |s| == 1 then d[0]
      else if |s| == 2 then (d[0] - 0xC0) * 0x40 + (d[1] - 0x80)
      else if |s| == 3 then (d[0] - 0xE0) * 0x1000 + (d[1] - 0x80) * 0x40 + (d[2] - 0x80)
      else if |s| == 4 then (d[0] - 0xF0) * 0x40000 + (d[1] - 0x80) * 0x1000 + (d[2] - 0x80) * 0x40 + (d[3] - 0x80)
      else -1;
    if (0 <= v < 0xD800 || 0xE000 <= v < 0x110000) && EncodeChar(v) == s then Some(v) else None
  }

  lemma {:induction false} DecodeEncodeChar(c: scalar)
    ensures DecodeChar(EncodeChar(c)) == Some(c)
  {
    var s := EncodeChar(c);
    if c < 0x80 {
    } else if c < 0x800 {
      assert c == c / 0x40 * 0x40 + c % 0x40;
    } else if c < 0x10000 {
      assert c / 0x40 / 0x40 == c / 0x1000;
    } else {
      assert c / 0x40 / 0x40 == c / 0x1000 && c / 0x1000 / 0x40 == c / 0x40000;
    }
  }

  lemma {:induction false} EncodeCons(s: seq<byte>, n: nat, c: scalar, t: seq<scalar>)
    requires n <= |s| && EncodeChar(c) == s[..n] && Encode(t) == s[n..]
    ensures Encode([c] + t) == s
  {
    assert ([c] + t)[1..] == t;
  }

  /** Decodes a byte string character by character, stepping as the editor does. */
  function Decode(s: seq<byte>): (r: Option<seq<scalar>>)
    ensures r.Some? ==> Encode(r.value) == s
    decreases |s|
  {
    if s == [] then Some([]) else
      var n := NextBoundary(s, 1);
      var c, t := DecodeChar(s[..n]), Decode(s[n..]);
      if c.None? || t.None? then None else EncodeCons(s, n, c.value, t.value); Some([c.value] + t.value)
  }

  lemma {:induction false} DecodeEncode(t: seq<scalar>)
    ensures Decode(Encode(t)) == Some(t)
  {
    if t != [] {
      var s := Encode(t);
      EncodeAt(t, 0);
      assert t[..0] == [] && Offset(t, 0) == 0;
      assert s[0..Offset(t, 1)] == s[..Offset(t, 1)];
      EncodeSplit(t, 1);
      DecodeEncodeChar(t[0]);
      DecodeEncode(t[1..]);
      assert t == [t[0]] + t[1..];
    }
  }
}
