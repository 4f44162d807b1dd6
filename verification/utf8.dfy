/** UTF-8 validity as Go's `utf8.ValidString` decides it, and
    SplitStringByBytes (common/utils.go), which cuts a byte string into
    pieces of at most `size` bytes without splitting a character. */
module Utf8 {

  newtype byte = x: int | 0 <= x < 256

  predicate IsContinuation(b: byte) {
    0x80 <= b <= 0xBF
  }

  /** Length of the valid UTF-8 encoding at the start of `s`, or 0 when the
      start is not one (a stray continuation byte, an overlong or surrogate
      form, a value above U+10FFFF, or a truncated sequence). */
  function RuneLen(s: seq<byte>): (n: nat)
    ensures n <= 4 && n <= |s|
  {
    if |s| == 0 then 0
    else
      var b := s[0];
      if b < 0x80 then 1
      else if 0xC2 <= b <= 0xDF then
        if |s| >= 2 && IsContinuation(s[1]) then 2 else 0
      else if 0xE0 <= b <= 0xEF then
        var lo: byte := if b == 0xE0 then 0xA0 else 0x80;
        var hi: byte := if b == 0xED then 0x9F else 0xBF;
        if |s| >= 3 && lo <= s[1] <= hi && IsContinuation(s[2]) then 3 else 0
      else if 0xF0 <= b <= 0xF4 then
        var lo: byte := if b == 0xF0 then 0x90 else 0x80;
        var hi: byte := if b == 0xF4 then 0x8F else 0xBF;
        if |s| >= 4 && lo <= s[1] <= hi && IsContinuation(s[2]) && IsContinuation(s[3]) then 4 else 0
      else 0
  }

  /** utf8.ValidString */
  predicate Valid(s: seq<byte>)
    decreases |s|
  {
    |s| == 0 || (RuneLen(s) > 0 && Valid(s[RuneLen(s)..]))
  }

  /** The first character's length depends only on its own bytes. */
  lemma RuneLenOfPrefix(s: seq<byte>, t: seq<byte>)
    requires |t| <= |s| && t == s[..|t|] && RuneLen(t) > 0
    ensures RuneLen(s) == RuneLen(t)
  {
    assert t[0] == s[0];
    if |t| >= 2 { assert t[1] == s[1]; }
    if |t| >= 3 { assert t[2] == s[2]; }
    if |t| >= 4 { assert t[3] == s[3]; }
  }

  /** Cutting a valid string after a valid prefix leaves a valid rest. */
  lemma {:induction false} ValidRest(s: seq<byte>, l: nat)
    requires Valid(s) && l <= |s| && Valid(s[..l])
    ensures Valid(s[l..])
    decreases l
  {
    if l > 0 {
      var t := s[..l];
      var k := RuneLen(t);
      RuneLenOfPrefix(s, t);
      assert t[k..] == s[k..][..l - k];
      ValidRest(s[k..], l - k);
      assert s[k..][l - k..] == s[l..];
    }
  }

  /** The largest l' <= l with an empty or valid prefix of that length: the
      shortening loop of SplitStringByBytes. */
  function LongestValidPrefix(s: seq<byte>, l: nat): (r: nat)
    requires l <= |s|
    ensures r <= l
    ensures r > 0 ==> Valid(s[..r])
  {
    if l == 0 || Valid(s[..l]) then l else LongestValidPrefix(s, l - 1)
  }

  /** No longer prefix within the bound is valid. */
  lemma {:induction false} LongestValidPrefixIsLongest(s: seq<byte>, l: nat)
    requires l <= |s|
    ensures forall j :: LongestValidPrefix(s, l) < j <= l ==> !Valid(s[..j])
    decreases l
  {
    if l > 0 && !Valid(s[..l]) {
      LongestValidPrefixIsLongest(s, l - 1);
    }
  }

  /** The cut point of one iteration: the first loop from min(size, |s|),
      and when that reaches 0 the second loop from |s|. */
  function CutPoint(s: seq<byte>, size: nat): nat
    requires |s| > 0
  {
    var l := LongestValidPrefix(s, if size > |s| then |s| else size);
    if l == 0 then LongestValidPrefix(s, |s|) else l
  }

  /** The three ways SplitStringByBytes can end. */
  datatype SplitOutcome =
    | Pieces(pieces: seq<seq<byte>>)
    /** slicing with a negative size */
    | Panic
    /** the loop no longer consumes anything and never ends */
    | Diverges

  /** SplitStringByBytes */
  function SplitStringByBytes(s: seq<byte>, size: int): (r: SplitOutcome)
    ensures |s| == 0 ==> r == Pieces([])
    ensures |s| > 0 && size < 0 ==> r == Panic
    decreases |s|
  {
    if |s| == 0 then Pieces([])
    else if size < 0 then Panic
    else
      var l := CutPoint(s, size);
      if l == 0 then Diverges
      else
        match SplitStringByBytes(s[l..], size)
        case Pieces(rest) => Pieces([s[..l]] + rest)
        case other => other
  }

  function Concat(pieces: seq<seq<byte>>): seq<byte> {
    if |pieces| == 0 then [] else pieces[0] + Concat(pieces[1..])
  }

  /** The length of the first character of `s` exceeds `size`. */
  predicate FirstRuneWider(s: seq<byte>, size: int) {
    |s| > 0 && RuneLen(s) > size
  }

  /** Whenever a non-empty split returns, it cut a non-empty prefix and the
      split of the rest returned too. */
  lemma SplitUnfold(s: seq<byte>, size: int)
    requires |s| > 0 && SplitStringByBytes(s, size).Pieces?
    ensures var l := CutPoint(s, size);
            && 0 < l <= |s|
            && SplitStringByBytes(s[l..], size).Pieces?
            && SplitStringByBytes(s, size).pieces == [s[..l]] + SplitStringByBytes(s[l..], size).pieces
  {
  }

  /** Whenever the split returns, the pieces put back together give the
      input. */
  lemma {:induction false} SplitConcat(s: seq<byte>, size: int)
    requires SplitStringByBytes(s, size).Pieces?
    ensures Concat(SplitStringByBytes(s, size).pieces) == s
    decreases |s|
  {
    if |s| > 0 {
      var l := CutPoint(s, size);
      SplitUnfold(s, size);
      SplitConcat(s[l..], size);
      var rest := SplitStringByBytes(s[l..], size).pieces;
      var p := [s[..l]] + rest;
      assert p[0] == s[..l] && p[1..] == rest;
      assert Concat(p) == s[..l] + s[l..];
    }
  }

  /** For valid input and a non-negative size the split returns. */
  lemma {:induction false} SplitReturns(s: seq<byte>, size: int)
    requires Valid(s) && size >= 0
    ensures SplitStringByBytes(s, size).Pieces?
    decreases |s|
  {
    if |s| > 0 {
      var l := CutPoint(s, size);
      CutPointFacts(s, size);
      ValidRest(s, l);
      SplitReturns(s[l..], size);
    }
  }

  /** For valid input and a non-negative size the split returns, and the
      pieces put back together give the input. */
  lemma SplitRoundTrip(s: seq<byte>, size: int)
    requires Valid(s) && size >= 0
    ensures SplitStringByBytes(s, size).Pieces?
    ensures Concat(SplitStringByBytes(s, size).pieces) == s
  {
    SplitReturns(s, size);
    SplitConcat(s, size);
  }

  /** One iteration on a valid non-empty input: the cut is a valid
      non-empty prefix, the rest is valid, and the pieces are the prefix
      followed by the pieces of the rest. */
  lemma SplitStep(s: seq<byte>, size: int)
    requires Valid(s) && |s| > 0 && size >= 0
    ensures var l := CutPoint(s, size);
            && 0 < l <= |s| && Valid(s[..l]) && Valid(s[l..])
            && (l <= size || (l == |s| && RuneLen(s) > size))
            && SplitStringByBytes(s[l..], size).Pieces?
            && SplitStringByBytes(s, size) == Pieces([s[..l]] + SplitStringByBytes(s[l..], size).pieces)
  {
    var l := CutPoint(s, size);
    CutPointFacts(s, size);
    ValidRest(s, l);
    SplitReturns(s[l..], size);
  }

  /** Every piece is non-empty and valid. */
  predicate AllValidPieces(p: seq<seq<byte>>) {
    |p| == 0 || (|p[0]| > 0 && Valid(p[0]) && AllValidPieces(p[1..]))
  }

  /** Every piece is at most `size` bytes, except that the last may be
      longer when its first character alone is wider than `size`. */
  predicate SizedPieces(p: seq<seq<byte>>, size: int) {
    || |p| == 0
    || (|p| == 1 && (|p[0]| <= size || FirstRuneWider(p[0], size)))
    || (|p| > 1 && |p[0]| <= size && SizedPieces(p[1..], size))
  }

  lemma {:induction false} AllValidPiecesIff(p: seq<seq<byte>>)
    ensures AllValidPieces(p) <==> forall i :: 0 <= i < |p| ==> |p[i]| > 0 && Valid(p[i])
  {
    if |p| > 0 {
      AllValidPiecesIff(p[1..]);
      if forall i :: 1 <= i < |p| ==> |p[i]| > 0 && Valid(p[i]) {
        forall i | 0 <= i < |p[1..]| ensures |p[1..][i]| > 0 && Valid(p[1..][i]) {
          assert p[1..][i] == p[i + 1];
        }
      }
      if AllValidPieces(p[1..]) {
        forall i | 1 <= i < |p| ensures |p[i]| > 0 && Valid(p[i]) {
          assert p[i] == p[1..][i - 1];
        }
      }
    }
  }

  lemma {:induction false} SizedPiecesIff(p: seq<seq<byte>>, size: int)
    ensures SizedPieces(p, size) <==>
              && (forall i :: 0 <= i < |p| - 1 ==> |p[i]| <= size)
              && (|p| > 0 ==> |p[|p| - 1]| <= size || FirstRuneWider(p[|p| - 1], size))
  {
    if |p| > 1 {
      SizedPiecesIff(p[1..], size);
      assert p[1..][|p[1..]| - 1] == p[|p| - 1];
      if forall i :: 0 <= i < |p| - 1 ==> |p[i]| <= size {
        forall i | 0 <= i < |p[1..]| - 1 ensures |p[1..][i]| <= size {
          assert p[1..][i] == p[i + 1];
        }
      }
      if SizedPieces(p[1..], size) && |p[0]| <= size {
        forall i | 1 <= i < |p| - 1 ensures |p[i]| <= size {
          assert p[i] == p[1..][i - 1];
        }
      }
    }
  }

  /** The pieces of a valid input are non-empty and valid. */
  lemma {:induction false} SplitAllValid(s: seq<byte>, size: int)
    requires Valid(s) && size >= 0
    ensures SplitStringByBytes(s, size).Pieces?
    ensures AllValidPieces(SplitStringByBytes(s, size).pieces)
    decreases |s|
  {
    if |s| > 0 {
      var l := CutPoint(s, size);
      SplitStep(s, size);
      SplitAllValid(s[l..], size);
      var rest := SplitStringByBytes(s[l..], size).pieces;
      assert ([s[..l]] + rest)[1..] == rest;
    }
  }

  /** The pieces of a valid input respect the size bound as SizedPieces says. */
  lemma {:induction false} SplitSized(s: seq<byte>, size: int)
    requires Valid(s) && size >= 0
    ensures SplitStringByBytes(s, size).Pieces?
    ensures SizedPieces(SplitStringByBytes(s, size).pieces, size)
    decreases |s|
  {
    if |s| > 0 {
      var l := CutPoint(s, size);
      SplitStep(s, size);
      SplitSized(s[l..], size);
      var rest := SplitStringByBytes(s[l..], size).pieces;
      assert ([s[..l]] + rest)[1..] == rest;
      if l > size {
        assert |s[l..]| == 0 && s[..l] == s;
      }
    }
  }

  /** Each piece of a valid input is non-empty and valid. */
  lemma SplitPiecesValid(s: seq<byte>, size: int)
    requires Valid(s) && size >= 0
    ensures SplitStringByBytes(s, size).Pieces?
    ensures var p := SplitStringByBytes(s, size).pieces;
            forall i :: 0 <= i < |p| ==> |p[i]| > 0 && Valid(p[i])
  {
    SplitAllValid(s, size);
    AllValidPiecesIff(SplitStringByBytes(s, size).pieces);
  }

  /** Each piece of a valid input is at most `size` bytes, except a last
      piece that is the whole remainder because its first character alone
      is wider than `size`. */
  lemma SplitPiecesSized(s: seq<byte>, size: int)
    requires Valid(s) && size >= 0
    ensures SplitStringByBytes(s, size).Pieces?
    ensures var p := SplitStringByBytes(s, size).pieces;
            forall i :: 0 <= i < |p| - 1 ==> |p[i]| <= size
    ensures var p := SplitStringByBytes(s, size).pieces;
            |p| > 0 ==> |p[|p| - 1]| <= size || FirstRuneWider(p[|p| - 1], size)
  {
    SplitSized(s, size);
    SizedPiecesIff(SplitStringByBytes(s, size).pieces, size);
  }

  /** One cut of a valid non-empty string: a valid non-empty prefix of at
      most `size` bytes, or, when the first character is wider, everything. */
  lemma CutPointFacts(s: seq<byte>, size: nat)
    requires Valid(s) && |s| > 0
    ensures var l := CutPoint(s, size);
            && 0 < l <= |s| && Valid(s[..l])
            && (l <= size || (l == |s| && RuneLen(s) > size))
  {
    var bound := if size > |s| then |s| else size;
    var l1 := LongestValidPrefix(s, bound);
    var k := RuneLen(s);
    RuneLenSelf(s);
    assert Valid(s[..k]) by {
      assert s[..k][k..] == [];
    }
    assert s[..|s|] == s;
    if l1 == 0 {
      LongestValidPrefixIsLongest(s, bound);
      assert k > bound;
    }
  }

  lemma RuneLenSelf(s: seq<byte>)
    ensures RuneLen(s[..RuneLen(s)]) == RuneLen(s)
  {
    var k := RuneLen(s);
    var t := s[..k];
    if k > 0 {
      assert t[0] == s[0];
      if k >= 2 { assert t[1] == s[1]; }
      if k >= 3 { assert t[2] == s[2]; }
      if k >= 4 { assert t[3] == s[3]; }
    }
  }

  /** A string that starts with an invalid byte makes the loop spin. */
  lemma InvalidStartDiverges(s: seq<byte>, size: int)
    requires |s| > 0 && RuneLen(s) == 0 && size >= 0
    ensures SplitStringByBytes(s, size) == Diverges
  {
    forall l | 0 < l <= |s| ensures !Valid(s[..l]) {
      var t := s[..l];
      if Valid(t) {
        RuneLenOfPrefix(s, t);
      }
    }
  }
}
