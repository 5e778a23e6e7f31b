/** How the two versions relate under one shared whitespace classification:
    Python's tokens are Rust's pieces without the empty ones, so the two
    results differ exactly by the empty pieces Rust counts in its denominator
    and by bytes versus code points in the length test. */
module Compare {
  import opened Utf8
  import opened Seqs
  import opened Analysis
  import Rs = ShortLongRs
  import Py = ShortLongPy

  predicate NonEmpty(piece: string) {
    piece != []
  }

  /** Text that is empty or starts with whitespace has an empty first piece. */
  lemma FirstPieceEmpty(s: string, isWs: char -> bool)
    requires s == [] || isWs(s[0])
    ensures Rs.SplitAt(s, isWs)[0] == []
    ensures Filter(Rs.SplitAt(s, isWs)[1..], NonEmpty) == Filter(Rs.SplitAt(s, isWs), NonEmpty)
  {
    var r := Rs.SplitAt(s, isWs);
    assert r == [r[0]] + r[1..];
  }

  /** A word followed by nothing or by whitespace contributes exactly itself. */
  lemma WordThenRest(w: string, rest: string, isWs: char -> bool)
    requires w != [] && forall i :: 0 <= i < |w| ==> !isWs(w[i])
    requires rest == [] || isWs(rest[0])
    ensures Filter(Rs.SplitAt(w + rest, isWs), NonEmpty) == [w] + Filter(Rs.SplitAt(rest, isWs), NonEmpty)
  {
    var r := Rs.SplitAt(rest, isWs);
    Rs.SplitAtWordThen(w, rest, isWs);
    FirstPieceEmpty(rest, isWs);
    FilterCons(w, r[1..], NonEmpty);
  }

  /** Python's `split()` is Rust's `split(char::is_whitespace)` with the empty
      pieces removed. */
  lemma {:induction false} TokensAreNonEmptyPieces(s: string, isWs: char -> bool)
    ensures Py.Tokens(s, isWs) == Filter(Rs.SplitAt(s, isWs), NonEmpty)
    decreases |s|
  {
    if s == [] {
      assert Rs.SplitAt(s, isWs) == [[]];
    } else if isWs(s[0]) {
      var rest := Rs.SplitAt(s[1..], isWs);
      assert Rs.SplitAt(s, isWs) == [[]] + rest;
      assert ([[]] + rest)[1..] == rest;
      TokensAreNonEmptyPieces(s[1..], isWs);
    } else {
      var n := Py.WordRun(s, isWs);
      var w, rest := s[..n], s[n..];
      assert w + rest == s;
      WordThenRest(w, rest, isWs);
      TokensAreNonEmptyPieces(rest, isWs);
    }
  }

  /** Removing the empty pieces and removing the stop-words commute, so the
      Python list is Rust's kept list without its empty pieces. */
  lemma KeptAreNonEmptyKept(s: string, isWs: char -> bool)
    ensures Py.Kept(s, isWs) == Filter(Rs.Kept(s, isWs), NonEmpty)
  {
    TokensAreNonEmptyPieces(s, isWs);
    FilterCommute(Rs.SplitAt(s, isWs), NonEmpty, NotStopWord);
  }

  /** Rust's denominator exceeds Python's by the number of empty pieces of the
      text, all of which survive the stop-word filter. */
  lemma Denominators(s: string, isWs: char -> bool)
    ensures |Rs.Kept(s, isWs)| == |Py.Kept(s, isWs)| + |Filter(Rs.SplitAt(s, isWs), Rs.IsEmptyPiece)|
  {
    KeptAreNonEmptyKept(s, isWs);
    FilterSplitCount(Rs.Kept(s, isWs), NonEmpty, Rs.IsEmptyPiece);
    Rs.EmptyPiecesKept(s, isWs);
  }

  /** A piece longer than 8 code points is longer than 8 bytes, so Rust never
      counts fewer long pieces than Python counts long tokens. */
  lemma Numerators(s: string, isWs: char -> bool)
    ensures |Filter(Py.Kept(s, isWs), Py.IsLong)| <= |Filter(Rs.Kept(s, isWs), Rs.IsLong)|
  {
    var rk := Rs.Kept(s, isWs);
    KeptAreNonEmptyKept(s, isWs);
    FilterWeakerFirst(rk, Py.IsLong, NonEmpty);
    FilterCountMono(rk, Py.IsLong, Rs.IsLong);
  }

  predicate IsAscii(s: string) {
    forall i :: 0 <= i < |s| ==> s[i] as int < 0x80
  }

  /** On ASCII text bytes and code points coincide, and the two numerators are equal. */
  lemma AsciiNumerators(s: string, isWs: char -> bool)
    requires IsAscii(s)
    ensures |Filter(Py.Kept(s, isWs), Py.IsLong)| == |Filter(Rs.Kept(s, isWs), Rs.IsLong)|
  {
    var pieces := Rs.SplitAt(s, isWs);
    var rk := Rs.Kept(s, isWs);
    Rs.SplitAtChars(s, isWs);
    FilterMembers(pieces, NotStopWord);
    forall p | p in rk
      ensures Py.IsLong(p) <==> Rs.IsLong(p)
    {
      var k :| 0 <= k < |pieces| && pieces[k] == p;
      forall j | 0 <= j < |p|
        ensures p[j] as int < 0x80
      {
        assert pieces[k][j] in s;
      }
    }
    KeptAreNonEmptyKept(s, isWs);
    FilterWeakerFirst(rk, Py.IsLong, NonEmpty);
    FilterAgree(rk, Py.IsLong, Rs.IsLong);
  }

  /** On single-spaced ASCII text the two versions agree: Python raises exactly
      when Rust returns NaN, and otherwise both return the same ratio. */
  lemma AgreeOnSingleSpacedAscii(s: string, isWs: char -> bool)
    requires Rs.SingleSpaced(s, isWs) && IsAscii(s)
    ensures Py.Analyze(s, isWs).ZeroDivisionError? <==> Rs.Analyze(s, isWs).IsNaN()
    ensures Py.Analyze(s, isWs).Returned? ==> Py.Analyze(s, isWs).ratio == Rs.Analyze(s, isWs)
  {
    Rs.EmptyPieceIff(s, isWs);
    Denominators(s, isWs);
    FilterNoneKept(Rs.SplitAt(s, isWs), Rs.IsEmptyPiece);
    AsciiNumerators(s, isWs);
  }
}
