/** The Rust version, `short_long` in short_long/src/lib.rs: the caller's
    bytes are viewed as UTF-8 text, split at every whitespace character,
    the stop-words are dropped, and the pieces longer than 8 bytes are
    counted against all remaining pieces. Whitespace classification
    (`char::is_whitespace`) is the parameter `isWs`. */
module ShortLongRs {
  import opened Utf8
  import opened Seqs
  import opened Analysis

  /** Splitting `[c] + rest`, given the pieces of `rest`: a whitespace `c`
      starts a new (empty) piece, any other `c` joins the first piece. */
  function Prepend(c: char, pieces: seq<string>, isWs: char -> bool): (r: seq<string>)
    requires |pieces| >= 1
    ensures |r| >= 1
  {
    if isWs(c) then [[]] + pieces else [[c] + pieces[0]] + pieces[1..]
  }

  /** `str::split(isWs)`: the text cut at EVERY whitespace character. Adjacent,
      leading or trailing separators leave empty pieces; the empty text is one
      empty piece. */
  function SplitAt(s: string, isWs: char -> bool): (r: seq<string>)
    ensures |r| >= 1
    ensures forall i, j :: 0 <= i < |r| && 0 <= j < |r[i]| ==> !isWs(r[i][j])
    decreases |s|
  {
    if s == [] then [[]] else Prepend(s[0], SplitAt(s[1..], isWs), isWs)
  }

  /** Every character of every piece is a character of the text. */
  lemma {:induction false} SplitAtChars(s: string, isWs: char -> bool)
    ensures forall i, j :: 0 <= i < |SplitAt(s, isWs)| && 0 <= j < |SplitAt(s, isWs)[i]| ==> SplitAt(s, isWs)[i][j] in s
    decreases |s|
  {
    if s != [] {
      SplitAtChars(s[1..], isWs);
      var rest := SplitAt(s[1..], isWs);
      assert forall c :: c in s[1..] ==> c in s;
      if !isWs(s[0]) {
        assert forall j :: 0 < j < |[s[0]] + rest[0]| ==> ([s[0]] + rest[0])[j] == rest[0][j - 1];
      }
    }
  }

  /** `pieces[0] + seps[0] + pieces[1] + ... + seps[n-1] + pieces[n]`. */
  function Interleave(pieces: seq<string>, seps: string): (r: string)
    requires |pieces| == |seps| + 1
    decreases |seps|
  {
    if seps == [] then pieces[0]
    else pieces[0] + [seps[0]] + Interleave(pieces[1..], seps[1..])
  }

  /** There is one more piece than there are whitespace characters, and putting
      the whitespace characters back between the pieces gives the text back. */
  lemma {:induction false} SplitAtInterleave(s: string, isWs: char -> bool)
    ensures |SplitAt(s, isWs)| == |Filter(s, isWs)| + 1
    ensures Interleave(SplitAt(s, isWs), Filter(s, isWs)) == s
    decreases |s|
  {
    if s != [] {
      var t := s[1..];
      var rest := SplitAt(t, isWs);
      var seps := Filter(t, isWs);
      SplitAtInterleave(t, isWs);
      assert s == [s[0]] + t;
      if isWs(s[0]) {
        assert Filter(s, isWs) == [s[0]] + seps;
      } else {
        assert Filter(s, isWs) == seps;
        var pieces := SplitAt(s, isWs);
        assert pieces == [[s[0]] + rest[0]] + rest[1..];
        if seps == [] {
          assert Interleave(rest, seps) == rest[0];
        } else {
          assert Interleave(pieces, seps)
              == ([s[0]] + rest[0]) + [seps[0]] + Interleave(rest[1..], seps[1..]);
          assert Interleave(rest, seps) == rest[0] + [seps[0]] + Interleave(rest[1..], seps[1..]);
        }
      }
    }
  }

  /** The piece lists of `a` and `b` joined the way splitting `a + b` joins
      them: the last piece of `a`'s list and the first of `b`'s become one. */
  function Glue(l: seq<string>, r: seq<string>): (g: seq<string>)
    requires |l| >= 1 && |r| >= 1
    ensures |g| == |l| + |r| - 1
  {
    l[..|l| - 1] + [l[|l| - 1] + r[0]] + r[1..]
  }

  /** Glue written with its right part grouped. */
  lemma GlueGrouped(l: seq<string>, r: seq<string>)
    requires |l| >= 1 && |r| >= 1
    ensures Glue(l, r) == l[..|l| - 1] + ([l[|l| - 1] + r[0]] + r[1..])
  {
  }

  /** Gluing after a new empty first piece keeps that piece in front. */
  lemma GlueOfPrependWs(l: seq<string>, r: seq<string>)
    requires |l| >= 1 && |r| >= 1
    ensures Glue([[]] + l, r) == [[]] + (l[..|l| - 1] + ([l[|l| - 1] + r[0]] + r[1..]))
  {
    var p := [[]] + l;
    assert p[..|p| - 1] == [[]] + l[..|l| - 1];
    assert p[|p| - 1] == l[|l| - 1];
  }

  /** A whitespace character in front starts a new piece before the glued lists. */
  lemma PrependGlueWs(c: char, l: seq<string>, r: seq<string>, isWs: char -> bool)
    requires |l| >= 1 && |r| >= 1 && isWs(c)
    ensures Prepend(c, Glue(l, r), isWs) == Glue(Prepend(c, l, isWs), r)
  {
    GlueGrouped(l, r);
    GlueOfPrependWs(l, r);
  }

  /** Any other character joins the first piece; with a single left piece
      that is the glued one. */
  lemma PrependGlueOne(c: char, l: seq<string>, r: seq<string>, isWs: char -> bool)
    requires |l| == 1 && |r| >= 1 && !isWs(c)
    ensures Prepend(c, Glue(l, r), isWs) == Glue(Prepend(c, l, isWs), r)
  {
    assert Glue(l, r) == [l[0] + r[0]] + r[1..];
    assert Prepend(c, l, isWs) == [[c] + l[0]];
    assert [c] + (l[0] + r[0]) == ([c] + l[0]) + r[0];
  }

  /** Both sides of PrependGlueMany, written out piece by piece. */
  lemma PrependOfGlueMany(c: char, l: seq<string>, r: seq<string>, isWs: char -> bool)
    requires |l| > 1 && |r| >= 1 && !isWs(c)
    ensures Prepend(c, Glue(l, r), isWs)
         == [[c] + l[0]] + (l[1..|l| - 1] + ([l[|l| - 1] + r[0]] + r[1..]))
  {
    var g := Glue(l, r);
    var mid := l[1..|l| - 1];
    var glued := [l[|l| - 1] + r[0]] + r[1..];
    assert g == [l[0]] + mid + glued;
    assert g[0] == l[0] && g[1..] == mid + glued;
  }

  lemma GlueOfPrependMany(c: char, l: seq<string>, r: seq<string>, isWs: char -> bool)
    requires |l| > 1 && |r| >= 1 && !isWs(c)
    ensures Glue(Prepend(c, l, isWs), r)
         == ([[c] + l[0]] + l[1..|l| - 1]) + ([l[|l| - 1] + r[0]] + r[1..])
  {
    var p := Prepend(c, l, isWs);
    assert p == [[c] + l[0]] + l[1..];
    assert p[..|p| - 1] == [[c] + l[0]] + l[1..|l| - 1];
    assert p[|p| - 1] == l[|l| - 1];
  }

  /** With several left pieces the first piece is not the glued one. */
  lemma PrependGlueMany(c: char, l: seq<string>, r: seq<string>, isWs: char -> bool)
    requires |l| > 1 && |r| >= 1 && !isWs(c)
    ensures Prepend(c, Glue(l, r), isWs) == Glue(Prepend(c, l, isWs), r)
  {
    PrependOfGlueMany(c, l, r, isWs);
    GlueOfPrependMany(c, l, r, isWs);
  }

  /** Adding a character at the front commutes with joining at the boundary. */
  lemma PrependGlue(c: char, l: seq<string>, r: seq<string>, isWs: char -> bool)
    requires |l| >= 1 && |r| >= 1
    ensures Prepend(c, Glue(l, r), isWs) == Glue(Prepend(c, l, isWs), r)
  {
    if isWs(c) {
      PrependGlueWs(c, l, r, isWs);
    } else {
      if |l| == 1 {
        PrependGlueOne(c, l, r, isWs);
      } else {
        PrependGlueMany(c, l, r, isWs);
      }
    }
  }

  /** Splitting a concatenation glues the last piece of the left part to the
      first piece of the right part. */
  lemma {:induction false} SplitAtConcat(a: string, b: string, isWs: char -> bool)
    ensures SplitAt(a + b, isWs) == Glue(SplitAt(a, isWs), SplitAt(b, isWs))
    decreases |a|
  {
    if a == [] {
      var r := SplitAt(b, isWs);
      assert a + b == b && SplitAt(a, isWs) == [[]];
      assert Glue([[]], r) == [[] + r[0]] + r[1..];
      assert [] + r[0] == r[0];
      assert [r[0]] + r[1..] == r;
    } else {
      var t := a[1..];
      assert (a + b)[1..] == t + b && (a + b)[0] == a[0];
      SplitAtConcat(t, b, isWs);
      PrependGlue(a[0], SplitAt(t, isWs), SplitAt(b, isWs), isWs);
    }
  }

  /** A text without whitespace is a single piece: itself. */
  lemma {:induction false} SplitAtWord(w: string, isWs: char -> bool)
    requires forall i :: 0 <= i < |w| ==> !isWs(w[i])
    ensures SplitAt(w, isWs) == [w]
    decreases |w|
  {
    if w != [] {
      SplitAtWord(w[1..], isWs);
      assert [w[0]] + w[1..] == w;
    }
  }

  /** Gluing a single piece in front of a list whose first piece is empty. */
  lemma GlueSingle(w: string, r: seq<string>)
    requires |r| >= 1 && r[0] == []
    ensures Glue([w], r) == [w] + r[1..]
  {
    assert [w][..0] == [];
    assert w + r[0] == w;
  }

  /** A leading whitespace character starts with an empty piece. */
  lemma SplitAtWsCons(c: char, rest: string, isWs: char -> bool)
    requires isWs(c)
    ensures SplitAt([c] + rest, isWs) == [[]] + SplitAt(rest, isWs)
  {
    assert ([c] + rest)[1..] == rest;
  }

  /** Empty text, or text starting with whitespace, has an empty first piece. */
  lemma LeadingWsEmptyPiece(s: string, isWs: char -> bool)
    requires s == [] || isWs(s[0])
    ensures SplitAt(s, isWs)[0] == []
  {
  }

  /** A word followed by nothing or by whitespace is a piece of its own, and
      the empty first piece of what follows disappears into it. */
  lemma SplitAtWordThen(w: string, rest: string, isWs: char -> bool)
    requires forall i :: 0 <= i < |w| ==> !isWs(w[i])
    requires rest == [] || isWs(rest[0])
    ensures SplitAt(w + rest, isWs) == [w] + SplitAt(rest, isWs)[1..]
  {
    SplitAtWord(w, isWs);
    SplitAtConcat(w, rest, isWs);
    LeadingWsEmptyPiece(rest, isWs);
    GlueSingle(w, SplitAt(rest, isWs));
  }

  /** Splitting undoes interleaving: pieces without whitespace, joined by
      whitespace characters, split back into exactly those pieces. */
  lemma {:induction false} SplitAtOfInterleave(pieces: seq<string>, seps: string, isWs: char -> bool)
    requires |pieces| == |seps| + 1
    requires forall i, j :: 0 <= i < |pieces| && 0 <= j < |pieces[i]| ==> !isWs(pieces[i][j])
    requires forall i :: 0 <= i < |seps| ==> isWs(seps[i])
    ensures SplitAt(Interleave(pieces, seps), isWs) == pieces
    decreases |seps|
  {
    if seps == [] {
      SplitAtWord(pieces[0], isWs);
    } else {
      var tail, rest := pieces[1..], Interleave(pieces[1..], seps[1..]);
      forall i, j | 0 <= i < |tail| && 0 <= j < |tail[i]|
        ensures !isWs(tail[i][j])
      {
        assert tail[i] == pieces[i + 1];
      }
      SplitAtOfInterleave(tail, seps[1..], isWs);
      assert Interleave(pieces, seps) == pieces[0] + ([seps[0]] + rest);
      SplitAtWordThen(pieces[0], [seps[0]] + rest, isWs);
      SplitAtWsCons(seps[0], rest, isWs);
      assert [pieces[0]] + tail == pieces;
    }
  }

  /** The text is non-empty, starts and ends with a non-whitespace character
      and never has two whitespace characters in a row. */
  predicate SingleSpaced(s: string, isWs: char -> bool) {
    && |s| > 0
    && !isWs(s[0])
    && !isWs(s[|s| - 1])
    && forall i :: 0 <= i < |s| - 1 ==> !(isWs(s[i]) && isWs(s[i + 1]))
  }

  /** A single-spaced text splits into non-empty pieces only. */
  lemma {:induction false} SingleSpacedHasNoEmptyPiece(s: string, isWs: char -> bool)
    requires SingleSpaced(s, isWs)
    ensures forall k :: 0 <= k < |SplitAt(s, isWs)| ==> SplitAt(s, isWs)[k] != []
    decreases |s|
  {
    var t := s[1..];
    var rest := SplitAt(t, isWs);
    assert SplitAt(s, isWs) == [[s[0]] + rest[0]] + rest[1..];
    if t == [] {
      assert rest == [[]];
    } else if !isWs(t[0]) {
      forall i | 0 <= i < |t| - 1
        ensures !(isWs(t[i]) && isWs(t[i + 1]))
      {
        assert t[i] == s[i + 1] && t[i + 1] == s[i + 2];
      }
      SingleSpacedHasNoEmptyPiece(t, isWs);
    } else {
      var u := t[1..];
      assert u == s[2..];
      assert rest == [[]] + SplitAt(u, isWs);
      forall i | 0 <= i < |u| - 1
        ensures !(isWs(u[i]) && isWs(u[i + 1]))
      {
        assert u[i] == s[i + 2] && u[i + 1] == s[i + 3];
      }
      SingleSpacedHasNoEmptyPiece(u, isWs);
    }
  }

  /** A whitespace character at the end leaves an empty last piece. */
  lemma TrailingWsEmptyPiece(s: string, isWs: char -> bool)
    requires |s| > 0 && isWs(s[|s| - 1])
    ensures SplitAt(s, isWs)[|SplitAt(s, isWs)| - 1] == []
  {
    var a, w := s[..|s| - 1], [s[|s| - 1]];
    SplitAtConcat(a, w, isWs);
    assert a + w == s;
    assert SplitAt(w, isWs) == [[]] + SplitAt([], isWs);
  }

  /** Text starting with two whitespace characters has an empty second piece. */
  lemma LeadingWsWsEmptyPiece(b: string, isWs: char -> bool)
    requires |b| >= 2 && isWs(b[0]) && isWs(b[1])
    ensures |SplitAt(b, isWs)| >= 2 && SplitAt(b, isWs)[1] == []
  {
    var t := b[1..];
    assert t[0] == b[1];
    assert SplitAt(t, isWs) == [[]] + SplitAt(t[1..], isWs);
  }

  /** Gluing keeps the right list's second piece, right after the left list's pieces. */
  lemma GlueKeepsSecond(l: seq<string>, r: seq<string>)
    requires |l| >= 1 && |r| >= 2
    ensures Glue(l, r)[|l|] == r[1]
  {
  }

  /** Two whitespace characters in a row leave an empty piece between them. */
  lemma DoubledWsEmptyPiece(s: string, i: nat, isWs: char -> bool)
    requires i + 1 < |s| && isWs(s[i]) && isWs(s[i + 1])
    ensures [] in SplitAt(s, isWs)
  {
    var a, b := s[..i], s[i..];
    assert a + b == s;
    SplitAtConcat(a, b, isWs);
    LeadingWsWsEmptyPiece(b, isWs);
    GlueKeepsSecond(SplitAt(a, isWs), SplitAt(b, isWs));
  }

  /** Empty pieces appear exactly when the text is empty or has a leading, a
      trailing or a doubled whitespace character. */
  lemma EmptyPieceIff(s: string, isWs: char -> bool)
    ensures [] in SplitAt(s, isWs) <==> !SingleSpaced(s, isWs)
  {
    var pieces := SplitAt(s, isWs);
    if SingleSpaced(s, isWs) {
      SingleSpacedHasNoEmptyPiece(s, isWs);
    } else if s == [] || isWs(s[0]) {
      assert pieces[0] == [];
    } else if isWs(s[|s| - 1]) {
      TrailingWsEmptyPiece(s, isWs);
      assert pieces[|pieces| - 1] in pieces;
    } else {
      var i :| 0 <= i < |s| - 1 && isWs(s[i]) && isWs(s[i + 1]);
      DoubledWsEmptyPiece(s, i, isWs);
    }
  }

  /** The pieces `filter(|&s| s != "the" && s != "a").collect()` keeps. */
  function Kept(text: string, isWs: char -> bool): (r: seq<string>)
    ensures |r| <= |SplitAt(text, isWs)|
    ensures forall i :: 0 <= i < |r| ==> NotStopWord(r[i])
  {
    Filter(SplitAt(text, isWs), NotStopWord)
  }

  /** A piece is kept exactly when it is one of the text's pieces and not a
      stop-word. */
  lemma KeptMembers(text: string, isWs: char -> bool)
    ensures forall p :: p in Kept(text, isWs) <==> p in SplitAt(text, isWs) && NotStopWord(p)
  {
    FilterMembers(SplitAt(text, isWs), NotStopWord);
  }

  /** Rust's test `i.len() > 8`: the piece's UTF-8 length in bytes. */
  predicate IsLong(piece: string)
    ensures |piece| > Threshold ==> IsLong(piece)
    ensures IsLong(piece) ==> 4 * |piece| > Threshold && NotStopWord(piece)
  {
    ByteLen(piece) > Threshold
  }

  predicate IsEmptyPiece(piece: string) {
    piece == []
  }

  /** The number of long pieces. */
  function LongCount(pieces: seq<string>): (n: nat)
    ensures n <= |pieces|
  {
    |Filter(pieces, IsLong)|
  }

  /** The exact result of `short_long` on a text. */
  function Analyze(text: string, isWs: char -> bool): (r: Ratio)
    ensures r.num <= r.den
    ensures r.den == 0 ==> r.IsNaN()
  {
    var pieces := Kept(text, isWs);
    Ratio(LongCount(pieces), |pieces|)
  }

  /** `short_long(ptr, len)`: the caller promises that the buffer is valid
      UTF-8 (`from_utf8_unchecked`); the buffer is a value and is only read. */
  method ShortLong(buf: seq<Byte>, isWs: char -> bool) returns (r: Ratio)
    requires Decode(buf).Some?
    ensures r == Analyze(Decode(buf).value, isWs)
    ensures r.den == |Kept(Decode(buf).value, isWs)|
    ensures r.num == |Filter(Kept(Decode(buf).value, isWs), IsLong)|
    ensures r.num <= r.den
    ensures r.den == 0 ==> r.IsNaN()
    ensures r.den > 0 ==> 0.0 <= r.Value() <= 1.0
  {
    var text := Decode(buf).value;
    var split := Filter(SplitAt(text, isWs), NotStopWord);
    var l := 0;
    for k := 0 to |split|
      invariant l == |Filter(split[..k], IsLong)|
      invariant 0 <= l <= k
    {
      assert split[..k + 1] == split[..k] + [split[k]];
      FilterSnoc(split[..k], split[k], IsLong);
      if ByteLen(split[k]) > 8 {
        l := l + 1;
      }
    }
    assert split[..|split|] == split;
    r := Ratio(l, |split|);
  }

  /** The result is NaN exactly when every piece is a stop-word (for example
      "the" or "a the"); no error is raised. */
  lemma NaNIffAllStopWords(text: string, isWs: char -> bool)
    ensures Analyze(text, isWs).IsNaN() <==> forall p :: p in SplitAt(text, isWs) ==> !NotStopWord(p)
  {
    var pieces := SplitAt(text, isWs);
    FilterMembers(pieces, NotStopWord);
    if !Analyze(text, isWs).IsNaN() {
      assert Kept(text, isWs) != [];
      assert Kept(text, isWs)[0] in pieces;
    }
  }

  /** The empty text is one empty piece, which is not a stop-word: 0/1. */
  lemma EmptyTextIsZeroOverOne(isWs: char -> bool)
    ensures Analyze([], isWs) == Ratio(0, 1)
  {
    assert Filter([[]], NotStopWord) == [[]];
    assert Filter([[]], IsLong) == [];
  }

  /** Empty pieces are never dropped as stop-words: every one of them counts in
      the denominator. */
  lemma EmptyPiecesKept(text: string, isWs: char -> bool)
    ensures Filter(Kept(text, isWs), IsEmptyPiece) == Filter(SplitAt(text, isWs), IsEmptyPiece)
  {
    FilterCommute(SplitAt(text, isWs), NotStopWord, IsEmptyPiece);
    FilterWeakerFirst(SplitAt(text, isWs), IsEmptyPiece, NotStopWord);
  }
}
