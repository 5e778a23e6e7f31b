/** The Python version, `shortLong` in inPython.py: `str.split()` with no
    argument, the stop-word comprehension, a counting loop over code-point
    lengths and a true division that raises on an empty token list.
    Whitespace classification (`str.isspace`) is the parameter `isWs`. */
module ShortLongPy {
  import opened Seqs
  import opened Analysis

  /** The number of non-whitespace characters at the front of `s`. */
  function WordRun(s: string, isWs: char -> bool): (n: nat)
    ensures n <= |s|
    ensures forall i :: 0 <= i < n ==> !isWs(s[i])
    ensures n < |s| ==> isWs(s[n])
  {
    if s == [] || isWs(s[0]) then 0 else 1 + WordRun(s[1..], isWs)
  }

  /** `str.split()`: whitespace is skipped, and at any other character the
      maximal run of non-whitespace characters starting there becomes a token.
      Whitespace runs of any length count as one separator, and leading or
      trailing whitespace yields nothing. */
  function Tokens(s: string, isWs: char -> bool): (r: seq<string>)
    ensures forall k :: 0 <= k < |r| ==> r[k] != []
    ensures forall k, j :: 0 <= k < |r| && 0 <= j < |r[k]| ==> !isWs(r[k][j])
    decreases |s|
  {
    if s == [] then []
    else if isWs(s[0]) then Tokens(s[1..], isWs)
    else
      var n := WordRun(s, isWs);
      [s[..n]] + Tokens(s[n..], isWs)
  }

  /** There is no token exactly when every character is whitespace (the empty
      text included). */
  lemma {:induction false} NoTokensIff(s: string, isWs: char -> bool)
    ensures Tokens(s, isWs) == [] <==> forall i :: 0 <= i < |s| ==> isWs(s[i])
    decreases |s|
  {
    if s != [] && isWs(s[0]) {
      NoTokensIff(s[1..], isWs);
      assert forall i :: 0 < i < |s| ==> s[i] == s[1..][i - 1];
    }
  }

  /** The list the comprehension `[i for i in split if (i != "the") & (i != "a")]` builds. */
  function Kept(text: string, isWs: char -> bool): (r: seq<string>)
    ensures |r| <= |Tokens(text, isWs)|
    ensures forall i :: 0 <= i < |r| ==> r[i] != [] && NotStopWord(r[i])
  {
    FilterMembers(Tokens(text, isWs), NotStopWord);
    Filter(Tokens(text, isWs), NotStopWord)
  }

  /** A token is kept exactly when it is one of the text's tokens and not a
      stop-word. */
  lemma KeptMembers(text: string, isWs: char -> bool)
    ensures forall t :: t in Kept(text, isWs) <==> t in Tokens(text, isWs) && NotStopWord(t)
  {
    FilterMembers(Tokens(text, isWs), NotStopWord);
  }

  /** Python's test `len(i) > 8`: the token's length in code points. */
  predicate IsLong(token: string)
    ensures IsLong(token) ==> token != [] && NotStopWord(token)
  {
    |token| > Threshold
  }

  /** What a call of `shortLong` ends with: a value, or the exception raised
      by `l / len(split)` when the list is empty. */
  datatype Outcome = Returned(ratio: Ratio) | ZeroDivisionError

  /** The exact outcome of `shortLong` on a text. */
  function Analyze(text: string, isWs: char -> bool): (r: Outcome)
    ensures r.Returned? ==> 0 < r.ratio.den && r.ratio.num <= r.ratio.den
  {
    var tokens := Kept(text, isWs);
    if tokens == [] then ZeroDivisionError
    else Returned(Ratio(|Filter(tokens, IsLong)|, |tokens|))
  }

  /** `shortLong(string)`. */
  method ShortLong(text: string, isWs: char -> bool) returns (r: Outcome)
    ensures r == Analyze(text, isWs)
    ensures r.ZeroDivisionError? <==> Kept(text, isWs) == []
    ensures r.Returned? ==> r.ratio.den == |Kept(text, isWs)|
    ensures r.Returned? ==> r.ratio.num == |Filter(Kept(text, isWs), IsLong)|
    ensures r.Returned? ==> 0.0 <= r.ratio.Value() <= 1.0
  {
    var split := Tokens(text, isWs);
    split := Filter(split, NotStopWord);
    var l := 0;
    for k := 0 to |split|
      invariant l == |Filter(split[..k], IsLong)|
      invariant 0 <= l <= k
    {
      assert split[..k + 1] == split[..k] + [split[k]];
      FilterSnoc(split[..k], split[k], IsLong);
      if |split[k]| > 8 {
        l := l + 1;
      }
    }
    assert split[..|split|] == split;
    if |split| == 0 {
      r := ZeroDivisionError;
    } else {
      r := Returned(Ratio(l, |split|));
    }
  }

  /** The division raises exactly when every token is a stop-word; in
      particular on empty or all-whitespace text. */
  lemma ZeroDivisionIff(text: string, isWs: char -> bool)
    ensures Analyze(text, isWs).ZeroDivisionError? <==> forall t :: t in Tokens(text, isWs) ==> !NotStopWord(t)
    ensures (forall i :: 0 <= i < |text| ==> isWs(text[i])) ==> Analyze(text, isWs).ZeroDivisionError?
  {
    NoTokensIff(text, isWs);
    FilterMembers(Tokens(text, isWs), NotStopWord);
    if Kept(text, isWs) != [] {
      assert Kept(text, isWs)[0] in Tokens(text, isWs);
    }
  }
}
