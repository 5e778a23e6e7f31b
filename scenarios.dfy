/** Worked inputs for both versions under the ASCII whitespace characters.
    Each sample text is a parameter fixed by the precondition. */
module Scenarios {
  import opened Utf8
  import opened Seqs
  import opened Analysis
  import Rs = ShortLongRs
  import Py = ShortLongPy
  import Compare

  /** Space, tab, line feed and carriage return: whitespace for both
      `char::is_whitespace` and `str.split()`. */
  predicate AsciiWs(c: char) {
    c == ' ' || c == '\t' || c == '\n' || c == '\r'
  }

  /** Rust's pieces of "a  the   test": each extra space leaves an empty piece. */
  lemma SpaceRunsSplit(text: string)
    requires text == "a  the   test"
    ensures Rs.SplitAt(text, AsciiWs) == ["a", "", "the", "", "", "test"]
  {
    var pieces := ["a", "", "the", "", "", "test"];
    assert Rs.Interleave(pieces, "     ") == text;
    Rs.SplitAtOfInterleave(pieces, "     ", AsciiWs);
  }

  /** The stop-word filter on those pieces: the three empty pieces stay. */
  lemma SpaceRunsStopWords()
    ensures Filter(["a", "", "the", "", "", "test"], NotStopWord) == ["", "", "", "test"]
  {
    FilterCons("test", [], NotStopWord);
    FilterCons("", ["test"], NotStopWord);
    FilterCons("", ["", "test"], NotStopWord);
    FilterCons("the", ["", "", "test"], NotStopWord);
    FilterCons("", ["the", "", "", "test"], NotStopWord);
    FilterCons("a", ["", "the", "", "", "test"], NotStopWord);
  }

  /** The stop-words go; the three empty pieces stay. */
  lemma SpaceRunsPieces(text: string)
    requires text == "a  the   test"
    ensures Rs.Kept(text, AsciiWs) == ["", "", "", "test"]
  {
    SpaceRunsSplit(text);
    SpaceRunsStopWords();
  }

  /** Python's kept tokens of "a  the   test": only "test". */
  lemma SpaceRunsPyKept(text: string)
    requires text == "a  the   test"
    ensures Py.Kept(text, AsciiWs) == ["test"]
  {
    SpaceRunsPieces(text);
    FilterCons("test", [], Compare.NonEmpty);
    FilterCons("", ["test"], Compare.NonEmpty);
    FilterCons("", ["", "test"], Compare.NonEmpty);
    FilterCons("", ["", "", "test"], Compare.NonEmpty);
    Compare.KeptAreNonEmptyKept(text, AsciiWs);
  }

  /** No kept piece of "a  the   test" is longer than 8 bytes. */
  lemma SpaceRunsNoneLongRs()
    ensures Filter(["", "", "", "test"], Rs.IsLong) == []
  {
    assert ByteLen("") == 0 && ByteLen("test") == 4;
    FilterCons("test", [], Rs.IsLong);
    FilterCons("", ["test"], Rs.IsLong);
    FilterCons("", ["", "test"], Rs.IsLong);
    FilterCons("", ["", "", "test"], Rs.IsLong);
  }

  /** "test" is not longer than 8 code points. */
  lemma SpaceRunsNoneLongPy()
    ensures Filter(["test"], Py.IsLong) == []
  {
    FilterCons("test", [], Py.IsLong);
  }

  /** Runs of spaces: Rust keeps the three empty pieces in its denominator
      (0/4), Python sees the single token "test" (0/1). */
  lemma SpaceRuns(text: string)
    requires text == "a  the   test"
    ensures Rs.Analyze(text, AsciiWs) == Ratio(0, 4)
    ensures Py.Analyze(text, AsciiWs) == Py.Returned(Ratio(0, 1))
  {
    SpaceRunsPieces(text);
    SpaceRunsPyKept(text);
    SpaceRunsNoneLongRs();
    SpaceRunsNoneLongPy();
  }

  /** Rust's pieces of a single-spaced sentence, and the three that survive
      the stop-word filter. */
  lemma SentenceSplit(text: string)
    requires text == "a fox outjumped the dog"
    ensures Rs.SplitAt(text, AsciiWs) == ["a", "fox", "outjumped", "the", "dog"]
  {
    var pieces := ["a", "fox", "outjumped", "the", "dog"];
    assert Rs.Interleave(pieces, "    ") == text;
    Rs.SplitAtOfInterleave(pieces, "    ", AsciiWs);
  }

  lemma SentencePieces(text: string)
    requires text == "a fox outjumped the dog"
    ensures Rs.Kept(text, AsciiWs) == ["fox", "outjumped", "dog"]
  {
    SentenceSplit(text);
    FilterCons("dog", [], NotStopWord);
    FilterCons("the", ["dog"], NotStopWord);
    FilterCons("outjumped", ["the", "dog"], NotStopWord);
    FilterCons("fox", ["outjumped", "the", "dog"], NotStopWord);
    FilterCons("a", ["fox", "outjumped", "the", "dog"], NotStopWord);
  }

  /** Python's kept tokens of the sentence: the same three, as it has no
      empty piece. */
  lemma SentencePyKept(text: string)
    requires text == "a fox outjumped the dog"
    ensures Py.Kept(text, AsciiWs) == ["fox", "outjumped", "dog"]
  {
    SentencePieces(text);
    FilterCons("dog", [], Compare.NonEmpty);
    FilterCons("outjumped", ["dog"], Compare.NonEmpty);
    FilterCons("fox", ["outjumped", "dog"], Compare.NonEmpty);
    Compare.KeptAreNonEmptyKept(text, AsciiWs);
  }

  /** Of the kept words only "outjumped" has more than 8 bytes. */
  lemma SentenceLongRs()
    ensures Filter(["fox", "outjumped", "dog"], Rs.IsLong) == ["outjumped"]
  {
    assert ByteLen("outjumped") == 9 && ByteLen("fox") == 3 && ByteLen("dog") == 3;
    FilterCons("dog", [], Rs.IsLong);
    FilterCons("outjumped", ["dog"], Rs.IsLong);
    FilterCons("fox", ["outjumped", "dog"], Rs.IsLong);
  }

  /** Of the kept words only "outjumped" has more than 8 code points. */
  lemma SentenceLongPy()
    ensures Filter(["fox", "outjumped", "dog"], Py.IsLong) == ["outjumped"]
  {
    FilterCons("dog", [], Py.IsLong);
    FilterCons("outjumped", ["dog"], Py.IsLong);
    FilterCons("fox", ["outjumped", "dog"], Py.IsLong);
  }

  /** Single-spaced ASCII words: both versions give 1/3, only "outjumped"
      being longer than 8. */
  lemma OneLongWordInThree(text: string)
    requires text == "a fox outjumped the dog"
    ensures Rs.Analyze(text, AsciiWs) == Ratio(1, 3)
    ensures Py.Analyze(text, AsciiWs) == Py.Returned(Ratio(1, 3))
  {
    SentencePieces(text);
    SentencePyKept(text);
    SentenceLongRs();
    SentenceLongPy();
  }

  /** Only stop-words: Rust divides 0 by 0 (NaN) without complaint, Python
      raises ZeroDivisionError. */
  lemma OnlyStopWords(text: string)
    requires text == "a the"
    ensures Rs.Analyze(text, AsciiWs).IsNaN()
    ensures Py.Analyze(text, AsciiWs) == Py.ZeroDivisionError
  {
    assert Rs.Interleave(["a", "the"], " ") == text;
    Rs.SplitAtOfInterleave(["a", "the"], " ", AsciiWs);
    FilterCons("the", [], NotStopWord);
    FilterCons("a", ["the"], NotStopWord);
    Compare.KeptAreNonEmptyKept(text, AsciiWs);
  }

  /** The empty text: one empty piece for Rust (0/1), no token for Python. */
  lemma EmptyText(text: string)
    requires text == ""
    ensures Rs.Analyze(text, AsciiWs) == Ratio(0, 1)
    ensures Py.Analyze(text, AsciiWs) == Py.ZeroDivisionError
  {
    Rs.EmptyTextIsZeroOverOne(AsciiWs);
  }

  /** A stop-word followed by a line feed: the trailing empty piece is kept,
      so Rust gives 0/1 rather than NaN, while Python still raises. */
  lemma TrailingNewline(text: string)
    requires text == "the\n"
    ensures Rs.Analyze(text, AsciiWs) == Ratio(0, 1)
    ensures Py.Analyze(text, AsciiWs) == Py.ZeroDivisionError
  {
    assert Rs.Interleave(["the", ""], "\n") == text;
    Rs.SplitAtOfInterleave(["the", ""], "\n", AsciiWs);
    FilterCons("", [], NotStopWord);
    FilterCons("the", [""], NotStopWord);
    FilterCons("", [], Rs.IsLong);
    FilterCons("", [], Compare.NonEmpty);
    Compare.KeptAreNonEmptyKept(text, AsciiWs);
  }

  /** A single word with no whitespace is kept whole by both versions. */
  lemma WordKept(text: string)
    requires text == "ééééé"
    ensures Rs.Kept(text, AsciiWs) == [text]
    ensures Py.Kept(text, AsciiWs) == [text]
  {
    Rs.SplitAtWord(text, AsciiWs);
    FilterCons(text, [], NotStopWord);
    FilterCons(text, [], Compare.NonEmpty);
    Compare.KeptAreNonEmptyKept(text, AsciiWs);
  }

  /** Five two-byte characters are ten bytes: long for Rust (1/1), short for
      Python (0/1). */
  lemma BytesVersusCodePoints(text: string)
    requires text == "ééééé"
    ensures Rs.Analyze(text, AsciiWs) == Ratio(1, 1)
    ensures Py.Analyze(text, AsciiWs) == Py.Returned(Ratio(0, 1))
  {
    WordKept(text);
    assert ByteLen("ééééé") == 10;
    FilterCons(text, [], Rs.IsLong);
    FilterCons(text, [], Py.IsLong);
  }
}
