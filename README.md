# short_long: the long-word ratio, in Rust and in Python

The repository computes one number from a text: the share of its words that
are longer than 8, after the stop-words "the" and "a" have been dropped. It
does this twice. `short_long` in Rust receives a pointer and a length and
returns an `f64`. `shortLong` in Python receives a `str` and returns a
float.

This project models both functions and proves what each one computes. It
also proves how the two relate when they share one whitespace
classification:

- Rust's `split(char::is_whitespace)` keeps an empty piece for every extra
  whitespace character and for leading or trailing whitespace. Python's
  `split()` drops all of them.
- Python's token list is exactly Rust's piece list with the empty pieces
  removed (`Compare.TokensAreNonEmptyPieces`). Removing empty pieces
  commutes with the stop-word filter (`Compare.KeptAreNonEmptyKept`).
- So Rust's denominator exceeds Python's by the number of empty pieces
  (`Compare.Denominators`).
- Rust measures length in UTF-8 bytes and Python in code points, so Rust
  never counts fewer long words (`Compare.Numerators`).
- On ASCII text with single whitespace between words and none at either
  end, the two agree exactly (`Compare.AgreeOnSingleSpacedAscii`).
- When every piece is a stop-word (so the text has no leading, trailing or
  doubled whitespace), Rust returns NaN (0/0) but Python raises
  `ZeroDivisionError` (`ShortLongRs.NaNIffAllStopWords`). Any empty piece
  is kept, because it is not a stop-word. So a trailing newline turns Rust's
  NaN into 0/1: on `"the\n"` Rust returns 0/1 while Python still raises
  (`Scenarios.TrailingNewline`). The empty text is one empty piece, so Rust
  returns 0/1 there too.

Modules:

- `Utf8` holds the byte encoding that Rust's `str::len` measures and
  `from_utf8_unchecked` trusts. It includes decoding with both round trips.
- `Seqs` holds order-preserving filtering, which is
  `filter(..).collect()` in Rust and a comprehension with `if` in Python.
- `Analysis` holds the shared stop-word test, the threshold and the exact
  result `Ratio(num, den)`. A zero denominator stands for the float
  division by zero.
- `ShortLongRs` holds the Rust function.
- `ShortLongPy` holds the Python function.
- `Compare` relates the Rust and Python functions.
- `Scenarios` holds worked inputs under the ASCII whitespace characters.

The whitespace classification is a parameter `isWs: char -> bool` of every
splitting function. Both `char::is_whitespace` and `str.isspace` are
fixed Unicode tables, and the model leaves them unspecified:

- `ShortLongRs` and `ShortLongPy` hold for any classification.
- `Compare` holds for any classification that both versions share. The real
  Rust and Python tables differ slightly (see "Left out").
- `Scenarios` fix the classification to space, tab, line feed and carriage
  return, which both tables count as whitespace.

A whitespace run is not always a single delimiter:

- Python's `split()` treats a run of whitespace as one delimiter, so it
  never produces an empty token.
- Rust's `split(char::is_whitespace)` (short_long/src/lib.rs:8) cuts at
  every whitespace character. It produces an empty piece for each extra
  whitespace character and counts those pieces in its denominator.
- The model follows each version's code. `Scenarios.SpaceRuns` shows the
  difference on `"a  the   test"`: Rust gives 0/4 and Python gives 0/1.

## Model

| member | source | states |
|---|---|---|
| Utf8.Utf8Len | short_long/src/lib.rs:11 | a character takes 1 to 4 bytes, and exactly 1 when it is ASCII |
| Utf8.EncodeChar | short_long/src/lib.rs:7 | the encoding of a character has Utf8Len bytes: the ASCII value itself, or a lead byte followed by continuation bytes |
| Utf8.ByteLen | short_long/src/lib.rs:11 | `str::len` is between one and four times the character count, and equals it exactly when the text is ASCII |
| Utf8.Decode | short_long/src/lib.rs:7 | the check `from_utf8_unchecked` leaves to its caller: a decoded text has at most as many characters as the buffer has bytes, and is empty exactly when the buffer is |
| Utf8.DecodeFirst | short_long/src/lib.rs:7 | an accepted leading scalar value uses between 1 and the remaining bytes, exactly as many as its encoding needs |
| Utf8.DecodeFirstOfEncodeChar | short_long/src/lib.rs:7 | decoding the front of any buffer that starts with a character's encoding yields that character and its length |
| Utf8.EncodeCharOfDecodeFirst | short_long/src/lib.rs:7 | the bytes DecodeFirst accepts are exactly the encoding of the character it returns |
| Utf8.DecodeEncode | short_long/src/lib.rs:6-7 | every text survives encoding followed by decoding |
| Utf8.EncodeDecode | short_long/src/lib.rs:6-7 | every valid buffer is the encoding of the text it decodes to, so the model loses no input |
| Utf8.EncodeLength | short_long/src/lib.rs:11 | ByteLen is the length of the encoding |
| Seqs.Filter | short_long/src/lib.rs:8 | the filtered list is no longer than the input, and every element in it satisfies the condition |
| Seqs.FilterMembers | inPython.py:4 | an element is kept if and only if it occurs in the input and satisfies the condition |
| Seqs.FilterConcat | short_long/src/lib.rs:8 | filtering a concatenation is the concatenation of the filtered parts, so order is kept |
| Seqs.FilterSnoc | short_long/src/lib.rs:10-14 | appending one element extends the filtered list exactly when that element satisfies the condition |
| Seqs.FilterCommute | short_long/src/lib.rs:8 | two filters give the same list in either order |
| Seqs.FilterWeakerFirst | short_long/src/lib.rs:8 | filtering first by a condition implied by the second changes nothing |
| Seqs.FilterCountMono | short_long/src/lib.rs:11 | a weaker condition keeps at least as many elements |
| Seqs.FilterAgree | short_long/src/lib.rs:11 | conditions that agree on every element keep the same list |
| Seqs.FilterNoneKept | short_long/src/lib.rs:8 | a list none of whose elements passes filters to the empty list |
| Seqs.FilterSplitCount | short_long/src/lib.rs:8 | a condition and its complement split the list's length between them |
| Analysis.NotStopWord | short_long/src/lib.rs:8 | the stop-word test `s != "the" && s != "a"`: every stop-word has one to three characters, so empty and long words always pass |
| Analysis.Ratio.Value | short_long/src/lib.rs:15 | with a non-zero denominator the value times the denominator is the numerator, and lies in [0, 1] when num <= den |
| ShortLongRs.Prepend | short_long/src/lib.rs:8 | adding a character at the front keeps at least one piece |
| ShortLongRs.SplitAt | short_long/src/lib.rs:8 | `split(char::is_whitespace)` yields at least one piece, and no piece contains whitespace |
| ShortLongRs.SplitAtChars | short_long/src/lib.rs:8 | every character of every piece occurs in the text |
| ShortLongRs.SplitAtInterleave | short_long/src/lib.rs:8 | there is one more piece than whitespace characters, and putting the whitespace characters back between the pieces restores the text |
| ShortLongRs.Glue | short_long/src/lib.rs:8 | joining two piece lists at their boundary leaves one piece fewer than they hold together |
| ShortLongRs.PrependGlue | short_long/src/lib.rs:8 | adding a character at the front commutes with joining at the boundary |
| ShortLongRs.SplitAtConcat | short_long/src/lib.rs:8 | the pieces of a concatenation are the pieces of both halves with the last and first piece joined |
| ShortLongRs.SplitAtWord | short_long/src/lib.rs:8 | a text without whitespace is a single piece |
| ShortLongRs.SplitAtWsCons | short_long/src/lib.rs:8 | a leading whitespace character gives an empty first piece before the pieces of the rest |
| ShortLongRs.LeadingWsEmptyPiece | short_long/src/lib.rs:8 | empty text, or text starting with whitespace, has an empty first piece |
| ShortLongRs.SplitAtWordThen | short_long/src/lib.rs:8 | a word followed by nothing or by whitespace becomes a piece of its own |
| ShortLongRs.SplitAtOfInterleave | short_long/src/lib.rs:8 | splitting pieces without whitespace, joined by whitespace characters, gives those pieces back |
| ShortLongRs.SingleSpacedHasNoEmptyPiece | short_long/src/lib.rs:8 | single-spaced text has no empty piece |
| ShortLongRs.TrailingWsEmptyPiece | short_long/src/lib.rs:8 | trailing whitespace leaves an empty last piece |
| ShortLongRs.DoubledWsEmptyPiece | short_long/src/lib.rs:8 | two adjacent whitespace characters leave an empty piece |
| ShortLongRs.EmptyPieceIff | short_long/src/lib.rs:8 | an empty piece occurs if and only if the text is empty, starts or ends with whitespace, or has two adjacent whitespace characters |
| ShortLongRs.Kept | short_long/src/lib.rs:8 | `filter(..).collect()` keeps no more than the pieces, and none it keeps is a stop-word |
| ShortLongRs.KeptMembers | short_long/src/lib.rs:8 | a piece is kept if and only if it is a piece of the text and not a stop-word |
| ShortLongRs.IsLong | short_long/src/lib.rs:11 | `i.len() > 8` in bytes: every piece of more than 8 characters is long, and a long piece is not a stop-word and has more than 2 characters, because 4 bytes per character is the most UTF-8 uses |
| ShortLongRs.LongCount | short_long/src/lib.rs:9-14 | the number of long pieces never exceeds the number of pieces |
| ShortLongRs.Analyze | short_long/src/lib.rs:4-16 | the numerator never exceeds the denominator, and a zero denominator means NaN |
| ShortLongRs.ShortLong | short_long/src/lib.rs:4-16 | for a valid UTF-8 buffer the loop counts the kept pieces longer than 8 bytes over all kept pieces, which is exactly `Analyze` of the decoded text; the result lies in [0, 1], or is NaN when nothing is kept |
| ShortLongRs.NaNIffAllStopWords | short_long/src/lib.rs:8-15 | the result is NaN if and only if every piece is "the" or "a" |
| ShortLongRs.EmptyTextIsZeroOverOne | short_long/src/lib.rs:8-15 | the empty text gives 0/1, not NaN |
| ShortLongRs.EmptyPiecesKept | short_long/src/lib.rs:8 | the stop-word filter keeps every empty piece |
| ShortLongPy.WordRun | inPython.py:3 | the length of the leading run of non-whitespace characters, which ends at whitespace or at the end of the text |
| ShortLongPy.Tokens | inPython.py:3 | `str.split()` yields only non-empty tokens without whitespace |
| ShortLongPy.NoTokensIff | inPython.py:3 | there is no token if and only if the text is all whitespace, the empty text included |
| ShortLongPy.Kept | inPython.py:4 | the comprehension keeps no more than the tokens, and every kept token is non-empty and not a stop-word |
| ShortLongPy.KeptMembers | inPython.py:4 | a token is kept if and only if it is a token of the text and not a stop-word |
| ShortLongPy.IsLong | inPython.py:7 | `len(i) > 8` in code points: a long token is non-empty and not a stop-word |
| ShortLongPy.Outcome | inPython.py:9 | `l / len(split)` either returns a ratio or raises `ZeroDivisionError` |
| ShortLongPy.Analyze | inPython.py:2-9 | a returned ratio has a positive denominator and a numerator no larger |
| ShortLongPy.ShortLong | inPython.py:2-9 | the outcome is exactly `Analyze` of the text: it raises ZeroDivisionError if and only if no token is kept, and otherwise returns the tokens longer than 8 code points over the kept tokens, in [0, 1] |
| ShortLongPy.ZeroDivisionIff | inPython.py:3-9 | the division raises if and only if every token is a stop-word, and always on all-whitespace text |
| Compare.FirstPieceEmpty | short_long/src/lib.rs:8 | empty text or text starting with whitespace has an empty first piece |
| Compare.WordThenRest | inPython.py:3 | a word followed by nothing or by whitespace contributes exactly itself to the non-empty pieces |
| Compare.TokensAreNonEmptyPieces | inPython.py:3 | Python's tokens are Rust's pieces without the empty ones, in order |
| Compare.KeptAreNonEmptyKept | inPython.py:3-4 | Python's kept tokens are Rust's kept pieces without the empty ones |
| Compare.Denominators | short_long/src/lib.rs:8-15 | Rust's denominator is Python's plus the number of empty pieces |
| Compare.Numerators | short_long/src/lib.rs:9-14 | Python never counts more long words than Rust |
| Compare.AsciiNumerators | short_long/src/lib.rs:11 | on ASCII text the two counts of long words are equal |
| Compare.AgreeOnSingleSpacedAscii | inPython.py:2-9 | on single-spaced ASCII text, Python raises if and only if Rust returns NaN, and otherwise both give the same ratio |
| Scenarios.SpaceRunsSplit | short_long/src/lib.rs:8 | "a  the   test" splits into six pieces, three of them empty |
| Scenarios.SpaceRunsPieces | short_long/src/lib.rs:8 | of those, the three empty pieces and "test" are kept |
| Scenarios.SpaceRunsPyKept | inPython.py:3-4 | Python keeps only "test" |
| Scenarios.SpaceRunsStopWords | short_long/src/lib.rs:8 | the stop-word filter on those six pieces keeps the three empty pieces and "test" |
| Scenarios.SpaceRunsNoneLongRs | short_long/src/lib.rs:11 | none of the kept pieces is longer than 8 bytes |
| Scenarios.SpaceRunsNoneLongPy | inPython.py:7 | "test" is not longer than 8 code points |
| Scenarios.SpaceRuns | short_long/src/lib.rs:8-15 | on "a  the   test" Rust gives 0/4 and Python 0/1 |
| Scenarios.SentenceSplit | short_long/src/lib.rs:8 | "a fox outjumped the dog" splits into its five words |
| Scenarios.SentencePieces | short_long/src/lib.rs:8 | "fox", "outjumped" and "dog" are kept |
| Scenarios.SentenceLongRs | short_long/src/lib.rs:11 | only "outjumped" is longer than 8 bytes |
| Scenarios.SentenceLongPy | inPython.py:7 | only "outjumped" is longer than 8 code points |
| Scenarios.SentencePyKept | inPython.py:3-4 | Python keeps the same three tokens |
| Scenarios.OneLongWordInThree | inPython.py:2-9 | both versions give 1/3 on "a fox outjumped the dog" |
| Scenarios.OnlyStopWords | short_long/src/lib.rs:15 | on "a the" Rust gives NaN and Python raises ZeroDivisionError |
| Scenarios.TrailingNewline | short_long/src/lib.rs:8-15 | on `"the\n"` Rust keeps the trailing empty piece and returns 0/1 instead of NaN, while Python raises ZeroDivisionError |
| Scenarios.EmptyText | inPython.py:9 | on the empty text Rust gives 0/1 and Python raises ZeroDivisionError |
| Scenarios.WordKept | short_long/src/lib.rs:8 | a single word without whitespace is kept whole by both versions |
| Scenarios.BytesVersusCodePoints | short_long/src/lib.rs:11 | "ééééé" is 10 bytes but 5 code points: Rust gives 1/1 and Python 0/1 |

## Left out

- withRust.py is not part of this model. It only loads the shared library and passes the text's bytes, with a trailing NUL byte that the Rust function then sees as part of the last piece.
- File reading, printing, `timeit` and the `int(x * 100)` percentage in inPython.py (lines 12-23) are I/O and formatting around `shortLong`.
- Floating point is not modelled. Both versions count whole words, so the result is kept as the exact pair `Ratio(num, den)`. The rounding of the final `f64` or Python `float` division is not modelled. NaN is `den == 0`.
- The raw pointer and `slice::from_raw_parts` are not modelled. The buffer is a value. Rust's memory-safety requirement (a valid pointer for `len` bytes) is not modelled. The requirement of `from_utf8_unchecked` becomes the precondition `Decode(buf).Some?` of `ShortLongRs.ShortLong`.
- The Unicode whitespace tables of `char::is_whitespace` and `str.isspace` are the parameter `isWs`. The two tables differ, for example on U+001C to U+001F, which Python treats as whitespace and Rust does not. `Compare` assumes one shared classification, and `Scenarios` uses the four ASCII characters both treat as whitespace.
- Python strings holding lone surrogates cannot be represented by Dafny's `char`.
- `usize` lengths and the `f64` conversion of `split.len()` are unbounded `nat`s in the model.
- ShortLongRs.ShortLong: the model does not check that the loop's floating-point counter `l` is exact, because the model counts in integers. An `f64` counts whole numbers exactly up to 2^53.
