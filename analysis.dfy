/** What the Rust and the Python version of the long-word ratio share:
    the stop-word test, the length threshold and the exact result. */
module Analysis {

  /** A token counts as long when its length exceeds this many units. */
  const Threshold: nat := 8

  /** The condition both versions filter with: the token is neither of the
      stop-words "the" and "a" (compared exactly, so "The" and "" are kept). */
  predicate NotStopWord(w: string)
    ensures !NotStopWord(w) ==> 1 <= |w| <= 3
  {
    w != "the" && w != "a"
  }

  /** The exact quotient `num / den` that the source computes in floating
      point; `den == 0` stands for a division by zero. */
  datatype Ratio = Ratio(num: nat, den: nat) {

    /** `0.0 / 0.0` in IEEE arithmetic: Not a Number. */
    predicate IsNaN() {
      den == 0 && num == 0
    }

    /** The value of the quotient, defined for a non-zero denominator. */
    function Value(): (v: real)
      requires den > 0
      ensures v * den as real == num as real
      ensures num <= den ==> 0.0 <= v <= 1.0
    {
      var n, d := num as real, den as real;
      var q := n / d;
      assert q * d == n;
      assert (1.0 - q) * d == d - n;
      q
    }
  }
}
