/** Row labels of the text controller: a row is named by letters, "A" for the
    first row, "Z" for the 26th, "AA" for the 27th, as in bijective base 26.
    `GetRowNum` reads a label into a zero-based row number with Java `int`
    arithmetic; `RowLabel` writes one, and the two are inverse. */
module RowLabel {
  import opened Results

  const TwoTo31: int := 0x8000_0000
  const TwoTo32: int := 0x1_0000_0000

  // ---------------------------------------------------------------------
  // 32-bit two's-complement arithmetic
  // ---------------------------------------------------------------------

  /** The Java `int` holding x: the value congruent to x modulo 2^32 in
      [-2^31, 2^31). */
  function Wrap32(x: int): (w: int)
    ensures -TwoTo31 <= w < TwoTo31
    ensures (x - w) % TwoTo32 == 0
    ensures -TwoTo31 <= x < TwoTo31 ==> w == x
  {
    (x + TwoTo31) % TwoTo32 - TwoTo31
  }

  /** Adding a multiple of 2^32 does not change the wrapped value. */
  lemma WrapShift(x: int, k: int)
    ensures Wrap32(x + k * TwoTo32) == Wrap32(x)
  {
    var a := x + TwoTo31;
    DivModUnique(a + k * TwoTo32, TwoTo32, a / TwoTo32 + k, a % TwoTo32);
  }

  /** Euclidean division is determined by quotient and remainder. */
  lemma DivModUnique(x: int, m: int, q: int, r: int)
    requires m > 0 && x == q * m + r && 0 <= r < m
    ensures x / m == q && x % m == r
  {
    var q', r' := x / m, x % m;
    assert x == q' * m + r';
    if q' > q {
      assert q' * m >= (q + 1) * m by { MulMonotone(q + 1, q', m); }
    } else if q' < q {
      assert q * m >= (q' + 1) * m by { MulMonotone(q' + 1, q, m); }
    }
  }

  lemma MulMonotone(a: int, b: int, m: nat)
    requires a <= b
    ensures a * m <= b * m
  {
  }

  /** One step of `rownumber = m * rownumber + v` in `int` arithmetic gives
      the wrapped value of the same step in unbounded arithmetic. */
  lemma WrapStep(a: int, m: int, v: int)
    ensures Wrap32(m * Wrap32(a) + v) == Wrap32(m * a + v)
  {
    var w := Wrap32(a);
    var q := (a - w) / TwoTo32;
    assert a - w == q * TwoTo32;
    assert m * w + v == (m * a + v) + (-(m * q)) * TwoTo32 by {
      assert m * (a - w) == m * (q * TwoTo32);
    }
    WrapShift(m * a + v, -(m * q));
  }

  // ---------------------------------------------------------------------
  // Letters
  // ---------------------------------------------------------------------

  /** The letters a label may hold (ASCII only; see the README). */
  predicate IsLetter(c: char) {
    'a' <= c <= 'z' || 'A' <= c <= 'Z'
  }

  predicate AllLetters(s: seq<char>) {
    forall i :: 0 <= i < |s| ==> IsLetter(s[i])
  }

  predicate AllUpper(s: seq<char>) {
    forall i :: 0 <= i < |s| ==> 'A' <= s[i] <= 'Z'
  }

  /** `Character.toLowerCase` on ASCII: capitals move to the matching small letter. */
  function ToLower(c: char): (l: char)
    ensures IsLetter(c) ==> 'a' <= l <= 'z'
    ensures 'A' <= c <= 'Z' ==> l as int - 'a' as int == c as int - 'A' as int
    ensures !('A' <= c <= 'Z') ==> l == c
  {
    if 'A' <= c <= 'Z' then (c as int - 'A' as int + 'a' as int) as char else c
  }

  /** The letter's place in the alphabet, ignoring case: a and A are 1, z and Z are 26. */
  function LetterValue(c: char): (v: int)
    requires IsLetter(c)
    ensures 1 <= v <= 26
  {
    ToLower(c) as int - 'a' as int + 1
  }

  /** The capital letter at place k of the alphabet. */
  function Letter(k: int): (c: char)
    requires 1 <= k <= 26
    ensures 'A' <= c <= 'Z' && LetterValue(c) == k
  {
    ('A' as int + k - 1) as char
  }

  // ---------------------------------------------------------------------
  // Reading a label
  // ---------------------------------------------------------------------

  /** The loop's `rownumber` after reading the whole of s, before wrapping:
      each letter multiplies what was read so far by 26 and adds its place. */
  function Accumulate(s: seq<char>): (n: int)
    requires AllLetters(s)
    ensures |s| == 0 <==> n == 0
    ensures n >= 0
  {
    if |s| == 0 then 0 else 26 * Accumulate(s[..|s| - 1]) + LetterValue(s[|s| - 1])
  }

  /** `getRowNum`: fails on any character that is not a letter, otherwise
      returns the label's value minus one, computed in `int` arithmetic. */
  function GetRowNum(s: seq<char>): (r: Result<int>)
    ensures r.Err? <==> exists i :: 0 <= i < |s| && !IsLetter(s[i])
    ensures r.Err? ==> r.error == InvalidRow
    ensures r.Ok? ==> -TwoTo31 <= r.value < TwoTo31
    ensures r.Ok? && |s| == 0 ==> r.value == -1
  {
    if AllLetters(s) then Ok(Wrap32(Accumulate(s) - 1)) else Err(InvalidRow)
  }

  /** The loop as written: one pass, `int` arithmetic at every step, and an
      exception at the first character that is not a letter. */
  method GetRowNumLoop(s: seq<char>) returns (r: Result<int>)
    ensures r == GetRowNum(s)
  {
    var rownumber := 0;
    var i := 0;
    while i < |s|
      invariant 0 <= i <= |s|
      invariant AllLetters(s[..i])
      invariant rownumber == Wrap32(Accumulate(s[..i]))
    {
      var c := s[i];
      if !IsLetter(c) {
        return Err(InvalidRow);
      }
      assert s[..i + 1][..i] == s[..i];
      WrapStep(Accumulate(s[..i]), 26, LetterValue(c));
      rownumber := Wrap32(26 * rownumber + LetterValue(c));
      i := i + 1;
    }
    assert s[..|s|] == s;
    WrapStep(Accumulate(s), 1, -1);
    return Ok(Wrap32(rownumber - 1));
  }

  // ---------------------------------------------------------------------
  // Writing a label, and the round trips
  // ---------------------------------------------------------------------

  /** The label of the n-th row counting from 1, in capitals. */
  function Label(n: int): (s: seq<char>)
    requires n >= 1
    ensures |s| >= 1 && AllUpper(s)
    decreases n
  {
    if n <= 26 then [Letter(n)] else Label((n - 1) / 26) + [Letter((n - 1) % 26 + 1)]
  }

  /** The label of zero-based row `row`. */
  function LabelOfRow(row: nat): (s: seq<char>)
    ensures |s| >= 1 && AllUpper(s)
  {
    Label(row + 1)
  }

  lemma {:induction false} AccumulateLabel(n: int)
    requires n >= 1
    ensures AllLetters(Label(n)) && Accumulate(Label(n)) == n
    decreases n
  {
    var s := Label(n);
    if n > 26 {
      var p := Label((n - 1) / 26);
      AccumulateLabel((n - 1) / 26);
      assert s[..|s| - 1] == p;
    }
  }

  lemma {:induction false} LabelAccumulate(s: seq<char>)
    requires |s| >= 1 && AllUpper(s)
    ensures AllLetters(s) && Label(Accumulate(s)) == s
    decreases |s|
  {
    var p := s[..|s| - 1];
    var c := s[|s| - 1];
    assert s == p + [c];
    assert AllLetters(s);
    var n := Accumulate(s);
    var v := LetterValue(c);
    assert Letter(v) == c;
    if |p| > 0 {
      LabelAccumulate(p);
      assert n - 1 == Accumulate(p) * 26 + (v - 1);
      DivModUnique(n - 1, 26, Accumulate(p), v - 1);
      assert n > 26;
      assert Label(n) == Label(Accumulate(p)) + [Letter(v)];
    } else {
      assert n == v;
    }
  }

  /** Every row below 2^31 has a label that reads back to it. */
  lemma RowLabelRoundTrip(row: nat)
    requires row < TwoTo31
    ensures GetRowNum(LabelOfRow(row)) == Ok(row)
  {
    AccumulateLabel(row + 1);
  }

  /** A capital label of at most six letters reads to a row whose label is
      that label again. */
  lemma GetRowNumRoundTrip(s: seq<char>)
    requires 1 <= |s| <= 6 && AllUpper(s)
    ensures GetRowNum(s).Ok? && GetRowNum(s).value >= 0
    ensures LabelOfRow(GetRowNum(s).value) == s
  {
    LabelAccumulate(s);
    AccumulateBound(s);
    Pow27Monotone(|s|, 6);
  }

  function Pow27(k: nat): nat {
    if k == 0 then 1 else 27 * Pow27(k - 1)
  }

  lemma {:induction false} Pow27Monotone(j: nat, k: nat)
    requires j <= k
    ensures Pow27(j) <= Pow27(k)
    decreases k
  {
    if j < k {
      Pow27Monotone(j, k - 1);
    }
  }

  /** A label of k letters is worth less than 27^k. */
  lemma {:induction false} AccumulateBound(s: seq<char>)
    requires AllLetters(s)
    ensures Accumulate(s) < Pow27(|s|)
    decreases |s|
  {
    if |s| > 0 {
      AccumulateBound(s[..|s| - 1]);
    }
  }

  /** Labels of one to six letters read without overflow, to a row >= 0. */
  lemma GetRowNumNoOverflow(s: seq<char>)
    requires 1 <= |s| <= 6 && AllLetters(s)
    ensures GetRowNum(s) == Ok(Accumulate(s) - 1)
    ensures GetRowNum(s).value >= 0
  {
    AccumulateBound(s);
    Pow27Monotone(|s|, 6);
  }

  /** Appending a letter to a label of at most five letters: the new row
      plus one is 26 times the old row plus one, plus the letter's place. */
  lemma GetRowNumRecurrence(s: seq<char>, c: char)
    requires |s| <= 5 && AllLetters(s) && IsLetter(c)
    ensures GetRowNum(s).Ok? && GetRowNum(s + [c]).Ok?
    ensures GetRowNum(s + [c]).value + 1 == 26 * (GetRowNum(s).value + 1) + LetterValue(c)
  {
    var t := s + [c];
    assert t[..|t| - 1] == s;
    assert AllLetters(t) by {
      assert forall i :: 0 <= i < |s| ==> t[i] == s[i];
    }
    GetRowNumNoOverflow(t);
    if |s| > 0 {
      GetRowNumNoOverflow(s);
    }
  }

  /** The same step for labels of any length, in `int` arithmetic: the new
      row plus one and 26 times the old row plus one, plus the letter's
      place, are the same 32-bit value. */
  lemma GetRowNumWrappedRecurrence(s: seq<char>, c: char)
    requires AllLetters(s) && IsLetter(c)
    ensures GetRowNum(s).Ok? && GetRowNum(s + [c]).Ok?
    ensures Wrap32(GetRowNum(s + [c]).value + 1)
            == Wrap32(26 * (GetRowNum(s).value + 1) + LetterValue(c))
  {
    var t := s + [c];
    assert t[..|t| - 1] == s;
    assert AllLetters(t) by {
      assert forall i :: 0 <= i < |s| ==> t[i] == s[i];
    }
    var a := Accumulate(s);
    var v := LetterValue(c);
    assert Accumulate(t) == 26 * a + v;
    var w := Wrap32(a - 1);
    WrapStep(26 * a + v - 1, 1, 1);
    WrapStep(a - 1, 26, 26 + v);
    assert 26 * (w + 1) + v == 26 * w + (26 + v);
    assert 26 * (a - 1) + (26 + v) == 26 * a + v;
  }

  // ---------------------------------------------------------------------
  // Case, and worked values
  // ---------------------------------------------------------------------

  lemma {:induction false} AccumulateIgnoresCase(s: seq<char>, t: seq<char>)
    requires |s| == |t| && AllLetters(s) && AllLetters(t)
    requires forall i :: 0 <= i < |s| ==> ToLower(s[i]) == ToLower(t[i])
    ensures Accumulate(s) == Accumulate(t)
    decreases |s|
  {
    if |s| > 0 {
      AccumulateIgnoresCase(s[..|s| - 1], t[..|t| - 1]);
    }
  }

  /** Labels that differ only in the case of their letters name the same
      row, and fail together. */
  lemma GetRowNumIgnoresCase(s: seq<char>, t: seq<char>)
    requires |s| == |t|
    requires forall i :: 0 <= i < |s| ==> ToLower(s[i]) == ToLower(t[i])
    ensures GetRowNum(s) == GetRowNum(t)
  {
    assert AllLetters(s) <==> AllLetters(t) by {
      forall i | 0 <= i < |s|
        ensures IsLetter(s[i]) <==> IsLetter(t[i])
      {
        assert ToLower(s[i]) == ToLower(t[i]);
      }
    }
    if AllLetters(s) {
      AccumulateIgnoresCase(s, t);
    }
  }

  /** Worked values: A is row 0, J row 9, z and Z row 25; the empty label
      gives -1; a digit is refused. */
  lemma GetRowNumExamples()
    ensures GetRowNum("A") == Ok(0)
    ensures GetRowNum("J") == Ok(9)
    ensures GetRowNum("z") == Ok(25)
    ensures GetRowNum("Z") == Ok(25)
    ensures GetRowNum("") == Ok(-1)
    ensures GetRowNum("A1") == Err(InvalidRow)
  {
    assert !IsLetter("A1"[1]);
  }

  /** Two-letter labels continue after Z: AA is 26 and ab is 27. */
  lemma GetRowNumTwoLetterExamples()
    ensures GetRowNum("AA") == Ok(26)
    ensures GetRowNum("ab") == Ok(27)
  {
    assert "AA"[..1] == "A";
    assert "ab"[..1] == "a";
  }

  /** FXSHRXY is worth 2^31 + 1, so the row number 2^31 wraps to -2^31. */
  lemma GetRowNumOverflowExample()
    ensures GetRowNum("FXSHRXY") == Ok(-TwoTo31)
  {
    var s := "FXSHRXY";
    assert s[..6] == "FXSHRX" && "FXSHRX"[..5] == "FXSHR" && "FXSHR"[..4] == "FXSH";
    assert "FXSH"[..3] == "FXS" && "FXS"[..2] == "FX" && "FX"[..1] == "F";
    assert Accumulate("FXS") == 4699;
    assert Accumulate("FXSHR") == 3176750;
    assert Accumulate(s) == 2147483649;
  }
}
