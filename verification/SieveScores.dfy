/** How far a `spam_score` condition is from comparing the scores themselves: the
    emitted test reads only the digits that begin a text, and takes a text that begins
    otherwise for infinite (RFC 4790 section 9.1). */
module SieveScores {
  import opened Text
  import opened SieveStrings
  import opened SieveEngine
  import opened SieveLayout
  import opened SieveCompile
  import opened SieveMeaning

  /** A score as it is stamped on a message: a sign when negative, the whole part and
      one digit after the point. */
  datatype Score = Score(negative: bool, tenths: nat)

  function ScoreText(s: Score): string {
    (if s.negative then "-" else "") + (Decimal(s.tenths / 10) + ("." + Decimal(s.tenths % 10)))
  }

  function Value(s: Score): real { (if s.negative then 0 - s.tenths else s.tenths) as real / 10.0 }

  /** Digits before anything that is not one read as their number. */
  lemma {:induction false} LeadingDigits(w: string, rest: string)
    requires w != "" && forall i :: 0 <= i < |w| ==> IsDigit(w[i])
    requires rest == "" || !IsDigit(rest[0])
    ensures LeadingNumber(w + rest) == Finite(Number(w))
  {
    DigitLenExact(w, rest);
    assert (w + rest)[..|w|] == w;
  }

  /** What a stamped score reads as: its whole part, or infinity when it is negative. */
  lemma {:induction false} LeadingOfScore(s: Score)
    ensures LeadingNumber(ScoreText(s)) == if s.negative then Infinite else Finite(s.tenths / 10)
  {
    var w, rest := Decimal(s.tenths / 10), "." + Decimal(s.tenths % 10);
    NumberOfDecimal(s.tenths / 10);
    if s.negative {
      assert ScoreText(s)[0] == '-' && DigitLen(ScoreText(s)) == 0;
    } else {
      LeadingDigits(w, rest);
      assert "" + (w + rest) == w + rest;
    }
  }

  ghost predicate Truly(op: Operator, limit: real, s: Score) {
    if op == GreaterThan then Value(s) > limit else Value(s) < limit
  }

  /** The emitted test agrees with comparing the numbers, on every stamped score or on
      every one that is not negative. `value` is what Python's `float` makes of the
      limit's text. */
  ghost predicate Exact(op: Operator, limit: string, value: real, negatives: bool) {
    forall s: Score :: negatives || !s.negative ==> (ScorePasses(op, limit, ScoreText(s)) <==> Truly(op, value, s))
  }

  /** Scores as high and as low as wanted. */
  lemma {:induction false} Beyond(value: real) returns (high: Score, low: Score)
    ensures !high.negative && Value(high) > value
    ensures low.negative && Value(low) < value
  {
    var n := if value.Floor < 0 then -value.Floor else value.Floor;
    high, low := Score(false, 10 * (n + 1)), Score(true, 10 * (n + 1));
  }

  /** With negative scores about, no limit is compared exactly: each of them reads as
      infinite. */
  lemma {:induction false} NegativesNeverExact(op: Operator, limit: string, value: real)
    requires op in {GreaterThan, LessThan}
    ensures !Exact(op, limit, value, true)
  {
    var high, low := Beyond(value);
    LeadingOfScore(low);
    LeadingOfScore(high);
    hide ScoreText, LeadingNumber, Value;
    assert op == LessThan ==> ScorePasses(op, limit, ScoreText(low)) != Truly(op, value, low);
    if op == GreaterThan {
      assert ScorePasses(op, limit, ScoreText(if LeadingNumber(limit).Finite? then low else high))
          != Truly(op, value, if LeadingNumber(limit).Finite? then low else high);
    }
  }

  /** A negative score passes every `gt` test whose limit begins with a digit, and no
      `lt` test at all. */
  lemma {:induction false} NegativeLooksInfinite(s: Score, limit: string)
    requires s.negative
    ensures ScorePasses(GreaterThan, limit, ScoreText(s)) <==> limit != "" && IsDigit(limit[0])
    ensures !ScorePasses(LessThan, limit, ScoreText(s))
  {
    LeadingOfScore(s);
  }

  lemma {:induction false} GreaterOnScore(limit: string, s: Score)
    requires !s.negative
    ensures ScorePasses(GreaterThan, limit, ScoreText(s)) <==>
            LeadingNumber(limit).Finite? && Value(s) >= LeadingNumber(limit).n as real + 1.0
    ensures ScorePasses(LessThan, limit, ScoreText(s)) <==>
            LeadingNumber(limit).Infinite? || Value(s) < LeadingNumber(limit).n as real
  {
    LeadingOfScore(s);
    hide ScoreText, LeadingNumber;
    var n := s.tenths / 10;
    assert s.tenths == 10 * n + s.tenths % 10;
    assert n as real <= Value(s) < n as real + 1.0;
    if LeadingNumber(limit).Finite? {
      var l := LeadingNumber(limit).n;
      if l < n { assert l as real + 1.0 <= n as real; }
      if n < l { assert n as real + 1.0 <= l as real; }
    }
  }

  /** On scores that are not negative, `gt` is exact for exactly the limits that begin
      with the digits of their whole part and lie at most a tenth below the next. */
  lemma {:induction false} GreaterExactIff(limit: string, value: real)
    ensures Exact(GreaterThan, limit, value, false) <==>
            (LeadingNumber(limit).Finite? &&
             LeadingNumber(limit).n as real + 0.9 <= value < LeadingNumber(limit).n as real + 1.0)
  {
    forall s: Score | !s.negative { GreaterOnScore(limit, s); }
    hide ScorePasses, ScoreText, LeadingNumber;
    if LeadingNumber(limit).Infinite? {
      var high, low := Beyond(value);
      assert ScorePasses(GreaterThan, limit, ScoreText(high)) != Truly(GreaterThan, value, high);
    } else {
      var n := LeadingNumber(limit).n;
      var next, last := Score(false, 10 * n + 10), Score(false, 10 * n + 9);
      assert Value(next) == n as real + 1.0 && Value(last) == n as real + 0.9;
      if n as real + 0.9 <= value < n as real + 1.0 {
        forall s: Score | !s.negative
          ensures ScorePasses(GreaterThan, limit, ScoreText(s)) <==> Truly(GreaterThan, value, s)
        {
          TenthsApart(s, n, 9);
        }
      } else if value < n as real + 0.9 {
        assert ScorePasses(GreaterThan, limit, ScoreText(last)) != Truly(GreaterThan, value, last);
      } else {
        assert ScorePasses(GreaterThan, limit, ScoreText(next)) != Truly(GreaterThan, value, next);
      }
    }
  }

  /** A score is at most so many tenths above a whole number, or at least one more. */
  lemma {:induction false} TenthsApart(s: Score, n: int, d: nat)
    requires !s.negative
    ensures Value(s) <= n as real + d as real / 10.0 || Value(s) >= n as real + (d + 1) as real / 10.0
  {
    if s.tenths <= 10 * n + d {
      assert s.tenths as real <= 10.0 * n as real + d as real;
    } else {
      assert s.tenths as real >= 10.0 * n as real + (d + 1) as real;
    }
  }

  /** On scores that are not negative, `lt` is exact for exactly the limits that begin
      with the digits of their value, or of less than a tenth more. */
  lemma {:induction false} LessExactIff(limit: string, value: real)
    ensures Exact(LessThan, limit, value, false) <==>
            (LeadingNumber(limit).Finite? && value <= LeadingNumber(limit).n as real &&
             (LeadingNumber(limit).n == 0 || LeadingNumber(limit).n as real - 0.1 < value))
  {
    forall s: Score | !s.negative { GreaterOnScore(limit, s); }
    hide ScorePasses, ScoreText, LeadingNumber;
    if LeadingNumber(limit).Infinite? {
      var high, low := Beyond(value);
      assert ScorePasses(LessThan, limit, ScoreText(high)) != Truly(LessThan, value, high);
    } else {
      var n: int := LeadingNumber(limit).n;
      var whole := Score(false, 10 * n);
      assert Value(whole) == n as real;
      if value > n as real {
        assert ScorePasses(LessThan, limit, ScoreText(whole)) != Truly(LessThan, value, whole);
      } else if n > 0 && value <= n as real - 0.1 {
        var below := Score(false, 10 * n - 1);
        assert Value(below) == n as real - 0.1;
        assert ScorePasses(LessThan, limit, ScoreText(below)) != Truly(LessThan, value, below);
      } else {
        forall s: Score | !s.negative
          ensures ScorePasses(LessThan, limit, ScoreText(s)) <==> Truly(LessThan, value, s)
        {
          TenthsApart(s, n - 1, 9);
        }
      }
    }
  }

  // ----- limits written as plain decimals

  ghost function Fraction(digits: string): (r: real)
    requires forall i :: 0 <= i < |digits| ==> IsDigit(digits[i])
    ensures 0.0 <= r < 1.0
  {
    if digits == "" then 0.0
    else
      assert IsDigit(digits[0]);
      ((digits[0] as int - '0' as int) as real + Fraction(digits[1..])) / 10.0
  }

  /** A limit such as `4`, `4.` or `4.25`: on scores that are not negative `lt` is exact
      if and only if it has no fraction, and `gt` if and only if its fraction is at
      least nine tenths. */
  lemma {:induction false} PlainLimitExactIff(whole: string, point: bool, digits: string)
    requires whole != "" && forall i :: 0 <= i < |whole| ==> IsDigit(whole[i])
    requires forall i :: 0 <= i < |digits| ==> IsDigit(digits[i])
    requires !point ==> digits == ""
    ensures var limit := whole + (if point then "." + digits else "");
            var value := Number(whole) as real + Fraction(digits);
            && (Exact(LessThan, limit, value, false) <==> Fraction(digits) == 0.0)
            && (Exact(GreaterThan, limit, value, false) <==> Fraction(digits) >= 0.9)
  {
    var rest := if point then "." + digits else "";
    var value := Number(whole) as real + Fraction(digits);
    LeadingDigits(whole, rest);
    LessExactIff(whole + rest, value);
    GreaterExactIff(whole + rest, value);
    hide Exact, LeadingNumber, Fraction;
  }
}
