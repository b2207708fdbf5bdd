/** Digit strings, their values, and the order of texts made of them. */
module Numbers {
  import opened Text

  predicate IsDigit(c: char) {
    '0' <= c <= '9'
  }

  ghost predicate AllDigits(s: string) {
    forall i | 0 <= i < |s| :: IsDigit(s[i])
  }

  /** The value of a digit string. */
  function Value(s: string): nat {
    if s == "" then 0 else
      var c := s[|s| - 1];
      10 * Value(s[..|s| - 1]) + if IsDigit(c) then c as int - '0' as int else 0
  }

  /** Equally long digit strings are ordered as texts like their values, and differ if these do. */
  lemma {:induction false} LessIsNumeric(a: string, b: string)
    requires |a| == |b| && AllDigits(a) && AllDigits(b)
    ensures Less(a, b) <==> Value(a) < Value(b)
    ensures a == b <==> Value(a) == Value(b)
  {
    if a != "" {
      var n := |a| - 1;
      LessIsNumeric(a[..n], b[..n]);
      assert a == a[..n] + [a[n]] && b == b[..n] + [b[n]];
      LessOfParts(a[..n], b[..n], [a[n]], [b[n]]);
      LessOfOne(a[n], b[n]);
    }
  }

  function PowerOfTen(n: nat): nat {
    if n == 0 then 1 else 10 * PowerOfTen(n - 1)
  }

  /** Ordered and without gaps below this bound: no other numbering of the digit strings of one
      length is. */
  lemma {:induction false} ValueFits(s: string)
    requires AllDigits(s)
    ensures Value(s) < PowerOfTen(|s|)
  {
    if s != "" {
      var n := |s| - 1;
      assert s == s[..n] + [s[n]];
      ValueFits(s[..n]);
    }
  }

  lemma LessOfOne(c: char, d: char)
    ensures Less([c], [d]) <==> c < d
  {
    assert [c][1..] == "" && [d][1..] == "";
  }

  /** "YYYY-MM-DD" */
  ghost predicate IsDate(s: string) {
    |s| == 10 && s[4] == '-' && s[7] == '-' && AllDigits(s[..4]) && AllDigits(s[5..7]) && AllDigits(s[8..])
  }

  /** The first date is an earlier day: by year, month and day as numbers. */
  ghost predicate Earlier(a: string, b: string)
    requires IsDate(a) && IsDate(b)
  {
    var y, z := Value(a[..4]), Value(b[..4]);
    var m, n := Value(a[5..7]), Value(b[5..7]);
    y < z || (y == z && (m < n || (m == n && Value(a[8..]) < Value(b[8..]))))
  }

  /** As texts, dates are ordered like the days they name. */
  lemma LessIsEarlier(a: string, b: string)
    requires IsDate(a) && IsDate(b)
    ensures Less(a, b) <==> Earlier(a, b)
  {
    DateParts(a, b);
    LessIsNumeric(a[..4], b[..4]);
    LessIsNumeric(a[5..7], b[5..7]);
    LessIsNumeric(a[8..], b[8..]);
  }

  lemma DateParts(a: string, b: string)
    requires IsDate(a) && IsDate(b)
    ensures Less(a, b)
       <==> Less(a[..4], b[..4])
            || (a[..4] == b[..4] && (Less(a[5..7], b[5..7]) || (a[5..7] == b[5..7] && Less(a[8..], b[8..]))))
  {
    assert a == a[..4] + (['-'] + (a[5..7] + (['-'] + a[8..])));
    assert b == b[..4] + (['-'] + (b[5..7] + (['-'] + b[8..])));
    LessOfParts(a[..4], b[..4], ['-'] + (a[5..7] + (['-'] + a[8..])), ['-'] + (b[5..7] + (['-'] + b[8..])));
    LessOfParts(['-'], ['-'], a[5..7] + (['-'] + a[8..]), b[5..7] + (['-'] + b[8..]));
    LessOfParts(a[5..7], b[5..7], ['-'] + a[8..], ['-'] + b[8..]);
    LessOfParts(['-'], ['-'], a[8..], b[8..]);
    LessOfOne('-', '-');
  }
}
