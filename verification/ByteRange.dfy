/** src/server/byte_range.cpp: parsing of a single-range `Range` header and its resolution against
    the size of the content, compared with section 2.1 of RFC 7233. */
module ByteRange {
  import opened Seqs
  import opened Numbers
  import Text

  const INT64_MAX := 0x7fff_ffff_ffff_ffff
  const INT64_MIN := -0x8000_0000_0000_0000

  newtype int64 = x: int | INT64_MIN <= x <= INT64_MAX

  datatype Kind = NONE | INVALID | PARSED | RESOLVED_FULL_CONTENT | RESOLVED_UNSATISFIABLE | RESOLVED_PARTIAL_CONTENT

  /** `first` is negative for a suffix range that is not resolved yet. */
  datatype Range = Range(kind: Kind, first: int64, last: int64) {

    /** What the assertions of the constructors demand. */
    ghost predicate Valid() {
      match kind
      case NONE => first == 0 && last == INT64_MAX as int64
      case PARSED => first <= last && (first < 0 ==> last == INT64_MAX as int64)
      case _ => 0 <= first && (first <= last || (first == 0 && last == -1))
    }

    predicate Resolved() {
      kind in {RESOLVED_FULL_CONTENT, RESOLVED_UNSATISFIABLE, RESOLVED_PARTIAL_CONTENT}
    }

    /** `length()`; the intermediate `last_ + 1` must not overflow. */
    function Length(): (n: int64)
      requires Valid() && Resolved() && last < INT64_MAX as int64
      ensures n >= 0 && n as int == last as int - first as int + 1
    {
      last + 1 - first
    }
  }

  const NO_RANGE := Range(NONE, 0, INT64_MAX as int64)
  const INVALID_RANGE := Range(INVALID, 0, INT64_MAX as int64)

  // ---- Reading integers from a stream ----------------------------------------

  predicate IsSpace(c: char) {
    c in {' ', '\t', '\n', '\r'} || c as int == 11 || c as int == 12
  }

  /** The end of the digits that start at `i`. */
  function DigitsEnd(s: string, i: nat): (k: nat)
    requires i <= |s|
    ensures i <= k <= |s|
    decreases |s| - i
  {
    if i == |s| || !IsDigit(s[i]) then i else DigitsEnd(s, i + 1)
  }

  /** The outcome of `iss >> x`: the value stored in x (None if x is left alone), where the
      stream stands, and whether it did not fail. The stream is at eof when it stands at the end. */
  datatype Extraction = Extraction(value: Option<int64>, next: nat, ok: bool)

  /** Extraction of an int64 from a text without white space. Too large a number is stored as the
      nearest bound, a missing one as 0, both with failure. */
  function ReadInt(s: string, i: nat): (e: Extraction)
    requires i <= |s|
    ensures i <= e.next <= |s|
  {
    if i == |s| then Extraction(None, i, false) else
      var negative := s[i] == '-';
      var j := if s[i] in {'-', '+'} then i + 1 else i;
      var k := DigitsEnd(s, j);
      var n: int := Value(s[j..k]);
      var v := if negative then -n else n;
      if k == j then Extraction(Some(0), k, false)
      else if v > INT64_MAX then Extraction(Some(INT64_MAX as int64), k, false)
      else if v < INT64_MIN then Extraction(Some(INT64_MIN as int64), k, false)
      else Extraction(Some(v as int64), k, true)
  }

  // ---- Parsing ---------------------------------------------------------------

  /** No white space, and not the suffix range whose negation overflows. */
  ghost predicate Covered(s: string) {
    && (forall i | 0 <= i < |s| :: !IsSpace(s[i]))
    && (var e := ReadInt(s, 0); e.ok && e.next == |s| ==> e.value != Some(INT64_MIN as int64))
  }

  method ParseByteRange(s: string) returns (r: Range)
    requires Covered(s)
    ensures r == Parsed(s) && r.Valid()
  {
    var start := ReadInt(s, 0);
    if start.ok {
      var first := start.value.value;
      if first < 0 {
        if start.next == |s| {
          return Range(PARSED, first, INT64_MAX as int64);
        }
      } else if start.next < |s| && s[start.next] == '-' {
        var end := INT64_MAX as int64;
        var rest := ReadInt(s, start.next + 1);
        if rest.value.Some? {
          end := rest.value.value;
        }
        if rest.next == |s| && first <= end {
          return Range(PARSED, first, end);
        }
      }
    }
    return INVALID_RANGE;
  }

  /** The last position a text names from `i` on, with the default of an open range. */
  function EndOf(s: string, i: nat): int64
    requires i <= |s|
  {
    var e := ReadInt(s, i);
    if e.value.Some? then e.value.value else INT64_MAX as int64
  }

  /** The range of the text behind `bytes=`. */
  function Parsed(s: string): Range {
    var start := ReadInt(s, 0);
    if !start.ok then INVALID_RANGE
    else
      var first, k := start.value.value, start.next;
      if first < 0 then
        if k == |s| then Range(PARSED, first, INT64_MAX as int64) else INVALID_RANGE
      else if k < |s| && s[k] == '-' && ReadInt(s, k + 1).next == |s| && first <= EndOf(s, k + 1) then
        Range(PARSED, first, EndOf(s, k + 1))
      else INVALID_RANGE
  }

  const UNIT := "bytes="

  method Parse(rangeStr: string) returns (r: Range)
    requires Text.StartsWith(rangeStr, UNIT) ==> Covered(rangeStr[|UNIT|..])
    ensures r == if "bytes=" <= rangeStr then Parsed(rangeStr[6..]) else INVALID_RANGE
    ensures r.Valid()
  {
    if !Text.StartsWith(rangeStr, UNIT) {
      return INVALID_RANGE;
    }
    r := ParseByteRange(rangeStr[|UNIT|..]);
  }

  // ---- Resolution ------------------------------------------------------------

  function Max(a: int64, b: int64): int64 {
    if a < b then b else a
  }

  function Min(a: int64, b: int64): int64 {
    if b < a then b else a
  }

  /** `resolve`; all arithmetic stays in int64. */
  function Resolve(r: Range, contentSize: int64): (res: Range)
    requires r.Valid() && r.kind in {NONE, INVALID, PARSED} && contentSize >= 0
    ensures res.Valid() && res.Resolved() && res.last < contentSize
    ensures res.kind != RESOLVED_PARTIAL_CONTENT ==> res.first == 0 && res.last == contentSize - 1
    ensures res.kind == RESOLVED_PARTIAL_CONTENT ==> res.first <= res.last
  {
    if r.kind == NONE then Range(RESOLVED_FULL_CONTENT, 0, contentSize - 1)
    else if r.kind == INVALID then Range(RESOLVED_UNSATISFIABLE, 0, contentSize - 1)
    else
      var first := if r.first < 0 then Max(0, contentSize + r.first) else r.first;
      var last := Min(contentSize - 1, r.last);
      if first > last then Range(RESOLVED_UNSATISFIABLE, 0, contentSize - 1)
      else Range(RESOLVED_PARTIAL_CONTENT, first, last)
  }

  // ---- Section 2.1 of RFC 7233 -----------------------------------------------

  /** A byte-range-spec or suffix-byte-range-spec, by its digit strings. */
  datatype Spec = From(first: string) | Between(first: string, last: string) | Suffix(length: string)

  ghost predicate IsNumber(s: string) {
    s != "" && AllDigits(s)
  }

  ghost predicate WellFormed(spec: Spec) {
    match spec
    case From(a) => IsNumber(a)
    case Between(a, b) => IsNumber(a) && IsNumber(b)
    case Suffix(k) => IsNumber(k)
  }

  function SpecText(spec: Spec): string {
    match spec
    case From(a) => a + "-"
    case Between(a, b) => a + "-" + b
    case Suffix(k) => "-" + k
  }

  /** Does the specification select position `i` of `size` bytes? */
  predicate Selects(spec: Spec, size: nat, i: int) {
    0 <= i < size && match spec
    case From(a) => Value(a) <= i
    case Between(a, b) => Value(a) <= i <= Value(b)
    case Suffix(k) => size - Value(k) <= i
  }

  lemma {:induction false} DigitsEndAt(s: string, i: nat, k: nat)
    requires i <= k <= |s| && AllDigits(s[i..k]) && (k < |s| ==> !IsDigit(s[k]))
    ensures DigitsEnd(s, i) == k
    decreases k - i
  {
    if i < k {
      assert s[i] == s[i..k][0];
      assert s[i + 1..k] == s[i..k][1..];
      DigitsEndAt(s, i + 1, k);
    }
  }

  /** Extraction of a digit string up to the end of the text or a non-digit. */
  lemma ReadNumber(s: string, i: nat, k: nat)
    requires i < k <= |s| && AllDigits(s[i..k]) && (k < |s| ==> !IsDigit(s[k]))
    ensures var n := Value(s[i..k]);
            ReadInt(s, i) == if n > INT64_MAX then Extraction(Some(INT64_MAX as int64), k, false)
                             else Extraction(Some(n as int64), k, true)
  {
    assert IsDigit(s[i..k][0]) && s[i..k][0] == s[i];
    DigitsEndAt(s, i, k);
  }

  lemma ReadNegative(s: string)
    requires |s| > 1 && s[0] == '-' && AllDigits(s[1..])
    ensures var n: int := 0 - Value(s[1..]);
            ReadInt(s, 0) == if n < INT64_MIN then Extraction(Some(INT64_MIN as int64), |s|, false)
                             else Extraction(Some(n as int64), |s|, true)
  {
    assert s[1..|s|] == s[1..];
    DigitsEndAt(s, 1, |s|);
  }

  /** What the parser makes of each form. */
  lemma ParsedSpec(spec: Spec)
    requires WellFormed(spec)
    ensures Parsed(SpecText(spec)) ==
            match spec
            case From(a) =>
              if Value(a) > INT64_MAX then INVALID_RANGE else Range(PARSED, Value(a) as int64, INT64_MAX as int64)
            case Between(a, b) =>
              if Value(a) > INT64_MAX || Value(b) < Value(a) then INVALID_RANGE
              else Range(PARSED, Value(a) as int64, if Value(b) > INT64_MAX then INT64_MAX as int64 else Value(b) as int64)
            case Suffix(k) =>
              if Value(k) == 0 || 0 - Value(k) < INT64_MIN then INVALID_RANGE
              else Range(PARSED, (0 - Value(k)) as int64, INT64_MAX as int64)
  {
    var s := SpecText(spec);
    match spec
    case From(a) =>
      assert s[0..|a|] == a && s[|a|] == '-';
      ReadNumber(s, 0, |a|);
    case Between(a, b) =>
      var k := |a| + 1;
      assert s[0..|a|] == a && s[|a|] == '-' && s[k..|s|] == b;
      ReadNumber(s, 0, |a|);
      ReadNumber(s, k, |s|);
    case Suffix(k) =>
      assert s[1..] == k;
      ReadNegative(s);
  }

  /** The resolved range is what RFC 7233 asks for: exactly the selected positions, or
      unsatisfiable if there are none. */
  ghost predicate Meets(spec: Spec, size: nat, res: Range) {
    if exists i :: Selects(spec, size, i) then
      && res.kind == RESOLVED_PARTIAL_CONTENT
      && forall i: int :: Selects(spec, size, i) <==> res.first as int <= i <= res.last as int
    else
      res.kind == RESOLVED_UNSATISFIABLE
  }

  /** A suffix length that does not fit int64 is refused, although it selects everything. */
  ghost predicate SuffixTooLong(spec: Spec, size: nat) {
    spec.Suffix? && Value(spec.length) > INT64_MAX && size > 0
  }

  /** For every number of any length: the code meets RFC 7233 unless a suffix length exceeds
      INT64_MAX and there is content to select. */
  lemma MeetsRfc(spec: Spec, size: nat)
    requires WellFormed(spec) && size <= INT64_MAX
    requires spec.Suffix? ==> Value(spec.length) != -INT64_MIN
    ensures var r := Parsed(SpecText(spec));
            r.Valid() && r.kind in {INVALID, PARSED}
            && (Meets(spec, size, Resolve(r, size as int64)) <==> !SuffixTooLong(spec, size))
  {
    ParsedSpec(spec);
    var res := Resolve(Parsed(SpecText(spec)), size as int64);
    if res.kind == RESOLVED_PARTIAL_CONTENT {
      assert Selects(spec, size, res.first as int);
    } else if SuffixTooLong(spec, size) {
      assert Selects(spec, size, 0);
    }
  }

  // ---- Everything else the parser accepts ------------------------------------

  /** A number with an optional sign; the sign may stand alone. */
  ghost predicate Signed(s: string, sign: string, digits: string) {
    s == sign + digits && s != "" && sign in {"", "+", "-"} && AllDigits(digits)
  }

  function SignedValue(sign: string, digits: string): int {
    if sign == "-" then 0 - Value(digits) else Value(digits)
  }

  function Clamp(v: int): int64 {
    if v > INT64_MAX then INT64_MAX as int64 else if v < INT64_MIN then INT64_MIN as int64 else v as int64
  }

  /** What is extracted from `i` up to `k`: the sign and all the digits behind it. */
  ghost predicate Extracts(s: string, i: nat, k: nat, sign: string, digits: string) {
    i <= k <= |s| && Signed(s[i..k], sign, digits) && (k < |s| ==> !IsDigit(s[k]))
  }

  lemma ReadSigned(s: string, i: nat, k: nat, sign: string, digits: string)
    requires Extracts(s, i, k, sign, digits)
    ensures var v := SignedValue(sign, digits);
            ReadInt(s, i) == Extraction(Some(Clamp(v)), k, digits != "" && INT64_MIN <= v <= INT64_MAX)
  {
    SignAndDigits(s, i, k, sign, digits);
    DigitsEndAt(s, i + |sign|, k);
  }

  lemma SignAndDigits(s: string, i: nat, k: nat, sign: string, digits: string)
    requires Extracts(s, i, k, sign, digits)
    ensures i < k && i + |sign| <= k && s[i + |sign|..k] == digits
    ensures if sign == "" then IsDigit(s[i]) else [s[i]] == sign
  {
    assert s[i..k][0] == s[i];
    assert digits == s[i..k][|sign|..] == s[i + |sign|..k];
    assert digits != "" ==> s[i + |sign|] == digits[0];
  }

  lemma {:induction false} DigitsEndMeans(s: string, i: nat)
    requires i <= |s|
    ensures AllDigits(s[i..DigitsEnd(s, i)]) && (DigitsEnd(s, i) < |s| ==> !IsDigit(s[DigitsEnd(s, i)]))
    decreases |s| - i
  {
    if i < |s| && IsDigit(s[i]) {
      DigitsEndMeans(s, i + 1);
      var k := DigitsEnd(s, i + 1);
      assert s[i..k] == [s[i]] + s[i + 1..k];
    }
  }

  /** Nothing is extracted, or a sign and digits. */
  lemma ReadMeans(s: string, i: nat) returns (sign: string, digits: string)
    requires i < |s|
    ensures var e := ReadInt(s, i);
            if e.next == i then e == Extraction(Some(0), i, false) else Extracts(s, i, e.next, sign, digits)
  {
    var k := ReadInt(s, i).next;
    sign := if s[i] in {'-', '+'} then [s[i]] else "";
    var j := i + |sign|;
    DigitsEndMeans(s, j);
    digits := s[j..k];
    assert s[i..k] == sign + digits;
  }

  /** Besides open ranges: the end is a number with an optional sign, not before `first`. */
  ghost predicate EndFits(rest: string, first: int) {
    rest == "" || exists sign, digits :: Signed(rest, sign, digits) && first <= Clamp(SignedValue(sign, digits)) as int
  }

  ghost predicate SuffixText(s: string, k: string) {
    s == "-" + k && AllDigits(k) && 0 < Value(k) && INT64_MIN <= 0 - Value(k)
  }

  /** A number, a hyphen, and the rest; the number is not negative, but may be a negative zero. */
  ghost predicate Opens(s: string, sign: string, a: string, rest: string) {
    s == sign + a + "-" + rest && a != "" && Signed(sign + a, sign, a) && 0 <= SignedValue(sign, a) <= INT64_MAX
  }

  ghost predicate RangeText(s: string, sign: string, a: string, rest: string) {
    Opens(s, sign, a, rest) && EndFits(rest, SignedValue(sign, a))
  }

  lemma SuffixParses(s: string, k: string)
    requires SuffixText(s, k)
    ensures Parsed(s) == Range(PARSED, (0 - Value(k)) as int64, INT64_MAX as int64)
  {
    assert s[0..|s|] == s;
    ReadSigned(s, 0, |s|, "-", k);
  }

  lemma RangeStarts(s: string, sign: string, a: string, rest: string)
    requires Opens(s, sign, a, rest)
    ensures var k := |sign + a|; k < |s| && s[k] == '-' && s[k + 1..] == rest && Extracts(s, 0, k, sign, a)
  {
    var k := |sign + a|;
    assert s[0..k] == sign + a && s[k] == '-' && s[k + 1..] == rest;
  }

  /** Up to the hyphen. */
  lemma OpeningParses(s: string, sign: string, a: string, rest: string)
    requires Opens(s, sign, a, rest)
    ensures var k, first := |sign + a| + 1, SignedValue(sign, a) as int64;
            k <= |s| && s[k..] == rest
            && Parsed(s) == if ReadInt(s, k).next == |s| && first <= EndOf(s, k) then Range(PARSED, first, EndOf(s, k))
                            else INVALID_RANGE
  {
    RangeStarts(s, sign, a, rest);
    ReadSigned(s, 0, |sign + a|, sign, a);
  }

  lemma EndReads(s: string, i: nat, sign: string, digits: string)
    requires i <= |s| && Signed(s[i..], sign, digits)
    ensures ReadInt(s, i).next == |s| && EndOf(s, i) == Clamp(SignedValue(sign, digits))
  {
    assert s[i..|s|] == s[i..];
    ReadSigned(s, i, |s|, sign, digits);
  }

  lemma OpenRangeParses(s: string, sign: string, a: string)
    requires Opens(s, sign, a, "")
    ensures Parsed(s) == Range(PARSED, SignedValue(sign, a) as int64, INT64_MAX as int64)
  {
    OpeningParses(s, sign, a, "");
  }

  /** The end is the second number cut to an int64. */
  lemma ClosedRangeParses(s: string, sign: string, a: string, rest: string, sign': string, digits: string)
    requires Opens(s, sign, a, rest) && Signed(rest, sign', digits)
    ensures var first, last := SignedValue(sign, a) as int64, Clamp(SignedValue(sign', digits));
            Parsed(s) == if first <= last then Range(PARSED, first, last) else INVALID_RANGE
  {
    OpeningParses(s, sign, a, rest);
    EndReads(s, |sign + a| + 1, sign', digits);
  }

  lemma EndAccepted(s: string, i: nat, first: int)
    requires i <= |s| && ReadInt(s, i).next == |s| && first <= EndOf(s, i) as int
    ensures EndFits(s[i..], first)
  {
    if i < |s| {
      var sign, digits := ReadMeans(s, i);
      assert s[i..|s|] == s[i..];
      EndReads(s, i, sign, digits);
    }
  }

  lemma RangeAccepted(s: string, k: nat, sign: string, a: string)
    requires Extracts(s, 0, k, sign, a) && a != "" && 0 <= SignedValue(sign, a) <= INT64_MAX
    requires k < |s| && s[k] == '-' && EndFits(s[k + 1..], SignedValue(sign, a))
    ensures RangeText(s, sign, a, s[k + 1..])
  {
    assert s == s[0..k] + "-" + s[k + 1..];
  }

  lemma SuffixAccepted(s: string, sign: string, a: string)
    requires Extracts(s, 0, |s|, sign, a) && INT64_MIN <= SignedValue(sign, a) < 0
    ensures SuffixText(s, a)
  {
    assert s == s[0..|s|];
  }

  /** The first number of a text that parses, and what follows it. */
  lemma FirstAccepted(s: string) returns (sign: string, a: string)
    requires Parsed(s).kind == PARSED
    ensures var k, v := ReadInt(s, 0).next, SignedValue(sign, a);
            && Extracts(s, 0, k, sign, a) && a != "" && INT64_MIN <= v <= INT64_MAX
            && (v < 0 ==> k == |s|)
            && (v >= 0 ==> k < |s| && s[k] == '-' && ReadInt(s, k + 1).next == |s| && v <= EndOf(s, k + 1) as int)
  {
    sign, a := ReadMeans(s, 0);
    ReadSigned(s, 0, ReadInt(s, 0).next, sign, a);
  }

  lemma OnlyTheseParse(s: string)
    requires Parsed(s).kind == PARSED
    ensures (exists k :: SuffixText(s, k)) || exists sign, a, rest :: RangeText(s, sign, a, rest)
  {
    var sign, a := FirstAccepted(s);
    var k := ReadInt(s, 0).next;
    if SignedValue(sign, a) < 0 {
      SuffixAccepted(s, sign, a);
    } else {
      EndAccepted(s, k + 1, SignedValue(sign, a));
      RangeAccepted(s, k, sign, a);
    }
  }

  /** The texts that do not come out invalid: suffix ranges that fit int64, and two numbers around a
      hyphen, of which the second can be missing and both can carry signs. */
  lemma ParsesIff(s: string)
    ensures Parsed(s) != INVALID_RANGE
       <==> (exists k :: SuffixText(s, k)) || exists sign, a, rest :: RangeText(s, sign, a, rest)
  {
    if Parsed(s) != INVALID_RANGE {
      OnlyTheseParse(s);
    }
    if k :| SuffixText(s, k) {
      SuffixParses(s, k);
    }
    if sign, a, rest :| RangeText(s, sign, a, rest) {
      if rest == "" {
        OpenRangeParses(s, sign, a);
      } else {
        var sign', digits :| Signed(rest, sign', digits) && SignedValue(sign, a) <= Clamp(SignedValue(sign', digits)) as int;
        ClosedRangeParses(s, sign, a, rest, sign', digits);
      }
    }
  }

  /** What RFC 7233 does not allow but the parser accepts: "0--" reads as "0-0". */
  lemma LoneSignIsZero()
    ensures Parsed("0--") == Range(PARSED, 0, 0)
  {
    assert "0--" == "" + "0" + "-" + "-";
    assert Value("") == 0 && Value("0") == 10 * Value("") + 0;
    assert Signed("-", "-", "") && Signed("0", "", "0");
    ClosedRangeParses("0--", "", "0", "-", "-", "");
  }
}
