/** `urlEncode` and `urlDecode` of src/tools/stringTools.cpp. A `std::string` is a list of bytes. */
module Url {
  import opened Seqs

  /** What a `std::string` holds. */
  predicate IsBytes(s: string) {
    forall i | 0 <= i < |s| :: s[i] as int < 256
  }

  predicate IsHarmless(c: char) {
    'a' <= c <= 'z' || 'A' <= c <= 'Z' || '0' <= c <= '9' || c in {'-', '_', '.', '!', '~', '*', '\'', '(', ')', '/'}
  }

  predicate IsReserved(c: char) {
    c in {';', ',', '?', ':', '@', '&', '=', '+', '$', '#'}
  }

  /** An upper-case hexadecimal digit. */
  function HexDigit(n: nat): char
    requires n < 16
  {
    if n < 10 then ('0' as int + n) as char else ('A' as int + n - 10) as char
  }

  /** `hexToInt`: both cases, -1 for anything else. */
  function HexToInt(c: char): (n: int)
    ensures -1 <= n < 16
  {
    if '0' <= c <= '9' then c as int - '0' as int
    else if 'A' <= c <= 'F' then c as int - 'A' as int + 10
    else if 'a' <= c <= 'f' then c as int - 'a' as int + 10
    else -1
  }

  /** The digits of both cases, in order, and nothing else. */
  lemma HexDigits(c: char, n: nat)
    requires n < 16
    ensures HexToInt(c) == n <==> c == "0123456789ABCDEF"[n] || c == "0123456789abcdef"[n]
    ensures HexDigit(n) == "0123456789ABCDEF"[n]
  {
    if n < 4 {} else if n < 8 {} else if n < 12 {} else {}
  }

  /** The two lists of the source. */
  lemma CharLists(c: char)
    ensures IsReserved(c) <==> c in ";,?:@&=+$#"
    ensures IsHarmless(c)
       <==> c in "abcdefghijklmnopqrstuvwxyz" || c in "ABCDEFGHIJKLMNOPQRSTUVWXYZ" || c in "0123456789" || c in "-_.!~*'()/"
  {
  }

  // ---- Encoding --------------------------------------------------------------

  function EncodeChar(c: char): string
    requires c as int < 256
  {
    if IsHarmless(c) then [c] else ['%', HexDigit(c as int / 16), HexDigit(c as int % 16)]
  }

  function Encode(value: string): string
    requires IsBytes(value)
  {
    if value == [] then "" else EncodeChar(value[0]) + Encode(value[1..])
  }

  method UrlEncode(value: string) returns (os: string)
    requires IsBytes(value)
    ensures os == Encode(value)
  {
    os := "";
    for i := 0 to |value|
      invariant os + Encode(value[i..]) == Encode(value)
    {
      var c := value[i];
      assert value[i..][0] == c && value[i..][1..] == value[i + 1..];
      Assoc(os, EncodeChar(c), Encode(value[i + 1..]));
      if IsHarmless(c) {
        os := os + [c];
      } else {
        var charVal := c as int;
        os := os + ['%', HexDigit(charVal / 16), HexDigit(charVal % 16)];
      }
    }
  }

  // ---- Decoding --------------------------------------------------------------

  /** The text an escape `%hi lo` stands for. A malformed escape, and outside a component an
      escaped reserved character, are copied. */
  function Unescape(hi: char, lo: char, component: bool): string {
    var iHi, iLo := HexToInt(hi), HexToInt(lo);
    if iHi < 0 || iLo < 0 then
      ['%', hi, lo]
    else
      var c := (16 * iHi + iLo) as char;
      if !component && IsReserved(c) then ['%', hi, lo] else [c]
  }

  function Decode(value: string, component: bool): string {
    if value == "" then ""
    else if |value| >= 3 && value[0] == '%' then
      Unescape(value[1], value[2], component) + Decode(value[3..], component)
    else
      [value[0]] + Decode(value[1..], component)
  }

  method UrlDecode(value: string, component: bool) returns (os: string)
    ensures os == Decode(value, component)
  {
    os := "";
    var it := 0;
    while it < |value|
      invariant it <= |value|
      invariant os + Decode(value[it..], component) == Decode(value, component)
    {
      ghost var left := value[it..];
      if |value| - it < 3 {
        assert left[1..] == value[it + 1..];
        Assoc(os, [value[it]], Decode(left[1..], component));
        os := os + [value[it]];
        it := it + 1;
      } else if value[it] == '%' {
        assert left[1] == value[it + 1] && left[2] == value[it + 2] && left[3..] == value[it + 3..];
        Assoc(os, Unescape(left[1], left[2], component), Decode(left[3..], component));
        it := it + 1;
        var hi := value[it];
        it := it + 1;
        var lo := value[it];
        var iHi, iLo := HexToInt(hi), HexToInt(lo);
        if iHi < 0 || iLo < 0 {
          os := os + ['%', hi, lo];
        } else {
          var c := (iHi * 16 + iLo) as char;
          if !component && IsReserved(c) {
            os := os + ['%', hi, lo];
          } else {
            os := os + [c];
          }
        }
        it := it + 1;
      } else {
        assert left[1..] == value[it + 1..];
        Assoc(os, [value[it]], Decode(left[1..], component));
        os := os + [value[it]];
        it := it + 1;
      }
    }
  }

  // ---- Round trip ------------------------------------------------------------

  lemma HexInverts(n: nat)
    requires n < 16
    ensures HexToInt(HexDigit(n)) == n && IsHarmless(HexDigit(n))
  {
  }

  /** One encoded byte in front of any text. */
  lemma DecodeOne(c: char, rest: string, component: bool)
    requires c as int < 256
    ensures var shown := if !component && IsReserved(c) then EncodeChar(c) else [c];
            Decode(EncodeChar(c) + rest, component) == shown + Decode(rest, component)
  {
    var hi, lo := c as int / 16, c as int % 16;
    HexInverts(hi);
    HexInverts(lo);
    var e := EncodeChar(c) + rest;
    if IsHarmless(c) {
      assert e[1..] == rest;
    } else {
      assert e[3..] == rest && e[1] == HexDigit(hi) && e[2] == HexDigit(lo);
      assert (16 * hi + lo) as char == c;
    }
  }

  /** What decoding makes of an encoded string: a component comes back whole, outside a component
      the reserved characters stay escaped. */
  function Shown(value: string, component: bool): string
    requires IsBytes(value)
  {
    if value == [] then ""
    else (if !component && IsReserved(value[0]) then EncodeChar(value[0]) else [value[0]]) + Shown(value[1..], component)
  }

  lemma {:induction false} DecodeEncode(value: string, component: bool)
    requires IsBytes(value)
    ensures Decode(Encode(value), component) == Shown(value, component)
  {
    if value != [] {
      DecodeOne(value[0], Encode(value[1..]), component);
      DecodeEncode(value[1..], component);
    }
  }

  lemma {:induction false} ShownIsValue(value: string, component: bool)
    requires IsBytes(value)
    ensures |Shown(value, component)| >= |value|
    ensures Shown(value, component) == value <==> component || forall c | c in value :: !IsReserved(c)
  {
    if value != [] {
      var rest := Shown(value[1..], component);
      ShownIsValue(value[1..], component);
      assert value == [value[0]] + value[1..];
      if !component && IsReserved(value[0]) {
        assert |Shown(value, component)| == 3 + |rest|;
      } else {
        assert Shown(value, component) == [value[0]] + rest;
        assert ([value[0]] + rest)[1..] == rest;
      }
    }
  }

  /** Every byte string comes back from its component encoding; without the component flag
      exactly the strings without reserved characters do. */
  lemma RoundTrip(value: string, component: bool)
    requires IsBytes(value)
    ensures Decode(Encode(value), component) == value <==> component || forall c | c in value :: !IsReserved(c)
  {
    DecodeEncode(value, component);
    ShownIsValue(value, component);
  }

  /** The characters of an encoding (section 2.1 of RFC 3986): none of the URL separators. */
  lemma {:induction false} EncodedChars(value: string)
    requires IsBytes(value)
    ensures forall c | c in Encode(value) :: c == '%' || IsHarmless(c)
  {
    if value != [] {
      EncodedChars(value[1..]);
      HexInverts(value[0] as int / 16);
      HexInverts(value[0] as int % 16);
    }
  }

  /** A well-formed escape stands at position `i`. */
  predicate EscapeAt(value: string, i: nat) {
    i + 2 < |value| && value[i] == '%' && HexToInt(value[i + 1]) >= 0 && HexToInt(value[i + 2]) >= 0
  }

  /** Text without well-formed escapes is copied, stray percent signs included. */
  lemma {:induction false} NoEscapeIsKept(value: string, component: bool)
    requires forall i: nat :: !EscapeAt(value, i)
    ensures Decode(value, component) == value
    decreases |value|
  {
    if value != "" {
      var n := if |value| >= 3 && value[0] == '%' then 3 else 1;
      var rest := value[n..];
      forall i: nat
        ensures !EscapeAt(rest, i)
      {
        assert !EscapeAt(value, n + i);
      }
      assert !EscapeAt(value, 0);
      NoEscapeIsKept(rest, component);
      assert value == value[..n] + rest;
      assert value[..n] == if n == 3 then ['%', value[1], value[2]] else [value[0]];
    }
  }

  // ---- Against a reference decoder -------------------------------------------

  /** The character the escape at `i` stands for. */
  function CharAt(value: string, i: nat): char
    requires EscapeAt(value, i)
  {
    (16 * HexToInt(value[i + 1]) + HexToInt(value[i + 2])) as char
  }

  /** The escape at `i` has to be replaced: outside a component, reserved characters stay escaped. */
  predicate ReplacedAt(value: string, i: nat, component: bool) {
    EscapeAt(value, i) && (component || !IsReserved(CharAt(value, i)))
  }

  /** The reference: from left to right every escape that has to be replaced is, and everything
      else is copied. */
  function Reference(value: string, component: bool): string {
    if value == "" then ""
    else if ReplacedAt(value, 0, component) then [CharAt(value, 0)] + Reference(value[3..], component)
    else [value[0]] + Reference(value[1..], component)
  }

  /** In the scan of the code, a `%` that begins no escape, with two characters behind it, is
      copied together with them; one of these begins an escape that had to be replaced. */
  predicate Swallows(value: string, component: bool) {
    if |value| < 3 then false
    else if value[0] != '%' then Swallows(value[1..], component)
    else
      (!EscapeAt(value, 0) && (ReplacedAt(value, 1, component) || ReplacedAt(value, 2, component)))
      || Swallows(value[3..], component)
  }

  /** A character that begins no escape to be replaced is copied. */
  lemma ReferenceCopies(value: string, component: bool)
    requires value != "" && !ReplacedAt(value, 0, component)
    ensures Reference(value, component) == [value[0]] + Reference(value[1..], component)
  {
  }

  lemma EscapeShift(value: string, n: nat, i: nat, component: bool)
    requires n <= |value|
    ensures EscapeAt(value[n..], i) <==> EscapeAt(value, n + i)
    ensures ReplacedAt(value[n..], i, component) <==> ReplacedAt(value, n + i, component)
  {
  }

  /** The reference on the three characters that the code copies at once. */
  lemma ReferenceOfThree(value: string, component: bool)
    requires |value| >= 3 && value[0] == '%' && !ReplacedAt(value, 0, component)
    requires !ReplacedAt(value, 1, component) && !ReplacedAt(value, 2, component)
    ensures Reference(value, component) == value[..3] + Reference(value[3..], component)
  {
    ReferenceCopies(value, component);
    EscapeShift(value, 1, 0, component);
    ReferenceCopies(value[1..], component);
    assert value[1..][1..] == value[2..];
    EscapeShift(value, 2, 0, component);
    ReferenceCopies(value[2..], component);
    assert value[2..][1..] == value[3..];
    Assoc([value[0]], [value[1]], [value[2]] + Reference(value[3..], component));
    Assoc([value[0]] + [value[1]], [value[2]], Reference(value[3..], component));
    assert value[..3] == [value[0]] + [value[1]] + [value[2]];
  }

  /** Characters of an escape after its `%` are copied when they are scanned on their own. */
  lemma {:induction false} ReferencePlain(value: string, n: nat, component: bool)
    requires n <= |value| && forall i | 0 <= i < n :: value[i] != '%'
    ensures |Reference(value, component)| == n + |Reference(value[n..], component)|
    decreases n
  {
    if n == 0 {
      assert value[0..] == value;
    } else {
      ReferenceCopies(value, component);
      ReferencePlain(value[1..], n - 1, component);
      assert value[1..][n - 1..] == value[n..];
    }
  }

  /** A swallowed escape leaves the code's result longer. */
  lemma SwallowedIsShorter(value: string, component: bool)
    requires |value| >= 3 && value[0] == '%' && !EscapeAt(value, 0)
    requires ReplacedAt(value, 1, component) || ReplacedAt(value, 2, component)
    ensures |Reference(value, component)| < 3 + |Reference(value[3..], component)|
  {
    ReferenceCopies(value, component);
    if ReplacedAt(value, 1, component) {
      EscapeShift(value, 1, 0, component);
      assert value[1..][3..] == value[4..];
      ReferencePlain(value[3..], 1, component);
      assert value[3..][1..] == value[4..];
    } else {
      EscapeShift(value, 1, 0, component);
      ReferenceCopies(value[1..], component);
      assert value[1..][1..] == value[2..];
      EscapeShift(value, 2, 0, component);
      assert value[2..][3..] == value[5..];
      ReferencePlain(value[3..], 2, component);
      assert value[3..][2..] == value[5..];
    }
  }

  /** Nothing swallowed at the front: code and reference agree on the first step. */
  lemma DecodeFront(value: string, component: bool)
    requires |value| >= 3 && value[0] == '%'
    requires EscapeAt(value, 0) || (!ReplacedAt(value, 1, component) && !ReplacedAt(value, 2, component))
    ensures var shown := Unescape(value[1], value[2], component);
            Decode(value, component) == shown + Decode(value[3..], component)
            && Reference(value, component) == shown + Reference(value[3..], component)
  {
    if !ReplacedAt(value, 0, component) {
      assert Unescape(value[1], value[2], component) == ['%', value[1], value[2]] == value[..3];
      ReferenceOfThree(value, component);
    }
  }

  lemma {:induction false} DecodeAgainstReference(value: string, component: bool)
    ensures |Decode(value, component)| >= |Reference(value, component)|
    ensures Swallows(value, component) ==> |Decode(value, component)| > |Reference(value, component)|
    ensures !Swallows(value, component) ==> Decode(value, component) == Reference(value, component)
    decreases |value|
  {
    if value != "" {
      if |value| >= 3 && value[0] == '%' {
        DecodeAgainstReference(value[3..], component);
        if EscapeAt(value, 0) || (!ReplacedAt(value, 1, component) && !ReplacedAt(value, 2, component)) {
          DecodeFront(value, component);
        } else {
          SwallowedIsShorter(value, component);
        }
      } else {
        DecodeAgainstReference(value[1..], component);
        ReferenceCopies(value, component);
      }
    }
  }

  /** `urlDecode` replaces every escape it should, exactly if no stray percent sign swallows one. */
  lemma DecodesAllIff(value: string, component: bool)
    ensures Decode(value, component) == Reference(value, component) <==> !Swallows(value, component)
  {
    DecodeAgainstReference(value, component);
  }

  /** A stray percent sign that swallows the escape behind it. */
  lemma StraySignSwallows()
    ensures Decode("%%41", true) == "%%41" && Reference("%%41", true) == "%A"
  {
    assert "%%41"[3..] == "1" && "1"[1..] == "" && "%%41"[1..] == "%41" && "%41"[3..] == "";
    assert Unescape('%', '4', true) == "%%4" && CharAt("%41", 0) == 'A';
  }
}
