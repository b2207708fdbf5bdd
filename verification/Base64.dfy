/** src/tools/base64.cpp: the encoder and decoder loops, against section 4 of RFC 4648.
    Both strings are byte strings; a character literal stands for its ASCII code. */
module Base64 {
  import opened Seqs

  const UPPER := "ABCDEFGHIJKLMNOPQRSTUVWXYZ"
  const LOWER := "abcdefghijklmnopqrstuvwxyz"
  const DIGITS := "0123456789+/"
  const BASE64_CHARS := UPPER + LOWER + DIGITS

  const PAD: bv8 := 61  // '='

  /** The character for a 6-bit value (Table 1 of RFC 4648). */
  function CharOf(v: bv8): bv8
    requires v < 64
  {
    if v < 26 then v + 65 else if v < 52 then v + 71 else if v < 62 then v - 4 else if v == 62 then 43 else 47
  }

  /** `base64_chars.find(c)`, stored in an unsigned char: npos becomes 255. */
  function Find(c: bv8): bv8 {
    if 65 <= c <= 90 then c - 65
    else if 97 <= c <= 122 then c - 71
    else if 48 <= c <= 57 then c + 4
    else if c == 43 then 62 else if c == 47 then 63 else 255
  }

  /** `is_base64`, in the C locale. */
  predicate IsBase64(c: bv8) {
    65 <= c <= 90 || 97 <= c <= 122 || 48 <= c <= 57 || c == 43 || c == 47
  }

  /** The lookups are inverse to each other, and `=` is outside the alphabet. */
  lemma LookupsInvert(v: bv8, c: bv8)
    ensures v < 64 ==> IsBase64(CharOf(v)) && Find(CharOf(v)) == v
    ensures IsBase64(c) ==> Find(c) < 64 && CharOf(Find(c)) == c
    ensures !IsBase64(c) ==> Find(c) == 255
    ensures !IsBase64(PAD)
  {
  }

  lemma UpperRange(i: nat)
    requires i < 26
    ensures |UPPER| == 26 && UPPER[i] as int == 65 + i
  {
    if i < 13 { if i < 7 {} else {} } else { if i < 20 {} else {} }
  }

  lemma LowerRange(i: nat)
    requires i < 26
    ensures |LOWER| == 26 && LOWER[i] as int == 97 + i
  {
    if i < 13 { if i < 7 {} else {} } else { if i < 20 {} else {} }
  }

  lemma DigitRange(i: nat)
    requires i < 12
    ensures |DIGITS| == 12 && DIGITS[i] as int == if i < 10 then 48 + i else if i == 10 then 43 else 47
  {
    if i < 6 {} else {}
  }

  /** `CharOf` in integers. */
  lemma CharCode(v: bv8)
    requires v < 64
    ensures var n := v as int;
            CharOf(v) as int == if n < 26 then n + 65 else if n < 52 then n + 71
                                else if n < 62 then n - 4 else if n == 62 then 43 else 47
  {
  }

  /** `CharOf` is indexing in the table of the source. */
  lemma TableIsAlphabet(v: bv8)
    requires v < 64
    ensures |BASE64_CHARS| == 64 && CharOf(v) as int == BASE64_CHARS[v as int] as int
  {
    var i := v as int;
    CharCode(v);
    if i < 26 { UpperRange(i); LowerRange(0); DigitRange(0); }
    else if i < 52 { UpperRange(0); LowerRange(i - 26); DigitRange(0); }
    else { UpperRange(0); LowerRange(0); DigitRange(i - 52); }
  }

  // ---- One group of 24 bits --------------------------------------------------

  /** Three bytes, most significant first. */
  function Group(a: bv8, b: bv8, c: bv8): bv24 {
    ((a as bv24) << 16) | ((b as bv24) << 8) | (c as bv24)
  }

  /** The four 6-bit values of a group, most significant first. */
  function Sextets(g: bv24): (bv8, bv8, bv8, bv8) {
    ((g >> 18) as bv8, ((g >> 12) & 0x3f) as bv8, ((g >> 6) & 0x3f) as bv8, (g & 0x3f) as bv8)
  }

  /** The shifts and masks of the encoder cut the group into its sextets. */
  lemma EncoderCut(a: bv8, b: bv8, c: bv8)
    ensures ((a & 0xfc) >> 2, ((a & 0x03) << 4) + ((b & 0xf0) >> 4), ((b & 0x0f) << 2) + ((c & 0xc0) >> 6), c & 0x3f)
         == Sextets(Group(a, b, c))
    ensures var q := Sextets(Group(a, b, c)); q.0 < 64 && q.1 < 64 && q.2 < 64 && q.3 < 64
  {
  }

  /** The decoder's three bytes from four values. */
  function Bytes(p: bv8, q: bv8, r: bv8, s: bv8): (b: seq<bv8>)
    ensures |b| == 3
  {
    [(p << 2) + ((q & 0x30) >> 4), ((q & 0xf) << 4) + ((r & 0x3c) >> 2), ((r & 0x3) << 6) + s]
  }

  lemma DecoderJoins(a: bv8, b: bv8, c: bv8)
    ensures var q := Sextets(Group(a, b, c)); Bytes(q.0, q.1, q.2, q.3) == [a, b, c]
  {
  }

  // ---- Encoding (section 4 of RFC 4648) --------------------------------------

  ghost predicate Small(v: seq<bv8>) {
    forall k | 0 <= k < |v| :: v[k] < 64
  }

  /** The sextets of a group as a list. */
  function Values(a: bv8, b: bv8, c: bv8): (v: seq<bv8>)
    ensures |v| == 4 && Small(v)
  {
    EncoderCut(a, b, c);
    var q := Sextets(Group(a, b, c));
    [q.0, q.1, q.2, q.3]
  }

  function Chars(v: seq<bv8>): (r: seq<bv8>)
    requires Small(v)
  {
    seq(|v|, k requires 0 <= k < |v| => CharOf(v[k]))
  }

  /** The four characters of a group. */
  function Quad(a: bv8, b: bv8, c: bv8): (r: seq<bv8>)
    ensures |r| == 4
  {
    Chars(Values(a, b, c))
  }

  /** The characters that encode `s` from position `from` on, without padding. */
  function Core(s: seq<bv8>, from: nat): seq<bv8>
    requires from <= |s|
    decreases |s| - from
  {
    var n := |s| - from;
    if n == 0 then []
    else if n == 1 then Quad(s[from], 0, 0)[..2]
    else if n == 2 then Quad(s[from], s[from + 1], 0)[..3]
    else Quad(s[from], s[from + 1], s[from + 2]) + Core(s, from + 3)
  }

  /** Two pad characters after a final single byte, one after a final pair. */
  function Padding(n: nat): seq<bv8> {
    if n % 3 == 1 then [PAD, PAD] else if n % 3 == 2 then [PAD] else []
  }

  function Encode(s: seq<bv8>): seq<bv8> {
    Core(s, 0) + Padding(|s|)
  }

  lemma {:induction false} CoreLength(s: seq<bv8>, from: nat)
    requires from <= |s|
    ensures |Core(s, from)| + |Padding(|s| - from)| == 4 * ((|s| - from + 2) / 3)
    decreases |s| - from
  {
    var n := |s| - from;
    if n > 2 {
      assert (n - 3) % 3 == n % 3 && (n - 1) / 3 + 1 == (n + 2) / 3;
      CoreLength(s, from + 3);
    }
  }

  /** The encoding has 4 * ceil(n / 3) characters. */
  lemma EncodedLength(s: seq<bv8>)
    ensures |Encode(s)| == 4 * ((|s| + 2) / 3)
  {
    CoreLength(s, 0);
  }

  /** `char_array_4` from `char_array_3`, as both branches of the encoder fill it. */
  method Cut(triple: array<bv8>, quad: array<bv8>)
    requires triple.Length == 3 && quad.Length == 4 && triple != quad
    modifies quad
    ensures quad[..] == Values(triple[0], triple[1], triple[2])
  {
    var a, b, c := triple[0], triple[1], triple[2];
    EncoderCut(a, b, c);
    ghost var q := Sextets(Group(a, b, c));
    var q0, q1 := (a & 0xfc) >> 2, ((a & 0x03) << 4) + ((b & 0xf0) >> 4);
    var q2, q3 := ((b & 0x0f) << 2) + ((c & 0xc0) >> 6), c & 0x3f;
    assert (q0, q1, q2, q3) == q;
    quad[0], quad[1], quad[2], quad[3] := q0, q1, q2, q3;
    assert quad[..] == [q0, q1, q2, q3];
  }

  /** Appends the characters of the first `n` values of `quad`. */
  method AppendChars(ret: seq<bv8>, quad: array<bv8>, n: nat) returns (r: seq<bv8>)
    requires n <= quad.Length && Small(quad[..])
    ensures r == ret + Chars(quad[..])[..n]
  {
    r := ret;
    for k := 0 to n
      invariant r == ret + Chars(quad[..])[..k]
    {
      assert quad[..][k] == quad[k];
      r := r + [CharOf(quad[k])];
    }
  }

  /** One more byte in a buffer that holds `i`. */
  method Store(buffer: array<bv8>, i: nat, c: bv8)
    requires i < buffer.Length
    modifies buffer
    ensures buffer[..i + 1] == old(buffer[..i]) + [c]
  {
    buffer[i] := c;
  }

  lemma SliceSnoc(s: seq<bv8>, from: nat, to: nat)
    requires from <= to < |s|
    ensures s[from..to + 1] == s[from..to] + [s[to]]
  {
  }

  method Base64Encode(inString: seq<bv8>) returns (ret: seq<bv8>)
    ensures ret == Encode(inString)
  {
    var triple, quad := new bv8[3], new bv8[4];
    var i;
    ret, i := EncodeLoop(inString, triple, quad);
    if i > 0 {
      ret := EncodeRest(inString, ret, triple, quad, i);
    }
  }

  /** The characters of the full groups; the last `i` bytes are left over in `triple`. */
  method EncodeLoop(inString: seq<bv8>, triple: array<bv8>, quad: array<bv8>) returns (ret: seq<bv8>, i: nat)
    requires triple.Length == 3 && quad.Length == 4 && triple != quad
    modifies triple, quad
    ensures i < 3 && i <= |inString| && (|inString| - i) % 3 == 0
    ensures triple[..i] == inString[|inString| - i..] && ret + Core(inString, |inString| - i) == Core(inString, 0)
  {
    var pos := 0;
    ghost var at := 0;
    ret, i := [], 0;
    while pos < |inString|
      invariant 0 <= i < 3 && at + i == pos <= |inString| && at % 3 == 0
      invariant triple[..i] == inString[at..pos]
      invariant ret + Core(inString, at) == Core(inString, 0)
    {
      SliceSnoc(inString, at, pos);
      Store(triple, i, inString[pos]);
      i, pos := i + 1, pos + 1;
      if i == 3 {
        ret := EncodeGroup(inString, at, ret, triple, quad);
        i, at := 0, pos;
      }
    }
  }

  /** A full buffer: the four characters of the three bytes at `at`. */
  method EncodeGroup(ghost s: seq<bv8>, ghost at: nat, done: seq<bv8>, triple: array<bv8>, quad: array<bv8>)
    returns (ret: seq<bv8>)
    requires triple.Length == 3 && quad.Length == 4 && triple != quad
    requires at + 3 <= |s| && triple[..] == s[at..at + 3]
    modifies quad
    ensures ret + Core(s, at + 3) == done + Core(s, at)
  {
    assert triple[0] == triple[..][0] && triple[1] == triple[..][1] && triple[2] == triple[..][2];
    Cut(triple, quad);
    ret := AppendChars(done, quad, 4);
    Assoc(done, Quad(s[at], s[at + 1], s[at + 2]), Core(s, at + 3));
  }

  /** Zeros behind the `n` bytes of a buffer. */
  method ZeroFill(buffer: array<bv8>, n: nat)
    requires n <= buffer.Length
    modifies buffer
    ensures buffer[..n] == old(buffer[..n]) && forall k | n <= k < buffer.Length :: buffer[k] == 0
  {
    for j := n to buffer.Length
      invariant buffer[..n] == old(buffer[..n]) && forall k | n <= k < j :: buffer[k] == 0
    {
      buffer[j] := 0;
    }
  }

  /** The pad characters after `n` bytes of a group. */
  method AppendPadding(ret: seq<bv8>, n: nat) returns (r: seq<bv8>)
    requires 1 <= n <= 2
    ensures r == ret + Padding(n)
  {
    r := ret;
    var i := n;
    while i < 3
      invariant n <= i <= 3 && r == ret + Padding(n)[..i - n]
    {
      r := r + [PAD];
      i := i + 1;
    }
  }

  /** The final one or two bytes. */
  method EncodeRest(ghost s: seq<bv8>, done: seq<bv8>, triple: array<bv8>, quad: array<bv8>, n: nat) returns (ret: seq<bv8>)
    requires triple.Length == 3 && quad.Length == 4 && triple != quad
    requires 1 <= n <= 2 && n <= |s| && triple[..n] == s[|s| - n..] && (|s| - n) % 3 == 0
    requires done + Core(s, |s| - n) == Core(s, 0)
    modifies triple, quad
    ensures ret == Encode(s)
  {
    ZeroFill(triple, n);
    LastCore(s, n, triple[..]);
    Cut(triple, quad);
    ret := AppendChars(done, quad, n + 1);
    ret := AppendPadding(ret, n);
    assert Padding(|s|) == Padding(n);
  }

  lemma LastCore(s: seq<bv8>, n: nat, t: seq<bv8>)
    requires 1 <= n <= 2 && n <= |s| && |t| == 3 && t[..n] == s[|s| - n..] && t[2] == 0 && (n == 1 ==> t[1] == 0)
    ensures Core(s, |s| - n) == Quad(t[0], t[1], t[2])[..n + 1]
  {
    var at := |s| - n;
    assert s[at] == s[at..][0] && s[at..][0] == t[..n][0];
    if n == 2 {
      assert s[at + 1] == s[at..][1] && s[at..][1] == t[..n][1];
    }
  }

  // ---- Decoding --------------------------------------------------------------

  /** The first position from `from` on that is no base64 character; `=` is none. */
  function Stop(e: seq<bv8>, from: nat): (p: nat)
    requires from <= |e|
    ensures from <= p <= |e|
    decreases |e| - from
  {
    if from == |e| || e[from] == PAD || !IsBase64(e[from]) then from else Stop(e, from + 1)
  }

  /** The value at position `k`; the decoder looks up a zero byte where the text is too short. */
  function ValueAt(p: seq<bv8>, k: nat): bv8 {
    Find(if k < |p| then p[k] else 0)
  }

  function Joined(p: seq<bv8>): (b: seq<bv8>)
    ensures |b| == 3
  {
    Bytes(ValueAt(p, 0), ValueAt(p, 1), ValueAt(p, 2), ValueAt(p, 3))
  }

  /** The bytes of base64 characters: three for every four, one less than its length for a tail. */
  function Groups(p: seq<bv8>): seq<bv8> {
    if p == [] then []
    else if |p| < 4 then Joined(p)[..|p| - 1]
    else Joined(p[..4]) + Groups(p[4..])
  }

  function Decode(e: seq<bv8>): seq<bv8> {
    Groups(e[..Stop(e, 0)])
  }

  method LookUp(quad: array<bv8>)
    requires quad.Length == 4
    modifies quad
    ensures forall k | 0 <= k < 4 :: quad[k] == old(ValueAt(quad[..], k))
  {
    for i := 0 to 4
      invariant forall k | 0 <= k < i :: quad[k] == Find(old(quad[k]))
      invariant forall k | i <= k < 4 :: quad[k] == old(quad[k])
    {
      quad[i] := Find(quad[i]);
    }
  }

  /** Looks the four characters up in place, then joins them. */
  method JoinQuad(quad: array<bv8>, triple: array<bv8>)
    requires triple.Length == 3 && quad.Length == 4 && triple != quad
    modifies quad, triple
    ensures triple[..] == old(Joined(quad[..]))
  {
    LookUp(quad);
    var a, b, c, d := quad[0], quad[1], quad[2], quad[3];
    var x, y, z := (a << 2) + ((b & 0x30) >> 4), ((b & 0xf) << 4) + ((c & 0x3c) >> 2), ((c & 0x3) << 6) + d;
    ghost var bytes := Bytes(a, b, c, d);
    triple[0], triple[1], triple[2] := x, y, z;
    assert triple[..] == bytes;
  }

  method AppendBytes(ret: seq<bv8>, triple: array<bv8>, n: nat) returns (r: seq<bv8>)
    requires n <= triple.Length
    ensures r == ret + triple[..n]
  {
    r := ret;
    for k := 0 to n
      invariant r == ret + triple[..k]
    {
      r := r + [triple[k]];
    }
  }

  method Base64Decode(encoded: seq<bv8>) returns (ret: seq<bv8>)
    requires |encoded| < 0x8000_0000
    ensures ret == Decode(encoded)
  {
    var quad, triple := new bv8[4], new bv8[3];
    var i;
    ret, i := DecodeLoop(encoded, quad, triple);
    if i > 0 {
      ret := DecodeRest(ret, quad, triple, i);
    }
  }

  /** The bytes of the full groups; the first `i` characters of `quad` are left over. */
  method DecodeLoop(encoded: seq<bv8>, quad: array<bv8>, triple: array<bv8>) returns (ret: seq<bv8>, i: nat)
    requires triple.Length == 3 && quad.Length == 4 && triple != quad
    modifies quad, triple
    ensures i < 4 && ret + Groups(quad[..i]) == Decode(encoded)
  {
    ghost var p := encoded[..Stop(encoded, 0)];
    ghost var at := 0;
    var pos := 0;
    ret, i := [], 0;
    while pos < |encoded| && encoded[pos] != PAD && IsBase64(encoded[pos])
      invariant 0 <= i < 4 && at + i == pos <= |p| == Stop(encoded, pos)
      invariant quad[..i] == p[at..pos]
      invariant ret + Groups(p[at..]) == Decode(encoded)
    {
      SliceSnoc(p, at, pos);
      Store(quad, i, encoded[pos]);
      i, pos := i + 1, pos + 1;
      if i == 4 {
        ret := DecodeGroup(p, at, ret, quad, triple);
        i, at := 0, pos;
      }
    }
    assert p[at..] == p[at..pos];
  }

  method DecodeGroup(ghost p: seq<bv8>, ghost at: nat, done: seq<bv8>, quad: array<bv8>, triple: array<bv8>)
    returns (ret: seq<bv8>)
    requires triple.Length == 3 && quad.Length == 4 && triple != quad
    requires at + 4 <= |p| && quad[..] == p[at..at + 4]
    modifies quad, triple
    ensures ret + Groups(p[at + 4..]) == done + Groups(p[at..])
  {
    ghost var q := p[at..];
    assert q[..4] == quad[..] && q[4..] == p[at + 4..];
    JoinQuad(quad, triple);
    ret := AppendBytes(done, triple, 3);
    Assoc(done, Joined(q[..4]), Groups(q[4..]));
  }

  method DecodeRest(done: seq<bv8>, quad: array<bv8>, triple: array<bv8>, n: nat) returns (ret: seq<bv8>)
    requires triple.Length == 3 && quad.Length == 4 && triple != quad && 1 <= n <= 3
    modifies quad, triple
    ensures ret == done + Groups(old(quad[..n]))
  {
    ghost var p := quad[..n];
    ZeroFill(quad, n);
    assert Joined(quad[..]) == Joined(p) by {
      assert forall k | 0 <= k < 4 :: ValueAt(quad[..], k) == ValueAt(p, k);
    }
    JoinQuad(quad, triple);
    ret := AppendBytes(done, triple, n - 1);
  }

  // ---- Round trip ------------------------------------------------------------

  lemma {:induction false} StopsAt(e: seq<bv8>, from: nat, p: nat)
    requires from <= p <= |e|
    requires forall k | from <= k < p :: IsBase64(e[k])
    requires p < |e| ==> !IsBase64(e[p])
    ensures Stop(e, from) == p
    decreases p - from
  {
    if from < p { StopsAt(e, from + 1, p); }
  }

  /** Every character of a group is in the alphabet, and the group decodes to its bytes. */
  lemma QuadDecodes(a: bv8, b: bv8, c: bv8)
    ensures forall k | 0 <= k < 4 :: IsBase64(Quad(a, b, c)[k])
    ensures Joined(Quad(a, b, c)) == [a, b, c]
  {
    var v := Values(a, b, c);
    LookupsInvert(v[0], 0);
    LookupsInvert(v[1], 0);
    LookupsInvert(v[2], 0);
    LookupsInvert(v[3], 0);
    DecoderJoins(a, b, c);
  }

  /** The bytes a tail yields do not depend on the looked-up zero byte. */
  lemma TailIgnoresFill(p: seq<bv8>, q: seq<bv8>)
    requires 1 <= |p| <= 3 && |p| <= |q| && q[..|p|] == p
    ensures Joined(p)[..|p| - 1] == Joined(q)[..|p| - 1]
  {
    assert forall k | 0 <= k < |p| :: q[k] == q[..|p|][k];
    assert ValueAt(q, 0) == ValueAt(p, 0);
    if |p| > 1 {
      assert ValueAt(q, 1) == ValueAt(p, 1);
      assert |p| == 3 ==> ValueAt(q, 2) == ValueAt(p, 2);
      FirstBytes(ValueAt(p, 0), ValueAt(p, 1), ValueAt(p, 2), ValueAt(p, 3), ValueAt(q, 2), ValueAt(q, 3));
    }
  }

  /** One byte from two values, two bytes from three. */
  lemma FirstBytes(a: bv8, b: bv8, c: bv8, d: bv8, c': bv8, d': bv8)
    ensures Bytes(a, b, c, d)[..1] == Bytes(a, b, c', d')[..1]
    ensures c == c' ==> Bytes(a, b, c, d)[..2] == Bytes(a, b, c', d')[..2]
  {
  }

  lemma {:induction false} CoreDecodes(s: seq<bv8>, from: nat)
    requires from <= |s|
    ensures forall c | c in Core(s, from) :: IsBase64(c)
    ensures Groups(Core(s, from)) == s[from..]
    decreases |s| - from
  {
    var n := |s| - from;
    if n == 1 {
      var q := Quad(s[from], 0, 0);
      QuadDecodes(s[from], 0, 0);
      TailIgnoresFill(q[..2], q);
    } else if n == 2 {
      var q := Quad(s[from], s[from + 1], 0);
      QuadDecodes(s[from], s[from + 1], 0);
      TailIgnoresFill(q[..3], q);
    } else if n > 2 {
      var q, rest := Quad(s[from], s[from + 1], s[from + 2]), Core(s, from + 3);
      QuadDecodes(s[from], s[from + 1], s[from + 2]);
      CoreDecodes(s, from + 3);
      assert (q + rest)[..4] == q && (q + rest)[4..] == rest;
    }
  }

  /** Decoding inverts encoding, for every byte string. */
  lemma RoundTrip(s: seq<bv8>)
    ensures Decode(Encode(s)) == s
  {
    var core := Core(s, 0);
    CoreDecodes(s, 0);
    StopsAt(Encode(s), 0, |core|);
    assert Encode(s)[..|core|] == core;
  }

  ghost predicate InAlphabet(e: seq<bv8>) {
    forall i | 0 <= i < |e| :: IsBase64(e[i])
  }

  ghost predicate OnlyEquals(e: seq<bv8>) {
    forall i | 0 <= i < |e| :: e[i] as int == '=' as int
  }

  /** Nothing from the first foreign character on is decoded, be it `=` or another one. */
  lemma ForeignEnds(e: seq<bv8>, rest: seq<bv8>)
    requires InAlphabet(e) && (rest != [] ==> !IsBase64(rest[0]))
    ensures Decode(e + rest) == Decode(e)
  {
    StopsAt(e + rest, 0, |e|);
    StopsAt(e, 0, |e|);
    assert (e + rest)[..|e|] == e == e[..|e|];
  }

  /** Characters of the alphabet, then as many `=` as the last group lacks. */
  lemma EncodedShape(s: seq<bv8>) returns (body: seq<bv8>, pads: seq<bv8>)
    ensures Encode(s) == body + pads && InAlphabet(body) && OnlyEquals(pads) && |pads| == (3 - |s| % 3) % 3
  {
    body, pads := Core(s, 0), Padding(|s|);
    CoreIsAlphabet(s);
    PaddingIsEquals(|s|);
  }

  lemma CoreIsAlphabet(s: seq<bv8>)
    ensures InAlphabet(Core(s, 0))
  {
    CoreDecodes(s, 0);
    var core := Core(s, 0);
    assert forall i | 0 <= i < |core| :: core[i] in core;
  }

  lemma PaddingIsEquals(n: nat)
    ensures OnlyEquals(Padding(n)) && |Padding(n)| == (3 - n % 3) % 3
  {
  }
}
