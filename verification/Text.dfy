/** The string helpers of src/tools/stringTools.cpp that the other components build on:
    `split`, `join`, `startsWith`, and the order of `std::string`. */
module Text {
  import opened Seqs

  /** `s.find_first_of(delims, from)`, with |s| for npos and the delimiter string read as a set. */
  function FindFirstOf(s: string, delims: set<char>, from: nat): (p: nat)
    requires from <= |s|
    ensures from <= p <= |s|
    decreases |s| - from
  {
    if from == |s| || s[from] in delims then from else FindFirstOf(s, delims, from + 1)
  }

  function Token(token: string, dropEmpty: bool): seq<string> {
    if dropEmpty && token == "" then [] else [token]
  }

  function Delimiter(delim: string, keepDelim: bool): seq<string> {
    if keepDelim then [delim] else []
  }

  /** The tokens of `s` from position `from` on. */
  function SplitFrom(s: string, delims: set<char>, dropEmpty: bool, keepDelim: bool, from: nat): seq<string>
    requires from <= |s|
    decreases |s| - from
  {
    var p := FindFirstOf(s, delims, from);
    if p == |s| then
      Token(s[from..], dropEmpty)
    else
      Token(s[from..p], dropEmpty) + Delimiter(s[p..p + 1], keepDelim)
      + SplitFrom(s, delims, dropEmpty, keepDelim, p + 1)
  }

  function Split(s: string, delims: set<char>, dropEmpty: bool, keepDelim: bool): seq<string> {
    SplitFrom(s, delims, dropEmpty, keepDelim, 0)
  }

  lemma SplitAt(found: seq<string>, s: string, delims: set<char>, dropEmpty: bool, keepDelim: bool, from: nat, p: nat)
    requires from <= |s| && p == FindFirstOf(s, delims, from) < |s|
    ensures found + SplitFrom(s, delims, dropEmpty, keepDelim, from)
         == found + Token(s[from..p], dropEmpty) + Delimiter(s[p..p + 1], keepDelim)
            + SplitFrom(s, delims, dropEmpty, keepDelim, p + 1)
  {
    SplitUnfolds(s, delims, dropEmpty, keepDelim, from, p);
    Assoc4(found, Token(s[from..p], dropEmpty), Delimiter(s[p..p + 1], keepDelim),
           SplitFrom(s, delims, dropEmpty, keepDelim, p + 1));
  }

  lemma SplitUnfolds(s: string, delims: set<char>, dropEmpty: bool, keepDelim: bool, from: nat, p: nat)
    requires from <= |s| && p == FindFirstOf(s, delims, from) < |s|
    ensures SplitFrom(s, delims, dropEmpty, keepDelim, from)
         == Token(s[from..p], dropEmpty) + Delimiter(s[p..p + 1], keepDelim) + SplitFrom(s, delims, dropEmpty, keepDelim, p + 1)
  {
  }

  lemma SplitEnds(s: string, delims: set<char>, dropEmpty: bool, keepDelim: bool, from: nat)
    requires from <= |s| && FindFirstOf(s, delims, from) == |s|
    ensures SplitFrom(s, delims, dropEmpty, keepDelim, from) == Token(s[from..], dropEmpty)
  {
  }

  method PushToken(tokens: seq<string>, token: string, dropEmpty: bool) returns (r: seq<string>)
    ensures r == tokens + Token(token, dropEmpty)
  {
    r := tokens;
    if !dropEmpty || token != "" {
      r := r + [token];
    }
  }

  method PushDelimiter(tokens: seq<string>, delim: string, keepDelim: bool) returns (r: seq<string>)
    ensures r == tokens + Delimiter(delim, keepDelim)
  {
    r := tokens;
    if keepDelim {
      r := r + [delim];
    }
  }

  method SplitString(str: string, delims: set<char>, dropEmpty: bool, keepDelim: bool) returns (tokens: seq<string>)
    ensures tokens == Split(str, delims, dropEmpty, keepDelim)
  {
    var lastPos := 0;
    tokens := [];
    ghost var all := Split(str, delims, dropEmpty, keepDelim);
    assert [] + all == all;
    var pos := FindFirstOf(str, delims, lastPos);
    while pos < |str|
      invariant 0 <= lastPos <= pos <= |str|
      invariant pos == FindFirstOf(str, delims, lastPos)
      invariant tokens + SplitFrom(str, delims, dropEmpty, keepDelim, lastPos) == all
      decreases |str| - lastPos
    {
      SplitAt(tokens, str, delims, dropEmpty, keepDelim, lastPos, pos);
      tokens := PushToken(tokens, str[lastPos..pos], dropEmpty);
      tokens := PushDelimiter(tokens, str[pos..pos + 1], keepDelim);
      lastPos := pos + 1;
      pos := FindFirstOf(str, delims, lastPos);
    }
    SplitEnds(str, delims, dropEmpty, keepDelim, lastPos);
    tokens := PushToken(tokens, str[lastPos..], dropEmpty);
  }

  /** The elements of `list` with `sep` between neighbours. */
  function Join(list: seq<string>, sep: string): string {
    if list == [] then ""
    else if |list| == 1 then list[0]
    else list[0] + sep + Join(list[1..], sep)
  }

  lemma {:induction false} JoinSnoc(list: seq<string>, x: string, sep: string)
    ensures Join(list + [x], sep) == if list == [] then x else Join(list, sep) + sep + x
  {
    if |list| == 1 {
      assert (list + [x])[1..] == [x];
    } else if list != [] {
      assert (list + [x])[1..] == list[1..] + [x];
      JoinSnoc(list[1..], x, sep);
    }
  }

  method JoinStrings(list: seq<string>, sep: string) returns (r: string)
    ensures r == Join(list, sep)
  {
    r := "";
    var first := true;
    for i := 0 to |list|
      invariant first <==> i == 0
      invariant r == Join(list[..i], sep)
    {
      assert list[..i + 1] == list[..i] + [list[i]];
      JoinSnoc(list[..i], list[i], sep);
      if !first {
        r := r + sep;
      }
      first := false;
      r := r + list[i];
    }
    assert list[..|list|] == list;
  }

  ghost predicate AllFree(list: seq<string>, c: char) {
    forall x | x in list :: c !in x
  }

  /** `FindFirstOf` returns the first delimiter position, and only that. */
  lemma {:induction false} FirstDelimiter(s: string, delims: set<char>, from: nat, p: nat)
    requires from <= p <= |s|
    ensures FindFirstOf(s, delims, from) == p
       <==> (forall i | from <= i < p :: s[i] !in delims) && (p < |s| ==> s[p] in delims)
    decreases p - from
  {
    if from < p { FirstDelimiter(s, delims, from + 1, p); }
  }

  /** `t` is `s` with `n` characters in front. */
  ghost predicate Shifted(s: string, t: string, n: nat) {
    |t| == n + |s| && forall i | 0 <= i < |s| :: t[n + i] == s[i]
  }

  lemma {:induction false} FindShift(s: string, t: string, n: nat, delims: set<char>, from: nat)
    requires Shifted(s, t, n) && from <= |s|
    ensures FindFirstOf(t, delims, n + from) == n + FindFirstOf(s, delims, from)
    decreases |s| - from
  {
    if from < |s| && s[from] !in delims {
      FindShift(s, t, n, delims, from + 1);
    }
  }

  lemma SliceShift(s: string, t: string, n: nat, i: nat, j: nat)
    requires Shifted(s, t, n) && i <= j <= |s|
    ensures t[n + i..n + j] == s[i..j]
  {
  }

  /** The same first token and the same rest. */
  lemma SameSplit(s: string, from: nat, p: nat, t: string, k: nat, q: nat, delims: set<char>, dropEmpty: bool, keepDelim: bool)
    requires from <= |s| && p == FindFirstOf(s, delims, from) < |s|
    requires k <= |t| && q == FindFirstOf(t, delims, k) < |t|
    requires t[k..q] == s[from..p] && t[q..q + 1] == s[p..p + 1]
    requires SplitFrom(t, delims, dropEmpty, keepDelim, q + 1) == SplitFrom(s, delims, dropEmpty, keepDelim, p + 1)
    ensures SplitFrom(t, delims, dropEmpty, keepDelim, k) == SplitFrom(s, delims, dropEmpty, keepDelim, from)
  {
    SplitUnfolds(s, delims, dropEmpty, keepDelim, from, p);
    SplitUnfolds(t, delims, dropEmpty, keepDelim, k, q);
  }

  lemma SameLast(s: string, from: nat, t: string, k: nat, delims: set<char>, dropEmpty: bool, keepDelim: bool)
    requires from <= |s| && FindFirstOf(s, delims, from) == |s|
    requires k <= |t| && FindFirstOf(t, delims, k) == |t| && t[k..] == s[from..]
    ensures SplitFrom(t, delims, dropEmpty, keepDelim, k) == SplitFrom(s, delims, dropEmpty, keepDelim, from)
  {
    SplitEnds(s, delims, dropEmpty, keepDelim, from);
    SplitEnds(t, delims, dropEmpty, keepDelim, k);
  }

  lemma ShiftFirst(s: string, t: string, n: nat, delims: set<char>, dropEmpty: bool, keepDelim: bool,
                   from: nat, p: nat, k: nat, q: nat)
    requires Shifted(s, t, n) && from <= |s| && p == FindFirstOf(s, delims, from) < |s|
    requires k == n + from && q == n + p
    requires SplitFrom(t, delims, dropEmpty, keepDelim, q + 1) == SplitFrom(s, delims, dropEmpty, keepDelim, p + 1)
    ensures SplitFrom(t, delims, dropEmpty, keepDelim, k) == SplitFrom(s, delims, dropEmpty, keepDelim, from)
  {
    FindShift(s, t, n, delims, from);
    SliceShift(s, t, n, from, p);
    SliceShift(s, t, n, p, p + 1);
    SameSplit(s, from, p, t, k, q, delims, dropEmpty, keepDelim);
  }

  lemma ShiftLast(s: string, t: string, n: nat, delims: set<char>, dropEmpty: bool, keepDelim: bool, from: nat, k: nat)
    requires Shifted(s, t, n) && from <= |s| && FindFirstOf(s, delims, from) == |s| && k == n + from
    ensures SplitFrom(t, delims, dropEmpty, keepDelim, k) == SplitFrom(s, delims, dropEmpty, keepDelim, from)
  {
    FindShift(s, t, n, delims, from);
    SliceShift(s, t, n, from, |s|);
    assert s[from..|s|] == s[from..] && t[k..|t|] == t[k..];
    SameLast(s, from, t, k, delims, dropEmpty, keepDelim);
  }

  /** Text before the starting position does not matter. */
  lemma {:induction false} SplitShift(s: string, t: string, n: nat, delims: set<char>, dropEmpty: bool, keepDelim: bool,
                                      from: nat, k: nat)
    requires Shifted(s, t, n) && from <= |s| && k == n + from
    ensures SplitFrom(t, delims, dropEmpty, keepDelim, k) == SplitFrom(s, delims, dropEmpty, keepDelim, from)
    decreases |s| - from
  {
    var p := FindFirstOf(s, delims, from);
    if p < |s| {
      var q := n + p;
      SplitShift(s, t, n, delims, dropEmpty, keepDelim, p + 1, q + 1);
      ShiftFirst(s, t, n, delims, dropEmpty, keepDelim, from, p, k, q);
    } else {
      ShiftLast(s, t, n, delims, dropEmpty, keepDelim, from, k);
    }
  }

  /** One token in front of text whose tokens are known. */
  lemma SplitFirst(x: string, rest: string, c: char, delims: set<char>, dropEmpty: bool)
    requires c in delims && forall i | 0 <= i < |x| :: x[i] !in delims
    ensures Split(x + [c] + rest, delims, dropEmpty, false) == Token(x, dropEmpty) + Split(rest, delims, dropEmpty, false)
  {
    var head := x + [c];
    var s := head + rest;
    SplitShift(rest, s, |head|, delims, dropEmpty, false, 0, |head|);
    var tail := Split(rest, delims, dropEmpty, false);
    assert SplitFrom(s, delims, dropEmpty, false, |x| + 1) == tail;
    FirstToken(x, s, c, delims, dropEmpty);
  }

  lemma FirstToken(x: string, s: string, c: char, delims: set<char>, dropEmpty: bool)
    requires x + [c] <= s && c in delims && forall i | 0 <= i < |x| :: x[i] !in delims
    ensures Split(s, delims, dropEmpty, false) == Token(x, dropEmpty) + SplitFrom(s, delims, dropEmpty, false, |x| + 1)
  {
    assert forall i | 0 <= i <= |x| :: s[i] == (x + [c])[i];
    FirstDelimiter(s, delims, 0, |x|);
    assert s[0..|x|] == x;
    assert Token(x, dropEmpty) + [] == Token(x, dropEmpty);
  }

  lemma SplitLast(x: string, delims: set<char>, dropEmpty: bool)
    requires forall i | 0 <= i < |x| :: x[i] !in delims
    ensures Split(x, delims, dropEmpty, false) == Token(x, dropEmpty)
  {
    FirstDelimiter(x, delims, 0, |x|);
  }

  lemma SplitCons(x: string, rest: string, c: char, dropEmpty: bool)
    requires c !in x
    ensures Split(x + [c] + rest, {c}, dropEmpty, false) == Token(x, dropEmpty) + Split(rest, {c}, dropEmpty, false)
  {
    SplitFirst(x, rest, c, {c}, dropEmpty);
  }

  lemma SplitOne(x: string, c: char, dropEmpty: bool)
    requires c !in x
    ensures Split(x, {c}, dropEmpty, false) == Token(x, dropEmpty)
  {
    SplitLast(x, {c}, dropEmpty);
  }

  /** `split` inverts `join`: any non-empty list of separator-free strings comes back. */
  lemma {:induction false} SplitInvertsJoin(list: seq<string>, c: char)
    requires list != [] && AllFree(list, c)
    ensures Split(Join(list, [c]), {c}, false, false) == list
  {
    if |list| == 1 {
      SplitOne(list[0], c, false);
    } else {
      SplitCons(list[0], Join(list[1..], [c]), c, false);
      SplitInvertsJoin(list[1..], c);
    }
  }

  /** The first token, if delimiters are not kept. */
  lemma SplitPlain(s: string, delims: set<char>, dropEmpty: bool, from: nat, p: nat)
    requires from <= |s| && p == FindFirstOf(s, delims, from) < |s|
    ensures SplitFrom(s, delims, dropEmpty, false, from)
         == Token(s[from..p], dropEmpty) + SplitFrom(s, delims, dropEmpty, false, p + 1)
  {
    SplitUnfolds(s, delims, dropEmpty, false, from, p);
    assert Token(s[from..p], dropEmpty) + [] == Token(s[from..p], dropEmpty);
  }

  /** Joining one token in front of others. */
  lemma JoinCons(x: string, rest: seq<string>, sep: string)
    requires rest != []
    ensures Join([x] + rest, sep) == x + sep + Join(rest, sep)
  {
    assert ([x] + rest)[1..] == rest;
  }

  lemma AllFreeCons(x: string, rest: seq<string>, c: char)
    requires c !in x && AllFree(rest, c)
    ensures AllFree([x] + rest, c)
  {
  }

  /** `join` inverts `split`, and every token is separator-free. */
  lemma {:induction false} JoinInvertsSplit(s: string, c: char, from: nat)
    requires from <= |s|
    ensures var tokens := SplitFrom(s, {c}, false, false, from);
            tokens != [] && AllFree(tokens, c) && Join(tokens, [c]) == s[from..]
    decreases |s| - from
  {
    var p := FindFirstOf(s, {c}, from);
    FreeUpTo(s, c, from);
    if p < |s| {
      JoinInvertsSplit(s, c, p + 1);
      JoinsFirst(s, c, from, p);
    } else {
      SplitEnds(s, {c}, false, false, from);
      assert s[from..p] == s[from..];
    }
  }

  lemma FreeUpTo(s: string, c: char, from: nat)
    requires from <= |s|
    ensures var p := FindFirstOf(s, {c}, from); c !in s[from..p] && (p < |s| ==> s[p] == c)
  {
    FirstDelimiter(s, {c}, from, FindFirstOf(s, {c}, from));
  }

  lemma JoinsFirst(s: string, c: char, from: nat, p: nat)
    requires from <= |s| && p == FindFirstOf(s, {c}, from) < |s| && s[p] == c && c !in s[from..p]
    requires var rest := SplitFrom(s, {c}, false, false, p + 1);
             rest != [] && AllFree(rest, c) && Join(rest, [c]) == s[p + 1..]
    ensures var tokens := SplitFrom(s, {c}, false, false, from);
            tokens != [] && AllFree(tokens, c) && Join(tokens, [c]) == s[from..]
  {
    var rest := SplitFrom(s, {c}, false, false, p + 1);
    SplitPlain(s, {c}, false, from, p);
    JoinCons(s[from..p], rest, [c]);
    AllFreeCons(s[from..p], rest, c);
    CutOut(s, from, p);
  }

  lemma CutOut(s: string, from: nat, p: nat)
    requires from <= p < |s|
    ensures s[from..p] + [s[p]] + s[p + 1..] == s[from..]
  {
  }

  function NonEmpty(list: seq<string>): seq<string> {
    if list == [] then [] else Token(list[0], true) + NonEmpty(list[1..])
  }

  lemma NonEmptyCons(x: string, rest: seq<string>)
    ensures NonEmpty([x] + rest) == Token(x, true) + NonEmpty(rest)
  {
    assert ([x] + rest)[1..] == rest;
  }

  /** Dropping empty tokens is the same as splitting and then removing the empty ones. */
  lemma {:induction false} DropEmptyIsFilter(s: string, delims: set<char>, from: nat)
    requires from <= |s|
    ensures SplitFrom(s, delims, true, false, from) == NonEmpty(SplitFrom(s, delims, false, false, from))
    decreases |s| - from
  {
    var p := FindFirstOf(s, delims, from);
    if p < |s| {
      DropEmptyIsFilter(s, delims, p + 1);
      DropFirst(s, delims, from, p);
    } else {
      DropLast(s, delims, from);
    }
  }

  lemma DropLast(s: string, delims: set<char>, from: nat)
    requires from <= |s| && FindFirstOf(s, delims, from) == |s|
    ensures SplitFrom(s, delims, true, false, from) == NonEmpty(SplitFrom(s, delims, false, false, from))
  {
    SplitEnds(s, delims, true, false, from);
    SplitEnds(s, delims, false, false, from);
    NonEmptyOne(s[from..]);
  }

  lemma DropFirst(s: string, delims: set<char>, from: nat, p: nat)
    requires from <= |s| && p == FindFirstOf(s, delims, from) < |s|
    requires SplitFrom(s, delims, true, false, p + 1) == NonEmpty(SplitFrom(s, delims, false, false, p + 1))
    ensures SplitFrom(s, delims, true, false, from) == NonEmpty(SplitFrom(s, delims, false, false, from))
  {
    SplitPlain(s, delims, true, from, p);
    SplitPlain(s, delims, false, from, p);
    NonEmptyCons(s[from..p], SplitFrom(s, delims, false, false, p + 1));
  }

  lemma NonEmptyOne(x: string)
    ensures NonEmpty([x]) == Token(x, true)
  {
    assert [x][1..] == [] && Token(x, true) + [] == Token(x, true);
  }

  lemma {:induction false} NonEmptyFixed(list: seq<string>)
    ensures forall x :: x in NonEmpty(list) <==> x in list && x != ""
    ensures NonEmpty(list) == list <==> "" !in list
  {
    if list != [] {
      NonEmptyFixed(list[1..]);
      assert list == [list[0]] + list[1..];
    }
  }

  lemma {:induction false} JoinAppend(a: seq<string>, b: seq<string>)
    ensures Join(a + b, "") == Join(a, "") + Join(b, "")
  {
    if a == [] {
      assert a + b == b && "" + Join(b, "") == Join(b, "");
    } else if b == [] {
      assert a + b == a && Join(a, "") + "" == Join(a, "");
    } else {
      JoinAppend(a[1..], b);
      assert (a + b)[1..] == a[1..] + b;
    }
  }

  lemma JoinToken(token: string, dropEmpty: bool)
    ensures Join(Token(token, dropEmpty), "") == token
  {
  }

  lemma JoinThree(a: seq<string>, b: seq<string>, c: seq<string>)
    ensures Join(a + b + c, "") == Join(a, "") + Join(b, "") + Join(c, "")
  {
    JoinAppend(a + b, c);
    JoinAppend(a, b);
  }

  lemma JoinPieces(s: string, from: nat, p: nat, dropEmpty: bool, rest: seq<string>)
    requires from <= p < |s| && Join(rest, "") == s[p + 1..]
    ensures Join(Token(s[from..p], dropEmpty) + [s[p..p + 1]] + rest, "") == s[from..]
  {
    JoinThree(Token(s[from..p], dropEmpty), [s[p..p + 1]], rest);
    JoinToken(s[from..p], dropEmpty);
    assert s[from..] == s[from..p] + s[p..p + 1] + s[p + 1..];
  }

  /** With the delimiters kept nothing is lost, whether empty tokens are dropped or not. */
  lemma {:induction false} KeepDelimKeepsAll(s: string, delims: set<char>, dropEmpty: bool, from: nat)
    requires from <= |s|
    ensures Join(SplitFrom(s, delims, dropEmpty, true, from), "") == s[from..]
    decreases |s| - from
  {
    var p := FindFirstOf(s, delims, from);
    if p == |s| {
      SplitEnds(s, delims, dropEmpty, true, from);
      JoinToken(s[from..], dropEmpty);
    } else {
      KeepDelimKeepsAll(s, delims, dropEmpty, p + 1);
      SplitUnfolds(s, delims, dropEmpty, true, from, p);
      JoinPieces(s, from, p, dropEmpty, SplitFrom(s, delims, dropEmpty, true, p + 1));
    }
  }

  /** `startsWith(base, start)`. */
  predicate StartsWith(base: string, start: string) {
    start <= base
  }

  /** `operator<` of `std::string`: the first difference decides, a proper prefix comes first. */
  predicate Less(a: string, b: string) {
    b != "" && (a == "" || a[0] < b[0] || (a[0] == b[0] && Less(a[1..], b[1..])))
  }

  /** `a` and `b` agree up to `i`, where `a` ends or has the smaller character. */
  ghost predicate SmallerAt(a: string, b: string, i: nat) {
    i <= |a| && i < |b| && a[..i] == b[..i] && (i == |a| || a[i] < b[i])
  }

  /** The lexicographic order, without recursion. */
  ghost predicate Precedes(a: string, b: string) {
    exists i: nat :: SmallerAt(a, b, i)
  }

  lemma {:induction false} LessIsPrecedes(a: string, b: string)
    ensures Less(a, b) <==> Precedes(a, b)
  {
    if a == "" || b == "" || a[0] != b[0] {
      assert Less(a, b) ==> SmallerAt(a, b, 0);
    } else {
      LessIsPrecedes(a[1..], b[1..]);
      if Less(a, b) {
        var i: nat :| SmallerAt(a[1..], b[1..], i);
        assert a[..i + 1] == [a[0]] + a[1..][..i] && b[..i + 1] == [b[0]] + b[1..][..i];
        assert SmallerAt(a, b, i + 1);
      }
      if i: nat :| SmallerAt(a, b, i) {
        assert a[1..][..i - 1] == a[..i][1..] && b[1..][..i - 1] == b[..i][1..];
        assert SmallerAt(a[1..], b[1..], i - 1);
      }
    }
  }

  /** Texts that start with equally long parts are ordered by these first. */
  lemma {:induction false} LessOfParts(a: string, b: string, x: string, y: string)
    requires |a| == |b|
    ensures Less(a + x, b + y) <==> Less(a, b) || (a == b && Less(x, y))
  {
    if a == "" {
      assert a + x == x && b + y == y;
    } else {
      assert (a + x)[1..] == a[1..] + x && (b + y)[1..] == b[1..] + y;
      LessOfParts(a[1..], b[1..], x, y);
    }
  }

  predicate AtMost(a: string, b: string) {
    !Less(b, a)
  }

  lemma {:induction false} AtMostIsTotalOrder(a: string, b: string, c: string)
    ensures AtMost(a, a)
    ensures AtMost(a, b) || AtMost(b, a)
    ensures AtMost(a, b) && AtMost(b, c) ==> AtMost(a, c)
    ensures AtMost(a, b) && AtMost(b, a) ==> a == b
  {
    if a != "" { AtMostIsTotalOrder(a[1..], if b == "" then "" else b[1..], if c == "" then "" else c[1..]); }
    else if b != "" { AtMostIsTotalOrder("", b[1..], if c == "" then "" else c[1..]); }
    else if c != "" { AtMostIsTotalOrder("", "", c[1..]); }
  }

  lemma AtMostMeans(a: string, b: string)
    ensures AtMost(a, b) <==> !Precedes(b, a)
  {
    LessIsPrecedes(b, a);
  }
}
