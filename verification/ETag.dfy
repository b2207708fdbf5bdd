/** src/server/etag.cpp: entity tags with options, their text form, and the search of an
    If-None-Match list (sections 2.3 and 3.2 of RFC 7232). */
module ETag {
  import opened Seqs
  import Text

  datatype TagOption = ZIM_CONTENT | COMPRESSED_CONTENT

  const ALL_OPTIONS := "Zz"

  /** `all_options[opt]` */
  function OptionChar(opt: TagOption): char {
    if opt == ZIM_CONTENT then 'Z' else 'z'
  }

  /** The option string of a set of options: their characters in the order of `ALL_OPTIONS`. */
  function OptionsText(chosen: set<TagOption>): string {
    (if ZIM_CONTENT in chosen then "Z" else "") + (if COMPRESSED_CONTENT in chosen then "z" else "")
  }

  // ---- Values ----------------------------------------------------------------

  /** The value of an `ETag` object; false in a condition if the body is empty. */
  datatype Tag = Tag(body: string, options: string)

  const NO_TAG := Tag("", "")

  predicate ValidBody(s: string) {
    s != "" && '"' !in s && '/' !in s
  }

  predicate ValidOptions(s: string) {
    s == "" || s == "Z" || s == "z" || s == "Zz"
  }

  predicate ValidTag(t: Tag) {
    ValidBody(t.body) && ValidOptions(t.options)
  }

  /** `get_etag()` */
  function Quote(t: Tag): string {
    if t.body == "" then "" else "\"" + t.body + "/" + t.options + "\""
  }

  // ---- Subsequences ----------------------------------------------------------

  /** `idx` places the characters of `s` in `t`, in order. */
  ghost predicate Places(s: string, t: string, idx: seq<nat>) {
    && |idx| == |s|
    && (forall k | 0 <= k < |s| :: idx[k] < |t| && t[idx[k]] == s[k])
    && (forall k, m | 0 <= k < m < |s| :: idx[k] < idx[m])
  }

  ghost predicate Subsequence(s: string, t: string) {
    exists idx :: Places(s, t, idx)
  }

  /** The characters of `s` from `k` on, found one after the other in `t` from `i` on. */
  predicate Greedy(s: string, k: nat, t: string, i: nat)
    requires k <= |s| && i <= |t|
    decreases |s| - k
  {
    k == |s| || (var j := Text.FindFirstOf(t, {s[k]}, i); j < |t| && Greedy(s, k + 1, t, j + 1))
  }

  /** Taking the first occurrence each time loses no placement. */
  lemma {:induction false} GreedyFinds(s: string, k: nat, t: string, i: nat, idx: seq<nat>)
    requires k <= |s| && i <= |t| && Places(s, t, idx) && (k < |s| ==> i <= idx[k])
    ensures Greedy(s, k, t, i)
    decreases |s| - k
  {
    if k < |s| {
      var j := Text.FindFirstOf(t, {s[k]}, i);
      Text.FirstDelimiter(t, {s[k]}, i, j);
      assert t[idx[k]] == s[k] && j <= idx[k];
      GreedyFinds(s, k + 1, t, j + 1, idx);
    }
  }

  /** A greedy search yields a placement. */
  lemma {:induction false} GreedyPlaces(s: string, k: nat, t: string, i: nat, done: seq<nat>)
    requires k <= |s| && i <= |t| && Greedy(s, k, t, i)
    requires Places(s[..k], t, done) && forall m | 0 <= m < k :: done[m] < i
    ensures Subsequence(s, t)
    decreases |s| - k
  {
    if k == |s| {
      assert s[..k] == s;
    } else {
      var j := Text.FindFirstOf(t, {s[k]}, i);
      Text.FirstDelimiter(t, {s[k]}, i, j);
      assert Places(s[..k + 1], t, done + [j]);
      GreedyPlaces(s, k + 1, t, j + 1, done + [j]);
    }
  }

  lemma GreedyIsSubsequence(s: string, t: string)
    ensures Greedy(s, 0, t, 0) <==> Subsequence(s, t)
  {
    if Greedy(s, 0, t, 0) {
      assert Places(s[..0], t, []);
      GreedyPlaces(s, 0, t, 0, []);
    }
    if Subsequence(s, t) {
      var idx :| Places(s, t, idx);
      GreedyFinds(s, 0, t, 0, idx);
    }
  }

  method IsSubsequenceOf(s: string, sortedString: string) returns (r: bool)
    ensures r <==> Subsequence(s, sortedString)
  {
    GreedyIsSubsequence(s, sortedString);
    var i: nat := 0;
    for k := 0 to |s|
      invariant i <= |sortedString|
      invariant Greedy(s, 0, sortedString, 0) == Greedy(s, k, sortedString, i)
    {
      var j := Text.FindFirstOf(sortedString, {s[k]}, i);
      if j == |sortedString| {
        return false;
      }
      i := j + 1;
    }
    return true;
  }

  lemma {:induction false} PlacesClimb(s: string, t: string, idx: seq<nat>, k: nat)
    requires Places(s, t, idx) && k < |s|
    ensures k <= idx[k] < |t|
  {
    if k > 0 { PlacesClimb(s, t, idx, k - 1); }
  }

  lemma ShortString(s: string)
    requires |s| <= 2
    ensures s == if |s| == 0 then "" else if |s| == 1 then [s[0]] else [s[0], s[1]]
  {
  }

  lemma SubsequenceIsOption(s: string, idx: seq<nat>)
    requires Places(s, ALL_OPTIONS, idx)
    ensures ValidOptions(s)
  {
    if s != "" {
      PlacesClimb(s, ALL_OPTIONS, idx, |s| - 1);
      ShortString(s);
      assert |s| == 2 ==> idx[0] < idx[1];
    }
  }

  lemma OptionIsSubsequence(s: string)
    requires ValidOptions(s)
    ensures Subsequence(s, ALL_OPTIONS)
  {
    var idx: seq<nat> := if s == "" then [] else if s == "Z" then [0] else if s == "z" then [1] else [0, 1];
    assert Places(s, ALL_OPTIONS, idx);
  }

  /** The subsequences of "Zz" are the four option strings. */
  lemma OptionStrings(s: string)
    ensures Subsequence(s, ALL_OPTIONS) <==> ValidOptions(s)
  {
    if ValidOptions(s) {
      OptionIsSubsequence(s);
    } else if idx :| Places(s, ALL_OPTIONS, idx) {
      SubsequenceIsOption(s, idx);
    }
  }

  lemma OptionsTextIsValid(chosen: set<TagOption>)
    ensures ValidOptions(OptionsText(chosen))
  {
  }

  // ---- The object ------------------------------------------------------------

  function Insert(c: char, s: string): string {
    if s == "" || c <= s[0] then [c] + s else [s[0]] + Insert(c, s[1..])
  }

  /** `std::sort` on characters. */
  function Sort(s: string): string {
    if s == "" then "" else Insert(s[0], Sort(s[1..]))
  }

  class ETag {
    var body: string
    var options: string
    ghost var chosen: set<TagOption>

    ghost predicate Valid()
      reads this
    {
      options == OptionsText(chosen)
    }

    function Value(): Tag
      reads this
    {
      Tag(body, options)
    }

    constructor ()
      ensures Valid() && Value() == NO_TAG && chosen == {}
    {
      body, options, chosen := "", "", {};
    }

    method SetBody(s: string)
      requires Valid()
      modifies this
      ensures Valid() && body == s && chosen == old(chosen)
    {
      body := s;
    }

    predicate GetOption(opt: TagOption)
      requires Valid()
      reads this
      ensures GetOption(opt) <==> opt in chosen
    {
      OptionCharFound(chosen, opt);
      Text.FindFirstOf(options, {OptionChar(opt)}, 0) != |options|
    }

    /** In whatever order options are set, the string stays the sorted one of those set so far. */
    method SetOption(opt: TagOption)
      requires Valid()
      modifies this
      ensures Valid() && chosen == old(chosen) + {opt} && body == old(body)
    {
      if !GetOption(opt) {
        SortedPush(chosen, opt);
        options := options + [OptionChar(opt)];
        options := Sort(options);
      }
      chosen := chosen + {opt};
      assert options == OptionsText(chosen);
    }

    /** The text of the tag; with a valid body it parses back to this tag. */
    function GetEtag(): (text: string)
      requires Valid()
      reads this
      ensures body == "" ==> text == ""
      ensures ValidBody(body) ==> ParseTag(text) == Read(Value())
    {
      OptionsTextIsValid(chosen);
      if ValidBody(body) then
        QuoteParses(Value());
        Quote(Value())
      else
        Quote(Value())
    }
  }

  lemma OptionCharFound(chosen: set<TagOption>, opt: TagOption)
    ensures var s := OptionsText(chosen);
            Text.FindFirstOf(s, {OptionChar(opt)}, 0) != |s| <==> opt in chosen
  {
  }

  lemma SortPair(a: char, b: char)
    ensures Sort([a]) == [a]
    ensures Sort([a, b]) == if a <= b then [a, b] else [b, a]
  {
    assert [a][1..] == "" && [a, b][1..] == [b] && [b][1..] == "";
  }

  lemma SortedPush(chosen: set<TagOption>, opt: TagOption)
    requires opt !in chosen
    ensures Sort(OptionsText(chosen) + [OptionChar(opt)]) == OptionsText(chosen + {opt})
  {
    var c := OptionChar(opt);
    SortPair(c, c);
    SortPair('Z', 'z');
    SortPair('z', 'Z');
    assert "" + [c] == [c] && "Z" + ['z'] == ['Z', 'z'] && "z" + ['Z'] == ['z', 'Z'];
  }

  // ---- Parsing ---------------------------------------------------------------

  /** `parse` throws out_of_range on some texts, and reads the front of an empty string on one. */
  datatype Outcome = Read(tag: Tag) | Throws | Undefined

  /** The private constructor: an empty tag unless both parts are valid. */
  method MakeTag(body: string, options: string) returns (t: Tag)
    ensures t == if ValidTag(Tag(body, options)) then Tag(body, options) else NO_TAG
  {
    var valid := IsSubsequenceOf(options, ALL_OPTIONS);
    OptionStrings(options);
    if ValidBody(body) && valid {
      return Tag(body, options);
    }
    return NO_TAG;
  }

  /** The strip of a weak prefix has the arguments of `startsWith` swapped: it happens on the
      prefixes of `W/`, where it can only fail, and never on a weak tag. */
  method Parse(text: string) returns (r: Outcome)
    ensures r == ParseTag(text)
  {
    var s := text;
    if Text.StartsWith("W/", s) {
      if |s| < 2 {
        return Throws;
      }
      s := s[2..];
    }
    if s == "" {
      return Undefined;
    }
    if s[0] != '"' || s[|s| - 1] != '"' {
      return Read(NO_TAG);
    }
    s := if |s| == 1 then "" else s[1..|s| - 1];
    var i := Text.FindFirstOf(s, {'/'}, 0);
    if i == |s| {
      return Read(NO_TAG);
    }
    var tag := MakeTag(s[..i], s[i + 1..]);
    return Read(tag);
  }

  function ParseTag(text: string): Outcome {
    if text == "" || text == "W" then Throws
    else if text == "W/" then Undefined
    else if text[0] != '"' || text[|text| - 1] != '"' || |text| == 1 then Read(NO_TAG)
    else
      var s := text[1..|text| - 1];
      var i := Text.FindFirstOf(s, {'/'}, 0);
      if i < |s| && ValidTag(Tag(s[..i], s[i + 1..])) then Read(Tag(s[..i], s[i + 1..])) else Read(NO_TAG)
  }

  lemma QuoteParses(t: Tag)
    requires ValidTag(t)
    ensures ParseTag(Quote(t)) == Read(t)
  {
    var text := Quote(t);
    var s := text[1..|text| - 1];
    assert s == t.body + ['/'] + t.options;
    assert forall k | 0 <= k < |t.body| :: s[k] == t.body[k];
    Text.FirstDelimiter(s, {'/'}, 0, |t.body|);
    assert s[..|t.body|] == t.body && s[|t.body| + 1..] == t.options;
  }

  lemma ParsedIsQuote(text: string)
    requires ParseTag(text).Read? && ParseTag(text).tag != NO_TAG
    ensures ValidTag(ParseTag(text).tag) && text == Quote(ParseTag(text).tag)
  {
    var s := text[1..|text| - 1];
    var i := Text.FindFirstOf(s, {'/'}, 0);
    Text.FirstDelimiter(s, {'/'}, 0, i);
    assert s == s[..i] + "/" + s[i + 1..];
    assert text == "\"" + s + "\"";
  }

  /** Parsing a text yields a valid tag exactly if the text is the tag's own. */
  lemma ParseMeaning(text: string, t: Tag)
    requires ValidTag(t)
    ensures ParseTag(text) == Read(t) <==> text == Quote(t)
    ensures ParseTag(text).Read? ==> ParseTag(text).tag == NO_TAG || ValidTag(ParseTag(text).tag)
  {
    QuoteParses(t);
    if ParseTag(text).Read? && ParseTag(text).tag != NO_TAG {
      ParsedIsQuote(text);
    }
  }

  /** A weak tag of the client is never recognised. */
  lemma WeakIsIgnored(text: string)
    requires Text.StartsWith(text, "W/") && text != "W/"
    ensures ParseTag(text) == Read(NO_TAG)
  {
    assert text[0] == "W/"[0];
  }

  // ---- Matching --------------------------------------------------------------

  const SPACES := {' ', '\t', '\n', '\r', 11 as char, 12 as char}

  /** The texts that `ss >> etag_str` extracts. */
  function Words(etags: string): seq<string> {
    Text.Split(etags, SPACES, true, false)
  }

  function StripComma(w: string): string
    requires w != ""
  {
    if w[|w| - 1] == ',' then w[..|w| - 1] else w
  }

  /** Does the search stop at this outcome? */
  predicate Ends(r: Outcome, body: string) {
    !r.Read? || (r.tag.body != "" && r.tag.body == body)
  }

  function MatchWords(words: seq<string>, body: string): Outcome
    requires "" !in words
  {
    if words == [] then Read(NO_TAG) else
      var r := ParseTag(StripComma(words[0]));
      if Ends(r, body) then r else MatchWords(words[1..], body)
  }

  lemma {:induction false} WordsAreFree(s: string, delims: set<char>, from: nat)
    requires from <= |s|
    ensures forall w | w in Text.SplitFrom(s, delims, true, false, from) :: w != "" && forall c | c in w :: c !in delims
    decreases |s| - from
  {
    var p := Text.FindFirstOf(s, delims, from);
    Text.FirstDelimiter(s, delims, from, p);
    if p < |s| { WordsAreFree(s, delims, p + 1); }
  }

  lemma MatchNext(words: seq<string>, i: nat, body: string)
    requires i < |words| && "" !in words
    ensures "" !in words[i..] && "" !in words[i + 1..] && words[i] != ""
    ensures var r := ParseTag(StripComma(words[i]));
            MatchWords(words[i..], body) == if Ends(r, body) then r else MatchWords(words[i + 1..], body)
  {
    assert words[i] in words;
    assert words[i..][0] == words[i] && words[i..][1..] == words[i + 1..];
  }

  /** One word of the list: a trailing comma is taken off before parsing. */
  method ParseWord(word: string) returns (r: Outcome)
    requires word != ""
    ensures r == ParseTag(StripComma(word))
  {
    var etagStr := word;
    if etagStr[|etagStr| - 1] == ',' {
      etagStr := etagStr[..|etagStr| - 1];
    }
    r := Parse(etagStr);
  }

  lemma WordsNonEmpty(etags: string)
    ensures "" !in Words(etags)
  {
    WordsAreFree(etags, SPACES, 0);
  }

  method Match(etags: string, body: string) returns (r: Outcome)
    ensures "" !in Words(etags) && r == MatchWords(Words(etags), body)
  {
    WordsNonEmpty(etags);
    var words := Text.SplitString(etags, SPACES, true, false);
    assert words[0..] == words;
    for i := 0 to |words|
      invariant "" !in words[i..] && MatchWords(words[i..], body) == MatchWords(words, body)
    {
      MatchNext(words, i, body);
      var etag := ParseWord(words[i]);
      if !etag.Read? {
        return etag;
      }
      if etag.tag.body != "" && etag.tag.body == body {
        return etag;
      }
    }
    return Read(NO_TAG);
  }

  /** A word that `parse` cannot take: it throws or reads the front of an empty string. */
  predicate Unparsable(word: string) {
    word != "" && (StripComma(word) == "" || StripComma(word) == "W" || StripComma(word) == "W/")
  }

  predicate IsMatch(word: string, body: string) {
    word != "" && Names(StripComma(word), body)
  }

  /** Word `i` cannot be parsed, and no word before it matches. */
  ghost predicate StopsAt(words: seq<string>, body: string, i: nat) {
    i < |words| && Unparsable(words[i]) && forall j | 0 <= j < i :: !IsMatch(words[j], body)
  }

  ghost predicate StopsEarly(words: seq<string>, body: string) {
    exists i :: StopsAt(words, body, i)
  }

  lemma StopsTail(words: seq<string>, body: string, i: nat)
    requires words != [] && StopsAt(words, body, i) && i > 0
    ensures StopsAt(words[1..], body, i - 1) && !IsMatch(words[0], body)
  {
    assert forall j | 0 <= j < i - 1 :: words[1..][j] == words[j + 1];
  }

  lemma StopsLater(words: seq<string>, body: string, i: nat)
    requires words != [] && StopsAt(words[1..], body, i) && !IsMatch(words[0], body)
    ensures StopsAt(words, body, i + 1)
  {
    assert forall j | 0 < j < i + 1 :: words[j] == words[1..][j - 1];
  }

  /** `match` fails to return exactly if a word that strips to "", "W" or "W/" comes before the
      first match. */
  lemma {:induction false} MatchFailsIff(words: seq<string>, body: string)
    requires "" !in words
    ensures MatchWords(words, body).Read? <==> !StopsEarly(words, body)
  {
    if words != [] {
      assert words[0] in words;
      if Unparsable(words[0]) {
        assert StopsAt(words, body, 0);
      } else {
        MatchFailsIff(words[1..], body);
        FirstWord(words, body);
        if i: nat :| StopsAt(words, body, i) {
          StopsTail(words, body, i);
        }
        if i: nat :| StopsAt(words[1..], body, i) && !IsMatch(words[0], body) {
          StopsLater(words, body, i);
        }
      }
    }
  }

  /** A word that can be parsed ends the search exactly if it matches. */
  lemma FirstWord(words: seq<string>, body: string)
    requires "" !in words && words != [] && words[0] != "" && !Unparsable(words[0])
    ensures "" !in words[1..]
    ensures IsMatch(words[0], body) ==> MatchWords(words, body).Read?
    ensures !IsMatch(words[0], body) ==> MatchWords(words, body) == MatchWords(words[1..], body)
  {
    var x := StripComma(words[0]);
    if ParseTag(x).Read? && ParseTag(x).tag != NO_TAG {
      ParsedIsQuote(x);
    }
  }

  ghost predicate NoSpace(s: string) {
    forall i | 0 <= i < |s| :: s[i] !in SPACES
  }

  /** Whatever the list is: a tag that `match` finds is valid, has the body asked for, and stands in
      one word of the list. */
  lemma {:induction false} FoundIsInList(words: seq<string>, body: string)
    requires "" !in words
    ensures var r := MatchWords(words, body);
            r.Read? && r.tag != NO_TAG
            ==> ValidTag(r.tag) && r.tag.body == body && exists w | w in words :: StripComma(w) == Quote(r.tag)
  {
    if words != [] {
      var r := ParseTag(StripComma(words[0]));
      if r.Read? && r.tag != NO_TAG { ParsedIsQuote(StripComma(words[0])); }
      FoundIsInList(words[1..], body);
    }
  }

  /** A quoted text without white space: what a strong entity tag of a list looks like. */
  ghost predicate Strong(x: string) {
    |x| >= 2 && x[0] == '"' && x[|x| - 1] == '"' && NoSpace(x)
  }

  ghost predicate AllStrong(xs: seq<string>) {
    forall i | 0 <= i < |xs| :: Strong(xs[i])
  }

  /** The words of tags joined by ", ": each but the last still has its comma. */
  function WithCommas(xs: seq<string>): seq<string> {
    if |xs| <= 1 then xs else [xs[0] + ","] + WithCommas(xs[1..])
  }

  lemma {:induction false} WordsOfList(xs: seq<string>)
    requires xs != [] && AllStrong(xs)
    ensures Words(Text.Join(xs, ", ")) == WithCommas(xs)
  {
    if |xs| == 1 {
      Text.SplitLast(xs[0], SPACES, true);
    } else {
      var rest := Text.Join(xs[1..], ", ");
      var first := xs[0] + ",";
      WordsOfList(xs[1..]);
      assert NoSpace(xs[0]);
      Text.SplitFirst(first, rest, ' ', SPACES, true);
      assert xs[0] + ", " + rest == first + [' '] + rest;
    }
  }

  /** Is `x` a well-formed tag of ours with this body? */
  predicate Names(x: string, body: string) {
    ParseTag(x).Read? && ParseTag(x).tag != NO_TAG && ParseTag(x).tag.body == body
  }

  /** `t` is the first well-formed tag with this body in the list, or there is none. */
  ghost predicate IsFirst(xs: seq<string>, body: string, t: Tag) {
    if t == NO_TAG then
      forall i | 0 <= i < |xs| :: !Names(xs[i], body)
    else
      exists i | 0 <= i < |xs| ::
        xs[i] == Quote(t) && ValidTag(t) && t.body == body && forall j | 0 <= j < i :: !Names(xs[j], body)
  }

  lemma FirstHere(xs: seq<string>, body: string)
    requires xs != [] && Names(xs[0], body)
    ensures IsFirst(xs, body, ParseTag(xs[0]).tag)
  {
    ParsedIsQuote(xs[0]);
    assert xs[0] == Quote(ParseTag(xs[0]).tag);
  }

  lemma FirstLater(xs: seq<string>, body: string, t: Tag)
    requires xs != [] && !Names(xs[0], body) && IsFirst(xs[1..], body, t)
    ensures IsFirst(xs, body, t)
  {
    if t == NO_TAG {
      forall i | 0 <= i < |xs|
        ensures !Names(xs[i], body)
      {
        assert i > 0 ==> xs[1..][i - 1] == xs[i];
      }
    } else {
      var i :| 0 <= i < |xs| - 1 && xs[1..][i] == Quote(t) && forall j | 0 <= j < i :: !Names(xs[1..][j], body);
      assert xs[i + 1] == Quote(t);
      forall j | 0 <= j < i + 1
        ensures !Names(xs[j], body)
      {
        assert j > 0 ==> xs[1..][j - 1] == xs[j];
      }
    }
  }

  /** In a list of strong tags, `match` finds the first well-formed one with the given body. */
  lemma {:induction false} FirstOfWords(xs: seq<string>, body: string)
    requires AllStrong(xs)
    ensures "" !in WithCommas(xs)
    ensures var r := MatchWords(WithCommas(xs), body); r.Read? && IsFirst(xs, body, r.tag)
  {
    if xs != [] {
      var x, rest := xs[0], xs[1..];
      FirstOfWords(rest, body);
      var words := WithCommas(xs);
      assert words[0] == x || words[0] == x + ",";
      assert StripComma(words[0]) == x && words[1..] == WithCommas(rest);
      assert words == [words[0]] + WithCommas(rest);
      if Names(x, body) {
        FirstHere(xs, body);
      } else {
        FirstLater(xs, body, MatchWords(WithCommas(rest), body).tag);
      }
    }
  }

  /** The search of an If-None-Match list of strong tags joined by ", ". */
  lemma MatchesList(xs: seq<string>, body: string)
    requires xs != [] && AllStrong(xs)
    ensures var words := Words(Text.Join(xs, ", "));
            "" !in words && MatchWords(words, body).Read? && IsFirst(xs, body, MatchWords(words, body).tag)
  {
    WordsOfList(xs);
    FirstOfWords(xs, body);
  }

  lemma OwnTagIsStrong(t: Tag)
    requires ValidTag(t) && NoSpace(t.body)
    ensures Strong(Quote(t))
  {
    assert forall i | 0 <= i < |t.options| :: t.options[i] !in SPACES;
  }

  lemma BodyInWord(t: Tag, w: string)
    requires t.body != "" && w != "" && StripComma(w) == Quote(t) && forall c | c in w :: c !in SPACES
    ensures NoSpace(t.body)
  {
    forall i | 0 <= i < |t.body|
      ensures t.body[i] !in SPACES
    {
      assert w[i + 1] == Quote(t)[i + 1] && Quote(t)[i + 1] == t.body[i] && w[i + 1] in w;
    }
  }

  /** The tag of a response comes back from the header the client sends, exactly if its body has no
      quote, slash or white space (and is not empty). */
  lemma MatchesOwnTag(t: Tag)
    requires ValidOptions(t.options)
    ensures "" !in Words(Quote(t))
    ensures t.body != "" && MatchWords(Words(Quote(t)), t.body) == Read(t) <==> ValidBody(t.body) && NoSpace(t.body)
  {
    var etags := Quote(t);
    WordsAreFree(etags, SPACES, 0);
    if ValidBody(t.body) && NoSpace(t.body) {
      OwnTagIsStrong(t);
      QuoteParses(t);
      Text.SplitLast(etags, SPACES, true);
    }
    if t.body != "" && MatchWords(Words(etags), t.body) == Read(t) {
      FoundIsInList(Words(etags), t.body);
      var w :| w in Words(etags) && StripComma(w) == Quote(t);
      BodyInWord(t, w);
    }
  }
}
