/** src/opds_catalog.cpp: the search URL of a filter, and what a reader of that URL gets back. */
module SearchUrl {
  import opened Seqs
  import opened Filters
  import Text
  import Url

  const ENDPOINT := "/catalog/v2/entries"

  type Field = (string, string)

  /** The texts of `f` are byte strings. */
  ghost predicate InBytes(f: Settings) {
    && Url.IsBytes(f.query) && Url.IsBytes(f.category) && Url.IsBytes(f.lang) && Url.IsBytes(f.name)
    && (forall tag | tag in f.acceptTags :: Url.IsBytes(tag))
  }

  function Optional(active: bool, key: string, value: string): seq<Field> {
    if active then [(key, value)] else []
  }

  /** The active fields that a search URL carries, in order; publisher, creator, flavour, size and
      rejected tags have no place in it. */
  function SearchFields(f: Settings): seq<Field> {
    Optional(QUERY in f.active, "q", f.query)
    + Optional(CATEGORY in f.active, "category", f.category)
    + Optional(LANG in f.active, "lang", f.lang)
    + Optional(NAME in f.active, "name", f.name)
    + Optional(f.acceptTags != [], "tag", Text.Join(f.acceptTags, ";"))
  }

  /** A key of ours: no separator in it. */
  ghost predicate Writable(field: Field) {
    Url.IsBytes(field.1) && field.0 != "" && forall c | c in field.0 :: Url.IsHarmless(c)
  }

  ghost predicate AllWritable(fields: seq<Field>) {
    forall i | 0 <= i < |fields| :: Writable(fields[i])
  }

  // ---- Building --------------------------------------------------------------

  /** One `key=value` piece. */
  function Piece(field: Field): string
    requires Url.IsBytes(field.1)
  {
    field.0 + "=" + Url.Encode(field.1)
  }

  function Pieces(fields: seq<Field>): (r: seq<string>)
    requires AllWritable(fields)
    ensures |r| == |fields|
  {
    if fields == [] then [] else [Piece(fields[0])] + Pieces(fields[1..])
  }

  lemma {:induction false} PiecesSnoc(fields: seq<Field>, field: Field)
    requires AllWritable(fields) && Writable(field)
    ensures AllWritable(fields + [field])
    ensures Pieces(fields + [field]) == Pieces(fields) + [Piece(field)]
  {
    var all := fields + [field];
    assert AllWritable(all);
    if fields != [] {
      assert all[0] == fields[0] && all[1..] == fields[1..] + [field];
      PiecesSnoc(fields[1..], field);
      Assoc([Piece(fields[0])], Pieces(fields[1..]), [Piece(field)]);
    }
  }

  /** What `buildSearchString` has written after `fields`. */
  ghost predicate Written(oss: string, fields: seq<Field>) {
    AllWritable(fields) && oss == Text.Join(Pieces(fields), "&") && (oss == "" <==> fields == [])
  }

  /** A step of `buildSearchString`: an `&` unless nothing is written yet, then the piece. */
  method AddField(oss: string, ghost fields: seq<Field>, active: bool, key: string, value: string) returns (r: string)
    requires Writable((key, value)) && Written(oss, fields)
    ensures Written(r, fields + Optional(active, key, value))
  {
    r := oss;
    if active {
      if |r| > 0 {
        r := r + "&";
      }
      var v := Url.UrlEncode(value);
      r := r + (key + "=" + v);
      PiecesSnoc(fields, (key, value));
      Text.JoinSnoc(Pieces(fields), Piece((key, value)), "&");
      assert r == Text.Join(Pieces(fields + [(key, value)]), "&");
    } else {
      assert fields + [] == fields;
    }
  }

  lemma {:induction false} JoinIsBytes(list: seq<string>, sep: string)
    requires Url.IsBytes(sep) && forall x | x in list :: Url.IsBytes(x)
    ensures Url.IsBytes(Text.Join(list, sep))
  {
    if |list| > 1 {
      JoinIsBytes(list[1..], sep);
      assert list[0] in list;
    }
  }

  lemma KeysAreWritable(value: string)
    requires Url.IsBytes(value)
    ensures Writable(("q", value)) && Writable(("category", value)) && Writable(("lang", value))
    ensures Writable(("name", value)) && Writable(("tag", value))
  {
  }

  method BuildSearchString(f: Settings) returns (oss: string)
    requires InBytes(f)
    ensures Written(oss, SearchFields(f))
  {
    JoinIsBytes(f.acceptTags, ";");
    KeysAreWritable(f.query);
    KeysAreWritable(f.category);
    KeysAreWritable(f.lang);
    KeysAreWritable(f.name);
    KeysAreWritable(Text.Join(f.acceptTags, ";"));
    oss := "";
    ghost var q := Optional(QUERY in f.active, "q", f.query);
    oss := AddField(oss, [], QUERY in f.active, "q", f.query);
    assert [] + q == q;
    oss := AddField(oss, q, CATEGORY in f.active, "category", f.category);
    ghost var qc := q + Optional(CATEGORY in f.active, "category", f.category);
    oss := AddField(oss, qc, LANG in f.active, "lang", f.lang);
    ghost var qcl := qc + Optional(LANG in f.active, "lang", f.lang);
    oss := AddField(oss, qcl, NAME in f.active, "name", f.name);
    ghost var qcln := qcl + Optional(NAME in f.active, "name", f.name);
    var tags := Text.JoinStrings(f.acceptTags, ";");
    oss := AddField(oss, qcln, f.acceptTags != [], "tag", tags);
  }

  method GetSearchUrl(f: Settings) returns (url: string)
    requires InBytes(f)
    ensures Parameters(url) == SearchFields(f)
    ensures Path(url) == "/catalog/v2/entries"
  {
    var searchString := BuildSearchString(f);
    SearchUrlParses(searchString, SearchFields(f));
    if searchString == "" {
      url := ENDPOINT;
    } else {
      url := ENDPOINT + ("?" + searchString);
    }
  }

  // ---- Reading ---------------------------------------------------------------

  /** The part of a URL before the first `?`. */
  function Path(url: string): string {
    url[..Text.FindFirstOf(url, {'?'}, 0)]
  }

  /** A piece cut at its first `=`, with the value decoded. */
  function ReadPiece(piece: string): Field {
    var p := Text.FindFirstOf(piece, {'='}, 0);
    (piece[..p], Url.Decode(if p == |piece| then "" else piece[p + 1..], true))
  }

  function ReadPieces(pieces: seq<string>): seq<Field> {
    if pieces == [] then [] else [ReadPiece(pieces[0])] + ReadPieces(pieces[1..])
  }

  /** The fields of a URL: what follows the only `?`, cut at every `&`. */
  function Parameters(url: string): seq<Field> {
    var parts := Text.Split(url, {'?'}, false, false);
    if |parts| != 2 then [] else ReadPieces(Text.Split(parts[1], {'&'}, false, false))
  }

  lemma CutAtEquals(key: string, value: string)
    requires '=' !in key
    ensures ReadPiece(key + "=" + value) == (key, Url.Decode(value, true))
  {
    var piece, p := key + "=" + value, |key|;
    assert piece[p] == '=' && piece[..p] == key && piece[p + 1..] == value;
    assert forall i | 0 <= i < p :: piece[i] == key[i];
    Text.FirstDelimiter(piece, {'='}, 0, p);
  }

  lemma NotInPiece(key: string, value: string, c: char)
    requires c !in key && c != '=' && c !in value
    ensures c !in key + "=" + value
  {
  }

  /** A written piece reads back, and holds none of the outer separators. */
  lemma PieceReads(field: Field)
    requires Writable(field)
    ensures ReadPiece(Piece(field)) == field
    ensures '&' !in Piece(field) && '?' !in Piece(field) && Piece(field) != ""
  {
    var value := Url.Encode(field.1);
    Url.EncodedChars(field.1);
    Url.RoundTrip(field.1, true);
    CutAtEquals(field.0, value);
    NotInPiece(field.0, value, '&');
    NotInPiece(field.0, value, '?');
  }

  lemma {:induction false} PiecesRead(fields: seq<Field>)
    requires AllWritable(fields)
    ensures ReadPieces(Pieces(fields)) == fields
    ensures Text.AllFree(Pieces(fields), '&') && Text.AllFree(Pieces(fields), '?')
  {
    if fields != [] {
      var rest := Pieces(fields[1..]);
      PieceReads(fields[0]);
      PiecesRead(fields[1..]);
      var pieces := [Piece(fields[0])] + rest;
      assert pieces[1..] == rest && Pieces(fields) == pieces;
      assert fields == [fields[0]] + fields[1..];
    }
  }

  lemma {:induction false} JoinFree(list: seq<string>, sep: string, c: char)
    requires Text.AllFree(list, c) && c !in sep
    ensures c !in Text.Join(list, sep)
  {
    if |list| > 1 {
      assert list[0] in list;
      JoinFree(list[1..], sep, c);
    }
  }

  lemma EndpointAlone()
    ensures Parameters(ENDPOINT) == [] && Path(ENDPOINT) == ENDPOINT
  {
    Text.SplitOne(ENDPOINT, '?', false);
    Text.FirstDelimiter(ENDPOINT, {'?'}, 0, |ENDPOINT|);
  }

  lemma CutAtQuestionMark(path: string, rest: string)
    requires '?' !in path && '?' !in rest
    ensures var url := path + ("?" + rest);
            Path(url) == path && Parameters(url) == ReadPieces(Text.Split(rest, {'&'}, false, false))
  {
    var url := path + ("?" + rest);
    assert url == path + ['?'] + rest;
    Text.SplitCons(path, rest, '?', false);
    Text.SplitOne(rest, '?', false);
    assert forall i | 0 <= i < |path| :: url[i] == path[i];
    Text.FirstDelimiter(url, {'?'}, 0, |path|);
    assert url[..|path|] == path;
  }

  /** Behind the endpoint, the joined pieces read back as the fields. */
  lemma SearchUrlParses(searchString: string, fields: seq<Field>)
    requires Written(searchString, fields)
    ensures var url := if searchString == "" then ENDPOINT else ENDPOINT + ("?" + searchString);
            Parameters(url) == fields && Path(url) == ENDPOINT
  {
    var pieces := Pieces(fields);
    PiecesRead(fields);
    if searchString == "" {
      EndpointAlone();
    } else {
      JoinFree(pieces, "&", '?');
      CutAtQuestionMark(ENDPOINT, searchString);
      Text.SplitInvertsJoin(pieces, '&');
    }
  }

  /** The server splits the `tag` field at `;` and drops empty tokens: the accepted tags come
      back exactly if none is empty or holds a `;`. */
  lemma TagsComeBack(tags: seq<string>)
    requires tags != []
    ensures Text.Split(Text.Join(tags, ";"), {';'}, true, false) == tags
       <==> "" !in tags && Text.AllFree(tags, ';')
  {
    var text := Text.Join(tags, ";");
    var tokens := Text.Split(text, {';'}, false, false);
    Text.DropEmptyIsFilter(text, {';'}, 0);
    Text.NonEmptyFixed(tokens);
    Text.JoinInvertsSplit(text, ';', 0);
    if Text.AllFree(tags, ';') {
      Text.SplitInvertsJoin(tags, ';');
    }
  }
}
