/** `get_search_filter` of src/server/internalServer.cpp: the filter a server makes of the arguments
    of a request, and the way of a filter through a search URL. */
module SearchFilter {
  import opened Seqs
  import opened Filters
  import opened SearchUrl
  import opened Index
  import opened Books
  import Queries
  import Text

  /** `get_argument`: the first value given under the name. */
  function Argument(args: seq<Field>, name: string): Option<string> {
    if args == [] then None else if args[0].0 == name then Some(args[0].1) else Argument(args[1..], name)
  }

  method GetArgument(args: seq<Field>, name: string) returns (value: Option<string>)
    ensures value == Argument(args, name)
  {
    for i := 0 to |args|
      invariant Argument(args, name) == Argument(args[i..], name)
    {
      if args[i].0 == name {
        return Some(args[i].1);
      }
    }
    value := None;
  }

  /** A new filter; unless the server has only a catalog, the books must be there. */
  function StartOf(catalogOnly: bool): Settings {
    if catalogOnly then NOTHING else NOTHING.(active := {VALID, LOCAL})
  }

  /** Query, size and name on top. */
  function FromText(args: seq<Field>, prefix: string, f: Settings, sizeOf: string -> Option<nat>): Settings {
    var q, size, name := Argument(args, prefix + "q"), Argument(args, prefix + "maxsize"), Argument(args, prefix + "name");
    var f := if q.Some? then f.(query := q.value, queryIsPartial := true, active := f.active + {QUERY}) else f;
    var f := if size.Some? && sizeOf(size.value).Some? then
               f.(maxSize := sizeOf(size.value).value, active := f.active + {MAXSIZE})
             else f;
    if name.Some? then f.(name := name.value, active := f.active + {NAME}) else f
  }

  /** Category, language and tags on top. */
  function FromLists(args: seq<Field>, prefix: string, f: Settings): Settings {
    var category, lang := Argument(args, prefix + "category"), Argument(args, prefix + "lang");
    var tag, notag := Argument(args, prefix + "tag"), Argument(args, prefix + "notag");
    var f := if category.Some? then f.(category := category.value, active := f.active + {CATEGORY}) else f;
    var f := if lang.Some? then f.(lang := lang.value, active := f.active + {LANG}) else f;
    var f := if tag.Some? then
               f.(acceptTags := Text.Split(tag.value, {';'}, true, false), active := f.active + {ACCEPTTAGS})
             else f;
    if notag.Some? then
      f.(rejectTags := Text.Split(notag.value, {';'}, true, false), active := f.active + {REJECTTAGS})
    else f
  }

  function FilterOf(args: seq<Field>, prefix: string, catalogOnly: bool, sizeOf: string -> Option<nat>): Settings {
    FromLists(args, prefix, FromText(args, prefix, StartOf(catalogOnly), sizeOf))
  }

  /** What setting one of two opposite flags leaves when neither was set. */
  lemma OneOfTwo(before: Settings, after: Settings, one: Flag, other: Flag)
    requires Clear(after, one, other) == Clear(before, one, other) && one !in before.active && other !in before.active
    requires one in after.active && other !in after.active
    ensures after == before.(active := before.active + {one})
  {
    assert after.active == Clear(after, one, other).active + {one};
    assert Clear(before, one, other).active == before.active;
  }

  method NewFilter(catalogOnlyMode: bool) returns (filter: Filter)
    ensures fresh(filter) && filter.Valid() && filter.state == StartOf(catalogOnlyMode)
  {
    filter := new Filter();
    if !catalogOnlyMode {
      filter.ValidPath(true);
      ghost var valid := filter.state;
      OneOfTwo(NOTHING, valid, VALID, NOVALID);
      filter.Local(true);
      OneOfTwo(valid, filter.state, LOCAL, NOLOCAL);
    }
  }

  /** `sizeOf` reads an unsigned number, if the text is one. */
  method GetSearchFilter(args: seq<Field>, prefix: string, catalogOnlyMode: bool, sizeOf: string -> Option<nat>)
    returns (filter: Filter)
    ensures fresh(filter) && filter.Valid() && filter.state == FilterOf(args, prefix, catalogOnlyMode, sizeOf)
  {
    filter := NewFilter(catalogOnlyMode);
    TextArguments(args, prefix, filter, sizeOf);
    ListArguments(args, prefix, filter);
  }

  method TextArguments(args: seq<Field>, prefix: string, filter: Filter, sizeOf: string -> Option<nat>)
    requires filter.Valid()
    modifies filter
    ensures filter.Valid() && filter.state == FromText(args, prefix, old(filter.state), sizeOf)
  {
    var q := GetArgument(args, prefix + "q");
    if q.Some? {
      filter.Query(q.value, true);
    }
    var size := GetArgument(args, prefix + "maxsize");
    if size.Some? && sizeOf(size.value).Some? {
      filter.MaxSize(sizeOf(size.value).value);
    }
    var name := GetArgument(args, prefix + "name");
    if name.Some? {
      filter.Name(name.value);
    }
  }

  method ListArguments(args: seq<Field>, prefix: string, filter: Filter)
    requires filter.Valid()
    modifies filter
    ensures filter.Valid() && filter.state == FromLists(args, prefix, old(filter.state))
  {
    var category := GetArgument(args, prefix + "category");
    if category.Some? {
      filter.Category(category.value);
    }
    var lang := GetArgument(args, prefix + "lang");
    if lang.Some? {
      filter.Lang(lang.value);
    }
    var tag := GetArgument(args, prefix + "tag");
    if tag.Some? {
      var tags := Text.SplitString(tag.value, {';'}, true, false);
      filter.AcceptTags(tags);
    }
    var notag := GetArgument(args, prefix + "notag");
    if notag.Some? {
      var tags := Text.SplitString(notag.value, {';'}, true, false);
      filter.RejectTags(tags);
    }
  }

  /** No larger than the size asked for, if that is a number. */
  ghost predicate SizeFits(size: Option<string>, sizeOf: string -> Option<nat>, book: Book) {
    size.Some? && sizeOf(size.value).Some? ==> book.size <= sizeOf(size.value).value
  }

  /** Of the books themselves a server asks that they can be opened, unless it has only a catalog,
      and that they are no larger than the size asked for. */
  lemma ServerAccepts(args: seq<Field>, prefix: string, catalogOnly: bool, sizeOf: string -> Option<nat>, book: Book)
    ensures Accept(FilterOf(args, prefix, catalogOnly, sizeOf), book)
       <==> (catalogOnly || (book.path != "" && book.pathValid)) && SizeFits(Argument(args, prefix + "maxsize"), sizeOf, book)
  {
    var start := StartOf(catalogOnly);
    TextAccepts(args, prefix, start, sizeOf, book);
    ListsAccept(args, prefix, FromText(args, prefix, start, sizeOf), book);
  }

  lemma TextAccepts(args: seq<Field>, prefix: string, f: Settings, sizeOf: string -> Option<nat>, book: Book)
    requires MAXSIZE !in f.active
    ensures Accept(FromText(args, prefix, f, sizeOf), book)
       <==> Accept(f, book) && SizeFits(Argument(args, prefix + "maxsize"), sizeOf, book)
  {
  }

  lemma ListsAccept(args: seq<Field>, prefix: string, f: Settings, book: Book)
    ensures Accept(FromLists(args, prefix, f), book) <==> Accept(f, book)
  {
  }

  function Tokens(arg: Option<string>): seq<string> {
    if arg.None? then [] else Text.Split(arg.value, {';'}, true, false)
  }

  /** Of the documents it asks every tag between the semicolons of "tag" and none of "notag". */
  lemma ServerWantsTags(args: seq<Field>, prefix: string, catalogOnly: bool, sizeOf: string -> Option<nat>, env: Env,
                        terms: set<string>)
    ensures Queries.HasTags(env, FilterOf(args, prefix, catalogOnly, sizeOf), terms)
       <==> (forall t | t in Tokens(Argument(args, prefix + "tag")) :: "XT" + env.norm(t) in terms)
            && (forall t | t in Tokens(Argument(args, prefix + "notag")) :: "XT" + env.norm(t) !in terms)
  {
    TagsFrom(args, prefix, FromText(args, prefix, StartOf(catalogOnly), sizeOf));
  }

  lemma TagsFrom(args: seq<Field>, prefix: string, f: Settings)
    requires f.acceptTags == [] && f.rejectTags == []
    ensures FromLists(args, prefix, f).acceptTags == Tokens(Argument(args, prefix + "tag"))
    ensures FromLists(args, prefix, f).rejectTags == Tokens(Argument(args, prefix + "notag"))
  {
  }

  // ---- Through a search URL --------------------------------------------------

  lemma {:induction false} ArgumentOfSum(a: seq<Field>, b: seq<Field>, name: string)
    ensures Argument(a + b, name) == if Argument(a, name).Some? then Argument(a, name) else Argument(b, name)
  {
    if a == [] {
      assert a + b == b;
    } else {
      assert (a + b)[1..] == a[1..] + b;
      ArgumentOfSum(a[1..], b, name);
    }
  }

  lemma ArgumentOfOne(active: bool, key: string, value: string, name: string)
    ensures Argument(Optional(active, key, value), name) == if active && key == name then Some(value) else None
  {
  }

  /** What a search URL says under a name. */
  function Carried(f: Settings, name: string): Option<string> {
    if name == "q" && QUERY in f.active then Some(f.query)
    else if name == "category" && CATEGORY in f.active then Some(f.category)
    else if name == "lang" && LANG in f.active then Some(f.lang)
    else if name == "name" && NAME in f.active then Some(f.name)
    else if name == "tag" && f.acceptTags != [] then Some(Text.Join(f.acceptTags, ";"))
    else None
  }

  lemma SearchFieldsSay(f: Settings, name: string)
    ensures Argument(SearchFields(f), name) == Carried(f, name)
  {
    var q, category := Optional(QUERY in f.active, "q", f.query), Optional(CATEGORY in f.active, "category", f.category);
    var lang, name' := Optional(LANG in f.active, "lang", f.lang), Optional(NAME in f.active, "name", f.name);
    var tag := Optional(f.acceptTags != [], "tag", Text.Join(f.acceptTags, ";"));
    ArgumentOfOne(QUERY in f.active, "q", f.query, name);
    ArgumentOfOne(CATEGORY in f.active, "category", f.category, name);
    ArgumentOfOne(LANG in f.active, "lang", f.lang, name);
    ArgumentOfOne(NAME in f.active, "name", f.name, name);
    ArgumentOfOne(f.acceptTags != [], "tag", Text.Join(f.acceptTags, ";"), name);
    ArgumentOfSum(q + category + lang + name', tag, name);
    ArgumentOfSum(q + category + lang, name', name);
    ArgumentOfSum(q + category, lang, name);
    ArgumentOfSum(q, category, name);
  }

  /** The filter that a catalog server makes of the search URL of `f`. */
  function Received(f: Settings, sizeOf: string -> Option<nat>): Settings {
    FilterOf(SearchFields(f), "", true, sizeOf)
  }

  /** The tags survive being joined and split. */
  ghost predicate PlainTags(tags: seq<string>) {
    "" !in tags && Text.AllFree(tags, ';')
  }

  /** Nothing in the filter that a search URL has no place for: no other flags, no rejected tags,
      no query to be matched by whole words only, and no odd tags. */
  ghost predicate Portable(f: Settings) {
    && f.active <= {QUERY, CATEGORY, LANG, NAME, ACCEPTTAGS, REJECTTAGS}
    && f.rejectTags == [] && PlainTags(f.acceptTags)
    && (QUERY in f.active && f.query != "" ==> f.queryIsPartial)
  }

  /** The first half of the received filter. */
  ghost predicate TextReceived(f: Settings, r: Settings) {
    && r.active == (if QUERY in f.active then {QUERY} else {}) + (if NAME in f.active then {NAME} else {})
    && (QUERY in f.active ==> r.query == f.query && r.queryIsPartial)
    && (NAME in f.active ==> r.name == f.name)
    && r.acceptTags == [] && r.rejectTags == []
  }

  lemma TextArrives(f: Settings, sizeOf: string -> Option<nat>)
    ensures TextReceived(f, FromText(SearchFields(f), "", NOTHING, sizeOf))
  {
    SearchFieldsSay(f, "q");
    SearchFieldsSay(f, "maxsize");
    SearchFieldsSay(f, "name");
    assert "" + "q" == "q" && "" + "maxsize" == "maxsize" && "" + "name" == "name";
  }

  /** The second half, on top of the first one `t`. */
  ghost predicate ListsReceived(f: Settings, t: Settings, r: Settings) {
    && r.active == t.active + (if CATEGORY in f.active then {CATEGORY} else {})
                   + (if LANG in f.active then {LANG} else {}) + (if f.acceptTags != [] then {ACCEPTTAGS} else {})
    && (CATEGORY in f.active ==> r.category == f.category) && (LANG in f.active ==> r.lang == f.lang)
    && r.query == t.query && r.queryIsPartial == t.queryIsPartial && r.name == t.name && r.rejectTags == t.rejectTags
    && (f.acceptTags == [] ==> r.acceptTags == t.acceptTags)
    && (f.acceptTags != [] ==> r.acceptTags == Text.Split(Text.Join(f.acceptTags, ";"), {';'}, true, false))
  }

  lemma ListsArrive(f: Settings, t: Settings)
    ensures ListsReceived(f, t, FromLists(SearchFields(f), "", t))
  {
    SearchFieldsSay(f, "category");
    SearchFieldsSay(f, "lang");
    SearchFieldsSay(f, "tag");
    SearchFieldsSay(f, "notag");
    assert "" + "category" == "category" && "" + "lang" == "lang" && "" + "tag" == "tag" && "" + "notag" == "notag";
  }

  /** Everything a search URL carries arrives; of the tags, what joining and splitting leaves. */
  ghost predicate Arrived(f: Settings, r: Settings) {
    && (QUERY in r.active <==> QUERY in f.active) && (QUERY in f.active ==> r.query == f.query && r.queryIsPartial)
    && (NAME in r.active <==> NAME in f.active) && (NAME in f.active ==> r.name == f.name)
    && (CATEGORY in r.active <==> CATEGORY in f.active) && (CATEGORY in f.active ==> r.category == f.category)
    && (LANG in r.active <==> LANG in f.active) && (LANG in f.active ==> r.lang == f.lang)
    && r.active <= {QUERY, CATEGORY, LANG, NAME, ACCEPTTAGS} && r.rejectTags == []
    && r.acceptTags == if f.acceptTags == [] then [] else Text.Split(Text.Join(f.acceptTags, ";"), {';'}, true, false)
  }

  lemma FilterArrives(f: Settings, sizeOf: string -> Option<nat>)
    ensures Arrived(f, Received(f, sizeOf))
  {
    TextArrives(f, sizeOf);
    ListsArrive(f, FromText(SearchFields(f), "", NOTHING, sizeOf));
  }

  /** Two filters that ask the same of the index and of the books. */
  ghost predicate AskSame(f: Settings, r: Settings) {
    && (forall flag | flag in {QUERY, NAME, FLAVOUR, CATEGORY, LANG, PUBLISHER, CREATOR} :: flag in r.active <==> flag in f.active)
    && (QUERY in f.active && f.query != "" ==> r.queryIsPartial == f.queryIsPartial)
    && (QUERY in f.active ==> r.query == f.query) && (NAME in f.active ==> r.name == f.name)
    && (CATEGORY in f.active ==> r.category == f.category) && (LANG in f.active ==> r.lang == f.lang)
    && FLAVOUR !in f.active && PUBLISHER !in f.active && CREATOR !in f.active
    && r.acceptTags == f.acceptTags && r.rejectTags == f.rejectTags
  }

  lemma AskSameWantSame(f: Settings, r: Settings, env: Env, terms: set<string>)
    requires AskSame(f, r)
    ensures Queries.Wanted(env, r, terms) <==> Queries.Wanted(env, f, terms)
  {
    assert Queries.HasContent(env, r, terms) <==> Queries.HasContent(env, f, terms);
    assert Queries.HasOrigin(env, r, terms) <==> Queries.HasOrigin(env, f, terms);
    assert Queries.HasTags(env, r, terms) <==> Queries.HasTags(env, f, terms);
  }

  lemma PortableAsksSame(f: Settings, r: Settings)
    requires Portable(f) && Arrived(f, r)
    ensures AskSame(f, r)
  {
    if f.acceptTags != [] {
      TagsComeBack(f.acceptTags);
    }
  }

  lemma AcceptsAll(f: Settings, book: Book)
    requires f.active <= {QUERY, CATEGORY, LANG, NAME, ACCEPTTAGS, REJECTTAGS}
    ensures Accept(f, book)
  {
  }

  /** A portable filter means the same on the other side: it wants the same documents and accepts
      the same books. */
  lemma SearchUrlKeepsMeaning(f: Settings, sizeOf: string -> Option<nat>, env: Env, terms: set<string>, book: Book)
    requires Portable(f)
    ensures Queries.Wanted(env, Received(f, sizeOf), terms) <==> Queries.Wanted(env, f, terms)
    ensures Accept(Received(f, sizeOf), book) <==> Accept(f, book)
  {
    var r := Received(f, sizeOf);
    FilterArrives(f, sizeOf);
    PortableAsksSame(f, r);
    AskSameWantSame(f, r, env, terms);
    AcceptsAll(f, book);
    AcceptsAll(r, book);
  }
}
