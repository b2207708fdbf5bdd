/** The queries `buildXapianQuery` of src/library.cpp builds from a filter, and what they mean. */
module Queries {
  import opened Filters
  import opened Books
  import opened Index
  import Text

  /** Does a document with these terms match? */
  predicate Matches(env: Env, q: Query, terms: set<string>) {
    match q
    case MatchAll => true
    case MatchNothing => false
    case Term(t) => t in terms
    case Text(_, _) => env.textMatch(q, terms)
    case Phrase(_, _) => env.textMatch(q, terms)
    case And(l, r) => Matches(env, l, terms) && Matches(env, r, terms)
    case Or(l, r) => Matches(env, l, terms) || Matches(env, r, terms)
    case AndNot(l, r) => Matches(env, l, terms) && !Matches(env, r, terms)
  }

  /** The elements of a comma-separated list. */
  function Elements(list: string): seq<string> {
    Text.Split(list, {','}, true, false)
  }

  predicate HasAny(env: Env, list: string, prefix: string, terms: set<string>) {
    exists e | e in Elements(list) :: prefix + env.norm(e) in terms
  }

  predicate HasTag(env: Env, tag: string, terms: set<string>) {
    "XT" + env.norm(tag) in terms
  }

  predicate HasTags(env: Env, f: Settings, terms: set<string>) {
    && (forall t | t in f.acceptTags :: HasTag(env, t, terms))
    && (forall t | t in f.rejectTags :: !HasTag(env, t, terms))
  }

  /** Text, name, flavour and category. */
  predicate HasContent(env: Env, f: Settings, terms: set<string>) {
    && (QUERY in f.active && f.query != "" ==> env.textMatch(Text(env.norm(f.query), f.queryIsPartial), terms))
    && (NAME in f.active ==> "XN" + env.norm(f.name) in terms)
    && (FLAVOUR in f.active ==> "XF" + env.norm(f.flavour) in terms)
    && (CATEGORY in f.active ==> HasAny(env, f.category, "XC", terms))
  }

  /** Language, publisher and creator. */
  predicate HasOrigin(env: Env, f: Settings, terms: set<string>) {
    && (LANG in f.active ==> HasAny(env, f.lang, "L", terms))
    && (PUBLISHER in f.active ==> env.textMatch(Phrase("XP", env.norm(f.publisher)), terms))
    && (CREATOR in f.active ==> env.textMatch(Phrase("A", env.norm(f.creator)), terms))
  }

  /** What a filter asks of the index: every active field, one of the listed categories and
      languages, all accepted tags, and no rejected one. */
  predicate Wanted(env: Env, f: Settings, terms: set<string>) {
    HasContent(env, f, terms) && HasOrigin(env, f, terms) && HasTags(env, f, terms)
  }

  /** Nothing in the filter concerns the index. */
  predicate AsksNothing(f: Settings) {
    && (QUERY in f.active ==> f.query == "")
    && NAME !in f.active && FLAVOUR !in f.active && CATEGORY !in f.active && LANG !in f.active
    && PUBLISHER !in f.active && CREATOR !in f.active
    && f.acceptTags == [] && f.rejectTags == []
  }

  /** `willSelectEverything` */
  predicate WillSelectEverything(q: Query) {
    q.MatchAll?
  }

  /** One of the elements; no elements give the query that matches nothing. */
  method MultipleParamQuery(env: Env, list: string, prefix: string) returns (q: Query)
    ensures forall terms :: Matches(env, q, terms) <==> HasAny(env, list, prefix, terms)
  {
    q := MatchNothing;
    var firstIteration := true;
    var elems := Text.SplitString(list, {','}, true, false);
    for i := 0 to |elems|
      invariant firstIteration <==> i == 0
      invariant firstIteration ==> q == MatchNothing
      invariant forall terms :: Matches(env, q, terms) <==> exists k | 0 <= k < i :: prefix + env.norm(elems[k]) in terms
    {
      var singleQuery := Term(prefix + env.norm(elems[i]));
      if firstIteration {
        q := singleQuery;
        firstIteration := false;
      } else {
        q := Or(q, singleQuery);
      }
    }
    forall terms
      ensures Matches(env, q, terms) <==> HasAny(env, list, prefix, terms)
    {
      assert forall e | e in elems :: exists k | 0 <= k < |elems| :: elems[k] == e;
    }
  }

  /** All accepted tags and no rejected tag. */
  method TagsQuery(env: Env, acceptTags: seq<string>, rejectTags: seq<string>) returns (q: Query)
    ensures forall terms :: Matches(env, q, terms) <==>
              (forall t | t in acceptTags :: HasTag(env, t, terms)) && (forall t | t in rejectTags :: !HasTag(env, t, terms))
  {
    q := MatchAll;
    for i := 0 to |acceptTags|
      invariant forall terms :: Matches(env, q, terms) <==> forall k | 0 <= k < i :: HasTag(env, acceptTags[k], terms)
    {
      q := And(q, Term("XT" + env.norm(acceptTags[i])));
    }
    ghost var accepted := q;
    for i := 0 to |rejectTags|
      invariant forall terms :: Matches(env, q, terms) <==>
                  Matches(env, accepted, terms) && forall k | 0 <= k < i :: !HasTag(env, rejectTags[k], terms)
    {
      q := AndNot(q, Term("XT" + env.norm(rejectTags[i])));
    }
  }

  function FilterQuery(env: Env, f: Settings): Query {
    if QUERY !in f.active || f.query == "" then MatchAll else Text(env.norm(f.query), f.queryIsPartial)
  }

  method ContentQuery(env: Env, f: Settings) returns (q: Query)
    ensures forall terms :: Matches(env, q, terms) <==> HasContent(env, f, terms)
    ensures WillSelectEverything(q)
       <==> (QUERY in f.active ==> f.query == "") && NAME !in f.active && FLAVOUR !in f.active && CATEGORY !in f.active
  {
    q := FilterQuery(env, f);
    ghost var text := q;
    if NAME in f.active {
      q := And(q, Term("XN" + env.norm(f.name)));
    }
    ghost var named := q;
    if FLAVOUR in f.active {
      q := And(q, Term("XF" + env.norm(f.flavour)));
    }
    ghost var flavoured := q;
    if CATEGORY in f.active {
      var categories := MultipleParamQuery(env, f.category, "XC");
      q := And(q, categories);
    }
    forall terms
      ensures Matches(env, q, terms) <==> HasContent(env, f, terms)
    {
      assert Matches(env, named, terms) <==>
          Matches(env, text, terms) && (NAME in f.active ==> "XN" + env.norm(f.name) in terms);
      assert Matches(env, flavoured, terms) <==>
          Matches(env, named, terms) && (FLAVOUR in f.active ==> "XF" + env.norm(f.flavour) in terms);
    }
  }

  method OriginQuery(env: Env, f: Settings, content: Query) returns (q: Query)
    ensures forall terms :: Matches(env, q, terms) <==> Matches(env, content, terms) && HasOrigin(env, f, terms)
    ensures WillSelectEverything(q)
       <==> WillSelectEverything(content) && LANG !in f.active && PUBLISHER !in f.active && CREATOR !in f.active
  {
    q := content;
    if LANG in f.active {
      var langs := MultipleParamQuery(env, f.lang, "L");
      q := And(q, langs);
    }
    ghost var translated := q;
    if PUBLISHER in f.active {
      q := And(q, Phrase("XP", env.norm(f.publisher)));
    }
    ghost var published := q;
    if CREATOR in f.active {
      q := And(q, Phrase("A", env.norm(f.creator)));
    }
    forall terms
      ensures Matches(env, q, terms) <==> Matches(env, content, terms) && HasOrigin(env, f, terms)
    {
      assert Matches(env, translated, terms) <==>
          Matches(env, content, terms) && (LANG in f.active ==> HasAny(env, f.lang, "L", terms));
      assert Matches(env, published, terms) <==>
          Matches(env, translated, terms)
          && (PUBLISHER in f.active ==> env.textMatch(Phrase("XP", env.norm(f.publisher)), terms));
    }
  }

  /** The query means the filter, and it selects everything exactly if the filter asks nothing. */
  method BuildXapianQuery(env: Env, f: Settings) returns (q: Query)
    ensures forall terms :: Matches(env, q, terms) <==> Wanted(env, f, terms)
    ensures WillSelectEverything(q) <==> AsksNothing(f)
  {
    q := ContentQuery(env, f);
    q := OriginQuery(env, f, q);
    if f.acceptTags != [] || f.rejectTags != [] {
      var tq := TagsQuery(env, f.acceptTags, f.rejectTags);
      q := And(q, tq);
    }
  }
}
