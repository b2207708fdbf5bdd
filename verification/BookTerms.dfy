/** What the terms of a document say about the fields of its book, and so what a filter asks of
    the book itself. */
module BookTerms {
  import opened Seqs
  import opened Books
  import opened Index
  import opened Filters
  import opened Queries
  import Text

  /** Words are in lower case: none starts with a capital letter, as the prefixes do. */
  ghost predicate LowerCase(env: Env) {
    forall text, w | w in env.words(text) :: w != "" ==> !('A' <= w[0] <= 'Z')
  }

  /** One letter before 'X', or 'X' and another one. */
  ghost predicate IsPrefix(p: string) {
    (|p| == 1 && 'A' <= p[0] < 'X') || (|p| == 2 && p[0] == 'X')
  }

  lemma PrefixFree(p: string, w: string, q: string, x: string)
    requires IsPrefix(p) && IsPrefix(q) && p + w == q + x
    ensures p == q && w == x
  {
    assert (p + w)[0] == p[0] && (q + x)[0] == q[0];
    assert |p| == |q|;
    assert |p| == 2 ==> (p + w)[1] == p[1] && (q + x)[1] == q[1];
    assert p == q;
    assert (p + w)[|p|..] == w && (q + x)[|q|..] == x;
  }

  // ---- Which terms a document has --------------------------------------------

  lemma InText(env: Env, stemmer: Option<string>, text: string, q: string, p: string, w: string)
    requires LowerCase(env) && IsPrefix(p) && (q == "" || IsPrefix(q))
    ensures p + w in IndexText(env, stemmer, text, q) <==> p == q && w in env.words(text)
  {
    assert (p + w)[0] == p[0];
    forall x | x in env.words(text)
      ensures p + w == q + x ==> p == q && w == x
    {
      if q == "" {
        assert q + x == x;
      } else if p + w == q + x {
        PrefixFree(p, w, q, x);
      }
    }
  }

  lemma InDescription(env: Env, stemmer: Option<string>, title: string, desc: string, p: string, w: string)
    requires LowerCase(env) && IsPrefix(p)
    ensures p + w in DescriptionTerms(env, stemmer, title, desc)
       <==> (p == "S" && w in env.words(title)) || (p == "XD" && w in env.words(desc))
  {
    InText(env, stemmer, title, "", p, w);
    InText(env, stemmer, desc, "", p, w);
    InText(env, stemmer, title, "S", p, w);
    InText(env, stemmer, desc, "XD", p, w);
  }

  lemma InLanguages(env: Env, stemmer: Option<string>, langs: seq<string>, p: string, w: string)
    requires LowerCase(env) && IsPrefix(p)
    ensures p + w in LanguageTerms(env, stemmer, langs)
       <==> p == "L" && exists lang | lang in langs :: w in env.words(lang)
  {
    forall lang | lang in langs
      ensures p + w in IndexText(env, stemmer, lang, "L") <==> p == "L" && w in env.words(lang)
    {
      InText(env, stemmer, lang, "L", p, w);
    }
  }

  lemma InFields(env: Env, stemmer: Option<string>, book: Book, p: string, w: string)
    requires LowerCase(env) && IsPrefix(p)
    ensures p + w in FieldTerms(env, stemmer, book)
       <==> (p == "A" && w in env.words(env.norm(book.creator)))
            || (p == "XP" && w in env.words(env.norm(book.publisher)))
            || (p == "XN" && w == env.norm(book.name))
            || (p == "XF" && w in env.words(env.norm(book.flavour)))
            || (p == "XC" && w in env.words(env.norm(book.category)))
  {
    InText(env, stemmer, env.norm(book.creator), "A", p, w);
    InText(env, stemmer, env.norm(book.publisher), "XP", p, w);
    InText(env, stemmer, env.norm(book.flavour), "XF", p, w);
    InText(env, stemmer, env.norm(book.category), "XC", p, w);
    if p + w == "XN" + env.norm(book.name) {
      PrefixFree(p, w, "XN", env.norm(book.name));
    }
  }

  lemma InTags(env: Env, stemmer: Option<string>, tags: seq<string>, p: string, w: string)
    requires LowerCase(env) && IsPrefix(p)
    ensures p + w in TagTerms(env, stemmer, tags) <==> p == "XT" && w in tags
  {
    forall tag | tag in tags
      ensures p + w !in TagText(env, stemmer, tag)
    {
      InText(env, stemmer, tag, "", p, w);
    }
    if tag :| tag in tags && p + w == "XT" + tag {
      PrefixFree(p, w, "XT", tag);
    }
  }

  /** The tags of a book as the index sees them. */
  function TagsOf(env: Env, book: Book): seq<string> {
    Text.Split(env.norm(book.tags), {';'}, true, false)
  }

  function LanguagesOf(book: Book): seq<string> {
    Text.Split(book.language, {','}, true, false)
  }

  /** The field that a prefix stands for has the word `w`; names, tags and ids count as a whole. */
  ghost predicate FieldHas(env: Env, book: Book, p: string, w: string) {
    || (p == "S" && w in env.words(env.norm(book.title)))
    || (p == "XD" && w in env.words(env.norm(book.description)))
    || (p == "L" && exists lang | lang in LanguagesOf(book) :: w in env.words(lang))
    || (p == "A" && w in env.words(env.norm(book.creator)))
    || (p == "XP" && w in env.words(env.norm(book.publisher)))
    || (p == "XN" && w == env.norm(book.name))
    || (p == "XF" && w in env.words(env.norm(book.flavour)))
    || (p == "XC" && w in env.words(env.norm(book.category)))
    || (p == "XT" && w in TagsOf(env, book))
    || (p == "Q" && w == book.id)
  }

  /** A document has a prefixed term exactly if the book's field has the word. */
  lemma TermMeans(env: Env, book: Book, p: string, w: string)
    requires LowerCase(env) && IsPrefix(p)
    ensures p + w in TermsOf(env, book) <==> FieldHas(env, book, p, w)
  {
    var stemmer := Stemmer(LanguagesOf(book));
    InDescription(env, stemmer, env.norm(book.title), env.norm(book.description), p, w);
    InLanguages(env, stemmer, LanguagesOf(book), p, w);
    InFields(env, stemmer, book, p, w);
    InTags(env, stemmer, TagsOf(env, book), p, w);
    if p + w == IdTerm(book.id) {
      PrefixFree(p, w, "Q", book.id);
    }
  }

  // ---- What a filter asks of a book ------------------------------------------

  /** One of the elements of the list is, normalised, a word of the text. */
  ghost predicate Mentions(env: Env, list: string, text: string) {
    exists e | e in Text.Split(list, {','}, true, false) :: env.norm(e) in env.words(text)
  }

  /** The name as a whole, and words of the flavour, the category and the languages. */
  ghost predicate FieldsFit(env: Env, f: Settings, book: Book) {
    && (NAME in f.active ==> env.norm(book.name) == env.norm(f.name))
    && (FLAVOUR in f.active ==> env.norm(f.flavour) in env.words(env.norm(book.flavour)))
    && (CATEGORY in f.active ==> Mentions(env, f.category, env.norm(book.category)))
    && (LANG in f.active ==> exists lang | lang in LanguagesOf(book) :: Mentions(env, f.lang, lang))
  }

  /** All accepted tags, and no rejected one. */
  ghost predicate TagsFit(env: Env, f: Settings, book: Book) {
    && (forall t | t in f.acceptTags :: env.norm(t) in TagsOf(env, book))
    && (forall t | t in f.rejectTags :: env.norm(t) !in TagsOf(env, book))
  }

  /** Free text, publisher and creator, which the search engine matches. */
  ghost predicate TextFits(env: Env, f: Settings, book: Book) {
    var terms := TermsOf(env, book);
    && (QUERY in f.active && f.query != "" ==> env.textMatch(Text(env.norm(f.query), f.queryIsPartial), terms))
    && (PUBLISHER in f.active ==> env.textMatch(Phrase("XP", env.norm(f.publisher)), terms))
    && (CREATOR in f.active ==> env.textMatch(Phrase("A", env.norm(f.creator)), terms))
  }

  ghost predicate BookFits(env: Env, f: Settings, book: Book) {
    FieldsFit(env, f, book) && TagsFit(env, f, book) && TextFits(env, f, book)
  }

  lemma TagMeans(env: Env, tag: string, book: Book)
    requires LowerCase(env)
    ensures HasTag(env, tag, TermsOf(env, book)) <==> env.norm(tag) in TagsOf(env, book)
  {
    TermMeans(env, book, "XT", env.norm(tag));
  }

  lemma CategoryMeans(env: Env, list: string, book: Book)
    requires LowerCase(env)
    ensures HasAny(env, list, "XC", TermsOf(env, book)) <==> Mentions(env, list, env.norm(book.category))
  {
    forall e | e in Elements(list)
      ensures "XC" + env.norm(e) in TermsOf(env, book) <==> env.norm(e) in env.words(env.norm(book.category))
    {
      TermMeans(env, book, "XC", env.norm(e));
    }
  }

  lemma LanguageMeans(env: Env, list: string, book: Book)
    requires LowerCase(env)
    ensures HasAny(env, list, "L", TermsOf(env, book))
       <==> exists lang | lang in LanguagesOf(book) :: Mentions(env, list, lang)
  {
    forall e | e in Elements(list)
      ensures "L" + env.norm(e) in TermsOf(env, book)
         <==> exists lang | lang in LanguagesOf(book) :: env.norm(e) in env.words(lang)
    {
      TermMeans(env, book, "L", env.norm(e));
    }
  }

  lemma TagsMean(env: Env, f: Settings, book: Book)
    requires LowerCase(env)
    ensures HasTags(env, f, TermsOf(env, book)) <==> TagsFit(env, f, book)
  {
    forall t
      ensures HasTag(env, t, TermsOf(env, book)) <==> env.norm(t) in TagsOf(env, book)
    {
      TagMeans(env, t, book);
    }
  }

  lemma ContentMeans(env: Env, f: Settings, book: Book)
    requires LowerCase(env)
    ensures HasContent(env, f, TermsOf(env, book))
       <==> (QUERY in f.active && f.query != "" ==>
               env.textMatch(Text(env.norm(f.query), f.queryIsPartial), TermsOf(env, book)))
            && (NAME in f.active ==> env.norm(book.name) == env.norm(f.name))
            && (FLAVOUR in f.active ==> env.norm(f.flavour) in env.words(env.norm(book.flavour)))
            && (CATEGORY in f.active ==> Mentions(env, f.category, env.norm(book.category)))
  {
    TermMeans(env, book, "XN", env.norm(f.name));
    TermMeans(env, book, "XF", env.norm(f.flavour));
    CategoryMeans(env, f.category, book);
  }

  /** What the query asks of a book's document is what the filter asks of the book. */
  lemma WantedMeans(env: Env, f: Settings, book: Book)
    requires LowerCase(env)
    ensures Wanted(env, f, TermsOf(env, book)) <==> BookFits(env, f, book)
  {
    ContentMeans(env, f, book);
    LanguageMeans(env, f.lang, book);
    TagsMean(env, f, book);
  }

  function ByName(name: string): Settings {
    NOTHING.(name := name, active := {NAME})
  }

  lemma NameOnly(env: Env, name: string, book: Book)
    ensures BookFits(env, ByName(name), book) && Accept(ByName(name), book)
       <==> env.norm(book.name) == env.norm(name)
  {
  }

  /** At most the flags for tags are set. */
  ghost predicate OnlyTags(f: Settings) {
    forall flag | flag in f.active :: flag == ACCEPTTAGS || flag == REJECTTAGS
  }

  lemma TagsOnly(env: Env, f: Settings, book: Book)
    requires OnlyTags(f)
    ensures BookFits(env, f, book) && Accept(f, book) <==> TagsFit(env, f, book)
  {
    assert FieldsFit(env, f, book);
    assert TextFits(env, f, book);
  }

  ghost predicate OnlyQuery(f: Settings) {
    f.acceptTags == [] && f.rejectTags == [] && QUERY in f.active && forall flag | flag in f.active :: flag == QUERY
  }

  lemma QueryOnly(env: Env, f: Settings, book: Book)
    requires OnlyQuery(f) && f.query != ""
    ensures BookFits(env, f, book) && Accept(f, book)
       <==> env.textMatch(Text(env.norm(f.query), f.queryIsPartial), TermsOf(env, book))
  {
    assert FieldsFit(env, f, book);
    assert TagsFit(env, f, book);
    assert Accept(f, book);
  }
}
