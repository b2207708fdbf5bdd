/** The index of a library: queries, and the terms of a book's document. */
module Index {
  import opened Seqs
  import opened Books
  import Text

  /** What the model leaves open: text normalisation, the words of a text and their stems in a
      language, and free-text matching. */
  datatype Env = Env(
    norm: string -> string,
    words: string -> set<string>,
    stems: (string, string) -> set<string>,
    textMatch: (Query, set<string>) -> bool)

  /** Queries of the index. `Text` and `Phrase` are parsed and matched by the search engine. */
  datatype Query =
    | MatchAll
    | MatchNothing
    | Term(term: string)
    | Text(text: string, partial: bool)
    | Phrase(prefix: string, text: string)
    | And(left: Query, right: Query)
    | Or(left: Query, right: Query)
    | AndNot(left: Query, right: Query)

  // ---- The document of a book ------------------------------------------------

  /** `index_text`: the words behind the prefix, and their stems behind a 'Z' and the prefix. */
  function IndexText(env: Env, stemmer: Option<string>, text: string, prefix: string): set<string> {
    (set w | w in env.words(text) :: prefix + w)
    + match stemmer
      case None => {}
      case Some(lang) => set w | w in env.stems(lang, text) :: "Z" + (prefix + w)
  }

  /** A book in a single language has its words stemmed. */
  function Stemmer(langs: seq<string>): Option<string> {
    if |langs| == 1 then Some(langs[0]) else None
  }

  function DescriptionTerms(env: Env, stemmer: Option<string>, title: string, desc: string): set<string> {
    IndexText(env, stemmer, title, "") + IndexText(env, stemmer, desc, "")
    + IndexText(env, stemmer, title, "S") + IndexText(env, stemmer, desc, "XD")
  }

  function LanguageTerms(env: Env, stemmer: Option<string>, langs: seq<string>): set<string> {
    set lang, t | lang in langs && t in IndexText(env, stemmer, lang, "L") :: t
  }

  function FieldTerms(env: Env, stemmer: Option<string>, book: Book): set<string> {
    IndexText(env, stemmer, env.norm(book.creator), "A") + IndexText(env, stemmer, env.norm(book.publisher), "XP")
    + {"XN" + env.norm(book.name)}
    + IndexText(env, stemmer, env.norm(book.flavour), "XF") + IndexText(env, stemmer, env.norm(book.category), "XC")
  }

  /** The words of a tag are free text unless it starts with an underscore. */
  function TagText(env: Env, stemmer: Option<string>, tag: string): set<string> {
    if Text.StartsWith(tag, "_") then {} else IndexText(env, stemmer, tag, "")
  }

  function TagTerms(env: Env, stemmer: Option<string>, tags: seq<string>): set<string> {
    (set tag | tag in tags :: "XT" + tag) + set tag, t | tag in tags && t in TagText(env, stemmer, tag) :: t
  }

  /** The terms `updateBookDB` gives the document of a book. */
  function TermsOf(env: Env, book: Book): set<string> {
    var langs := Text.Split(book.language, {','}, true, false);
    var stemmer := Stemmer(langs);
    DescriptionTerms(env, stemmer, env.norm(book.title), env.norm(book.description))
    + LanguageTerms(env, stemmer, langs)
    + FieldTerms(env, stemmer, book)
    + TagTerms(env, stemmer, Text.Split(env.norm(book.tags), {';'}, true, false))
    + {IdTerm(book.id)}
  }
}
