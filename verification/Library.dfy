/** The `Library` object of src/library.cpp: books, revision, index and bookmarks, changed in
    place. */
module Library {
  import opened Seqs
  import opened Books
  import opened Index
  import opened LibraryState
  import Text

  function IdTerms(ids: set<string>): set<string> {
    set id | id in ids :: IdTerm(id)
  }

  /** The entries `removeBooksNotUpdatedSince` removes. */
  ghost function Stale(s: State, revision: nat): set<string> {
    set id | id in s.books && s.books[id].lastUpdatedRevision <= revision
  }

  /** `s` without the books `gone`, one revision for each. */
  ghost function Without(s: State, gone: set<string>): State {
    State(s.books - gone, s.revision + |gone|, s.db - IdTerms(gone))
  }

  lemma WithoutOneMore(s: State, gone: set<string>, id: string)
    requires id in s.books && id !in gone
    ensures AfterRemove(Without(s, gone), id) == Without(s, gone + {id})
  {
    assert |gone + {id}| == |gone| + 1;
    assert IdTerms(gone + {id}) == IdTerms(gone) + {IdTerm(id)};
    assert s.books - (gone + {id}) == s.books - gone - {id};
    assert s.db - (IdTerms(gone) + {IdTerm(id)}) == s.db - IdTerms(gone) - {IdTerm(id)};
  }

  /** `t` is `s` after the addition, field by field. */
  lemma AddedIs(terms: Indexer, s: State, book: Book, t: State)
    requires Coupled(s) && t.revision == s.revision + 1
    requires t.books == s.books[book.id := Entry(if book.id in s.books then Updated(s.books[book.id].book, book) else book,
                                                 s.revision + 1)]
    requires t.db == s.db[IdTerm(book.id) := Document(book.id, terms(book))]
    ensures t == AfterAdd(terms, s, book) && Coupled(t)
  {
    StepKeepsCoupling(terms, s, Add(book));
  }

  class Library {
    const env: Env
    var books: map<string, Entry>
    var revision: nat
    var db: map<string, Document>
    var bookmarks: seq<Bookmark>

    function Terms(): Indexer {
      book => TermsOf(env, book)
    }

    function Value(): State
      reads this
    {
      State(books, revision, db)
    }

    ghost predicate Valid()
      reads this
    {
      Coupled(Value())
    }

    constructor (env: Env, revision: nat)
      ensures Valid() && this.env == env && Value() == Empty(revision) && bookmarks == []
    {
      this.env := env;
      this.books, this.revision, this.db, this.bookmarks := map[], revision, map[], [];
    }

    method UpdateBookDB(book: Book)
      modifies this`db
      ensures db == old(db)[IdTerm(book.id) := Document(book.id, Terms()(book))]
    {
      var langs := Text.SplitString(book.language, {','}, true, false);
      var stemmer := if |langs| == 1 then Some(langs[0]) else None;
      var title, desc := env.norm(book.title), env.norm(book.description);
      var terms := IndexText(env, stemmer, title, "") + IndexText(env, stemmer, desc, "");
      terms := terms + IndexText(env, stemmer, title, "S") + IndexText(env, stemmer, desc, "XD");
      assert terms == DescriptionTerms(env, stemmer, title, desc);
      terms := IndexLanguages(env, stemmer, langs, terms);
      ghost var before := terms;
      terms := terms + IndexText(env, stemmer, env.norm(book.creator), "A");
      terms := terms + IndexText(env, stemmer, env.norm(book.publisher), "XP");
      terms := terms + {"XN" + env.norm(book.name)};
      terms := terms + IndexText(env, stemmer, env.norm(book.flavour), "XF");
      terms := terms + IndexText(env, stemmer, env.norm(book.category), "XC");
      assert terms == before + FieldTerms(env, stemmer, book);
      var tags := Text.SplitString(env.norm(book.tags), {';'}, true, false);
      terms := IndexTags(env, stemmer, tags, terms);
      var idterm := IdTerm(book.id);
      terms := terms + {idterm};
      db := db[idterm := Document(book.id, terms)];
    }

    /** The result is whether the id was new. */
    method AddBook(book: Book) returns (added: bool)
      requires Valid()
      modifies this`books, this`revision, this`db
      ensures Valid() && Value() == AfterAdd(Terms(), old(Value()), book)
      ensures added <==> book.id !in old(books)
    {
      ghost var s := Value();
      revision := revision + 1;
      UpdateBookDB(book);
      added := StoreBook(book);
      AddedIs(Terms(), s, book, Value());
    }

    /** An old entry is updated, a new one made; either way it has the current revision. */
    method StoreBook(book: Book) returns (added: bool)
      modifies this`books
      ensures added <==> book.id !in old(books)
      ensures books == old(books)[book.id := Entry(if book.id in old(books) then Updated(old(books)[book.id].book, book) else book,
                                                   revision)]
    {
      if book.id in books {
        var oldbook := books[book.id].book;
        books := books[book.id := Entry(Updated(oldbook, book), revision)];
        return false;
      }
      books := books[book.id := Entry(book, revision)];
      return true;
    }

    method RemoveBookById(id: string) returns (removed: bool)
      requires Valid()
      modifies this
      ensures Valid() && Value() == AfterRemove(old(Value()), id) && bookmarks == old(bookmarks)
      ensures removed <==> id in old(books)
    {
      ghost var s := Value();
      StepKeepsCoupling(Terms(), s, Remove(id));
      db := db - {IdTerm(id)};
      removed := id in books;
      books := books - {id};
      if removed {
        revision := revision + 1;
      }
      assert Value() == AfterRemove(s, id);
    }

    /** The ids of the entries not updated since `rev`, each once. */
    method BooksNotUpdatedSince(rev: nat) returns (ids: seq<string>)
      ensures Distinct(ids) && forall id :: id in ids <==> id in Stale(Value(), rev)
    {
      ids := [];
      var left := books.Keys;
      while left != {}
        invariant left <= books.Keys && Distinct(ids)
        invariant forall id :: id in ids <==> id in Stale(Value(), rev) - left
      {
        var id :| id in left;
        left := left - {id};
        if books[id].lastUpdatedRevision <= rev {
          DistinctSnoc(ids, id);
          ids := ids + [id];
        }
      }
    }

    method RemoveBooksNotUpdatedSince(libraryRevision: nat) returns (count: nat)
      requires Valid()
      modifies this
      ensures Valid() && Value() == Without(old(Value()), old(Stale(Value(), libraryRevision)))
      ensures count == |old(Stale(Value(), libraryRevision))| && bookmarks == old(bookmarks)
    {
      ghost var s, stale := Value(), Stale(Value(), libraryRevision);
      var booksToRemove := BooksNotUpdatedSince(libraryRevision);
      count := 0;
      ghost var gone: set<string> := {};
      WithoutNothing(s);
      for i := 0 to |booksToRemove|
        invariant Valid() && bookmarks == old(bookmarks)
        invariant Value() == Without(s, gone) && count == |gone|
        invariant forall id :: id in gone <==> id in booksToRemove[..i]
      {
        var id := booksToRemove[i];
        TakeSnoc(booksToRemove, i);
        WithoutOneMore(s, gone, id);
        var removed := RemoveBookById(id);
        if removed {
          count := count + 1;
        }
        gone := gone + {id};
      }
      assert booksToRemove[..|booksToRemove|] == booksToRemove;
      assert gone == stale;
    }

    method AddBookmark(bookmark: Bookmark)
      requires Valid()
      modifies this`bookmarks
      ensures Valid() && bookmarks == old(bookmarks) + [bookmark]
    {
      bookmarks := bookmarks + [bookmark];
    }

    /** Removes the first bookmark with this id and url, if there is one. */
    method RemoveBookmark(zimId: string, url: string) returns (removed: bool)
      requires Valid()
      modifies this`bookmarks
      ensures Valid()
      ensures removed <==> exists b :: b in old(bookmarks) && b.bookId == zimId && b.url == url
      ensures !removed ==> bookmarks == old(bookmarks)
      ensures removed ==> exists k | 0 <= k < |old(bookmarks)| ::
                old(bookmarks)[k].bookId == zimId && old(bookmarks)[k].url == url
                && (forall j | 0 <= j < k :: !(old(bookmarks)[j].bookId == zimId && old(bookmarks)[j].url == url))
                && bookmarks == Removed(old(bookmarks), k)
    {
      for it := 0 to |bookmarks|
        invariant bookmarks == old(bookmarks)
        invariant forall j | 0 <= j < it :: !(bookmarks[j].bookId == zimId && bookmarks[j].url == url)
      {
        if bookmarks[it].bookId == zimId && bookmarks[it].url == url {
          assert bookmarks[it] in bookmarks;
          bookmarks := Removed(bookmarks, it);
          return true;
        }
      }
      return false;
    }
  }

  /** The loop of `UpdateBookDB` over the languages. */
  method IndexLanguages(env: Env, stemmer: Option<string>, langs: seq<string>, before: set<string>)
    returns (terms: set<string>)
    ensures terms == before + LanguageTerms(env, stemmer, langs)
  {
    terms := before;
    for i := 0 to |langs|
      invariant terms == before + LanguageTerms(env, stemmer, langs[..i])
    {
      OneMoreLanguage(env, stemmer, langs, i);
      terms := terms + IndexText(env, stemmer, langs[i], "L");
    }
    assert langs[..|langs|] == langs;
  }

  /** The loop of `UpdateBookDB` over the tags. */
  method IndexTags(env: Env, stemmer: Option<string>, tags: seq<string>, before: set<string>)
    returns (terms: set<string>)
    ensures terms == before + TagTerms(env, stemmer, tags)
  {
    terms := before;
    for i := 0 to |tags|
      invariant terms == before + TagTerms(env, stemmer, tags[..i])
    {
      OneMoreTag(env, stemmer, tags, i);
      terms := terms + {"XT" + tags[i]};
      if !Text.StartsWith(tags[i], "_") {
        terms := terms + IndexText(env, stemmer, tags[i], "");
      }
    }
    assert tags[..|tags|] == tags;
  }

  lemma OneMoreLanguage(env: Env, stemmer: Option<string>, langs: seq<string>, i: nat)
    requires i < |langs|
    ensures LanguageTerms(env, stemmer, langs[..i + 1])
         == LanguageTerms(env, stemmer, langs[..i]) + IndexText(env, stemmer, langs[i], "L")
  {
    TakeSnoc(langs, i);
  }

  lemma OneMoreTag(env: Env, stemmer: Option<string>, tags: seq<string>, i: nat)
    requires i < |tags|
    ensures TagTerms(env, stemmer, tags[..i + 1])
         == TagTerms(env, stemmer, tags[..i]) + {"XT" + tags[i]} + TagText(env, stemmer, tags[i])
  {
    TakeSnoc(tags, i);
  }

  lemma WithoutNothing(s: State)
    ensures Without(s, {}) == s
  {
    assert s.books - {} == s.books && s.db - IdTerms({}) == s.db;
  }
}
