/** `Manager::reload`, `readFile` and `parseXmlDom` of src/manager.cpp, on parsed documents. */
module Reload {
  import opened Seqs
  import opened Books
  import opened LibraryState
  import opened Library

  /** A library file given to `reload`: an empty path, a file that does not parse, or the books of a
      document in order. */
  datatype Source = EmptyPath | Unreadable(path: string) | Parsed(path: string, books: seq<Book>)

  function Adds(books: seq<Book>, readOnly: bool): (ops: seq<Op>)
    ensures |ops| == |books|
  {
    seq(|books|, i requires 0 <= i < |books| => Add(books[i].(readOnly := readOnly)))
  }

  /** The books of all readable files, in order. */
  function AllBooks(files: seq<Source>): seq<Book> {
    if files == [] then [] else
      var f := files[|files| - 1];
      AllBooks(files[..|files| - 1]) + if f.Parsed? then f.books else []
  }

  lemma {:induction false} RunAppend(terms: Indexer, s: State, a: seq<Op>, b: seq<Op>)
    ensures Run(terms, s, a + b) == Run(terms, Run(terms, s, a), b)
    decreases |b|
  {
    if b == [] {
      assert a + b == a;
    } else {
      var c := b[..|b| - 1];
      assert (a + b)[..|a + b| - 1] == a + c;
      RunAppend(terms, s, a, c);
    }
  }

  lemma AddNext(terms: Indexer, s: State, books: seq<Book>, readOnly: bool, i: nat)
    requires i < |books|
    ensures var ops := Adds(books, readOnly);
            Run(terms, s, ops[..i + 1]) == AfterAdd(terms, Run(terms, s, ops[..i]), books[i].(readOnly := readOnly))
  {
    var ops := Adds(books, readOnly);
    assert ops[..i + 1][..i] == ops[..i];
  }

  // ---- What reading books does -----------------------------------------------

  /** The last book with this id. */
  function LastWith(books: seq<Book>, id: string): (r: Option<Book>)
    ensures r.Some? <==> exists b :: b in books && b.id == id
  {
    if books == [] then None
    else if books[|books| - 1].id == id then Some(books[|books| - 1])
    else
      assert books == books[..|books| - 1] + [books[|books| - 1]];
      LastWith(books[..|books| - 1], id)
  }

  /** `t` is `s` after reading `books` as writable books: the ids of both, a fresh revision for
      each id read, a read-only entry of `s` with its old contents and any other entry with the
      last book read, and everything else untouched. */
  ghost predicate HasRead(s: State, books: seq<Book>, t: State) {
    && t.revision == s.revision + |books|
    && (forall id :: id in t.books <==> id in s.books || LastWith(books, id).Some?)
    && (forall id | id in t.books :: EntryAfter(s, books, id, t.books[id]))
  }

  ghost predicate EntryAfter(s: State, books: seq<Book>, id: string, e: Entry) {
    match LastWith(books, id)
    case None => id in s.books && e == s.books[id]
    case Some(b) =>
      e.lastUpdatedRevision > s.revision
      && e.book == if id in s.books && s.books[id].book.readOnly then s.books[id].book else b.(readOnly := false)
  }

  lemma ReadOne(terms: Indexer, s: State, books: seq<Book>, t: State, book: Book)
    requires HasRead(s, books, t)
    ensures HasRead(s, books + [book], AfterAdd(terms, t, book.(readOnly := false)))
  {
    var all, u := books + [book], AfterAdd(terms, t, book.(readOnly := false));
    assert all[..|books|] == books;
    forall id | id in u.books
      ensures EntryAfter(s, all, id, u.books[id])
    {
      if id != book.id {
        assert EntryAfter(s, books, id, t.books[id]);
      } else if id in t.books {
        assert EntryAfter(s, books, id, t.books[id]);
      }
    }
  }

  lemma {:induction false} ReadsAll(terms: Indexer, s: State, books: seq<Book>)
    ensures HasRead(s, books, Run(terms, s, Adds(books, false)))
  {
    if books != [] {
      var init, last := books[..|books| - 1], books[|books| - 1];
      ReadsAll(terms, s, init);
      assert books == init + [last];
      assert Adds(books, false)[..|books| - 1] == Adds(init, false);
      ReadOne(terms, s, init, Run(terms, s, Adds(init, false)), last);
    }
  }

  /** After reading, removing what was not updated leaves exactly the ids read. */
  lemma ReloadIsExact(s: State, books: seq<Book>, t: State)
    requires Coupled(s) && HasRead(s, books, t)
    ensures var u := Without(t, Stale(t, s.revision));
            && u.revision >= t.revision >= s.revision
            && (forall id :: id in u.books <==> LastWith(books, id).Some?)
            && (forall id | id in u.books :: EntryAfter(s, books, id, u.books[id]))
  {
    forall id | id in t.books
      ensures id in Stale(t, s.revision) <==> LastWith(books, id).None?
    {
      assert EntryAfter(s, books, id, t.books[id]);
    }
  }

  // ---- The manager -----------------------------------------------------------

  class Manager {
    const library: Library
    var writableLibraryPath: string

    constructor (library: Library)
      ensures this.library == library && writableLibraryPath == ""
    {
      this.library := library;
      writableLibraryPath := "";
    }

    method ParseXmlDom(books: seq<Book>, readOnly: bool)
      requires library.Valid()
      modifies library
      ensures library.Valid() && library.bookmarks == old(library.bookmarks)
      ensures library.Value() == Run(library.Terms(), old(library.Value()), Adds(books, readOnly))
    {
      ghost var s, ops := library.Value(), Adds(books, readOnly);
      for i := 0 to |books|
        invariant library.Valid() && library.bookmarks == old(library.bookmarks)
        invariant library.Value() == Run(library.Terms(), s, ops[..i])
      {
        AddNext(library.Terms(), s, books, readOnly, i);
        var added := library.AddBook(books[i].(readOnly := readOnly));
      }
      assert ops[..|books|] == ops;
    }

    /** False if the file does not parse. */
    method ReadFile(file: Source, readOnly: bool) returns (retVal: bool)
      requires library.Valid() && !file.EmptyPath?
      modifies library, this
      ensures library.Valid() && library.bookmarks == old(library.bookmarks)
      ensures retVal <==> file.Parsed?
      ensures library.Value() == Run(library.Terms(), old(library.Value()),
                                     if file.Parsed? then Adds(file.books, readOnly) else [])
      ensures writableLibraryPath == if readOnly then old(writableLibraryPath) else file.path
    {
      retVal := true;
      if file.Parsed? {
        ParseXmlDom(file.books, readOnly);
      } else {
        retVal := false;
      }
      if !readOnly {
        writableLibraryPath := file.path;
      }
    }

    /** False where the source throws: some file does not parse. Then the files before it have been
        read and nothing has been removed. */
    method Reload(files: seq<Source>) returns (ok: bool)
      requires library.Valid()
      modifies library, this
      ensures library.Valid() && library.bookmarks == old(library.bookmarks)
      ensures library.revision >= old(library.revision)
      ensures ok <==> forall i | 0 <= i < |files| :: !files[i].Unreadable?
      ensures ok ==> forall id :: id in library.books <==> LastWith(AllBooks(files), id).Some?
      ensures ok ==> forall id | id in library.books ::
                EntryAfter(old(library.Value()), AllBooks(files), id, library.books[id])
      ensures !ok ==> exists k | 0 <= k < |files| ::
                files[k].Unreadable? && (forall i | 0 <= i < k :: !files[i].Unreadable?)
                && HasRead(old(library.Value()), AllBooks(files[..k]), library.Value())
    {
      ghost var s := library.Value();
      var libRevision := library.revision;
      for i := 0 to |files|
        invariant library.Valid() && library.bookmarks == old(library.bookmarks)
        invariant forall j | 0 <= j < i :: !files[j].Unreadable?
        invariant library.Value() == Run(library.Terms(), s, Adds(AllBooks(files[..i]), false))
      {
        NextFile(library.Terms(), s, files, i);
        if !files[i].EmptyPath? {
          var read := ReadFile(files[i], false);
          if !read {
            ReadsAll(library.Terms(), s, AllBooks(files[..i]));
            return false;
          }
        }
      }
      assert files[..|files|] == files;
      ReadsAll(library.Terms(), s, AllBooks(files));
      ReloadIsExact(s, AllBooks(files), library.Value());
      var count := library.RemoveBooksNotUpdatedSince(libRevision);
      return true;
    }
  }

  lemma NextFile(terms: Indexer, s: State, files: seq<Source>, i: nat)
    requires i < |files|
    ensures Run(terms, s, Adds(AllBooks(files[..i + 1]), false))
         == Run(terms, Run(terms, s, Adds(AllBooks(files[..i]), false)),
                if files[i].Parsed? then Adds(files[i].books, false) else [])
  {
    var done, books := AllBooks(files[..i]), if files[i].Parsed? then files[i].books else [];
    assert files[..i + 1][..i] == files[..i];
    assert AllBooks(files[..i + 1]) == done + books;
    assert Adds(done + books, false) == Adds(done, false) + Adds(books, false);
    RunAppend(terms, s, Adds(done, false), Adds(books, false));
  }
}
