/** `filterViaBookDB` and `filter` of src/library.cpp, over the index of a library. */
module Filtering {
  import opened Seqs
  import opened Filters
  import opened Books
  import opened Index
  import opened LibraryState
  import opened Library
  import opened Queries
  import opened BookTerms

  // ---- One document per book -------------------------------------------------

  lemma {:induction false} IdTermsCount(ids: set<string>)
    ensures |IdTerms(ids)| == |ids|
    decreases |ids|
  {
    if ids == {} {
      assert IdTerms(ids) == {};
    } else {
      var id :| id in ids;
      IdTermsCount(ids - {id});
      forall x | x in ids - {id}
        ensures IdTerm(x) != IdTerm(id)
      {
        IdTermInjective(x, id);
      }
      assert IdTerms(ids) == IdTerms(ids - {id}) + {IdTerm(id)};
    }
  }

  /** As many documents as books. */
  lemma DocumentCount(s: State)
    requires Coupled(s)
    ensures |s.db.Keys| == |s.books.Keys|
  {
    assert IdTerms(s.books.Keys) == s.db.Keys;
    IdTermsCount(s.books.Keys);
  }

  /** Every document stands under the term of its id. */
  ghost predicate Keyed(db: map<string, Document>) {
    forall k | k in db :: k == IdTerm(db[k].data)
  }

  /** The keys of the documents that match. */
  ghost function MatchingKeys(env: Env, db: map<string, Document>, q: Query): set<string> {
    set k | k in db && Matches(env, q, db[k].terms)
  }

  /** `ids` are the ids of the matches `found`, and the other matches are in `left`. */
  ghost predicate Scan(all: set<string>, left: set<string>, ids: seq<string>, found: set<string>) {
    && Distinct(ids) && |ids| == |found| && found !! left && found <= all <= found + left
    && forall id :: id in ids <==> IdTerm(id) in found
  }

  lemma ScanSkips(all: set<string>, left: set<string>, ids: seq<string>, found: set<string>, k: string)
    requires Scan(all, left, ids, found) && k !in all
    ensures Scan(all, left - {k}, ids, found)
  {
  }

  lemma ScanFinds(all: set<string>, left: set<string>, ids: seq<string>, found: set<string>, id: string)
    requires Scan(all, left, ids, found) && IdTerm(id) in all && IdTerm(id) in left
    ensures Scan(all, left - {IdTerm(id)}, ids + [id], found + {IdTerm(id)})
  {
    PushFound(ids, found, id);
  }

  /** The search engine's answer: the ids of at most `limit` matching documents, each document
      once, in any order; all of them if there are no more than `limit`. */
  method GetMset(env: Env, db: map<string, Document>, q: Query, limit: nat) returns (ids: seq<string>)
    requires Keyed(db)
    ensures Distinct(ids) && |ids| <= limit
    ensures forall id | id in ids :: IdTerm(id) in MatchingKeys(env, db, q)
    ensures |MatchingKeys(env, db, q)| <= limit ==> forall id | IdTerm(id) in MatchingKeys(env, db, q) :: id in ids
  {
    ids := [];
    var left := db.Keys;
    ghost var all, found: set<string> := MatchingKeys(env, db, q), {};
    while left != {} && |ids| < limit
      invariant left <= db.Keys && Scan(all, left, ids, found) && |ids| <= limit
    {
      var k :| k in left;
      if Matches(env, q, db[k].terms) {
        var id := db[k].data;
        ScanFinds(all, left, ids, found, id);
        ids, found := ids + [id], found + {k};
      } else {
        ScanSkips(all, left, ids, found, k);
      }
      left := left - {k};
    }
    if |all| <= limit && left != {} {
      SubsetOfSameSize(found, all, limit);
    }
  }

  lemma PushFound(ids: seq<string>, found: set<string>, id: string)
    requires Distinct(ids) && IdTerm(id) !in found
    requires forall x :: x in ids <==> IdTerm(x) in found
    ensures Distinct(ids + [id])
    ensures forall x :: x in ids + [id] <==> IdTerm(x) in found + {IdTerm(id)}
  {
    DistinctSnoc(ids, id);
    forall x
      ensures x in ids + [id] <==> IdTerm(x) in found + {IdTerm(id)}
    {
      IdTermInjective(x, id);
    }
  }

  lemma SubsetOfSameSize(a: set<string>, b: set<string>, n: nat)
    requires a <= b && |b| <= n
    ensures |a| <= |b|
    ensures |a| == n ==> a == b
  {
    assert |b| == |a| + |b - a|;
  }

  // ---- Filtering -------------------------------------------------------------

  /** The document of book `id` is wanted. */
  ghost predicate InIndex(env: Env, s: State, f: Settings, id: string)
    requires Coupled(s)
  {
    id in s.books && Wanted(env, f, s.db[IdTerm(id)].terms)
  }

  /** The result of `filter`: wanted by the query, and accepted. */
  ghost predicate Selected(env: Env, s: State, f: Settings, id: string)
    requires Coupled(s)
  {
    InIndex(env, s, f, id) && Accept(f, s.books[id].book)
  }

  method GetBooksIds(books: map<string, Entry>) returns (ids: seq<string>)
    ensures Distinct(ids) && forall id :: id in ids <==> id in books
  {
    ids := [];
    var left := books.Keys;
    while left != {}
      invariant left <= books.Keys && Distinct(ids)
      invariant forall id :: id in ids <==> id in books.Keys - left
    {
      var id :| id in left;
      left := left - {id};
      DistinctSnoc(ids, id);
      ids := ids + [id];
    }
  }

  /** The `get_mset` limit of one per book loses no match, and the shortcut for a query that
      selects everything gives the same books as the index would. */
  method FilterViaBookDB(lib: Library, f: Settings) returns (bookIds: seq<string>)
    requires lib.Valid()
    ensures Distinct(bookIds) && forall id :: id in bookIds <==> InIndex(lib.env, lib.Value(), f, id)
  {
    var query := BuildXapianQuery(lib.env, f);
    if WillSelectEverything(query) {
      bookIds := GetBooksIds(lib.books);
      forall id | id in lib.books
        ensures InIndex(lib.env, lib.Value(), f, id)
      {
        assert Matches(lib.env, query, lib.db[IdTerm(id)].terms);
      }
    } else {
      MatchesFit(lib.env, lib.Value(), f, query);
      bookIds := GetMset(lib.env, lib.db, query, |lib.books.Keys|);
    }
  }

  /** The matching documents are those of the wanted books, and no more than there are books. */
  lemma MatchesFit(env: Env, s: State, f: Settings, q: Query)
    requires Coupled(s) && forall terms :: Matches(env, q, terms) <==> Wanted(env, f, terms)
    ensures |MatchingKeys(env, s.db, q)| <= |s.books.Keys|
    ensures forall id :: IdTerm(id) in MatchingKeys(env, s.db, q) <==> InIndex(env, s, f, id)
  {
    DocumentCount(s);
    var all := MatchingKeys(env, s.db, q);
    assert all <= s.db.Keys;
    SubsetOfSameSize(all, s.db.Keys, |s.db.Keys|);
    forall id
      ensures IdTerm(id) in all <==> InIndex(env, s, f, id)
    {
      if IdTerm(id) in s.db {
        IdTermInjective(id, s.db[IdTerm(id)].data);
      }
    }
  }

  /** `filter` never misses in `m_books`, and yields exactly the selected books, each once. */
  method FilterBooks(lib: Library, f: Settings) returns (result: seq<string>)
    requires lib.Valid()
    ensures Distinct(result) && forall id :: id in result <==> Selected(lib.env, lib.Value(), f, id)
  {
    var preliminaryResult := FilterViaBookDB(lib, f);
    result := [];
    for i := 0 to |preliminaryResult|
      invariant Distinct(result)
      invariant forall id :: id in result <==> id in preliminaryResult[..i] && Selected(lib.env, lib.Value(), f, id)
    {
      var id := preliminaryResult[i];
      TakeSnoc(preliminaryResult, i);
      if Accept(f, lib.books[id].book) {
        DistinctSnoc(result, id);
        result := result + [id];
      }
    }
    assert preliminaryResult[..|preliminaryResult|] == preliminaryResult;
  }

  /** While the index is in sync, the selection is about the stored books alone. */
  lemma SelectedInSync(env: Env, terms: Indexer, s: State, f: Settings, id: string)
    requires InSync(terms, s) && id in s.books && terms(s.books[id].book) == TermsOf(env, s.books[id].book)
    ensures Selected(env, s, f, id)
       <==> Wanted(env, f, TermsOf(env, s.books[id].book)) && Accept(f, s.books[id].book)
  {
    assert EntryInSync(terms, s, id);
  }

  /** After any run without read-only books, filtering selects exactly the stored books whose own
      terms are wanted and that are accepted. */
  lemma FilterAfterRun(env: Env, terms: Indexer, revision: nat, ops: seq<Op>, f: Settings, id: string)
    requires forall i | 0 <= i < |ops| :: Writable(ops[i])
    requires forall book :: terms(book) == TermsOf(env, book)
    ensures var s := Run(terms, Empty(revision), ops);
            Coupled(s) && (Selected(env, s, f, id) <==>
                           id in s.books && Wanted(env, f, TermsOf(env, s.books[id].book)) && Accept(f, s.books[id].book))
  {
    var s := Run(terms, Empty(revision), ops);
    RunKeepsSync(terms, Empty(revision), ops);
    if id in s.books {
      SelectedInSync(env, terms, s, f, id);
    }
  }

  /** In the fields of the books themselves: with all active settings at once, the selected books
      are those that have the name, the words of the other fields and the tags asked for. */
  lemma FilterSelects(env: Env, terms: Indexer, revision: nat, ops: seq<Op>, f: Settings, id: string)
    requires forall i | 0 <= i < |ops| :: Writable(ops[i])
    requires LowerCase(env) && forall book :: terms(book) == TermsOf(env, book)
    ensures var s := Run(terms, Empty(revision), ops);
            Coupled(s) && (Selected(env, s, f, id) <==>
                           id in s.books && BookFits(env, f, s.books[id].book) && Accept(f, s.books[id].book))
  {
    var s := Run(terms, Empty(revision), ops);
    FilterAfterRun(env, terms, revision, ops, f, id);
    if id in s.books {
      WantedMeans(env, f, s.books[id].book);
    }
  }

  /** A filter by name alone selects the books of the same normalised name. */
  lemma FilterByName(env: Env, terms: Indexer, revision: nat, ops: seq<Op>, name: string, id: string)
    requires forall i | 0 <= i < |ops| :: Writable(ops[i])
    requires LowerCase(env) && forall book :: terms(book) == TermsOf(env, book)
    ensures var s := Run(terms, Empty(revision), ops);
            Coupled(s) && (Selected(env, s, ByName(name), id) <==>
                           id in s.books && env.norm(s.books[id].book.name) == env.norm(name))
  {
    var s := Run(terms, Empty(revision), ops);
    FilterSelects(env, terms, revision, ops, ByName(name), id);
    if id in s.books {
      NameOnly(env, name, s.books[id].book);
    }
  }

  /** A filter by tags alone selects the books with every accepted and no rejected tag among the
      tags between their semicolons. */
  lemma FilterByTags(env: Env, terms: Indexer, revision: nat, ops: seq<Op>, f: Settings, id: string)
    requires forall i | 0 <= i < |ops| :: Writable(ops[i])
    requires LowerCase(env) && forall book :: terms(book) == TermsOf(env, book)
    requires OnlyTags(f)
    ensures var s := Run(terms, Empty(revision), ops);
            Coupled(s) && (Selected(env, s, f, id) <==> id in s.books && TagsFit(env, f, s.books[id].book))
  {
    var s := Run(terms, Empty(revision), ops);
    FilterSelects(env, terms, revision, ops, f, id);
    if id in s.books {
      TagsOnly(env, f, s.books[id].book);
    }
  }
}
