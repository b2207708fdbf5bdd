/** `getBestTargetBookId` and the three `migrateBookmarks` of src/library.cpp. */
module Migration {
  import opened Seqs
  import opened Books
  import opened Index
  import opened LibraryState
  import opened Library
  import opened BookmarkIds
  import opened BestBook
  import opened BookTerms
  import Filters
  import Filtering
  import Text

  function ShelfOf(books: map<string, Entry>): Shelf {
    map id | id in books :: books[id].book
  }

  /** `remove_quote` */
  function RemoveQuote(s: string): (r: string)
    ensures |r| == |s| && '"' !in r
    ensures forall i | 0 <= i < |s| :: r[i] != s[i] ==> s[i] == '"' && r[i] == ' '
  {
    seq(|s|, i requires 0 <= i < |s| => if s[i] == '"' then ' ' else s[i])
  }

  /** The filter that finds candidates: by name, or by title for bookmarks without a name. */
  function TargetFilter(bookmark: Bookmark): Option<Filters.Settings> {
    if bookmark.bookName != "" then
      Some(Filters.NOTHING.(name := bookmark.bookName, active := {Filters.NAME}))
    else if bookmark.bookTitle == "" then
      None
    else
      Some(Filters.NOTHING.(query := "title:\"" + RemoveQuote(bookmark.bookTitle) + "\"", queryIsPartial := true,
                            active := {Filters.QUERY}))
  }

  /** `ids` are the candidates: the books the filter selects. */
  ghost predicate Candidates(env: Env, s: State, f: Filters.Settings, ids: seq<string>)
    requires Coupled(s)
  {
    OnShelf(ShelfOf(s.books), ids) && Distinct(ids) && forall id :: id in ids <==> Filtering.Selected(env, s, f, id)
  }

  /** `best` is a best candidate, or "" if none qualifies. */
  ghost predicate Chosen(s: State, ids: seq<string>, bookmark: Bookmark, mode: MigrationMode, best: string)
    requires OnShelf(ShelfOf(s.books), ids)
  {
    if AnyQualifies(ShelfOf(s.books), ids, bookmark, mode) then IsBest(ShelfOf(s.books), ids, bookmark, mode, best)
    else best == ""
  }

  /** A target for the bookmark: a best candidate; failing that, the bookmark's own book. */
  ghost predicate TargetOk(env: Env, s: State, bookmark: Bookmark, mode: MigrationMode, target: string)
    requires Coupled(s)
  {
    match TargetFilter(bookmark)
    case None => target == ""
    case Some(f) =>
      exists ids, best | Candidates(env, s, f, ids) && Chosen(s, ids, bookmark, mode, best) ::
        target == if best == "" && bookmark.bookId in s.books then bookmark.bookId else best
  }

  method GetBestTargetBookId(lib: Library, bookmark: Bookmark, mode: MigrationMode) returns (target: string)
    requires lib.Valid()
    ensures TargetOk(lib.env, lib.Value(), bookmark, mode, target)
    ensures target == "" || target in lib.books
  {
    var filter := new Filters.Filter();
    if bookmark.bookName != "" {
      filter.Name(bookmark.bookName);
      assert filter.state.active == {Filters.NAME};
    } else {
      if bookmark.bookTitle == "" {
        return "";
      }
      filter.Query("title:\"" + RemoveQuote(bookmark.bookTitle) + "\"", true);
      assert filter.state.active == {Filters.QUERY};
    }
    assert TargetFilter(bookmark) == Some(filter.state);
    var targetBooks := Filtering.FilterBooks(lib, filter.state);
    assert OnShelf(ShelfOf(lib.books), targetBooks) by {
      assert forall i | 0 <= i < |targetBooks| :: targetBooks[i] in targetBooks;
    }
    var bestBook := GetBestFromBookCollection(ShelfOf(lib.books), targetBooks, bookmark, mode);
    assert Candidates(lib.env, lib.Value(), filter.state, targetBooks);
    assert Chosen(lib.Value(), targetBooks, bookmark, mode, bestBook);
    if bestBook == "" {
      if bookmark.bookId in lib.books {
        return bookmark.bookId;
      }
    }
    return bestBook;
  }

  /** The overload for a name, a flavour and a date: without a date, older books are fine too. */
  method GetBestTargetFor(lib: Library, bookName: string, preferedFlavour: string, minDate: string)
    returns (target: string)
    requires lib.Valid()
    ensures target == "" || target in lib.books
    ensures exists bookmark: Bookmark ::
              bookmark.bookName == bookName && bookmark.bookTitle == "" && bookmark.bookFlavour == preferedFlavour
              && bookmark.bookId == "" && bookmark.date == minDate
              && TargetOk(lib.env, lib.Value(), bookmark, if minDate == "" then ALLOW_DOWNGRADE else UPGRADE_ONLY, target)
  {
    var migrationMode := UPGRADE_ONLY;
    var bookmark := Bookmark("", "", bookName, preferedFlavour, "", "", "", "");
    if minDate == "" {
      migrationMode := ALLOW_DOWNGRADE;
    } else {
      bookmark := bookmark.(date := minDate);
    }
    target := GetBestTargetBookId(lib, bookmark, migrationMode);
  }

  // ---- The target in terms of the books ----------------------------------------

  /** The books the bookmark may move to: those of its name, or if it has none, those its title
      finds as a phrase behind "title:". */
  ghost predicate Related(env: Env, book: Book, bookmark: Bookmark) {
    if bookmark.bookName != "" then env.norm(book.name) == env.norm(bookmark.bookName)
    else env.textMatch(Query.Text(env.norm("title:\"" + RemoveQuote(bookmark.bookTitle) + "\""), true), TermsOf(env, book))
  }

  ghost predicate AllRelated(env: Env, books: map<string, Entry>, bookmark: Bookmark, ids: seq<string>) {
    forall id :: id in ids <==> id in books && Related(env, books[id].book, bookmark)
  }

  /** `s` is the state after a run without read-only books. */
  ghost predicate Reached(env: Env, terms: Indexer, revision: nat, ops: seq<Op>, s: State) {
    && (forall i | 0 <= i < |ops| :: Writable(ops[i]))
    && LowerCase(env) && (forall book :: terms(book) == TermsOf(env, book))
    && s == Run(terms, Empty(revision), ops)
  }

  lemma CandidatesAreRelated(env: Env, terms: Indexer, revision: nat, ops: seq<Op>, s: State, bookmark: Bookmark,
                             ids: seq<string>)
    requires Reached(env, terms, revision, ops, s) && Coupled(s)
    requires TargetFilter(bookmark).Some? && Candidates(env, s, TargetFilter(bookmark).value, ids)
    ensures AllRelated(env, s.books, bookmark, ids)
  {
    var f := TargetFilter(bookmark).value;
    forall id
      ensures id in ids <==> id in s.books && Related(env, s.books[id].book, bookmark)
    {
      Filtering.FilterSelects(env, terms, revision, ops, f, id);
      if id in s.books {
        FilterIsRelated(env, s.books[id].book, bookmark);
      }
    }
  }

  lemma FilterIsRelated(env: Env, book: Book, bookmark: Bookmark)
    requires TargetFilter(bookmark).Some?
    ensures var f := TargetFilter(bookmark).value;
            BookFits(env, f, book) && Filters.Accept(f, book) <==> Related(env, book, bookmark)
  {
    if bookmark.bookName != "" {
      NameOnly(env, bookmark.bookName, book);
    } else {
      QueryOnly(env, TargetFilter(bookmark).value, book);
    }
  }

  /** `target` is a best one of the related books, if one qualifies, and else the bookmark's own
      book, if there is one. */
  ghost predicate TargetAmong(s: State, bookmark: Bookmark, mode: MigrationMode, ids: seq<string>, target: string)
    requires OnShelf(ShelfOf(s.books), ids)
  {
    exists best | Chosen(s, ids, bookmark, mode, best) ::
      target == if best == "" && bookmark.bookId in s.books then bookmark.bookId else best
  }

  ghost predicate TargetIs(env: Env, s: State, bookmark: Bookmark, mode: MigrationMode, target: string) {
    if bookmark.bookName == "" && bookmark.bookTitle == "" then target == ""
    else exists ids | OnShelf(ShelfOf(s.books), ids) && AllRelated(env, s.books, bookmark, ids) ::
      TargetAmong(s, bookmark, mode, ids, target)
  }

  /** After any run without read-only books: the target is a best one among all books of the
      bookmark's name (or title); failing that the bookmark's own book; and nothing for a bookmark
      with neither. */
  lemma TargetAfterRun(env: Env, terms: Indexer, revision: nat, ops: seq<Op>, s: State, bookmark: Bookmark,
                       mode: MigrationMode, target: string)
    requires Reached(env, terms, revision, ops, s) && Coupled(s) && TargetOk(env, s, bookmark, mode, target)
    ensures TargetIs(env, s, bookmark, mode, target)
  {
    if TargetFilter(bookmark).Some? {
      var f := TargetFilter(bookmark).value;
      var ids, best :| Candidates(env, s, f, ids) && Chosen(s, ids, bookmark, mode, best)
                       && target == if best == "" && bookmark.bookId in s.books then bookmark.bookId else best;
      CandidatesAreRelated(env, terms, revision, ops, s, bookmark, ids);
      assert TargetAmong(s, bookmark, mode, ids, target);
    }
  }

  /** The target is not older than the bookmark's own book, if that is among the related ones, under
      the condition of `NotOlderIff`; in either mode nothing else ensures it. */
  lemma TargetNotOlderIff(s: State, bookmark: Bookmark, mode: MigrationMode, ids: seq<string>, target: string)
    requires OnShelf(ShelfOf(s.books), ids) && bookmark.bookId in ids && "" !in ids
    requires TargetAmong(s, bookmark, mode, ids, target)
    ensures var shelf, own := ShelfOf(s.books), bookmark.bookId;
            target in ids
            && (!Text.Precedes(shelf[target].date, shelf[own].date)
                <==> shelf[own].flavour == bookmark.bookFlavour
                     || (forall x | x in ids :: !QualifiesInFlavour(shelf, x, bookmark, mode))
                     || (exists x | x in ids && shelf[x].flavour == bookmark.bookFlavour ::
                           !Text.Precedes(shelf[x].date, shelf[own].date)))
  {
    var shelf, own := ShelfOf(s.books), bookmark.bookId;
    var best :| Chosen(s, ids, bookmark, mode, best)
                && target == if best == "" && own in s.books then own else best;
    if AnyQualifies(shelf, ids, bookmark, mode) {
      NotOlderIff(shelf, ids, bookmark, mode, best, own);
    } else {
      NotOlderTransitive(shelf[own].date, shelf[own].date, shelf[own].date);
    }
  }

  // ---- Migration -------------------------------------------------------------

  /** All bookmarks of one book to another. */
  method MigrateTo(lib: Library, sourceBookId: string, targetBookId: string) returns (changed: nat)
    modifies lib`bookmarks
    ensures sourceBookId == targetBookId ==> lib.bookmarks == old(lib.bookmarks) && changed == 0
    ensures sourceBookId != targetBookId ==>
              lib.bookmarks == MapIds(old(lib.bookmarks), map[sourceBookId := targetBookId])
              && changed == CountOf(old(lib.bookmarks), {sourceBookId})
  {
    if sourceBookId == targetBookId {
      return 0;
    }
    changed := 0;
    ghost var bs := lib.bookmarks;
    for i := 0 to |lib.bookmarks|
      invariant |lib.bookmarks| == |bs|
      invariant forall j | 0 <= j < i :: lib.bookmarks[j] == WithId(bs[j], map[sourceBookId := targetBookId])
      invariant lib.bookmarks[i..] == bs[i..]
      invariant changed == CountOf(bs[..i], {sourceBookId})
    {
      assert lib.bookmarks[i] == lib.bookmarks[i..][0] == bs[i..][0] == bs[i];
      assert bs[..i + 1][..i] == bs[..i];
      if lib.bookmarks[i].bookId == sourceBookId {
        lib.bookmarks := lib.bookmarks[i := lib.bookmarks[i].(bookId := targetBookId)];
        changed := changed + 1;
      }
      assert lib.bookmarks[i + 1..] == bs[i + 1..];
    }
    assert bs[..|bs|] == bs;
  }

  /** What the migration of one source does: nothing for an empty id or an id without bookmarks;
      otherwise its first bookmark decides the target, and `target` is None if that is "" or the
      source itself. */
  ghost predicate TargetRule(env: Env, s: State, bs: seq<Bookmark>, source: string, mode: MigrationMode,
                             target: Option<string>)
    requires Coupled(s)
  {
    var first := FirstWith(bs, source);
    if first.None? || source == "" then target == None
    else exists id | TargetOk(env, s, first.value, mode, id) ::
      target == if id == "" || id == source then None else Some(id)
  }

  function Targets(source: string, target: Option<string>): map<string, string> {
    if target.None? then map[] else map[source := target.value]
  }

  lemma RuleOf(env: Env, s: State, bs: seq<Bookmark>, source: string, mode: MigrationMode, id: string)
    requires Coupled(s) && source != "" && FirstWith(bs, source).Some?
    requires TargetOk(env, s, FirstWith(bs, source).value, mode, id)
    ensures TargetRule(env, s, bs, source, mode, if id == "" || id == source then None else Some(id))
  {
  }

  method FindFirst(bs: seq<Bookmark>, sourceBookId: string) returns (first: Option<Bookmark>)
    ensures first == FirstWith(bs, sourceBookId)
  {
    first := None;
    for k := 0 to |bs|
      invariant forall j | 0 <= j < k :: bs[j].bookId != sourceBookId
    {
      if bs[k].bookId == sourceBookId {
        FirstWithAt(bs, sourceBookId, k);
        return Some(bs[k]);
      }
    }
    FirstWithAt(bs, sourceBookId, |bs|);
  }

  method MigrateBook(lib: Library, sourceBookId: string, mode: MigrationMode)
    returns (changed: nat, ghost target: Option<string>)
    requires lib.Valid()
    modifies lib`bookmarks
    ensures lib.Valid() && lib.Value() == old(lib.Value())
    ensures TargetRule(lib.env, lib.Value(), old(lib.bookmarks), sourceBookId, mode, target)
    ensures target.Some? ==> target.value in lib.books && target.value != sourceBookId
    ensures lib.bookmarks == MapIds(old(lib.bookmarks), Targets(sourceBookId, target))
    ensures changed == CountOf(old(lib.bookmarks), Targets(sourceBookId, target).Keys)
  {
    NoTarget(lib.bookmarks, sourceBookId);
    var first := FindFirst(lib.bookmarks, sourceBookId);
    if first.None? || sourceBookId == "" {
      return 0, None;
    }
    var betterBook := GetBestTargetBookId(lib, first.value, mode);
    RuleOf(lib.env, lib.Value(), lib.bookmarks, sourceBookId, mode, betterBook);
    if betterBook == "" {
      return 0, None;
    }
    OneTarget(sourceBookId, betterBook);
    changed := MigrateTo(lib, sourceBookId, betterBook);
    target := if betterBook == sourceBookId then None else Some(betterBook);
  }

  lemma NoTarget(bs: seq<Bookmark>, source: string)
    ensures MapIds(bs, Targets(source, None)) == bs && CountOf(bs, Targets(source, None).Keys) == 0
  {
    MapNothing(bs);
    CountNothing(bs);
    assert Targets(source, None).Keys == {};
  }

  lemma OneTarget(source: string, target: string)
    ensures Targets(source, Some(target)).Keys == {source}
  {
  }

  lemma {:induction false} CountNothing(bs: seq<Bookmark>)
    ensures CountOf(bs, {}) == 0
  {
    if bs != [] { CountNothing(bs[..|bs| - 1]); }
  }

  // ---- Migration of all invalid bookmarks ------------------------------------

  ghost function InvalidIds(bs: seq<Bookmark>, known: set<string>): set<string> {
    set b | b in bs && b.bookId !in known :: b.bookId
  }

  /** The ids of bookmarks without a book, and the number of such bookmarks. */
  method FindInvalid(bs: seq<Bookmark>, books: map<string, Entry>) returns (sourceBooks: set<string>, count: nat)
    ensures sourceBooks == InvalidIds(bs, books.Keys) && count == CountInvalid(bs, books.Keys)
  {
    sourceBooks, count := {}, 0;
    for i := 0 to |bs|
      invariant sourceBooks == InvalidIds(bs[..i], books.Keys) && count == CountInvalid(bs[..i], books.Keys)
    {
      assert bs[..i + 1] == bs[..i] + [bs[i]];
      assert bs[..i + 1][..i] == bs[..i];
      if bs[i].bookId !in books {
        count := count + 1;
        sourceBooks := sourceBooks + {bs[i].bookId};
      }
    }
    assert bs[..|bs|] == bs;
  }

  function TargetOf(targets: map<string, string>, id: string): Option<string> {
    if id in targets then Some(targets[id]) else None
  }

  /** `targets` decides the migration of the sources `ids`: each by its own first bookmark in `bs`,
      and none of them to an unknown book. */
  ghost predicate Decides(env: Env, s: State, bs: seq<Bookmark>, mode: MigrationMode, ids: set<string>,
                          targets: map<string, string>)
    requires Coupled(s)
  {
    && targets.Keys <= ids
    && (forall id | id in targets :: targets[id] in s.books)
    && forall id | id in ids :: TargetRule(env, s, bs, id, mode, TargetOf(targets, id))
  }

  lemma MapsOneMore(bs: seq<Bookmark>, targets: map<string, string>, id: string, target: Option<string>)
    requires Apart(targets, id)
    ensures MapIds(MapIds(bs, targets), Targets(id, target)) == MapIds(bs, targets + Targets(id, target))
    ensures CountOf(bs, (targets + Targets(id, target)).Keys)
         == CountOf(bs, targets.Keys) + CountOf(MapIds(bs, targets), Targets(id, target).Keys)
  {
    var all := targets + Targets(id, target);
    match target
    case None =>
      NoTarget(MapIds(bs, targets), id);
      assert all == targets;
    case Some(to) =>
      MapOneMore(bs, targets, id, to);
      CountUnchanged(bs, targets, id);
      CountSplits(bs, targets.Keys, id);
      OneTarget(id, to);
      assert all == targets[id := to] && all.Keys == targets.Keys + {id};
  }

  /** One more source: its first bookmark is still the one of `bs`, since no other source points
      at it or leaves it. */
  lemma DecidesOneMore(env: Env, s: State, bs: seq<Bookmark>, mode: MigrationMode, ids: set<string>,
                       targets: map<string, string>, id: string, target: Option<string>)
    requires Coupled(s) && Decides(env, s, bs, mode, ids, targets) && id !in ids && id !in s.books
    requires TargetRule(env, s, MapIds(bs, targets), id, mode, target)
    requires target.Some? ==> target.value in s.books
    requires Apart(targets, id)
    ensures Decides(env, s, bs, mode, ids + {id}, targets + Targets(id, target))
  {
    var all := targets + Targets(id, target);
    SameFirstSameRule(env, s, bs, targets, id, mode, target);
    forall x | x in ids + {id}
      ensures TargetRule(env, s, bs, x, mode, TargetOf(all, x))
    {
      TargetOfSum(targets, id, target, x);
    }
  }

  lemma SameFirstSameRule(env: Env, s: State, bs: seq<Bookmark>, targets: map<string, string>, id: string,
                          mode: MigrationMode, target: Option<string>)
    requires Coupled(s) && Apart(targets, id) && TargetRule(env, s, MapIds(bs, targets), id, mode, target)
    ensures TargetRule(env, s, bs, id, mode, target)
  {
    FirstUnchanged(bs, targets, id);
  }

  lemma TargetOfSum(targets: map<string, string>, id: string, target: Option<string>, x: string)
    requires id !in targets
    ensures TargetOf(targets + Targets(id, target), x) == if x == id then target else TargetOf(targets, x)
  {
  }

  /** The loop of the migration: the sources in `left` are still to do. */
  method MigrateSources(lib: Library, mode: MigrationMode, sourceBooks: set<string>)
    returns (changed: nat, ghost targets: map<string, string>)
    requires lib.Valid() && sourceBooks !! lib.books.Keys
    modifies lib`bookmarks
    ensures lib.Valid() && lib.Value() == old(lib.Value())
    ensures Decides(lib.env, lib.Value(), old(lib.bookmarks), mode, sourceBooks, targets)
    ensures lib.bookmarks == MapIds(old(lib.bookmarks), targets)
    ensures changed == CountOf(old(lib.bookmarks), targets.Keys)
  {
    ghost var bs, s := lib.bookmarks, lib.Value();
    var left := sourceBooks;
    changed, targets := 0, map[];
    NoTarget(bs, "");
    while left != {}
      invariant lib.Value() == s && left <= sourceBooks
      invariant Decides(lib.env, s, bs, mode, sourceBooks - left, targets)
      invariant lib.bookmarks == MapIds(bs, targets) && changed == CountOf(bs, targets.Keys)
    {
      var sourceBook :| sourceBook in left;
      ghost var done := sourceBooks - left;
      left := left - {sourceBook};
      var n;
      ghost var target;
      n, target := MigrateBook(lib, sourceBook, mode);
      assert Apart(targets, sourceBook);
      DecidesOneMore(lib.env, s, bs, mode, done, targets, sourceBook, target);
      MapsOneMore(bs, targets, sourceBook, target);
      changed := changed + n;
      targets := targets + Targets(sourceBook, target);
      assert sourceBooks - left == done + {sourceBook};
    }
    assert sourceBooks - left == sourceBooks;
  }

  /** `migrateBookmarks(mode)`: conservative, whatever the order of the sources. The outcome is the
      one `targets` determines, and each target depends on the library and the first bookmark of
      its source alone. */
  method MigrateBookmarks(lib: Library, mode: MigrationMode)
    returns (changed: nat, invalidBookmarks: nat, ghost targets: map<string, string>)
    requires lib.Valid()
    modifies lib`bookmarks
    ensures lib.Valid() && lib.Value() == old(lib.Value())
    ensures Decides(lib.env, lib.Value(), old(lib.bookmarks), mode,
                    InvalidIds(old(lib.bookmarks), lib.books.Keys), targets)
    ensures lib.bookmarks == MapIds(old(lib.bookmarks), targets)
    ensures Conserved(old(lib.bookmarks), lib.bookmarks, lib.books.Keys)
    ensures invalidBookmarks == CountInvalid(old(lib.bookmarks), lib.books.Keys)
    ensures changed == CountOf(old(lib.bookmarks), targets.Keys)
    ensures CountInvalid(lib.bookmarks, lib.books.Keys) == invalidBookmarks - changed
  {
    ghost var bs := lib.bookmarks;
    var sourceBooks;
    sourceBooks, invalidBookmarks := FindInvalid(lib.bookmarks, lib.books);
    changed, targets := MigrateSources(lib, mode, sourceBooks);
    InvalidAfter(bs, targets, lib.books.Keys);
    MapConserves(bs, targets, lib.books.Keys);
  }
}
