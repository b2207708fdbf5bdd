/** The archive cache of a library across updates of the library (src/library.cpp): is the archive
    that `getArchiveById` returns the one at the book's current path? Sequential runs; an archive
    is identified by its book id and the path it was opened from. */
module ArchiveFreshness {
  import opened Seqs
  import opened Books
  import opened LibraryState

  /** `lru` are the cached archives, `weak` the last archive made for an id, `held` the archives the
      clients still hold. */
  datatype World = World(lib: State, lru: map<string, string>, weak: map<string, string>, held: set<(string, string)>)

  /** `getArchiveById`: the cached archive, else the one a client still holds, else a new one. */
  function Served(w: World, id: string): Option<string> {
    if id in w.lru then Some(w.lru[id])
    else if id in w.weak && (id, w.weak[id]) in w.held then Some(w.weak[id])
    else if id in w.lib.books && w.lib.books[id].book.pathValid then Some(w.lib.books[id].book.path)
    else None
  }

  datatype Event =
    | AddBook(book: Book)
    | RemoveBook(id: string)
    | GetArchive(id: string)              // the client keeps the result
    | Release(id: string, path: string)
    | Evict(id: string)

  /** Does the event call `dropCache(id)`? */
  predicate Drops(w: World, e: Event, id: string) {
    match e
    case AddBook(book) => id == book.id && id in w.lib.books && !SameArchive(w.lib.books[id].book, book)
    case RemoveBook(gone) => id == gone
    case _ => false
  }

  function Next(terms: Indexer, w: World, e: Event): World {
    match e
    case AddBook(book) =>
      w.(lib := AfterAdd(terms, w.lib, book), lru := if Drops(w, e, book.id) then w.lru - {book.id} else w.lru)
    case RemoveBook(id) => w.(lib := AfterRemove(w.lib, id), lru := w.lru - {id})
    case GetArchive(id) =>
      (match Served(w, id)
       case None => w.(weak := w.weak - {id})
       case Some(p) => w.(lru := w.lru[id := p], weak := w.weak[id := p], held := w.held + {(id, p)}))
    case Release(id, path) => w.(held := w.held - {(id, path)})
    case Evict(id) => w.(lru := w.lru - {id})
  }

  function After(terms: Indexer, w: World, es: seq<Event>): World {
    if es == [] then w else Next(terms, After(terms, w, es[..|es| - 1]), es[|es| - 1])
  }

  function Start(revision: nat): World {
    World(Empty(revision), map[], map[], {})
  }

  /** `p` is the current path of book `id`, and it is valid. */
  ghost predicate Current(w: World, id: string, p: string) {
    id in w.lib.books && w.lib.books[id].book.pathValid && w.lib.books[id].book.path == p
  }

  /** Every archive in the cache or in a client's hands is the one at the book's current path. */
  ghost predicate Fresh(w: World) {
    && Coupled(w.lib)
    && (forall id | id in w.lru :: Current(w, id, w.lru[id]))
    && (forall x | x in w.held :: Current(w, x.0, x.1))
  }

  /** Every archive whose cache entry the event drops and that a client holds belongs to a
      read-only book that is being updated, and so stays at its path. */
  ghost predicate Polite(w: World, e: Event) {
    forall x | x in w.held && Drops(w, e, x.0) :: e.AddBook? && x.0 in w.lib.books && w.lib.books[x.0].book.readOnly
  }

  /** All events of the run are polite when they happen. */
  ghost predicate PoliteRun(terms: Indexer, w: World, es: seq<Event>) {
    forall i | 0 <= i < |es| :: Polite(After(terms, w, es[..i]), es[i])
  }

  /** An archive at the current path stays there, unless an event drops it and the book is not a
      read-only one that is updated. */
  lemma StillCurrent(terms: Indexer, w: World, e: Event, id: string, p: string)
    requires Coupled(w.lib) && Current(w, id, p)
    ensures Current(Next(terms, w, e), id, p)
       <==> (Drops(w, e, id) ==> e.AddBook? && w.lib.books[id].book.readOnly)
  {
  }

  /** The path at which book `id` can be opened, if there is one. */
  function Openable(w: World, id: string): Option<string> {
    if id in w.lib.books && w.lib.books[id].book.pathValid then Some(w.lib.books[id].book.path) else None
  }

  /** In a fresh world the caches make no difference: as if the archive were opened anew. */
  lemma ServedIsCurrent(w: World, id: string)
    requires Fresh(w)
    ensures Served(w, id) == Openable(w, id)
    ensures Served(w, id).Some? ==> Current(w, id, Served(w, id).value)
  {
    assert id in w.weak && (id, w.weak[id]) in w.held ==> Current(w, id, w.weak[id]);
  }

  lemma NextIsCoupled(terms: Indexer, w: World, e: Event)
    requires Coupled(w.lib)
    ensures Coupled(Next(terms, w, e).lib)
  {
    match e {
      case AddBook(book) => StepKeepsCoupling(terms, w.lib, Add(book));
      case RemoveBook(id) => StepKeepsCoupling(terms, w.lib, Remove(id));
      case GetArchive(id) => assert Next(terms, w, e).lib == w.lib;
      case _ =>
    }
  }

  /** Serving an archive keeps the world fresh. */
  lemma GetKeepsFresh(terms: Indexer, w: World, id: string)
    requires Fresh(w)
    ensures Fresh(Next(terms, w, GetArchive(id)))
  {
    if Served(w, id).Some? {
      ServedIsCurrent(w, id);
    }
  }

  lemma CacheStaysCurrent(terms: Indexer, w: World, e: Event, id: string)
    requires Fresh(w) && !e.GetArchive? && id in Next(terms, w, e).lru
    ensures Current(Next(terms, w, e), id, Next(terms, w, e).lru[id])
  {
    assert id in w.lru && !Drops(w, e, id);
    StillCurrent(terms, w, e, id, w.lru[id]);
  }

  /** An event keeps the world fresh exactly if it is polite. */
  lemma FreshIff(terms: Indexer, w: World, e: Event)
    requires Fresh(w)
    ensures Fresh(Next(terms, w, e)) <==> Polite(w, e)
  {
    var v := Next(terms, w, e);
    NextIsCoupled(terms, w, e);
    if e.GetArchive? {
      GetKeepsFresh(terms, w, e.id);
    } else {
      forall id | id in v.lru
        ensures Current(v, id, v.lru[id])
      {
        CacheStaysCurrent(terms, w, e, id);
      }
      forall x | x in w.held
        ensures Current(v, x.0, x.1) <==> (Drops(w, e, x.0) ==> e.AddBook? && w.lib.books[x.0].book.readOnly)
      {
        StillCurrent(terms, w, e, x.0, x.1);
      }
    }
  }

  lemma AfterSnoc(terms: Indexer, w: World, es: seq<Event>, i: nat)
    requires i < |es|
    ensures After(terms, w, es[..i + 1]) == Next(terms, After(terms, w, es[..i]), es[i])
  {
    assert es[..i + 1][..i] == es[..i];
  }

  lemma {:induction false} PoliteSoFar(terms: Indexer, w: World, es: seq<Event>, i: nat)
    requires Fresh(w) && i <= |es| && forall j | 0 <= j < i :: Polite(After(terms, w, es[..j]), es[j])
    ensures Fresh(After(terms, w, es[..i]))
  {
    if i > 0 {
      PoliteSoFar(terms, w, es, i - 1);
      AfterSnoc(terms, w, es, i - 1);
      FreshIff(terms, After(terms, w, es[..i - 1]), es[i - 1]);
    }
  }

  /** A run stays fresh all along exactly if all its events are polite. */
  lemma RunIsFreshIff(terms: Indexer, w: World, es: seq<Event>)
    requires Fresh(w)
    ensures (forall i | 0 <= i <= |es| :: Fresh(After(terms, w, es[..i]))) <==> PoliteRun(terms, w, es)
  {
    if forall i | 0 <= i <= |es| :: Fresh(After(terms, w, es[..i])) {
      forall i | 0 <= i < |es|
        ensures Polite(After(terms, w, es[..i]), es[i])
      {
        AfterSnoc(terms, w, es, i);
        FreshIff(terms, After(terms, w, es[..i]), es[i]);
        assert Fresh(After(terms, w, es[..i + 1]));
      }
    }
    if PoliteRun(terms, w, es) {
      forall i | 0 <= i <= |es|
        ensures Fresh(After(terms, w, es[..i]))
      {
        PoliteSoFar(terms, w, es, i);
      }
    }
  }

  /** In a polite run from a new library, an archive is served exactly for the books with a valid
      path, and it is the one at that path. */
  lemma RunServesCurrent(terms: Indexer, revision: nat, es: seq<Event>, id: string)
    requires PoliteRun(terms, Start(revision), es)
    ensures var w := After(terms, Start(revision), es);
            Fresh(w) && Served(w, id) == Openable(w, id)
  {
    RunIsFreshIff(terms, Start(revision), es);
    assert es[..|es|] == es;
    ServedIsCurrent(After(terms, Start(revision), es), id);
  }

  // ---- After an impolite event -----------------------------------------------

  /** Every live archive is the one the weak store remembers for its id. */
  ghost predicate Tracked(w: World) {
    && (forall id | id in w.lru :: id in w.weak && w.weak[id] == w.lru[id])
    && (forall x | x in w.held :: x.0 in w.weak && w.weak[x.0] == x.1)
  }

  lemma NextKeepsTracked(terms: Indexer, w: World, e: Event)
    requires Tracked(w)
    ensures Tracked(Next(terms, w, e))
  {
  }

  /** In every run, polite or not. */
  lemma {:induction false} RunIsTracked(terms: Indexer, revision: nat, es: seq<Event>)
    ensures Tracked(After(terms, Start(revision), es))
  {
    if es != [] {
      RunIsTracked(terms, revision, es[..|es| - 1]);
      NextKeepsTracked(terms, After(terms, Start(revision), es[..|es| - 1]), es[|es| - 1]);
    }
  }

  /** The drop does not reach the weak store: an impolite event leaves a held archive that is no
      longer current, and that is what everyone is served from then on. */
  lemma HeldArchiveGoesStale(terms: Indexer, w: World, e: Event) returns (x: (string, string))
    requires Fresh(w) && Tracked(w) && !Polite(w, e)
    ensures var v := Next(terms, w, e);
            x in v.held && Served(v, x.0) == Some(x.1) && !Current(v, x.0, x.1)
  {
    x :| x in w.held && Drops(w, e, x.0) && !(e.AddBook? && w.lib.books[x.0].book.readOnly);
    StillCurrent(terms, w, e, x.0, x.1);
  }

  // ---- Whoever holds an archive keeps it for everyone ----------------------------

  /** The client that is served an archive holds it. */
  lemma GetHolds(terms: Indexer, w: World, id: string)
    ensures var v := Next(terms, w, GetArchive(id));
            Served(w, id).Some? ==> (id, Served(w, id).value) in v.held && Served(v, id) == Served(w, id)
  {
  }

  lemma StillServed(terms: Indexer, w: World, e: Event, id: string, p: string)
    requires Tracked(w) && (id, p) in w.held && e != Release(id, p)
    ensures (id, p) in Next(terms, w, e).held && Served(w, id) == Some(p)
  {
  }

  /** In every run: while a client holds an archive, that is the one everybody is served, whatever
      is added, removed or evicted. */
  lemma {:induction false} HeldIsServed(terms: Indexer, w: World, es: seq<Event>, id: string, p: string)
    requires Tracked(w) && (id, p) in w.held && forall i | 0 <= i < |es| :: es[i] != Release(id, p)
    ensures var v := After(terms, w, es); Tracked(v) && (id, p) in v.held && Served(v, id) == Some(p)
  {
    if es == [] {
      StillServed(terms, w, Evict(id), id, p);
    } else {
      var init := es[..|es| - 1];
      HeldIsServed(terms, w, init, id, p);
      var v := After(terms, w, init);
      NextKeepsTracked(terms, v, es[|es| - 1]);
      StillServed(terms, v, es[|es| - 1], id, p);
      StillServed(terms, Next(terms, v, es[|es| - 1]), Evict(id), id, p);
    }
  }

  /** Between requests for it, an archive leaves the cache exactly when it is evicted, its book is
      removed, or its book is added again without both books having the same valid path. */
  lemma LeavesCacheIff(terms: Indexer, w: World, e: Event, id: string)
    requires e != GetArchive(id) && id in w.lru
    ensures var v := Next(terms, w, e);
            id in v.lru <==> e != Evict(id) && e != RemoveBook(id)
                             && (e.AddBook? && e.book.id == id && id in w.lib.books ==>
                                   var stored := w.lib.books[id].book;
                                   stored.pathValid && e.book.pathValid && stored.path == e.book.path)
    ensures id in Next(terms, w, e).lru ==> Next(terms, w, e).lru[id] == w.lru[id]
  {
  }

  /** A client lets go only by releasing. */
  lemma HoldsIff(terms: Indexer, w: World, e: Event, id: string, p: string)
    ensures (id, p) in Next(terms, w, e).held
       <==> ((id, p) in w.held && e != Release(id, p)) || (e == GetArchive(id) && Served(w, id) == Some(p))
  {
  }
}
