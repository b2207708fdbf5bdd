/** The state of `Library` (include/library.h, src/library.cpp) as a value: the books with the
    revision of their last update, the library revision, and the index documents by id term. */
module LibraryState {
  import opened Seqs
  import opened Books

  /** The terms of a book's document (`TermsOf`). */
  type Indexer = Book -> set<string>

  datatype Entry = Entry(book: Book, lastUpdatedRevision: nat)

  datatype State = State(books: map<string, Entry>, revision: nat, db: map<string, Document>)

  /** What `addBook` makes of the state. The index is updated first, and always. */
  function AfterAdd(terms: Indexer, s: State, book: Book): State {
    var rev := s.revision + 1;
    var kept := if book.id in s.books then Updated(s.books[book.id].book, book) else book;
    State(s.books[book.id := Entry(kept, rev)], rev, s.db[IdTerm(book.id) := Document(book.id, terms(book))])
  }

  function AfterRemove(s: State, id: string): State {
    State(s.books - {id}, if id in s.books then s.revision + 1 else s.revision, s.db - {IdTerm(id)})
  }

  datatype Op = Add(book: Book) | Remove(id: string)

  function Step(terms: Indexer, s: State, op: Op): State {
    match op
    case Add(book) => AfterAdd(terms, s, book)
    case Remove(id) => AfterRemove(s, id)
  }

  function Run(terms: Indexer, s: State, ops: seq<Op>): State {
    if ops == [] then s else Step(terms, Run(terms, s, ops[..|ops| - 1]), ops[|ops| - 1])
  }

  /** A new library; its revision has no initialiser. */
  function Empty(revision: nat): State {
    State(map[], revision, map[])
  }

  // ---- Index and store -------------------------------------------------------

  /** One document per book, under the term of its id; revisions never run ahead. */
  ghost predicate Coupled(s: State) {
    && (forall id | id in s.books :: s.books[id].book.id == id && s.books[id].lastUpdatedRevision <= s.revision)
    && (forall id | id in s.books :: IdTerm(id) in s.db && s.db[IdTerm(id)].data == id)
    && (forall q | q in s.db :: s.db[q].data in s.books && q == IdTerm(s.db[q].data))
  }

  lemma StepKeepsCoupling(terms: Indexer, s: State, op: Op)
    requires Coupled(s)
    ensures Coupled(Step(terms, s, op)) && Step(terms, s, op).revision >= s.revision
  {
    var t := Step(terms, s, op);
    match op
    case Add(book) =>
      forall id | id in t.books
        ensures IdTerm(id) in t.db && t.db[IdTerm(id)].data == id
      {
        IdTermInjective(id, book.id);
      }
    case Remove(gone) =>
      forall id | id in t.books
        ensures IdTerm(id) in t.db
      {
        IdTermInjective(id, gone);
      }
  }

  /** After every run from a new library the documents are exactly the books, and the revision
      never decreases. */
  lemma {:induction false} RunKeepsCoupling(terms: Indexer, s: State, ops: seq<Op>)
    requires Coupled(s)
    ensures Coupled(Run(terms, s, ops)) && Run(terms, s, ops).revision >= s.revision
  {
    if ops != [] {
      RunKeepsCoupling(terms, s, ops[..|ops| - 1]);
      StepKeepsCoupling(terms, Run(terms, s, ops[..|ops| - 1]), ops[|ops| - 1]);
    }
  }

  lemma EmptyIsCoupled(revision: nat)
    ensures Coupled(Empty(revision))
  {
  }

  /** From a new library: the documents and the books have the same ids after every run. */
  lemma RunFromEmpty(terms: Indexer, revision: nat, ops: seq<Op>, id: string)
    ensures var s := Run(terms, Empty(revision), ops);
            s.revision >= revision && (id in s.books <==> IdTerm(id) in s.db)
  {
    EmptyIsCoupled(revision);
    RunKeepsCoupling(terms, Empty(revision), ops);
    var s := Run(terms, Empty(revision), ops);
    if IdTerm(id) in s.db {
      IdTermInjective(id, s.db[IdTerm(id)].data);
    }
  }

  /** The revision counts the additions and the removals that removed something; what was added has
      the newest revision. */
  lemma StepRevision(terms: Indexer, s: State, op: Op, id: string)
    ensures var t := Step(terms, s, op);
            && t.revision == s.revision + (if op.Add? || t.books.Keys != s.books.Keys then 1 else 0)
            && (op.Add? && op.book.id == id ==> id in t.books && t.books[id].lastUpdatedRevision == t.revision)
            && (id in t.books && !(op.Add? && op.book.id == id) ==> id in s.books && t.books[id] == s.books[id])
  {
  }

  // ---- Contents --------------------------------------------------------------

  ghost predicate Writable(op: Op) {
    op.Add? ==> !op.book.readOnly
  }

  ghost predicate Concerns(op: Op, id: string) {
    match op
    case Add(book) => book.id == id
    case Remove(gone) => gone == id
  }

  /** Book `id` is stored as `book`, or not at all. */
  ghost predicate Holds(s: State, id: string, book: Option<Book>) {
    match book
    case None => id !in s.books
    case Some(b) => id in s.books && s.books[id].book == b
  }

  /** What an operation leaves under the id it concerns, unless a read-only book is there. */
  ghost function Left(op: Op): Option<Book> {
    match op
    case Add(book) => Some(book)
    case Remove(_) => None
  }

  lemma StepHolds(terms: Indexer, s: State, op: Op, id: string, book: Option<Book>)
    requires Holds(s, id, book)
    ensures !Concerns(op, id) ==> Holds(Step(terms, s, op), id, book)
    ensures Concerns(op, id) && op.Add? && book.Some? && book.value.readOnly ==> Holds(Step(terms, s, op), id, book)
    ensures Concerns(op, id) && !(op.Add? && book.Some? && book.value.readOnly) ==> Holds(Step(terms, s, op), id, Left(op))
  {
  }

  /** The last operation that concerns `id`, if there is one, decides what is stored: with only
      writable books, the book last added unless it was removed since. */
  ghost function LastLeft(ops: seq<Op>, id: string): Option<Book> {
    if ops == [] then None
    else if Concerns(ops[|ops| - 1], id) then Left(ops[|ops| - 1])
    else LastLeft(ops[..|ops| - 1], id)
  }

  lemma {:induction false} LastLeftMeans(ops: seq<Op>, id: string, n: nat)
    requires n <= |ops| && forall i | n <= i < |ops| :: !Concerns(ops[i], id)
    requires n > 0 ==> Concerns(ops[n - 1], id)
    ensures LastLeft(ops, id) == if n == 0 then None else Left(ops[n - 1])
  {
    if n < |ops| { LastLeftMeans(ops[..|ops| - 1], id, n); }
  }

  lemma {:induction false} RunHoldsLast(terms: Indexer, revision: nat, ops: seq<Op>, id: string)
    requires forall i | 0 <= i < |ops| :: Writable(ops[i])
    ensures Holds(Run(terms, Empty(revision), ops), id, LastLeft(ops, id))
    ensures LastLeft(ops, id).Some? ==> !LastLeft(ops, id).value.readOnly
  {
    if ops != [] {
      var init := ops[..|ops| - 1];
      RunHoldsLast(terms, revision, init, id);
      StepHolds(terms, Run(terms, Empty(revision), init), ops[|ops| - 1], id, LastLeft(init, id));
    }
  }

  /** After a run of writable books: under `id` is the book of the last operation that concerns
      it, the `n`th, and nothing if that removed it or there is none. */
  lemma RunHolds(terms: Indexer, revision: nat, ops: seq<Op>, id: string, n: nat)
    requires forall i | 0 <= i < |ops| :: Writable(ops[i])
    requires n <= |ops| && forall i | n <= i < |ops| :: !Concerns(ops[i], id)
    requires n > 0 ==> Concerns(ops[n - 1], id)
    ensures Holds(Run(terms, Empty(revision), ops), id, if n == 0 then None else Left(ops[n - 1]))
  {
    LastLeftMeans(ops, id, n);
    RunHoldsLast(terms, revision, ops, id);
  }

  // ---- Index and contents ----------------------------------------------------

  ghost predicate EntryInSync(terms: Indexer, s: State, id: string)
    requires id in s.books && IdTerm(id) in s.db
  {
    s.db[IdTerm(id)].terms == terms(s.books[id].book)
  }

  /** The documents carry the terms of the stored books. */
  ghost predicate InSync(terms: Indexer, s: State) {
    Coupled(s) && forall id | id in s.books :: EntryInSync(terms, s, id)
  }

  /** Adding a book leaves its document in sync exactly if no read-only book with other terms is
      in the way; the documents of all other books are as before. */
  lemma AddInSyncIff(terms: Indexer, s: State, book: Book)
    requires Coupled(s)
    ensures Coupled(AfterAdd(terms, s, book))
    ensures EntryInSync(terms, AfterAdd(terms, s, book), book.id)
       <==> (book.id in s.books && s.books[book.id].book.readOnly
             ==> terms(s.books[book.id].book) == terms(book))
    ensures forall id | id in s.books && id != book.id ::
              EntryInSync(terms, AfterAdd(terms, s, book), id) == EntryInSync(terms, s, id)
  {
    StepKeepsCoupling(terms, s, Add(book));
    forall id | id in s.books && id != book.id
      ensures EntryInSync(terms, AfterAdd(terms, s, book), id) == EntryInSync(terms, s, id)
    {
      IdTermInjective(id, book.id);
    }
  }

  ghost predicate AllWritable(s: State) {
    forall id | id in s.books :: !s.books[id].book.readOnly
  }

  lemma StepKeepsSync(terms: Indexer, s: State, op: Op)
    requires InSync(terms, s) && AllWritable(s) && Writable(op)
    ensures InSync(terms, Step(terms, s, op)) && AllWritable(Step(terms, s, op))
  {
    StepKeepsCoupling(terms, s, op);
    match op
    case Add(book) =>
      AddInSyncIff(terms, s, book);
    case Remove(gone) =>
      forall id | id in AfterRemove(s, gone).books
        ensures EntryInSync(terms, AfterRemove(s, gone), id)
      {
        IdTermInjective(id, gone);
        assert EntryInSync(terms, s, id);
      }
  }

  /** Without read-only books the index never diverges from the contents. */
  lemma {:induction false} RunKeepsSync(terms: Indexer, s: State, ops: seq<Op>)
    requires InSync(terms, s) && AllWritable(s) && forall i | 0 <= i < |ops| :: Writable(ops[i])
    ensures InSync(terms, Run(terms, s, ops)) && AllWritable(Run(terms, s, ops))
  {
    if ops != [] {
      RunKeepsSync(terms, s, ops[..|ops| - 1]);
      StepKeepsSync(terms, Run(terms, s, ops[..|ops| - 1]), ops[|ops| - 1]);
    }
  }
}
