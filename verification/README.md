# libkiwix in Dafny

This project models the logic of libkiwix (the C++ library behind Kiwix readers and kiwix-serve) and
proves properties of the model. `dafny verify dfyconfig.toml` checks all of it. It covers:

* **Caches** (`src/tools/lrucache.h`, `src/tools/concurrent_cache.h`, `src/library.cpp`). `LruCache.Lru` is
  the doubly linked list plus map of iterators, changed in place, proved to refine the recency list of
  `Recency`; `RecencyRuns` is about the order of its keys in whole runs, `RecencyValues` about their values and how long they
  survive. `MultiKeyCache` drops all keys that contain an element. `CacheProtocol` is a step system for any
  number of threads that call `getArchiveById` and `getSearcherByIds`: the searcher cache's factory calls
  the archive cache. Every section under a lock, every factory, every promise operation is one step, and
  evictions, drops and resizes happen in between. `CacheLiveness` proves absence of deadlock and bounded runs,
  `CacheSafety` what factories that fail do, how often they run, and what callers get, `CacheOnce` exactly when a factory runs
  at most once between two removals, `CacheRecency` that both caches are the LRU caches of what was asked of them. `WeakReuse` is
  the weak store in sequential runs, and `CacheSolo` shows that the protocol, used by one client at a time, is exactly that;
  `ArchiveFreshness` puts the archive cache and library updates together.
* **Library** (`src/library.cpp`, `src/manager.cpp`). `LibraryState` is the value of a library (books with revisions,
  index documents) with its runs; `Library.Library` is the object; `Reload` the manager's reload; `Index`, `Filters`,
  `Queries` and `Filtering` build index documents and queries and filter, and `BookTerms` says what that means for the fields of
  a book; `BestBook`, `BookmarkIds` and `Migration` choose target books and migrate bookmarks.
* **Paths** (`src/tools/pathTools.cpp`, POSIX branch) against walks over directories, and the **directory crawl**
  (`Crawl`).
* **Codecs and HTTP values**: `Base64`, `Url`, `SearchUrl`, `SearchFilter` (the server's side of a search URL), `ByteRange`,
  `ItemResponse`, `ETag`, and the string helpers in `Text` and `Numbers`. `Seqs` holds vocabulary.

Methods follow the loops and in-place updates of the source and are proved against functions on values; the
results about runs and round trips are lemmas about those functions.

Where the code does not do what its comments or the standards it follows suggest, the model follows the code,
and the exact condition is proved:

* "`f` runs at most once between two removals of a key" is false: a factory may start after its placeholder was
  dropped (`CacheSafety.TwoRunsBetweenRemovals`). In every reachable state it holds of all continuations exactly if the calls
  for the key between lookup and factory, plus one if the key is not stored, are at most one; right after a removal, exactly
  if there is no such call (`CacheOnce.AtMostOnceIff`, `CacheOnce.AfterRemoval`).
* Only `std::exception` is caught from a factory; anything else leaves a broken placeholder in the cache, on which later
  calls fail (`CacheSafety.EscapePoisons`, `CacheSafety.PoisonedKeyFails`), and only that does (`CacheSafety.NeverPoisoned`).
* `drop` does not clear the weak store (`WeakReuse.FactoryRunsIffUnreferenced`). The archives in use stay at their books'
  current paths exactly if every update that drops an archive some client holds is an update of a read-only book; any other
  such update leaves everyone with the old archive (`ArchiveFreshness.FreshIff`, `ArchiveFreshness.HeldArchiveGoesStale`).
* The comments on the migration modes promise that no older book than a valid current one is chosen. The code compares with the
  bookmark's own date, or not at all, and prefers the bookmark's flavour: the promise holds exactly if the current book has that
  flavour, no qualifying book has it, or some book of that flavour is not older (`BestBook.NotOlderIff`,
  `Migration.TargetNotOlderIff`, with `BestBook.OlderIsChosen` as the counterexample). A comment in the function asks for a newer
  book where the code takes one of the same date.
* Updating a read-only book changes its document but not the book (`LibraryState.AddInSyncIff`).
* Relative-mode normalisation loses a level at an empty part met at the origin
  (`Paths.RelativeFaithfulIff`, `Paths.AbsolutePathIff`, `Paths.EmptyPartLosesALevel`).
* LRU inclusion survives a plain `get` exactly if both caches hit, both miss, or the smaller one is empty
  (`RecencyRuns.InclusionIff`, `RecencyRuns.GetBreaksInclusion`).
* A suffix length beyond int64 is refused although RFC 7233 serves everything (`ByteRange.MeetsRfc`). A range with its
  last position before its first gets 416; RFC 7233 lets a recipient ignore it.
* The comment that a failed extraction leaves the end of a range alone is true only at the end of the text: a lone sign stores
  zero, so "0--" is read as "0-0" (`ByteRange.LoneSignIsZero`; `ByteRange.ParsesIff` has all texts that are accepted).
* The reader keeps the start of a range in an `int` (`ItemResponse.ReaderIsExactIff`).
* A stray percent sign makes `urlDecode` copy the next two characters, even if an escape begins there; the result is right
  exactly if no escape is swallowed so (`Url.DecodesAllIff`, `Url.StraySignSwallows`).
* The weak prefix of an entity tag is never stripped (`ETag.WeakIsIgnored`), and the texts "", "W" and "W/" make `parse` throw
  or read an empty string; `match` fails exactly if a word that strips to one of them comes before the first match
  (`ETag.MatchFailsIff`).

The revision counter has no initialiser, so runs start from any value, and it is assumed not to wrap.

## Model

| member | source | states |
|---|---|---|
| `LruCache.Lru.constructor` | src/tools/lrucache.h:85-87 | an empty cache of the given capacity |
| `LruCache.Lru.Exists` | src/tools/lrucache.h:134-136 | true exactly for the keys in the recency list: the map indexes exactly the list nodes |
| `LruCache.Lru.Size` | src/tools/lrucache.h:138-140 | the map has as many keys as the list has entries |
| `LruCache.Lru.Get` | src/tools/lrucache.h:113-121 | a hit moves the entry to the front and returns its value, a miss changes nothing |
| `LruCache.Lru.Put` | src/tools/lrucache.h:103-111 | refines the abstract put: the key is first with the new value, and only least recent entries beyond the capacity are gone |
| `LruCache.Lru.GetOrPut` | src/tools/lrucache.h:92-101 | a hit returns the stored value, moves the entry to the front and changes no stored value; a miss inserts the given one in front |
| `LruCache.Lru.Drop` | src/tools/lrucache.h:123-132 | removes exactly the entry of the key and reports whether there was one |
| `LruCache.Lru.SetMaxSize` | src/tools/lrucache.h:142-146 | returns the previous capacity and evicts nothing |
| `LruCache.Lru.AddMissing` | src/tools/lrucache.h:157-165 | the new entry is first and the list is cut to the capacity from the back |
| `LruCache.Lru.EvictBeyond` | src/tools/lrucache.h:161-164 | the eviction loop keeps exactly the first entries that fit |
| `LinkedList.List.Unlink` | src/tools/lrucache.h:126 | erasing a node of the linked list removes exactly it and leaves every other node in place and order |
| `LinkedList.List.Splice` | src/tools/lrucache.h:95 | the node itself moves to the front, so iterators stay good |
| `Recency.RunKeepsUnique` | src/tools/lrucache.h:92-165 | in every run keys stay unique and an insertion leaves at most capacity entries |
| `RecencyRuns.Inclusion` | src/tools/lrucache.h:92-132 | the same puts and drops on two caches: the smaller one's key list stays a prefix of the larger one's |
| `RecencyRuns.GetKeepsPrefixIff` | src/tools/lrucache.h:113-121 | a plain get keeps the prefix relation exactly if both caches hit, both miss, or the smaller one is empty |
| `RecencyRuns.InclusionIff` | src/tools/lrucache.h:92-132 | in runs with plain gets the prefix relation holds all along exactly if every get meets that condition |
| `RecencyRuns.GetBreaksInclusion` | src/tools/lrucache.h:113-121 | a run with a plain get for which the prefix relation fails |
| `RecencyRuns.KeepsMostRecent` | src/tools/lrucache.h:92-111 | a run of puts at fixed capacity holds exactly the most recently touched distinct keys, in order |
| `RecencyValues.StepValue` | src/tools/lrucache.h:92-132 | the value under a key changes only by a put of that key or the getOrPut that inserts it |
| `RecencyValues.ReadKeepsValues` | src/tools/lrucache.h:92-101 | a getOrPut that hits, and every get, leaves the value under every key as it was |
| `RecencyValues.RunValue` | src/tools/lrucache.h:92-132 | in every run a key has a value exactly if that was written last for it, by a put or an inserting getOrPut, since its last removal |
| `RecencyValues.Survives` | src/tools/lrucache.h:92-165 | the most recent key survives every run that does not drop it and touches fewer other keys than there is room for |
| `MultiKeyCache.Cache.Drop` | src/library.cpp:73-83 | afterwards no cached key contains the element, all other entries keep their order, and the result tells whether one was removed |
| `CacheProtocol.CallStepOk` | src/tools/concurrent_cache.h:163-186 | every step of a getOrPut call keeps the invariant of the shared state and of the call; what the steps compute is in `CacheRecency` and `CacheSolo` |
| `CacheProtocol.DoKeepsInv` | src/tools/concurrent_cache.h:163-197 | every move (thread step, new call, drop, drop of key sets, resize) keeps the protocol invariant |
| `CacheProtocol.PlayKeepsInv` | src/library.cpp:391-426 | the invariant holds after every interleaving of the stacked caches |
| `CacheRecency.DoIsOps` | src/tools/concurrent_cache.h:163-197 | every move changes each of the two caches exactly by its LRU operations: a getOrPut of a new placeholder at a lookup, a drop after a failure, the drops and resizes asked for |
| `CacheRecency.CachesAreLru` | src/library.cpp:391-426 | after every interleaving each cache is the LRU cache of its recorded operations |
| `CacheRecency.LookupBringsFront` | src/tools/concurrent_cache.h:165-168 | after a lookup the key is the most recent one, the others keep their order, and a hit changes no placeholder |
| `CacheRecency.StoredUntilPushedOut` | src/tools/concurrent_cache.h:163-197 | a key looked up last stays stored in every run that neither drops it nor touches as many other keys as there is room for |
| `CacheSolo.SoloCall` | src/tools/concurrent_cache.h:163-186 | a getArchiveById call without interference ends as the sequential getOrPut: the cached value, else the one still alive, else a new one that is then remembered, else an error; same reply, cache, weak store and number of factory runs |
| `CacheSolo.SequentialUse` | src/tools/concurrent_cache.h:163-197 | any list of calls, drops, resizes and releases, one after the other, has the replies and the outcome of the sequential cache |
| `CacheSolo.SequentialFromStart` | src/tools/concurrent_cache.h:163-197 | the same from a new cache |
| `CacheLiveness.WaitsForLowerRank` | src/tools/concurrent_cache.h:162-186 | a blocked thread waits for a placeholder that a live call of another thread with strictly lower rank owns |
| `CacheLiveness.DeadlockFree` | src/library.cpp:391-426 | while a call is unfinished, some thread can move |
| `CacheLiveness.RunsAreBounded` | src/tools/concurrent_cache.h:163-186 | no schedule of the threads is longer than the weight of the unfinished calls |
| `CacheLiveness.StuckMeansFinished` | src/tools/concurrent_cache.h:163-186 | a schedule that cannot be continued has finished every call |
| `CacheLiveness.AllCallsCanFinish` | src/tools/concurrent_cache.h:163-186 | from every reachable state some bounded schedule finishes every call |
| `CacheSafety.NeverPoisoned` | src/tools/concurrent_cache.h:169-183 | in every run a stored placeholder is broken only if its factory threw something other than std::exception, and a pending one has exactly one live producer |
| `CacheSafety.StandardExceptionsNeverPoison` | src/tools/concurrent_cache.h:174-181 | while factories throw only std::exception no stored placeholder is ever broken |
| `CacheSafety.EscapePoisons` | src/tools/concurrent_cache.h:178-181 | when the factory of a stored placeholder, archive or searcher, throws anything else, the placeholder stays stored and is broken |
| `CacheSafety.NestedThrow` | src/library.cpp:407-426 | when the archive call below a searcher factory unwinds, the searcher's call forgets its key after a std::exception and unwinds with it still stored after anything else |
| `CacheSafety.NestedEscapePoisons` | src/library.cpp:407-426 | an archive factory that throws anything else below a searcher factory leaves both keys stored with broken placeholders |
| `CacheSafety.PoisonedKeyFails` | src/tools/concurrent_cache.h:167-185 | a call for a key with a broken placeholder fails without running the factory and leaves the placeholder there |
| `CacheSafety.RunsPerKey` | src/tools/concurrent_cache.h:163-192 | the factory runs at most once per insertion of the key, and insertions are removals plus the entry stored now |
| `CacheOnce.RunsAtMost` | src/tools/concurrent_cache.h:163-192 | without a removal of the key its factory runs at most as often again as there are calls between lookup and factory, plus one if the key is not stored |
| `CacheOnce.AtMostOnceIff` | src/tools/concurrent_cache.h:163-192 | in every state of the protocol: the factory runs at most once more before the next removal, in all continuations, exactly if that number is at most one |
| `CacheOnce.AfterRemoval` | src/tools/concurrent_cache.h:163-192 | right after a removal the key is not stored, and its factory runs at most once before the next one exactly if no call for it is between lookup and factory |
| `CacheSafety.TwoRunsBetweenRemovals` | src/tools/concurrent_cache.h:163-192 | a run in which the factory runs twice for a key without a removal in between |
| `CacheSafety.FinishedCalls` | src/library.cpp:391-426 | a finished call has a value made for exactly its key (one archive for each id), or a factory for that key threw |
| `WeakReuse.HeldValueIsReused` | src/tools/concurrent_cache.h:105-186 | while a client holds the value for a key, getOrPut returns it and runs no factory, whatever was evicted, dropped or resized |
| `WeakReuse.FactoryRunsIffUnreferenced` | src/tools/concurrent_cache.h:113-126 | for a key that is not cached, the call is served without the factory exactly if a client still holds a value; the reply otherwise is in `MakesWhenUnreferenced` |
| `WeakReuse.AccessSize` | src/tools/concurrent_cache.h:163-186 | an access to a new key leaves at most capacity entries, and after a failure the survivors in order |
| `WeakReuse.MakesWhenUnreferenced` | src/tools/concurrent_cache.h:163-186 | for a key neither cached nor held the factory runs; its value is returned, remembered, held and cached in front, and a throw is passed on and leaves nothing of the key behind |
| `WeakReuse.ServedAgain` | src/tools/concurrent_cache.h:163-186 | after a call that returned a value, later calls for the key return the same one without the factory, even if every client released it, while it is neither dropped nor pushed out |
| `WeakReuse.HoldsIff` | src/tools/concurrent_cache.h:185 | a client holds exactly what it was served and has not released |
| `ArchiveFreshness.FreshIff` | src/library.cpp:111-140 | an event keeps every cached and held archive at its book's current path exactly if any held archive it drops belongs to a read-only book being updated |
| `ArchiveFreshness.RunIsFreshIff` | src/library.cpp:111-140 | a run stays so all along exactly if all its events are of that kind |
| `ArchiveFreshness.RunIsTracked` | src/tools/concurrent_cache.h:172-177 | in every run all live archives of a book are the one the weak store remembers |
| `ArchiveFreshness.RunServesCurrent` | src/library.cpp:391-405 | in such runs getArchiveById serves an archive exactly for the books with a valid path, and it is the one at that path |
| `ArchiveFreshness.HeldArchiveGoesStale` | src/library.cpp:314-325 | after any other event some held archive is no longer current and is what everyone is served, although the cache entry was dropped |
| `ArchiveFreshness.HeldIsServed` | src/tools/concurrent_cache.h:113-126 | in every run, while a client holds an archive, everybody is served that one, whatever is added, removed or evicted |
| `ArchiveFreshness.LeavesCacheIff` | src/library.cpp:111-122 | an archive leaves the cache exactly when it is evicted, its book is removed, or its book is added again without both having the same valid path |
| `LibraryState.StepKeepsCoupling` | src/library.cpp:111-140 | adding or removing a book keeps one document per book under its id term, no entry ahead of the revision, and the revision from decreasing |
| `LibraryState.RunKeepsCoupling` | src/library.cpp:320-336 | the same after every run |
| `LibraryState.RunFromEmpty` | src/library.cpp:101-140 | from a new library the ids of the documents and of the books agree after every run, and the revision is at least the initial one |
| `LibraryState.RunHolds` | src/library.cpp:111-140 | after a run of writable books an id has the book last added for it, and none if it was removed since or never added |
| `LibraryState.StepRevision` | src/library.cpp:111-140 | the revision rises by one with every addition and every removal that removes something, and marks what was added; other entries are untouched |
| `LibraryState.AddInSyncIff` | src/library.cpp:116-124 | adding a book leaves its document in sync exactly if no read-only book with other terms is in the way; other entries are unaffected |
| `LibraryState.RunKeepsSync` | src/library.cpp:111-140 | without read-only books the documents carry the terms of the stored books after every run |
| `Library.Library.constructor` | src/library.cpp:101-106 | an empty library at an arbitrary revision |
| `Library.Library.UpdateBookDB` | src/library.cpp:561-614 | exactly the document of the book's id is replaced, by one with its terms; `BookTerms.TermMeans` says which these are |
| `Library.Library.AddBook` | src/library.cpp:111-140 | the index is updated always, the entry only if the old one is not read-only, its revision always; true exactly for a new id |
| `Library.Library.RemoveBookById` | src/library.cpp:320-336 | book and document are gone, and the revision rises only if there was a book |
| `Library.Library.RemoveBooksNotUpdatedSince` | src/library.cpp:344-362 | exactly the entries not updated since the revision are gone, with their documents, and the result is their number |
| `Library.Library.AddBookmark` | src/library.cpp:142-146 | the bookmark is appended |
| `Library.Library.RemoveBookmark` | src/library.cpp:148-158 | removes exactly the first bookmark with this id and url |
| `Reload.Manager.ParseXmlDom` | src/manager.cpp:102-124 | the books of a document are added in order with the given read-only flag |
| `Reload.Manager.ReadFile` | src/manager.cpp:189-217 | false exactly for a file that does not parse, which changes no book; sets the writable path unless read-only |
| `Reload.Manager.Reload` | src/manager.cpp:355-370 | on success the ids are exactly those in the files, with the last occurrence read unless a read-only entry was there; on failure the files before the bad one have been read and nothing is removed |
| `Reload.ReadsAll` | src/manager.cpp:110-121 | reading a list of books: ids of both, fresh revisions, last occurrence wins, read-only entries keep their contents |
| `Reload.ReloadIsExact` | src/library.cpp:344-362 | after reading, dropping what was not updated leaves exactly the ids read |
| `Filters.Filter.Local` | src/library.cpp:902-912 | whatever was chosen before, accepts what the other settings accept if it has a path, or none, as asked |
| `Filters.Filter.Remote` | src/library.cpp:914-924 | the same for books with a url |
| `Filters.Filter.ValidPath` | src/library.cpp:926-936 | the same for books with a valid path |
| `Filters.Filter.MaxSize` | src/library.cpp:980-985 | whatever bound there was, accepts what the other settings accept up to this size |
| `Filters.AcceptsSomeIff` | src/library.cpp:1059-1077 | some plausible book is accepted exactly if no opposite pair of flags is set, nor valid paths asked of books without one |
| `Filters.Filter.Name` | src/library.cpp:995-1000 | sets the name and its flag and nothing else |
| `Filters.Filter.Query` | src/library.cpp:987-993 | sets the query, the partial flag and the query flag and nothing else |
| `Filters.Filter.Category` | src/library.cpp:952-957 | sets the category and its flag and nothing else |
| `Filters.Filter.Lang` | src/library.cpp:959-964 | sets the language list and its flag and nothing else |
| `Filters.Filter.AcceptTags` | src/library.cpp:938-943 | sets the accepted tags and their flag and nothing else |
| `Filters.Filter.RejectTags` | src/library.cpp:945-950 | sets the rejected tags and their flag and nothing else |
| `Queries.MultipleParamQuery` | src/library.cpp:664-678 | matches a document exactly if it has one of the listed elements; an empty list matches nothing |
| `Queries.TagsQuery` | src/library.cpp:710-723 | matches exactly the documents with all accepted tags and no rejected one |
| `Queries.BuildXapianQuery` | src/library.cpp:725-751 | matches exactly the documents the filter asks for, and selects everything exactly if the filter asks nothing of the index |
| `Filtering.DocumentCount` | src/library.cpp:766 | there are as many documents as books, so the result limit loses no match |
| `Filtering.FilterViaBookDB` | src/library.cpp:755-773 | exactly the books whose documents match, each once, on the shortcut and on the index path alike |
| `Filtering.FilterBooks` | src/library.cpp:775-786 | never misses in the book map; exactly the matching and accepted books, each once |
| `Filtering.FilterAfterRun` | src/library.cpp:775-786 | after any run without read-only books filtering is about the terms of the stored books alone |
| `BookTerms.TermMeans` | src/library.cpp:561-614 | a document has a prefixed term exactly if the book's field of that prefix has the word; names, tags and ids count as a whole |
| `BookTerms.WantedMeans` | src/library.cpp:725-751 | the query of a filter matches a book's document exactly if the book has the normalised name, a word for flavour, category and language, every accepted tag and no rejected one, and the text matches |
| `Filtering.FilterSelects` | src/library.cpp:775-786 | after any run without read-only books a filter selects exactly the stored books that fit it in these fields and are accepted |
| `Filtering.FilterByName` | src/library.cpp:654-657 | a filter by name selects exactly the ids whose book has the same normalised name |
| `Filtering.FilterByTags` | src/library.cpp:710-723 | a filter by tags selects exactly the books with every accepted and no rejected tag among those between their semicolons |
| `BestBook.SortByDate` | src/library.cpp:861-863 | some permutation (the same multiset) with descending dates: all that the unstable sort promises |
| `BestBook.OfFlavourDescends` | src/library.cpp:205-212 | the stable partition by flavour keeps each class in date order |
| `BestBook.GetBestFromBookCollection` | src/library.cpp:179-226 | for every order of equal dates: "" exactly if no book qualifies, otherwise one of the preferred flavour if any such qualifies, and no book of its class has a later date, in the order of `Text.Precedes` |
| `BestBook.NotOlderThanIff` | include/library.h:58-72 | the chosen book is not older than a date exactly if some book of the class it is taken from is not |
| `BestBook.NotOlderIff` | include/library.h:58-72 | it is not older than a given book of the collection exactly if that has the bookmark's flavour, no qualifying book has it, or some book of that flavour is not older |
| `BestBook.OlderIsChosen` | include/library.h:58-72 | in both modes an older book than the valid current one can be chosen: a collection where it is the only choice |
| `Migration.GetBestTargetBookId` | src/library.cpp:249-273 | a best book among those the name or title selects, failing that the bookmark's own book if the library has it, and "" without name and title |
| `Migration.GetBestTargetFor` | src/library.cpp:233-247 | the same for a name, flavour and date; without a date older books are allowed |
| `Migration.TargetAfterRun` | src/library.cpp:249-273 | after any run without read-only books the target is a best one among all books of the bookmark's normalised name, or that its title finds; failing that the bookmark's own book; and "" for a bookmark with neither |
| `Migration.TargetNotOlderIff` | include/library.h:58-72 | the exact condition under which the target is not older than the bookmark's own book |
| `Migration.MigrateTo` | src/library.cpp:299-311 | exactly the bookmarks of the source point at the target, and the result is their number |
| `Migration.MigrateBook` | src/library.cpp:275-297 | the first bookmark of the source decides; nothing happens for an empty id, no bookmark, no target or the source itself |
| `Migration.MigrateBookmarks` | src/library.cpp:160-177 | conservative: order, number and other fields kept, valid bookmarks untouched, changed ones end on books; returns the number changed and the number invalid before; invalid after is their difference |
| `BookmarkIds.InvalidAfter` | src/library.cpp:160-177 | moving ids of unknown books to known ones makes exactly the moved bookmarks valid |
| `BookmarkIds.AnyOrder` | src/library.cpp:172-175 | the sources can be migrated in any order with the same outcome |
| `BookmarkIds.FirstWithMeans` | src/library.cpp:278-284 | the bookmark that decides is the first one with the id |
| `BookmarkIds.CountsAre` | src/library.cpp:160-177 | the counts are the numbers of places in the list |
| `Crawl.IterateDirectory` | src/manager.cpp:280-306 | one directory: pushes the subdirectories not visited yet and offers exactly its book files |
| `Crawl.AddBooksFromDirectory` | src/manager.cpp:262-312 | ends on every finite graph, cyclic ones included; visits exactly the reachable directories and offers exactly the .zim and .zimaa files in them |
| `Crawl.BookFiles` | src/manager.cpp:288-296 | book files are those with the extension .zim or .zimaa in any mixture of cases |
| `Crawl.RevisitAdvances` | src/manager.cpp:272-308 | a second visit moves the first unvisited queue entry forward or pushes nothing: the second half of the termination measure |
| `Paths.NormalizeParts` | src/tools/pathTools.cpp:98-176 | the loop computes the normalisation the lemmas below are about |
| `Paths.AbsoluteIsResolution` | src/tools/pathTools.cpp:137-175 | absolute mode equals resolution on a directory stack with `..` stopping at the root |
| `Paths.AbsoluteIdempotent` | src/tools/pathTools.cpp:137-175 | absolute mode is idempotent |
| `Paths.RelativeFaithfulIff` | src/tools/pathTools.cpp:145-163 | relative mode leads every directory where the path leads it, exactly if no inner empty part comes at the origin or the whole path leads nowhere |
| `Paths.EmptyPartLosesALevel` | src/tools/pathTools.cpp:157-163 | "a/..//../b" normalises to "b" and so loses a level |
| `Paths.ComputeRelativePath` | src/tools/pathTools.cpp:178-201 | common prefix, steps up, steps down, normalised and joined |
| `Paths.ComputeAbsolutePath` | src/tools/pathTools.cpp:203-218 | base and relative parts normalised together; an empty base is the current directory |
| `Paths.RelativePathLeads` | src/tools/pathTools.cpp:178-201 | the relative path leads from the base to the target, even if the base climbs past the root |
| `Paths.RelativePathIsShortest` | src/tools/pathTools.cpp:178-201 | for a base that does not climb past the root: up to the deepest common directory, and down from there |
| `Paths.RoundTrip` | src/tools/pathTools.cpp:178-218 | resolving the relative path against its base gives the normalised target, for every base and target that start with a slash |
| `Paths.AbsolutePathResolves` | src/tools/pathTools.cpp:203-218 | the absolute path names the directory reached by following the relative path from the base, unless relative mode goes astray |
| `Paths.AbsolutePathIff` | src/tools/pathTools.cpp:203-218 | it does so for every absolute base exactly if the relative path does not both hold an inner empty part at the origin and climb above its start |
| `Paths.EmptyBaseIsCwd` | src/tools/pathTools.cpp:205-208 | with an empty base the path is resolved against the current directory |
| `Text.SplitString` | src/tools/stringTools.cpp:315-340 | the loop computes the tokens the lemmas below are about, with both flags |
| `Text.JoinStrings` | src/tools/stringTools.cpp:342-354 | the loop puts the separator between neighbours only |
| `Text.SplitInvertsJoin` | src/tools/stringTools.cpp:315-354 | split gives back every non-empty list of separator-free strings |
| `Text.JoinInvertsSplit` | src/tools/stringTools.cpp:315-354 | join gives back every string, and the tokens are separator-free |
| `Text.DropEmptyIsFilter` | src/tools/stringTools.cpp:324-326 | dropping empty tokens is splitting and then removing the empty ones |
| `Text.KeepDelimKeepsAll` | src/tools/stringTools.cpp:315-340 | with the delimiters kept the tokens concatenate to the text, whether empty ones are dropped or not |
| `Text.LessIsPrecedes` | src/library.cpp:808-814 | one text is less than another exactly if they agree up to a place where the first ends or has the smaller character |
| `Numbers.LessIsNumeric` | src/library.cpp:219 | equally long digit texts are ordered as their numbers |
| `Numbers.LessIsEarlier` | src/library.cpp:219 | dates of the form YYYY-MM-DD are ordered as the days they name |
| `Text.AtMostIsTotalOrder` | src/library.cpp:219 | the string comparison used on dates is a total order |
| `Base64.TableIsAlphabet` | src/tools/base64.cpp:30-33 | the character table is that of section 4 of RFC 4648 |
| `Base64.LookupsInvert` | src/tools/base64.cpp:36-38 | lookup and table are inverse on the alphabet, 255 outside it, and `=` is outside |
| `Base64.EncoderCut` | src/tools/base64.cpp:52-55 | the shifts and masks cut the 24-bit group into its four sextets |
| `Base64.DecoderJoins` | src/tools/base64.cpp:99-101 | the decoder's shifts put the three bytes together again |
| `Base64.Base64Encode` | src/tools/base64.cpp:40-83 | the buffer loops produce the RFC 4648 encoding, both padded forms included |
| `Base64.EncodedLength` | src/tools/base64.cpp:40-83 | the encoding has 4 * ceil(n / 3) characters |
| `Base64.Base64Decode` | src/tools/base64.cpp:85-124 | the buffer loops decode the characters before the first `=` or foreign one, a tail of n giving n - 1 bytes |
| `Base64.TailIgnoresFill` | src/tools/base64.cpp:109-120 | the looked-up zero byte (255) never reaches the output |
| `Base64.RoundTrip` | src/tools/base64.cpp:40-124 | decoding inverts encoding for every byte string |
| `Base64.EncodedShape` | src/tools/base64.cpp:63-80 | an encoding is characters of the alphabet followed by as many `=` as its last group lacks |
| `Base64.ForeignEnds` | src/tools/base64.cpp:93 | nothing from the first character outside the alphabet on is decoded |
| `Url.UrlEncode` | src/tools/stringTools.cpp:261-274 | the loop escapes exactly the characters that are not harmless, with upper-case hexadecimal digits |
| `Url.UrlDecode` | src/tools/stringTools.cpp:276-312 | the loop replaces well-formed escapes; malformed ones, the last two characters and (outside components) escaped reserved characters are copied |
| `Url.RoundTrip` | src/tools/stringTools.cpp:261-312 | component decoding inverts encoding for all byte strings; plain decoding exactly for those without reserved characters |
| `Url.NoEscapeIsKept` | src/tools/stringTools.cpp:276-312 | text without well-formed escapes is copied unchanged, stray percent signs included |
| `Url.DecodesAllIff` | src/tools/stringTools.cpp:276-312 | decoding equals the reference, which replaces each escape from left to right and copies the rest, exactly if the scan swallows no escape behind a stray percent sign; in both modes |
| `Url.StraySignSwallows` | src/tools/stringTools.cpp:290-299 | a text on which the two differ |
| `Url.EncodedChars` | src/tools/stringTools.cpp:212-235 | an encoding holds only harmless characters and `%` |
| `Url.HexDigits` | src/tools/stringTools.cpp:237-259 | the sixteen digits of both cases have their values and nothing else has; the encoder writes upper case |
| `Url.CharLists` | src/tools/stringTools.cpp:193-235 | the reserved and the harmless characters are those listed |
| `SearchUrl.BuildSearchString` | src/opds_catalog.cpp:34-60 | the active fields among query, category, language, name and accepted tags, joined by `&`; empty exactly if there is none |
| `SearchUrl.GetSearchUrl` | src/opds_catalog.cpp:64-72 | the URL has the endpoint as its path, and cut at `?`, `&` and the first `=` and decoded it gives exactly those fields |
| `SearchUrl.TagsComeBack` | src/opds_catalog.cpp:57-58 | the tag field split at `;` gives the accepted tags exactly if none is empty or holds a `;` |
| `SearchFilter.GetSearchFilter` | src/server/internalServer.cpp:190-218 | the calls on a new filter make the settings the lemmas below are about |
| `SearchFilter.ServerAccepts` | src/server/internalServer.cpp:190-218 | that filter accepts the books that can be opened, or all in a catalog, up to the size given as a number |
| `SearchFilter.ServerWantsTags` | src/server/internalServer.cpp:211-216 | it asks for every tag of one argument and none of the other, cut at semicolons |
| `SearchFilter.FilterArrives` | src/opds_catalog.cpp:34-60 | the filter that a catalog server reads from a search URL has exactly the query, name, category and language of the original, with joined and split tags |
| `SearchFilter.SearchUrlKeepsMeaning` | src/opds_catalog.cpp:34-72 | a filter with nothing a search URL has no place for wants the same documents and accepts the same books on the other side |
| `ByteRange.ReadNumber` | src/server/byte_range.cpp:34-44 | extracting a digit string stores its value, or the largest int64 with failure, and stops behind it |
| `ByteRange.ReadNegative` | src/server/byte_range.cpp:36-39 | extracting a negative number stores its value, or the smallest int64 with failure |
| `ByteRange.ParseByteRange` | src/server/byte_range.cpp:32-52 | branches on the extracted integers and satisfies the constructor assertions |
| `ByteRange.Parse` | src/server/byte_range.cpp:98-105 | anything not starting with `bytes=` is invalid |
| `ByteRange.Range.Length` | src/server/byte_range.cpp:92-96 | no overflow, and the number of positions |
| `ByteRange.Resolve` | src/server/byte_range.cpp:107-125 | stays in int64 and yields a resolved range inside the content |
| `ByteRange.ParsedSpec` | src/server/byte_range.cpp:32-52 | what the parser makes of each range form with numbers of any length |
| `ByteRange.ParsesIff` | src/server/byte_range.cpp:32-52 | of all texts, those accepted are negative numbers in int64, and a number, a hyphen and nothing or another number that is not smaller, with the signs the stream allows |
| `ByteRange.LoneSignIsZero` | src/server/byte_range.cpp:43-45 | a text outside the standard that is accepted |
| `ByteRange.MeetsRfc` | src/server/byte_range.cpp:32-125 | parsing and resolving yields exactly the positions of section 2.1 of RFC 7233, or unsatisfiable if there are none, unless a suffix length exceeds int64 |
| `ItemResponse.RunningResponse.constructor` | src/server/response.cpp:548-557 | the start of the range is cut to an int |
| `ItemResponse.RunningResponse.Read` | src/server/response.cpp:559-577 | fills the buffer with the item's bytes at the position, with the unsigned arithmetic of the source |
| `ItemResponse.ChunksAreSlice` | src/server/response.cpp:559-577 | for any buffer sizes the chunks concatenate to the slice |
| `ItemResponse.ReaderIsExactIff` | src/server/response.cpp:548-577 | the reader serves a range correctly for every item and chunking exactly if it starts below 2^31 |
| `ItemResponse.PlainRequest` | src/server/response.cpp:687-706 | without a range the whole item comes with status 200, compressible or not |
| `ItemResponse.RangeRequest` | src/server/response.cpp:687-731 | 416 exactly if nothing is selected, otherwise 206 and exactly the selected bytes as the body |
| `ETag.IsSubsequenceOf` | src/server/etag.cpp:49-60 | true exactly if the characters can be placed in the other string in order: the greedy search misses no placement |
| `ETag.OptionStrings` | src/server/etag.cpp:62-65 | the valid option strings are the four subsequences of "Zz" |
| `ETag.ETag.GetOption` | src/server/etag.cpp:79-82 | true exactly for the options set so far |
| `ETag.ETag.SetBody` | src/server/etag.h:63 | sets the body and keeps the options |
| `ETag.ETag.GetEtag` | src/server/etag.cpp:84-90 | empty without a body; with a valid one the text parses back to this tag |
| `ETag.ETag.SetOption` | src/server/etag.cpp:70-77 | after any sequence of calls the option string is the sorted one, without duplicates, of exactly the options set |
| `ETag.MakeTag` | src/server/etag.cpp:92-99 | an empty tag unless body and options are both valid |
| `ETag.Parse` | src/server/etag.cpp:101-116 | computes the parse of the lemmas below, with the two texts that throw and the one that is undefined |
| `ETag.ParseMeaning` | src/server/etag.cpp:84-116 | a text parses to a valid tag exactly if it is that tag's own text |
| `ETag.WeakIsIgnored` | src/server/etag.cpp:103-107 | a weak tag parses to no tag |
| `ETag.Match` | src/server/etag.cpp:118-133 | the loop over the words of the list computes the search of the lemmas below |
| `ETag.MatchFailsIff` | src/server/etag.cpp:118-133 | the search throws or is undefined exactly if a word that strips to "", "W" or "W/" comes before the first match |
| `ETag.FoundIsInList` | src/server/etag.cpp:118-133 | whatever the list, a tag found is valid, has the body asked for and stands in one word |
| `ETag.MatchesList` | src/server/etag.cpp:118-133 | for strong tags joined by ", " the first well-formed one with the body is found, or none if there is none |
| `ETag.MatchesOwnTag` | src/server/etag.cpp:84-133 | a tag comes back from its own text exactly if its body is not empty and has no quote, slash or white space |

## Left out

- Threads and locks are a step system on values, not heap objects: each locked section, factory, promise operation and
  wait is one step. The order in which a factory visits the ids of a set is arbitrary.
- Whether a weak pointer can still be locked at a probe is a choice of the scheduler in `CacheProtocol`.
- Reference counts: `WeakReuse` and `ArchiveFreshness` record which values clients hold instead of counting references.
- The archive cache capacity in `ArchiveFreshness` is arbitrary eviction; capacities set from the environment or the number of
  books in `addBook` are not modelled.
- A failure of memory allocation inside the weak store is not modelled.
- Library.Library.AddBook: does not contain the calls to the caches; `ArchiveFreshness` covers them on values.
- Library.Library.UpdateBookDB: how a text is cut into words, and how these are stemmed, are open functions; term positions are
  not modelled. Words are taken to be in lower case (`BookTerms.LowerCase`) where prefixed terms are told apart.
- Reload.Manager.ReadFile: takes the parsed books as input; XML parsing, and re-reading a book from its archive when
  the library is not trusted, are not modelled. Relative library paths are taken as already resolved.
- ETag.Match: the two ways to fail, an exception and a read from an empty string, are outcomes of the model.
- Queries.BuildXapianQuery: free-text and phrase matching, text normalisation and ranking are open functions; query
  simplification by the search engine is not modelled.
- BestBook.SortByDate: stands for `std::sort`, whose own algorithm is not modelled; the other sort keys would repeat it.
- The filter setters and has-tests not listed are the same pattern as those listed.
- SearchFilter.GetSearchFilter: takes the decoded arguments of the request; reading a size is an open function.
- CacheSolo.SoloCall: is about archives; calls for searchers are covered in all interleavings by `CacheSafety` and `CacheLiveness`.
- Paths: Windows and samba branches, `removeLastPathElement`, `appendToDirectory` and `getLastPathElement`; the current
  directory is a parameter.
- Crawl.AddBooksFromDirectory: works on a fixed finite graph in which symlinks are resolved; permission errors and races are
  not modelled, and opening the offered file is not part of this model.
- ByteRange.ParsesIff: is about texts without white space, like all of the parser's lemmas.
- ByteRange.ParseByteRange: white space in ranges, which the stream would skip, and a suffix of exactly 2^63, whose negation
  overflows, are excluded by its precondition.
- ItemResponse.RangeRequest: needs the range to start below 2^31 for the body; `ReaderIsExactIff` says what happens otherwise.
  The Content-Range text and compression of whole contents are not modelled.
- Base64.Base64Decode: for encodings shorter than 2^31, since the source counts them in an `int`.
- ETag.MatchesList: lists with weak tags, stray commas or bare words fall outside it; `FoundIsInList` and `MatchFailsIff` cover
  every list.
- Server routing, OPDS and HTML dumping, downloads, kiwix-serve templates and the JavaScript front end.
