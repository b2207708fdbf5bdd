/** `Manager::addBooksFromDirectory` of src/manager.cpp: a breadth-first crawl over a directory
    graph that symlinks can make cyclic. */
module Crawl {
  import opened Seqs

  /** A directory entry with its symlink resolved; `ext` is the extension of a file that is not a
      directory.  Dangling entries are symlinks that lead nowhere. */
  datatype Entry = Directory(path: string) | File(path: string, ext: string) | Dangling

  type Graph = map<string, seq<Entry>>

  /** Every directory an entry leads to is in the graph. */
  ghost predicate Closed(g: Graph) {
    forall d, e | d in g && e in g[d] && e.Directory? :: e.path in g
  }

  /** `std::tolower` in the C locale. */
  function Lower(c: char): char {
    if 'A' <= c <= 'Z' then c - 'A' + 'a' else c
  }

  function LowerAll(s: string): string {
    if s == "" then "" else [Lower(s[0])] + LowerAll(s[1..])
  }

  predicate IsBook(e: Entry) {
    e.File? && (LowerAll(e.ext) == ".zim" || LowerAll(e.ext) == ".zimaa")
  }

  /** ".zim" in any mixture of cases. */
  ghost predicate IsZim(s: string) {
    |s| == 4 && s[0] == '.' && s[1] in {'z', 'Z'} && s[2] in {'i', 'I'} && s[3] in {'m', 'M'}
  }

  lemma {:induction false} LowerAt(s: string)
    ensures |LowerAll(s)| == |s| && forall i | 0 <= i < |s| :: LowerAll(s)[i] == Lower(s[i])
  {
    if s != "" { LowerAt(s[1..]); }
  }

  /** Book files are those with the extension .zim or .zimaa, in any case. */
  lemma BookFiles(e: Entry)
    ensures IsBook(e)
       <==> e.File? && (IsZim(e.ext)
                        || (|e.ext| == 6 && IsZim(e.ext[..4]) && e.ext[4] in {'a', 'A'} && e.ext[5] in {'a', 'A'}))
  {
    if e.File? {
      LowerAt(e.ext);
      if |e.ext| == 4 {
        FourChars(LowerAll(e.ext), ".zim");
      } else if |e.ext| == 6 {
        FourChars(LowerAll(e.ext)[..4], ".zimaa"[..4]);
        SixChars(LowerAll(e.ext), ".zimaa");
      }
    }
  }

  lemma FourChars(a: string, b: string)
    requires |a| == 4 && |b| == 4
    ensures a == b <==> a[0] == b[0] && a[1] == b[1] && a[2] == b[2] && a[3] == b[3]
  {
  }

  lemma SixChars(a: string, b: string)
    requires |a| == 6 && |b| == 6
    ensures a == b <==> a[..4] == b[..4] && a[4] == b[4] && a[5] == b[5]
  {
  }

  // ---- Reachability ------------------------------------------------------------

  ghost predicate HasSubdir(g: Graph, d: string, c: string) {
    d in g && Directory(c) in g[d]
  }

  ghost predicate IsWalk(g: Graph, walk: seq<string>) {
    walk != [] && forall i :: 0 <= i < |walk| - 1 ==> HasSubdir(g, walk[i], walk[i + 1])
  }

  ghost predicate Reaches(g: Graph, walk: seq<string>, start: string, d: string) {
    IsWalk(g, walk) && walk[0] == start && walk[|walk| - 1] == d
  }

  ghost predicate Reachable(g: Graph, start: string, d: string) {
    exists walk :: Reaches(g, walk, start, d)
  }

  lemma ReachSelf(g: Graph, start: string)
    ensures Reachable(g, start, start)
  {
    assert Reaches(g, [start], start, start);
  }

  lemma ReachNext(g: Graph, start: string, d: string, c: string)
    requires Reachable(g, start, d) && HasSubdir(g, d, c)
    ensures Reachable(g, start, c)
  {
    var walk :| Reaches(g, walk, start, d);
    assert Reaches(g, walk + [c], start, c);
  }

  /** A set that holds the start and all subdirectories of its members holds every reachable
      directory. */
  lemma {:induction false} ClosedSetHoldsWalk(g: Graph, start: string, visited: set<string>, walk: seq<string>, d: string)
    requires start in visited && (forall x, c | x in visited && HasSubdir(g, x, c) :: c in visited)
    requires Reaches(g, walk, start, d)
    ensures d in visited
    decreases |walk|
  {
    if |walk| > 1 {
      var init := walk[..|walk| - 1];
      assert HasSubdir(g, walk[|walk| - 2], walk[|walk| - 1]);
      assert Reaches(g, init, start, walk[|walk| - 2]);
      ClosedSetHoldsWalk(g, start, visited, init, walk[|walk| - 2]);
    }
  }

  // ---- One directory --------------------------------------------------------------

  /** The subdirectories that a visit puts into the queue. */
  function NewDirs(entries: seq<Entry>, iterated: set<string>): (r: seq<string>)
    ensures forall c | c in r :: Directory(c) in entries && c !in iterated
    ensures forall e | e in entries && e.Directory? && e.path !in iterated :: e.path in r
  {
    if entries == [] then []
    else
      var e := entries[|entries| - 1];
      assert entries == entries[..|entries| - 1] + [e];
      NewDirs(entries[..|entries| - 1], iterated) + if e.Directory? && e.path !in iterated then [e.path] else []
  }

  lemma {:induction false} NothingNew(entries: seq<Entry>, iterated: set<string>)
    requires forall e | e in entries && e.Directory? :: e.path in iterated
    ensures NewDirs(entries, iterated) == []
  {
    if entries != [] {
      assert entries == entries[..|entries| - 1] + [entries[|entries| - 1]];
      NothingNew(entries[..|entries| - 1], iterated);
    }
  }

  /** The files that a visit offers to the library. */
  function Books(entries: seq<Entry>): (r: seq<string>)
    ensures forall f :: f in r <==> exists e :: e in entries && IsBook(e) && e.path == f
  {
    if entries == [] then []
    else
      var e := entries[|entries| - 1];
      assert entries == entries[..|entries| - 1] + [e];
      Books(entries[..|entries| - 1]) + if IsBook(e) then [e.path] else []
  }

  lemma OneMoreEntry(entries: seq<Entry>, iterated: set<string>, i: nat)
    requires i < |entries|
    ensures var e := entries[i];
            NewDirs(entries[..i + 1], iterated)
            == NewDirs(entries[..i], iterated) + (if e.Directory? && e.path !in iterated then [e.path] else [])
            && Books(entries[..i + 1]) == Books(entries[..i]) + (if IsBook(e) then [e.path] else [])
  {
    assert entries[..i + 1][..i] == entries[..i];
  }

  /** One entry of the current directory. */
  method HandleEntry(e: Entry, iteratedDirs: set<string>, queue: seq<string>, added: seq<string>)
    returns (dirQueue: seq<string>, offered: seq<string>)
    ensures dirQueue == queue + if e.Directory? && e.path !in iteratedDirs then [e.path] else []
    ensures offered == added + if IsBook(e) then [e.path] else []
  {
    dirQueue, offered := queue, added;
    if e.Dangling? {
      return;
    }
    if e.Directory? {
      if e.path !in iteratedDirs {
        dirQueue := dirQueue + [e.path];
      }
    } else if LowerAll(e.ext) == ".zim" || LowerAll(e.ext) == ".zimaa" {
      offered := offered + [e.path];
    }
  }

  /** The loop over the entries of the current directory. */
  method IterateDirectory(entries: seq<Entry>, iteratedDirs: set<string>, queue: seq<string>, added: seq<string>)
    returns (dirQueue: seq<string>, offered: seq<string>)
    ensures dirQueue == queue + NewDirs(entries, iteratedDirs)
    ensures offered == added + Books(entries)
  {
    dirQueue, offered := queue, added;
    for i := 0 to |entries|
      invariant dirQueue == queue + NewDirs(entries[..i], iteratedDirs)
      invariant offered == added + Books(entries[..i])
    {
      var e := entries[i];
      OneMoreEntry(entries, iteratedDirs, i);
      Assoc(queue, NewDirs(entries[..i], iteratedDirs), if e.Directory? && e.path !in iteratedDirs then [e.path] else []);
      Assoc(added, Books(entries[..i]), if IsBook(e) then [e.path] else []);
      dirQueue, offered := HandleEntry(e, iteratedDirs, dirQueue, offered);
    }
    assert entries[..|entries|] == entries;
  }

  // ---- The crawl ---------------------------------------------------------------------

  /** Index of the first directory in the queue that was not visited yet, or the queue length. */
  ghost function FirstNew(queue: seq<string>, iterated: set<string>): (n: nat)
    ensures n <= |queue| && (n < |queue| ==> queue[n] !in iterated)
    ensures n == |queue| ==> forall d | d in queue :: d in iterated
  {
    if queue == [] || queue[0] !in iterated then 0 else 1 + FirstNew(queue[1..], iterated)
  }

  lemma {:induction false} FirstNewAppend(queue: seq<string>, more: seq<string>, iterated: set<string>)
    requires FirstNew(queue, iterated) < |queue|
    ensures FirstNew(queue + more, iterated) == FirstNew(queue, iterated)
  {
    assert (queue + more)[1..] == queue[1..] + more;
    if queue[0] in iterated {
      FirstNewAppend(queue[1..], more, iterated);
    }
  }

  /** What holds between visits. */
  ghost predicate Progress(g: Graph, start: string, queue: seq<string>, iterated: set<string>) {
    && (forall d | d in iterated :: d in g && Reachable(g, start, d))
    && (forall d | d in queue :: d in g && Reachable(g, start, d))
    && (start in iterated || start in queue)
    && (forall d, c | d in iterated && HasSubdir(g, d, c) :: c in iterated || c in queue)
  }

  ghost predicate OfferedExactly(g: Graph, iterated: set<string>, offered: seq<string>) {
    && (forall f | f in offered :: exists d, e :: d in iterated && d in g && e in g[d] && IsBook(e) && e.path == f)
    && (forall d, e | d in iterated && d in g && e in g[d] && IsBook(e) :: e.path in offered)
  }

  lemma VisitKeepsProgress(g: Graph, start: string, queue: seq<string>, iterated: set<string>)
    requires Closed(g) && Progress(g, start, queue, iterated) && queue != []
    ensures Progress(g, start, queue[1..] + NewDirs(g[queue[0]], iterated), iterated + {queue[0]})
  {
    var current, new' := queue[0], NewDirs(g[queue[0]], iterated);
    assert queue == [current] + queue[1..];
    forall c | c in new'
      ensures c in g && Reachable(g, start, c)
    {
      assert HasSubdir(g, current, c);
      ReachNext(g, start, current, c);
    }
  }

  lemma VisitOffers(g: Graph, current: string, iterated: set<string>, offered: seq<string>)
    requires current in g && OfferedExactly(g, iterated, offered)
    ensures OfferedExactly(g, iterated + {current}, offered + Books(g[current]))
  {
    var all := offered + Books(g[current]);
    forall f | f in all
      ensures exists d, e :: d in iterated + {current} && d in g && e in g[d] && IsBook(e) && e.path == f
    {
      if f in Books(g[current]) {
        var e :| e in g[current] && IsBook(e) && e.path == f;
        assert current in iterated + {current};
      } else {
        var d, e :| d in iterated && d in g && e in g[d] && IsBook(e) && e.path == f;
        assert d in iterated + {current};
      }
    }
  }

  /** A second visit to a directory moves the first new one nearer to the front; if there is none,
      it pushes nothing. */
  lemma RevisitAdvances(g: Graph, start: string, queue: seq<string>, iterated: set<string>)
    requires Progress(g, start, queue, iterated) && queue != [] && queue[0] in iterated
    ensures FirstNew(queue[1..] + NewDirs(g[queue[0]], iterated), iterated) < FirstNew(queue, iterated)
  {
    var more := NewDirs(g[queue[0]], iterated);
    if FirstNew(queue, iterated) < |queue| {
      FirstNewAppend(queue[1..], more, iterated);
    } else {
      forall e | e in g[queue[0]] && e.Directory?
        ensures e.path in iterated
      {
        assert HasSubdir(g, queue[0], e.path);
      }
      NothingNew(g[queue[0]], iterated);
      assert queue[1..] + more == queue[1..];
    }
  }

  lemma FewerLeft(all: set<string>, iterated: set<string>, current: string)
    requires current in all && current !in iterated
    ensures |all - (iterated + {current})| < |all - iterated|
  {
    assert all - (iterated + {current}) == (all - iterated) - {current};
  }

  /** The crawl ends, it visits exactly the reachable directories, and it offers to the library
      exactly the book files in them. */
  method AddBooksFromDirectory(g: Graph, path: string) returns (offered: seq<string>, iteratedDirs: set<string>)
    requires Closed(g) && path in g
    ensures forall d :: d in iteratedDirs <==> Reachable(g, path, d)
    ensures forall f :: f in offered <==>
              exists d, e :: Reachable(g, path, d) && d in g && e in g[d] && IsBook(e) && e.path == f
  {
    iteratedDirs := {};
    var dirQueue := [path];
    offered := [];
    ReachSelf(g, path);
    while dirQueue != []
      invariant Progress(g, path, dirQueue, iteratedDirs)
      invariant OfferedExactly(g, iteratedDirs, offered)
      decreases |g.Keys - iteratedDirs|, FirstNew(dirQueue, iteratedDirs)
    {
      VisitKeepsProgress(g, path, dirQueue, iteratedDirs);
      var currentPath := dirQueue[0];
      VisitOffers(g, currentPath, iteratedDirs, offered);
      if currentPath in iteratedDirs {
        RevisitAdvances(g, path, dirQueue, iteratedDirs);
        assert iteratedDirs + {currentPath} == iteratedDirs;
      } else {
        FewerLeft(g.Keys, iteratedDirs, currentPath);
      }
      dirQueue := dirQueue[1..];
      dirQueue, offered := IterateDirectory(g[currentPath], iteratedDirs, dirQueue, offered);
      iteratedDirs := iteratedDirs + {currentPath};
    }
    VisitedAll(g, path, iteratedDirs);
  }

  lemma VisitedAll(g: Graph, start: string, iterated: set<string>)
    requires Progress(g, start, [], iterated)
    ensures forall d :: d in iterated <==> Reachable(g, start, d)
  {
    forall d | Reachable(g, start, d)
      ensures d in iterated
    {
      var walk :| Reaches(g, walk, start, d);
      ClosedSetHoldsWalk(g, start, iterated, walk, d);
    }
  }
}
