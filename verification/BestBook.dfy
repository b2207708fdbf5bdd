/** `getBestFromBookCollection` of src/library.cpp: sort by date, then stably by flavour, then pick. */
module BestBook {
  import opened Seqs
  import opened Books
  import Text

  datatype MigrationMode = UPGRADE_ONLY | ALLOW_DOWNGRADE

  type Shelf = map<string, Book>

  ghost predicate OnShelf(shelf: Shelf, ids: seq<string>) {
    forall i | 0 <= i < |ids| :: ids[i] in shelf
  }

  /** `a` is a permutation of `b`. */
  ghost predicate Permutes(a: seq<string>, b: seq<string>) {
    multiset(a) == multiset(b)
  }

  lemma PermutedMembers(a: seq<string>, b: seq<string>)
    requires Permutes(a, b)
    ensures forall x :: x in a <==> x in b
  {
    assert forall x :: x in a <==> x in multiset(a);
    assert forall x :: x in b <==> x in multiset(b);
  }

  // ---- Sorting by date -------------------------------------------------------

  ghost predicate Descending(shelf: Shelf, ids: seq<string>)
    requires OnShelf(shelf, ids)
  {
    forall i, j | 0 <= i < j < |ids| :: Text.AtMost(shelf[ids[j]].date, shelf[ids[i]].date)
  }

  /** The first place behind all books at least as new as `id`. */
  method FindPlace(shelf: Shelf, sorted: seq<string>, id: string) returns (k: nat)
    requires OnShelf(shelf, sorted) && id in shelf
    ensures k <= |sorted| && forall i | 0 <= i < k :: Text.AtMost(shelf[id].date, shelf[sorted[i]].date)
    ensures k < |sorted| ==> !Text.AtMost(shelf[id].date, shelf[sorted[k]].date)
  {
    k := 0;
    while k < |sorted| && Text.AtMost(shelf[id].date, shelf[sorted[k]].date)
      invariant k <= |sorted|
      invariant forall i | 0 <= i < k :: Text.AtMost(shelf[id].date, shelf[sorted[i]].date)
    {
      k := k + 1;
    }
  }

  /** `sort(books, DATE, false)`: descending dates, books of equal date in any order. */
  method SortByDate(shelf: Shelf, ids: seq<string>) returns (sorted: seq<string>)
    requires OnShelf(shelf, ids)
    ensures Permutes(sorted, ids) && OnShelf(shelf, sorted) && Descending(shelf, sorted)
  {
    sorted := [];
    for n := 0 to |ids|
      invariant Permutes(sorted, ids[..n]) && OnShelf(shelf, sorted) && Descending(shelf, sorted)
    {
      var id := ids[n];
      var k := FindPlace(shelf, sorted, id);
      InsertKeepsOrder(shelf, sorted, k, id);
      InsertedPermutes(sorted, ids, n, k);
      sorted := Inserted(sorted, k, id);
    }
    assert ids[..|ids|] == ids;
  }

  function Inserted(s: seq<string>, k: nat, id: string): (r: seq<string>)
    requires k <= |s|
    ensures |r| == |s| + 1 && forall i | 0 <= i < |r| :: r[i] == if i < k then s[i] else if i == k then id else s[i - 1]
  {
    s[..k] + [id] + s[k..]
  }

  lemma InsertedPermutes(s: seq<string>, ids: seq<string>, n: nat, k: nat)
    requires k <= |s| && n < |ids| && Permutes(s, ids[..n])
    ensures Permutes(Inserted(s, k, ids[n]), ids[..n + 1])
  {
    TakeSnoc(ids, n);
    assert s == s[..k] + s[k..];
  }

  lemma InsertKeepsOrder(shelf: Shelf, s: seq<string>, k: nat, id: string)
    requires k <= |s| && id in shelf && OnShelf(shelf, s) && Descending(shelf, s)
    requires forall i | 0 <= i < k :: Text.AtMost(shelf[id].date, shelf[s[i]].date)
    requires k < |s| ==> !Text.AtMost(shelf[id].date, shelf[s[k]].date)
    ensures OnShelf(shelf, Inserted(s, k, id)) && Descending(shelf, Inserted(s, k, id))
  {
    var r := Inserted(s, k, id);
    forall i, j | 0 <= i < j < |r|
      ensures Text.AtMost(shelf[r[j]].date, shelf[r[i]].date)
    {
      if i == k {
        Text.AtMostIsTotalOrder(shelf[id].date, shelf[s[k]].date, shelf[id].date);
        Text.AtMostIsTotalOrder(shelf[r[j]].date, shelf[s[k]].date, shelf[id].date);
      }
    }
  }

  // ---- Stable partition by flavour -------------------------------------------

  predicate SameFlavour(shelf: Shelf, id: string, flavour: string)
    requires id in shelf
  {
    shelf[id].flavour == flavour
  }

  /** The ids whose flavour agrees (or not) with `flavour`, in their order. The stable sort puts
      those that agree before those that do not. */
  function OfFlavour(shelf: Shelf, ids: seq<string>, flavour: string, same: bool): (r: seq<string>)
    requires OnShelf(shelf, ids)
    ensures forall x :: x in r <==> x in ids && SameFlavour(shelf, x, flavour) == same
  {
    if ids == [] then [] else
      assert ids == [ids[0]] + ids[1..];
      (if SameFlavour(shelf, ids[0], flavour) == same then [ids[0]] else []) + OfFlavour(shelf, ids[1..], flavour, same)
  }

  /** Everything behind the first of a sorted list is at most as new. */
  lemma HeadIsNewest(shelf: Shelf, ids: seq<string>, x: string)
    requires OnShelf(shelf, ids) && Descending(shelf, ids) && ids != [] && x in ids[1..]
    ensures Text.AtMost(shelf[x].date, shelf[ids[0]].date)
  {
    var j :| 0 <= j < |ids| - 1 && ids[1..][j] == x;
    assert ids[j + 1] == x;
  }

  lemma DescendingCons(shelf: Shelf, id: string, rest: seq<string>)
    requires id in shelf && OnShelf(shelf, rest) && Descending(shelf, rest)
    requires forall x | x in rest :: Text.AtMost(shelf[x].date, shelf[id].date)
    ensures OnShelf(shelf, [id] + rest) && Descending(shelf, [id] + rest)
  {
    assert forall i | 0 <= i < |rest| :: rest[i] in rest;
  }

  lemma {:induction false} OfFlavourDescends(shelf: Shelf, ids: seq<string>, flavour: string, same: bool)
    requires OnShelf(shelf, ids) && Descending(shelf, ids)
    ensures var r := OfFlavour(shelf, ids, flavour, same); OnShelf(shelf, r) && Descending(shelf, r)
  {
    if ids != [] {
      var rest := OfFlavour(shelf, ids[1..], flavour, same);
      OfFlavourDescends(shelf, ids[1..], flavour, same);
      forall x | x in rest
        ensures Text.AtMost(shelf[x].date, shelf[ids[0]].date)
      {
        HeadIsNewest(shelf, ids, x);
      }
      DescendingCons(shelf, ids[0], rest);
      assert [] + rest == rest;
    }
  }

  // ---- The choice ------------------------------------------------------------

  /** May `id` be chosen for the bookmark? Not if an upgrade is asked for and it is older. */
  ghost predicate Qualifies(shelf: Shelf, id: string, bookmark: Bookmark, mode: MigrationMode)
    requires id in shelf
  {
    mode.UPGRADE_ONLY? ==> !Text.Precedes(shelf[id].date, bookmark.date)
  }

  /** `best` qualifies, has the bookmark's flavour if any qualifying book has, and no book of its
      class (matching flavour or not) in the collection is newer. */
  ghost predicate IsBest(shelf: Shelf, ids: seq<string>, bookmark: Bookmark, mode: MigrationMode, best: string)
    requires OnShelf(shelf, ids)
  {
    && best in ids && Qualifies(shelf, best, bookmark, mode)
    && (forall x | x in ids && Qualifies(shelf, x, bookmark, mode) && shelf[x].flavour == bookmark.bookFlavour ::
          shelf[best].flavour == bookmark.bookFlavour)
    && (forall x | x in ids && (shelf[x].flavour == bookmark.bookFlavour <==> shelf[best].flavour == bookmark.bookFlavour) ::
          !Text.Precedes(shelf[best].date, shelf[x].date))
  }

  ghost predicate AnyQualifies(shelf: Shelf, ids: seq<string>, bookmark: Bookmark, mode: MigrationMode)
    requires OnShelf(shelf, ids)
  {
    exists x | x in ids :: Qualifies(shelf, x, bookmark, mode)
  }

  /** In a class sorted by date, the first qualifying book is a newest one. */
  lemma FirstIsNewest(shelf: Shelf, kin: seq<string>, k: nat, bookmark: Bookmark, mode: MigrationMode, x: string)
    requires OnShelf(shelf, kin) && Descending(shelf, kin) && k < |kin| && Qualifies(shelf, kin[k], bookmark, mode)
    requires forall j | 0 <= j < k :: !Qualifies(shelf, kin[j], bookmark, mode)
    requires x in kin
    ensures !Text.Precedes(shelf[kin[k]].date, shelf[x].date)
  {
    var m :| 0 <= m < |kin| && kin[m] == x;
    var d, e := shelf[x].date, shelf[kin[k]].date;
    Text.AtMostMeans(bookmark.date, d);
    Text.AtMostMeans(bookmark.date, e);
    Text.AtMostMeans(d, e);
    Text.AtMostIsTotalOrder(d, bookmark.date, e);
    Text.AtMostIsTotalOrder(d, d, d);
  }

  /** A stable sort of `ids` by date and flavour. */
  ghost predicate Sorted(shelf: Shelf, ids: seq<string>, flavour: string, same: seq<string>, other: seq<string>)
    requires OnShelf(shelf, ids)
  {
    && OnShelf(shelf, same) && OnShelf(shelf, other) && Descending(shelf, same) && Descending(shelf, other)
    && (forall x :: x in same <==> x in ids && SameFlavour(shelf, x, flavour))
    && (forall x :: x in other <==> x in ids && !SameFlavour(shelf, x, flavour))
  }

  /** The first qualifying book of the sorted list is a best one. */
  lemma FirstIsBest(shelf: Shelf, ids: seq<string>, bookmark: Bookmark, mode: MigrationMode,
                    same: seq<string>, other: seq<string>, i: nat)
    requires OnShelf(shelf, ids) && Sorted(shelf, ids, bookmark.bookFlavour, same, other)
    requires i < |same + other| && (same + other)[i] in shelf && Qualifies(shelf, (same + other)[i], bookmark, mode)
    requires forall j | 0 <= j < i :: (same + other)[j] in shelf && !Qualifies(shelf, (same + other)[j], bookmark, mode)
    ensures IsBest(shelf, ids, bookmark, mode, (same + other)[i])
  {
    var best := (same + other)[i];
    forall j | 0 <= j < i && j < |same|
      ensures !Qualifies(shelf, same[j], bookmark, mode)
    {
      assert (same + other)[j] == same[j];
    }
    if i < |same| {
      assert best == same[i];
      forall x | x in same
        ensures !Text.Precedes(shelf[best].date, shelf[x].date)
      {
        FirstIsNewest(shelf, same, i, bookmark, mode, x);
      }
    } else {
      var k := i - |same|;
      assert best == other[k];
      forall j | 0 <= j < k
        ensures !Qualifies(shelf, other[j], bookmark, mode)
      {
        assert (same + other)[|same| + j] == other[j];
      }
      forall x | x in other
        ensures !Text.Precedes(shelf[best].date, shelf[x].date)
      {
        FirstIsNewest(shelf, other, k, bookmark, mode, x);
      }
    }
  }

  /** Whatever order the unstable sort leaves books of equal date in: a best book if one
      qualifies, otherwise "". */
  method GetBestFromBookCollection(shelf: Shelf, books: seq<string>, bookmark: Bookmark, mode: MigrationMode)
    returns (best: string)
    requires OnShelf(shelf, books)
    ensures if AnyQualifies(shelf, books, bookmark, mode) then IsBest(shelf, books, bookmark, mode, best) else best == ""
  {
    if books == [] {
      return "";
    }
    var byDate := SortByDate(shelf, books);
    PermutedMembers(byDate, books);
    OfFlavourDescends(shelf, byDate, bookmark.bookFlavour, true);
    OfFlavourDescends(shelf, byDate, bookmark.bookFlavour, false);
    var same := OfFlavour(shelf, byDate, bookmark.bookFlavour, true);
    var other := OfFlavour(shelf, byDate, bookmark.bookFlavour, false);
    best := Pick(shelf, books, bookmark, mode, same, other);
  }

  /** The choice from the sorted list. */
  method Pick(shelf: Shelf, ghost ids: seq<string>, bookmark: Bookmark, mode: MigrationMode,
              same: seq<string>, other: seq<string>)
    returns (best: string)
    requires OnShelf(shelf, ids) && ids != [] && Sorted(shelf, ids, bookmark.bookFlavour, same, other)
    ensures if AnyQualifies(shelf, ids, bookmark, mode) then IsBest(shelf, ids, bookmark, mode, best) else best == ""
  {
    var sorted := same + other;
    assert forall x :: x in sorted <==> x in ids;
    assert ids[0] in sorted;
    if mode == ALLOW_DOWNGRADE {
      assert sorted[0] in sorted;
      FirstIsBest(shelf, ids, bookmark, mode, same, other, 0);
      return sorted[0];
    }
    for i := 0 to |sorted|
      invariant forall j | 0 <= j < i :: sorted[j] in shelf && !Qualifies(shelf, sorted[j], bookmark, mode)
    {
      assert sorted[i] in sorted;
      Text.AtMostMeans(bookmark.date, shelf[sorted[i]].date);
      if Text.AtMost(bookmark.date, shelf[sorted[i]].date) {
        FirstIsBest(shelf, ids, bookmark, mode, same, other, i);
        return sorted[i];
      }
    }
    return "";
  }

  // ---- Is the choice ever older than a given book? -----------------------------

  /** `id` qualifies and has the bookmark's flavour. */
  ghost predicate QualifiesInFlavour(shelf: Shelf, id: string, bookmark: Bookmark, mode: MigrationMode)
    requires id in shelf
  {
    Qualifies(shelf, id, bookmark, mode) && shelf[id].flavour == bookmark.bookFlavour
  }

  /** A best book is not older than a date, exactly if some book of the class it is taken from is
      not: the bookmark's flavour if a qualifying book has it, the other flavours otherwise. */
  lemma NotOlderThanIff(shelf: Shelf, ids: seq<string>, bookmark: Bookmark, mode: MigrationMode, best: string, date: string)
    requires OnShelf(shelf, ids) && IsBest(shelf, ids, bookmark, mode, best)
    ensures !Text.Precedes(shelf[best].date, date)
       <==> exists x | x in ids ::
              && (shelf[x].flavour == bookmark.bookFlavour <==>
                  exists y | y in ids :: QualifiesInFlavour(shelf, y, bookmark, mode))
              && !Text.Precedes(shelf[x].date, date)
  {
    assert shelf[best].flavour == bookmark.bookFlavour ==> QualifiesInFlavour(shelf, best, bookmark, mode);
    forall x | x in ids && (shelf[x].flavour == bookmark.bookFlavour <==> shelf[best].flavour == bookmark.bookFlavour)
               && !Text.Precedes(shelf[x].date, date)
      ensures !Text.Precedes(shelf[best].date, date)
    {
      NotOlderTransitive(date, shelf[x].date, shelf[best].date);
    }
  }

  /** A best book is not older than a book `own` of the collection, exactly if `own` has the
      bookmark's flavour, or no qualifying book has it, or some book of that flavour is not older
      than `own`. */
  lemma NotOlderIff(shelf: Shelf, ids: seq<string>, bookmark: Bookmark, mode: MigrationMode, best: string, own: string)
    requires OnShelf(shelf, ids) && IsBest(shelf, ids, bookmark, mode, best) && own in ids
    ensures !Text.Precedes(shelf[best].date, shelf[own].date)
       <==> shelf[own].flavour == bookmark.bookFlavour
            || (forall x | x in ids :: !QualifiesInFlavour(shelf, x, bookmark, mode))
            || (exists x | x in ids && shelf[x].flavour == bookmark.bookFlavour ::
                  !Text.Precedes(shelf[x].date, shelf[own].date))
  {
    NotOlderThanIff(shelf, ids, bookmark, mode, best, shelf[own].date);
    NotOlderTransitive(shelf[own].date, shelf[own].date, shelf[own].date);
    if shelf[own].flavour == bookmark.bookFlavour && shelf[best].flavour != bookmark.bookFlavour {
      assert !Qualifies(shelf, own, bookmark, mode);
      BetweenDates(shelf[best].date, shelf[own].date, bookmark.date);
    }
  }

  lemma BetweenDates(a: string, b: string, c: string)
    requires Text.Precedes(b, c) && !Text.Precedes(a, c)
    ensures !Text.Precedes(a, b)
  {
    Text.AtMostMeans(c, b);
    Text.AtMostMeans(c, a);
    Text.AtMostMeans(b, a);
    Text.AtMostIsTotalOrder(b, c, a);
    Text.AtMostIsTotalOrder(c, b, a);
  }

  /** Nothing is before itself, and not before `b`, which is not before `a`, is not before `a`. */
  lemma NotOlderTransitive(a: string, b: string, c: string)
    ensures !Text.Precedes(a, a)
    ensures !Text.Precedes(b, a) && !Text.Precedes(c, b) ==> !Text.Precedes(c, a)
  {
    Text.AtMostMeans(a, a);
    Text.AtMostMeans(a, b);
    Text.AtMostMeans(b, c);
    Text.AtMostMeans(a, c);
    Text.AtMostIsTotalOrder(a, b, c);
  }

  function Wiki(flavour: string, date: string): Book {
    Book("", "", "", "wiki", flavour, date, "", "", "", "", "", "", false, "", 0, false)
  }

  /** In both modes: a bookmark of a "maxi" book of 2023, whose id now stands for a "nopic" book of
      2024, goes to another book of 2023 with the same name. */
  lemma OlderIsChosen(mode: MigrationMode, best: string)
    ensures var shelf := map["own" := Wiki("nopic", "2024"), "old" := Wiki("maxi", "2023")];
            && (IsBest(shelf, ["own", "old"], Bookmark("own", "", "wiki", "maxi", "", "", "", "2023"), mode, best) <==> best == "old")
            && Text.Precedes(shelf["old"].date, shelf["own"].date)
  {
    var shelf, ids := map["own" := Wiki("nopic", "2024"), "old" := Wiki("maxi", "2023")], ["own", "old"];
    var bookmark := Bookmark("own", "", "wiki", "maxi", "", "", "", "2023");
    NotOlderTransitive("2023", "2023", "2023");
    assert ids[1] == "old" && forall x | x in ids :: x == "own" || x == "old";
    assert Qualifies(shelf, "old", bookmark, mode);
    assert "2023"[..3] == "2024"[..3];
    assert Text.SmallerAt("2023", "2024", 3);
  }
}
