/** Bookmark lists under a change of book ids: what `migrateBookmarks` (src/library.cpp) does to
    them, apart from the choice of the targets. */
module BookmarkIds {
  import opened Seqs
  import opened Books

  /** `b` pointed at the book its id is mapped to, if it is mapped. */
  function WithId(b: Bookmark, targets: map<string, string>): Bookmark {
    if b.bookId in targets then b.(bookId := targets[b.bookId]) else b
  }

  function MapIds(bs: seq<Bookmark>, targets: map<string, string>): (r: seq<Bookmark>)
    ensures |r| == |bs|
  {
    seq(|bs|, i requires 0 <= i < |bs| => WithId(bs[i], targets))
  }

  /** How many bookmarks have one of these ids. */
  function CountOf(bs: seq<Bookmark>, ids: set<string>): nat {
    if bs == [] then 0
    else CountOf(bs[..|bs| - 1], ids) + if bs[|bs| - 1].bookId in ids then 1 else 0
  }

  /** How many bookmarks point at no known book. */
  function CountInvalid(bs: seq<Bookmark>, known: set<string>): nat {
    if bs == [] then 0
    else CountInvalid(bs[..|bs| - 1], known) + if bs[|bs| - 1].bookId in known then 0 else 1
  }

  /** The first bookmark with this id. */
  function FirstWith(bs: seq<Bookmark>, id: string): Option<Bookmark> {
    if bs == [] then None else if bs[0].bookId == id then Some(bs[0]) else FirstWith(bs[1..], id)
  }

  lemma {:induction false} FirstWithAt(bs: seq<Bookmark>, id: string, k: nat)
    requires k <= |bs| && forall j | 0 <= j < k :: bs[j].bookId != id
    ensures FirstWith(bs, id) == FirstWith(bs[k..], id)
    decreases k
  {
    if k == 0 {
      assert bs[0..] == bs;
    } else {
      FirstWithAt(bs[1..], id, k - 1);
      assert bs[1..][k - 1..] == bs[k..];
    }
  }

  /** The first one: before it there is none. */
  lemma {:induction false} FirstWithMeans(bs: seq<Bookmark>, id: string) returns (k: nat)
    ensures k <= |bs| && forall j | 0 <= j < k :: bs[j].bookId != id
    ensures if k < |bs| then bs[k].bookId == id && FirstWith(bs, id) == Some(bs[k]) else FirstWith(bs, id) == None
  {
    if bs == [] || bs[0].bookId == id {
      k := 0;
    } else {
      k := FirstWithMeans(bs[1..], id);
      k := k + 1;
    }
  }

  ghost function PlacesOf(bs: seq<Bookmark>, ids: set<string>): set<nat> {
    set i: nat | i < |bs| && bs[i].bookId in ids
  }

  ghost function PlacesOutside(bs: seq<Bookmark>, known: set<string>): set<nat> {
    set i: nat | i < |bs| && bs[i].bookId !in known
  }

  lemma PlacesSnoc(bs: seq<Bookmark>, ids: set<string>, n: nat)
    requires |bs| == n + 1
    ensures PlacesOf(bs, ids) == PlacesOf(bs[..n], ids) + (if bs[n].bookId in ids then {n} else {})
    ensures PlacesOutside(bs, ids) == PlacesOutside(bs[..n], ids) + (if bs[n].bookId in ids then {} else {n})
    ensures n !in PlacesOf(bs[..n], ids) && n !in PlacesOutside(bs[..n], ids)
  {
  }

  /** The counts are numbers of places in the list. */
  lemma {:induction false} CountsAre(bs: seq<Bookmark>, ids: set<string>)
    ensures CountOf(bs, ids) == |PlacesOf(bs, ids)| && CountInvalid(bs, ids) == |PlacesOutside(bs, ids)|
  {
    if bs == [] {
      assert PlacesOf(bs, ids) == {} && PlacesOutside(bs, ids) == {};
    } else {
      CountsAre(bs[..|bs| - 1], ids);
      PlacesSnoc(bs, ids, |bs| - 1);
    }
  }

  /** Targets that are no sources and do not name `id` leave the bookmarks of `id` alone. */
  ghost predicate Apart(targets: map<string, string>, id: string) {
    id !in targets && forall x | x in targets :: targets[x] != id
  }

  lemma {:induction false} FirstUnchanged(bs: seq<Bookmark>, targets: map<string, string>, id: string)
    requires Apart(targets, id)
    ensures FirstWith(MapIds(bs, targets), id) == FirstWith(bs, id)
  {
    if bs != [] {
      assert MapIds(bs, targets)[1..] == MapIds(bs[1..], targets);
      FirstUnchanged(bs[1..], targets, id);
    }
  }

  lemma {:induction false} CountUnchanged(bs: seq<Bookmark>, targets: map<string, string>, id: string)
    requires Apart(targets, id)
    ensures CountOf(MapIds(bs, targets), {id}) == CountOf(bs, {id})
  {
    if bs != [] {
      var init := bs[..|bs| - 1];
      assert MapIds(bs, targets)[..|bs| - 1] == MapIds(init, targets);
      CountUnchanged(init, targets, id);
    }
  }

  lemma {:induction false} CountSplits(bs: seq<Bookmark>, ids: set<string>, id: string)
    requires id !in ids
    ensures CountOf(bs, ids + {id}) == CountOf(bs, ids) + CountOf(bs, {id})
  {
    if bs != [] {
      CountSplits(bs[..|bs| - 1], ids, id);
    }
  }

  /** One more target, after the others. */
  lemma MapOneMore(bs: seq<Bookmark>, targets: map<string, string>, id: string, to: string)
    requires Apart(targets, id)
    ensures MapIds(MapIds(bs, targets), map[id := to]) == MapIds(bs, targets[id := to])
  {
  }

  lemma MapNothing(bs: seq<Bookmark>)
    ensures MapIds(bs, map[]) == bs
  {
  }

  /** Mapping ids of unknown books to known books makes exactly the mapped bookmarks valid. */
  lemma {:induction false} InvalidAfter(bs: seq<Bookmark>, targets: map<string, string>, known: set<string>)
    requires forall x | x in targets :: x !in known && targets[x] in known
    ensures CountInvalid(MapIds(bs, targets), known) + CountOf(bs, targets.Keys) == CountInvalid(bs, known)
  {
    if bs != [] {
      var init := bs[..|bs| - 1];
      assert MapIds(bs, targets)[..|bs| - 1] == MapIds(init, targets);
      InvalidAfter(init, targets, known);
    }
  }

  /** Number, order and all fields but the id are kept, bookmarks of known books are untouched, and
      every changed one now points at a known book. */
  ghost predicate Conserved(before: seq<Bookmark>, after: seq<Bookmark>, known: set<string>) {
    && |after| == |before|
    && forall i | 0 <= i < |before| ::
         after[i] == before[i]
         || (before[i].bookId !in known && after[i].bookId in known && after[i] == before[i].(bookId := after[i].bookId))
  }

  lemma MapConserves(bs: seq<Bookmark>, targets: map<string, string>, known: set<string>)
    requires forall x | x in targets :: x !in known && targets[x] in known
    ensures Conserved(bs, MapIds(bs, targets), known)
  {
  }

  // ---- The order of the sources ----------------------------------------------

  /** The sources migrated one after the other. */
  function InOrder(bs: seq<Bookmark>, order: seq<string>, targets: map<string, string>): seq<Bookmark>
    decreases order
  {
    if order == [] then bs
    else
      var id := order[0];
      InOrder(if id in targets then MapIds(bs, map[id := targets[id]]) else bs, order[1..], targets)
  }

  ghost function Restricted(targets: map<string, string>, order: seq<string>): map<string, string> {
    map id | id in targets && id in order :: targets[id]
  }

  /** Sources that are nobody's target can be migrated in any order, with the same outcome. */
  lemma {:induction false} AnyOrder(bs: seq<Bookmark>, order: seq<string>, targets: map<string, string>)
    requires Distinct(order) && forall id | id in targets :: targets[id] !in order
    ensures InOrder(bs, order, targets) == MapIds(bs, Restricted(targets, order))
    decreases order
  {
    if order == [] {
      assert Restricted(targets, order) == map[];
    } else {
      var id, rest := order[0], order[1..];
      assert order == [id] + rest && id !in rest;
      var next := if id in targets then MapIds(bs, map[id := targets[id]]) else bs;
      AnyOrder(next, rest, targets);
      var left, all := Restricted(targets, rest), Restricted(targets, order);
      forall i | 0 <= i < |bs|
        ensures WithId(next[i], left) == WithId(bs[i], all)
      {
        assert bs[i].bookId != id ==> (bs[i].bookId in left <==> bs[i].bookId in all);
      }
      assert MapIds(next, left) == MapIds(bs, all);
    }
  }
}
