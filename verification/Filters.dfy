/** `Filter` of include/library.h and src/library.cpp: which fields of a book query are active. */
module Filters {
  import opened Books

  datatype Flag =
    | LOCAL | REMOTE | NOLOCAL | NOREMOTE | VALID | NOVALID | ACCEPTTAGS | REJECTTAGS
    | LANG | PUBLISHER | CREATOR | MAXSIZE | QUERY | NAME | CATEGORY | FLAVOUR

  /** The state of a filter. `active` is the set of bits of `activeFilters`. */
  datatype Settings = Settings(
    active: set<Flag>,
    acceptTags: seq<string>, rejectTags: seq<string>,
    category: string, lang: string, publisher: string, creator: string,
    maxSize: nat,
    query: string, queryIsPartial: bool,
    name: string, flavour: string)

  /** `Filter::accept` */
  predicate Accept(f: Settings, book: Book) {
    var local, valid, remote := book.path != "", book.pathValid, book.url != "";
    && (LOCAL in f.active ==> local) && (NOLOCAL in f.active ==> !local)
    && (VALID in f.active ==> valid) && (NOVALID in f.active ==> !valid)
    && (REMOTE in f.active ==> remote) && (NOREMOTE in f.active ==> !remote)
    && (MAXSIZE in f.active ==> book.size <= f.maxSize)
  }

  /** No opposite pair of flags is set at once. */
  ghost predicate Consistent(s: Settings) {
    && !(LOCAL in s.active && NOLOCAL in s.active)
    && !(REMOTE in s.active && NOREMOTE in s.active)
    && !(VALID in s.active && NOVALID in s.active)
  }

  /** Only a book with a path has a valid one. */
  predicate Plausible(book: Book) {
    book.pathValid ==> book.path != ""
  }

  /** A book of size 0 that the flags ask for. */
  function Wish(f: Settings): Book {
    Book("", "", "", "", "", "", "", "", "", "", "",
         if NOLOCAL in f.active then "" else "p", VALID in f.active,
         if NOREMOTE in f.active then "" else "u", 0, false)
  }

  /** Some plausible book is accepted exactly if no opposite pair is set, nor valid paths asked of
      books without one. */
  lemma AcceptsSomeIff(f: Settings)
    ensures (exists book :: Plausible(book) && Accept(f, book))
       <==> Consistent(f) && !(VALID in f.active && NOLOCAL in f.active)
  {
    if Consistent(f) && !(VALID in f.active && NOLOCAL in f.active) {
      assert Plausible(Wish(f)) && Accept(f, Wish(f));
    }
  }

  const NOTHING := Settings({}, [], [], "", "", "", "", 0, "", false, "", "")

  /** `s` without an earlier choice between two flags. */
  function Clear(s: Settings, one: Flag, other: Flag): Settings {
    s.(active := s.active - {one, other})
  }

  /** A filter whose fields the setters below update. */
  class Filter {
    var state: Settings

    ghost predicate Valid()
      reads this
    {
      Consistent(state)
    }

    constructor ()
      ensures Valid() && state == NOTHING
      ensures forall book: Book :: Accept(state, book)
    {
      state := NOTHING;
    }

    /** Whatever was chosen before: accepts what the other settings accept, if it is local or not
        as asked. */
    method Local(accept: bool)
      requires Valid()
      modifies this
      ensures Valid() && Clear(state, LOCAL, NOLOCAL) == Clear(old(state), LOCAL, NOLOCAL)
      ensures (LOCAL in state.active) == accept && (NOLOCAL in state.active) == !accept
      ensures forall book: Book ::
                Accept(state, book) <==> Accept(Clear(old(state), LOCAL, NOLOCAL), book) && (book.path != "") == accept
    {
      if accept {
        state := state.(active := state.active + {LOCAL} - {NOLOCAL});
      } else {
        state := state.(active := state.active + {NOLOCAL} - {LOCAL});
      }
      assert state.active - {LOCAL, NOLOCAL} == old(state).active - {LOCAL, NOLOCAL};
    }

    /** The same for books with a url. */
    method Remote(accept: bool)
      requires Valid()
      modifies this
      ensures Valid() && Clear(state, REMOTE, NOREMOTE) == Clear(old(state), REMOTE, NOREMOTE)
      ensures (REMOTE in state.active) == accept && (NOREMOTE in state.active) == !accept
      ensures forall book: Book ::
                Accept(state, book) <==> Accept(Clear(old(state), REMOTE, NOREMOTE), book) && (book.url != "") == accept
    {
      if accept {
        state := state.(active := state.active + {REMOTE} - {NOREMOTE});
      } else {
        state := state.(active := state.active + {NOREMOTE} - {REMOTE});
      }
      assert state.active - {REMOTE, NOREMOTE} == old(state).active - {REMOTE, NOREMOTE};
    }

    /** The same for books with a valid path (`valid` in the source). */
    method ValidPath(accept: bool)
      requires Valid()
      modifies this
      ensures Valid() && Clear(state, VALID, NOVALID) == Clear(old(state), VALID, NOVALID)
      ensures (VALID in state.active) == accept && (NOVALID in state.active) == !accept
      ensures forall book: Book ::
                Accept(state, book) <==> Accept(Clear(old(state), VALID, NOVALID), book) && book.pathValid == accept
    {
      if accept {
        state := state.(active := state.active + {VALID} - {NOVALID});
      } else {
        state := state.(active := state.active + {NOVALID} - {VALID});
      }
      assert state.active - {VALID, NOVALID} == old(state).active - {VALID, NOVALID};
    }

    method Name(name: string)
      requires Valid()
      modifies this
      ensures Valid()
      ensures state == old(state).(name := name, active := old(state).active + {NAME})
    {
      state := state.(name := name, active := state.active + {NAME});
    }

    method Query(query: string, partial: bool)
      requires Valid()
      modifies this
      ensures Valid()
      ensures state == old(state).(query := query, queryIsPartial := partial, active := old(state).active + {QUERY})
    {
      state := state.(query := query, queryIsPartial := partial, active := state.active + {QUERY});
    }

    /** Whatever bound there was: accepts what the other settings accept, up to this size. */
    method MaxSize(maxSize: nat)
      requires Valid()
      modifies this
      ensures Valid()
      ensures state == old(state).(maxSize := maxSize, active := old(state).active + {MAXSIZE})
      ensures forall book: Book ::
                Accept(state, book) <==> Accept(Clear(old(state), MAXSIZE, MAXSIZE), book) && book.size <= maxSize
    {
      state := state.(maxSize := maxSize, active := state.active + {MAXSIZE});
    }

    method Category(category: string)
      requires Valid()
      modifies this
      ensures Valid()
      ensures state == old(state).(category := category, active := old(state).active + {CATEGORY})
    {
      state := state.(category := category, active := state.active + {CATEGORY});
    }

    method Lang(lang: string)
      requires Valid()
      modifies this
      ensures Valid()
      ensures state == old(state).(lang := lang, active := old(state).active + {LANG})
    {
      state := state.(lang := lang, active := state.active + {LANG});
    }

    method AcceptTags(tags: seq<string>)
      requires Valid()
      modifies this
      ensures Valid()
      ensures state == old(state).(acceptTags := tags, active := old(state).active + {ACCEPTTAGS})
    {
      state := state.(acceptTags := tags, active := state.active + {ACCEPTTAGS});
    }

    method RejectTags(tags: seq<string>)
      requires Valid()
      modifies this
      ensures Valid()
      ensures state == old(state).(rejectTags := tags, active := old(state).active + {REJECTTAGS})
    {
      state := state.(rejectTags := tags, active := state.active + {REJECTTAGS});
    }
  }
}
