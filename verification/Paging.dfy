/** Reading a list page by page, each page resuming where the previous one ended. */
module Paging {
  import opened Wrappers

  /** One page: some elements and, when there are more, the cursor to continue with. */
  datatype Served<T, C> = Served(items: seq<T>, next: Option<C>)

  /** Everything a reader receives from page i on, and whether it was told that there is no more. */
  ghost function Collect<T, C>(serve: (int, C) -> Served<T, C>, pages: nat, i: nat, c: C): (seq<T>, bool)
    requires i <= pages
    decreases pages - i
  {
    if i == pages then ([], false)
    else
      var page := serve(i, c);
      if page.next.None? then (page.items, true)
      else
        var rest := Collect(serve, pages, i + 1, page.next.value);
        (page.items + rest.0, rest.1)
  }

  /** Page j takes at most ns[j] of the elements owed at a cursor, and its own cursor owes the rest. */
  ghost predicate Resumes<T(!new), C(!new)>(
    serve: (int, C) -> Served<T, C>, owed: C -> seq<T>, valid: C -> bool, ns: seq<nat>) {
    forall j, c | 0 <= j < |ns| && valid(c) :: ResumesAt(serve(j, c), owed, valid, ns[j], c)
  }

  ghost predicate ResumesAt<T, C>(page: Served<T, C>, owed: C -> seq<T>, valid: C -> bool, n: nat, c: C) {
    if |owed(c)| <= n then page == Served(owed(c), None)
    else
      && page.items == owed(c)[..n]
      && page.next.Some? && valid(page.next.value) && owed(page.next.value) == owed(c)[n..]
  }

  /**
   * Pages of any positive sizes give the first elements of the list owed, all of them once the
   * reader is told so, which takes no more pages than there are elements (or one).
   */
  lemma {:induction false} PagesPartition<T(!new), C(!new)>(
    serve: (int, C) -> Served<T, C>, owed: C -> seq<T>, valid: C -> bool, ns: seq<nat>, i: nat, c: C)
    requires Resumes(serve, owed, valid, ns) && valid(c) && i <= |ns|
    requires forall j | 0 <= j < |ns| :: ns[j] > 0
    ensures Collect(serve, |ns|, i, c).0 <= owed(c)
    ensures Collect(serve, |ns|, i, c).1 ==> Collect(serve, |ns|, i, c).0 == owed(c)
    ensures |ns| > i && |ns| - i >= |owed(c)| ==> Collect(serve, |ns|, i, c).1
    decreases |ns| - i
  {
    if i < |ns| {
      var page, n, all := serve(i, c), ns[i], owed(c);
      assert ResumesAt(page, owed, valid, n, c);
      if |all| > n {
        PagesPartition(serve, owed, valid, ns, i + 1, page.next.value);
        PrefixExtends(all, n, Collect(serve, |ns|, i + 1, page.next.value).0);
      }
    }
  }

  lemma PrefixExtends<T>(all: seq<T>, n: nat, more: seq<T>)
    requires n <= |all| && more <= all[n..]
    ensures all[..n] + more <= all
    ensures more == all[n..] ==> all[..n] + more == all
  {
  }

  // ---------- Pages as they were read ----------

  /** The elements of all pages from page i on. */
  function JoinedFrom<T, C>(pages: seq<Served<T, C>>, i: nat): seq<T>
    requires i <= |pages|
    decreases |pages| - i
  {
    if i == |pages| then [] else pages[i].items + JoinedFrom(pages, i + 1)
  }

  /** The elements of all pages. */
  function Joined<T, C>(pages: seq<Served<T, C>>): seq<T> {
    JoinedFrom(pages, 0)
  }

  lemma {:induction false} JoinedSnocFrom<T, C>(pages: seq<Served<T, C>>, page: Served<T, C>, i: nat)
    requires i <= |pages|
    ensures JoinedFrom(pages + [page], i) == JoinedFrom(pages, i) + page.items
    decreases |pages| - i
  {
    if i < |pages| {
      JoinedSnocFrom(pages, page, i + 1);
      Associate(pages[i].items, JoinedFrom(pages, i + 1), page.items);
    } else {
      assert JoinedFrom(pages + [page], i + 1) == [];
    }
  }

  lemma JoinedSnoc<T, C>(pages: seq<Served<T, C>>, page: Served<T, C>)
    ensures Joined(pages + [page]) == Joined(pages) + page.items
  {
    JoinedSnocFrom(pages, page, 0);
  }

  lemma Associate<T>(a: seq<T>, b: seq<T>, c: seq<T>)
    ensures a + (b + c) == (a + b) + c
  {
  }

  /** Page j was served for cursor cs[j], and each cursor is the one the page before gave. */
  ghost predicate Follows<T, C>(serve: (int, C) -> Served<T, C>, cs: seq<C>, pages: seq<Served<T, C>>) {
    && |cs| == |pages|
    && (forall j | 0 <= j < |pages| :: pages[j] == serve(j, cs[j]))
    && (forall j | 0 < j < |pages| :: pages[j - 1].next == Some(cs[j]))
  }

  /** Pages followed to the last one are what there is to collect. */
  lemma {:induction false} FollowedPages<T, C>(
    serve: (int, C) -> Served<T, C>, cs: seq<C>, pages: seq<Served<T, C>>, i: nat)
    requires Follows(serve, cs, pages) && i < |pages| && pages[|pages| - 1].next == None
    ensures Collect(serve, |pages|, i, cs[i]) == (JoinedFrom(pages, i), true)
    decreases |pages| - i
  {
    if i < |pages| - 1 {
      FollowedPages(serve, cs, pages, i + 1);
    } else {
      assert JoinedFrom(pages, i + 1) == [];
      assert pages[i].items + [] == pages[i].items;
    }
  }

  lemma AllPages<T, C>(serve: (int, C) -> Served<T, C>, cs: seq<C>, pages: seq<Served<T, C>>)
    requires Follows(serve, cs, pages) && pages != [] && pages[|pages| - 1].next == None
    ensures Collect(serve, |pages|, 0, cs[0]) == (Joined(pages), true)
  {
    FollowedPages(serve, cs, pages, 0);
  }
}
