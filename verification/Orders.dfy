/**
 * Sorted listings of finite sets. Every list the modelled code sorts (change entries,
 * current rows, correlation aggregates, event rows) holds distinct elements under a strict
 * total order, so "the sorted array" is the one listing this module pins down.
 */
module Orders {

  ghost predicate StrictTotal<T(!new)>(less: (T, T) -> bool, es: set<T>) {
    && (forall a | a in es :: !less(a, a))
    && (forall a, b, c | a in es && b in es && c in es && less(a, b) && less(b, c) :: less(a, c))
    && (forall a, b | a in es && b in es && a != b :: less(a, b) || less(b, a))
  }

  ghost predicate Ascending<T>(s: seq<T>, less: (T, T) -> bool) {
    forall i, j | 0 <= i < j < |s| :: less(s[i], s[j])
  }

  lemma AscendingAt<T>(s: seq<T>, less: (T, T) -> bool, i: int, j: int)
    ensures Ascending(s, less) && 0 <= i < j < |s| ==> less(s[i], s[j])
  {
  }

  lemma FirstIsMember<T>(s: seq<T>)
    ensures s == [] || s[0] in s
  {
  }

  lemma TakeMember<T>(s: seq<T>, n: int, i: int)
    ensures 0 <= i < n <= |s| ==> s[i] in s[..n]
  {
    if 0 <= i < n <= |s| { assert s[i] == s[..n][i]; }
  }

  /** `s` lists exactly the elements of `es`, in increasing order. */
  ghost predicate Lists<T(!new)>(s: seq<T>, es: set<T>, less: (T, T) -> bool) {
    && Ascending(s, less)
    && (forall e :: e in s <==> e in es)
  }

  predicate Least<T(==, !new)>(m: T, es: set<T>, less: (T, T) -> bool) {
    m in es && forall e | e in es && e != m :: less(m, e)
  }

  lemma {:induction false} LeastExists<T(!new)>(es: set<T>, less: (T, T) -> bool)
    requires es != {} && StrictTotal(less, es)
    ensures exists m :: Least(m, es, less)
    decreases |es|
  {
    var x :| x in es;
    var others := es - {x};
    if others == {} {
      assert es == {x};
      assert Least(x, es, less);
    } else {
      LeastExists(others, less);
      var m :| Least(m, others, less);
      if less(x, m) {
        forall e | e in es && e != x ensures less(x, e) { assert e in others; }
        assert Least(x, es, less);
      } else {
        assert Least(m, es, less);
      }
    }
  }

  /**
   * Sorting, by repeatedly taking a least remaining element. With a comparison that is not a
   * strict total order the result is still a permutation, in no particular order.
   */
  method Sort<T(==, !new)>(es: set<T>, less: (T, T) -> bool) returns (s: seq<T>)
    ensures forall e :: e in s <==> e in es
    ensures |s| == |es|
    ensures forall i, j | 0 <= i < j < |s| :: s[i] != s[j]
    ensures StrictTotal(less, es) ==> Lists(s, es, less)
  {
    s := [];
    var rest := es;
    while rest != {}
      invariant rest <= es
      invariant |s| + |rest| == |es|
      invariant forall e :: e in s <==> e in es && e !in rest
      invariant forall i, j | 0 <= i < j < |s| :: s[i] != s[j]
      invariant StrictTotal(less, es) ==> Ascending(s, less)
      invariant StrictTotal(less, es) ==> forall a, b | a in s && b in rest :: less(a, b)
      decreases |rest|
    {
      var m := TakeNext(rest, less);
      ghost var before := rest;
      if StrictTotal(less, es) { assert StrictTotal(less, rest); }
      s := s + [m];
      rest := rest - {m};
      assert forall b | b in rest :: b in before && b != m;
    }
  }

  method TakeNext<T(==, !new)>(rest: set<T>, less: (T, T) -> bool) returns (m: T)
    requires rest != {}
    ensures m in rest
    ensures StrictTotal(less, rest) ==> Least(m, rest, less)
  {
    m :| m in rest;
    if exists l | l in rest :: Least(l, rest, less) {
      m :| m in rest && Least(m, rest, less);
    } else if StrictTotal(less, rest) {
      LeastExists(rest, less);
    }
  }

  /** The sorted listing of a set. */
  ghost function Sorted<T(!new)>(es: set<T>, less: (T, T) -> bool): (s: seq<T>)
    requires StrictTotal(less, es)
    decreases |es|
  {
    if es == {} then []
    else
      LeastExists(es, less);
      var m :| Least(m, es, less);
      [m] + Sorted(es - {m}, less)
  }

  lemma {:induction false} SortedLists<T(!new)>(es: set<T>, less: (T, T) -> bool)
    requires StrictTotal(less, es)
    ensures Lists(Sorted(es, less), es, less)
    ensures |Sorted(es, less)| == |es|
    decreases |es|
  {
    if es != {} {
      LeastExists(es, less);
      var s := Sorted(es, less);
      var m := s[0];
      assert Least(m, es, less) && s == [m] + Sorted(es - {m}, less);
      SortedLists(es - {m}, less);
      assert forall e | e in Sorted(es - {m}, less) :: e in es - {m};
    }
  }

  /** A set has only one sorted listing. */
  lemma {:induction false} ListingUnique<T(!new)>(s: seq<T>, t: seq<T>, es: set<T>, less: (T, T) -> bool)
    requires StrictTotal(less, es) && Lists(s, es, less) && Lists(t, es, less)
    ensures s == t
    decreases |s|
  {
    if es == {} {
      FirstIsMember(s);
      FirstIsMember(t);
    } else {
      var x :| x in es;
      assert x in s && x in t;
      assert s[0] in es && t[0] in es;
      assert s[0] in t && t[0] in s;
      assert s[0] == t[0];
      TailLists(s, es, less);
      TailLists(t, es, less);
      ListingUnique(s[1..], t[1..], es - {s[0]}, less);
      assert s == [s[0]] + s[1..] && t == [t[0]] + t[1..];
    }
  }

  lemma TailLists<T(!new)>(s: seq<T>, es: set<T>, less: (T, T) -> bool)
    requires s != [] && StrictTotal(less, es) && Lists(s, es, less)
    ensures Lists(s[1..], es - {s[0]}, less)
  {
    forall e | e in s[1..] ensures e in es - {s[0]} {
      var i :| 0 <= i < |s[1..]| && s[1..][i] == e;
      assert less(s[0], s[i + 1]);
      assert e in s;
    }
    forall e | e in es - {s[0]} ensures e in s[1..] {
      assert e in s;
      var i :| 0 <= i < |s| && s[i] == e;
      assert e == s[1..][i - 1];
    }
  }

  /** A listing never repeats an element, so its length is the size of the set. */
  lemma ListingLength<T(!new)>(s: seq<T>, es: set<T>, less: (T, T) -> bool)
    requires StrictTotal(less, es) && Lists(s, es, less)
    ensures |s| == |es|
  {
    SortedLists(es, less);
    ListingUnique(s, Sorted(es, less), es, less);
  }

  /** Cutting a listing after its n-th element lists exactly what comes later in the order. */
  lemma CutLists<T(!new)>(s: seq<T>, es: set<T>, less: (T, T) -> bool, n: nat)
    requires StrictTotal(less, es) && Lists(s, es, less) && 0 < n <= |s|
    ensures Lists(s[n..], (set e | e in es && less(s[n - 1], e)), less)
  {
    var later := set e | e in es && less(s[n - 1], e);
    forall e | e in s[n..] ensures e in later {
      var i :| 0 <= i < |s[n..]| && s[n..][i] == e;
      assert less(s[n - 1], s[n + i]) && e in s;
    }
    forall e | e in later ensures e in s[n..] {
      assert e in s && s[n - 1] in s;
      var i :| 0 <= i < |s| && s[i] == e;
      AscendingAt(s, less, i, n - 1);
      assert e == s[n..][i - n];
    }
  }

  /** The elements before a given one. */
  function Below<T>(es: set<T>, less: (T, T) -> bool, e: T): set<T> {
    set f | f in es && less(f, e)
  }

  /** An element's place in a listing is the number of elements before it in the order. */
  lemma RankIsPlace<T(!new)>(s: seq<T>, es: set<T>, less: (T, T) -> bool, i: nat)
    requires StrictTotal(less, es) && Lists(s, es, less) && i < |s|
    ensures |Below(es, less, s[i])| == i
  {
    var earlier := Below(es, less, s[i]);
    forall f ensures f in s[..i] <==> f in earlier {
      if f in s[..i] {
        var j :| 0 <= j < i && s[..i][j] == f;
        assert s[j] in s;
        AscendingAt(s, less, j, i);
      }
      if f in earlier {
        assert f in s && s[i] in s;
        var j :| 0 <= j < |s| && s[j] == f;
        AscendingAt(s, less, i, j);
        TakeMember(s, i, j);
      }
    }
    forall j, k | 0 <= j < k < i ensures less(s[..i][j], s[..i][k]) { AscendingAt(s, less, j, k); }
    ListingLength(s[..i], earlier, less);
  }

  /**
   * Listing a subset gives the same first `n` elements as listing the whole set, as soon as
   * every element left out comes after the n-th element listed.
   */
  lemma PrefixOfSubset<T(!new)>(es: set<T>, sub: set<T>, less: (T, T) -> bool, n: nat)
    requires StrictTotal(less, es) && sub <= es
    requires n <= |Sorted(sub, less)|
    requires n > 0 ==> forall e | e in es - sub :: less(Sorted(sub, less)[n - 1], e)
    ensures StrictTotal(less, sub) && n <= |Sorted(es, less)|
    ensures Sorted(sub, less)[..n] == Sorted(es, less)[..n]
  {
    SortedLists(sub, less);
    var head := Sorted(sub, less)[..n];
    HeadBeforeRest(es, sub, Sorted(sub, less), less, n);
    HeadListed(es, head, less);
  }

  /** An ascending list of elements that come before all the others starts the listing. */
  lemma HeadListed<T(!new)>(es: set<T>, head: seq<T>, less: (T, T) -> bool)
    requires StrictTotal(less, es) && Ascending(head, less)
    requires forall e | e in head :: e in es
    requires forall i, b | 0 <= i < |head| && b in es && b !in head :: less(head[i], b)
    ensures head <= Sorted(es, less)
  {
    var rest := set e | e in es && e !in head;
    SortedLists(es, less);
    SortedLists(rest, less);
    Join(head, Sorted(rest, less), less);
    ListingUnique(head + Sorted(rest, less), Sorted(es, less), es, less);
  }

  lemma HeadBeforeRest<T(!new)>(es: set<T>, sub: set<T>, s: seq<T>, less: (T, T) -> bool, n: nat)
    requires StrictTotal(less, es) && sub <= es && n <= |s| && Lists(s, sub, less)
    requires n > 0 ==> forall e | e in es - sub :: less(s[n - 1], e)
    ensures forall i, b | 0 <= i < n && b in es && b !in s[..n] :: less(s[i], b)
  {
    forall i, b | 0 <= i < n && b in es && b !in s[..n] ensures less(s[i], b) {
      if b in sub {
        assert b in s;
        var j :| 0 <= j < |s| && s[j] == b;
        TakeMember(s, n, j);
      } else {
        assert b in es - sub && s[i] in s && s[n - 1] in s;
        AscendingAt(s, less, i, n - 1);
      }
    }
  }

  lemma Join<T>(s: seq<T>, t: seq<T>, less: (T, T) -> bool)
    requires Ascending(s, less) && Ascending(t, less)
    requires forall i, b | 0 <= i < |s| && b in t :: less(s[i], b)
    ensures Ascending(s + t, less)
  {
    forall i, j | 0 <= i < j < |s + t| ensures less((s + t)[i], (s + t)[j]) {
      if i < |s| <= j {
        assert t[j - |s|] in t;
      }
    }
  }

  lemma {:induction false} SubsetSize<T>(a: set<T>, b: set<T>)
    requires a <= b
    ensures |a| <= |b|
    decreases |a|
  {
    if a != {} {
      var x :| x in a;
      SubsetSize(a - {x}, b - {x});
    }
  }

  /** Strict order on strings by code unit, as the comparison operator of the source language. */
  predicate StringLess(a: string, b: string) {
    if b == [] then false
    else if a == [] then true
    else if a[0] != b[0] then a[0] < b[0]
    else StringLess(a[1..], b[1..])
  }

  /** The strings agree up to place i, and there the first ends or has the smaller code unit. */
  ghost predicate PrecedesAt(a: string, b: string, i: nat) {
    && i <= |a| && i < |b| && a[..i] == b[..i]
    && (i == |a| || a[i] < b[i])
  }

  /** Lexicographic order: a shorter string before its extensions, else the smaller code unit first. */
  ghost predicate Precedes(a: string, b: string) {
    exists i :: PrecedesAt(a, b, i)
  }

  lemma {:induction false} StringLessMeaning(a: string, b: string)
    ensures StringLess(a, b) <==> Precedes(a, b)
  {
    if b != [] && (a == [] || a[0] < b[0]) {
      assert PrecedesAt(a, b, 0);
    } else if b != [] && a[0] == b[0] {
      StringLessMeaning(a[1..], b[1..]);
      if Precedes(a[1..], b[1..]) {
        var i :| PrecedesAt(a[1..], b[1..], i);
        LongerBy(a, b, i);
      }
      if i: nat :| PrecedesAt(a, b, i) { ShorterBy(a, b, i); }
    }
  }

  lemma LongerBy(a: string, b: string, i: nat)
    requires a != [] && b != [] && a[0] == b[0] && PrecedesAt(a[1..], b[1..], i)
    ensures PrecedesAt(a, b, i + 1)
  {
    assert a[..i + 1] == [a[0]] + a[1..][..i] && b[..i + 1] == [b[0]] + b[1..][..i];
  }

  lemma ShorterBy(a: string, b: string, i: nat)
    requires a != [] && b != [] && a[0] == b[0] && PrecedesAt(a, b, i)
    ensures i > 0 && PrecedesAt(a[1..], b[1..], i - 1)
  {
    assert a[1..][..i - 1] == a[..i][1..] && b[1..][..i - 1] == b[..i][1..];
  }

  lemma {:induction false} StringTrichotomy(a: string, b: string)
    ensures !StringLess(a, a)
    ensures a != b ==> StringLess(a, b) != StringLess(b, a)
  {
    if a != [] { StringTrichotomy(a[1..], a[1..]); }
    if a != [] && b != [] && a[0] == b[0] {
      StringTrichotomy(a[1..], b[1..]);
      assert a == [a[0]] + a[1..] && b == [b[0]] + b[1..];
    }
  }

  lemma {:induction false} StringTransitive(a: string, b: string, c: string)
    requires StringLess(a, b) && StringLess(b, c)
    ensures StringLess(a, c)
  {
    if a != [] && a[0] == b[0] && b[0] == c[0] {
      StringTransitive(a[1..], b[1..], c[1..]);
    }
  }

  lemma StringLessTotal(es: set<string>)
    ensures StrictTotal(StringLess, es)
  {
    forall a | a in es ensures !StringLess(a, a) { StringTrichotomy(a, a); }
    forall a, b | a in es && b in es && a != b ensures StringLess(a, b) || StringLess(b, a) { StringTrichotomy(a, b); }
    forall a, b, c | a in es && b in es && c in es && StringLess(a, b) && StringLess(b, c) ensures StringLess(a, c) {
      StringTransitive(a, b, c);
    }
  }
}
