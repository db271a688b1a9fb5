/** A stable sort over a comparator, as `Array.prototype.sort` is required to
    be: the result is a permutation of the input, ordered by the comparator,
    and elements the comparator ties keep their input order. */
module Sorting {
  import Seqs

  /** `le` is total and transitive: what a consistent sort comparator induces. */
  ghost predicate TotalPreorder<T(!new)>(le: (T, T) -> bool) {
    && (forall a, b :: le(a, b) || le(b, a))
    && (forall a, b, c :: le(a, b) && le(b, c) ==> le(a, c))
  }

  ghost predicate SortedBy<T>(le: (T, T) -> bool, s: seq<T>) {
    forall i, j :: 0 <= i < j < |s| ==> le(s[i], s[j])
  }

  /** The elements `le` ties with `x`. */
  function TiedWith<T>(le: (T, T) -> bool, x: T): T -> bool {
    y => le(x, y) && le(y, x)
  }

  /** Every group of tied elements appears in `r` in the same order as in `s`. */
  ghost predicate StableFrom<T(!new)>(le: (T, T) -> bool, s: seq<T>, r: seq<T>) {
    forall x :: Seqs.Filter(r, TiedWith(le, x)) == Seqs.Filter(s, TiedWith(le, x))
  }

  /** Puts `x` in front of the first element it does not exceed. */
  function Insert<T>(le: (T, T) -> bool, x: T, s: seq<T>): (r: seq<T>)
    ensures multiset(r) == multiset(s) + multiset{x}
  {
    if s == [] || le(x, s[0]) then [x] + s
    else
      assert s == [s[0]] + s[1..];
      [s[0]] + Insert(le, x, s[1..])
  }

  /** Insertion sort: each element goes in front of its ties from later in the input. */
  function SortBy<T>(le: (T, T) -> bool, s: seq<T>): (r: seq<T>)
    ensures multiset(r) == multiset(s)
  {
    if s == [] then []
    else
      assert s == [s[0]] + s[1..];
      Insert(le, s[0], SortBy(le, s[1..]))
  }

  lemma {:induction false} InsertSorted<T(!new)>(le: (T, T) -> bool, x: T, s: seq<T>)
    requires TotalPreorder(le) && SortedBy(le, s)
    ensures SortedBy(le, Insert(le, x, s))
  {
    if s != [] && !le(x, s[0]) {
      assert le(s[0], x);
      var t := Insert(le, x, s[1..]);
      InsertSorted(le, x, s[1..]);
      forall i | 0 <= i < |t|
        ensures le(s[0], t[i])
      {
        assert t[i] in multiset(t);
        if t[i] != x {
          assert t[i] in multiset(s[1..]);
          var k :| 0 <= k < |s[1..]| && s[1..][k] == t[i];
          assert s[k + 1] == t[i];
        }
      }
      assert Insert(le, x, s) == [s[0]] + t;
    } else if s != [] {
      assert forall j :: 0 < j < |s| ==> le(s[0], s[j]);
    }
  }

  lemma {:induction false} SortByIsSorted<T(!new)>(le: (T, T) -> bool, s: seq<T>)
    requires TotalPreorder(le)
    ensures SortedBy(le, SortBy(le, s))
  {
    if s != [] {
      SortByIsSorted(le, s[1..]);
      InsertSorted(le, s[0], SortBy(le, s[1..]));
    }
  }

  /** An element strictly below `y` is never tied with the same element as `y`. */
  lemma BelowIsNotTied<T(!new)>(le: (T, T) -> bool, x: T, y: T, c: T)
    requires TotalPreorder(le) && !le(x, y)
    ensures !(TiedWith(le, c)(x) && TiedWith(le, c)(y))
  {
  }

  lemma {:induction false} InsertStable<T(!new)>(le: (T, T) -> bool, x: T, s: seq<T>, c: T)
    requires TotalPreorder(le) && SortedBy(le, s)
    ensures Seqs.Filter(Insert(le, x, s), TiedWith(le, c)) == Seqs.Filter([x] + s, TiedWith(le, c))
  {
    if s != [] && !le(x, s[0]) {
      var tied := TiedWith(le, c);
      var rest := s[1..];
      assert SortedBy(le, rest);
      InsertStable(le, x, rest, c);
      BelowIsNotTied(le, x, s[0], c);
      assert s == [s[0]] + rest;
      Seqs.FilterCons(s[0], Insert(le, x, rest), tied);
      Seqs.FilterCons(x, rest, tied);
      Seqs.FilterCons(s[0], rest, tied);
      Seqs.FilterCons(x, s, tied);
      if tied(x) {
        assert !tied(s[0]);
      } else if tied(s[0]) {
        assert !tied(x);
      }
    }
  }

  lemma {:induction false} SortByStable<T(!new)>(le: (T, T) -> bool, s: seq<T>, c: T)
    requires TotalPreorder(le)
    ensures Seqs.Filter(SortBy(le, s), TiedWith(le, c)) == Seqs.Filter(s, TiedWith(le, c))
  {
    if s != [] {
      var tied := TiedWith(le, c);
      var sorted := SortBy(le, s[1..]);
      SortByStable(le, s[1..], c);
      SortByIsSorted(le, s[1..]);
      InsertStable(le, s[0], sorted, c);
      Seqs.FilterCons(s[0], sorted, tied);
      Seqs.FilterCons(s[0], s[1..], tied);
      assert [s[0]] + s[1..] == s;
    }
  }

  /** `SortBy` under a total preorder is a stable sort. */
  lemma SortByCorrect<T(!new)>(le: (T, T) -> bool, s: seq<T>)
    requires TotalPreorder(le)
    ensures multiset(SortBy(le, s)) == multiset(s)
    ensures SortedBy(le, SortBy(le, s))
    ensures StableFrom(le, s, SortBy(le, s))
  {
    SortByIsSorted(le, s);
    forall c {
      SortByStable(le, s, c);
    }
  }

  /** An input already in order is left exactly as it is, so sorting twice is sorting once. */
  lemma {:induction false} SortBySortedIsIdentity<T>(le: (T, T) -> bool, s: seq<T>)
    requires SortedBy(le, s)
    ensures SortBy(le, s) == s
  {
    if s != [] {
      SortBySortedIsIdentity(le, s[1..]);
      assert [s[0]] + s[1..] == s;
    }
  }
}
