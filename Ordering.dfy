/**
 * What Python's `sorted` does to a set: the elements listed once each in
 * ascending order. A generic part, over any total order, and the two orders
 * the query builder uses: Python's string order and its tuple order.
 */
module Ordering {

  /** `le` is a total order: reflexive, antisymmetric, transitive and total. */
  ghost predicate IsTotalOrder<T(!new)>(le: (T, T) -> bool) {
    && (forall a :: le(a, a))
    && (forall a, b :: le(a, b) && le(b, a) ==> a == b)
    && (forall a, b, c :: le(a, b) && le(b, c) ==> le(a, c))
    && (forall a, b :: le(a, b) || le(b, a))
  }

  /** Ascending with no element listed twice. */
  ghost predicate StrictlyAscending<T>(xs: seq<T>, le: (T, T) -> bool) {
    forall i, j :: 0 <= i < j < |xs| ==> le(xs[i], xs[j]) && xs[i] != xs[j]
  }

  /** `m` is below every element of `s`. */
  predicate IsLeast<T>(m: T, s: set<T>, le: (T, T) -> bool) {
    forall x :: x in s ==> le(m, x)
  }

  /** Every non-empty finite set has a least element. */
  lemma {:induction false} LeastExists<T(!new)>(s: set<T>, le: (T, T) -> bool)
    requires s != {} && IsTotalOrder(le)
    ensures exists m :: m in s && IsLeast(m, s, le)
    decreases s
  {
    var y :| y in s;
    var rest := s - {y};
    if rest == {} {
      assert IsLeast(y, s, le) by {
        forall x | x in s ensures le(y, x) {
          assert x !in rest;
        }
      }
    } else {
      LeastExists(rest, le);
      var m :| m in rest && IsLeast(m, rest, le);
      if le(m, y) {
        assert IsLeast(m, s, le) by {
          forall x | x in s ensures le(m, x) {
            if x != y {
              assert x in rest;
            }
          }
        }
      } else {
        assert IsLeast(y, s, le) by {
          forall x | x in s ensures le(y, x) {
            if x != y {
              assert le(m, x) && le(y, m);
            }
          }
        }
      }
    }
  }

  /** The least element of a non-empty set; it is unique because `le` is antisymmetric. */
  function Least<T(!new)>(s: set<T>, le: (T, T) -> bool): (m: T)
    requires s != {} && IsTotalOrder(le)
    ensures m in s
    ensures forall x :: x in s ==> le(m, x)
  {
    LeastExists(s, le);
    var m :| m in s && IsLeast(m, s, le);
    m
  }

  /** `sorted(s)` for a set `s`: its elements in ascending order, each once. */
  function SortedSet<T(!new)>(s: set<T>, le: (T, T) -> bool): (xs: seq<T>)
    requires IsTotalOrder(le)
    ensures |xs| == |s|
    ensures forall x :: x in xs <==> x in s
    ensures StrictlyAscending(xs, le)
    decreases s
  {
    if s == {} then
      []
    else
      var m := Least(s, le);
      var rest := SortedSet(s - {m}, le);
      assert forall k :: 1 <= k < 1 + |rest| ==> ([m] + rest)[k] == rest[k - 1];
      [m] + rest
  }

  /** The first element of an ascending sequence is its least. */
  lemma HeadIsLeast<T(!new)>(xs: seq<T>, le: (T, T) -> bool)
    requires IsTotalOrder(le) && StrictlyAscending(xs, le) && xs != []
    ensures forall x :: x in xs ==> le(xs[0], x)
  {
  }

  /**
   * A set has only one strictly ascending listing: whatever order its
   * elements were found in, `sorted` gives the same sequence.
   */
  lemma {:induction false} AscendingListingUnique<T(!new)>(xs: seq<T>, ys: seq<T>, le: (T, T) -> bool)
    requires IsTotalOrder(le)
    requires StrictlyAscending(xs, le) && StrictlyAscending(ys, le)
    requires forall x :: x in xs <==> x in ys
    ensures xs == ys
    decreases |xs|
  {
    if xs != [] {
      assert xs[0] in xs;
    }
    if ys != [] {
      assert ys[0] in ys;
    }
    if xs != [] && ys != [] {
      HeadIsLeast(xs, le);
      HeadIsLeast(ys, le);
      assert xs[0] in xs && ys[0] in ys;
      forall x ensures x in xs[1..] <==> x in ys[1..] {
        if x in xs[1..] {
          var i :| 1 <= i < |xs| && xs[i] == x;
          assert x != xs[0];
          assert x in ys;
          var j :| 0 <= j < |ys| && ys[j] == x;
          assert ys[1..][j - 1] == x;
        }
        if x in ys[1..] {
          var j :| 1 <= j < |ys| && ys[j] == x;
          assert x != ys[0];
          assert x in xs;
          var i :| 0 <= i < |xs| && xs[i] == x;
          assert xs[1..][i - 1] == x;
        }
      }
      AscendingListingUnique(xs[1..], ys[1..], le);
      assert xs == [xs[0]] + xs[1..];
      assert ys == [ys[0]] + ys[1..];
    }
  }

  /** Python's `<=` on strings: lexicographic by character code, a proper prefix first. */
  predicate StrLe(a: string, b: string) {
    if |a| == 0 then true
    else if |b| == 0 then false
    else if a[0] != b[0] then a[0] < b[0]
    else StrLe(a[1..], b[1..])
  }

  lemma {:induction false} StrLeReflexive(a: string)
    ensures StrLe(a, a)
    decreases |a|
  {
    if |a| > 0 {
      StrLeReflexive(a[1..]);
    }
  }

  lemma {:induction false} StrLeAntisymmetric(a: string, b: string)
    requires StrLe(a, b) && StrLe(b, a)
    ensures a == b
    decreases |a|
  {
    if |a| > 0 && |b| > 0 {
      StrLeAntisymmetric(a[1..], b[1..]);
      assert a == [a[0]] + a[1..];
      assert b == [b[0]] + b[1..];
    }
  }

  lemma {:induction false} StrLeTransitive(a: string, b: string, c: string)
    requires StrLe(a, b) && StrLe(b, c)
    ensures StrLe(a, c)
    decreases |a|
  {
    if |a| > 0 && |b| > 0 && |c| > 0 && a[0] == b[0] == c[0] {
      StrLeTransitive(a[1..], b[1..], c[1..]);
    }
  }

  lemma {:induction false} StrLeTotal(a: string, b: string)
    ensures StrLe(a, b) || StrLe(b, a)
    decreases |a|
  {
    if |a| > 0 && |b| > 0 && a[0] == b[0] {
      StrLeTotal(a[1..], b[1..]);
    }
  }

  /** Python's string comparison is a total order. */
  lemma StrLeIsTotalOrder()
    ensures IsTotalOrder(StrLe)
  {
    forall a {
      StrLeReflexive(a);
    }
    forall a, b | StrLe(a, b) && StrLe(b, a) {
      StrLeAntisymmetric(a, b);
    }
    forall a, b, c | StrLe(a, b) && StrLe(b, c) {
      StrLeTransitive(a, b, c);
    }
    forall a, b {
      StrLeTotal(a, b);
    }
  }

  /** Python's `<=` on (trace, span) tuples: by trace, then by span. */
  predicate PairLe(p: (string, string), q: (string, string)) {
    if p.0 == q.0 then StrLe(p.1, q.1) else StrLe(p.0, q.0)
  }

  /** Python's tuple comparison on string pairs is a total order. */
  lemma PairLeIsTotalOrder()
    ensures IsTotalOrder(PairLe)
  {
    StrLeIsTotalOrder();
    forall p: (string, string), q: (string, string) | PairLe(p, q) && PairLe(q, p)
      ensures p == q
    {
      if p.0 != q.0 {
        StrLeAntisymmetric(p.0, q.0);
      }
    }
    forall p: (string, string), q: (string, string), r: (string, string) | PairLe(p, q) && PairLe(q, r)
      ensures PairLe(p, r)
    {
      if p.0 == r.0 && p.0 != q.0 {
        StrLeAntisymmetric(p.0, q.0);
      }
    }
  }
}
