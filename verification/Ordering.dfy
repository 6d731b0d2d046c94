/** Strict total orders, sorting under them, and the order of record identifiers. */
module Ordering {

  type Byte = b: int | 0 <= b < 256
  type Bytes = seq<Byte>

  /** A caller-supplied identifier: a byte string, compared as std::string compares. */
  type RecordId = Bytes

  ghost predicate StrictTotal<T(!new)>(less: (T, T) -> bool) {
    && (forall a :: !less(a, a))
    && (forall a, b, c :: less(a, b) && less(b, c) ==> less(a, c))
    && (forall a, b :: a == b || less(a, b) || less(b, a))
  }

  /** No element is smaller than one before it. */
  ghost predicate Sorted<T>(s: seq<T>, less: (T, T) -> bool) {
    forall i, j | 0 <= i < j < |s| :: !less(s[j], s[i])
  }

  /** Strictly increasing, hence without duplicates. */
  ghost predicate Ascending<T>(s: seq<T>, less: (T, T) -> bool) {
    forall i, j | 0 <= i < j < |s| :: less(s[i], s[j])
  }

  predicate Distinct<T(==)>(s: seq<T>) {
    forall i, j | 0 <= i < j < |s| :: s[i] != s[j]
  }

  function Elements<T>(s: seq<T>): set<T> { set x | x in s }

  /** Walking through a list without duplicates meets a new element at every step. */
  lemma ElementsStep<T>(s: seq<T>, i: nat)
    requires Distinct(s) && i < |s|
    ensures Elements(s[..i + 1]) == Elements(s[..i]) + {s[i]} && s[i] !in Elements(s[..i])
  {
    assert s[..i + 1] == s[..i] + [s[i]];
  }

  lemma ElementsEnds<T>(s: seq<T>)
    ensures Elements(s[..0]) == {} && s[..|s|] == s
  {
  }

  /** The total size of the members of a list. */
  function Tally<T>(s: seq<T>, size: T -> nat): nat {
    if s == [] then 0 else size(s[0]) + Tally(s[1..], size)
  }

  lemma {:induction false} TallyWithout<T>(s: seq<T>, k: nat, size: T -> nat)
    requires k < |s|
    ensures Tally(s, size) == size(s[k]) + Tally(s[..k] + s[k + 1..], size)
  {
    if k == 0 {
      assert s[..0] + s[1..] == s[1..];
    } else {
      TallyWithout(s[1..], k - 1, size);
      assert (s[..k] + s[k + 1..])[1..] == s[1..][..k - 1] + s[1..][k..];
    }
  }

  /** A list without duplicates adds up to no more than a list that holds all of it. */
  lemma {:induction false} TallyWithin<T>(a: seq<T>, b: seq<T>, size: T -> nat)
    requires Distinct(a) && forall x | x in a :: x in b
    ensures Tally(a, size) <= Tally(b, size)
    decreases |a|
  {
    if a != [] {
      assert a[0] in b;
      var k :| 0 <= k < |b| && b[k] == a[0];
      TallyWithout(b, k, size);
      forall x | x in a[1..] ensures x in b[..k] + b[k + 1..] {
        assert x in a && x != a[0];
        var i :| 0 <= i < |b| && b[i] == x;
        assert if i < k then (b[..k] + b[k + 1..])[i] == x else (b[..k] + b[k + 1..])[i - 1] == x;
      }
      TallyWithin(a[1..], b[..k] + b[k + 1..], size);
    }
  }

  /** Equal sizes of the members give equal totals. */
  lemma {:induction false} SameTally<T>(s: seq<T>, size: T -> nat, other: T -> nat)
    requires forall x | x in s :: size(x) == other(x)
    ensures Tally(s, size) == Tally(s, other)
  {
    if s != [] { SameTally(s[1..], size, other); }
  }

  /** `r` lists the members of `S` once each, in increasing order. */
  ghost predicate Enumerates<T(!new)>(r: seq<T>, S: set<T>, less: (T, T) -> bool) {
    && Ascending(r, less)
    && forall x :: x in r <==> x in S
  }

  // ---------------------------------------------------------------- sorting

  function Insert<T(!new)>(x: T, s: seq<T>, less: (T, T) -> bool): (r: seq<T>)
    requires StrictTotal(less) && Sorted(s, less)
    ensures Sorted(r, less)
    ensures multiset(r) == multiset(s) + multiset{x}
  {
    if s == [] || !less(s[0], x) then
      assert forall i | 0 <= i < |s| :: !less(s[i], x);
      assert ([x] + s)[1..] == s;
      [x] + s
    else
      var rest := Insert(x, s[1..], less);
      assert s == [s[0]] + s[1..];
      InsertHead(s[0], rest, s[1..], x, less);
      [s[0]] + rest
  }

  lemma InsertHead<T(!new)>(head: T, rest: seq<T>, tail: seq<T>, x: T, less: (T, T) -> bool)
    requires StrictTotal(less) && Sorted(rest, less) && Sorted([head] + tail, less)
    requires multiset(rest) == multiset(tail) + multiset{x} && less(head, x)
    ensures Sorted([head] + rest, less)
  {
    forall j | 0 <= j < |rest| ensures !less(rest[j], head) {
      assert rest[j] in multiset(rest);
      if rest[j] == x {
        assert less(x, head) ==> less(head, head);
      } else {
        assert rest[j] in multiset(tail);
        var k :| 0 <= k < |tail| && tail[k] == rest[j];
        assert ([head] + tail)[k + 1] == rest[j] && ([head] + tail)[0] == head;
      }
    }
  }

  /** The effect of std::sort under a strict total order. */
  function Sort<T(!new)>(s: seq<T>, less: (T, T) -> bool): (r: seq<T>)
    requires StrictTotal(less)
    ensures Sorted(r, less)
    ensures multiset(r) == multiset(s)
    ensures |r| == |s|
  {
    if s == [] then
      []
    else
      assert s == [s[0]] + s[1..];
      var r := Insert(s[0], Sort(s[1..], less), less);
      assert |multiset(r)| == |r| && |multiset(s)| == |s|;
      r
  }

  lemma SortMembers<T(!new)>(s: seq<T>, less: (T, T) -> bool)
    requires StrictTotal(less)
    ensures forall x :: x in Sort(s, less) <==> x in s
  {
    var r := Sort(s, less);
    forall x ensures x in r <==> x in s {
      assert x in r <==> x in multiset(r);
      assert x in s <==> x in multiset(s);
    }
  }

  /** Sorting a list without duplicates gives a strictly increasing one. */
  lemma SortDistinct<T(!new)>(s: seq<T>, less: (T, T) -> bool)
    requires StrictTotal(less) && Distinct(s)
    ensures Ascending(Sort(s, less), less)
    ensures Distinct(Sort(s, less))
  {
    var r := Sort(s, less);
    DistinctCounts(s);
    forall i, j | 0 <= i < j < |r| ensures r[i] != r[j] && less(r[i], r[j]) {
      if r[i] == r[j] {
        RepeatCounts(r, i, j);
        assert false;
      }
    }
  }

  lemma RepeatCounts<T>(s: seq<T>, i: nat, j: nat)
    requires i < j < |s| && s[i] == s[j]
    ensures multiset(s)[s[i]] >= 2
  {
    assert s == s[..i] + [s[i]] + s[i + 1..j] + [s[j]] + s[j + 1..];
  }

  lemma {:induction false} DistinctCounts<T>(s: seq<T>)
    requires Distinct(s)
    ensures forall x :: multiset(s)[x] <= 1
  {
    if s != [] {
      DistinctCounts(s[1..]);
      assert s == [s[0]] + s[1..];
      assert s[0] !in s[1..];
    }
  }

  lemma AscendingDistinct<T(!new)>(s: seq<T>, less: (T, T) -> bool)
    requires StrictTotal(less) && Ascending(s, less)
    ensures Distinct(s) && Sorted(s, less)
  {
  }

  /** A set has only one increasing enumeration. */
  lemma {:induction false} EnumerationUnique<T(!new)>(a: seq<T>, b: seq<T>, less: (T, T) -> bool)
    requires StrictTotal(less) && Ascending(a, less) && Ascending(b, less)
    requires forall x :: x in a <==> x in b
    ensures a == b
    decreases |a|
  {
    if a == [] {
      assert forall i | 0 <= i < |b| :: b[i] in a;
    } else {
      assert a[0] in b && b[0] in a;
      assert a[0] == b[0];
      var a', b' := a[1..], b[1..];
      forall x ensures x in a' <==> x in b' {
        AscendingTail(a, x, less);
        AscendingTail(b, x, less);
      }
      EnumerationUnique(a', b', less);
      assert a == [a[0]] + a' && b == [b[0]] + b';
    }
  }

  lemma AscendingTail<T(!new)>(s: seq<T>, x: T, less: (T, T) -> bool)
    requires StrictTotal(less) && Ascending(s, less) && s != []
    ensures x in s[1..] <==> x in s && x != s[0]
  {
    assert s == [s[0]] + s[1..];
    if x in s[1..] {
      var i :| 0 <= i < |s[1..]| && s[1..][i] == x;
      assert s[i + 1] == x && less(s[0], s[i + 1]);
    }
  }

  /** Every finite non-empty set has a least element. */
  lemma {:induction false} LeastExists<T(!new)>(S: set<T>, less: (T, T) -> bool)
    requires StrictTotal(less) && S != {}
    ensures exists m :: m in S && forall y | y in S :: y == m || less(m, y)
    decreases |S|
  {
    var m :| m in S;
    var rest := S - {m};
    assert forall y | y in S :: y == m || y in rest;
    if rest == {} {
      assert IsLeast(m, S, less);
    } else {
      LeastExists(rest, less);
      var r :| r in rest && forall y | y in rest :: y == r || less(r, y);
      if less(r, m) {
        assert forall y | y in S :: y == m || y in rest;
        assert IsLeast(r, S, less);
      } else {
        forall y | y in S ensures y == m || less(m, y) {
          assert y == m || y == r || less(r, y);
        }
        assert IsLeast(m, S, less);
      }
    }
  }

  ghost predicate IsLeast<T(!new)>(m: T, S: set<T>, less: (T, T) -> bool) {
    m in S && forall y | y in S :: y == m || less(m, y)
  }

  /** The increasing enumeration of a set: the iteration order of std::map and std::set. */
  function Enumerate<T(!new)>(S: set<T>, less: (T, T) -> bool): (r: seq<T>)
    requires StrictTotal(less)
    ensures Enumerates(r, S, less)
    ensures |r| == |S|
    decreases |S|
  {
    if S == {} then
      []
    else
      var m := Least(S, less);
      var rest := Enumerate(S - {m}, less);
      assert forall i | 0 <= i < |rest| :: rest[i] in S - {m};
      assert forall x :: x in [m] + rest <==> x == m || x in rest;
      [m] + rest
  }

  function Least<T(!new)>(S: set<T>, less: (T, T) -> bool): (m: T)
    requires StrictTotal(less) && S != {}
    ensures m in S && forall y | y in S :: y == m || less(m, y)
  {
    LeastExists(S, less);
    var m :| m in S && forall y | y in S :: y == m || less(m, y);
    m
  }
}
