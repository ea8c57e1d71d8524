/** Ordered views of finite sets and sequences of numbers (`std::set` iteration, `std::sort`). */
module Collections {
  datatype Option<T> = None | Some(value: T)

  function Elements<T>(s: seq<T>): set<T> {
    set x | x in s
  }

  lemma ElementsSnoc<T>(s: seq<T>, x: T)
    ensures Elements(s + [x]) == Elements(s) + {x}
  {
    assert forall y :: y in s + [x] <==> y in s || y == x;
  }

  ghost predicate NoDuplicates(s: seq<nat>) {
    forall i, j | 0 <= i < j < |s| :: s[i] != s[j]
  }

  function Zeros(n: nat): (z: seq<nat>)
    ensures |z| == n && forall i | 0 <= i < n :: z[i] == 0
  {
    seq(n, _ => 0)
  }

  lemma {:induction false} SubsetSize<T>(a: set<T>, b: set<T>)
    requires a <= b
    ensures |a| <= |b|
  {
    assert b == a + (b - a);
  }

  lemma SameSize<T>(a: set<T>, b: set<T>)
    requires a <= b && |a| == |b|
    ensures a == b
  {
    assert b == a + (b - a);
  }

  lemma {:induction false} DistinctSize(s: seq<nat>)
    requires NoDuplicates(s)
    ensures |Elements(s)| == |s|
  {
    if s != [] {
      var k := |s| - 1;
      DistinctSize(s[..k]);
      assert s == s[..k] + [s[k]];
      assert s[k] !in s[..k];
      assert Elements(s) == Elements(s[..k]) + {s[k]};
    }
  }

  /** A permutation of a sequence without repetitions has none. */
  lemma DistinctPermutation(s: seq<nat>, r: seq<nat>)
    requires multiset(s) == multiset(r) && NoDuplicates(r)
    ensures NoDuplicates(s)
  {
    forall i, j | 0 <= i < j < |s| ensures s[i] != s[j] {
      if s[i] == s[j] {
        assert s == s[..j] + [s[j]] + s[j + 1..] && s[i] in s[..j];
        assert multiset(s)[s[i]] >= 2;
        AtMostOnce(r, s[i]);
      }
    }
  }

  lemma {:induction false} AtMostOnce(r: seq<nat>, x: nat)
    requires NoDuplicates(r)
    ensures multiset(r)[x] <= 1
  {
    if r != [] {
      var init, last := r[..|r| - 1], r[|r| - 1];
      AtMostOnce(init, x);
      assert r == init + [last];
      assert last !in multiset(init);
    }
  }

  predicate Sorted(s: seq<nat>) {
    forall i, j | 0 <= i < j < |s| :: s[i] <= s[j]
  }

  predicate StrictlySorted(s: seq<nat>) {
    forall i, j | 0 <= i < j < |s| :: s[i] < s[j]
  }

  function InsertSorted(x: nat, s: seq<nat>): (r: seq<nat>)
    requires Sorted(s)
    ensures Sorted(r) && |r| == |s| + 1
    ensures forall i | 0 <= i < |r| :: r[i] == x || r[i] in s
  {
    if s == [] || x <= s[0] then [x] + s else
      [s[0]] + InsertSorted(x, s[1..])
  }

  lemma {:induction false} InsertSortedPermutes(x: nat, s: seq<nat>)
    requires Sorted(s)
    ensures multiset(InsertSorted(x, s)) == multiset(s) + multiset{x}
  {
    if !(s == [] || x <= s[0]) {
      InsertSortedPermutes(x, s[1..]);
      assert s == [s[0]] + s[1..];
    }
  }

  lemma SplitHead(s: seq<nat>)
    requires s != []
    ensures multiset(s) == multiset(s[1..]) + multiset{s[0]}
  {
    assert s == [s[0]] + s[1..];
  }

  /** `std::sort` of a vector of numbers: the sorted permutation is unique. */
  function Sort(s: seq<nat>): (r: seq<nat>)
    ensures Sorted(r) && multiset(r) == multiset(s)
  {
    if s == [] then [] else
      var rest := Sort(s[1..]);
      InsertSortedPermutes(s[0], rest);
      SplitHead(s);
      InsertSorted(s[0], rest)
  }

  lemma SameElements(s: seq<nat>, r: seq<nat>)
    requires multiset(s) == multiset(r)
    ensures Elements(s) == Elements(r) && |s| == |r|
  {
    assert forall x :: x in s <==> x in multiset(s);
    assert forall x :: x in r <==> x in multiset(r);
    assert |multiset(s)| == |s| && |multiset(r)| == |r|;
  }

  predicate IsLeast(m: nat, s: set<nat>) {
    m in s && forall x | x in s :: m <= x
  }

  lemma {:induction false} HasMinimum(s: set<nat>) returns (m: nat)
    requires s != {}
    ensures IsLeast(m, s)
  {
    m :| m in s;
    var t := s - {m};
    if t != {} {
      var k := HasMinimum(t);
      m := LesserOf(s, m, k);
    } else {
      forall x | x in s ensures m <= x {
        assert x == m || x in t;
      }
    }
  }

  lemma LesserOf(s: set<nat>, y: nat, k: nat) returns (m: nat)
    requires y in s && IsLeast(k, s - {y})
    ensures IsLeast(m, s)
  {
    m := if k < y then k else y;
    forall x | x in s ensures m <= x {
      assert x == y || x in s - {y};
    }
  }

  function Minimum(s: set<nat>): (m: nat)
    requires s != {}
    ensures m in s && forall x | x in s :: m <= x
  {
    assert exists m :: m in s && IsLeast(m, s) by { var m := HasMinimum(s); }
    var m :| m in s && IsLeast(m, s);
    m
  }

  lemma SortedCons(m: nat, rest: seq<nat>)
    requires StrictlySorted(rest) && forall x | x in rest :: m < x
    ensures StrictlySorted([m] + rest)
  {
    var s := [m] + rest;
    forall i, j | 0 <= i < j < |s| ensures s[i] < s[j] {
      assert s[j] == rest[j - 1] && rest[j - 1] in rest;
    }
  }

  /** The order in which a `std::set` of numbers is iterated. */
  function Ascending(s: set<nat>): (r: seq<nat>)
    ensures |r| == |s| && forall x :: x in r <==> x in s
    ensures StrictlySorted(r)
  {
    if s == {} then [] else
      var m := Minimum(s);
      var rest := Ascending(s - {m});
      SortedCons(m, rest);
      [m] + rest
  }
}
