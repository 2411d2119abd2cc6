/** The lexicographic order on names and the sorted snapshot of the room.

    Rust orders `String`s byte by byte; on UTF-8 text that is the order of
    the characters' code points, with a proper prefix before its extensions,
    which is what `LexLess` states over Dafny's `char`. */
module Listing {

  /** Strict lexicographic order: a proper prefix comes first, otherwise the
      first differing character decides. */
  predicate LexLess(a: string, b: string): (r: bool)
    ensures a < b ==> r
    ensures |a| > 0 && |b| > 0 && a[0] < b[0] ==> r
    ensures |a| > 0 && |b| > 0 && a[0] > b[0] ==> !r
    decreases |a|
  {
    if |a| == 0 then |b| > 0
    else |b| > 0 && (a[0] < b[0] || (a[0] == b[0] && LexLess(a[1..], b[1..])))
  }

  /** `LexLess` is the usual lexicographic order: `a` is a proper prefix of
      `b`, or at the first position where they differ `a` has the smaller
      character. */
  lemma {:induction false} LexLessFirstDifference(a: string, b: string)
    ensures LexLess(a, b) <==> a < b || exists i :: 0 <= i < |a| && i < |b| && a[..i] == b[..i] && a[i] < b[i]
    decreases |a|
  {
    if |a| > 0 && |b| > 0 {
      var a', b' := a[1..], b[1..];
      assert a == [a[0]] + a' && b == [b[0]] + b';
      LexLessFirstDifference(a', b');
      if LexLess(a, b) {
        if a[0] < b[0] {
          assert a[..0] == b[..0];
        } else if !(a' < b') {
          var i :| 0 <= i < |a'| && i < |b'| && a'[..i] == b'[..i] && a'[i] < b'[i];
          assert a[..i + 1] == [a[0]] + a'[..i] && b[..i + 1] == [b[0]] + b'[..i];
          assert a[i + 1] == a'[i] && b[i + 1] == b'[i];
        }
      }
      if a < b {
        assert a[0] == b[0] && a' < b';
      } else if exists i :: 0 <= i < |a| && i < |b| && a[..i] == b[..i] && a[i] < b[i] {
        var i :| 0 <= i < |a| && i < |b| && a[..i] == b[..i] && a[i] < b[i];
        if i > 0 {
          assert a[0] == a[..i][0] == b[..i][0] == b[0];
          assert a'[..i - 1] == a[..i][1..] && b'[..i - 1] == b[..i][1..];
          assert a'[i - 1] == a[i] && b'[i - 1] == b[i];
        }
      }
    }
  }

  /** The `<=` by which `Vec::sort` orders the names: every prefix of `b`
      comes no later than `b`. */
  predicate LexLe(a: string, b: string): (r: bool)
    ensures a <= b ==> r
    ensures |a| > 0 && |b| > 0 && a[0] != b[0] ==> (r <==> a[0] < b[0])
  {
    a == b || LexLess(a, b)
  }

  lemma {:induction false} LexLessIrreflexive(a: string)
    ensures !LexLess(a, a)
    decreases |a|
  {
    if |a| > 0 {
      LexLessIrreflexive(a[1..]);
    }
  }

  lemma {:induction false} LexLessTransitive(a: string, b: string, c: string)
    requires LexLess(a, b) && LexLess(b, c)
    ensures LexLess(a, c)
    decreases |a|
  {
    if |a| > 0 && a[0] == b[0] && b[0] == c[0] {
      LexLessTransitive(a[1..], b[1..], c[1..]);
    }
  }

  lemma {:induction false} LexLessTotal(a: string, b: string)
    ensures a == b || LexLess(a, b) || LexLess(b, a)
    decreases |a|
  {
    if |a| > 0 && |b| > 0 && a[0] == b[0] {
      LexLessTotal(a[1..], b[1..]);
      assert a == [a[0]] + a[1..];
      assert b == [b[0]] + b[1..];
    }
  }

  /** `LexLe` is a total order: reflexive, antisymmetric, transitive and total. */
  lemma LexLeTotalOrder(a: string, b: string, c: string)
    ensures LexLe(a, a)
    ensures LexLe(a, b) && LexLe(b, a) ==> a == b
    ensures LexLe(a, b) && LexLe(b, c) ==> LexLe(a, c)
    ensures LexLe(a, b) || LexLe(b, a)
  {
    LexLessTotal(a, b);
    if LexLess(a, b) && LexLess(b, a) {
      LexLessTransitive(a, b, a);
      LexLessIrreflexive(a);
    }
    if LexLess(a, b) && LexLess(b, c) {
      LexLessTransitive(a, b, c);
    }
  }

  predicate Sorted(xs: seq<string>) {
    forall i, j | 0 <= i < j < |xs| :: LexLe(xs[i], xs[j])
  }

  predicate StrictlySorted(xs: seq<string>) {
    forall i, j | 0 <= i < j < |xs| :: LexLess(xs[i], xs[j])
  }

  lemma SortedCons(x: string, xs: seq<string>)
    requires Sorted(xs)
    requires forall y | y in xs :: LexLe(x, y)
    ensures Sorted([x] + xs)
  {
    forall i, j | 0 <= i < j < |[x] + xs| ensures LexLe(([x] + xs)[i], ([x] + xs)[j]) {
      assert ([x] + xs)[j] == xs[j - 1];
      if i > 0 {
        assert ([x] + xs)[i] == xs[i - 1];
      }
    }
  }

  lemma StrictlySortedCons(x: string, xs: seq<string>)
    requires StrictlySorted(xs)
    requires forall y | y in xs :: LexLess(x, y)
    ensures StrictlySorted([x] + xs)
  {
    forall i, j | 0 <= i < j < |[x] + xs| ensures LexLess(([x] + xs)[i], ([x] + xs)[j]) {
      assert ([x] + xs)[j] == xs[j - 1];
      if i > 0 {
        assert ([x] + xs)[i] == xs[i - 1];
      }
    }
  }

  /** Inserting `x` in front of a sorted list whose head is not below it keeps it sorted. */
  lemma InsertFront(x: string, xs: seq<string>)
    requires Sorted(xs) && |xs| > 0 && LexLe(x, xs[0])
    ensures Sorted([x] + xs)
  {
    forall y | y in xs ensures LexLe(x, y) {
      LexLeTotalOrder(x, xs[0], y);
    }
    SortedCons(x, xs);
  }

  /** Inserting `x` behind the head `xs[0]` of a sorted list when `xs[0]` is below `x`. */
  lemma InsertBehind(x: string, xs: seq<string>, rest: seq<string>)
    requires Sorted(xs) && |xs| > 0 && !LexLe(x, xs[0])
    requires Sorted(rest) && multiset(rest) == multiset(xs[1..]) + multiset{x}
    ensures Sorted([xs[0]] + rest)
  {
    LexLeTotalOrder(x, xs[0], x);
    forall y | y in rest ensures LexLe(xs[0], y) {
      assert y in multiset(rest);
      if y != x {
        assert y in xs[1..];
      }
    }
    SortedCons(xs[0], rest);
  }

  /** One step of insertion sort. */
  function Insert(x: string, xs: seq<string>): (r: seq<string>)
    requires Sorted(xs)
    ensures Sorted(r)
    ensures multiset(r) == multiset(xs) + multiset{x}
    decreases |xs|
  {
    if |xs| == 0 then [x]
    else if LexLe(x, xs[0]) then
      InsertFront(x, xs);
      [x] + xs
    else
      var rest := Insert(x, xs[1..]);
      InsertBehind(x, xs, rest);
      assert xs == [xs[0]] + xs[1..];
      [xs[0]] + rest
  }

  /** Stands for `Vec::sort` (src/room.rs:42, src/lib.rs:65): the result is
      ordered and holds exactly the input's elements. */
  function InsertionSort(xs: seq<string>): (r: seq<string>)
    ensures Sorted(r)
    ensures multiset(r) == multiset(xs)
    decreases |xs|
  {
    if |xs| == 0 then []
    else
      assert xs == [xs[0]] + xs[1..];
      Insert(xs[0], InsertionSort(xs[1..]))
  }

  /** Every finite non-empty set of names has a least element. */
  lemma {:induction false} LeastExists(s: set<string>)
    requires s != {}
    ensures exists m :: m in s && forall y | y in s :: LexLe(m, y)
    decreases |s|
  {
    var x :| x in s;
    if s == {x} {
      assert forall y | y in s :: y == x;
      assert LexLe(x, x);
    } else {
      LeastExists(s - {x});
      var m :| m in s - {x} && forall y | y in s - {x} :: LexLe(m, y);
      LexLeTotalOrder(m, x, m);
      if LexLe(m, x) {
        assert forall y | y in s :: LexLe(m, y);
      } else {
        forall y | y in s ensures LexLe(x, y) {
          if y != x {
            LexLeTotalOrder(x, m, y);
          }
        }
      }
    }
  }

  /** The room's names in ascending order: the one list that is strictly
      sorted and holds exactly the names of `s`. */
  ghost function SortedListing(s: set<string>): (r: seq<string>)
    ensures StrictlySorted(r)
    ensures forall x :: x in r <==> x in s
    decreases |s|
  {
    if s == {} then []
    else
      LeastExists(s);
      var m :| m in s && forall y | y in s :: LexLe(m, y);
      var rest := SortedListing(s - {m});
      assert forall y | y in rest :: LexLess(m, y);
      StrictlySortedCons(m, rest);
      [m] + rest
  }

  /** The head of a strictly sorted list is below all its other elements. */
  lemma HeadIsLeast(xs: seq<string>, y: string)
    requires StrictlySorted(xs) && y in xs
    ensures LexLe(xs[0], y)
  {
  }

  /** A set has only one strictly sorted listing. */
  lemma {:induction false} StrictListingUnique(a: seq<string>, b: seq<string>)
    requires StrictlySorted(a) && StrictlySorted(b)
    requires forall x :: x in a <==> x in b
    ensures a == b
    decreases |a|
  {
    assert a != [] ==> a[0] in b;
    assert b != [] ==> b[0] in a;
    if a != [] && b != [] {
      HeadIsLeast(a, b[0]);
      HeadIsLeast(b, a[0]);
      LexLeTotalOrder(a[0], b[0], a[0]);
      LexLessIrreflexive(a[0]);
      forall x ensures x in a[1..] <==> x in b[1..] {
        if x in a[1..] {
          assert x in a && x != a[0];
        }
        if x in b[1..] {
          assert x in b && x != b[0];
        }
      }
      StrictListingUnique(a[1..], b[1..]);
      assert a == [a[0]] + a[1..] && b == [b[0]] + b[1..];
    }
  }

  /** A sorted list holding each name of `s` exactly once is `SortedListing(s)`,
      whatever order the names were collected in before sorting. */
  lemma SortedIsListing(xs: seq<string>, s: set<string>)
    requires Sorted(xs) && multiset(xs) == multiset(s)
    ensures xs == SortedListing(s)
  {
    forall i, j | 0 <= i < j < |xs| ensures LexLess(xs[i], xs[j]) {
      assert xs == xs[..j] + xs[j..];
      assert xs[..j][i] == xs[i];
      assert xs[j..][0] == xs[j];
      assert multiset(xs)[xs[j]] == multiset(xs[..j])[xs[j]] + multiset(xs[j..])[xs[j]];
      assert xs[i] != xs[j];
    }
    forall x ensures x in xs <==> x in SortedListing(s) {
      assert x in xs <==> x in multiset(xs);
    }
    StrictListingUnique(xs, SortedListing(s));
  }

  /** `users.keys().cloned().collect()`: the names of `keys`, each once, in
      whatever order the map yields them. */
  method CollectNames(keys: set<string>) returns (xs: seq<string>)
    ensures multiset(xs) == multiset(keys)
  {
    xs := [];
    var rest := keys;
    while rest != {}
      invariant rest <= keys
      invariant multiset(xs) + multiset(rest) == multiset(keys)
      decreases rest
    {
      var k :| k in rest;
      assert rest == (rest - {k}) + {k};
      xs := xs + [k];
      rest := rest - {k};
    }
  }

  /** The collected names sorted: the same list whatever the map's iteration order. */
  method SortedNames(keys: set<string>) returns (xs: seq<string>)
    ensures xs == SortedListing(keys)
  {
    var collected := CollectNames(keys);
    xs := InsertionSort(collected);
    SortedIsListing(xs, keys);
  }
}
