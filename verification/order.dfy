/** The order JavaScript's default `Array.prototype.sort` puts strings in:
    character by character, a proper prefix before any extension of it.
    `Sort` returns the sorted permutation of its input; `SortedUnique` shows
    there is only one, so every correct sorting algorithm (the engine's
    among them) returns the same list. */
module StringOrder {

  /** `a` comes no later than `b`. */
  predicate Le(a: string, b: string)
    decreases |a|
  {
    |a| == 0 || (0 < |b| && (a[0] < b[0] || (a[0] == b[0] && Le(a[1..], b[1..]))))
  }

  lemma {:induction false} LeReflexive(a: string)
    ensures Le(a, a)
    decreases |a|
  {
    if |a| > 0 {
      LeReflexive(a[1..]);
    }
  }

  lemma {:induction false} LeTotal(a: string, b: string)
    ensures Le(a, b) || Le(b, a)
    decreases |a|
  {
    if |a| > 0 && |b| > 0 && a[0] == b[0] {
      LeTotal(a[1..], b[1..]);
    }
  }

  lemma {:induction false} LeAntisymmetric(a: string, b: string)
    requires Le(a, b) && Le(b, a)
    ensures a == b
    decreases |a|
  {
    if |a| > 0 {
      LeAntisymmetric(a[1..], b[1..]);
      assert a == [a[0]] + a[1..];
      assert b == [b[0]] + b[1..];
    }
  }

  lemma {:induction false} LeTransitive(a: string, b: string, c: string)
    requires Le(a, b) && Le(b, c)
    ensures Le(a, c)
    decreases |a|
  {
    if |a| > 0 && a[0] == b[0] && b[0] == c[0] {
      LeTransitive(a[1..], b[1..], c[1..]);
    }
  }

  predicate Sorted(s: seq<string>) {
    forall i, j | 0 <= i < j < |s| :: Le(s[i], s[j])
  }

  lemma SortedCons(h: string, t: seq<string>)
    requires Sorted(t)
    requires forall y | y in t :: Le(h, y)
    ensures Sorted([h] + t)
  {
    var s := [h] + t;
    forall i, j | 0 <= i < j < |s| ensures Le(s[i], s[j]) {
      if i > 0 {
        assert s[i] == t[i - 1] && s[j] == t[j - 1];
      } else {
        assert s[j] in t;
      }
    }
  }

  /** Inserts `x` into the sorted list `s` before the first element it does not follow. */
  function Insert(x: string, s: seq<string>): (r: seq<string>)
    requires Sorted(s)
    ensures Sorted(r)
    ensures multiset(r) == multiset(s) + multiset{x}
    decreases |s|
  {
    if |s| == 0 then [x]
    else if Le(x, s[0]) then
      assert forall y | y in s :: Le(x, y) by {
        forall y | y in s ensures Le(x, y) {
          var k :| 0 <= k < |s| && s[k] == y;
          if k > 0 {
            LeTransitive(x, s[0], s[k]);
          }
        }
      }
      SortedCons(x, s);
      [x] + s
    else
      var t := Insert(x, s[1..]);
      assert s == [s[0]] + s[1..];
      assert forall y | y in t :: Le(s[0], y) by {
        forall y | y in t ensures Le(s[0], y) {
          assert y in multiset(t);
          if y == x {
            LeTotal(x, s[0]);
          } else {
            assert y in multiset(s[1..]);
            var k :| 0 <= k < |s[1..]| && s[1..][k] == y;
            assert s[k + 1] == y;
          }
        }
      }
      SortedCons(s[0], t);
      [s[0]] + t
  }

  /** The list in ascending order, duplicates kept. */
  function Sort(s: seq<string>): (r: seq<string>)
    ensures Sorted(r)
    ensures multiset(r) == multiset(s)
    decreases |s|
  {
    if |s| == 0 then []
    else
      assert s == [s[0]] + s[1..];
      Insert(s[0], Sort(s[1..]))
  }

  /** A sorted list is determined by its elements and their multiplicities. */
  lemma {:induction false} SortedUnique(a: seq<string>, b: seq<string>)
    requires Sorted(a) && Sorted(b)
    requires multiset(a) == multiset(b)
    ensures a == b
    decreases |a|
  {
    if |a| == 0 {
      assert |b| == |multiset(b)| == 0;
    } else {
      SortedHeads(a, b);
      DropHead(a);
      DropHead(b);
      SortedUnique(a[1..], b[1..]);
      assert a == [a[0]] + a[1..];
      assert b == [b[0]] + b[1..];
    }
  }

  /** Two sorted lists with the same elements start with the same element. */
  lemma SortedHeads(a: seq<string>, b: seq<string>)
    requires Sorted(a) && Sorted(b)
    requires multiset(a) == multiset(b)
    requires |a| > 0
    ensures |b| > 0 && a[0] == b[0]
  {
    assert |b| == |multiset(b)| == |multiset(a)| == |a|;
    assert a[0] in multiset(b);
    var i :| 0 <= i < |b| && b[i] == a[0];
    assert b[0] in multiset(a);
    var j :| 0 <= j < |a| && a[j] == b[0];
    assert Le(b[0], a[0]) by {
      if i > 0 {
        assert Le(b[0], b[i]);
      } else {
        LeReflexive(b[0]);
      }
    }
    assert Le(a[0], b[0]) by {
      if j > 0 {
        assert Le(a[0], a[j]);
      } else {
        LeReflexive(a[0]);
      }
    }
    LeAntisymmetric(a[0], b[0]);
  }

  /** Dropping the first element of a sorted list leaves a sorted list
      holding the other elements. */
  lemma DropHead(a: seq<string>)
    requires Sorted(a) && |a| > 0
    ensures Sorted(a[1..])
    ensures multiset(a[1..]) == multiset(a) - multiset{a[0]}
  {
    assert a == [a[0]] + a[1..];
    assert multiset(a) == multiset{a[0]} + multiset(a[1..]);
  }

  /** Sorting depends only on the multiset of elements, not on their order. */
  lemma SortByMultiset(s: seq<string>, t: seq<string>)
    requires multiset(s) == multiset(t)
    ensures Sort(s) == Sort(t)
  {
    SortedUnique(Sort(s), Sort(t));
  }

  /** A list already in order is left as it is. */
  lemma SortSorted(s: seq<string>)
    requires Sorted(s)
    ensures Sort(s) == s
  {
    SortedUnique(Sort(s), s);
  }
}
