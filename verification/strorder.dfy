/**
 * Python's ordering of `str` values and `sorted()` of a set of strings: the order the
 * schema constructor uses to list unexpected keyword arguments deterministically.
 */
module StrOrder {

  /** `a <= b` on Python strings: code point by code point, a proper prefix first. */
  predicate Below(a: string, b: string)
    decreases |a|
  {
    |a| == 0 || (|b| > 0 && (a[0] < b[0] || (a[0] == b[0] && Below(a[1..], b[1..]))))
  }

  lemma {:induction false} BelowReflexive(a: string)
    ensures Below(a, a)
    decreases |a|
  {
    if |a| > 0 {
      BelowReflexive(a[1..]);
    }
  }

  lemma {:induction false} BelowAntisymmetric(a: string, b: string)
    requires Below(a, b) && Below(b, a)
    ensures a == b
    decreases |a|
  {
    if |a| > 0 {
      BelowAntisymmetric(a[1..], b[1..]);
      assert a == [a[0]] + a[1..] && b == [b[0]] + b[1..];
    }
  }

  lemma {:induction false} BelowTransitive(a: string, b: string, c: string)
    requires Below(a, b) && Below(b, c)
    ensures Below(a, c)
    decreases |a|
  {
    if |a| > 0 && a[0] == b[0] && b[0] == c[0] {
      BelowTransitive(a[1..], b[1..], c[1..]);
    }
  }

  lemma {:induction false} BelowTotal(a: string, b: string)
    ensures Below(a, b) || Below(b, a)
    decreases |a|
  {
    if |a| > 0 && |b| > 0 && a[0] == b[0] {
      BelowTotal(a[1..], b[1..]);
    }
  }

  /** `m` is the least element of `s`. */
  predicate IsLeast(m: string, s: set<string>) {
    m in s && forall x :: x in s ==> Below(m, x)
  }

  /** Every finite non-empty set of strings has a least element. */
  lemma {:induction false} LeastExists(s: set<string>)
    requires s != {}
    ensures exists m :: IsLeast(m, s)
    decreases |s|
  {
    var x :| x in s;
    if s == {x} {
      BelowReflexive(x);
      assert IsLeast(x, s);
    } else {
      LeastExists(s - {x});
      var m :| IsLeast(m, s - {x});
      BelowTotal(m, x);
      if Below(m, x) {
        assert IsLeast(m, s);
      } else {
        forall y | y in s
          ensures Below(x, y)
        {
          if y == x {
            BelowReflexive(x);
          } else {
            BelowTransitive(x, m, y);
          }
        }
        assert IsLeast(x, s);
      }
    }
  }

  /** Two least elements of a set are the same string. */
  lemma LeastUnique(s: set<string>)
    ensures forall m, n :: IsLeast(m, s) && IsLeast(n, s) ==> m == n
  {
    forall m, n | IsLeast(m, s) && IsLeast(n, s)
      ensures m == n
    {
      BelowAntisymmetric(m, n);
    }
  }

  /** Ascending without repetition. */
  predicate StrictlyAscending(r: seq<string>) {
    forall i, j :: 0 <= i < j < |r| ==> Below(r[i], r[j]) && r[i] != r[j]
  }

  /** `sorted(s)` for a set of strings: its elements, each once, in ascending order. */
  function Sorted(s: set<string>): (r: seq<string>)
    ensures |r| == |s|
    ensures forall x :: x in r <==> x in s
    ensures StrictlyAscending(r)
    decreases |s|
  {
    if s == {} then []
    else
      LeastExists(s);
      LeastUnique(s);
      var m :| IsLeast(m, s);
      var rest := Sorted(s - {m});
      ConsAscending(m, rest);
      [m] + rest
  }

  /** A string below every element of an ascending sequence, and not in it, can be put in front. */
  lemma ConsAscending(m: string, rest: seq<string>)
    requires StrictlyAscending(rest)
    requires forall x :: x in rest ==> Below(m, x) && x != m
    ensures StrictlyAscending([m] + rest)
  {
    var r := [m] + rest;
    forall i, j | 0 <= i < j < |r|
      ensures Below(r[i], r[j]) && r[i] != r[j]
    {
      assert r[j] == rest[j - 1];
      if i > 0 {
        assert r[i] == rest[i - 1];
      }
    }
  }

  /** The head of a strictly ascending sequence is the least of its elements. */
  lemma HeadIsLeast(r: seq<string>, s: set<string>)
    requires |r| > 0 && StrictlyAscending(r)
    requires forall x :: x in r <==> x in s
    ensures IsLeast(r[0], s)
  {
    forall x | x in s
      ensures Below(r[0], x)
    {
      var k :| 0 <= k < |r| && r[k] == x;
      if k == 0 {
        BelowReflexive(r[0]);
      }
    }
  }

  /** The tail of a strictly ascending sequence holds the other elements. */
  lemma TailElements(r: seq<string>, s: set<string>)
    requires |r| > 0 && StrictlyAscending(r)
    requires forall x :: x in r <==> x in s
    ensures StrictlyAscending(r[1..])
    ensures forall x :: x in r[1..] <==> x in s - {r[0]}
  {
    var tail := r[1..];
    forall i, j | 0 <= i < j < |tail|
      ensures Below(tail[i], tail[j]) && tail[i] != tail[j]
    {
      assert tail[i] == r[i + 1] && tail[j] == r[j + 1];
    }
    forall x
      ensures x in tail <==> x in s - {r[0]}
    {
      if x in tail {
        var k :| 0 <= k < |tail| && tail[k] == x;
        assert r[k + 1] == x;
      }
      if x in s - {r[0]} {
        var k :| 0 <= k < |r| && r[k] == x;
        assert tail[k - 1] == x;
      }
    }
  }

  /** A set whose elements are those of an empty sequence is empty. */
  lemma NothingListed(r: seq<string>, s: set<string>)
    requires |r| == 0 && forall x :: x in r <==> x in s
    ensures s == {}
  {
  }

  /** The sorted listing of a non-empty set starts with its least element. */
  lemma SortedCons(s: set<string>, m: string)
    requires IsLeast(m, s)
    ensures Sorted(s) == [m] + Sorted(s - {m})
  {
    LeastExists(s);
    LeastUnique(s);
  }

  /** A strictly ascending sequence is the sorted listing of its own elements: `Sorted` has no other result. */
  lemma {:induction false} SortedUnique(r: seq<string>, s: set<string>)
    requires StrictlyAscending(r)
    requires forall x :: x in r <==> x in s
    ensures Sorted(s) == r
    decreases |r|
  {
    if |r| == 0 {
      NothingListed(r, s);
    } else {
      var m := r[0];
      assert Sorted(s) == [m] + Sorted(s - {m}) by {
        HeadIsLeast(r, s);
        SortedCons(s, m);
      }
      assert Sorted(s - {m}) == r[1..] by {
        TailElements(r, s);
        SortedUnique(r[1..], s - {m});
      }
      assert r == [m] + r[1..];
    }
  }
}
