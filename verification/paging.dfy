/**
 * The pager (`exhaust`): call a state-synced function repeatedly, yielding the items of
 * each truthy result in turn, until a call returns a falsy result.
 *
 * The function's successive results are the sequence `pages` (call `n` returns
 * `pages[n]`), Python truthiness is the predicate `truthy`, iterating a result is
 * `iter`, and the optional `transform` replaces that iteration when given.
 */
module Paging {
  import opened Wrappers

  /** The items one truthy result contributes: `transform(page)` when given, else the page's own items. */
  function Expand<P, T>(page: P, iter: P -> seq<T>, transform: Option<P -> seq<T>>): seq<T> {
    match transform
    case Some(t) => t(page)
    case None => iter(page)
  }

  /** Some call returns a falsy result, so the pager stops. */
  ghost predicate Stops<P>(pages: seq<P>, truthy: P -> bool) {
    exists i :: 0 <= i < |pages| && !truthy(pages[i])
  }

  /** The index of the first falsy result: the call after which the pager stops. */
  function FirstFalsy<P>(pages: seq<P>, truthy: P -> bool): (r: nat)
    requires Stops(pages, truthy)
    ensures r < |pages| && !truthy(pages[r])
    ensures forall j :: 0 <= j < r ==> truthy(pages[j])
    decreases |pages|
  {
    if !truthy(pages[0]) then 0
    else
      var i :| 0 <= i < |pages| && !truthy(pages[i]);
      assert pages[1..][i - 1] == pages[i];
      var r := FirstFalsy(pages[1..], truthy);
      assert forall j :: 1 <= j < r + 1 ==> pages[j] == pages[1..][j - 1];
      r + 1
  }

  /** The items of `pages`, each page expanded, in order. */
  function Concat<P, T>(pages: seq<P>, iter: P -> seq<T>, transform: Option<P -> seq<T>>): seq<T>
    decreases |pages|
  {
    if |pages| == 0 then []
    else Concat(pages[..|pages| - 1], iter, transform) + Expand(pages[|pages| - 1], iter, transform)
  }

  /**
   * The generator run to completion: the items it yields and the number of calls it makes.
   * Every result before the first falsy one is expanded in order; the falsy one ends it.
   */
  method Exhaust<P, T>(pages: seq<P>, truthy: P -> bool, iter: P -> seq<T>, transform: Option<P -> seq<T>>)
    returns (items: seq<T>, calls: nat)
    requires Stops(pages, truthy)
    ensures 0 < calls <= |pages| && !truthy(pages[calls - 1])
    ensures forall j :: 0 <= j < calls - 1 ==> truthy(pages[j])
    ensures items == Concat(pages[..calls - 1], iter, transform)
  {
    items := [];
    calls := 0;
    ghost var stop := FirstFalsy(pages, truthy);
    while true
      invariant calls <= stop
      invariant items == Concat(pages[..calls], iter, transform)
      decreases stop - calls
    {
      var page := pages[calls];
      calls := calls + 1;
      if truthy(page) {
        assert pages[..calls][..calls - 1] == pages[..calls - 1];
        items := items + Expand(page, iter, transform);
      } else {
        break;
      }
    }
  }

  /** Concatenating the expansions of two runs of pages. */
  lemma {:induction false} ConcatAppend<P, T>(a: seq<P>, b: seq<P>, iter: P -> seq<T>, transform: Option<P -> seq<T>>)
    ensures Concat(a + b, iter, transform) == Concat(a, iter, transform) + Concat(b, iter, transform)
    decreases |b|
  {
    if |b| > 0 {
      var b' := b[..|b| - 1];
      assert (a + b)[..|a + b| - 1] == a + b';
      ConcatAppend(a, b', iter, transform);
    } else {
      assert a + b == a;
    }
  }

  /** Whatever the function would return after the first falsy result is never requested. */
  lemma LaterPagesIgnored<P>(pages: seq<P>, more: seq<P>, truthy: P -> bool)
    requires Stops(pages, truthy)
    ensures Stops(pages + more, truthy)
    ensures FirstFalsy(pages + more, truthy) == FirstFalsy(pages, truthy)
  {
    var r := FirstFalsy(pages, truthy);
    assert (pages + more)[r] == pages[r];
    assert forall j :: 0 <= j < r ==> (pages + more)[j] == pages[j];
  }

  /** A page that is truthy but yields nothing does not stop the pager. */
  lemma EmptyTruthyPageContinues<P, T>(pages: seq<P>, truthy: P -> bool, iter: P -> seq<T>, transform: Option<P -> seq<T>>, p: P)
    requires truthy(p) && Expand(p, iter, transform) == [] && Stops(pages, truthy)
    ensures Stops([p] + pages, truthy)
    ensures FirstFalsy([p] + pages, truthy) == FirstFalsy(pages, truthy) + 1
    ensures Concat(([p] + pages)[..FirstFalsy([p] + pages, truthy)], iter, transform) ==
            Concat(pages[..FirstFalsy(pages, truthy)], iter, transform)
  {
    var s := [p] + pages;
    var r := FirstFalsy(pages, truthy);
    assert s[r + 1] == pages[r];
    assert s[1..] == pages;
    assert s[..r + 1] == [p] + pages[..r];
    ConcatAppend([p], pages[..r], iter, transform);
    assert [p][..0] == [];
  }

  /** Three calls returning `[1, 2]`, `[3]` and `[]`: the pager yields 1, 2, 3 and stops after the third. */
  lemma ListPagesExample()
    ensures
      var pages := [[1, 2], [3], []];
      var truthy := (p: seq<int>) => |p| > 0;
      var iter := (p: seq<int>) => p;
      Stops(pages, truthy) && FirstFalsy(pages, truthy) == 2 &&
      Concat(pages[..2], iter, None) == [1, 2, 3]
  {
    var pages := [[1, 2], [3], []];
    var truthy := (p: seq<int>) => |p| > 0;
    var iter := (p: seq<int>) => p;
    assert !truthy(pages[2]);
    assert pages[..2][..1] == [[1, 2]];
    assert [[1, 2]][..0] == [];
  }

  /** A dictionary result, as its entries in iteration order. */
  type Entries = seq<(string, int)>

  /** Iterating a dictionary result by value: the first entry's value, then the rest's. */
  function EntryValues(p: Entries): (r: seq<int>)
    ensures |r| == |p| && forall i :: 0 <= i < |p| ==> r[i] == p[i].1
    decreases |p|
  {
    if |p| == 0 then []
    else [p[0].1] + EntryValues(p[1..])
  }

  /** A dictionary is truthy when it has an entry. */
  predicate NonEmpty(p: Entries) {
    |p| > 0
  }

  /**
   * Results `{"x": 1, "y": 2}` then `{}` with a transform that iterates by value: the
   * pager yields 1 and 2, whatever iterating the dictionary itself would give.
   */
  lemma TransformExample(iter: Entries -> seq<int>)
    ensures
      var pages: seq<Entries> := [[("x", 1), ("y", 2)], []];
      Stops(pages, NonEmpty) && FirstFalsy(pages, NonEmpty) == 1 &&
      Concat(pages[..1], iter, Some(EntryValues)) == [1, 2]
  {
    var page: Entries := [("x", 1), ("y", 2)];
    var pages: seq<Entries> := [page, []];
    assert !NonEmpty(pages[1]);
    assert pages[..1] == [page];
    assert [page][..0] == [];
    assert EntryValues(page) == [1, 2];
  }
}
