/**
 * The memoising decorator (`cacheResult`): a wrapped function keeps a cache keyed by the
 * positional arguments followed by the rendered keyword arguments. A call whose key can
 * be hashed is answered from the cache, the wrapped function running only on the first
 * call with that key; a call whose key cannot be hashed runs the wrapped function every
 * time and leaves the cache alone.
 *
 * The wrapped function may have effects (it talks to a remote service), so it is given
 * the number of times it has already run: a state-passing model of an impure callee.
 */
module Memo {
  import opened Wrappers

  /** The argument values that matter for hashing: scalars, lists and tuples. */
  datatype PyValue =
    | NoneValue
    | Int(i: int)
    | Str(s: string)
    | List(items: seq<PyValue>)
    | Tuple(items: seq<PyValue>)

  /** `isinstance(v, Hashable)`: the type defines hashing. A list does not; a tuple does, whatever it holds. */
  predicate IsHashableInstance(v: PyValue) {
    !v.List?
  }

  /** `hash(v)` succeeds: a list never hashes, and a tuple hashes when all its items do. */
  predicate Hashes(v: PyValue)
    decreases v
  {
    match v
    case List(_) => false
    case Tuple(items) => forall i :: 0 <= i < |items| ==> Hashes(items[i])
    case _ => true
  }

  /** The cache key: the positional arguments, followed by the keyword arguments rendered as one string. */
  datatype Key = Key(args: seq<PyValue>, kwargs: string)

  /** The key can be hashed; the rendered keyword arguments are a string, which always can. */
  predicate KeyHashes(k: Key) {
    forall i :: 0 <= i < |k.args| ==> Hashes(k.args[i])
  }

  /** The decorator's guard: every element of the key is an instance of `Hashable`. */
  predicate GuardPasses(k: Key) {
    forall i :: 0 <= i < |k.args| ==> IsHashableInstance(k.args[i])
  }

  /** The cache and the number of times the wrapped function has run so far. */
  datatype State<V> = State(cache: map<Key, V>, invocations: nat)

  /** The error `hash()` raises on a key holding a list. */
  datatype CallError = UnhashableType

  /** A key that hashes passes the guard; the guard lets through only keys without a list at the top. */
  lemma HashesPassesGuard(k: Key)
    ensures KeyHashes(k) ==> GuardPasses(k)
  {
  }

  /**
   * One call of the wrapper: the wrapped function's result for an unhashable key, else
   * the cached result, computing and storing it on the first call with that key.
   */
  function Invoke<V>(st: State<V>, fn: (Key, nat) -> V, k: Key): (r: (State<V>, V))
    ensures !KeyHashes(k) ==> r.1 == fn(k, st.invocations)
    ensures KeyHashes(k) ==> k in r.0.cache && r.1 == r.0.cache[k]
    ensures KeyHashes(k) && k in st.cache ==> r == (st, st.cache[k])
    ensures KeyHashes(k) && k !in st.cache ==>
      r.1 == fn(k, st.invocations) && r.0.cache == st.cache[k := r.1]
    ensures !KeyHashes(k) ==> r.0.cache == st.cache
    ensures r.0.cache.Keys == st.cache.Keys + (if KeyHashes(k) then {k} else {})
    ensures forall c :: c in st.cache ==> r.0.cache[c] == st.cache[c]
    ensures r.0.invocations == st.invocations + (if KeyHashes(k) && k in st.cache then 0 else 1)
  {
    if !KeyHashes(k) then
      (State(st.cache, st.invocations + 1), fn(k, st.invocations))
    else if k in st.cache then
      (st, st.cache[k])
    else
      var v := fn(k, st.invocations);
      (State(st.cache[k := v], st.invocations + 1), v)
  }

  /**
   * The wrapper as written: the guard tests only that each argument is an instance of
   * `Hashable`, so a tuple holding a list passes it, and the cache lookup then raises.
   */
  function InvokeAsWritten<V>(st: State<V>, fn: (Key, nat) -> V, k: Key): (r: Result<(State<V>, V), CallError>)
    ensures r.Failure? <==> GuardPasses(k) && !KeyHashes(k)
    ensures r.Success? ==> r.value == Invoke(st, fn, k)
  {
    if !GuardPasses(k) then
      Success((State(st.cache, st.invocations + 1), fn(k, st.invocations)))
    else if !KeyHashes(k) then
      Failure(UnhashableType)
    else if k in st.cache then
      Success((st, st.cache[k]))
    else
      var v := fn(k, st.invocations);
      Success((State(st.cache[k := v], st.invocations + 1), v))
  }

  /** A tuple argument holding a list passes the guard and then fails to hash. */
  lemma TupleHoldingListRaises<V>(st: State<V>, fn: (Key, nat) -> V)
    ensures
      var k := Key([Tuple([Int(1), List([])])], "{}");
      InvokeAsWritten(st, fn, k) == Failure(UnhashableType) &&
      Invoke(st, fn, k) == (State(st.cache, st.invocations + 1), fn(k, st.invocations))
  {
    var k := Key([Tuple([Int(1), List([])])], "{}");
    assert GuardPasses(k);
    assert !Hashes(k.args[0]) by {
      assert !Hashes(k.args[0].items[1]);
    }
  }

  /** A run of calls in order: the final state and each call's result. */
  function Run<V>(st: State<V>, fn: (Key, nat) -> V, calls: seq<Key>): (r: (State<V>, seq<V>))
    ensures |r.1| == |calls|
    decreases |calls|
  {
    if |calls| == 0 then (st, [])
    else
      var first := Invoke(st, fn, calls[0]);
      var rest := Run(first.0, fn, calls[1..]);
      (rest.0, [first.1] + rest.1)
  }

  /**
   * After a run every hashable key called is cached, each of its calls returned the
   * cached value, and entries cached before the run are unchanged.
   */
  lemma {:induction false} RunCaches<V>(st: State<V>, fn: (Key, nat) -> V, calls: seq<Key>)
    ensures forall c :: c in st.cache ==> c in Run(st, fn, calls).0.cache && Run(st, fn, calls).0.cache[c] == st.cache[c]
    ensures forall i :: 0 <= i < |calls| && KeyHashes(calls[i]) ==>
      calls[i] in Run(st, fn, calls).0.cache && Run(st, fn, calls).1[i] == Run(st, fn, calls).0.cache[calls[i]]
    decreases |calls|
  {
    if |calls| > 0 {
      var (st1, v) := Invoke(st, fn, calls[0]);
      RunCaches(st1, fn, calls[1..]);
      var r := Run(st, fn, calls);
      assert r.1 == [v] + Run(st1, fn, calls[1..]).1;
      forall i | 0 <= i < |calls| && KeyHashes(calls[i])
        ensures calls[i] in r.0.cache && r.1[i] == r.0.cache[calls[i]]
      {
        if i > 0 {
          assert calls[1..][i - 1] == calls[i];
        }
      }
    }
  }

  /** Two calls with the same hashable key return the same value, whatever the wrapped function does. */
  lemma RunConsistent<V>(st: State<V>, fn: (Key, nat) -> V, calls: seq<Key>, i: nat, j: nat)
    requires i < |calls| && j < |calls| && calls[i] == calls[j] && KeyHashes(calls[i])
    ensures Run(st, fn, calls).1[i] == Run(st, fn, calls).1[j]
  {
    RunCaches(st, fn, calls);
  }

  /** The number of calls in `calls` whose key cannot be hashed. */
  function Unhashable(calls: seq<Key>): nat
    decreases |calls|
  {
    if |calls| == 0 then 0
    else (if KeyHashes(calls[0]) then 0 else 1) + Unhashable(calls[1..])
  }

  /**
   * The wrapped function runs once per key newly cached and once per unhashable call,
   * and never otherwise.
   */
  lemma {:induction false} RunInvocations<V>(st: State<V>, fn: (Key, nat) -> V, calls: seq<Key>)
    ensures st.cache.Keys <= Run(st, fn, calls).0.cache.Keys
    ensures Run(st, fn, calls).0.invocations ==
      st.invocations + |Run(st, fn, calls).0.cache.Keys - st.cache.Keys| + Unhashable(calls)
    decreases |calls|
  {
    if |calls| > 0 {
      var (st1, v) := Invoke(st, fn, calls[0]);
      RunInvocations(st1, fn, calls[1..]);
      var fin := Run(st1, fn, calls[1..]).0;
      assert Run(st, fn, calls).0 == fin;
      NewKeysSplit(st.cache.Keys, st1.cache.Keys, fin.cache.Keys);
      if KeyHashes(calls[0]) && calls[0] !in st.cache {
        assert st1.cache.Keys - st.cache.Keys == {calls[0]};
      } else {
        assert st1.cache.Keys - st.cache.Keys == {};
      }
    }
  }

  /** The keys added over two steps are those added by each step. */
  lemma NewKeysSplit(a: set<Key>, b: set<Key>, c: set<Key>)
    requires a <= b <= c
    ensures |c - a| == |b - a| + |c - b|
  {
    assert c - a == (b - a) + (c - b);
    assert (b - a) * (c - b) == {};
  }

  /** The wrapped function's result does not depend on how often it has run. */
  ghost predicate Pure<V>(fn: (Key, nat) -> V) {
    forall k, n :: fn(k, n) == fn(k, 0)
  }

  /** Every cached entry is what the wrapped function returns for its key. */
  ghost predicate Faithful<V>(st: State<V>, fn: (Key, nat) -> V) {
    forall c :: c in st.cache ==> st.cache[c] == fn(c, 0)
  }

  /**
   * Caching is invisible for a pure wrapped function: every call returns what calling
   * the function directly returns, and the cache stays faithful.
   */
  lemma {:induction false} RunTransparent<V>(st: State<V>, fn: (Key, nat) -> V, calls: seq<Key>)
    requires Pure(fn) && Faithful(st, fn)
    ensures Faithful(Run(st, fn, calls).0, fn)
    ensures forall i :: 0 <= i < |calls| ==> Run(st, fn, calls).1[i] == fn(calls[i], 0)
    decreases |calls|
  {
    if |calls| > 0 {
      var (st1, v) := Invoke(st, fn, calls[0]);
      assert v == fn(calls[0], 0) by {
        assert fn(calls[0], st.invocations) == fn(calls[0], 0);
      }
      assert Faithful(st1, fn) by {
        forall c | c in st1.cache
          ensures st1.cache[c] == fn(c, 0)
        {
          if c != calls[0] {
            assert c in st.cache;
          } else {
            assert fn(c, st.invocations) == fn(c, 0);
          }
        }
      }
      RunTransparent(st1, fn, calls[1..]);
      var r := Run(st, fn, calls);
      assert r.1 == [v] + Run(st1, fn, calls[1..]).1;
      forall i | 0 <= i < |calls|
        ensures r.1[i] == fn(calls[i], 0)
      {
        if i > 0 {
          assert calls[1..][i - 1] == calls[i];
        }
      }
    }
  }

  /** Two identical hashable calls from an empty cache: one run of the wrapped function, the same value twice. */
  lemma RepeatedCallRunsOnce<V>(fn: (Key, nat) -> V, k: Key)
    requires KeyHashes(k)
    ensures Run(State(map[], 0), fn, [k, k]) == (State(map[k := fn(k, 0)], 1), [fn(k, 0), fn(k, 0)])
  {
    var st1 := State(map[k := fn(k, 0)], 1);
    RunStep(State(map[], 0), fn, [k, k]);
    assert Invoke(State(map[], 0), fn, k) == (st1, fn(k, 0));
    assert [k, k][1..] == [k];
    RunStep(st1, fn, [k]);
    assert Invoke(st1, fn, k) == (st1, fn(k, 0));
    assert [k][1..] == [];
    assert Run(st1, fn, []) == (st1, []);
    assert Run(st1, fn, [k]).1 == [fn(k, 0)];
    assert [fn(k, 0)] + [fn(k, 0)] == [fn(k, 0), fn(k, 0)];
  }

  /** Two identical unhashable calls: the wrapped function runs both times and nothing is cached. */
  lemma UnhashableCallRunsEveryTime<V>(fn: (Key, nat) -> V)
    ensures
      var k := Key([List([Int(1)])], "{}");
      Run(State(map[], 0), fn, [k, k]) == (State(map[], 2), [fn(k, 0), fn(k, 1)])
  {
    var k := Key([List([Int(1)])], "{}");
    assert !KeyHashes(k) by {
      assert !Hashes(k.args[0]);
    }
    RunStep(State(map[], 0), fn, [k, k]);
    assert Invoke(State(map[], 0), fn, k) == (State(map[], 1), fn(k, 0));
    assert [k, k][1..] == [k];
    RunStep(State(map[], 1), fn, [k]);
    assert Invoke(State(map[], 1), fn, k) == (State(map[], 2), fn(k, 1));
    assert [k][1..] == [];
    assert Run(State(map[], 2), fn, []) == (State(map[], 2), []);
    assert Run(State(map[], 1), fn, [k]).1 == [fn(k, 1)];
    assert [fn(k, 0)] + [fn(k, 1)] == [fn(k, 0), fn(k, 1)];
  }

  /** A run is its first call followed by the run of the rest from the state that call leaves. */
  lemma RunStep<V>(st: State<V>, fn: (Key, nat) -> V, calls: seq<Key>)
    requires |calls| > 0
    ensures Run(st, fn, calls).0 == Run(Invoke(st, fn, calls[0]).0, fn, calls[1..]).0
    ensures Run(st, fn, calls).1 == [Invoke(st, fn, calls[0]).1] + Run(Invoke(st, fn, calls[0]).0, fn, calls[1..]).1
  {
  }
}
