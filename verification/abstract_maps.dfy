/** The read-only map abstraction of pkg/abstract/maps.go and its two
    implementations: LangMap, a Go map, and MapK8sSetToConstant, which maps
    every member of a set to one value. A Go map's iteration order is
    unspecified, so the iterator visits keys in an order the model leaves
    open; the `consume` callback is a pure function from a caller state. */
module AbstractMaps {

  datatype AbstractMap<K(==), V> =
    | LangMap(m: map<K, V>)
    | SetToConstant(members: set<K>, val: V)

  /** The key/value pairs a map holds. */
  function Contents<K(==), V>(am: AbstractMap<K, V>): map<K, V>
  {
    match am
    case LangMap(m) => m
    case SetToConstant(members, val) => map k | k in members :: val
  }

  /** NewLangMap: an empty map. */
  function NewLangMap<K(==), V>(): (r: AbstractMap<K, V>)
    ensures Contents(r) == map[] && Len(r) == 0
  {
    LangMap(map[])
  }

  /** MapFromLang: the given Go map, seen through the abstraction; the pairs
      are the map's own. */
  function MapFromLang<K(==), V>(base: map<K, V>): (r: AbstractMap<K, V>)
    ensures Contents(r) == base
  {
    LangMap(base)
  }

  /** NewMapK8sSetToConstant. */
  function NewMapK8sSetToConstant<K(==), V>(members: set<K>, val: V): (r: AbstractMap<K, V>)
    ensures Contents(r).Keys == members
    ensures forall k | k in Contents(r) :: Contents(r)[k] == val
  {
    SetToConstant(members, val)
  }

  /** Len: the number of pairs. */
  function Len<K(==), V>(am: AbstractMap<K, V>): (r: nat)
    ensures r == |Contents(am)|
  {
    match am
    case LangMap(m) => |m|
    case SetToConstant(members, _) =>
      assert Contents(am).Keys == members;
      |members|
  }

  /** Get: the value stored for `key` and true, or the zero value and false
      when there is none. */
  function Get<K(==), V>(am: AbstractMap<K, V>, key: K, zero: V): (r: (V, bool))
    ensures r.1 <==> key in Contents(am)
    ensures r.1 ==> r.0 == Contents(am)[key]
    ensures !r.1 ==> r.0 == zero
  {
    match am
    case LangMap(m) => if key in m then (m[key], true) else (zero, false)
    case SetToConstant(members, val) => if key in members then (val, true) else (zero, false)
  }

  /** Feeding pairs to `consume` from state `s`, stopping at the first false:
      the state reached, and whether every call said to go on. */
  function Feed<S, K, V>(consume: (S, K, V) -> (S, bool), s: S, pairs: seq<(K, V)>): (S, bool)
  {
    if pairs == [] then (s, true)
    else
      var step := consume(s, pairs[0].0, pairs[0].1);
      if step.1 then Feed(consume, step.0, pairs[1..]) else (step.0, false)
  }

  lemma {:induction false} FeedSnoc<S, K, V>(consume: (S, K, V) -> (S, bool), s: S, pairs: seq<(K, V)>, p: (K, V))
    requires Feed(consume, s, pairs).1
    ensures Feed(consume, s, pairs + [p]) == consume(Feed(consume, s, pairs).0, p.0, p.1)
    decreases |pairs|
  {
    if pairs == [] {
      assert pairs + [p] == [p];
    } else {
      assert (pairs + [p])[1..] == pairs[1..] + [p];
      FeedSnoc(consume, consume(s, pairs[0].0, pairs[0].1).0, pairs[1..], p);
    }
  }

  /** No key appears twice. */
  predicate DistinctKeys<K(==), V>(pairs: seq<(K, V)>)
  {
    forall i, j | 0 <= i < j < |pairs| :: pairs[i].0 != pairs[j].0
  }

  /** Every visited pair is held by `contents`. */
  ghost predicate Held<K, V>(contents: map<K, V>, visited: seq<(K, V)>)
  {
    forall i | 0 <= i < |visited| :: visited[i].0 in contents && contents[visited[i].0] == visited[i].1
  }

  /** Every key of `contents` outside `rest` has been visited. */
  ghost predicate Covers<K, V>(contents: map<K, V>, rest: set<K>, visited: seq<(K, V)>)
  {
    forall k | k in contents && k !in rest :: exists i | 0 <= i < |visited| :: visited[i].0 == k
  }

  /** Midway through an iteration: the keys still to visit are `rest`, and
      what was visited is held, distinct, disjoint from `rest` and covers
      everything else. */
  ghost predicate Midway<K, V>(contents: map<K, V>, rest: set<K>, visited: seq<(K, V)>)
  {
    && rest <= contents.Keys
    && Held(contents, visited)
    && (forall i | 0 <= i < |visited| :: visited[i].0 !in rest)
    && Covers(contents, rest, visited)
    && DistinctKeys(visited)
  }

  /** Visiting one more key of `rest` keeps an iteration midway. */
  lemma MidwayStep<K, V>(contents: map<K, V>, rest: set<K>, visited: seq<(K, V)>, k: K)
    requires Midway(contents, rest, visited) && k in rest
    ensures Midway(contents, rest - {k}, visited + [(k, contents[k])])
  {
    var next := visited + [(k, contents[k])];
    forall k' | k' in contents && k' !in rest - {k}
      ensures exists i | 0 <= i < |next| :: next[i].0 == k'
    {
      if k' == k {
        assert next[|visited|].0 == k';
      } else {
        var i :| 0 <= i < |visited| && visited[i].0 == k';
        assert next[i].0 == k';
      }
    }
  }

  /** Iterator2 of either implementation, run with `consume` from state `s0`:
      the pairs visited, the final state and whether the run went to the
      end. Every visited pair is held by the map and no key is visited
      twice; a run that is not cut short visits every pair; a run is cut
      short right after the first call that returned false. */
  method Iterator2<S, K(==), V>(am: AbstractMap<K, V>, consume: (S, K, V) -> (S, bool), s0: S)
    returns (visited: seq<(K, V)>, s: S, completed: bool)
    ensures forall i | 0 <= i < |visited| :: visited[i].0 in Contents(am) && Contents(am)[visited[i].0] == visited[i].1
    ensures DistinctKeys(visited)
    ensures (s, completed) == Feed(consume, s0, visited)
    ensures completed ==> forall k | k in Contents(am) :: exists i | 0 <= i < |visited| :: visited[i].0 == k
    ensures !completed ==> visited != [] && Feed(consume, s0, visited[..|visited| - 1]).1
  {
    var contents := Contents(am);
    var rest := contents.Keys;
    visited := [];
    s := s0;
    completed := true;
    while rest != {}
      invariant Midway(contents, rest, visited)
      invariant (s, true) == Feed(consume, s0, visited)
      decreases |rest|
    {
      var k :| k in rest;
      var p := (k, contents[k]);
      FeedSnoc(consume, s0, visited, p);
      MidwayStep(contents, rest, visited, k);
      var step := consume(s, k, contents[k]);
      visited := visited + [p];
      rest := rest - {k};
      s := step.0;
      if !step.1 {
        assert visited[..|visited| - 1] + [p] == visited;
        completed := false;
        return;
      }
    }
  }

  /** The callback LangMapCopyOf passes: store the pair, go on. */
  function Store<K(==), V>(m: map<K, V>, k: K, v: V): (map<K, V>, bool)
  {
    (m[k := v], true)
  }

  /** Storing distinct-key pairs one by one gives exactly those pairs and
      never stops. */
  lemma {:induction false} FeedStore<K, V>(pairs: seq<(K, V)>)
    requires DistinctKeys(pairs)
    ensures Feed(Store, map[], pairs).1
    ensures forall k :: k in Feed(Store, map[], pairs).0 <==> exists i | 0 <= i < |pairs| :: pairs[i].0 == k
    ensures forall i | 0 <= i < |pairs| :: Feed(Store, map[], pairs).0[pairs[i].0] == pairs[i].1
    decreases |pairs|
  {
    if pairs != [] {
      var n := |pairs| - 1;
      var init := pairs[..n];
      assert DistinctKeys(init);
      FeedStore(init);
      FeedSnoc(Store, map[], init, pairs[n]);
      assert init + [pairs[n]] == pairs;
      assert forall i | 0 <= i < n :: init[i] == pairs[i];
    }
  }

  /** LangMapCopyOf: a new LangMap holding exactly the pairs of `base`. */
  method LangMapCopyOf<K(==), V>(base: AbstractMap<K, V>) returns (r: AbstractMap<K, V>)
    ensures r.LangMap?
    ensures Contents(r) == Contents(base)
  {
    var visited, ans, completed := Iterator2(base, Store, map[]);
    FeedStore(visited);
    assert completed;
    assert ans.Keys == Contents(base).Keys;
    r := LangMap(ans);
  }

  /** What Iterator2 promises of a run that is not cut short means that
      it visits exactly Len pairs: each pair once. */
  lemma CompleteRunLength<K, V>(am: AbstractMap<K, V>, visited: seq<(K, V)>)
    requires forall i | 0 <= i < |visited| :: visited[i].0 in Contents(am) && Contents(am)[visited[i].0] == visited[i].1
    requires DistinctKeys(visited)
    requires forall k | k in Contents(am) :: exists i | 0 <= i < |visited| :: visited[i].0 == k
    ensures |visited| == Len(am)
  {
    var keys := set i | 0 <= i < |visited| :: visited[i].0;
    assert keys == Contents(am).Keys;
    CardinalityOfDistinct(visited);
  }

  /** A distinct-key sequence has as many keys as elements. */
  lemma {:induction false} CardinalityOfDistinct<K, V>(pairs: seq<(K, V)>)
    requires DistinctKeys(pairs)
    ensures |set i | 0 <= i < |pairs| :: pairs[i].0| == |pairs|
    decreases |pairs|
  {
    if pairs != [] {
      var n := |pairs| - 1;
      var init := pairs[..n];
      assert DistinctKeys(init);
      CardinalityOfDistinct(init);
      var a := set i | 0 <= i < |init| :: init[i].0;
      var b := set i | 0 <= i < |pairs| :: pairs[i].0;
      assert b == a + {pairs[n].0};
      assert pairs[n].0 !in a;
    }
  }
}
