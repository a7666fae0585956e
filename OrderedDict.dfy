/**
 * A Python `dict` as the client uses it: entries kept in insertion order,
 * an assignment `d[k] = v` overwriting the value of an existing key in place
 * and appending a new key at the end.
 */
module OrderedDict {
  import opened Wrappers

  /** The entries of a dict, in iteration order. */
  type Entries<V> = seq<(string, V)>

  /** The keys, in iteration order (`d.keys()`). */
  function Keys<V>(d: Entries<V>): (ks: seq<string>)
    ensures |ks| == |d|
    ensures forall i :: 0 <= i < |d| ==> ks[i] == d[i].0
  {
    seq(|d|, i requires 0 <= i < |d| => d[i].0)
  }

  ghost predicate DistinctKeys<V>(d: Entries<V>) {
    forall i, j :: 0 <= i < j < |d| ==> d[i].0 != d[j].0
  }

  /** `d.get(k)`: the value stored under `k`. */
  function Get<V>(d: Entries<V>, k: string): Option<V> {
    if d == [] then None
    else if d[0].0 == k then Some(d[0].1)
    else Get(d[1..], k)
  }

  /** `d[k] = v`: overwrites the entry for `k` where it stands, or appends one. */
  function Put<V>(d: Entries<V>, k: string, v: V): Entries<V> {
    if d == [] then [(k, v)]
    else if d[0].0 == k then [(k, v)] + d[1..]
    else [d[0]] + Put(d[1..], k, v)
  }

  /** An assignment stores `v` under `k` and changes no other key. */
  lemma {:induction false} PutGet<V>(d: Entries<V>, k: string, v: V)
    ensures Get(Put(d, k, v), k) == Some(v)
    ensures forall k' :: k' != k ==> Get(Put(d, k, v), k') == Get(d, k')
  {
    if d != [] && d[0].0 != k {
      PutGet(d[1..], k, v);
    }
  }

  lemma KeysCons<V>(x: (string, V), d: Entries<V>)
    ensures Keys([x] + d) == [x.0] + Keys(d)
  {
  }

  /** An existing key keeps its position, a new one goes last. */
  lemma {:induction false} PutKeys<V>(d: Entries<V>, k: string, v: V)
    ensures Keys(Put(d, k, v)) == if k in Keys(d) then Keys(d) else Keys(d) + [k]
  {
    if d == [] {
    } else {
      assert d == [d[0]] + d[1..];
      KeysCons(d[0], d[1..]);
      if d[0].0 == k {
        KeysCons((k, v), d[1..]);
      } else {
        PutKeys(d[1..], k, v);
        KeysCons(d[0], Put(d[1..], k, v));
        assert k in Keys(d) <==> k in Keys(d[1..]);
      }
    }
  }

  /** Assigning a key the dict lacks appends exactly one entry and moves nothing. */
  lemma {:induction false} PutFresh<V>(d: Entries<V>, k: string, v: V)
    requires k !in Keys(d)
    ensures Put(d, k, v) == d + [(k, v)]
  {
    if d != [] {
      assert Keys(d)[0] == d[0].0;
      assert forall i :: 0 <= i < |d| - 1 ==> Keys(d[1..])[i] == Keys(d)[i + 1];
      PutFresh(d[1..], k, v);
      assert [d[0]] + (d[1..] + [(k, v)]) == d + [(k, v)];
    }
  }

  /** Distinct keys stay distinct. */
  lemma PutDistinct<V>(d: Entries<V>, k: string, v: V)
    requires DistinctKeys(d)
    ensures DistinctKeys(Put(d, k, v))
  {
    var r := Put(d, k, v);
    PutKeys(d, k, v);
    forall i, j | 0 <= i < j < |r| ensures r[i].0 != r[j].0 {
      assert Keys(r)[i] == r[i].0 && Keys(r)[j] == r[j].0;
      if k !in Keys(d) && j == |d| {
        assert Keys(d)[i] == r[i].0;
      } else {
        assert Keys(d)[i] == r[i].0 && Keys(d)[j] == r[j].0;
      }
    }
  }

  /** The dict that a sequence of assignments `d[k] = v`, run in order on an empty dict, builds. */
  function PutAll<V>(assignments: Entries<V>): Entries<V> {
    if assignments == [] then []
    else
      var last := assignments[|assignments| - 1];
      Put(PutAll(assignments[..|assignments| - 1]), last.0, last.1)
  }

  /** The value of the last assignment to `k`, if any: the value that survives. */
  function LastValue<V>(assignments: Entries<V>, k: string): Option<V> {
    if assignments == [] then None
    else if assignments[|assignments| - 1].0 == k then Some(assignments[|assignments| - 1].1)
    else LastValue(assignments[..|assignments| - 1], k)
  }

  /** Position of the first occurrence of `k` in `ks`. */
  function FirstPos(ks: seq<string>, k: string): (i: nat)
    requires k in ks
    ensures i < |ks| && ks[i] == k
    ensures forall j :: 0 <= j < i ==> ks[j] != k
  {
    if ks[0] == k then 0 else 1 + FirstPos(ks[1..], k)
  }

  lemma {:induction false} FirstPosSnoc(ks: seq<string>, x: string, k: string)
    requires k in ks
    ensures FirstPos(ks + [x], k) == FirstPos(ks, k)
  {
    if ks[0] != k {
      assert (ks + [x])[1..] == ks[1..] + [x];
      FirstPosSnoc(ks[1..], x, k);
    }
  }

  /** The last value assigned to `k` is `assignments[i].1` when no later assignment names `k`. */
  lemma {:induction false} LastValueAt<V>(assignments: Entries<V>, i: nat)
    requires i < |assignments|
    requires forall j :: i < j < |assignments| ==> assignments[j].0 != assignments[i].0
    ensures LastValue(assignments, assignments[i].0) == Some(assignments[i].1)
  {
    if i < |assignments| - 1 {
      var init := assignments[..|assignments| - 1];
      assert init[i] == assignments[i];
      LastValueAt(init, i);
    }
  }

  /** When no key is assigned twice, the dict holds the assignments themselves, in order. */
  lemma {:induction false} PutAllDistinct<V>(assignments: Entries<V>)
    requires DistinctKeys(assignments)
    ensures PutAll(assignments) == assignments
  {
    if assignments != [] {
      var init := assignments[..|assignments| - 1];
      var last := assignments[|assignments| - 1];
      assert DistinctKeys(init) by {
        forall i, j | 0 <= i < j < |init| ensures init[i].0 != init[j].0 {
          assert init[i] == assignments[i] && init[j] == assignments[j];
        }
      }
      PutAllDistinct(init);
      assert last.0 !in Keys(init) by {
        forall i | 0 <= i < |init| ensures Keys(init)[i] != last.0 {
          assert init[i] == assignments[i];
        }
      }
      PutFresh(init, last.0, last.1);
      assert init + [last] == assignments;
    }
  }

  /** One more assignment keeps the entries ordered by first assignment. */
  lemma PutKeepsOrder<V>(init: Entries<V>, last: (string, V), d0: Entries<V>)
    requires forall k :: k in Keys(d0) <==> k in Keys(init)
    requires forall a, b :: 0 <= a < b < |d0| ==>
      FirstPos(Keys(init), d0[a].0) < FirstPos(Keys(init), d0[b].0)
    ensures forall k :: k in Keys(Put(d0, last.0, last.1)) <==> k in Keys(init + [last])
    ensures var d := Put(d0, last.0, last.1);
      forall a, b :: 0 <= a < b < |d| ==>
        FirstPos(Keys(init + [last]), d[a].0) < FirstPos(Keys(init + [last]), d[b].0)
  {
    var d := Put(d0, last.0, last.1);
    var ks := Keys(init + [last]);
    assert ks == Keys(init) + [last.0];
    PutKeys(d0, last.0, last.1);
    forall k | k in Keys(init) ensures FirstPos(ks, k) == FirstPos(Keys(init), k) {
      FirstPosSnoc(Keys(init), last.0, k);
    }
    forall a, b | 0 <= a < b < |d|
      ensures FirstPos(ks, d[a].0) < FirstPos(ks, d[b].0)
    {
      var ka, kb := d[a].0, d[b].0;
      assert Keys(d)[a] == ka && Keys(d)[b] == kb;
      assert d0[a].0 == ka && Keys(d0)[a] == ka;
      assert ka in Keys(init);
      if b < |d0| {
        assert d0[b].0 == kb && Keys(d0)[b] == kb;
        assert kb in Keys(init);
      } else {
        assert kb == last.0 && kb !in Keys(init);
        assert FirstPos(ks, kb) == |init|;
      }
    }
  }

  /** The keys of a run of assignments: distinct, and exactly the keys assigned. */
  lemma {:induction false} PutAllKeys<V>(assignments: Entries<V>)
    ensures var d := PutAll(assignments);
      && DistinctKeys(d)
      && |d| <= |assignments|
      && (forall k :: k in Keys(d) <==> k in Keys(assignments))
  {
    if assignments != [] {
      var init := assignments[..|assignments| - 1];
      var last := assignments[|assignments| - 1];
      PutAllKeys(init);
      var d0 := PutAll(init);
      var d := Put(d0, last.0, last.1);
      assert PutAll(assignments) == d;
      PutKeys(d0, last.0, last.1);
      PutDistinct(d0, last.0, last.1);
      assert assignments == init + [last];
      assert Keys(assignments) == Keys(init) + [last.0];
      assert |d| == |Keys(d)| <= |Keys(d0)| + 1;
      forall k ensures k in Keys(d) <==> k in Keys(assignments) {
        assert k in Keys(assignments) <==> k in Keys(init) || k == last.0;
      }
    }
  }

  /** Each key of a run of assignments holds the last value assigned to it. */
  lemma {:induction false} PutAllGet<V>(assignments: Entries<V>)
    ensures forall k :: Get(PutAll(assignments), k) == LastValue(assignments, k)
  {
    if assignments != [] {
      var init := assignments[..|assignments| - 1];
      var last := assignments[|assignments| - 1];
      PutAllGet(init);
      PutGet(PutAll(init), last.0, last.1);
    }
  }

  /** The keys of a run of assignments come in the order of their first assignment. */
  lemma {:induction false} PutAllOrder<V>(assignments: Entries<V>)
    ensures forall k :: k in Keys(PutAll(assignments)) ==> k in Keys(assignments)
    ensures var d := PutAll(assignments);
      forall a, b :: 0 <= a < b < |d| ==>
        FirstPos(Keys(assignments), d[a].0) < FirstPos(Keys(assignments), d[b].0)
  {
    PutAllKeys(assignments);
    if assignments != [] {
      var init := assignments[..|assignments| - 1];
      var last := assignments[|assignments| - 1];
      PutAllOrder(init);
      PutAllKeys(init);
      assert assignments == init + [last];
      assert PutAll(assignments) == Put(PutAll(init), last.0, last.1);
      PutKeepsOrder(init, last, PutAll(init));
    }
  }

  /**
   * What a run of assignments leaves behind: distinct keys, one per key
   * assigned, ordered by first assignment, each holding the last value
   * assigned to it.
   */
  lemma PutAllSpec<V>(assignments: Entries<V>)
    ensures var d := PutAll(assignments);
      && DistinctKeys(d)
      && |d| <= |assignments|
      && (forall k :: k in Keys(d) <==> k in Keys(assignments))
      && (forall a, b :: 0 <= a < b < |d| ==>
            FirstPos(Keys(assignments), d[a].0) < FirstPos(Keys(assignments), d[b].0))
      && (forall k :: Get(d, k) == LastValue(assignments, k))
  {
    PutAllKeys(assignments);
    PutAllGet(assignments);
    PutAllOrder(assignments);
  }
}
