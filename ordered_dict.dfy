/** Python's insertion-ordered dict, as a sequence of (key, value) pairs with
    distinct string keys. Assigning to a key that is present keeps its position;
    assigning to a new key appends it. Both Tag's attribute dict comprehension
    and Element's dict.update rely on exactly this. */
module OrderedDict {
  import opened Strings

  type Dict<V> = seq<(string, V)>

  /** The keys in insertion order: what dict.keys() iterates over. */
  function Keys<V>(d: Dict<V>): seq<string> {
    seq(|d|, i requires 0 <= i < |d| => d[i].0)
  }

  predicate DistinctKeys<V>(d: Dict<V>) {
    forall i, j :: 0 <= i < j < |d| ==> d[i].0 != d[j].0
  }


  /** The position of key k, or -1 when k is absent. */
  function IndexOf<V>(d: Dict<V>, k: string): (i: int)
    ensures i == -1 || (0 <= i < |d| && d[i].0 == k)
    ensures i == -1 <==> k !in Keys(d)
  {
    if d == [] then -1
    else if d[0].0 == k then assert Keys(d)[0] == k; 0
    else
      var j := IndexOf(d[1..], k);
      assert Keys(d) == [d[0].0] + Keys(d[1..]);
      if j == -1 then -1 else j + 1
  }

  /** In a dict with distinct keys, a key is found exactly where it is stored. */
  lemma {:induction false} IndexOfDistinct<V>(d: Dict<V>, i: nat)
    requires DistinctKeys(d) && i < |d|
    ensures IndexOf(d, d[i].0) == i
  {
    if i > 0 {
      assert d[0].0 != d[i].0;
      assert d[1..][i - 1] == d[i];
      IndexOfDistinct(d[1..], i - 1);
    }
  }

  /** d.get(k) */
  function Get<V>(d: Dict<V>, k: string): (r: Option<V>)
    ensures r.None? <==> k !in Keys(d)
    ensures r.Some? ==> (k, r.value) in d
  {
    var i := IndexOf(d, k);
    if i < 0 then None else Some(d[i].1)
  }

  /** d[k] = v */
  function Put<V>(d: Dict<V>, k: string, v: V): (r: Dict<V>)
    ensures Keys(r) == if k in Keys(d) then Keys(d) else Keys(d) + [k]
    ensures DistinctKeys(d) ==> DistinctKeys(r)
  {
    var i := IndexOf(d, k);
    if i < 0 then
      assert forall j :: 0 <= j < |d| ==> d[j].0 == Keys(d)[j];
      d + [(k, v)]
    else
      d[i := (k, v)]
  }

  /** After d[k] = v, k holds v and every other key holds what it held before. */
  lemma PutGet<V>(d: Dict<V>, k: string, v: V, k': string)
    requires DistinctKeys(d)
    ensures Get(Put(d, k, v), k') == if k' == k then Some(v) else Get(d, k')
  {
    var r := Put(d, k, v);
    var i := IndexOf(r, k');
    if i != -1 {
      IndexOfDistinct(r, i);
      if k' != k {
        IndexOfDistinct(d, i);
      }
    } else if k' != k {
      assert k' !in Keys(d);
    }
  }

  /** d.update(e): the pairs of e assigned into d one after the other. */
  function Update<V>(d: Dict<V>, e: Dict<V>): (r: Dict<V>)
    ensures Keys(d) <= Keys(r)
    ensures DistinctKeys(d) ==> DistinctKeys(r)
    decreases |e|
  {
    if e == [] then d
    else
      var d' := Put(d, e[0].0, e[0].1);
      assert Keys(e) == [e[0].0] + Keys(e[1..]);
      Update(d', e[1..])
  }

  /** Last write wins: after d.update(e), every key of e holds e's value and
      every other key keeps d's value. */
  lemma {:induction false} UpdateGet<V>(d: Dict<V>, e: Dict<V>, k: string)
    requires DistinctKeys(d) && DistinctKeys(e)
    ensures Get(Update(d, e), k) == if k in Keys(e) then Get(e, k) else Get(d, k)
    decreases |e|
  {
    if e != [] {
      var d' := Put(d, e[0].0, e[0].1);
      assert Keys(e) == [e[0].0] + Keys(e[1..]);
      assert DistinctKeys(e[1..]);
      UpdateGet(d', e[1..], k);
      PutGet(d, e[0].0, e[0].1, k);
      if k == e[0].0 {
        assert k !in Keys(e[1..]);
        IndexOfDistinct(e, 0);
      } else if k in Keys(e[1..]) {
        var j := IndexOf(e[1..], k);
        IndexOfDistinct(e, j + 1);
      }
    }
  }

  /** The keys of ks that are not in seen, each once, in order of first
      occurrence: the keys a run of assignments adds to a dict holding seen. */
  function NewKeys(seen: seq<string>, ks: seq<string>): seq<string>
    decreases |ks|
  {
    if ks == [] then []
    else if ks[0] in seen then NewKeys(seen, ks[1..])
    else [ks[0]] + NewKeys(seen + [ks[0]], ks[1..])
  }

  /** The new keys are absent from seen, taken from ks, listed once each,
      and every key of ks outside seen is among them. */
  lemma {:induction false} NewKeysSpec(seen: seq<string>, ks: seq<string>)
    ensures var r := NewKeys(seen, ks);
      && (forall i :: 0 <= i < |r| ==> r[i] !in seen && r[i] in ks)
      && (forall i, j :: 0 <= i < j < |r| ==> r[i] != r[j])
      && (forall k :: k in ks && k !in seen ==> k in r)
    decreases |ks|
  {
    if ks != [] {
      if ks[0] in seen {
        NewKeysSpec(seen, ks[1..]);
      } else {
        NewKeysSpec(seen + [ks[0]], ks[1..]);
      }
    }
  }

  /** Proof step: NewKeys of a list with a known first key. */
  lemma NewKeysCons(seen: seq<string>, k: string, rest: seq<string>)
    ensures NewKeys(seen, [k] + rest) ==
      if k in seen then NewKeys(seen, rest) else [k] + NewKeys(seen + [k], rest)
  {
    assert ([k] + rest)[0] == k && ([k] + rest)[1..] == rest;
  }

  /** Proof step: one assignment of UpdateKeys, over the key lists alone. */
  lemma NewKeysStep(before: seq<string>, after: seq<string>, k: string, rest: seq<string>, keys: seq<string>)
    requires after == if k in before then before else before + [k]
    requires keys == after + NewKeys(after, rest)
    ensures keys == before + NewKeys(before, [k] + rest)
  {
    NewKeysCons(before, k, rest);
    if k !in before {
      var tail := NewKeys(before + [k], rest);
      assert keys == (before + [k]) + tail;
      assert (before + [k]) + tail == before + ([k] + tail);
    }
  }

  /** Key order after d.update(e): the keys of d in their old order, then the
      keys of e that d lacked, in the order e first mentions them. */
  lemma {:induction false} UpdateKeys<V>(d: Dict<V>, e: Dict<V>)
    ensures Keys(Update(d, e)) == Keys(d) + NewKeys(Keys(d), Keys(e))
    decreases |e|
  {
    if e == [] {
      assert Keys(e) == [];
    } else {
      var k, rest := e[0].0, Keys(e[1..]);
      var d' := Put(d, k, e[0].1);
      assert Keys(e) == [k] + rest;
      UpdateKeys(d', e[1..]);
      NewKeysStep(Keys(d), Keys(d'), k, rest, Keys(Update(d', e[1..])));
    }
  }

  /** A key that the pairs assigned never mention keeps its value. */
  lemma {:induction false} UpdateKeeps<V>(d: Dict<V>, e: Dict<V>, k: string)
    requires DistinctKeys(d) && k !in Keys(e)
    ensures Get(Update(d, e), k) == Get(d, k)
    decreases |e|
  {
    if e != [] {
      assert Keys(e) == [e[0].0] + Keys(e[1..]);
      PutGet(d, e[0].0, e[0].1, k);
      UpdateKeeps(Put(d, e[0].0, e[0].1), e[1..], k);
    }
  }

  /** Last write wins even when the pairs repeat a key: a key holds the
      value of its last assignment. */
  lemma {:induction false} UpdateLastWins<V>(d: Dict<V>, e: Dict<V>, i: nat)
    requires DistinctKeys(d) && i < |e|
    requires forall j :: i < j < |e| ==> e[j].0 != e[i].0
    ensures Get(Update(d, e), e[i].0) == Some(e[i].1)
    decreases |e|
  {
    var d' := Put(d, e[0].0, e[0].1);
    if i == 0 {
      assert e[0].0 !in Keys(e[1..]) by {
        forall j | 0 <= j < |e[1..]| ensures Keys(e[1..])[j] != e[0].0 {
          assert e[1..][j] == e[j + 1];
        }
      }
      UpdateKeeps(d', e[1..], e[0].0);
      PutGet(d, e[0].0, e[0].1, e[0].0);
    } else {
      assert e[1..][i - 1] == e[i];
      forall j | i - 1 < j < |e[1..]| ensures e[1..][j].0 != e[1..][i - 1].0 {
        assert e[1..][j] == e[j + 1];
      }
      UpdateLastWins(d', e[1..], i - 1);
    }
  }

  /** Assigning a key that is not yet present appends it at the end. */
  lemma PutNew<V>(d: Dict<V>, k: string, v: V)
    requires forall i :: 0 <= i < |d| ==> d[i].0 != k
    ensures Put(d, k, v) == d + [(k, v)]
  {
    assert k !in Keys(d);
  }

  lemma PutNewFromDistinct<V>(d: Dict<V>, e: Dict<V>)
    requires DistinctKeys(d + e) && e != []
    ensures Put(d, e[0].0, e[0].1) == d + [e[0]]
  {
    forall i | 0 <= i < |d| ensures d[i].0 != e[0].0 {
      assert (d + e)[i] == d[i] && (d + e)[|d|] == e[0];
    }
    PutNew(d, e[0].0, e[0].1);
  }

  /** Updating with keys that are all new appends them, in order, after the
      existing entries. */
  lemma {:induction false} UpdateFresh<V>(d: Dict<V>, e: Dict<V>)
    requires DistinctKeys(d + e)
    ensures Update(d, e) == d + e
    decreases |e|
  {
    if e != [] {
      PutNewFromDistinct(d, e);
      var d1, e1 := d + [e[0]], e[1..];
      assert d1 + e1 == d + e;
      UpdateFresh(d1, e1);
    } else {
      assert d + e == d;
    }
  }
}
