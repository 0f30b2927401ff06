/**
  `Dictionary<string, string>` as the codec uses it: a table of distinct keys
  whose entries enumerate in insertion order (the order `foreach` visits them
  when nothing has been removed). Assigning through the indexer replaces the
  value of a present key in place and appends a new key; `Add` refuses a
  present key.
*/
module Dictionaries {
  import opened Wrappers

  /** The keys of a list of entries. */
  function KeysOf<K, V>(e: seq<(K, V)>): set<K>
  {
    if e == [] then {} else {e[0].0} + KeysOf(e[1..])
  }

  /** No key occurs twice. */
  predicate DistinctKeys<K(==,!new), V>(e: seq<(K, V)>)
  {
    e == [] || (e[0].0 !in KeysOf(e[1..]) && DistinctKeys(e[1..]))
  }

  /** The value stored under k, if any (`TryGetValue`). */
  function Lookup<K(==,!new), V>(e: seq<(K, V)>, k: K): (r: Option<V>)
    ensures r.Some? <==> k in KeysOf(e)
  {
    if e == [] then None
    else if e[0].0 == k then Some(e[0].1)
    else Lookup(e[1..], k)
  }

  /**
    `dictionary[k] = v`: the value of a present key is replaced where it stands,
    a new key goes last; nothing else changes.
  */
  function Upsert<K(==,!new), V>(e: seq<(K, V)>, k: K, v: V): (r: seq<(K, V)>)
    ensures KeysOf(r) == KeysOf(e) + {k}
    ensures Lookup(r, k) == Some(v)
    ensures forall k' :: k' != k ==> Lookup(r, k') == Lookup(e, k')
    ensures k in KeysOf(e) ==> |r| == |e|
    ensures k !in KeysOf(e) ==> r == e + [(k, v)]
    ensures DistinctKeys(e) ==> DistinctKeys(r)
  {
    if e == [] then [(k, v)]
    else if e[0].0 == k then [(k, v)] + e[1..]
    else
      var r := [e[0]] + Upsert(e[1..], k, v);
      assert r[1..] == Upsert(e[1..], k, v);
      r
  }

  /** The keys of two lists of entries laid end to end. */
  lemma {:induction false} AppendKeys<K, V>(e: seq<(K, V)>, f: seq<(K, V)>)
    ensures KeysOf(e + f) == KeysOf(e) + KeysOf(f)
  {
    if e != [] {
      assert (e + f)[0] == e[0] && (e + f)[1..] == e[1..] + f;
      AppendKeys(e[1..], f);
      assert KeysOf(e + f) == {e[0].0} + KeysOf(e[1..] + f);
    } else {
      assert e + f == f;
    }
  }

  /** Two lists of entries laid end to end have distinct keys exactly when each does and they share none. */
  lemma {:induction false} DistinctConcat<K(!new), V>(a: seq<(K, V)>, b: seq<(K, V)>)
    ensures DistinctKeys(a + b) <==> DistinctKeys(a) && DistinctKeys(b) && KeysOf(a) !! KeysOf(b)
  {
    if a == [] {
      assert a + b == b;
    } else {
      assert (a + b)[0] == a[0] && (a + b)[1..] == a[1..] + b;
      DistinctConcat(a[1..], b);
      AppendKeys(a[1..], b);
    }
  }

  /**
    Entries appended one at a time keep their keys distinct exactly as long
    as each new key is absent from those before it.
  */
  lemma DistinctFirst<K(!new), V>(acc: seq<(K, V)>, e: seq<(K, V)>)
    requires e != [] && DistinctKeys(acc)
    ensures acc + [e[0]] + e[1..] == acc + e
    ensures e[0].0 !in KeysOf(acc) ==> DistinctKeys(acc + [e[0]])
    ensures e[0].0 in KeysOf(acc) ==> !DistinctKeys(acc + e)
  {
    var p := e[0];
    assert [p][1..] == [];
    assert KeysOf([p]) == {p.0};
    assert DistinctKeys([p]);
    assert acc + [p] + e[1..] == acc + e by {
      assert e == [p] + e[1..];
    }
    if p.0 in KeysOf(acc) {
      assert p.0 in KeysOf(e);
      DistinctConcat(acc, e);
    } else {
      DistinctConcat(acc, [p]);
    }
  }

  /** Storing each entry of e in turn through the indexer. */
  function UpsertAll<K(==,!new), V>(acc: seq<(K, V)>, e: seq<(K, V)>): seq<(K, V)>
    decreases |e|
  {
    if e == [] then acc else UpsertAll(Upsert(acc, e[0].0, e[0].1), e[1..])
  }

  /**
    Storing distinct-keyed entries into a dictionary overwrites the keys they
    share with it, keeps the keys they do not mention, and never fails.
  */
  lemma {:induction false} UpsertAllLookup<K(!new), V>(acc: seq<(K, V)>, e: seq<(K, V)>, k: K)
    requires DistinctKeys(e)
    ensures Lookup(UpsertAll(acc, e), k) == if k in KeysOf(e) then Lookup(e, k) else Lookup(acc, k)
    decreases |e|
  {
    if e != [] {
      UpsertAllLookup(Upsert(acc, e[0].0, e[0].1), e[1..], k);
    }
  }

  /** Storing entries whose keys are all new appends them in order; into an empty dictionary it rebuilds them exactly. */
  lemma {:induction false} UpsertAllFresh<K(!new), V>(acc: seq<(K, V)>, e: seq<(K, V)>)
    requires DistinctKeys(e) && KeysOf(acc) !! KeysOf(e)
    ensures UpsertAll(acc, e) == acc + e
    decreases |e|
  {
    if e != [] {
      var k := e[0].0;
      assert KeysOf(e) == {k} + KeysOf(e[1..]);
      assert k !in KeysOf(acc);
      var acc' := Upsert(acc, k, e[0].1);
      assert acc' == acc + [e[0]];
      assert KeysOf(acc') == KeysOf(acc) + {k};
      assert KeysOf(acc') !! KeysOf(e[1..]);
      UpsertAllFresh(acc', e[1..]);
      assert acc' + e[1..] == acc + e;
    }
  }

  /**
    A mutable dictionary. `entries` lists its contents in enumeration order;
    the source's `Dictionary<string, string>` is `Dictionary<Str, Str>`.
  */
  class Dictionary<K(==,!new), V> {
    var entries: seq<(K, V)>

    ghost predicate Valid()
      reads this
    {
      DistinctKeys(entries)
    }

    constructor ()
      ensures Valid() && entries == []
    {
      entries := [];
    }

    function Count(): nat
      reads this
    {
      |entries|
    }

    predicate ContainsKey(k: K)
      reads this
    {
      k in KeysOf(entries)
    }

    /** The indexer's setter. */
    method Set(k: K, v: V)
      requires Valid()
      modifies this
      ensures Valid()
      ensures entries == Upsert(old(entries), k, v)
    {
      entries := Upsert(entries, k, v);
    }

    /** `Add`: appends a new key; throws (here: returns false, changing nothing) when the key is present. */
    method Add(k: K, v: V) returns (ok: bool)
      requires Valid()
      modifies this
      ensures Valid()
      ensures ok <==> !old(ContainsKey(k))
      ensures entries == if ok then old(entries) + [(k, v)] else old(entries)
    {
      ok := k !in KeysOf(entries);
      if ok {
        entries := Upsert(entries, k, v);
      }
    }
  }
}
