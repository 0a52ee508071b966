/** Ruby's `Hash` as the scripts use it: string keys, `h[k] = v`, `h[k]`
    and `h.keys`. A hash remembers the order in which keys were first
    stored; storing under a key it already holds replaces the value and
    keeps the key where it was. */
module RubyHash {

  import opened Wrappers

  datatype Dict<V> = Dict(keys: seq<string>, at: map<string, V>)

  predicate Distinct(ks: seq<string>) {
    forall i, j :: 0 <= i < j < |ks| ==> ks[i] != ks[j]
  }

  /** `keys` lists every stored key exactly once. */
  predicate Valid<V>(d: Dict<V>) {
    && Distinct(d.keys)
    && (forall k :: k in d.keys ==> k in d.at)
    && (forall k :: k in d.at ==> k in d.keys)
  }

  /** `{ }`. */
  function Empty<V>(): Dict<V> {
    Dict([], map[])
  }

  /** `h[k]`: `nil` for a key that was never stored. */
  function Get<V>(d: Dict<V>, k: string): Option<V> {
    if k in d.at then Some(d.at[k]) else None
  }

  /** `h[k] = v`. */
  function Put<V>(d: Dict<V>, k: string, v: V): (r: Dict<V>)
    requires Valid(d)
    ensures Valid(r)
    ensures Get(r, k) == Some(v)
    ensures forall k' :: k' != k ==> Get(r, k') == Get(d, k')
    ensures d.keys <= r.keys
    ensures |r.keys| == if k in d.keys then |d.keys| else |d.keys| + 1
  {
    if k in d.at then Dict(d.keys, d.at[k := v])
    else Dict(d.keys + [k], d.at[k := v])
  }

  /** `pairs.each { |k, v| h[k] = v }`. */
  function PutAll<V>(d: Dict<V>, pairs: seq<(string, V)>): (r: Dict<V>)
    requires Valid(d)
    ensures Valid(r)
    ensures d.keys <= r.keys
  {
    if pairs == [] then d
    else
      var last := pairs[|pairs| - 1];
      Put(PutAll(d, pairs[..|pairs| - 1]), last.0, last.1)
  }

  /** After storing `pairs`, a key holds the value of its last pair. */
  lemma PutAllLastWins<V>(d: Dict<V>, pairs: seq<(string, V)>, i: nat)
    requires Valid(d) && i < |pairs|
    requires forall j :: i < j < |pairs| ==> pairs[j].0 != pairs[i].0
    ensures Get(PutAll(d, pairs), pairs[i].0) == Some(pairs[i].1)
  {
    var front := pairs[..i + 1];
    var back := pairs[i + 1..];
    assert pairs == front + back;
    PutAllAppend(d, front, back);
    PutAllLastOfFront(d, pairs, i);
    LaterPairsAvoid(pairs, i);
    PutAllUntouched(PutAll(d, front), back, pairs[i].0);
  }

  lemma PutAllLastOfFront<V>(d: Dict<V>, pairs: seq<(string, V)>, i: nat)
    requires Valid(d) && i < |pairs|
    ensures Get(PutAll(d, pairs[..i + 1]), pairs[i].0) == Some(pairs[i].1)
  {
    var front := pairs[..i + 1];
    assert front[..i] == pairs[..i] && front[i] == pairs[i];
  }

  lemma LaterPairsAvoid<V>(pairs: seq<(string, V)>, i: nat)
    requires i < |pairs|
    requires forall j :: i < j < |pairs| ==> pairs[j].0 != pairs[i].0
    ensures !Mentions(pairs[i + 1..], pairs[i].0)
  {
    var back := pairs[i + 1..];
    forall l | 0 <= l < |back|
      ensures back[l].0 != pairs[i].0
    {
      assert back[l] == pairs[i + 1 + l];
    }
  }

  /** Storing two lists one after the other is storing them joined. */
  lemma {:induction false} PutAllAppend<V>(d: Dict<V>, a: seq<(string, V)>, b: seq<(string, V)>)
    requires Valid(d)
    ensures PutAll(d, a + b) == PutAll(PutAll(d, a), b)
  {
    if b == [] {
      assert a + b == a;
    } else {
      var n := |b| - 1;
      PutAllAppend(d, a, b[..n]);
      LastOfAppend(a, b);
    }
  }

  lemma LastOfAppend<V>(a: seq<(string, V)>, b: seq<(string, V)>)
    requires b != []
    ensures (a + b)[..|a + b| - 1] == a + b[..|b| - 1]
    ensures (a + b)[|a + b| - 1] == b[|b| - 1]
  {
  }

  /** A key no pair mentions keeps what it held before. */
  lemma {:induction false} PutAllUntouched<V>(d: Dict<V>, pairs: seq<(string, V)>, k: string)
    requires Valid(d) && !Mentions(pairs, k)
    ensures Get(PutAll(d, pairs), k) == Get(d, k)
  {
    if pairs != [] {
      MentionsSnoc(pairs, k);
      PutAllUntouched(d, pairs[..|pairs| - 1], k);
    }
  }

  /** Some pair of `pairs` is stored under `k`. */
  predicate Mentions<V>(pairs: seq<(string, V)>, k: string) {
    exists i :: 0 <= i < |pairs| && pairs[i].0 == k
  }

  lemma PutKeys<V>(d: Dict<V>, k0: string, v: V, k: string)
    requires Valid(d)
    ensures k in Put(d, k0, v).keys <==> k in d.keys || k == k0
  {
  }

  lemma MentionsSnoc<V>(pairs: seq<(string, V)>, k: string)
    requires pairs != []
    ensures Mentions(pairs, k) <==> Mentions(pairs[..|pairs| - 1], k) || pairs[|pairs| - 1].0 == k
  {
    var init := pairs[..|pairs| - 1];
    if Mentions(init, k) {
      var i :| 0 <= i < |init| && init[i].0 == k;
      assert pairs[i].0 == k;
    }
    if Mentions(pairs, k) {
      var i :| 0 <= i < |pairs| && pairs[i].0 == k;
      if i < |init| {
        assert init[i].0 == k;
      }
    }
  }

  lemma MentionsAppendOne<V>(pairs: seq<(string, V)>, e: (string, V), key: string)
    ensures Mentions(pairs + [e], key) <==> Mentions(pairs, key) || e.0 == key
  {
    MentionsSnoc(pairs + [e], key);
    assert (pairs + [e])[..|pairs|] == pairs;
  }

  /** The keys after storing `pairs` are the keys before plus the keys of
      the pairs. */
  lemma {:induction false} PutAllKeys<V>(d: Dict<V>, pairs: seq<(string, V)>, k: string)
    requires Valid(d)
    ensures k in PutAll(d, pairs).keys <==> k in d.keys || Mentions(pairs, k)
  {
    if pairs != [] {
      var init := pairs[..|pairs| - 1];
      var last := pairs[|pairs| - 1];
      PutAllKeys(d, init, k);
      MentionsSnoc(pairs, k);
      PutKeys(PutAll(d, init), last.0, last.1, k);
    }
  }

  /** Storing one more pair after a list is storing the longer list. */
  lemma PutAllSnoc<V>(d: Dict<V>, pairs: seq<(string, V)>, e: (string, V))
    requires Valid(d)
    ensures PutAll(d, pairs + [e]) == Put(PutAll(d, pairs), e.0, e.1)
  {
    assert (pairs + [e])[..|pairs|] == pairs;
  }

  // ---------------------------------------------------------------------
  // A JSON object as `JSON.parse` reads it
  // ---------------------------------------------------------------------

  /** No key occurs twice: the pairs of a hash, as `h.each` hands them out. */
  predicate DistinctKeys<V>(pairs: seq<(string, V)>) {
    forall i, j :: 0 <= i < j < |pairs| ==> pairs[i].0 != pairs[j].0
  }

  /** The keys of the pairs, in order. */
  function KeysOf<V>(pairs: seq<(string, V)>): (ks: seq<string>)
    ensures |ks| == |pairs|
    ensures forall i :: 0 <= i < |pairs| ==> ks[i] == pairs[i].0
  {
    seq(|pairs|, i requires 0 <= i < |pairs| => pairs[i].0)
  }

  /** `h.each { |k, v| ... }`: what the hash holds, in key order. */
  function Entries<V>(d: Dict<V>): (r: seq<(string, V)>)
    requires Valid(d)
    ensures DistinctKeys(r)
    ensures KeysOf(r) == d.keys
    ensures forall i :: 0 <= i < |r| ==> Get(d, r[i].0) == Some(r[i].1)
  {
    seq(|d.keys|, i requires 0 <= i < |d.keys| => (d.keys[i], d.at[d.keys[i]]))
  }

  /** The members of a JSON object as `JSON.parse` reads them into a hash:
      each name once, where it first occurs, with the last value given
      for it. */
  function ParseObject<V>(pairs: seq<(string, V)>): (r: seq<(string, V)>)
    ensures DistinctKeys(r)
  {
    Entries(PutAll(Empty(), pairs))
  }

  /** The parsed object has exactly the names of the text. */
  lemma ParseObjectNames<V>(pairs: seq<(string, V)>, k: string)
    ensures Mentions(ParseObject(pairs), k) <==> Mentions(pairs, k)
  {
    var d := PutAll(Empty(), pairs);
    var r := ParseObject(pairs);
    PutAllKeys(Empty<V>(), pairs, k);
    if k in d.keys {
      var i :| 0 <= i < |d.keys| && d.keys[i] == k;
      assert r[i].0 == k;
    }
    if Mentions(r, k) {
      var i :| 0 <= i < |r| && r[i].0 == k;
      assert KeysOf(r)[i] == k;
    }
  }

  /** Of members with the same name, the parsed object keeps the value of
      the last. */
  lemma ParseObjectLastWins<V>(pairs: seq<(string, V)>, i: nat, j: nat)
    requires i < |pairs|
    requires forall l :: i < l < |pairs| ==> pairs[l].0 != pairs[i].0
    requires j < |ParseObject(pairs)| && ParseObject(pairs)[j].0 == pairs[i].0
    ensures ParseObject(pairs)[j].1 == pairs[i].1
  {
    PutAllLastWins(Empty(), pairs, i);
  }

  /** Storing pairs with distinct keys into an empty hash lists the keys in
      the order of the pairs. */
  lemma {:induction false} PutAllDistinctKeys<V>(pairs: seq<(string, V)>)
    requires DistinctKeys(pairs)
    ensures PutAll(Empty(), pairs).keys == KeysOf(pairs)
  {
    if pairs != [] {
      var n := |pairs| - 1;
      var init := pairs[..n];
      var last := pairs[n];
      assert DistinctKeys(init) by {
        assert forall i :: 0 <= i < n ==> init[i] == pairs[i];
      }
      PutAllDistinctKeys(init);
      var d := PutAll(Empty(), init);
      assert last.0 !in d.keys;
      PutNewKey(d, last.0, last.1);
      KeysOfSnoc(pairs);
    }
  }

  lemma KeysOfSnoc<V>(pairs: seq<(string, V)>)
    requires pairs != []
    ensures KeysOf(pairs) == KeysOf(pairs[..|pairs| - 1]) + [pairs[|pairs| - 1].0]
  {
  }

  lemma PutNewKey<V>(d: Dict<V>, k: string, v: V)
    requires Valid(d) && k !in d.keys
    ensures Put(d, k, v).keys == d.keys + [k]
  {
  }

  /** An object without repeated names parses to itself, so parsing twice
      is parsing once. */
  lemma ParseObjectOfDistinct<V>(pairs: seq<(string, V)>)
    requires DistinctKeys(pairs)
    ensures ParseObject(pairs) == pairs
  {
    var r := ParseObject(pairs);
    PutAllDistinctKeys(pairs);
    assert |r| == |pairs|;
    forall i | 0 <= i < |pairs|
      ensures r[i] == pairs[i]
    {
      assert KeysOf(r)[i] == KeysOf(pairs)[i];
      PutAllLastWins(Empty(), pairs, i);
    }
  }
}
