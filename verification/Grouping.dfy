/** Splitting a sequence by key: which positions belong to a key, and the keys in order of appearance. */
module Grouping {
  /** The positions of a key, in order. */
  function Positions<K(==)>(ks: seq<K>, key: K): seq<nat> {
    if ks == [] then [] else
    var n := |ks| - 1;
    Positions(ks[..n], key) + if ks[n] == key then [n] else []
  }

  ghost predicate AllOf<K>(ks: seq<K>, key: K, at: seq<nat>) {
    forall p :: 0 <= p < |at| ==> at[p] < |ks| && ks[at[p]] == key
  }

  ghost predicate Rising(at: seq<nat>) { forall p, q :: 0 <= p < q < |at| ==> at[p] < at[q] }

  lemma {:induction false} PositionsSound<K>(ks: seq<K>, key: K)
    ensures AllOf(ks, key, Positions(ks, key)) && Rising(Positions(ks, key))
  {
    if ks != [] {
      var n := |ks| - 1;
      PositionsSound(ks[..n], key);
    }
  }

  lemma {:induction false} PositionsComplete<K>(ks: seq<K>, key: K, i: nat)
    requires i < |ks| && ks[i] == key
    ensures i in Positions(ks, key)
  {
    var n := |ks| - 1;
    if i < n { PositionsComplete(ks[..n], key, i); }
  }

  lemma PositionsExact<K>(ks: seq<K>, key: K)
    ensures var at := Positions(ks, key);
      && (forall p :: 0 <= p < |at| ==> at[p] < |ks| && ks[at[p]] == key)
      && (forall p, q :: 0 <= p < q < |at| ==> at[p] < at[q])
      && (forall i :: 0 <= i < |ks| && ks[i] == key ==> i in at)
      && (at == [] <==> key !in ks)
  {
    PositionsSound(ks, key);
    forall i | 0 <= i < |ks| && ks[i] == key ensures i in Positions(ks, key) {
      PositionsComplete(ks, key, i);
    }
    var at := Positions(ks, key);
    if at != [] { assert ks[at[0]] in ks; }
  }

  /** The keys that occur, each once, in the order in which they first do. */
  function Distinct<K(==)>(ks: seq<K>): seq<K> {
    if ks == [] then [] else
    var n := |ks| - 1;
    var before := Distinct(ks[..n]);
    if ks[n] in before then before else before + [ks[n]]
  }

  lemma {:induction false} DistinctExact<K(!new)>(ks: seq<K>)
    ensures var keys := Distinct(ks);
      && (forall key :: key in keys <==> key in ks)
      && (forall s, t :: 0 <= s < t < |keys| ==> keys[s] != keys[t])
  {
    if ks != [] {
      var n := |ks| - 1;
      DistinctExact(ks[..n]);
      assert forall key :: key in ks <==> key in ks[..n] || key == ks[n];
    }
  }

  lemma Extend<K(!new)>(ks: seq<K>, k: K, key: K)
    ensures Positions(ks + [k], key) == Positions(ks, key) + if k == key then [|ks|] else []
    ensures Distinct(ks + [k]) == if k in ks then Distinct(ks) else Distinct(ks) + [k]
  {
    assert (ks + [k])[..|ks|] == ks;
    DistinctExact(ks);
  }
}
