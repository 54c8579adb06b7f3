/** Filling a Go map by assignment in a loop: a sequence of key/value writes, where a
    later write of a key replaces an earlier one. */
module Assoc {

  /** The map left by writing the pairs of `ps` in order. */
  function MapOfPairs<K(==), V>(ps: seq<(K, V)>): map<K, V> {
    if ps == [] then map[]
    else MapOfPairs(ps[..|ps| - 1])[ps[|ps| - 1].0 := ps[|ps| - 1].1]
  }

  /** The keys of the map are the keys the pairs write. */
  lemma {:induction false} MapOfPairsKeys<K, V>(ps: seq<(K, V)>)
    ensures MapOfPairs(ps).Keys == set i | 0 <= i < |ps| :: ps[i].0
  {
    if ps != [] {
      var n := |ps| - 1;
      MapOfPairsKeys(ps[..n]);
      assert (set i | 0 <= i < |ps| :: ps[i].0) == (set i | 0 <= i < n :: ps[..n][i].0) + {ps[n].0};
    }
  }

  /** The value of a key is the one written by the last pair with that key. */
  lemma {:induction false} LastWriterWins<K, V>(ps: seq<(K, V)>, i: nat)
    requires i < |ps|
    requires forall j :: i < j < |ps| ==> ps[j].0 != ps[i].0
    ensures ps[i].0 in MapOfPairs(ps) && MapOfPairs(ps)[ps[i].0] == ps[i].1
  {
    if i < |ps| - 1 {
      LastWriterWins(ps[..|ps| - 1], i);
    }
  }

  /** Every value in the map was written by a pair that no later pair overrides. */
  lemma {:induction false} ValueFromLastWriter<K, V>(ps: seq<(K, V)>, k: K)
    requires k in MapOfPairs(ps)
    ensures exists i :: 0 <= i < |ps| && ps[i] == (k, MapOfPairs(ps)[k])
                        && forall j :: i < j < |ps| ==> ps[j].0 != k
  {
    var n := |ps| - 1;
    if ps[n].0 == k {
      assert ps[n] == (k, MapOfPairs(ps)[k]);
    } else {
      var init := ps[..n];
      ValueFromLastWriter(init, k);
      var i :| 0 <= i < n && init[i] == (k, MapOfPairs(init)[k])
               && forall j :: i < j < n ==> init[j].0 != k;
      assert MapOfPairs(ps)[k] == MapOfPairs(init)[k];
      assert ps[i] == init[i];
      forall j | i < j < |ps|
        ensures ps[j].0 != k
      {
        if j < n {
          assert ps[j] == init[j];
        }
      }
    }
  }

  /** Writing one more pair updates its key. */
  lemma MapOfPairsSnoc<K, V>(ps: seq<(K, V)>, p: (K, V))
    ensures MapOfPairs(ps + [p]) == MapOfPairs(ps)[p.0 := p.1]
  {
    assert (ps + [p])[..|ps|] == ps;
  }

  lemma AppendAssoc<T>(x: seq<T>, y: seq<T>, z: seq<T>)
    ensures (x + y) + z == x + (y + z)
  {
  }

  /** Updating the right operand of a union updates the union. */
  lemma UnionUpdate<K, V>(m: map<K, V>, x: map<K, V>, k: K, v: V)
    ensures m + x[k := v] == (m + x)[k := v]
  {
  }

  /** Writing `a` and then `b` leaves `b`'s values wherever both write a key. */
  lemma {:induction false} MapOfPairsAppend<K, V>(a: seq<(K, V)>, b: seq<(K, V)>)
    ensures MapOfPairs(a + b) == MapOfPairs(a) + MapOfPairs(b)
  {
    if b == [] {
      assert a + b == a;
    } else {
      var n := |b| - 1;
      assert (a + b)[..|a + b| - 1] == a + b[..n];
      MapOfPairsAppend(a, b[..n]);
    }
  }
}
