/**
 * Listing every value of a string-keyed collection, as the collection's
 * `values()` does. The collection decides the order; the model fixes none,
 * only that every key contributes its value exactly once.
 */
module Listing {

  /** Some enumeration of a finite set of keys, each key exactly once. */
  ghost function Enumerate(keys: set<string>): (ks: seq<string>)
    ensures |ks| == |keys|
    ensures forall k :: k in ks <==> k in keys
    ensures forall i, j :: 0 <= i < j < |ks| ==> ks[i] != ks[j]
    decreases keys
  {
    if keys == {} then []
    else
      var k :| k in keys;
      [k] + Enumerate(keys - {k})
  }

  /** The values of `m`, position by position in the order of `Enumerate(m.Keys)`. */
  ghost function Values<T>(m: map<string, T>): (r: seq<T>)
    ensures |r| == |m|
    ensures forall i :: 0 <= i < |r| ==> Enumerate(m.Keys)[i] in m && r[i] == m[Enumerate(m.Keys)[i]]
    ensures forall k :: k in m ==> m[k] in r
  {
    var ks := Enumerate(m.Keys);
    var r := seq(|ks|, i requires 0 <= i < |ks| => m[ks[i]]);
    forall k | k in m ensures m[k] in r {
      var i :| 0 <= i < |ks| && ks[i] == k;
      assert r[i] == m[k];
    }
    r
  }
}
