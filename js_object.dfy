/** Plain JavaScript objects with string values, as the signer builds them:
    entries in insertion order, each key at most once. Assigning to a
    property (`o.k = v`) replaces the value of an existing key in place and
    appends a new key at the end; the spread `{...a, ...b}` copies `a` and
    then assigns every entry of `b` in order.

    Engines list integer-like keys first in `Object.keys`; every use of the
    key list here sorts it, so that ordering rule is not represented. */
module JsObject {
  import opened KeyOrder

  type Entry = (string, string)

  predicate DistinctKeys(e: seq<Entry>) {
    forall i, j :: 0 <= i < j < |e| ==> e[i].0 != e[j].0
  }

  type Obj = e: seq<Entry> | DistinctKeys(e) witness []

  /** `Object.keys(o)`. */
  function Keys(o: seq<Entry>): (ks: seq<string>)
    ensures |ks| == |o|
  {
    seq(|o|, i requires 0 <= i < |o| => o[i].0)
  }

  /** The key-value mapping the entries stand for, forgetting the order
      (a later entry wins, as a later assignment does). */
  function ToMap(o: seq<Entry>): (m: map<string, string>)
  {
    if o == [] then map[]
    else ToMap(o[..|o| - 1])[o[|o| - 1].0 := o[|o| - 1].1]
  }

  lemma {:induction false} ToMapDomain(o: seq<Entry>)
    ensures forall k :: k in ToMap(o) <==> k in Keys(o)
  {
    if o != [] {
      ToMapDomain(o[..|o| - 1]);
      assert Keys(o) == Keys(o[..|o| - 1]) + [o[|o| - 1].0];
    }
  }

  lemma {:induction false} ToMapValue(o: Obj, i: nat)
    requires i < |o|
    ensures o[i].0 in ToMap(o) && ToMap(o)[o[i].0] == o[i].1
  {
    var n := |o| - 1;
    if i < n {
      var init: Obj := o[..n];
      ToMapValue(init, i);
    }
  }

  lemma KeysDistinct(o: Obj)
    ensures Distinct(Keys(o))
  {
  }

  /** Replacing the value of entry `i` updates the mapping at its key. */
  lemma {:induction false} ToMapReplace(o: Obj, i: nat, v: string)
    requires i < |o|
    ensures ToMap(o[i := (o[i].0, v)]) == ToMap(o)[o[i].0 := v]
  {
    var n := |o| - 1;
    var o' := o[i := (o[i].0, v)];
    if i < n {
      var init: Obj := o[..n];
      assert o'[..n] == init[i := (o[i].0, v)];
      ToMapReplace(init, i, v);
      assert o[i].0 != o[n].0;
    } else {
      assert o'[..n] == o[..n];
    }
  }

  /** The position of key `k`. */
  function IndexOf(o: seq<Entry>, k: string): (i: nat)
    requires k in Keys(o)
    ensures i < |o| && o[i].0 == k
  {
    if o[0].0 == k then 0
    else
      assert k in Keys(o[1..]) by {
        var j :| 0 <= j < |o| && Keys(o)[j] == k;
        assert Keys(o[1..])[j - 1] == k;
      }
      1 + IndexOf(o[1..], k)
  }

  /** `o[k] = v`. */
  function Put(o: Obj, k: string, v: string): (r: Obj)
    ensures ToMap(r) == ToMap(o)[k := v]
    ensures Keys(r) == if k in Keys(o) then Keys(o) else Keys(o) + [k]
  {
    if k in Keys(o) then
      var i := IndexOf(o, k);
      ToMapReplace(o, i, v);
      var r: Obj := o[i := (k, v)];
      assert Keys(r) == Keys(o);
      r
    else
      assert forall i :: 0 <= i < |o| ==> o[i].0 == Keys(o)[i];
      var r: Obj := o + [(k, v)];
      assert r[..|r| - 1] == o;
      assert Keys(r) == Keys(o) + [k];
      r
  }

  /** `{...a, ...b}`: the union of the two objects, `b` winning where both
      have a key. */
  function Spread(a: Obj, b: Obj): (r: Obj)
    ensures ToMap(r) == ToMap(a) + ToMap(b)
  {
    if b == [] then a
    else
      var n := |b| - 1;
      assert DistinctKeys(b[..n]) by {
        forall i, j | 0 <= i < j < n ensures b[..n][i].0 != b[..n][j].0 {
          assert b[..n][i] == b[i] && b[..n][j] == b[j];
        }
      }
      var init: Obj := b[..n];
      Put(Spread(a, init), b[n].0, b[n].1)
  }

  /** The keys of the merge are the keys of either object, and every value
      comes from `b` when `b` has the key and from `a` otherwise. */
  lemma SpreadUnion(a: Obj, b: Obj)
    ensures forall k :: k in Keys(Spread(a, b)) <==> k in Keys(a) || k in Keys(b)
    ensures forall k :: k in ToMap(b) ==> ToMap(Spread(a, b))[k] == ToMap(b)[k]
    ensures forall k :: k in ToMap(a) && k !in ToMap(b) ==> ToMap(Spread(a, b))[k] == ToMap(a)[k]
  {
    ToMapDomain(a);
    ToMapDomain(b);
    ToMapDomain(Spread(a, b));
  }
}
