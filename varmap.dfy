/** PHP's ordered associative array with string keys, as the renderer's variable map `$vars` and the
    custom options use it: a sequence of (key, value) pairs in insertion order. */
module VarMap {
  import opened Text

  type VarMap = seq<(string, string)>

  function Keys(m: VarMap): (r: seq<string>)
    ensures |r| == |m|
    ensures forall i :: 0 <= i < |m| ==> r[i] == m[i].0
  {
    if m == [] then [] else [m[0].0] + Keys(m[1..])
  }

  /** `$m[$k]`: the value stored under `k`, if any. */
  function Lookup(m: VarMap, k: string): (r: Option<string>)
    ensures r.None? <==> k !in Keys(m)
    ensures r.Some? ==> (k, r.value) in m
  {
    if m == [] then None else if m[0].0 == k then Some(m[0].1) else Lookup(m[1..], k)
  }

  /** The value of a key that only the last pair carries. */
  lemma {:induction false} LookupLast(m: VarMap, k: string, v: string)
    requires forall i :: 0 <= i < |m| ==> m[i].0 != k
    ensures Lookup(m + [(k, v)], k) == Some(v)
  {
    if m != [] {
      assert (m + [(k, v)])[1..] == m[1..] + [(k, v)];
      LookupLast(m[1..], k, v);
    }
  }

  /** `$m[$k] = $v`: an existing key keeps its position and gets the new value; a new key is appended. */
  function Put(m: VarMap, k: string, v: string): (r: VarMap)
    ensures Lookup(r, k) == Some(v)
    ensures forall k' :: k' != k ==> Lookup(r, k') == Lookup(m, k')
  {
    if m == [] then [(k, v)]
    else if m[0].0 == k then [(k, v)] + m[1..]
    else [m[0]] + Put(m[1..], k, v)
  }

  /** Put never reorders: an existing key keeps its place and a new key goes last. */
  lemma {:induction false} PutKeys(m: VarMap, k: string, v: string)
    ensures Keys(Put(m, k, v)) == if k in Keys(m) then Keys(m) else Keys(m) + [k]
  {
    if m != [] && m[0].0 != k {
      PutKeys(m[1..], k, v);
      assert Keys(m) == [m[0].0] + Keys(m[1..]);
      assert Put(m, k, v)[1..] == Put(m[1..], k, v);
    }
  }

  /** No key appears twice (true of every PHP array). */
  predicate UniqueKeys(m: VarMap) {
    forall i, j :: 0 <= i < j < |m| ==> m[i].0 != m[j].0
  }

  /** Put keeps keys unique. */
  lemma {:induction false} PutUnique(m: VarMap, k: string, v: string)
    requires UniqueKeys(m)
    ensures UniqueKeys(Put(m, k, v))
  {
    var r := Put(m, k, v);
    PutKeys(m, k, v);
    var ks := Keys(r);
    var km := Keys(m);
    forall i, j | 0 <= i < j < |r|
      ensures r[i].0 != r[j].0
    {
      assert r[i].0 == ks[i] && r[j].0 == ks[j];
      if j < |m| {
        assert ks[i] == km[i] == m[i].0 && ks[j] == km[j] == m[j].0;
      } else {
        assert k !in km && ks[j] == k && ks[i] == km[i];
      }
    }
  }
}
