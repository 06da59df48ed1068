/** Maps from keys to lists of indices, as `NestedVec` of src/util/nested.rs pushes to and removes from them. */
module NestedLists {
  import opened Wrappers

  type Lists<!K> = map<K, seq<nat>>

  function At<K>(m: Lists<K>, k: K): seq<nat> {
    if k in m then m[k] else []
  }

  /** `nested_push` */
  function PushTo<K>(m: Lists<K>, k: K, v: nat): Lists<K> {
    m[k := At(m, k) + [v]]
  }

  /** `nested_remove`: the list stays, without the value. */
  function RemoveFrom<K>(m: Lists<K>, k: K, v: nat): Lists<K> {
    if k in m then m[k := Without(m[k], v)] else m
  }

  function Without(s: seq<nat>, v: nat): seq<nat> {
    if s == [] then [] else (if s[0] == v then [] else [s[0]]) + Without(s[1..], v)
  }

  ghost predicate Distinct(s: seq<nat>) {
    forall i, j | 0 <= i < j < |s| :: s[i] != s[j]
  }

  /** Each index is listed once under its own key, and nothing else is listed. */
  ghost predicate Indexes<K(!new)>(m: Lists<K>, keys: seq<Option<K>>) {
    forall k :: Distinct(At(m, k)) && forall i: nat :: i in At(m, k) <==> i < |keys| && keys[i] == Some(k)
  }

  lemma {:induction false} WithoutIs(s: seq<nat>, v: nat)
    ensures forall i: nat :: i in Without(s, v) <==> i in s && i != v
    ensures Distinct(s) ==> Distinct(Without(s, v))
  {
    if s != [] {
      WithoutIs(s[1..], v);
      assert s == [s[0]] + s[1..];
      if Distinct(s) {
        forall i, j | 0 <= i < j < |s[1..]| ensures s[1..][i] != s[1..][j] { assert s[i + 1] != s[j + 1]; }
        assert s[0] !in s[1..] by {
          forall i | 0 <= i < |s[1..]| ensures s[1..][i] != s[0] { assert s[i + 1] != s[0]; }
        }
      }
    }
  }

  lemma PushNew<K(!new)>(m: Lists<K>, keys: seq<Option<K>>, k: K)
    requires Indexes(m, keys)
    ensures Indexes(PushTo(m, k, |keys|), keys + [Some(k)])
  {
    forall key ensures Distinct(At(PushTo(m, k, |keys|), key))
                       && forall i: nat :: i in At(PushTo(m, k, |keys|), key) <==>
                            i < |keys| + 1 && (keys + [Some(k)])[i] == Some(key) {
      assert At(PushTo(m, k, |keys|), key) == if key == k then At(m, k) + [|keys|] else At(m, key);
      assert |keys| !in At(m, key);
    }
  }

  lemma SkipNew<K(!new)>(m: Lists<K>, keys: seq<Option<K>>)
    requires Indexes(m, keys)
    ensures Indexes(m, keys + [None])
  {
    forall k, i: nat ensures i in At(m, k) <==> i < |keys| + 1 && (keys + [None])[i] == Some(k) { }
  }

  lemma TakeOut<K(!new)>(m: Lists<K>, keys: seq<Option<K>>, k: K, i: nat)
    requires Indexes(m, keys) && i < |keys| && keys[i] == Some(k)
    ensures Indexes(RemoveFrom(m, k, i), keys[i := None])
  {
    forall key ensures Distinct(At(RemoveFrom(m, k, i), key))
                       && forall j: nat :: j in At(RemoveFrom(m, k, i), key) <==>
                            j < |keys| && keys[i := None][j] == Some(key) {
      WithoutIs(At(m, k), i);
      assert At(RemoveFrom(m, k, i), key) == if key == k then Without(At(m, k), i) else At(m, key);
    }
  }

  lemma PutIn<K(!new)>(m: Lists<K>, keys: seq<Option<K>>, k: K, i: nat)
    requires Indexes(m, keys) && i < |keys| && keys[i] == None
    ensures Indexes(PushTo(m, k, i), keys[i := Some(k)])
  {
    forall key ensures Distinct(At(PushTo(m, k, i), key))
                       && forall j: nat :: j in At(PushTo(m, k, i), key) <==>
                            j < |keys| && keys[i := Some(k)][j] == Some(key) {
      assert At(PushTo(m, k, i), key) == if key == k then At(m, k) + [i] else At(m, key);
      assert i !in At(m, key);
    }
  }
}
