/** The order queries the sources ask of a `BTreeMap`'s keys: `range(..=a).next_back()` and its kin. */
module OrderedKeys {
  import opened Wrappers

  lemma SomeMember(keys: set<int>)
    ensures keys == {} || exists k :: k in keys
  {
    if forall k :: k !in keys {
      assert keys == {};
    }
  }

  lemma {:induction false} GreatestExists(keys: set<int>)
    requires keys != {}
    ensures exists m :: m in keys && forall k | k in keys :: k <= m
  {
    SomeMember(keys);
    var m :| m in keys;
    var rest := keys - {m};
    if rest == {} {
      assert keys == {m} + rest;
    } else {
      GreatestExists(rest);
      var n :| n in rest && forall k | k in rest :: k <= n;
      assert forall k | k in keys :: k == m || k in rest;
      assert (if m <= n then n else m) in keys;
    }
  }

  /** The greatest key. */
  function Greatest(keys: set<int>): (m: int)
    requires keys != {}
    ensures m in keys && forall k | k in keys :: k <= m
  {
    GreatestExists(keys);
    var m :| m in keys && forall k | k in keys :: k <= m;
    m
  }

  /** The least key. */
  function Least(keys: set<int>): (m: int)
    requires keys != {}
    ensures m in keys && forall k | k in keys :: m <= k
  {
    var negated := set k | k in keys :: -k;
    assert negated != {} by { SomeMember(keys); var k :| k in keys; assert -k in negated; }
    var m := -Greatest(negated);
    assert m in keys;
    assert forall k | k in keys :: m <= k by { forall k | k in keys ensures m <= k { assert -k in negated; } }
    m
  }

  /** `range(..=a).next_back()`: the greatest key at or below `a`. */
  function Floor(keys: set<int>, a: int): (r: Option<int>)
    ensures r.None? <==> forall k | k in keys :: a < k
    ensures r.Some? ==> r.value in keys && r.value <= a && forall k | k in keys && k <= a :: k <= r.value
  {
    var below := set k | k in keys && k <= a;
    assert forall k | k in keys && k <= a :: k in below;
    if below == {} then None else Some(Greatest(below))
  }

  /** `range(a..).next()`: the least key at or above `a`. */
  function Ceiling(keys: set<int>, a: int): (r: Option<int>)
    ensures r.None? <==> forall k | k in keys :: k < a
    ensures r.Some? ==> r.value in keys && a <= r.value && forall k | k in keys && a <= k :: r.value <= k
  {
    var above := set k | k in keys && a <= k;
    assert forall k | k in keys && a <= k :: k in above;
    if above == {} then None else Some(Least(above))
  }
}
