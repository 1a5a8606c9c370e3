// The copy-in/copy-out map that utilTimeout.c keeps its two indexes in
// (`utilRbTree_GetData`, `utilRbTree_SetData`, `utilRbTree_DelData`,
// `utilRbTree_FindMinimum`).  Those four calls are not in the tree file this
// project models, so the map is abstract: a Dafny `map` keyed by RbKey_t,
// with the minimum found by its ordering rather than by a tree walk.  A store
// that can fail takes its result as a parameter.
module OrderedMap {
  import opened Wrappers
  import opened RbCore

  /** The error the map reports for an absent key; its value is not in the tree file shown. */
  const RB_ERR_NO_FOUND: int := 10008

  /** Every non-empty key set has a least element, found by removing one element at a time. */
  lemma {:induction false} LeastOf(s: set<Key>) returns (least: Key)
    requires s != {}
    ensures least in s && forall j :: j in s ==> least <= j
  {
    var x :| x in s;
    if s == {x} {
      least := x;
    } else {
      var m := LeastOf(s - {x});
      least := if x <= m then x else m;
      forall j | j in s
        ensures least <= j
      {
        if j != x {
          assert j in s - {x};
        }
      }
    }
  }

  lemma MinExists(s: set<Key>)
    requires s != {}
    ensures exists k :: k in s && forall j :: j in s ==> k <= j
  {
    var least := LeastOf(s);
  }

  /** The least element of a non-empty key set. */
  function MinKey(s: set<Key>): (k: Key)
    requires s != {}
    ensures k in s && forall j :: j in s ==> k <= j
  {
    MinExists(s);
    var k :| k in s && forall j :: j in s ==> k <= j;
    k
  }

  /** `utilRbTree_FindMinimum`: the entry with the smallest key, or nothing for an empty map. */
  function FindMinimum<V>(m: map<Key, V>): (r: Option<(Key, V)>)
    ensures r.None? <==> m == map[]
    ensures r.Some? ==> r.value.0 in m && m[r.value.0] == r.value.1
    ensures r.Some? ==> forall k :: k in m ==> r.value.0 <= k
  {
    if m == map[] then None
    else
      assert m.Keys != {} by {
        var k :| k in m;
        assert k in m.Keys;
      }
      var k := MinKey(m.Keys);
      Some((k, m[k]))
  }

  /** `utilRbTree_SetData`: store `v` under `k` (replacing any value), unless the store reports a negative result. */
  function SetData<V>(m: map<Key, V>, k: Key, v: V, result: int): (m': map<Key, V>)
    ensures result >= 0 ==> k in m' && m'[k] == v && m'.Keys == m.Keys + {k}
    ensures result >= 0 ==> forall j :: j in m && j != k ==> j in m' && m'[j] == m[j]
    ensures result < 0 ==> m' == m
  {
    if result < 0 then m else m[k := v]
  }

  /** The minimum depends only on the keys: adding a larger key leaves it alone. */
  lemma FindMinimumAfterSet<V>(m: map<Key, V>, k: Key, v: V)
    requires m != map[] && FindMinimum(m).value.0 < k
    ensures FindMinimum(m[k := v]) == FindMinimum(m)
  {
    var a, b := FindMinimum(m), FindMinimum(m[k := v]);
    assert a.value.0 in m[k := v];
    assert b.value.0 <= a.value.0;
    assert b.value.0 != k;
    assert b.value.0 in m;
  }
}
