/**
 Reference counting over a heap modelled as maps.

 Every handle model in this project keeps the handles that are alive as a map from
 the handle to the box (or node, or counter) it points at. The number of handles
 attached to a box is then `Count(handles, box)`, and each box's stored use count is
 kept equal to it. The lemmas say how that number moves when one handle is created,
 destroyed or redirected.
 */
module RefCount {

  /** The number of keys of `m` that are mapped to `v`. */
  ghost function Count<K, V>(m: map<K, V>, v: V): nat
  {
    |set k | k in m && m[k] == v|
  }

  /** Dropping one handle lowers the count of the box it pointed at by one, and no other. */
  lemma CountRemove<K, V>(m: map<K, V>, k: K, v: V)
    requires k in m
    ensures Count(m - {k}, v) == Count(m, v) - (if m[k] == v then 1 else 0)
  {
    var before := set j | j in m && m[j] == v;
    var after := set j | j in m - {k} && (m - {k})[j] == v;
    if m[k] == v {
      assert after == before - {k};
    } else {
      assert after == before;
    }
  }

  /** Attaching a new handle raises the count of its box by exactly one, and no other. */
  lemma CountInsert<K, V>(m: map<K, V>, k: K, w: V, v: V)
    requires k !in m
    ensures Count(m[k := w], v) == Count(m, v) + (if w == v then 1 else 0)
  {
    var before := set j | j in m && m[j] == v;
    var n := m[k := w];
    var after := set j | j in n && n[j] == v;
    if w == v {
      assert after == before + {k};
    } else {
      assert after == before;
    }
  }

  /** Redirecting a handle from one box to another moves one unit of count between them. */
  lemma CountUpdate<K, V>(m: map<K, V>, k: K, w: V, v: V)
    requires k in m
    ensures Count(m[k := w], v)
            == Count(m, v) - (if m[k] == v then 1 else 0) + (if w == v then 1 else 0)
  {
    CountRemove(m, k, v);
    assert m[k := w] == (m - {k})[k := w];
    CountInsert(m - {k}, k, w, v);
  }

  /** A box has count zero exactly when no handle points at it. */
  lemma CountZero<K, V>(m: map<K, V>, v: V)
    ensures Count(m, v) == 0 <==> forall k :: k in m ==> m[k] != v
  {
    var s := set j | j in m && m[j] == v;
    if k :| k in m && m[k] == v {
      assert k in s;
    }
  }

  /** The box a handle points at has a count of at least one. */
  lemma CountPositive<K, V>(m: map<K, V>, k: K)
    requires k in m
    ensures Count(m, m[k]) >= 1
  {
    CountZero(m, m[k]);
  }

  /** A box with count one is pointed at by that one handle only. */
  lemma CountOne<K, V>(m: map<K, V>, k: K)
    requires k in m && Count(m, m[k]) == 1
    ensures forall j :: j in m && j != k ==> m[j] != m[k]
  {
    CountRemove(m, k, m[k]);
    CountZero(m - {k}, m[k]);
    forall j | j in m && j != k
      ensures m[j] != m[k]
    {
      assert j in m - {k};
    }
  }
}
