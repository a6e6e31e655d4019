/** First-match search over a Go map visited in an explicit order.

    Go's `for k, v := range m { if cond { ...; break } }` visits the entries of
    `m` in an unspecified order and stops at the first entry that satisfies the
    condition. Entries deleted earlier in the same tick are not produced. The
    model makes the order a parameter: a sequence of keys, of which those no
    longer in the map are skipped. */
module Scan {
  import opened Wrappers

  /** The index in `order`, at or after `start`, of the first key present in
      `m` whose value satisfies `p`. */
  function FirstMatchFrom<K, V>(m: map<K, V>, order: seq<K>, p: V -> bool, start: nat): (r: Option<nat>)
    requires start <= |order|
    ensures r.Some? ==> start <= r.value < |order| && order[r.value] in m && p(m[order[r.value]])
    ensures r.Some? ==> forall i :: start <= i < r.value && order[i] in m ==> !p(m[order[i]])
    ensures r.None? ==> forall i :: start <= i < |order| && order[i] in m ==> !p(m[order[i]])
    decreases |order| - start
  {
    if start == |order| then None
    else if order[start] in m && p(m[order[start]]) then Some(start)
    else FirstMatchFrom(m, order, p, start + 1)
  }

  /** The index in `order` of the first key present in `m` whose value
      satisfies `p`; `None` exactly when no key of `order` qualifies. */
  function FirstMatch<K, V>(m: map<K, V>, order: seq<K>, p: V -> bool): (r: Option<nat>)
    ensures r.Some? ==> r.value < |order| && order[r.value] in m && p(m[order[r.value]])
    ensures r.Some? ==> forall i :: 0 <= i < r.value && order[i] in m ==> !p(m[order[i]])
    ensures r.None? <==> forall i :: 0 <= i < |order| && order[i] in m ==> !p(m[order[i]])
  {
    FirstMatchFrom(m, order, p, 0)
  }

  /** No key occurs twice: each map entry is visited at most once. */
  predicate Distinct<K(==)>(s: seq<K>)
  {
    forall i, j :: 0 <= i < j < |s| ==> s[i] != s[j]
  }

  /** `s` lists every key of `keys` exactly once, as one Go range loop does. */
  ghost predicate Enumerates<K(!new)>(s: seq<K>, keys: set<K>)
  {
    Distinct(s) && forall k :: k in keys <==> k in s
  }
}
