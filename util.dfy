/** Membership sets built from slices (util.go). A Go `map[C]bool` answers
    `false` for a key it does not hold, which `Lookup` makes explicit. */
module Util {

  /** Go's `m[k]` on a `map[C]bool`: the stored value, or `false` when absent. */
  predicate Lookup<C>(m: map<C, bool>, k: C) {
    k in m && m[k]
  }

  /** The membership map of a slice: every element maps to `true`, nothing else is a key. */
  function MembershipOf<C>(arr: seq<C>): map<C, bool> {
    map v | v in arr :: true
  }

  /** `arrayToMap`: allocate an empty map and store `true` under every element, in order. */
  method ArrayToMap<C>(arr: seq<C>) returns (m: map<C, bool>)
    ensures m == MembershipOf(arr)
    ensures forall v :: v in arr ==> v in m && m[v]
    ensures forall k :: k in m ==> k in arr && m[k]
    ensures forall k :: Lookup(m, k) <==> k in arr
    ensures arr == [] ==> m == map[]
  {
    m := map[];
    for i := 0 to |arr|
      invariant forall k :: k in m <==> k in arr[..i]
      invariant forall k :: k in m ==> m[k]
    {
      m := m[arr[i] := true];
    }
    assert arr[..|arr|] == arr;
  }

  /** Duplicates collapse and order does not matter: two slices with the same
      elements give the same map. */
  lemma MembershipOfSameElements<C>(a: seq<C>, b: seq<C>)
    requires forall x :: x in a <==> x in b
    ensures MembershipOf(a) == MembershipOf(b)
  {
  }

  /** The key set of the membership map is exactly the element set, and a key
      looks up as `true` exactly when it occurs in the slice. */
  lemma MembershipOfKeys<C>(arr: seq<C>)
    ensures MembershipOf(arr).Keys == set v | v in arr
    ensures forall k :: Lookup(MembershipOf(arr), k) <==> k in arr
    ensures forall k :: k in MembershipOf(arr) ==> MembershipOf(arr)[k]
  {
  }
}
