/** Traces of object requests, and the oracle a clairvoyant policy is given. */
module NextUse {

  type ObjId = nat

  /** Position of the first request for `x` at or after `i`; `|tr|` stands for "never again". */
  function Next(tr: seq<ObjId>, i: nat, x: ObjId): (n: nat)
    requires i <= |tr|
    ensures i <= n <= |tr|
    ensures n < |tr| ==> tr[n] == x
    ensures forall j | i <= j < n :: tr[j] != x
    decreases |tr| - i
  {
    if i == |tr| || tr[i] == x then i else Next(tr, i + 1, x)
  }

  /** `Next` is the only position with these properties. */
  lemma NextIs(tr: seq<ObjId>, i: nat, x: ObjId, n: nat)
    requires i <= n <= |tr|
    requires n < |tr| ==> tr[n] == x
    requires forall j | i <= j < n :: tr[j] != x
    ensures Next(tr, i, x) == n
  {
  }
}
