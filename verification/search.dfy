/** Linear search for the first index with a property: the shape of every
    "stop at the first match" loop in the programs. */
module Search {
  import opened Results

  /** The first index k with i <= k < n and p(k), if there is one. */
  function FirstFrom(p: nat -> bool, i: nat, n: nat): (r: Option<nat>)
    ensures r.Some? ==> i <= r.value < n && p(r.value)
    decreases n - i
  {
    if i >= n then None
    else if p(i) then Some(i)
    else FirstFrom(p, i + 1, n)
  }

  /** The search finds nothing exactly when no index in range qualifies,
      and otherwise finds a qualifying index with none before it. */
  lemma {:induction false} FirstFromSpec(p: nat -> bool, i: nat, n: nat)
    ensures FirstFrom(p, i, n).None? <==> forall k: nat :: i <= k < n ==> !p(k)
    ensures FirstFrom(p, i, n).Some? ==>
      && i <= FirstFrom(p, i, n).value < n
      && p(FirstFrom(p, i, n).value)
      && forall m: nat :: i <= m < FirstFrom(p, i, n).value ==> !p(m)
    decreases n - i
  {
    if i < n && !p(i) {
      FirstFromSpec(p, i + 1, n);
    }
  }
}
