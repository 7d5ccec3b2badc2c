/** The batch loops of `run_v4` and `run_v6` in test-fib/main.c: all routes are added, or deleted, in
    `print_fract` batches, with the average time printed for each. */
module RouteBatches {
  import opened Words
  import opened Arithmetic

  datatype Outcome = Done | Refused | DivisionByZero

  /** The first routes, up to and including the first that the table does not accept. */
  function UpToRefused<T>(routes: seq<T>, accepts: T -> bool): seq<T> {
    if routes == [] then []
    else if accepts(routes[0]) then [routes[0]] + UpToRefused(routes[1..], accepts)
    else [routes[0]]
  }

  lemma {:induction false} AcceptedSoFar<T>(routes: seq<T>, accepts: T -> bool, n: nat)
    requires n < |routes| && forall i :: 0 <= i < n ==> accepts(routes[i])
    ensures !accepts(routes[n]) ==> UpToRefused(routes, accepts) == routes[..n + 1]
  {
    if n > 0 {
      AcceptedSoFar(routes[1..], accepts, n - 1);
    }
  }

  /** How many of the `left` routes the next of `k` batches takes. */
  function BatchSize(left: nat, k: nat): nat
    requires k > 0
  {
    left / k
  }

  /** The batches are as long as the average, rounded down; those from number `longer` on have one more
      route. */
  predicate Even(sizes: seq<nat>, q: nat, longer: nat) {
    forall i :: 0 <= i < |sizes| ==> sizes[i] == q + if i < longer then 0 else 1
  }

  /** The last `k` batches are to have `q` routes each, and the last `r` of them one more. */
  predicate Fair(left: nat, k: nat, q: nat, r: nat) {
    left == q * k + Min(r, k)
  }

  /** Dividing what is left by the number of batches that are left keeps to this. */
  lemma NextIsFair(left: nat, k: nat, q: nat, r: nat)
    requires k > 0 && Fair(left, k, q, r)
    ensures BatchSize(left, k) == q + if k > r then 0 else 1
    ensures BatchSize(left, k) <= left && Fair(left - BatchSize(left, k), k - 1, q, r)
  {
    Distribute(q, 1, k);
    OneLess(q, k);
    if k > r {
      QuotientIs(left, k, q, r);
    } else {
      QuotientIs(left, k, q + 1, 0);
    }
  }

  lemma OneLess(q: nat, k: nat)
    requires k > 0
    ensures q * (k - 1) == q * k - q >= 0
  {
  }

  lemma FairFromTheStart(total: nat, fract: nat)
    requires fract > 0
    ensures Fair(total, fract, total / fract, total % fract)
    ensures total / fract == 0 <==> total < fract
  {
    var q := total / fract;
    assert total == q * fract + total % fract;
    if q > 0 {
      Multiple(q, fract);
    }
  }

  lemma NothingLeft(left: nat, q: nat, r: nat)
    requires Fair(left, 0, q, r)
    ensures left == 0
  {
  }

  /** One batch: `j` routes from number `i` on. */
  method RunBatch<T>(routes: seq<T>, i: nat, batch: nat, accepts: T -> bool, before: seq<T>)
    returns (ok: bool, visited: seq<T>)
    requires i + batch <= |routes| && before == routes[..i]
    requires forall m :: 0 <= m < i ==> accepts(routes[m])
    ensures ok <==> forall m :: i <= m < i + batch ==> accepts(routes[m])
    ensures ok ==> visited == routes[..i + batch]
    ensures !ok ==> visited == UpToRefused(routes, accepts)
  {
    visited := before;
    for j := 0 to batch
      invariant visited == routes[..i + j]
      invariant forall m :: 0 <= m < i + j ==> accepts(routes[m])
    {
      visited := visited + [routes[i + j]];
      if !accepts(routes[i + j]) {
        AcceptedSoFar(routes, accepts, i + j);
        return false, visited;
      }
    }
    ok := true;
  }

  /** The loop. When the table accepts every route, each is visited once and in order, in `fract` even
      batches, the longer ones last. There is no batch without a route, and so no division by zero, exactly when there are
      at least as many routes as batches. */
  method RunBatches<T>(routes: seq<T>, fract: nat, accepts: T -> bool)
    returns (outcome: Outcome, visited: seq<T>, sizes: seq<nat>)
    requires fract > 0
    ensures outcome.Done? <==> fract <= |routes| && forall i :: 0 <= i < |routes| ==> accepts(routes[i])
    ensures outcome.DivisionByZero? <==> |routes| < fract
    ensures outcome.Done? ==> visited == routes && |sizes| == fract
    ensures outcome.Done? ==> Even(sizes, |routes| / fract, fract - |routes| % fract)
    ensures outcome.Refused? ==> visited == UpToRefused(routes, accepts)
    ensures outcome.DivisionByZero? ==> visited == []
  {
    hide Fair, BatchSize, UpToRefused;
    var k: nat, i: nat, ok := fract, 0, true;
    visited, sizes := [], [];
    ghost var q, r := |routes| / fract, |routes| % fract;
    FairFromTheStart(|routes|, fract);
    while k > 0
      invariant i <= |routes| && visited == routes[..i] && |sizes| + k == fract
      invariant Fair(|routes| - i, k, q, r) && Even(sizes, q, fract - r) && (k == fract ==> i == 0)
      invariant k < fract ==> q > 0
      invariant forall m :: 0 <= m < i ==> accepts(routes[m])
    {
      NextIsFair(|routes| - i, k, q, r);
      var j := BatchSize(|routes| - i, k);
      ok, visited := RunBatch(routes, i, j, accepts, visited);
      if !ok {
        return Refused, visited, sizes;
      }
      if j == 0 {
        return DivisionByZero, visited, sizes;
      }
      i, sizes, k := i + j, sizes + [j], k - 1;
    }
    NothingLeft(|routes| - i, q, r);
    outcome := Done;
  }
}
