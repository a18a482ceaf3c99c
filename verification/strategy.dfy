/**
 The pool strategies of the miner header and their bound `TOP_STRATEGY`,
 the largest valid strategy number.
 */
module Strategy {
  import opened Wrappers

  /** `enum pool_strategy`, in declaration order. */
  datatype PoolStrategy = Failover | RoundRobin | Rotate | LoadBalance

  /** The enumerator's value: C numbers enumerators from 0 in order. */
  function Ordinal(s: PoolStrategy): (n: nat)
  {
    match s
    case Failover => 0
    case RoundRobin => 1
    case Rotate => 2
    case LoadBalance => 3
  }

  /** `TOP_STRATEGY` is `POOL_LOADBALANCE`. */
  const TOP_STRATEGY: nat := 3

  /** The strategy with number `n`, when `n` is one. */
  function FromOrdinal(n: int): (r: Option<PoolStrategy>)
    ensures r.Some? <==> 0 <= n <= TOP_STRATEGY
    ensures r.Some? ==> Ordinal(r.value) == n
  {
    if n == 0 then Some(Failover)
    else if n == 1 then Some(RoundRobin)
    else if n == 2 then Some(Rotate)
    else if n == 3 then Some(LoadBalance)
    else None
  }

  /** `TOP_STRATEGY` is the last strategy and bounds all the others. */
  lemma TopIsLast()
    ensures Ordinal(LoadBalance) == TOP_STRATEGY
    ensures forall s: PoolStrategy :: Ordinal(s) <= TOP_STRATEGY
  {
  }

  /** Numbering strategies loses nothing: the number leads back to the
      strategy, and distinct strategies have distinct numbers. */
  lemma OrdinalRoundTrip(s: PoolStrategy)
    ensures FromOrdinal(Ordinal(s)) == Some(s)
  {
  }

  lemma OrdinalInjective(a: PoolStrategy, b: PoolStrategy)
    requires Ordinal(a) == Ordinal(b)
    ensures a == b
  {
    OrdinalRoundTrip(a);
    OrdinalRoundTrip(b);
  }
}
