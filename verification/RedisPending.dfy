/** The pending list of a Redis consumer group, the heartbeat that keeps entries on it, and the steps a
    group can take. */
module RedisPending {
  import opened Wrappers
  import opened Protocol

  const NANOS_PER_MILLI: nat := 1_000_000

  /** A record of the group's pending list; times are nanoseconds. */
  datatype Pending = Pending(owner: Replica, touched: nat)

  /** XCLAIM takes over a pending record, whoever owned it; it cannot bring one back. */
  function Refreshed(pending: Option<Pending>, replica: Replica, now: nat): Option<Pending> {
    if pending.Some? then Some(Pending(replica, now)) else None
  }

  /** Steps of a group over entries `E`, single entries undergoing actions `A`. */
  datatype GroupStep<E, A> =
    | Append(entry: E)
    | Read(replica: Replica, count: nat, replyLost: bool)
    | Reclaim(replica: Replica, ids: set<nat>, replyLost: bool)
    | At(id: nat, action: A)
    | CrashReplica(replica: Replica)
    | Elapse(nanos: nat)

  /** The heartbeat period: half the reclaim delay, at least a millisecond. */
  function Interval(delay: nat): nat {
    if delay / 2 > NANOS_PER_MILLI then delay / 2 else NANOS_PER_MILLI
  }

  /** The broker measures idleness in whole milliseconds. */
  predicate Reclaimable(delay: nat, p: Pending, now: nat) {
    now / NANOS_PER_MILLI - p.touched / NANOS_PER_MILLI >= delay / NANOS_PER_MILLI
  }

  /** The slack stays below the rest of the reclaim delay, by the broker's millisecond clock. */
  ghost predicate SlackFits(delay: nat, slack: nat) {
    Interval(delay) + slack + NANOS_PER_MILLI <= delay / NANOS_PER_MILLI * NANOS_PER_MILLI
  }

  /** A record refreshed within a heartbeat period and the slack cannot be reclaimed. */
  lemma RefreshedIsNotReclaimable(delay: nat, slack: nat, p: Pending, refreshed: nat, now: nat)
    requires SlackFits(delay, slack) && refreshed <= p.touched && now <= refreshed + Interval(delay) + slack
    ensures !Reclaimable(delay, p, now)
  {
    var whole := delay / NANOS_PER_MILLI;
    assert now <= p.touched + (whole - 1) * NANOS_PER_MILLI;
    assert now / NANOS_PER_MILLI <= p.touched / NANOS_PER_MILLI + whole - 1;
  }
}
