/**
  The hybrid logical clock of context_router.py (class HLC).

  A reading is an immutable value; `update` builds a new reading and never
  changes the old one. The physical time sample that the source takes inside
  `now` and `update` (time.monotonic_ns) is an explicit parameter here, so both
  operations are pure functions.
*/
module HybridClock {
  import opened Wrappers
  import opened Identifiers

  /** Largest tolerated distance, in nanoseconds, between the local sample and a remote physical time. */
  const MaxSkewNs: int := 5_000_000_000

  datatype Hlc = Hlc(physical: int, logical: int, nodeId: NodeId)

  /** The only way `update` can fail. */
  datatype ClockError = ClockSkew

  function Abs(x: int): int { if x < 0 then -x else x }

  function Max(a: int, b: int): int { if a < b then b else a }

  /** (physical, logical) ordering of readings; the node id plays no part. */
  predicate LexLess(a: Hlc, b: Hlc)
  {
    a.physical < b.physical || (a.physical == b.physical && a.logical < b.logical)
  }

  /** HLC.now: a fresh reading at physical time `sample`. */
  function Now(nodeId: NodeId, sample: int): (r: Hlc)
    ensures r.physical == sample && r.logical == 0 && r.nodeId == nodeId
  {
    Hlc(sample, 0, nodeId)
  }

  /**
    HLC.update: merge `remote` into the local reading `local`, with `now` the
    physical time sampled at the call. Rejected exactly when the remote
    physical time is more than MaxSkewNs away from the sample.
  */
  function Update(local: Hlc, remote: Hlc, now: int): (r: Result<Hlc, ClockError>)
    ensures r.Failure? <==> Abs(now - remote.physical) > MaxSkewNs
    ensures r.Success? ==> r.value.nodeId == local.nodeId
    ensures r.Success? ==>
      && r.value.physical >= now
      && r.value.physical >= remote.physical
      && r.value.physical >= local.physical
      && (r.value.physical == now || r.value.physical == remote.physical || r.value.physical == local.physical)
  {
    if Abs(now - remote.physical) > MaxSkewNs then
      Failure(ClockSkew)
    else
      var phys := Max(Max(now, remote.physical), local.physical);
      var log := if phys == local.physical && phys == remote.physical
                 then Max(local.logical, remote.logical) + 1
                 else 0;
      Success(Hlc(phys, log, local.nodeId))
  }

  /**
    When the new physical time equals both the local and the remote one, the
    logical counter is one more than the larger of the two, so the result is
    strictly after both readings in (physical, logical) order.
  */
  lemma UpdateTieAdvancesLogical(local: Hlc, remote: Hlc, now: int)
    requires Update(local, remote, now).Success?
    requires Update(local, remote, now).value.physical == local.physical == remote.physical
    ensures Update(local, remote, now).value.logical == Max(local.logical, remote.logical) + 1
    ensures LexLess(local, Update(local, remote, now).value)
    ensures LexLess(remote, Update(local, remote, now).value)
  {
  }

  /** In every other successful case the logical counter restarts at 0. */
  lemma UpdateOtherwiseResetsLogical(local: Hlc, remote: Hlc, now: int)
    requires Update(local, remote, now).Success?
    requires !(Update(local, remote, now).value.physical == local.physical == remote.physical)
    ensures Update(local, remote, now).value.logical == 0
  {
  }

  /** The skew test looks at the sample and the remote time only, never at the local reading. */
  lemma SkewTestIgnoresLocal(local1: Hlc, local2: Hlc, remote: Hlc, now: int)
    ensures Update(local1, remote, now).Failure? == Update(local2, remote, now).Failure?
  {
  }

  /** Any sample within MaxSkewNs of the remote time is accepted, whatever the local reading. */
  lemma UpdateAcceptsWithinSkew(local: Hlc, remote: Hlc, now: int)
    requires remote.physical - MaxSkewNs <= now <= remote.physical + MaxSkewNs
    ensures Update(local, remote, now).Success?
  {
  }

  /**
    Only `physical` is monotone: the result need not follow the local reading
    in (physical, logical) order. A local reading (2000, 5), a remote reading
    (1000, 0) and a sample of 1500 give (2000, 0).
  */
  lemma UpdateNotLexMonotone(a: NodeId, b: NodeId)
    ensures Update(Hlc(2000, 5, a), Hlc(1000, 0, b), 1500) == Success(Hlc(2000, 0, a))
    ensures LexLess(Update(Hlc(2000, 5, a), Hlc(1000, 0, b), 1500).value, Hlc(2000, 5, a))
  {
  }

  /** Nor need it follow the remote reading: remote (1000, 7), local (900, 0), sample 1000 give (1000, 0). */
  lemma UpdateMayPrecedeRemote(a: NodeId, b: NodeId)
    ensures Update(Hlc(900, 0, a), Hlc(1000, 7, b), 1000) == Success(Hlc(1000, 0, a))
    ensures LexLess(Update(Hlc(900, 0, a), Hlc(1000, 7, b), 1000).value, Hlc(1000, 7, b))
  {
  }

  /** Local (1000, 0), remote (1000, 2), sample 1000 give (1000, 3). */
  lemma UpdateTieScenario(a: NodeId, b: NodeId)
    ensures Update(Hlc(1000, 0, a), Hlc(1000, 2, b), 1000) == Success(Hlc(1000, 3, a))
  {
  }

  /** A remote time one nanosecond beyond the tolerance is rejected. */
  lemma UpdateSkewScenario(a: NodeId, b: NodeId)
    ensures Update(Hlc(1000, 0, a), Hlc(1000 + MaxSkewNs + 1, 0, b), 1000) == Failure(ClockSkew)
  {
  }
}
