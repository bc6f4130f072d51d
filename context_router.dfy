/**
  The coordinator of context_router.py (class ContextRouter): one hybrid
  clock reading and one vector clock, both owned by a single node, and the
  ingress operation that updates them together or not at all.
*/
module Router {
  import opened Wrappers
  import opened Identifiers
  import opened HybridClock
  import opened VectorClock

  /** One element of the remote timestamp tuple as it arrives. */
  datatype Field = IntField(n: int) | TextField(text: string)

  /**
    Unpack `(r_phys, r_log, r_node_str)` and build the remote reading; None
    wherever the source raises: a tuple that does not have three elements,
    a physical or logical part that is not an integer, or node text that
    `parseNodeId` (standing for the UUID constructor) rejects.
  */
  function ParseRemote(tuple: seq<Field>, parseNodeId: string -> Option<NodeId>): (r: Option<Hlc>)
    ensures r.Some? ==> |tuple| == 3 && tuple[2].TextField? && parseNodeId(tuple[2].text) == Some(r.value.nodeId)
    ensures r.Some? ==> tuple[0] == IntField(r.value.physical) && tuple[1] == IntField(r.value.logical)
  {
    if |tuple| != 3 then None
    else match (tuple[0], tuple[1], tuple[2])
      case (IntField(phys), IntField(log), TextField(text)) =>
        (match parseNodeId(text)
         case Some(id) => Some(Hlc(phys, log, id))
         case None => None)
      case _ => None
  }

  /** The tuple a sender builds from a reading and the text form of its node id. */
  function Formatted(h: Hlc, nodeText: string): seq<Field>
  {
    [IntField(h.physical), IntField(h.logical), TextField(nodeText)]
  }

  /** Parsing a well-formed tuple gives back the reading it was built from. */
  lemma ParseFormatted(h: Hlc, nodeText: string, parseNodeId: string -> Option<NodeId>)
    requires parseNodeId(nodeText) == Some(h.nodeId)
    ensures ParseRemote(Formatted(h, nodeText), parseNodeId) == Some(h)
  {
  }

  /** A tuple of any length other than three is rejected. */
  lemma ParseRejectsWrongArity(tuple: seq<Field>, parseNodeId: string -> Option<NodeId>)
    requires |tuple| != 3
    ensures ParseRemote(tuple, parseNodeId) == None
  {
  }

  /**
    What `ingress_packet` leaves behind: None when it returns False, otherwise
    the new hybrid reading and the vector after merging `remoteVc` and
    counting the event.
  */
  function IngressOutcome(hlc: Hlc, vector: map<NodeId, int>, owner: NodeId, tuple: seq<Field>,
                          remoteVc: map<NodeId, int>, now: int, parseNodeId: string -> Option<NodeId>)
    : (r: Option<(Hlc, map<NodeId, int>)>)
    ensures r.None? <==>
      ParseRemote(tuple, parseNodeId).None? || Update(hlc, ParseRemote(tuple, parseNodeId).value, now).Failure?
  {
    match ParseRemote(tuple, parseNodeId)
    case None => None
    case Some(remote) =>
      match Update(hlc, remote, now)
      case Failure(_) => None
      case Success(next) => Some((next, Incremented(MergeResult(vector, remoteVc, owner), owner)))
  }

  /**
    An accepted packet strictly raises the owner's counter, keeps the reading
    owned by the same node and never moves its physical time backwards.
  */
  lemma IngressAdvances(hlc: Hlc, vector: map<NodeId, int>, owner: NodeId, tuple: seq<Field>,
                        remoteVc: map<NodeId, int>, now: int, parseNodeId: string -> Option<NodeId>)
    requires IngressOutcome(hlc, vector, owner, tuple, remoteVc, now, parseNodeId).Some?
    ensures var (next, vector') := IngressOutcome(hlc, vector, owner, tuple, remoteVc, now, parseNodeId).value;
      && Get(vector', owner) > Get(vector, owner)
      && next.nodeId == hlc.nodeId
      && next.physical >= hlc.physical
  {
    var merged := MergeResult(vector, remoteVc, owner);
    MergeResultNeverDecreases(vector, remoteVc, owner);
    assert Get(merged, owner) >= Get(vector, owner) by {
      if owner !in vector && owner in merged {
        assert owner in MaxMerge(vector, remoteVc);
      }
    }
  }

  /** A remote physical time outside the tolerance is always rejected. */
  lemma IngressRejectsSkew(hlc: Hlc, vector: map<NodeId, int>, owner: NodeId, tuple: seq<Field>,
                           remoteVc: map<NodeId, int>, now: int, parseNodeId: string -> Option<NodeId>)
    requires ParseRemote(tuple, parseNodeId).Some?
    requires Abs(now - ParseRemote(tuple, parseNodeId).value.physical) > MaxSkewNs
    ensures IngressOutcome(hlc, vector, owner, tuple, remoteVc, now, parseNodeId).None?
  {
  }

  class ContextRouter {
    const nodeId: NodeId
    var hlc: Hlc
    const vc: EfficientVectorClock

    ghost predicate Valid()
      reads this, vc
    {
      vc.Valid() && vc.localNode == nodeId && hlc.nodeId == nodeId
    }

    /** __post_init__: a reading taken at `sample` and an empty vector, both owned by `nodeId`. */
    constructor (nodeId: NodeId, sample: int)
      ensures Valid() && fresh(vc)
      ensures this.nodeId == nodeId && hlc == Now(nodeId, sample) && vc.vector == map[]
    {
      this.nodeId := nodeId;
      hlc := Now(nodeId, sample);
      vc := new EfficientVectorClock(nodeId, map[]);
    }

    /**
      ingress_packet: `now` is the physical time `update` samples and
      `parseNodeId` stands for the UUID constructor. Returns false, changing
      nothing, when the tuple does not parse or the skew test fails.
    */
    method IngressPacket(remoteHlcTuple: seq<Field>, remoteVc: map<NodeId, int>, now: int,
                         parseNodeId: string -> Option<NodeId>) returns (accepted: bool)
      requires Valid()
      modifies this, vc
      ensures Valid()
      ensures var outcome := IngressOutcome(old(hlc), old(vc.vector), nodeId, remoteHlcTuple, remoteVc, now, parseNodeId);
        && accepted == outcome.Some?
        && (accepted ==> hlc == outcome.value.0 && vc.vector == outcome.value.1)
      ensures !accepted ==> hlc == old(hlc) && vc.vector == old(vc.vector)
      ensures accepted ==> Get(vc.vector, nodeId) > Get(old(vc.vector), nodeId)
    {
      var remoteHlc := ParseRemote(remoteHlcTuple, parseNodeId);
      if remoteHlc.None? {
        return false;
      }
      var updated := Update(hlc, remoteHlc.value, now);
      if updated.Failure? {
        return false;
      }
      ghost var before := vc.vector;
      IngressAdvances(hlc, before, nodeId, remoteHlcTuple, remoteVc, now, parseNodeId);
      hlc := updated.value;
      vc.Merge(remoteVc);
      vc.Increment();
      return true;
    }
  }

  /** Local reading (1000, 0) and a remote one (1000 + MaxSkewNs + 1, 0) sampled at 1000: the packet is refused. */
  lemma IngressSkewScenario(a: NodeId, b: NodeId, vector: map<NodeId, int>, parseNodeId: string -> Option<NodeId>)
    requires parseNodeId("b") == Some(b)
    ensures IngressOutcome(Hlc(1000, 0, a), vector, a, Formatted(Hlc(1000 + MaxSkewNs + 1, 0, b), "b"),
                           map[], 1000, parseNodeId) == None
  {
  }
}
