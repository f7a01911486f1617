/** What a proposal does to the pipelines of the followers: it is queued, sent in full batches,
    and answered at once by the healthy ones. */
module Sending {
  import opened Types
  import opened Ordering
  import opened ClusterRuns
  import opened ClusterSteps
  import opened PipelineSteps
  import opened PipelineTheorems
  import C = ClusterModel
  import P = PipelineModel

  /** The sent batches were moved from the front of the queue to the end of those in flight. */
  ghost predicate Moves(p: P.Pipeline, q: P.Pipeline, sent: seq<P.Inflight>) {
    && q.inflight == p.inflight + sent && SumEntries(sent) <= |p.queue| && q.queue == p.queue[SumEntries(sent)..]
    && q.status.matchIndex == p.status.matchIndex && q.reorder == p.reorder && q.limits == p.limits
  }

  lemma MovesFirst(p: P.Pipeline, n: nat, q: P.Pipeline, sent: seq<P.Inflight>)
    requires 0 < n <= |p.queue| && Moves(P.SendBatch(p, n), q, sent)
    ensures Moves(p, q, [P.Describe(p.queue[..n])] + sent)
  {
    var first := P.Describe(p.queue[..n]);
    assert ([first] + sent)[1..] == sent;
    assert (p.inflight + [first]) + sent == p.inflight + ([first] + sent);
    assert p.queue[n..][SumEntries(sent)..] == p.queue[n + SumEntries(sent)..];
  }

  lemma {:induction false} FlushLoopMoves(p: P.Pipeline, maxEntries: nat, maxBytes: nat)
    ensures var (q, sent) := P.FlushLoop(p, maxEntries, maxBytes); Moves(p, q, sent)
    decreases |p.queue|
  {
    hide Moves;
    var n := P.TakeBatch(p, 0, 0, maxEntries, maxBytes);
    if p.status.inflightEntries >= p.limits.maxInflights || p.queue == [] || n == 0 {
      MovesNothing(p, P.FlushLoop(p, maxEntries, maxBytes).0);
    } else {
      var next := P.SendBatch(p, n);
      FlushLoopMoves(next, maxEntries, maxBytes);
      var (q, sent) := P.FlushLoop(next, maxEntries, maxBytes);
      MovesFirst(p, n, q, sent);
    }
  }

  lemma MovesNothing(p: P.Pipeline, q: P.Pipeline)
    requires q == p.(status := p.status.(memoryRejections := q.status.memoryRejections))
    ensures Moves(p, q, [])
  {
    assert p.queue[0..] == p.queue && p.inflight + [] == p.inflight;
  }

  /** The entry went to the end of the queue, and the front of the queue in flight: in batches of
      up to 64 entries and so many bytes, none of which could have taken one more, while the
      window was open and until it was full or the queue empty. */
  ghost predicate Sent(p: P.Pipeline, q: P.Pipeline, e: LogEntry, maxBytes: nat) {
    && |q.inflight| >= |p.inflight| && q.inflight[..|p.inflight|] == p.inflight
    && var sent := q.inflight[|p.inflight|..];
    && SumEntries(sent) <= |p.queue| + 1 && q.queue == (p.queue + [e])[SumEntries(sent)..]
    && Greedy(p.queue + [e], sent, p.status.inflightEntries, p.limits.maxInflights, 64, Max(maxBytes, 1))
    && (q.status.inflightEntries >= p.limits.maxInflights || q.queue == [])
    && q.status.matchIndex == p.status.matchIndex && q.reorder == p.reorder && q.limits == p.limits
  }

  lemma QueuedAndFlushed(p: P.Pipeline, e: LogEntry, maxBytes: nat)
    requires Sound(p) && P.QueueAppend(p, e).1
    ensures Sent(p, P.FlushAppendBatch(P.QueueAppend(p, e).0, C.FLUSH_ENTRIES, maxBytes).0, e, maxBytes)
  {
    var queued := P.QueueAppend(p, e).0;
    QueueIsExact(p, e);
    QueueConserves(p, e);
    assert queued.status.inflightEntries == p.status.inflightEntries;
    FlushIsGreedy(queued, C.FLUSH_ENTRIES, maxBytes);
    FlushLoopMoves(queued, Max(C.FLUSH_ENTRIES, 1), Max(maxBytes, 1));
    var (q, sent) := P.FlushAppendBatch(queued, C.FLUSH_ENTRIES, maxBytes);
    assert q.inflight[..|p.inflight|] == p.inflight && q.inflight[|p.inflight|..] == sent;
    hide P.QueueAppend, P.FlushLoop, Greedy, Conserved, SumEntries, Counted, QueueCause;
  }

  /** What replication leaves of the pipeline of a follower: a healthy one answers at once. */
  ghost predicate Follows(p: P.Pipeline, q: P.Pipeline, e: LogEntry, maxBytes: nat, healthy: bool, matched: LogIndex) {
    if healthy then exists sent :: Sent(p, sent, e, maxBytes) && Succeeded(sent, q, matched)
    else Sent(p, q, e, maxBytes)
  }

  lemma ReplicateOneFollows(r: C.Replicas, id: NodeId, leader: NodeId, e: LogEntry, maxBytes: nat)
    requires id in r.nodes && id in r.pipelines && id != leader && r.nodes[id].replicaRole.CanServeData()
    requires Sound(r.pipelines[id]) && C.ReplicateOne(r, id, leader, e, maxBytes).1
    ensures var q := C.ReplicateOne(r, id, leader, e, maxBytes).0;
            && id in q.nodes && id in q.pipelines
            && Follows(r.pipelines[id], q.pipelines[id], e, maxBytes, r.nodes[id].healthy, C.MatchIndex(q.nodes[id]))
  {
    var p, n := r.pipelines[id], r.nodes[id];
    var queued := P.QueueAppend(p, e).0;
    var flushed := P.FlushAppendBatch(queued, C.FLUSH_ENTRIES, maxBytes).0;
    QueuedAndFlushed(p, e, maxBytes);
    QueueKeepsSound(p, e);
    FlushKeepsSound(queued, C.FLUSH_ENTRIES, maxBytes);
    var response := AppendResponse(n.hardState.currentTerm, true, C.MatchIndex(C.AppendEntry(n, e)), None);
    assert Conserved(flushed) && Keyed(flushed);
    SuccessIsExact(flushed, response);
    hide P.QueueAppend, P.FlushAppendBatch, P.HandleAppendResponse, Sent, Succeeded, C.AppendEntry, C.MatchIndex, Sound;
  }

  lemma ReplicateOneElsewhere(r: C.Replicas, id: NodeId, leader: NodeId, e: LogEntry, maxBytes: nat, other: NodeId)
    requires id in r.nodes && other in r.nodes && other in r.pipelines && other != id
    ensures var q := C.ReplicateOne(r, id, leader, e, maxBytes).0;
            && q.nodes.Keys == r.nodes.Keys && q.pipelines.Keys == r.pipelines.Keys
            && q.pipelines[other] == r.pipelines[other] && q.nodes[other] == r.nodes[other]
  {
  }

  lemma {:induction false} ReplicateAllElsewhere(r: C.Replicas, keys: seq<NodeId>, leader: NodeId, e: LogEntry, maxBytes: nat,
                                                 id: NodeId)
    requires (forall k :: k in keys ==> k in r.nodes) && id in r.nodes && id in r.pipelines && id !in keys
    ensures var q := C.ReplicateAll(r, keys, leader, e, maxBytes).0;
            id in q.pipelines && q.pipelines[id] == r.pipelines[id] && id in q.nodes && q.nodes[id] == r.nodes[id]
    decreases |keys|
  {
    if keys != [] {
      var (next, ok) := C.ReplicateOne(r, keys[0], leader, e, maxBytes);
      ReplicateOneElsewhere(r, keys[0], leader, e, maxBytes, id);
      hide C.ReplicateOne;
      if ok {
        ReplicateAllElsewhere(next, keys[1..], leader, e, maxBytes, id);
      }
    }
  }

  lemma {:induction false} ReplicateAllFollows(r: C.Replicas, keys: seq<NodeId>, leader: NodeId, e: LogEntry, maxBytes: nat,
                                               id: NodeId)
    requires Ascending(keys) && (forall k :: k in keys ==> k in r.nodes) && id in keys && id in r.pipelines
    requires id != leader && r.nodes[id].replicaRole.CanServeData() && Sound(r.pipelines[id])
    requires C.ReplicateAll(r, keys, leader, e, maxBytes).1
    ensures var q := C.ReplicateAll(r, keys, leader, e, maxBytes).0;
            && id in q.nodes && id in q.pipelines
            && Follows(r.pipelines[id], q.pipelines[id], e, maxBytes, r.nodes[id].healthy, C.MatchIndex(q.nodes[id]))
    decreases |keys|
  {
    var next := C.ReplicateOne(r, keys[0], leader, e, maxBytes).0;
    assert keys == [keys[0]] + keys[1..] && keys[0] !in keys[1..];
    if id == keys[0] {
      ReplicateOneFollows(r, id, leader, e, maxBytes);
      ReplicateOneKeys(r, id, leader, e, maxBytes);
      hide C.ReplicateOne, Follows, Sound, C.MatchIndex;
      ReplicateAllElsewhere(next, keys[1..], leader, e, maxBytes, id);
    } else {
      ReplicateOneElsewhere(r, keys[0], leader, e, maxBytes, id);
      hide C.ReplicateOne, Follows, Sound, C.MatchIndex;
      ReplicateAllFollows(next, keys[1..], leader, e, maxBytes, id);
    }
  }

  /** Main result: a successful proposal is queued for every other node that stores entries and
      sent on in full batches; the pipeline of a healthy one is acknowledged up to what the node
      then matches, and that of a node that is down keeps what is in flight. */
  lemma ProposalIsSent(s: C.Cluster, payload: Payload, id: NodeId)
    requires Shape(s) && AllSound(s) && C.Propose(s, payload).1.Ok?
    requires id in s.nodes && s.leaderId != Some(id) && s.nodes[id].replicaRole.CanServeData()
    ensures var t := C.Propose(s, payload).0;
            && id in t.nodes && id in t.pipelines
            && Follows(s.pipelines[id], t.pipelines[id], C.ProposedEntry(s, payload), Max(s.config.maxPayloadBytes, 1),
                       s.nodes[id].healthy, C.MatchIndex(t.nodes[id]))
  {
    var e, leader, maxBytes := C.ProposedEntry(s, payload), s.leaderId.value, Max(s.config.maxPayloadBytes, 1);
    var r := C.Replicas(s.nodes, s.pipelines);
    var offered := C.Replicated(s, payload).0;
    hide C.ReplicateAll, C.RefreshCommit, Follows, Sound, NodeShape, C.ProposedEntry, C.MatchIndex;
    ReplicateAllFollows(r, C.Keys(s), leader, e, maxBytes, id);
    RefreshCommitKeeps(offered);
    CommitKeepsMatch(offered.nodes[id], C.RefreshCommit(offered).nodes[id]);
  }

  lemma CommitKeepsMatch(n: C.Node, m: C.Node)
    requires SameButCommit(n, m)
    ensures C.MatchIndex(m) == C.MatchIndex(n)
  {
  }
}
