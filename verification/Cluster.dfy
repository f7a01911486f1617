/** The cluster object: nodes and pipelines updated in place, every operation verified
    against the functions of ClusterModel. */
module Clusters {
  import opened Types
  import opened Ordering
  import opened Nodes
  import opened Pipelines
  import Model = ClusterModel
  import P = PipelineModel
  import W = WalModel

  /** The first i + 1 keys are the first i and one that is not among them. */
  lemma TakeOneMore(keys: seq<NodeId>, i: nat)
    requires Ascending(keys) && i < |keys|
    ensures keys[i] !in keys[..i] && forall k :: k in keys[..i + 1] <==> k in keys[..i] || k == keys[i]
  {
  }

  /** Refreshing the indices does not depend on the old ones. */
  lemma RefreshIgnoresCommit(s: Model.Cluster, commit: LogIndex)
    ensures Model.RefreshIndexes(s.(commitIndex := commit)) == Model.RefreshIndexes(s)
  {
  }

  /** The pipelines when the listed nodes have theirs. */
  ghost predicate FilledFor(nodes: map<NodeId, Model.Node>, before: map<NodeId, P.Pipeline>, done: seq<NodeId>,
                            now: map<NodeId, P.Pipeline>)
    requires forall k :: k in done ==> k in nodes
  {
    && (forall k :: k in now <==> k in before || k in done)
    && forall k :: k in now ==>
      now[k] == if k in before then before[k] else P.New(Model.MatchIndex(nodes[k]) + 1, P.DEFAULT_LIMITS)
  }

  lemma FillOneMore(nodes: map<NodeId, Model.Node>, before: map<NodeId, P.Pipeline>, keys: seq<NodeId>, i: nat,
                    now: map<NodeId, P.Pipeline>)
    requires Ascending(keys) && i < |keys| && (forall k :: k in keys ==> k in nodes) && FilledFor(nodes, before, keys[..i], now)
    ensures FilledFor(nodes, before, keys[..i + 1],
                      if keys[i] in now then now
                      else now[keys[i] := P.New(Model.MatchIndex(nodes[keys[i]]) + 1, P.DEFAULT_LIMITS)])
  {
  }

  lemma NothingFilled(nodes: map<NodeId, Model.Node>, before: map<NodeId, P.Pipeline>)
    ensures FilledFor(nodes, before, [], before)
  {
  }

  lemma FilledForAll(nodes: map<NodeId, Model.Node>, before: map<NodeId, P.Pipeline>, done: seq<NodeId>,
                     now: map<NodeId, P.Pipeline>)
    requires (forall k :: k in done <==> k in nodes) && FilledFor(nodes, before, done, now)
    ensures now == Model.Filled(nodes, before)
  {
    hide P.New, Model.MatchIndex;
  }

  lemma KeysUntouched(s: Model.Cluster)
    ensures Model.Keys(s.(running := true)) == Model.Keys(s)
  {
  }

  lemma AppendKeepsHardState(n: Model.Node, e: LogEntry)
    ensures Model.AppendEntry(n, e).hardState == n.hardState
  {
  }

  lemma UpdateTwice<K, V>(m: map<K, V>, k: K, v: V, w: V)
    ensures m[k := v][k := w] == m[k := w]
  {
  }

  /** The map restricted to the listed keys. */
  ghost predicate Copied<V>(states: map<NodeId, V>, done: seq<NodeId>, now: map<NodeId, V>) {
    (forall k :: k in now <==> k in done) && forall k :: k in done ==> k in states && now[k] == states[k]
  }

  lemma CopyOneMore<V>(states: map<NodeId, V>, keys: seq<NodeId>, i: nat, now: map<NodeId, V>)
    requires Ascending(keys) && i < |keys| && keys[i] in states && Copied(states, keys[..i], now)
    ensures Copied(states, keys[..i + 1], now[keys[i] := states[keys[i]]])
  {
  }

  lemma NothingCopied<V>(states: map<NodeId, V>)
    ensures forall now: map<NodeId, V> :: now.Keys == {} ==> Copied(states, [], now)
  {
  }

  lemma CopiedAll<V>(states: map<NodeId, V>, keys: seq<NodeId>, now: map<NodeId, V>)
    requires Copied(states, keys[..|keys|], now) && forall k :: k in keys <==> k in states
    ensures now == states
  {
  }

  /** The nodes when f was applied to the listed ones. */
  ghost predicate Partly(before: map<NodeId, Model.Node>, done: seq<NodeId>, now: map<NodeId, Model.Node>,
                         f: Model.Node -> Model.Node)
  {
    now.Keys == before.Keys && forall k :: k in before ==> now[k] == if k in done then f(before[k]) else before[k]
  }

  lemma PartlyNone(before: map<NodeId, Model.Node>, f: Model.Node -> Model.Node)
    ensures Partly(before, [], before, f)
  {
  }

  lemma PartlyMore(before: map<NodeId, Model.Node>, keys: seq<NodeId>, i: nat, now: map<NodeId, Model.Node>,
                   f: Model.Node -> Model.Node)
    requires Ascending(keys) && i < |keys| && keys[i] in before && Partly(before, keys[..i], now, f)
    ensures Partly(before, keys[..i + 1], now[keys[i] := f(now[keys[i]])], f)
    ensures now[keys[i]] == before[keys[i]]
  {
  }

  lemma PartlyAll(before: map<NodeId, Model.Node>, keys: seq<NodeId>, now: map<NodeId, Model.Node>,
                  f: Model.Node -> Model.Node)
    requires Partly(before, keys[..|keys|], now, f) && forall k :: k in keys <==> k in before
    ensures now.Keys == before.Keys && forall k :: k in before ==> now[k] == f(before[k])
  {
  }

  lemma RemovedNone(nodes: map<NodeId, Model.Node>, index: LogIndex)
    ensures Model.Removed(nodes, [], index) == 0
  {
  }

  lemma RemovedMore(nodes: map<NodeId, Model.Node>, keys: seq<NodeId>, i: nat, index: LogIndex)
    requires i < |keys| && forall k :: k in keys ==> k in nodes
    ensures Model.Removed(nodes, keys[..i + 1], index)
            == Model.Removed(nodes, keys[..i], index)
               + SatSub(|nodes[keys[i]].log|, |Model.CompactLog(nodes[keys[i]], index).log|)
  {
    assert keys[..i + 1][..i] == keys[..i] && keys[..i + 1][i] == keys[i];
  }

  class RaftCluster {
    const groupId: GroupId
    const config: Model.Config
    var nodes: map<NodeId, RaftNode>
    var pipelines: map<NodeId, ReplicationPipeline>
    var leaderId: Option<NodeId>
    var currentTerm: Term
    var commitIndex: LogIndex
    var appliedIndex: LogIndex
    var lastLogIndex: LogIndex
    var running: bool
    var leaseValid: bool

    function NodeStates(): (states: map<NodeId, Model.Node>)
      reads this`nodes, nodes.Values
      ensures states.Keys == nodes.Keys
    {
      map id | id in nodes :: nodes[id].State()
    }

    function PipelineStates(): (states: map<NodeId, P.Pipeline>)
      reads this`pipelines, pipelines.Values
      ensures states.Keys == pipelines.Keys
    {
      map id | id in pipelines :: pipelines[id].State()
    }

    function Replicas(): Model.Replicas
      reads this`nodes, this`pipelines, nodes.Values, pipelines.Values
    {
      Model.Replicas(NodeStates(), PipelineStates())
    }

    function State(): Model.Cluster
      reads this, nodes.Values, pipelines.Values
    {
      Model.Cluster(groupId, config, NodeStates(), PipelineStates(), leaderId, currentTerm, commitIndex, appliedIndex,
                    lastLogIndex, running, leaseValid)
    }

    /** No object stands for two nodes, or is the pipeline of two. */
    ghost predicate Valid()
      reads this`nodes, this`pipelines
    {
      && (forall a, b :: a in nodes && b in nodes && nodes[a] == nodes[b] ==> a == b)
      && (forall a, b :: a in pipelines && b in pipelines && pipelines[a] == pipelines[b] ==> a == b)
    }

    // ----- Construction -----

    /** A cluster of new objects that holds a given value, as cloning one makes. */
    constructor Of(s: Model.Cluster)
      ensures Valid() && State() == s && fresh(nodes.Values) && fresh(pipelines.Values)
    {
      groupId, config, leaderId, currentTerm := s.groupId, s.config, s.leaderId, s.currentTerm;
      commitIndex, appliedIndex, lastLogIndex := s.commitIndex, s.appliedIndex, s.lastLogIndex;
      running, leaseValid := s.running, s.leaseValid;
      nodes, pipelines := map[], map[];
      new;
      CopyNodes(s.nodes);
      CopyPipelines(s.pipelines);
    }

    method PutNode(id: NodeId, n: RaftNode)
      requires Valid() && n !in nodes.Values
      modifies this`nodes
      ensures Valid() && nodes == old(nodes)[id := n] && nodes.Values <= old(nodes.Values) + {n}
      ensures NodeStates() == old(NodeStates())[id := n.State()] && PipelineStates() == old(PipelineStates())
    {
      hide PipelineStates;
      nodes := nodes[id := n];
    }

    method PutPipeline(id: NodeId, p: ReplicationPipeline)
      requires Valid() && p !in pipelines.Values
      modifies this`pipelines
      ensures Valid() && pipelines == old(pipelines)[id := p] && pipelines.Values <= old(pipelines.Values) + {p}
      ensures PipelineStates() == old(PipelineStates())[id := p.State()] && NodeStates() == old(NodeStates())
    {
      hide NodeStates;
      pipelines := pipelines[id := p];
    }

    method CopyNodes(states: map<NodeId, Model.Node>)
      requires Valid() && nodes == map[] && pipelines == map[]
      modifies this`nodes
      ensures Valid() && fresh(nodes.Values) && NodeStates() == states
    {
      hide NodeStates, PipelineStates, SortedKeys, Copied;
      var keys := SortedKeys(states.Keys);
      NothingCopied(states);
      assert keys[..0] == [];
      for i := 0 to |keys|
        invariant Valid() && fresh(nodes.Values)
        invariant Copied(states, keys[..i], NodeStates())
      {
        CopyOneMore(states, keys, i, NodeStates());
        var n := new RaftNode.Of(states[keys[i]]);
        PutNode(keys[i], n);
      }
      CopiedAll(states, keys, NodeStates());
    }

    method CopyPipelines(states: map<NodeId, P.Pipeline>)
      requires Valid() && pipelines == map[]
      modifies this`pipelines
      ensures Valid() && fresh(pipelines.Values) && PipelineStates() == states
    {
      hide NodeStates, PipelineStates, SortedKeys, Copied;
      var keys := SortedKeys(states.Keys);
      NothingCopied(states);
      assert keys[..0] == [];
      for i := 0 to |keys|
        invariant Valid() && fresh(pipelines.Values)
        invariant Copied(states, keys[..i], PipelineStates())
      {
        CopyOneMore(states, keys, i, PipelineStates());
        var p := new ReplicationPipeline.Of(keys[i], states[keys[i]]);
        PutPipeline(keys[i], p);
      }
      CopiedAll(states, keys, PipelineStates());
    }

    /** Creates the nodes of some peers; fails on a repeated id. */
    static method NodesOf(peers: seq<Model.Peer>) returns (r: Result<map<NodeId, Model.Node>>)
      ensures (exists i, j :: 0 <= i < j < |peers| && peers[i].nodeId == peers[j].nodeId) ==> r == Err(InvalidRequest)
      ensures !(exists i, j :: 0 <= i < j < |peers| && peers[i].nodeId == peers[j].nodeId) ==> r == Ok(Model.NewNodes(peers))
    {
      var states: map<NodeId, Model.Node> := map[];
      for i := 0 to |peers|
        invariant states == Model.NewNodes(peers[..i])
        invariant forall k :: k in states <==> exists j :: 0 <= j < i && peers[j].nodeId == k
        invariant forall j, k :: 0 <= j < k < i ==> peers[j].nodeId != peers[k].nodeId
      {
        var p := peers[i];
        if p.nodeId in states {
          return Err(InvalidRequest);
        }
        assert peers[..i + 1][..i] == peers[..i] && peers[..i + 1][i] == p;
        states := states[p.nodeId := Model.NewNode(p.nodeId, p.role)];
      }
      assert peers[..|peers|] == peers;
      return Ok(states);
    }

    static method Create(groupId: GroupId, config: Model.Config, peers: seq<Model.Peer>) returns (r: Result<RaftCluster>)
      ensures match Model.New(groupId, config, peers)
              case Err(e) => r == Err(e)
              case Ok(s) => r.Ok? && fresh(r.value) && r.value.Valid() && r.value.State() == s
    {
      hide Model.NewNodes, P.New;
      if peers == [] {
        return Err(InvalidRequest);
      }
      var created := NodesOf(peers);
      if created.Err? {
        return Err(InvalidRequest);
      }
      var states := created.value;
      if !exists id :: id in states && states[id].replicaRole.CanBeLeader() {
        return Err(InvalidRequest);
      }
      var s := Model.Cluster(groupId, config, states, map id | id in states :: P.New(1, P.DEFAULT_LIMITS),
                             None, 0, 0, 0, 0, false, false);
      var c := new RaftCluster.Of(s);
      return Ok(c);
    }

    /** Replaces the whole cluster by a value, in new objects, as assigning a clone does. */
    method Assign(s: Model.Cluster)
      requires s.groupId == groupId && s.config == config
      modifies this
      ensures Valid() && State() == s && fresh(nodes.Values) && fresh(pipelines.Values)
    {
      hide NodeStates, PipelineStates;
      leaderId, currentTerm := s.leaderId, s.currentTerm;
      commitIndex, appliedIndex, lastLogIndex := s.commitIndex, s.appliedIndex, s.lastLogIndex;
      running, leaseValid := s.running, s.leaseValid;
      nodes, pipelines := map[], map[];
      CopyNodes(s.nodes);
      CopyPipelines(s.pipelines);
    }

    // ----- Changing one object changes one entry -----

    twostate lemma OneNodeChanged(id: NodeId)
      requires nodes == old(nodes) && id in nodes
      requires forall k :: k in nodes && k != id ==> nodes[k].State() == old(nodes[k].State())
      ensures NodeStates() == old(NodeStates())[id := nodes[id].State()]
    {
    }

    twostate lemma OnePipelineChanged(id: NodeId)
      requires pipelines == old(pipelines) && id in pipelines
      requires forall k :: k in pipelines && k != id ==> pipelines[k].State() == old(pipelines[k].State())
      ensures PipelineStates() == old(PipelineStates())[id := pipelines[id].State()]
    {
    }

    method AppendTo(id: NodeId, e: LogEntry)
      requires Valid() && id in nodes
      modifies nodes[id]
      ensures unchanged(this)
      ensures NodeStates() == old(NodeStates())[id := Model.AppendEntry(old(NodeStates())[id], e)]
      ensures PipelineStates() == old(PipelineStates())
    {
      nodes[id].AppendEntry(e);
      OneNodeChanged(id);
    }

    method Acknowledge(id: NodeId, term: Term, index: LogIndex)
      requires Valid() && id in pipelines
      modifies pipelines[id]
      ensures unchanged(this)
      ensures PipelineStates() == old(PipelineStates())[id := Model.Acknowledge(old(PipelineStates())[id], term, index)]
      ensures NodeStates() == old(NodeStates())
    {
      var _ := pipelines[id].HandleAppendResponse(AppendResponse(term, true, index, None));
      OnePipelineChanged(id);
    }

    // ----- Refreshing -----

    method RefreshClusterIndexes()
      modifies this`commitIndex, this`appliedIndex, this`lastLogIndex
      ensures State() == Model.RefreshIndexes(old(State()))
    {
      hide Model.MaxCommit, Model.MinApplied, Model.MaxMatch, SortedKeys, NodeStates, PipelineStates;
      var states := NodeStates();
      var keys := SortedKeys(nodes.Keys);
      commitIndex := Model.MaxCommit(states, keys);
      appliedIndex := Model.MinApplied(states, keys).UnwrapOr(0);
      lastLogIndex := Model.MaxMatch(states, keys);
    }

    method AdvanceOne(id: NodeId, index: LogIndex)
      requires Valid() && id in nodes
      modifies nodes[id]
      ensures unchanged(this)
      ensures NodeStates() == old(NodeStates())[id := Model.Advanced(old(NodeStates())[id], index)]
      ensures PipelineStates() == old(PipelineStates())
    {
      if nodes[id].healthy {
        nodes[id].AdvanceCommit(index);
      }
      OneNodeChanged(id);
    }

    /** Advances the commit of every healthy node. */
    method AdvanceAll(index: LogIndex)
      requires Valid()
      modifies nodes.Values
      ensures unchanged(this)
      ensures NodeStates() == Model.AdvanceAll(old(NodeStates()), index)
      ensures PipelineStates() == old(PipelineStates())
    {
      hide Model.Advanced, SortedKeys, NodeStates, PipelineStates, Partly;
      var keys := SortedKeys(nodes.Keys);
      ghost var before := NodeStates();
      ghost var f := (n: Model.Node) => Model.Advanced(n, index);
      PartlyNone(before, f);
      assert keys[..0] == [];
      for i := 0 to |keys|
        invariant PipelineStates() == old(PipelineStates()) && Partly(before, keys[..i], NodeStates(), f)
      {
        PartlyMore(before, keys, i, NodeStates(), f);
        AdvanceOne(keys[i], index);
      }
      PartlyAll(before, keys, NodeStates(), f);
    }

    /** The commit index that the live match indices allow, if any node is live. */
    method QuorumIndex() returns (found: Option<LogIndex>)
      ensures found == Model.QuorumIndex(State())
    {
      assert Model.QuorumSize(State()) >= 1;
      hide Model.LiveMatches, Model.QuorumSize, Sort, SortedKeys, NodeStates, PipelineStates;
      var matches := Model.LiveMatches(NodeStates(), SortedKeys(nodes.Keys));
      if matches == [] {
        return None;
      }
      var sorted := Sort(matches);
      return Some(sorted[SatSub(|matches|, Model.QuorumSize(State()))]);
    }

    method RefreshCommitIndex()
      requires Valid()
      modifies this`commitIndex, this`appliedIndex, this`lastLogIndex, nodes.Values
      ensures State() == Model.RefreshCommit(old(State()))
    {
      hide Model.QuorumIndex, Model.RefreshIndexes, Model.AdvanceAll, NodeStates, PipelineStates;
      var found := QuorumIndex();
      if found.None? {
        return;
      }
      commitIndex := Max(commitIndex, found.value);
      AdvanceAll(commitIndex);
      ghost var s := old(State()).(nodes := Model.AdvanceAll(old(NodeStates()), commitIndex));
      RefreshIgnoresCommit(s, commitIndex);
      assert State() == s.(commitIndex := commitIndex);
      RefreshClusterIndexes();
    }

    /** Gives a node a pipeline of its own if it has none. */
    method EnsurePipeline(id: NodeId)
      requires Valid() && id in nodes
      modifies this`pipelines
      ensures Valid() && fresh(pipelines.Values - old(pipelines.Values))
      ensures PipelineStates()
              == if id in old(PipelineStates()) then old(PipelineStates())
                 else old(PipelineStates())[id := P.New(Model.MatchIndex(NodeStates()[id]) + 1, P.DEFAULT_LIMITS)]
      ensures NodeStates() == old(NodeStates())
    {
      hide P.New, NodeStates, PipelineStates, Model.MatchIndex;
      if id !in pipelines {
        StateAt(id);
        var p := new ReplicationPipeline(id, nodes[id].MatchIndex() + 1, P.DEFAULT_LIMITS);
        PutPipeline(id, p);
      }
    }

    method EnsurePipelines()
      requires Valid()
      modifies this`pipelines
      ensures Valid() && fresh(pipelines.Values - old(pipelines.Values))
      ensures PipelineStates() == Model.Filled(NodeStates(), old(PipelineStates())) && NodeStates() == old(NodeStates())
    {
      hide P.New, Model.MatchIndex, SortedKeys, NodeStates, PipelineStates, FilledFor, Valid;
      var keys := SortedKeys(nodes.Keys);
      ghost var before := PipelineStates();
      ghost var states := NodeStates();
      NothingFilled(states, before);
      assert keys[..0] == [];
      for i := 0 to |keys|
        invariant Valid() && fresh(pipelines.Values - old(pipelines.Values)) && NodeStates() == states
        invariant FilledFor(states, before, keys[..i], PipelineStates())
      {
        FillOneMore(states, before, keys, i, PipelineStates());
        EnsurePipeline(keys[i]);
      }
      assert keys[..|keys|] == keys;
      FilledForAll(states, before, keys, PipelineStates());
    }

    method RefreshReplicationPipelines()
      requires Valid()
      modifies this`pipelines, pipelines.Values
      ensures Valid() && fresh(pipelines.Values - old(pipelines.Values))
      ensures State() == Model.RefreshPipelines(old(State()))
    {
      hide Model.Filled, NodeStates, PipelineStates, Model.Acknowledge;
      EnsurePipelines();
      if leaderId.Some? && leaderId.value in pipelines {
        Acknowledge(leaderId.value, currentTerm, lastLogIndex);
      }
    }

    // ----- Lifecycle, elections and health -----

    method ElectOne(id: NodeId, term: Term, leader: NodeId)
      requires Valid() && id in nodes
      modifies nodes[id]
      ensures unchanged(this)
      ensures NodeStates() == old(NodeStates())[id := Model.Elect(old(NodeStates())[id], term, leader)]
      ensures PipelineStates() == old(PipelineStates())
    {
      var n := nodes[id];
      n.hardState := n.hardState.(currentTerm := term, votedFor := Some(leader));
      n.raftRole := if n.id == leader then LeaderRole else Model.RestingRole(n.replicaRole);
      OneNodeChanged(id);
    }

    method ElectAll(term: Term, leader: NodeId)
      requires Valid()
      modifies nodes.Values
      ensures unchanged(this)
      ensures NodeStates() == map k | k in old(NodeStates()) :: Model.Elect(old(NodeStates())[k], term, leader)
      ensures PipelineStates() == old(PipelineStates())
    {
      hide Model.Elect, SortedKeys, NodeStates, PipelineStates, Partly;
      var keys := SortedKeys(nodes.Keys);
      ghost var before := NodeStates();
      ghost var f := (n: Model.Node) => Model.Elect(n, term, leader);
      PartlyNone(before, f);
      assert keys[..0] == [];
      for i := 0 to |keys|
        invariant PipelineStates() == old(PipelineStates()) && Partly(before, keys[..i], NodeStates(), f)
      {
        PartlyMore(before, keys, i, NodeStates(), f);
        ElectOne(keys[i], term, leader);
      }
      PartlyAll(before, keys, NodeStates(), f);
    }

    method Win(id: NodeId)
      requires Valid()
      modifies this`currentTerm, this`leaderId, this`leaseValid, nodes.Values
      ensures State() == Model.Elected(old(State()), id)
      ensures Valid() && nodes == old(nodes) && pipelines == old(pipelines)
    {
      hide Model.Elect, NodeStates, PipelineStates;
      currentTerm := currentTerm + 1;
      leaderId := Some(id);
      leaseValid := true;
      assert NodeStates() == old(NodeStates()) && PipelineStates() == old(PipelineStates());
      ElectAll(currentTerm, id);
      assert State() == old(State()).(currentTerm := old(currentTerm) + 1, leaderId := Some(id), leaseValid := true,
                                      nodes := NodeStates());
    }

    method Campaign(id: NodeId, forced: bool) returns (r: Result<()>)
      requires Valid()
      modifies this, nodes.Values, pipelines.Values
      ensures Valid() && nodes == old(nodes) && fresh(pipelines.Values - old(pipelines.Values))
      ensures (State(), r) == Model.Campaign(old(State()), id, forced)
    {
      hide Model.Elect, Model.RefreshPipelines, NodeStates, PipelineStates, Valid;
      if !running && !forced {
        return Err(InvalidRequest);
      }
      if id !in nodes {
        return Err(NodeNotFound(id));
      }
      StateAt(id);
      if !nodes[id].replicaRole.CanBeLeader() || !nodes[id].healthy {
        return Err(InvalidRequest);
      }
      Win(id);
      assert nodes == old(nodes) && pipelines == old(pipelines);
      hide Model.Elected;
      RefreshReplicationPipelines();
      return Ok(());
    }

    lemma StateAt(id: NodeId)
      requires id in nodes
      ensures NodeStates()[id] == nodes[id].State()
    {
    }

    lemma PipelineAt(id: NodeId)
      requires id in pipelines
      ensures PipelineStates()[id].status == pipelines[id].status
    {
    }

    method Start() returns (r: Result<()>)
      requires Valid()
      modifies this, nodes.Values, pipelines.Values
      ensures Valid() && nodes == old(nodes) && fresh(pipelines.Values - old(pipelines.Values))
      ensures (State(), r) == Model.Start(old(State()))
    {
      hide Model.Campaign, Model.FirstElectable, Model.Keys, NodeStates, PipelineStates, Valid;
      running := true;
      assert State() == old(State()).(running := true) && State().leaderId == leaderId;
      hide State;
      KeysUntouched(old(State()));
      if leaderId.Some? {
        return Ok(());
      }
      var found := FirstElectable();
      if found.None? {
        return Err(InvalidRequest);
      }
      r := Campaign(found.value, true);
    }

    /** The first healthy node that can lead, searched in key order. */
    method FirstElectable() returns (found: Option<NodeId>)
      ensures found == Model.FirstElectable(State().nodes, Model.Keys(State()))
    {
      hide SortedKeys;
      var keys := SortedKeys(nodes.Keys);
      for i := 0 to |keys|
        invariant Model.FirstElectable(NodeStates(), keys[i..]) == Model.FirstElectable(NodeStates(), keys)
      {
        assert keys[i..][0] == keys[i] && keys[i..][1..] == keys[i + 1..];
        if nodes[keys[i]].replicaRole.CanBeLeader() && nodes[keys[i]].healthy {
          return Some(keys[i]);
        }
      }
      return None;
    }

    method Stop()
      modifies this`running, this`leaseValid
      ensures State() == Model.Stop(old(State()))
    {
      hide NodeStates, PipelineStates;
      running, leaseValid := false, false;
    }

    method SetLeaderLeaseValid(valid: bool)
      modifies this`leaseValid
      ensures State() == old(State()).(leaseValid := valid)
    {
      hide NodeStates, PipelineStates;
      leaseValid := valid;
    }

    method MarkHealthy(id: NodeId, healthy: bool)
      requires Valid() && id in nodes
      modifies nodes[id]
      ensures unchanged(this)
      ensures NodeStates() == old(NodeStates())[id := old(NodeStates())[id].(healthy := healthy)]
      ensures PipelineStates() == old(PipelineStates())
    {
      nodes[id].healthy := healthy;
      OneNodeChanged(id);
    }

    method SetNodeHealthy(id: NodeId, healthy: bool) returns (r: Result<()>)
      requires Valid()
      modifies this`leaseValid, nodes.Values
      ensures (State(), r) == Model.SetHealthy(old(State()), id, healthy)
    {
      hide NodeStates, PipelineStates;
      if id !in nodes {
        return Err(NodeNotFound(id));
      }
      MarkHealthy(id, healthy);
      if leaderId == Some(id) && !healthy {
        leaseValid := false;
      }
      return Ok(());
    }

    method TransferLeader(id: NodeId) returns (r: Result<()>)
      requires Valid()
      modifies this, nodes.Values, pipelines.Values
      ensures Valid() && nodes == old(nodes) && fresh(pipelines.Values - old(pipelines.Values))
      ensures (State(), r) == Model.TransferLeader(old(State()), id)
    {
      hide Model.Campaign, NodeStates, PipelineStates;
      if id !in nodes {
        return Err(NodeNotFound(id));
      }
      StateAt(id);
      if !nodes[id].replicaRole.CanBeLeader() || !nodes[id].healthy {
        return Err(InvalidRequest);
      }
      if nodes[id].MatchIndex() < commitIndex {
        return Err(InvalidRequest);
      }
      r := Campaign(id, true);
    }

    // ----- Proposals -----

    method QueueTo(id: NodeId, e: LogEntry) returns (ok: bool)
      requires Valid() && id in pipelines
      modifies pipelines[id]
      ensures unchanged(this) && NodeStates() == old(NodeStates())
      ensures ok == P.QueueAppend(old(PipelineStates())[id], e).1
      ensures PipelineStates() == old(PipelineStates())[id := P.QueueAppend(old(PipelineStates())[id], e).0]
    {
      hide P.QueueAppend;
      ok := pipelines[id].QueueAppend(e);
      OnePipelineChanged(id);
    }

    method FlushTo(id: NodeId, maxEntries: nat, maxBytes: nat)
      requires Valid() && id in pipelines
      modifies pipelines[id]
      ensures unchanged(this) && NodeStates() == old(NodeStates())
      ensures PipelineStates()
              == old(PipelineStates())[id := P.FlushAppendBatch(old(PipelineStates())[id], maxEntries, maxBytes).0]
    {
      hide P.FlushAppendBatch;
      var _ := pipelines[id].FlushAppendBatch(maxEntries, maxBytes);
      OnePipelineChanged(id);
    }

    /** Replicates an entry to one node; false when its pipeline refuses the entry. */
    method ReplicateTo(id: NodeId, leader: NodeId, e: LogEntry, maxBytes: nat) returns (ok: bool)
      requires Valid() && id in nodes
      modifies nodes.Values, pipelines.Values
      ensures unchanged(this)
      ensures (Replicas(), ok) == Model.ReplicateOne(old(Replicas()), id, leader, e, maxBytes)
    {
      hide P.QueueAppend, P.FlushAppendBatch, Model.AppendEntry, Model.Acknowledge, NodeStates, PipelineStates, Model.MatchIndex;
      StateAt(id);
      if id == leader {
        AppendTo(id, e);
        return true;
      }
      if !nodes[id].replicaRole.CanServeData() || id !in pipelines {
        return true;
      }
      ghost var before := PipelineStates();
      ok := QueueTo(id, e);
      if !ok {
        return;
      }
      ghost var queued := PipelineStates()[id];
      FlushTo(id, Model.FLUSH_ENTRIES, maxBytes);
      ghost var flushed := PipelineStates()[id];
      UpdateTwice(before, id, queued, flushed);
      if nodes[id].healthy {
        AppendKeepsHardState(NodeStates()[id], e);
        AppendTo(id, e);
        StateAt(id);
        Acknowledge(id, nodes[id].hardState.currentTerm, nodes[id].MatchIndex());
        UpdateTwice(before, id, flushed, PipelineStates()[id]);
      }
    }

    method ReplicateAll(leader: NodeId, e: LogEntry, maxBytes: nat) returns (ok: bool)
      requires Valid()
      modifies nodes.Values, pipelines.Values
      ensures unchanged(this)
      ensures (Replicas(), ok) == Model.ReplicateAll(old(Replicas()), SortedKeys(nodes.Keys), leader, e, maxBytes)
    {
      hide Model.ReplicateOne, NodeStates, PipelineStates, SortedKeys;
      var keys := SortedKeys(nodes.Keys);
      for i := 0 to |keys|
        invariant Model.ReplicateAll(Replicas(), keys[i..], leader, e, maxBytes)
                  == Model.ReplicateAll(old(Replicas()), keys, leader, e, maxBytes)
      {
        assert keys[i..][0] == keys[i] && keys[i..][1..] == keys[i + 1..];
        ok := ReplicateTo(keys[i], leader, e, maxBytes);
        if !ok {
          return;
        }
      }
      return true;
    }

    method Propose(payload: Payload) returns (r: Result<LogId>)
      requires Valid()
      modifies this`commitIndex, this`appliedIndex, this`lastLogIndex, nodes.Values, pipelines.Values
      ensures (State(), r) == Model.Propose(old(State()), payload)
    {
      hide Model.Offered, Model.RefreshCommit, NodeStates, PipelineStates, Model.Keys;
      if leaderId.None? {
        return Err(NoLeader);
      }
      if !running || |payload| > config.maxPayloadBytes {
        return Err(InvalidRequest);
      }
      var leader := leaderId.value;
      if leader !in nodes {
        return Err(NodeNotFound(leader));
      }
      StateAt(leader);
      if !nodes[leader].healthy {
        return Err(NotLeader(leader));
      }
      var id := LogId(currentTerm, lastLogIndex + 1);
      var ok := Offer(leader, LogEntry(id, payload));
      if !ok {
        return Err(InvalidRequest);
      }
      RefreshCommitIndex();
      return Ok(id);
    }

    /** Offers an entry to every node. */
    method Offer(leader: NodeId, e: LogEntry) returns (ok: bool)
      requires Valid()
      modifies this`lastLogIndex, nodes.Values, pipelines.Values
      ensures (State(), ok) == Model.Offered(old(State()), leader, e)
    {
      hide Model.ReplicateAll, NodeStates, PipelineStates, SortedKeys;
      ghost var before := Replicas();
      lastLogIndex := e.logId.index;
      assert Replicas() == before;
      ok := ReplicateAll(leader, e, Max(config.maxPayloadBytes, 1));
      ghost var after := Replicas();
      assert State() == old(State()).(nodes := after.nodes, pipelines := after.pipelines, lastLogIndex := e.logId.index);
    }

    // ----- Appends from a remote leader -----

    method AcceptAppend(id: NodeId, r: Model.AppendRequest)
      requires Valid() && id in nodes
      modifies nodes[id]
      ensures unchanged(this) && PipelineStates() == old(PipelineStates())
      ensures NodeStates() == old(NodeStates())[id := Model.AcceptAppend(old(NodeStates())[id], r)]
    {
      hide Model.AcceptAppend;
      nodes[id].AcceptAppend(r);
      OneNodeChanged(id);
    }

    method AppendEntriesTo(target: NodeId, r: Model.AppendRequest) returns (answer: Result<AppendResponse>)
      requires Valid()
      modifies this`commitIndex, this`appliedIndex, this`lastLogIndex, nodes.Values
      ensures (State(), answer) == Model.AppendEntriesTo(old(State()), target, r)
    {
      hide Model.AcceptAppend, Model.RefreshIndexes, NodeStates, PipelineStates, Model.MatchIndex;
      if target !in nodes {
        return Err(NodeNotFound(target));
      }
      if r.groupId != groupId {
        return Err(InvalidRequest);
      }
      StateAt(target);
      var n := nodes[target];
      if r.term < n.hardState.currentTerm {
        return Ok(AppendResponse(n.hardState.currentTerm, false, n.MatchIndex(), Some(n.MatchIndex())));
      }
      if r.prevLogId.Some? && r.prevLogId.value.index > 0 && n.MatchIndex() < r.prevLogId.value.index {
        return Ok(AppendResponse(n.hardState.currentTerm, false, n.MatchIndex(), Some(n.MatchIndex())));
      }
      AcceptAppend(target, r);
      StateAt(target);
      answer := Ok(AppendResponse(n.hardState.currentTerm, true, n.MatchIndex(), None));
      RefreshClusterIndexes();
    }

    // ----- Membership -----

    method InsertNode(id: NodeId, role: ReplicaRole)
      requires Valid()
      modifies this`nodes
      ensures Valid() && fresh(nodes.Values - old(nodes.Values))
      ensures NodeStates() == old(NodeStates())[id := Model.NewNode(id, role)] && PipelineStates() == old(PipelineStates())
    {
      hide Model.NewNode, NodeStates, PipelineStates;
      var n := new RaftNode(id, role);
      PutNode(id, n);
    }

    method InsertPipeline(id: NodeId)
      requires Valid()
      modifies this`pipelines
      ensures Valid() && fresh(pipelines.Values - old(pipelines.Values))
      ensures PipelineStates() == old(PipelineStates())[id := P.New(lastLogIndex + 1, P.DEFAULT_LIMITS)]
      ensures NodeStates() == old(NodeStates())
    {
      hide P.New, NodeStates, PipelineStates;
      var p := new ReplicationPipeline(id, lastLogIndex + 1, P.DEFAULT_LIMITS);
      PutPipeline(id, p);
    }

    method Enroll(peer: Model.Peer)
      requires Valid() && peer.nodeId !in nodes
      modifies this`nodes, this`pipelines
      ensures Valid() && fresh(nodes.Values - old(nodes.Values)) && fresh(pipelines.Values - old(pipelines.Values))
      ensures State() == Model.WithPeer(old(State()), peer)
    {
      hide Model.NewNode, P.New, NodeStates, PipelineStates;
      InsertNode(peer.nodeId, peer.role);
      InsertPipeline(peer.nodeId);
      assert State() == old(State()).(nodes := NodeStates(), pipelines := PipelineStates());
    }

    method AddPeer(peer: Model.Peer) returns (r: Result<()>)
      requires Valid()
      modifies this`nodes, this`pipelines, pipelines.Values
      ensures Valid() && fresh(nodes.Values - old(nodes.Values)) && fresh(pipelines.Values - old(pipelines.Values))
      ensures (State(), r) == Model.AddPeer(old(State()), peer)
    {
      hide Model.WithPeer, Model.RefreshPipelines, NodeStates, PipelineStates;
      if peer.nodeId in nodes {
        return Err(InvalidRequest);
      }
      Enroll(peer);
      RefreshReplicationPipelines();
      return Ok(());
    }

    /** Makes a node a voter that follows. */
    method MakeVoter(id: NodeId)
      requires Valid() && id in nodes
      modifies nodes[id]
      ensures unchanged(this) && PipelineStates() == old(PipelineStates())
      ensures NodeStates() == old(NodeStates())[id := old(NodeStates())[id].(replicaRole := Voter, raftRole := FollowerRole)]
    {
      nodes[id].replicaRole := Voter;
      nodes[id].raftRole := FollowerRole;
      OneNodeChanged(id);
    }

    method PromotePeer(id: NodeId) returns (r: Result<()>)
      requires Valid()
      modifies nodes.Values
      ensures unchanged(this) && (State(), r) == Model.PromotePeer(old(State()), id)
    {
      hide NodeStates, PipelineStates, Model.MatchIndex;
      if id !in nodes {
        return Err(NodeNotFound(id));
      }
      StateAt(id);
      if nodes[id].MatchIndex() < commitIndex {
        return Err(InvalidRequest);
      }
      MakeVoter(id);
      return Ok(());
    }

    method Drop(id: NodeId)
      requires Valid()
      modifies this`nodes, this`pipelines
      ensures Valid() && nodes == old(nodes) - {id} && pipelines == old(pipelines) - {id}
      ensures NodeStates() == old(NodeStates()) - {id} && PipelineStates() == old(PipelineStates()) - {id}
    {
      nodes := nodes - {id};
      pipelines := pipelines - {id};
    }

    method Leave(id: NodeId)
      requires Valid()
      modifies this`nodes, this`pipelines, this`leaderId, this`leaseValid
      ensures Valid() && nodes == old(nodes) - {id} && pipelines.Values <= old(pipelines.Values)
      ensures State() == Model.WithoutPeer(old(State()), id)
    {
      hide NodeStates, PipelineStates;
      Drop(id);
      if leaderId == Some(id) {
        leaderId := None;
        leaseValid := false;
      }
      assert State() == old(State()).(nodes := NodeStates(), pipelines := PipelineStates(), leaderId := leaderId,
                                      leaseValid := leaseValid);
    }

    method RemovePeer(id: NodeId) returns (r: Result<()>)
      requires Valid()
      modifies this, pipelines.Values
      ensures Valid() && fresh(pipelines.Values - old(pipelines.Values)) && nodes == old(nodes) - {id}
      ensures (State(), r) == Model.RemovePeer(old(State()), id)
    {
      hide Model.RefreshPipelines, Model.WithoutPeer, NodeStates, PipelineStates;
      if id !in nodes {
        assert nodes == nodes - {id};
        return Err(NodeNotFound(id));
      }
      Leave(id);
      RefreshReplicationPipelines();
      return Ok(());
    }

    // ----- Catching up, snapshots, compaction and recovery -----

    method CopyTo(id: NodeId, leader: Model.Node)
      requires Valid() && id in nodes
      modifies nodes[id]
      ensures unchanged(this) && PipelineStates() == old(PipelineStates())
      ensures NodeStates() == old(NodeStates())[id := Model.CopyFromLeader(old(NodeStates())[id], leader, commitIndex)]
    {
      hide Model.CopyFromLeader;
      nodes[id].CopyFromLeader(leader, commitIndex);
      OneNodeChanged(id);
    }

    method LearnerCatchUp(id: NodeId) returns (r: Result<Model.CatchUpReport>)
      requires Valid()
      modifies this`commitIndex, this`appliedIndex, this`lastLogIndex, nodes.Values, pipelines.Values
      ensures (State(), r) == Model.CatchUp(old(State()), id)
    {
      hide Model.CopyFromLeader, Model.RefreshIndexes, Model.Acknowledge, NodeStates, PipelineStates, Model.MatchIndex;
      if leaderId.None? {
        return Err(NoLeader);
      }
      if leaderId.value !in nodes {
        return Err(NodeNotFound(leaderId.value));
      }
      if id !in nodes {
        return Err(NodeNotFound(id));
      }
      StateAt(id);
      StateAt(leaderId.value);
      if nodes[id].replicaRole != Learner {
        return Err(InvalidRequest);
      }
      var matchBefore := nodes[id].MatchIndex();
      CopyTo(id, nodes[leaderId.value].State());
      StateAt(id);
      var matchAfter := nodes[id].MatchIndex();
      var matched := matchAfter;
      if id in pipelines {
        Acknowledge(id, currentTerm, matchAfter);
        matched := pipelines[id].status.matchIndex;
        PipelineAt(id);
      }
      assert State() == Model.CaughtUp(old(State()), id);
      r := Ok(Model.CatchUpReport(id, commitIndex, matchBefore, matchAfter, matched >= commitIndex));
      RefreshClusterIndexes();
    }

    method InstallOn(id: NodeId, meta: SnapshotMeta)
      requires Valid() && id in nodes
      modifies nodes[id]
      ensures unchanged(this) && PipelineStates() == old(PipelineStates())
      ensures NodeStates() == old(NodeStates())[id := Model.InstallSnapshot(old(NodeStates())[id], meta)]
    {
      hide Model.InstallSnapshot;
      nodes[id].InstallSnapshot(meta);
      OneNodeChanged(id);
    }

    method RecordInstall(id: NodeId, index: LogIndex)
      requires Valid() && id in pipelines
      modifies pipelines[id]
      ensures unchanged(this) && NodeStates() == old(NodeStates())
      ensures PipelineStates() == old(PipelineStates())[id := Model.RecordInstall(old(PipelineStates())[id], index)]
    {
      hide P.BeginTransfer, P.ReceiveChunk;
      var _ := pipelines[id].BeginTransfer(false, index, 1);
      var _ := pipelines[id].ReceiveChunk(true);
      OnePipelineChanged(id);
    }

    method InstallSnapshotTo(target: NodeId, snapshot: Snapshot, fence: ApplySnapshotFence) returns (r: Result<()>)
      requires Valid()
      modifies this`commitIndex, this`appliedIndex, this`lastLogIndex, nodes.Values, pipelines.Values
      ensures (State(), r) == Model.InstallSnapshotTo(old(State()), target, snapshot, fence)
    {
      hide Model.InstallSnapshot, Model.RecordInstall, Model.RefreshIndexes, NodeStates, PipelineStates;
      if snapshot.groupId != groupId {
        return Err(InvalidRequest);
      }
      var index := snapshot.meta.lastLogId.index;
      if fence.installedSnapshotIndex != index || 0 < fence.firstRetainedLogIndex <= index {
        return Err(Storage);
      }
      if target !in nodes {
        return Err(NodeNotFound(target));
      }
      InstallOn(target, snapshot.meta);
      if target in pipelines {
        RecordInstall(target, index);
      }
      RefreshClusterIndexes();
      return Ok(());
    }

    method CompactOne(id: NodeId, index: LogIndex) returns (removed: nat)
      requires Valid() && id in nodes
      modifies nodes[id]
      ensures unchanged(this) && PipelineStates() == old(PipelineStates())
      ensures NodeStates() == old(NodeStates())[id := Model.CompactLog(old(NodeStates())[id], index)]
      ensures removed == SatSub(|old(NodeStates())[id].log|, |Model.CompactLog(old(NodeStates())[id], index).log|)
    {
      removed := nodes[id].CompactLogThrough(index);
      hide Model.CompactLog;
      OneNodeChanged(id);
    }

    method CompactAll(index: LogIndex) returns (removed: nat)
      requires Valid()
      modifies nodes.Values
      ensures unchanged(this) && PipelineStates() == old(PipelineStates())
      ensures NodeStates() == map k | k in old(NodeStates()) :: Model.CompactLog(old(NodeStates())[k], index)
      ensures removed == Model.Removed(old(NodeStates()), SortedKeys(old(NodeStates()).Keys), index)
    {
      hide Model.CompactLog, SortedKeys, NodeStates, PipelineStates, Partly, Model.Removed;
      var keys := SortedKeys(nodes.Keys);
      ghost var before := NodeStates();
      ghost var f := (n: Model.Node) => Model.CompactLog(n, index);
      assert forall k :: k in keys <==> k in before;
      RemovedNone(before, index);
      PartlyNone(before, f);
      assert keys[..0] == [];
      removed := 0;
      for i := 0 to |keys|
        invariant PipelineStates() == old(PipelineStates()) && Partly(before, keys[..i], NodeStates(), f)
        invariant removed == Model.Removed(before, keys[..i], index)
      {
        PartlyMore(before, keys, i, NodeStates(), f);
        RemovedMore(before, keys, i, index);
        var more := CompactOne(keys[i], index);
        removed := removed + more;
      }
      assert keys[..|keys|] == keys;
      PartlyAll(before, keys, NodeStates(), f);
    }

    method CompactLogsThrough(index: LogIndex) returns (removed: nat)
      requires Valid()
      modifies this`commitIndex, this`appliedIndex, this`lastLogIndex, nodes.Values
      ensures State() == Model.CompactLogs(old(State()), index)
      ensures removed == Model.Removed(old(State()).nodes, Model.Keys(old(State())), index)
    {
      hide Model.CompactLog, Model.RefreshIndexes, NodeStates, PipelineStates, Model.Removed, SortedKeys;
      removed := CompactAll(index);
      assert State() == Model.Compacted(old(State()), index);
      RefreshClusterIndexes();
    }

    method RestoreNode(r: W.WalRecord)
      requires Valid() && r.nodeId in nodes
      modifies nodes[r.nodeId]
      ensures unchanged(this) && PipelineStates() == old(PipelineStates())
      ensures NodeStates() == old(NodeStates())[r.nodeId := Model.RestoreNode(old(NodeStates())[r.nodeId], r)]
    {
      nodes[r.nodeId].Restore(r);
      OneNodeChanged(r.nodeId);
    }

    method TakeOver(r: W.WalRecord)
      requires Valid() && r.nodeId in nodes
      modifies this`currentTerm, this`lastLogIndex, nodes[r.nodeId]
      ensures Valid() && nodes == old(nodes) && pipelines == old(pipelines)
      ensures State() == Model.Recovered(old(State()), r)
    {
      hide Model.RestoreNode, NodeStates, PipelineStates, Model.MatchIndex;
      RestoreNode(r);
      StateAt(r.nodeId);
      currentTerm := Max(currentTerm, nodes[r.nodeId].hardState.currentTerm);
      lastLogIndex := Max(lastLogIndex, nodes[r.nodeId].MatchIndex());
    }

    method RestoreWalRecord(r: W.WalRecord) returns (result: Result<()>)
      requires Valid()
      modifies this, nodes.Values, pipelines.Values
      ensures Valid() && nodes == old(nodes) && fresh(pipelines.Values - old(pipelines.Values))
      ensures (State(), result) == Model.RestoreWalRecord(old(State()), r)
    {
      hide Model.Recovered, Model.RefreshIndexes, Model.RefreshPipelines, NodeStates, PipelineStates, Valid;
      if r.groupId != groupId {
        return Err(InvalidRequest);
      }
      if r.nodeId !in nodes {
        return Err(NodeNotFound(r.nodeId));
      }
      TakeOver(r);
      RefreshClusterIndexes();
      RefreshReplicationPipelines();
      return Ok(());
    }
  }
}
