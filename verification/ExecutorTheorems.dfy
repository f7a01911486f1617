/** What every run of the membership executor keeps. */
module ExecutorTheorems {
  import opened Types
  import opened Ordering
  import Runs = ClusterRuns
  import ClusterSteps
  import opened ExecutorModel
  import C = ClusterModel
  import P = PipelineModel
  import Members = MembershipModel

  // ----- The membership lists are the nodes by role -----

  lemma MembersAreNodes(s: C.Cluster)
    ensures var m := C.MembershipOf(s);
            && (forall id :: id in m.voters <==> id in s.nodes && s.nodes[id].replicaRole.Voter?)
            && (forall id :: id in m.learners <==> id in s.nodes && s.nodes[id].replicaRole.Learner?)
            && (forall id :: id in m.witnesses <==> id in s.nodes && s.nodes[id].replicaRole.Witness?)
            && Ascending(m.voters) && Ascending(m.learners) && Ascending(m.witnesses)
  {
    ClusterSteps.MembershipIsExact(s);
    hide C.MembershipOf;
  }

  lemma MembersWellFormed(s: C.Cluster)
    ensures Members.WellFormed(C.MembershipOf(s))
  {
    MembersAreNodes(s);
    hide C.MembershipOf;
  }

  // ----- Atomicity -----

  lemma MemberIsNode(s: C.Cluster, id: NodeId)
    ensures Members.IsMember(C.MembershipOf(s), id) <==> id in s.nodes
  {
    MembersAreNodes(s);
    hide C.MembershipOf;
  }

  /** An operation fails exactly when it is blocked or would transfer to a node that is not
      healthy; then the cluster is unchanged. */
  lemma FailureChangesNothing(s: C.Cluster, op: Operation)
    ensures var (t, r) := Execute(s, op);
            && (r.Err? <==> Blocked(s, op) || (op.TransferLeader? && !s.nodes[op.id].healthy))
            && (r.Err? ==> t == s)
  {
    MembersAreNodes(s);
    hide C.MembershipOf, C.RefreshPipelines, C.MatchIndex, C.WithPeer, C.WithoutPeer, C.Elected;
  }

  function Reached(s: C.Cluster, ops: seq<Operation>): C.Cluster
    decreases |ops|
  {
    if ops == [] then s else Reached(Execute(s, ops[0]).0, ops[1..])
  }

  /** With rollback a list of operations is all or nothing: it succeeds exactly when all
      operations succeed one after the other, and then has the same effect; otherwise the
      cluster is as it was. */
  lemma {:induction false} AllOrNothing(s: C.Cluster, ops: seq<Operation>)
    ensures var (t, r) := ExecuteAllWithRollback(s, ops);
            && (r.Ok? <==> AllSucceed(s, ops))
            && t == if AllSucceed(s, ops) then Reached(s, ops) else s
    decreases |ops|
  {
    if ops != [] {
      AllOrNothing(Execute(s, ops[0]).0, ops[1..]);
      hide Execute;
    }
  }

  predicate AllSucceed(s: C.Cluster, ops: seq<Operation>)
    decreases |ops|
  {
    ops == [] || (Execute(s, ops[0]).1.Ok? && AllSucceed(Execute(s, ops[0]).0, ops[1..]))
  }

  // ----- A voter and a leader able to lead remain -----

  /** Some voter is a member, and the leader, if there is one, is a voter. */
  ghost predicate Leadable(s: C.Cluster) {
    && (exists id :: id in s.nodes && s.nodes[id].replicaRole.Voter?)
    && (s.leaderId.Some? ==> s.leaderId.value in s.nodes && s.nodes[s.leaderId.value].replicaRole.Voter?)
  }

  /** The roles and the leader of the cluster, which the executor's guarantees are about. */
  ghost predicate SameRoles(s: C.Cluster, t: C.Cluster) {
    && t.nodes.Keys == s.nodes.Keys && forall id :: id in s.nodes ==> t.nodes[id].replicaRole == s.nodes[id].replicaRole
  }

  lemma AddedRoles(s: C.Cluster, peer: C.Peer)
    requires peer.nodeId !in s.nodes
    ensures var t := C.AddPeer(s, peer).0;
            && t.leaderId == s.leaderId && t.nodes.Keys == s.nodes.Keys + {peer.nodeId}
            && t.nodes[peer.nodeId].replicaRole == peer.role
            && forall id :: id in s.nodes ==> t.nodes[id].replicaRole == s.nodes[id].replicaRole
  {
  }

  lemma RemovedRoles(s: C.Cluster, id: NodeId)
    requires id in s.nodes && s.leaderId != Some(id)
    ensures var t := C.RemovePeer(s, id).0; t.leaderId == s.leaderId && t.nodes == s.nodes - {id}
  {
  }

  lemma TransferredRoles(s: C.Cluster, id: NodeId)
    requires C.TransferLeader(s, id).1.Ok?
    ensures var t := C.TransferLeader(s, id).0;
            t.leaderId == Some(id) && id in s.nodes && s.nodes[id].replicaRole.Voter? && SameRoles(s, t)
  {
    Runs.RefreshPipelinesKeeps(C.Elected(s, id));
    hide C.RefreshPipelines, C.MatchIndex;
  }

  lemma PromotedRoles(s: C.Cluster, id: NodeId)
    requires C.PromotePeer(s, id).1.Ok?
    ensures var t := C.PromotePeer(s, id).0;
            && t.leaderId == s.leaderId && t.nodes.Keys == s.nodes.Keys && id in s.nodes
            && t.nodes[id].replicaRole == Voter
            && forall k :: k in s.nodes && k != id ==> t.nodes[k].replicaRole == s.nodes[k].replicaRole
  {
  }

  lemma AnotherVoter(s: C.Cluster, id: NodeId)
    requires Leadable(s) && !Blocked(s, Operation.Remove(id))
    ensures exists k :: k in s.nodes && k != id && s.nodes[k].replicaRole.Voter?
  {
    MembersAreNodes(s);
    var voters := C.MembershipOf(s).voters;
    hide C.MembershipOf;
    if id in voters {
      assert voters[0] in voters && voters[1] in voters && voters[0] < voters[1];
    } else {
      var k :| k in s.nodes && s.nodes[k].replicaRole.Voter?;
      assert k in voters;
    }
  }

  lemma RemoveKeepsLeadable(s: C.Cluster, id: NodeId)
    requires Leadable(s) && !Blocked(s, Operation.Remove(id)) && id in s.nodes
    ensures Leadable(C.RemovePeer(s, id).0)
  {
    AnotherVoter(s, id);
    RemovedRoles(s, id);
    var t := C.RemovePeer(s, id).0;
    hide C.RemovePeer, C.MembershipOf;
    var k :| k in s.nodes && k != id && s.nodes[k].replicaRole.Voter?;
    assert k in t.nodes && t.nodes[k].replicaRole.Voter?;
  }

  lemma AddKeepsLeadable(s: C.Cluster, peer: C.Peer)
    requires Leadable(s) && peer.nodeId !in s.nodes
    ensures Leadable(C.AddPeer(s, peer).0) && C.AddPeer(s, peer).0.leaderId == s.leaderId
  {
    AddedRoles(s, peer);
    hide C.AddPeer;
    var k :| k in s.nodes && s.nodes[k].replicaRole.Voter?;
    assert C.AddPeer(s, peer).0.nodes[k].replicaRole.Voter?;
  }

  lemma PromoteKeepsLeadable(s: C.Cluster, id: NodeId)
    requires Leadable(s) && C.PromotePeer(s, id).1.Ok?
    ensures Leadable(C.PromotePeer(s, id).0) && C.PromotePeer(s, id).0.leaderId == s.leaderId
  {
    PromotedRoles(s, id);
    hide C.PromotePeer;
    assert C.PromotePeer(s, id).0.nodes[id].replicaRole.Voter?;
  }

  lemma TransferKeepsLeadable(s: C.Cluster, id: NodeId)
    requires C.TransferLeader(s, id).1.Ok?
    ensures Leadable(C.TransferLeader(s, id).0) && C.TransferLeader(s, id).0.leaderId.Some?
  {
    TransferredRoles(s, id);
    hide C.TransferLeader;
    assert C.TransferLeader(s, id).0.nodes[id].replicaRole.Voter?;
  }

  /** An executed operation leaves a voter, and a leader that can lead if there was one. */
  lemma ExecuteKeepsLeadable(s: C.Cluster, op: Operation)
    requires Leadable(s)
    ensures var t := Execute(s, op).0;
            Leadable(t) && (s.leaderId.Some? ==> t.leaderId.Some?)
  {
    FailureChangesNothing(s, op);
    if Execute(s, op).1.Ok? {
      MemberIsNode(s, Subject(op));
      hide C.AddPeer, C.RemovePeer, C.PromotePeer, C.TransferLeader, Promotable, Leadable, C.MembershipOf;
      match op {
        case AddNode(peer) => AddKeepsLeadable(s, peer);
        case AddVoter(peer) => AddKeepsLeadable(s, peer.(role := Voter));
        case AddLearner(peer) => AddKeepsLeadable(s, peer.(role := Learner));
        case AddWitness(peer) => AddKeepsLeadable(s, peer.(role := Witness));
        case Promote(id) => PromoteKeepsLeadable(s, id);
        case Remove(id) => RemovedRoles(s, id); RemoveKeepsLeadable(s, id);
        case TransferLeader(id) => TransferKeepsLeadable(s, id);
      }
    }
  }

  /** Main result on the executor: over any list of operations, failed ones included, at least
      one voter remains and a cluster with a leader keeps one, always a voter. */
  lemma {:induction false} ExecutorKeepsLeader(s: C.Cluster, ops: seq<Operation>)
    requires Leadable(s)
    ensures var t := Reached(s, ops);
            Leadable(t) && (s.leaderId.Some? ==> t.leaderId.Some?)
    decreases |ops|
  {
    if ops != [] {
      ExecuteKeepsLeadable(s, ops[0]);
      hide Execute, Leadable;
      ExecutorKeepsLeader(Execute(s, ops[0]).0, ops[1..]);
    }
  }

  // ----- Quorums across an operation -----

  function ParticipantSet(s: C.Cluster): set<NodeId> {
    set id | id in s.nodes && s.nodes[id].replicaRole.ParticipatesInQuorum()
  }

  lemma ParticipantsAreNodes(s: C.Cluster)
    ensures var p := Members.Participants(C.MembershipOf(s));
            Members.NoDuplicates(p) && Members.Elements(p) == ParticipantSet(s)
  {
    MembersAreNodes(s);
    MembersWellFormed(s);
    Members.ParticipantsAreDistinct(C.MembershipOf(s));
    hide C.MembershipOf;
  }

  function Subject(op: Operation): NodeId {
    match op
    case AddNode(peer) => peer.nodeId
    case AddVoter(peer) => peer.nodeId
    case AddLearner(peer) => peer.nodeId
    case AddWitness(peer) => peer.nodeId
    case Promote(id) => id
    case Remove(id) => id
    case TransferLeader(id) => id
  }

  /** At most the subject of the operation joins or leaves the quorum participants. */
  ghost predicate MovesOne(before: set<NodeId>, after: set<NodeId>, id: NodeId) {
    before == after || after == before + {id} || after == before - {id}
  }

  lemma AddMovesOne(s: C.Cluster, peer: C.Peer)
    requires peer.nodeId !in s.nodes
    ensures MovesOne(ParticipantSet(s), ParticipantSet(C.AddPeer(s, peer).0), peer.nodeId)
  {
  }

  lemma PromoteAddsParticipant(s: C.Cluster, id: NodeId)
    requires C.PromotePeer(s, id).1.Ok?
    ensures MovesOne(ParticipantSet(s), ParticipantSet(C.PromotePeer(s, id).0), id)
  {
  }

  lemma RemoveDropsParticipant(s: C.Cluster, id: NodeId)
    requires id in s.nodes && s.leaderId != Some(id)
    ensures MovesOne(ParticipantSet(s), ParticipantSet(C.RemovePeer(s, id).0), id)
  {
  }

  lemma TransferKeepsParticipants(s: C.Cluster, id: NodeId)
    requires C.TransferLeader(s, id).1.Ok?
    ensures MovesOne(ParticipantSet(s), ParticipantSet(C.TransferLeader(s, id).0), id)
  {
    TransferredRoles(s, id);
    hide C.TransferLeader;
    assert ParticipantSet(C.TransferLeader(s, id).0) == ParticipantSet(s);
  }

  lemma OperationMovesOneParticipant(s: C.Cluster, op: Operation)
    ensures MovesOne(ParticipantSet(s), ParticipantSet(Execute(s, op).0), Subject(op))
  {
    FailureChangesNothing(s, op);
    var (t, r) := Execute(s, op);
    var id := Subject(op);
    if r.Ok? {
      hide C.AddPeer, C.RemovePeer, C.PromotePeer, C.TransferLeader, Promotable, C.MembershipOf, MovesOne, ParticipantSet;
      MemberIsNode(s, id);
      match op {
        case AddNode(peer) => AddMovesOne(s, peer);
        case AddVoter(peer) => AddMovesOne(s, peer.(role := Voter));
        case AddLearner(peer) => AddMovesOne(s, peer.(role := Learner));
        case AddWitness(peer) => AddMovesOne(s, peer.(role := Witness));
        case Promote(_) => PromoteAddsParticipant(s, id);
        case Remove(_) => RemoveDropsParticipant(s, id);
        case TransferLeader(_) => TransferKeepsParticipants(s, id);
      }
    }
  }

  /** Any acknowledgements that reached quorum before an operation share a participant with
      any that reach quorum after it. */
  lemma QuorumsMeetAcrossOperation(s: C.Cluster, op: Operation, before: seq<NodeId>, after: seq<NodeId>)
    requires Members.QuorumReached(C.MembershipOf(s), before)
    requires Members.QuorumReached(C.MembershipOf(Execute(s, op).0), after)
    ensures exists id :: id in before && id in after
                         && id in Members.Participants(C.MembershipOf(s))
                         && id in Members.Participants(C.MembershipOf(Execute(s, op).0))
  {
    var t := Execute(s, op).0;
    OperationMovesOneParticipant(s, op);
    ParticipantsAreNodes(s);
    ParticipantsAreNodes(t);
    hide Execute, C.MembershipOf, ParticipantSet, Members.NoDuplicates, Members.Elements, Members.Votes;
    Members.MajoritiesMeet(Members.Participants(C.MembershipOf(s)), Members.Participants(C.MembershipOf(t)), Subject(op), before, after);
  }

  // ----- Agreement with the membership list -----

  function ChangeFor(op: Operation): Option<Members.Change> {
    match op
    case AddLearner(peer) => Some(Members.AddLearner(peer.nodeId))
    case AddWitness(peer) => Some(Members.AddWitness(peer.nodeId))
    case Promote(id) => Some(Members.PromoteLearner(id))
    case Remove(id) => Some(Members.RemovePeer(id))
    case _ => None
  }

  /** The same members in the same roles, whatever the order and epoch. */
  ghost predicate SameMembership(a: Members.Membership, b: Members.Membership) {
    && (forall id :: id in a.voters <==> id in b.voters)
    && (forall id :: id in a.learners <==> id in b.learners)
    && (forall id :: id in a.witnesses <==> id in b.witnesses)
  }

  /** The lists name exactly the nodes of each role. */
  ghost predicate Lists(nodes: map<NodeId, C.Node>, m: Members.Membership) {
    && (forall id :: id in m.voters <==> id in nodes && nodes[id].replicaRole.Voter?)
    && (forall id :: id in m.learners <==> id in nodes && nodes[id].replicaRole.Learner?)
    && (forall id :: id in m.witnesses <==> id in nodes && nodes[id].replicaRole.Witness?)
  }

  lemma RemovedFromList(nodes: seq<NodeId>, id: NodeId)
    requires Members.NoDuplicates(nodes)
    ensures forall k :: k in Members.RemoveFirst(nodes, id) <==> k in nodes && k != id
  {
  }

  lemma ListsOfCluster(s: C.Cluster)
    ensures Lists(s.nodes, C.MembershipOf(s))
  {
    MembersAreNodes(s);
    hide C.MembershipOf;
  }

  /** Lists that name the same nodes have the same members. */
  lemma SameLists(nodes: map<NodeId, C.Node>, a: Members.Membership, b: Members.Membership)
    requires Lists(nodes, a) && Lists(nodes, b)
    ensures SameMembership(a, b)
  {
  }

  lemma ListsAfterAdd(nodes: map<NodeId, C.Node>, after: map<NodeId, C.Node>, m: Members.Membership, id: NodeId, change: Members.Change)
    requires Lists(nodes, m) && id !in nodes && after.Keys == nodes.Keys + {id}
    requires forall k :: k in nodes ==> after[k].replicaRole == nodes[k].replicaRole
    requires (after[id].replicaRole.Learner? && change == Members.AddLearner(id))
             || (after[id].replicaRole.Witness? && change == Members.AddWitness(id))
    ensures Members.Apply(m, change).Ok? && Lists(after, Members.Apply(m, change).value)
  {
  }

  lemma ListsAfterPromote(nodes: map<NodeId, C.Node>, after: map<NodeId, C.Node>, m: Members.Membership, id: NodeId)
    requires Lists(nodes, m) && Members.NoDuplicates(m.learners) && after.Keys == nodes.Keys
    requires id in nodes && nodes[id].replicaRole.Learner? && after[id].replicaRole.Voter?
    requires forall k :: k in nodes && k != id ==> after[k].replicaRole == nodes[k].replicaRole
    ensures Members.Apply(m, Members.PromoteLearner(id)).Ok? && Lists(after, Members.Apply(m, Members.PromoteLearner(id)).value)
  {
    RemovedFromList(m.learners, id);
    hide Members.RemoveFirst, Members.NoDuplicates;
  }

  lemma ListsAfterRemove(nodes: map<NodeId, C.Node>, m: Members.Membership, id: NodeId)
    requires Lists(nodes, m) && Members.WellFormed(m) && id in nodes
    ensures Members.Apply(m, Members.RemovePeer(id)).Ok? && Lists(nodes - {id}, Members.Apply(m, Members.RemovePeer(id)).value)
  {
    RemovedFromList(m.voters, id);
    RemovedFromList(m.learners, id);
    RemovedFromList(m.witnesses, id);
    hide Members.RemoveFirst, Members.WellFormed;
  }

  lemma AddedAgrees(s: C.Cluster, peer: C.Peer, change: Members.Change)
    requires peer.nodeId !in s.nodes
    requires (peer.role.Learner? && change == Members.AddLearner(peer.nodeId))
             || (peer.role.Witness? && change == Members.AddWitness(peer.nodeId))
    ensures var r := Members.Apply(C.MembershipOf(s), change);
            r.Ok? && SameMembership(C.MembershipOf(C.AddPeer(s, peer).0), r.value)
  {
    AddedRoles(s, peer);
    var t := C.AddPeer(s, peer).0;
    ListsOfCluster(s);
    ListsOfCluster(t);
    hide C.AddPeer, C.MembershipOf, Lists, SameMembership, Members.Apply;
    ListsAfterAdd(s.nodes, t.nodes, C.MembershipOf(s), peer.nodeId, change);
    SameLists(t.nodes, C.MembershipOf(t), Members.Apply(C.MembershipOf(s), change).value);
  }

  lemma PromotedAgrees(s: C.Cluster, id: NodeId)
    requires C.PromotePeer(s, id).1.Ok? && id in s.nodes && s.nodes[id].replicaRole.Learner?
    ensures var r := Members.Apply(C.MembershipOf(s), Members.PromoteLearner(id));
            r.Ok? && SameMembership(C.MembershipOf(C.PromotePeer(s, id).0), r.value)
  {
    PromotedRoles(s, id);
    var t := C.PromotePeer(s, id).0;
    ListsOfCluster(s);
    ListsOfCluster(t);
    MembersWellFormed(s);
    hide C.PromotePeer, C.MembershipOf, Lists, SameMembership, Members.Apply, Members.NoDuplicates;
    ListsAfterPromote(s.nodes, t.nodes, C.MembershipOf(s), id);
    SameLists(t.nodes, C.MembershipOf(t), Members.Apply(C.MembershipOf(s), Members.PromoteLearner(id)).value);
  }

  lemma RemovedAgrees(s: C.Cluster, id: NodeId)
    requires id in s.nodes && s.leaderId != Some(id)
    ensures var r := Members.Apply(C.MembershipOf(s), Members.RemovePeer(id));
            r.Ok? && SameMembership(C.MembershipOf(C.RemovePeer(s, id).0), r.value)
  {
    RemovedRoles(s, id);
    var t := C.RemovePeer(s, id).0;
    ListsOfCluster(s);
    ListsOfCluster(t);
    MembersWellFormed(s);
    hide C.RemovePeer, C.MembershipOf, Lists, SameMembership, Members.Apply, Members.WellFormed;
    ListsAfterRemove(s.nodes, C.MembershipOf(s), id);
    SameLists(t.nodes, C.MembershipOf(t), Members.Apply(C.MembershipOf(s), Members.RemovePeer(id)).value);
  }

  /** An executed operation changes the cluster's membership as the membership list would. */
  lemma ExecutorAgreesWithMembershipList(s: C.Cluster, op: Operation)
    requires ChangeFor(op).Some? && Execute(s, op).1.Ok?
    ensures var r := Members.Apply(C.MembershipOf(s), ChangeFor(op).value);
            r.Ok? && SameMembership(C.MembershipOf(Execute(s, op).0), r.value)
  {
    MemberIsNode(s, Subject(op));
    MembersAreNodes(s);
    hide C.AddPeer, C.RemovePeer, C.PromotePeer, C.TransferLeader, Promotable, C.MembershipOf, SameMembership, Members.Apply;
    match op {
      case AddLearner(peer) => AddedAgrees(s, peer.(role := Learner), Members.AddLearner(peer.nodeId));
      case AddWitness(peer) => AddedAgrees(s, peer.(role := Witness), Members.AddWitness(peer.nodeId));
      case Promote(id) => PromotedAgrees(s, id);
      case Remove(id) => RemovedAgrees(s, id);
      case _ =>
    }
  }

  /** The joint membership of a report is present exactly when the voters changed, and a
      joint quorum then meets every majority of the voters before and after. */
  lemma ReportedJointQuorum(s: C.Cluster, op: Operation, joint: seq<NodeId>, other: seq<NodeId>)
    ensures var r := ReportOf(s, op, false);
            && (r.joint.Some? <==> r.before.voters != r.after.voters)
            && (r.joint.Some? && Members.JointQuorumReached(r.joint.value, joint) ==>
                  && (Members.Votes(r.before.voters, other) >= |r.before.voters| / 2 + 1 ==>
                        exists id :: id in r.before.voters && id in joint && id in other)
                  && (Members.Votes(r.after.voters, other) >= |r.after.voters| / 2 + 1 ==>
                        exists id :: id in r.after.voters && id in joint && id in other))
  {
    MembersWellFormed(s);
    MembersWellFormed(Execute(s, op).0);
    var r := ReportOf(s, op, false);
    hide C.MembershipOf, Members.Votes, Execute, Blocked;
    if r.joint.Some? && Members.JointQuorumReached(r.joint.value, joint) {
      Members.JointQuorumMeetsBothSides(r.joint.value, joint, other);
    }
  }
}
