/** Group membership, majority quorums and joint quorums, and why every quorum
    before a change meets every quorum after it. */
module MembershipModel {
  import opened Types

  datatype Membership = Membership(
    groupId: GroupId, voters: seq<NodeId>, learners: seq<NodeId>, witnesses: seq<NodeId>, epoch: nat)

  function Participants(m: Membership): seq<NodeId> {
    m.voters + m.witnesses
  }

  function QuorumSize(m: Membership): nat {
    |Participants(m)| / 2 + 1
  }

  /** How many of the listed nodes acknowledged. */
  function Votes(nodes: seq<NodeId>, acks: seq<NodeId>): nat {
    if nodes == [] then 0 else (if nodes[0] in acks then 1 else 0) + Votes(nodes[1..], acks)
  }

  predicate QuorumReached(m: Membership, acks: seq<NodeId>) {
    Votes(Participants(m), acks) >= QuorumSize(m)
  }

  predicate IsMember(m: Membership, id: NodeId) {
    id in m.voters || id in m.learners || id in m.witnesses
  }

  function RemoveFirst(nodes: seq<NodeId>, id: NodeId): seq<NodeId> {
    if nodes == [] then []
    else if nodes[0] == id then nodes[1..]
    else [nodes[0]] + RemoveFirst(nodes[1..], id)
  }

  datatype Change =
    | AddLearner(id: NodeId)
    | AddWitness(id: NodeId)
    | PromoteLearner(id: NodeId)
    | RemovePeer(id: NodeId)

  function Apply(m: Membership, c: Change): Result<Membership> {
    match c
    case AddLearner(id) =>
      if IsMember(m, id) then Err(InvalidRequest)
      else Ok(m.(learners := m.learners + [id], epoch := m.epoch + 1))
    case AddWitness(id) =>
      if IsMember(m, id) then Err(InvalidRequest)
      else Ok(m.(witnesses := m.witnesses + [id], epoch := m.epoch + 1))
    case PromoteLearner(id) =>
      if id !in m.learners then Err(InvalidRequest)
      else Ok(m.(learners := RemoveFirst(m.learners, id), voters := m.voters + [id], epoch := m.epoch + 1))
    case RemovePeer(id) =>
      if id in m.voters then Ok(m.(voters := RemoveFirst(m.voters, id), epoch := m.epoch + 1))
      else if id in m.learners then Ok(m.(learners := RemoveFirst(m.learners, id), epoch := m.epoch + 1))
      else if id in m.witnesses then Ok(m.(witnesses := RemoveFirst(m.witnesses, id), epoch := m.epoch + 1))
      else Err(NodeNotFound(id))
  }

  // ----- Sets behind the lists -----

  function Elements(s: seq<NodeId>): set<NodeId> {
    set x | x in s
  }

  ghost predicate NoDuplicates(s: seq<NodeId>) {
    forall i, j :: 0 <= i < j < |s| ==> s[i] != s[j]
  }

  /** No node is listed twice, within a list or across lists. */
  ghost predicate WellFormed(m: Membership) {
    && NoDuplicates(m.voters) && NoDuplicates(m.learners) && NoDuplicates(m.witnesses)
    && Elements(m.voters) !! Elements(m.learners) !! Elements(m.witnesses)
  }

  lemma {:induction false} VotesCountElements(nodes: seq<NodeId>, acks: seq<NodeId>)
    requires NoDuplicates(nodes)
    ensures Votes(nodes, acks) == |Elements(nodes) * Elements(acks)|
    ensures |nodes| == |Elements(nodes)|
  {
    if nodes == [] {
      assert Elements(nodes) == {} && Elements(nodes) * Elements(acks) == {};
    } else {
      var x, rest := nodes[0], nodes[1..];
      VotesCountElements(rest, acks);
      assert Votes(nodes, acks) == (if x in acks then 1 else 0) + Votes(rest, acks);
      ConsElements(nodes);
      hide Votes, NoDuplicates;
      if x in acks {
        assert Elements(nodes) * Elements(acks) == Elements(rest) * Elements(acks) + {x};
      } else {
        assert Elements(nodes) * Elements(acks) == Elements(rest) * Elements(acks);
      }
    }
  }

  lemma ConsElements(nodes: seq<NodeId>)
    requires nodes != []
    ensures Elements(nodes) == Elements(nodes[1..]) + {nodes[0]}
    ensures NoDuplicates(nodes) ==> NoDuplicates(nodes[1..]) && nodes[0] !in Elements(nodes[1..])
  {
  }

  lemma ConcatElements(a: seq<NodeId>, b: seq<NodeId>)
    ensures Elements(a + b) == Elements(a) + Elements(b)
    ensures NoDuplicates(a) && NoDuplicates(b) && Elements(a) !! Elements(b) ==> NoDuplicates(a + b)
  {
    forall i, j | 0 <= i < j < |a + b| && NoDuplicates(a) && NoDuplicates(b) && Elements(a) !! Elements(b)
      ensures (a + b)[i] != (a + b)[j]
    {
      if i < |a| <= j {
        assert (a + b)[i] in Elements(a) && (a + b)[j] in Elements(b);
      }
    }
  }

  lemma {:induction false} RemoveFirstElements(nodes: seq<NodeId>, id: NodeId)
    requires NoDuplicates(nodes)
    ensures Elements(RemoveFirst(nodes, id)) == Elements(nodes) - {id}
    ensures NoDuplicates(RemoveFirst(nodes, id))
  {
    if nodes != [] {
      var rest := nodes[1..];
      assert nodes == [nodes[0]] + rest;
      ConcatElements([nodes[0]], rest);
      RemoveFirstElements(rest, id);
      if nodes[0] != id {
        ConcatElements([nodes[0]], RemoveFirst(rest, id));
        assert nodes[0] !in Elements(rest);
      }
    }
  }

  // ----- Changes keep the lists disjoint -----

  lemma ChangeKeepsWellFormed(m: Membership, c: Change)
    requires WellFormed(m) && Apply(m, c).Ok?
    ensures WellFormed(Apply(m, c).value)
  {
    ConcatElements(m.learners, [c.id]);
    ConcatElements(m.witnesses, [c.id]);
    ConcatElements(m.voters, [c.id]);
    RemoveFirstElements(m.voters, c.id);
    RemoveFirstElements(m.learners, c.id);
    RemoveFirstElements(m.witnesses, c.id);
  }

  function Run(m: Membership, changes: seq<Change>): Membership
    decreases |changes|
  {
    if changes == [] then m
    else
      var r := Apply(m, changes[0]);
      Run(if r.Ok? then r.value else m, changes[1..])
  }

  /** Every run of changes, failed ones skipped, keeps the lists free of duplicates and
      pairwise disjoint. */
  lemma {:induction false} RunKeepsWellFormed(m: Membership, changes: seq<Change>)
    requires WellFormed(m)
    ensures WellFormed(Run(m, changes))
    decreases |changes|
  {
    if changes != [] {
      var r := Apply(m, changes[0]);
      if r.Ok? {
        ChangeKeepsWellFormed(m, changes[0]);
      }
      RunKeepsWellFormed(if r.Ok? then r.value else m, changes[1..]);
    }
  }

  /** Where a node is listed. */
  function Place(m: Membership, id: NodeId): Option<ReplicaRole> {
    if id in m.voters then Some(Voter)
    else if id in m.learners then Some(Learner)
    else if id in m.witnesses then Some(Witness)
    else None
  }

  /** The list without a node, in order. */
  function Others(nodes: seq<NodeId>, id: NodeId): seq<NodeId> {
    if nodes == [] then []
    else (if nodes[0] == id then [] else [nodes[0]]) + Others(nodes[1..], id)
  }

  /** Whether a change applies, by where its node is listed, and where it then is. */
  function Moves(from: Option<ReplicaRole>, c: Change): Result<Option<ReplicaRole>> {
    match c
    case AddLearner(_) => if from.None? then Ok(Some(Learner)) else Err(InvalidRequest)
    case AddWitness(_) => if from.None? then Ok(Some(Witness)) else Err(InvalidRequest)
    case PromoteLearner(_) => if from == Some(Learner) then Ok(Some(Voter)) else Err(InvalidRequest)
    case RemovePeer(id) => if from.Some? then Ok(None) else Err(NodeNotFound(id))
  }

  lemma {:induction false} OthersOfPush(nodes: seq<NodeId>, id: NodeId)
    ensures Others(nodes + [id], id) == Others(nodes, id)
  {
    if nodes == [] {
      assert [] + [id] == [id];
      assert Others([id], id) == [] + Others([], id);
    } else {
      assert (nodes + [id])[1..] == nodes[1..] + [id];
      OthersOfPush(nodes[1..], id);
    }
  }

  lemma {:induction false} OthersOfRemove(nodes: seq<NodeId>, id: NodeId)
    ensures Others(RemoveFirst(nodes, id), id) == Others(nodes, id)
  {
    if nodes != [] && nodes[0] != id {
      assert ([nodes[0]] + RemoveFirst(nodes[1..], id))[1..] == RemoveFirst(nodes[1..], id);
      OthersOfRemove(nodes[1..], id);
    }
  }

  /** Everyone but the node stays in the same place and order. */
  ghost predicate OthersStay(m: Membership, t: Membership, id: NodeId) {
    && Others(t.voters, id) == Others(m.voters, id) && Others(t.learners, id) == Others(m.learners, id)
    && Others(t.witnesses, id) == Others(m.witnesses, id)
    && forall k :: k != id ==> Place(t, k) == Place(m, k)
  }

  /** The node joins at the end of its list. */
  ghost predicate AtEnd(m: Membership, id: NodeId) {
    match Place(m, id)
    case None => true
    case Some(Voter) => m.voters[|m.voters| - 1] == id
    case Some(Learner) => m.learners[|m.learners| - 1] == id
    case Some(Witness) => m.witnesses[|m.witnesses| - 1] == id
  }

  lemma PlaceAfterPush(nodes: seq<NodeId>, id: NodeId)
    ensures forall k :: k in nodes + [id] <==> k == id || k in nodes
  {
  }

  lemma PlaceAfterRemove(nodes: seq<NodeId>, id: NodeId)
    requires NoDuplicates(nodes)
    ensures forall k :: k in RemoveFirst(nodes, id) <==> k != id && k in nodes
  {
    RemoveFirstElements(nodes, id);
    assert forall k :: k in RemoveFirst(nodes, id) <==> k in Elements(RemoveFirst(nodes, id));
  }

  /** The parts of the change that each list takes. */
  lemma ListChanges(nodes: seq<NodeId>, id: NodeId)
    requires NoDuplicates(nodes)
    ensures Others(nodes + [id], id) == Others(nodes, id) && Others(RemoveFirst(nodes, id), id) == Others(nodes, id)
    ensures (nodes + [id])[|nodes + [id]| - 1] == id
    ensures forall k :: k in nodes + [id] <==> k == id || k in nodes
    ensures forall k :: k in RemoveFirst(nodes, id) <==> k != id && k in nodes
  {
    OthersOfPush(nodes, id);
    OthersOfRemove(nodes, id);
    PlaceAfterPush(nodes, id);
    PlaceAfterRemove(nodes, id);
    hide Others, RemoveFirst, NoDuplicates;
  }

  lemma OnePlace(m: Membership, id: NodeId)
    requires WellFormed(m)
    ensures id in m.voters ==> id !in m.learners && id !in m.witnesses
    ensures id in m.learners ==> id !in m.witnesses
  {
    assert id in m.voters <==> id in Elements(m.voters);
    assert id in m.learners <==> id in Elements(m.learners);
    assert id in m.witnesses <==> id in Elements(m.witnesses);
    hide NoDuplicates, Elements;
  }

  /** The change moved its node from one place to another and nothing else. */
  ghost predicate Moved(m: Membership, t: Membership, id: NodeId, place: Option<ReplicaRole>) {
    && Place(t, id) == place && AtEnd(t, id) && OthersStay(m, t, id)
    && t.epoch == m.epoch + 1 && t.groupId == m.groupId
  }

  lemma LearnerMoves(m: Membership, id: NodeId)
    requires !IsMember(m, id) && NoDuplicates(m.learners)
    ensures Moved(m, m.(learners := m.learners + [id], epoch := m.epoch + 1), id, Some(Learner))
  {
    ListChanges(m.learners, id);
    hide Others, RemoveFirst, NoDuplicates;
  }

  lemma WitnessMoves(m: Membership, id: NodeId)
    requires !IsMember(m, id) && NoDuplicates(m.witnesses)
    ensures Moved(m, m.(witnesses := m.witnesses + [id], epoch := m.epoch + 1), id, Some(Witness))
  {
    ListChanges(m.witnesses, id);
    hide Others, RemoveFirst, NoDuplicates;
  }

  lemma PromotionMoves(m: Membership, id: NodeId)
    requires id in m.learners && NoDuplicates(m.learners) && NoDuplicates(m.voters)
    ensures Moved(m, m.(learners := RemoveFirst(m.learners, id), voters := m.voters + [id], epoch := m.epoch + 1), id, Some(Voter))
  {
    ListChanges(m.learners, id);
    ListChanges(m.voters, id);
    hide Others, RemoveFirst, NoDuplicates;
  }

  lemma VoterLeaves(m: Membership, id: NodeId)
    requires id in m.voters && id !in m.learners && id !in m.witnesses && NoDuplicates(m.voters)
    ensures Moved(m, m.(voters := RemoveFirst(m.voters, id), epoch := m.epoch + 1), id, None)
  {
    ListChanges(m.voters, id);
    hide Others, RemoveFirst, NoDuplicates;
  }

  lemma LearnerLeaves(m: Membership, id: NodeId)
    requires id in m.learners && id !in m.voters && id !in m.witnesses && NoDuplicates(m.learners)
    ensures Moved(m, m.(learners := RemoveFirst(m.learners, id), epoch := m.epoch + 1), id, None)
  {
    ListChanges(m.learners, id);
    hide Others, RemoveFirst, NoDuplicates;
  }

  lemma WitnessLeaves(m: Membership, id: NodeId)
    requires id in m.witnesses && id !in m.voters && id !in m.learners && NoDuplicates(m.witnesses)
    ensures Moved(m, m.(witnesses := RemoveFirst(m.witnesses, id), epoch := m.epoch + 1), id, None)
  {
    ListChanges(m.witnesses, id);
    hide Others, RemoveFirst, NoDuplicates;
  }

  lemma RemovalMoves(m: Membership, id: NodeId)
    requires WellFormed(m) && IsMember(m, id)
    ensures Moved(m, Apply(m, RemovePeer(id)).value, id, None)
  {
    OnePlace(m, id);
    if id in m.voters {
      VoterLeaves(m, id);
    } else if id in m.learners {
      LearnerLeaves(m, id);
    } else {
      WitnessLeaves(m, id);
    }
    hide Moved, RemoveFirst, NoDuplicates;
  }

  /** Main result: a change applies exactly from the place it is meant for; its node moves to the
      end of the list it is meant for, everyone else stays in place and in order, and the epoch
      goes up by one. */
  lemma ChangeIsExact(m: Membership, c: Change)
    requires WellFormed(m)
    ensures match Moves(Place(m, c.id), c)
            case Err(error) => Apply(m, c) == Err(error)
            case Ok(place) => Apply(m, c).Ok? && Moved(m, Apply(m, c).value, c.id, place)
  {
    OnePlace(m, c.id);
    if Apply(m, c).Ok? {
      match c {
        case AddLearner(id) => LearnerMoves(m, id);
        case AddWitness(id) => WitnessMoves(m, id);
        case PromoteLearner(id) => PromotionMoves(m, id);
        case RemovePeer(id) => RemovalMoves(m, id);
      }
    }
    hide Moved, RemoveFirst, NoDuplicates, Elements;
  }

  /** How many of the changes apply in turn. */
  function Applied(m: Membership, changes: seq<Change>): nat
    decreases |changes|
  {
    if changes == [] then 0
    else match Apply(m, changes[0])
      case Ok(t) => 1 + Applied(t, changes[1..])
      case Err(_) => Applied(m, changes[1..])
  }

  /** Over any run the epoch counts the changes that applied. */
  lemma {:induction false} EpochCountsChanges(m: Membership, changes: seq<Change>)
    requires WellFormed(m)
    ensures Run(m, changes).epoch == m.epoch + Applied(m, changes)
    decreases |changes|
  {
    if changes != [] {
      ChangeIsExact(m, changes[0]);
      if Apply(m, changes[0]).Ok? {
        ChangeKeepsWellFormed(m, changes[0]);
      }
      hide Apply, WellFormed;
      EpochCountsChanges(if Apply(m, changes[0]).Ok? then Apply(m, changes[0]).value else m, changes[1..]);
    }
  }

  // ----- Quorum overlap -----

  lemma OverlapOfLargeSets(universe: set<NodeId>, a: set<NodeId>, b: set<NodeId>)
    requires a <= universe && b <= universe && |a| + |b| > |universe|
    ensures exists x :: x in a && x in b
  {
    var u := a + b;
    assert |u + (universe - u)| == |u| + |universe - u| && u + (universe - u) == universe;
    assert |a + (b - a)| == |a| + |b - a| && a + (b - a) == u;
    assert |(b - a) + (a * b)| == |b - a| + |a * b| && (b - a) + (a * b) == b;
    assert |a * b| > 0;
    var x :| x in a * b;
    assert x in a && x in b;
  }

  /** Majorities of two duplicate-free lists that differ by at most one node. */
  lemma MajoritiesMeet(p: seq<NodeId>, q: seq<NodeId>, x: NodeId, acksP: seq<NodeId>, acksQ: seq<NodeId>)
    requires NoDuplicates(p) && NoDuplicates(q)
    requires Elements(p) == Elements(q) || Elements(q) == Elements(p) + {x} || Elements(q) == Elements(p) - {x}
    requires Votes(p, acksP) >= |p| / 2 + 1 && Votes(q, acksQ) >= |q| / 2 + 1
    ensures exists id :: id in p && id in q && id in acksP && id in acksQ
  {
    VotesCountElements(p, acksP);
    VotesCountElements(q, acksQ);
    var a, b := Elements(p) * Elements(acksP), Elements(q) * Elements(acksQ);
    var universe := if Elements(p) <= Elements(q) then Elements(q) else Elements(p);
    if Elements(q) == Elements(p) + {x} && x !in Elements(p) {
      assert |Elements(q)| == |Elements(p)| + 1;
    } else if Elements(q) == Elements(p) - {x} && x in Elements(p) {
      assert Elements(p) == Elements(q) + {x};
      assert |Elements(p)| == |Elements(q)| + 1;
    } else {
      assert Elements(p) == Elements(q);
    }
    OverlapOfLargeSets(universe, a, b);
    var id :| id in a && id in b;
    assert id in p && id in q && id in acksP && id in acksQ;
  }

  lemma ParticipantsAreDistinct(m: Membership)
    requires WellFormed(m)
    ensures NoDuplicates(Participants(m))
    ensures Elements(Participants(m)) == Elements(m.voters) + Elements(m.witnesses)
  {
    ConcatElements(m.voters, m.witnesses);
  }

  lemma ChangeMovesOneParticipant(m: Membership, c: Change)
    requires WellFormed(m) && Apply(m, c).Ok?
    ensures var p, q := Elements(Participants(m)), Elements(Participants(Apply(m, c).value));
            p == q || q == p + {c.id} || q == p - {c.id}
  {
    ChangeKeepsWellFormed(m, c);
    ParticipantsAreDistinct(m);
    ParticipantsAreDistinct(Apply(m, c).value);
    ConcatElements(m.witnesses, [c.id]);
    ConcatElements(m.voters, [c.id]);
    RemoveFirstElements(m.voters, c.id);
    RemoveFirstElements(m.witnesses, c.id);
  }

  /** Main result: an acknowledgement set that reached quorum before one change shares
      a participant of both memberships with any set that reaches quorum after it. */
  lemma QuorumsMeetAcrossChange(m: Membership, c: Change, before: seq<NodeId>, after: seq<NodeId>)
    requires WellFormed(m) && Apply(m, c).Ok?
    requires QuorumReached(m, before) && QuorumReached(Apply(m, c).value, after)
    ensures exists id :: id in Participants(m) && id in Participants(Apply(m, c).value) && id in before && id in after
  {
    var n := Apply(m, c).value;
    ChangeKeepsWellFormed(m, c);
    ParticipantsAreDistinct(m);
    ParticipantsAreDistinct(n);
    ChangeMovesOneParticipant(m, c);
    MajoritiesMeet(Participants(m), Participants(n), c.id, before, after);
  }

  /** Two changes are already too many: the overlap of quorums is lost. */
  lemma TwoChangesLoseOverlap()
    ensures var m := Membership(7, [1], [2, 3], [], 0);
            var n := Run(m, [PromoteLearner(2), PromoteLearner(3)]);
            && WellFormed(m) && QuorumReached(m, [1]) && QuorumReached(n, [2, 3])
            && !exists id :: id in [1] && id in [2, 3]
  {
    var m := Membership(7, [1], [2, 3], [], 0);
    var m1 := Membership(7, [1, 2], [3], [], 1);
    var n := Membership(7, [1, 2, 3], [], [], 2);
    assert RemoveFirst([2, 3], 2) == [3] && RemoveFirst([3], 3) == [];
    assert [1] + [2] == [1, 2] && [1, 2] + [3] == [1, 2, 3];
    assert Apply(m, PromoteLearner(2)) == Ok(m1) && Apply(m1, PromoteLearner(3)) == Ok(n);
    assert Run(m1, [PromoteLearner(3)]) == Run(n, []);
    assert [PromoteLearner(2), PromoteLearner(3)][1..] == [PromoteLearner(3)];
    assert Votes([3], [2, 3]) == 1 && Votes([2, 3], [2, 3]) == 2 && Votes([1, 2, 3], [2, 3]) == 2;
    assert Participants(n) == [1, 2, 3] && Participants(m) == [1] && Votes([1], [1]) == 1;
  }

  // ----- Joint consensus -----

  datatype JointMembership = JointMembership(oldVoters: seq<NodeId>, newVoters: seq<NodeId>)

  predicate JointQuorumReached(j: JointMembership, acks: seq<NodeId>) {
    && Votes(j.oldVoters, acks) >= |j.oldVoters| / 2 + 1
    && Votes(j.newVoters, acks) >= |j.newVoters| / 2 + 1
  }

  /** A joint quorum meets every majority of the old and every majority of the new
      voters, however far apart the two lists are. */
  lemma JointQuorumMeetsBothSides(j: JointMembership, joint: seq<NodeId>, other: seq<NodeId>)
    requires NoDuplicates(j.oldVoters) && NoDuplicates(j.newVoters)
    requires JointQuorumReached(j, joint)
    ensures Votes(j.oldVoters, other) >= |j.oldVoters| / 2 + 1 ==>
              exists id :: id in j.oldVoters && id in joint && id in other
    ensures Votes(j.newVoters, other) >= |j.newVoters| / 2 + 1 ==>
              exists id :: id in j.newVoters && id in joint && id in other
  {
    if Votes(j.oldVoters, other) >= |j.oldVoters| / 2 + 1 {
      MajoritiesMeet(j.oldVoters, j.oldVoters, 0, joint, other);
    }
    if Votes(j.newVoters, other) >= |j.newVoters| / 2 + 1 {
      MajoritiesMeet(j.newVoters, j.newVoters, 0, joint, other);
    }
  }
}
