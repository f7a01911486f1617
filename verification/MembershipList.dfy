/** The membership object: peer lists changed in place, as the model changes them. */
module MembershipList {
  import opened Types
  import opened MembershipModel

  class RaftMembership {
    const groupId: GroupId
    var voters: seq<NodeId>
    var learners: seq<NodeId>
    var witnesses: seq<NodeId>
    var epoch: nat

    function State(): Membership
      reads this
    {
      Membership(groupId, voters, learners, witnesses, epoch)
    }

    constructor (m: Membership)
      ensures State() == m
    {
      groupId, voters, learners, witnesses, epoch := m.groupId, m.voters, m.learners, m.witnesses, m.epoch;
    }

    method QuorumReached(acks: seq<NodeId>) returns (reached: bool)
      ensures reached <==> MembershipModel.QuorumReached(State(), acks)
    {
      var nodes := voters + witnesses;
      var votes := 0;
      for i := 0 to |nodes|
        invariant votes + Votes(nodes[i..], acks) == Votes(nodes, acks)
      {
        if nodes[i] in acks {
          votes := votes + 1;
        }
      }
      reached := votes >= (|voters| + |witnesses|) / 2 + 1;
    }

    /** Applies a change; on an error nothing changes. */
    method Change(c: Change) returns (r: Result<()>)
      modifies this
      ensures match Apply(old(State()), c)
              case Ok(m) => r.Ok? && State() == m
              case Err(e) => r == Err(e) && State() == old(State())
    {
      match c {
        case AddLearner(id) =>
          if IsMember(State(), id) {
            return Err(InvalidRequest);
          }
          learners := learners + [id];
        case AddWitness(id) =>
          if IsMember(State(), id) {
            return Err(InvalidRequest);
          }
          witnesses := witnesses + [id];
        case PromoteLearner(id) =>
          if id !in learners {
            return Err(InvalidRequest);
          }
          learners := RemoveNode(learners, id);
          voters := voters + [id];
        case RemovePeer(id) =>
          if id in voters {
            voters := RemoveNode(voters, id);
          } else if id in learners {
            learners := RemoveNode(learners, id);
          } else if id in witnesses {
            witnesses := RemoveNode(witnesses, id);
          } else {
            return Err(NodeNotFound(id));
          }
      }
      epoch := epoch + 1;
      return Ok(());
    }
  }

  /** Removes the first occurrence of a listed node. */
  method RemoveNode(nodes: seq<NodeId>, id: NodeId) returns (left: seq<NodeId>)
    requires id in nodes
    ensures left == RemoveFirst(nodes, id)
  {
    var position := 0;
    while nodes[position] != id
      invariant 0 <= position < |nodes|
      invariant id !in nodes[..position]
      decreases |nodes| - position
    {
      position := position + 1;
    }
    left := nodes[..position] + nodes[position + 1..];
    RemoveFirstAt(nodes, id, position);
  }

  lemma {:induction false} RemoveFirstAt(nodes: seq<NodeId>, id: NodeId, position: nat)
    requires position < |nodes| && nodes[position] == id && id !in nodes[..position]
    ensures RemoveFirst(nodes, id) == nodes[..position] + nodes[position + 1..]
  {
    if position > 0 {
      assert nodes[0] == nodes[..position][0];
      assert nodes[1..][..position - 1] == nodes[..position][1..];
      RemoveFirstAt(nodes[1..], id, position - 1);
      assert nodes[1..][position..] == nodes[position + 1..];
    }
  }
}
