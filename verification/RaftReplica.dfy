/** The replica as the source writes it: an object whose handlers update its fields in place.
    Each handler is proved to have the effect the cluster model gives it. */
module RaftReplica {
  import opened Bytes
  import opened RaftNode
  import RaftPayload

  datatype RequestKind = VoteRequested | EntriesSent | Other

  /** The arguments the payload carries, if it carries any. */
  ghost predicate Carries(payload: seq<byte>, args: AppendArgs) {
    RaftPayload.Fits(args) && RaftPayload.Core(args) <= payload
  }

  class Replica {
    const id: int
    const peers: seq<int>
    var running: bool
    var currentTerm: int
    var votedFor: int
    var role: Role
    var leaderId: int
    var votesReceived: set<int>
    var log: seq<Entry>
    var commitIndex: int
    var lastApplied: int
    var nextIndex: map<int, int>
    var matchIndex: map<int, int>
    var delivered: seq<Delivery>   // the calls made to the commit callback

    function View(): State
      reads this
    {
      State(running, currentTerm, votedFor, role, leaderId, votesReceived, log, commitIndex, lastApplied,
            nextIndex, matchIndex, delivered)
    }

    constructor (id: int, peers: seq<int>)
      ensures this.id == id && this.peers == peers && View() == INITIAL
      ensures View() == State(false, 0, -1, Follower, -1, {}, [Entry(0, 0, [])], 0, 0, map[], map[], [])
    {
      this.id, this.peers := id, peers;
      running, currentTerm, votedFor, role, leaderId := false, 0, NOBODY, Follower, NOBODY;
      votesReceived, log, commitIndex, lastApplied := {}, [SENTINEL], 0, 0;
      nextIndex, matchIndex, delivered := map[], map[], [];
    }

    method Propose(command: Command) returns (accepted: bool)
      modifies this
      ensures (View(), accepted) == RaftNode.Propose(old(View()), command)
      ensures accepted <==> old(role) == Leader
      ensures accepted ==>
                && log == old(log) + [Entry(old(currentTerm), |old(log)|, command)]
                && View() == old(View()).(log := log)
      ensures !accepted ==> View() == old(View())
    {
      if role != Leader {
        return false;
      }
      log := log + [Entry(currentTerm, |log|, command)];
      return true;
    }

    method HandleRequestVote(candidateTerm: int, candidate: int) returns (reply: Reply)
      modifies this
      ensures (View(), reply) == RaftNode.HandleRequestVote(old(View()), candidateTerm, candidate)
    {
      var granted := false;
      if candidateTerm >= currentTerm {
        if candidateTerm > currentTerm {
          currentTerm, votedFor, role, leaderId := candidateTerm, NOBODY, Follower, NOBODY;
        }
        if votedFor == NOBODY || votedFor == candidate {
          votedFor, role, leaderId := candidate, Follower, NOBODY;
          granted := true;
        }
      }
      reply := Reply(VoteReplyKind, currentTerm, granted);
    }

    /** A request as it arrives; one that makes no sense is answered and changes nothing. */
    method HandleMessage(kind: RequestKind, term: int, sender: int, payload: seq<byte>) returns (reply: Reply)
      requires Sane(View())
      requires kind == EntriesSent && term >= currentTerm ==>
                 forall args {:trigger Carries(payload, args)} :: Carries(payload, args) ==> 0 <= args.prevIndex
      modifies this
      ensures kind == VoteRequested ==> (View(), reply) == RaftNode.HandleRequestVote(old(View()), term, sender)
      ensures forall args {:trigger Carries(payload, args)} :: kind == EntriesSent && Carries(payload, args) ==>
                (View(), reply) == RaftNode.HandleAppendEntries(old(View()), term, sender, args)
      ensures kind == Other || (kind == EntriesSent && forall args :: !Carries(payload, args)) ==>
                View() == old(View()) && reply == Reply(PongKind, currentTerm, false)
    {
      if kind == VoteRequested {
        reply := HandleRequestVote(term, sender);
        return;
      }
      if kind == EntriesSent {
        var args := RaftPayload.DeserializePayload(payload);
        if args.Some? {
          assert Carries(payload, args.value);
          reply := HandleAppendEntries(term, sender, args.value);
          return;
        }
      }
      reply := Reply(PongKind, currentTerm, false);
    }

    method InitializeLeader()
      modifies this
      ensures View() == BecomeLeader(old(View()), id, peers)
    {
      role, leaderId := Leader, id;
      ResetProgress();
    }

    method ResetProgress()
      modifies this`nextIndex, this`matchIndex
      ensures nextIndex == SetAll(old(nextIndex), peers, |log|) && matchIndex == SetAll(old(matchIndex), peers, 0)
    {
      var i := 0;
      while i < |peers|
        invariant 0 <= i <= |peers|
        invariant nextIndex == SetAll(old(nextIndex), peers[..i], |log|)
        invariant matchIndex == SetAll(old(matchIndex), peers[..i], 0)
      {
        nextIndex := nextIndex[peers[i] := |log|];
        matchIndex := matchIndex[peers[i] := 0];
        i := i + 1;
        SetAllExtends(old(nextIndex), peers, i, |log|);
        SetAllExtends(old(matchIndex), peers, i, 0);
      }
      assert peers[..i] == peers;
    }

    method StartElection()
      modifies this
      ensures View() == RaftNode.StartElection(old(View()), id, peers)
    {
      if !running || role == Leader {
        return;
      }
      role, currentTerm, votedFor, leaderId, votesReceived := Candidate, currentTerm + 1, id, NOBODY, {id};
      if Majority(|votesReceived|, peers) {
        InitializeLeader();
      }
    }

    method HandleVoteReply(electionTerm: int, peer: int, reply: Reply)
      modifies this
      ensures View() == RaftNode.HandleVoteReply(old(View()), id, peers, electionTerm, peer, reply)
    {
      if !running {
        return;
      }
      if reply.term > currentTerm {
        currentTerm, votedFor, role, leaderId := reply.term, NOBODY, Follower, NOBODY;
        return;
      }
      if role != Candidate || currentTerm != electionTerm || reply.kind != VoteReplyKind
         || reply.term != electionTerm || !reply.accepted {
        return;
      }
      votesReceived := votesReceived + {peer};
      if Majority(|votesReceived|, peers) {
        InitializeLeader();
      }
    }

    method ApplyCommittedEntries()
      requires Sane(View()) && commitIndex < |log|
      modifies this
      ensures View() == ApplyCommitted(old(View()))
    {
      while lastApplied < commitIndex
        invariant Sane(View()) && commitIndex < |log|
        invariant ApplyCommitted(View()) == ApplyCommitted(old(View()))
        decreases commitIndex - lastApplied
      {
        ghost var before := View();
        lastApplied := lastApplied + 1;
        delivered := delivered + [Delivery(lastApplied, log[lastApplied].command)];
        AppliesOneMore(before);
      }
    }

    /** The follower's loop over the received entries. */
    method TakeEntries(prevIndex: int, entries: seq<Entry>)
      requires 0 <= prevIndex < |log|
      modifies this`log
      ensures log == MergeEntries(old(log), prevIndex, entries)
    {
      var index, i := prevIndex, 0;
      while i < |entries|
        invariant 0 <= i <= |entries| && index == prevIndex + i < |log|
        invariant MergeEntries(log, index, entries[i..]) == MergeEntries(old(log), prevIndex, entries)
      {
        var entry := entries[i];
        index := index + 1;
        if index < |log| {
          if log[index].term != entry.term {
            log := log[..index];
            log := log + [entry];
          }
        } else {
          log := log + [entry];
        }
        i := i + 1;
      }
    }

    method HandleAppendEntries(term: int, leader: int, args: AppendArgs) returns (reply: Reply)
      requires Sane(View()) && (term < currentTerm || 0 <= args.prevIndex)
      modifies this
      ensures (View(), reply) == RaftNode.HandleAppendEntries(old(View()), term, leader, args)
    {
      var success := false;
      if term >= currentTerm {
        if term > currentTerm {
          currentTerm, votedFor := term, NOBODY;
        }
        role, leaderId := Follower, leader;
        if args.prevIndex < |log| && log[args.prevIndex].term == args.prevTerm {
          success := true;
          TakeEntries(args.prevIndex, args.entries);
          if args.leaderCommit > commitIndex {
            var lastNewIndex := args.prevIndex + |args.entries|;
            commitIndex := Min(args.leaderCommit, lastNewIndex);
            ApplyCommittedEntries();
          }
        }
      }
      reply := Reply(AppendReplyKind, currentTerm, success);
    }

    method CountMatches(n: int) returns (count: int)
      ensures count == MatchCount(matchIndex, peers, n)
    {
      count := 1;
      var i := 0;
      while i < |peers|
        invariant 0 <= i <= |peers| && count == MatchCount(matchIndex, peers[..i], n)
      {
        if Get(matchIndex, peers[i]) >= n {
          count := count + 1;
        }
        i := i + 1;
        assert peers[..i][..i - 1] == peers[..i - 1];
      }
      assert peers[..i] == peers;
    }

    method AdvanceCommitIndex()
      requires Sane(View()) && 0 <= commitIndex
      modifies this
      ensures View() == AdvanceCommit(old(View()), peers)
    {
      var n := |log| - 1;
      while n > commitIndex
        invariant View() == old(View()) && n < |log|
        invariant Highest(View(), peers, n) == Highest(View(), peers, |log| - 1)
        decreases n - commitIndex
      {
        if log[n].term == currentTerm {
          var count := CountMatches(n);
          if Majority(count, peers) {
            commitIndex := n;
            ApplyCommittedEntries();
            return;
          }
        }
        n := n - 1;
      }
    }

    method HandleAppendReply(peer: int, reply: Reply, sent: int)
      requires Sane(View()) && 0 <= commitIndex
      modifies this
      ensures View() == RaftNode.HandleAppendReply(old(View()), peers, peer, reply, sent)
    {
      if !running || role != Leader {
        return;
      }
      if reply.term > currentTerm {
        currentTerm, votedFor, role, leaderId := reply.term, NOBODY, Follower, NOBODY;
        return;
      }
      if reply.kind == AppendReplyKind {
        if reply.accepted {
          matchIndex := matchIndex[peer := Max(Get(matchIndex, peer), sent)];
          nextIndex := nextIndex[peer := matchIndex[peer] + 1];
          AdvanceCommitIndex();
        } else {
          nextIndex := nextIndex[peer := Max(1, Get(nextIndex, peer) - 1)];
        }
      }
    }

    /** The arguments `SendHeartbeats` builds under the lock, one per peer and in peer order. */
    method BuildHeartbeats() returns (out: seq<(int, AppendArgs)>)
      requires running && role == Leader ==> forall p <- peers :: HeartbeatDefined(View(), p)
      ensures |out| == if running && role == Leader then |peers| else 0
      ensures forall i :: 0 <= i < |out| ==> out[i] == (peers[i], HeartbeatArgs(View(), peers[i]))
    {
      out := [];
      if !running || role != Leader {
        return;
      }
      var i := 0;
      while i < |peers|
        invariant 0 <= i <= |peers| && |out| == i
        invariant forall j :: 0 <= j < i ==> out[j] == (peers[j], HeartbeatArgs(View(), peers[j]))
      {
        var next := Get(nextIndex, peers[i]);
        assert HeartbeatDefined(View(), peers[i]);
        var entries := [];
        var k := next;
        while k < |log|
          invariant next <= k <= |log| && entries == log[next..k]
        {
          entries := entries + [log[k]];
          k := k + 1;
        }
        assert log[next..k] == log[next..];
        out := out + [(peers[i], AppendArgs(next - 1, log[next - 1].term, commitIndex, entries))];
        i := i + 1;
      }
    }

    method Start()
      modifies this
      ensures View() == RaftNode.Start(old(View()))
      ensures running && (old(running) ==> View() == old(View()))
      ensures !old(running) ==>
                View() == old(View()).(running := true, role := Follower, leaderId := NOBODY)
    {
      if running {
        return;
      }
      running, role, leaderId := true, Follower, NOBODY;
    }

    method Stop()
      modifies this
      ensures View() == RaftNode.Stop(old(View())) && !running && View() == old(View()).(running := false)
    {
      running := false;
    }
  }

  /** Applying one entry and then the rest is applying them all. */
  lemma AppliesOneMore(s: State)
    requires Sane(s) && s.lastApplied < s.commitIndex < |s.log|
    ensures
      var n := s.lastApplied + 1;
      ApplyCommitted(s.(lastApplied := n, delivered := s.delivered + [Delivery(n, s.log[n].command)])) ==
        ApplyCommitted(s)
  {
    var n := s.lastApplied + 1;
    var one := [Delivery(n, s.log[n].command)];
    var rest := Deliveries(s.log, n + 1, s.commitIndex);
    assert s.delivered + (one + rest) == s.delivered + one + rest;
    assert Deliveries(s.log, n, s.commitIndex) == one + rest;
    if n == s.commitIndex {
      assert rest == [];
    }
  }

  lemma SetAllExtends(m: map<int, int>, keys: seq<int>, i: int, value: int)
    requires 0 < i <= |keys|
    ensures SetAll(m, keys[..i], value) == SetAll(m, keys[..i - 1], value)[keys[i - 1] := value]
  {
    assert forall k :: k in keys[..i] <==> k in keys[..i - 1] || k == keys[i - 1];
  }
}
