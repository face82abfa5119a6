/** What each handler does, said of the fields and of sets of replicas, on all inputs. */
module RaftHandlers {
  import opened RaftNode
  import opened RaftCluster
  import opened RaftElection
  import opened RaftCommit

  /** The test on a number of votes is the test on the set of voters. */
  lemma MajorityIsQuorum(cfg: Membership, n: int, voters: set<int>)
    requires WellFormed(cfg) && n in cfg && voters <= cfg.Keys
    ensures Majority(|voters|, cfg[n]) <==> IsQuorum(cfg, voters)
  {
  }

  // ----- Elections

  /** The bookkeeping a new leader starts with: every peer is thought to have the whole log, and known to
      have nothing. */
  ghost predicate StartsLeading(s: State, n: int, peers: seq<int>, s': State) {
    && s'.role == Leader && s'.leaderId == n
    && (forall p <- peers :: Get(s'.nextIndex, p) == |s.log| && Get(s'.matchIndex, p) == 0)
  }

  /** Standing for election leaves the log and what is known to be committed alone. */
  ghost predicate KeepsLog(s: State, s': State) {
    && s'.running == s.running && s'.log == s.log && s'.commitIndex == s.commitIndex
    && s'.lastApplied == s.lastApplied && s'.delivered == s.delivered
  }

  /** A replica that runs and does not lead stands for the next term with its own vote, which wins exactly when
      it makes a majority by itself. */
  lemma Stands(cfg: Membership, n: int, s: State)
    requires WellFormed(cfg) && n in cfg
    ensures
      var s' := StartElection(s, n, cfg[n]);
      if !s.running || s.role == Leader then s' == s
      else
        && s'.term == s.term + 1 && s'.votedFor == n && s'.votes == {n} && KeepsLog(s, s')
        && (if IsQuorum(cfg, {n}) then StartsLeading(s, n, cfg[n], s')
            else s'.role == Candidate && s'.leaderId == NOBODY
                 && s'.nextIndex == s.nextIndex && s'.matchIndex == s.matchIndex)
  {
    MajorityIsQuorum(cfg, n, {n});
  }

  /** A vote is granted exactly when its term is not over and it is not given away in that term. */
  lemma VoteAnswered(s: State, term: int, candidate: int)
    ensures
      var (s', r) := HandleRequestVote(s, term, candidate);
      && r.kind == VoteReplyKind && r.term == s'.term
      && (r.accepted <==> term > s.term || (term == s.term && s.votedFor in [NOBODY, candidate]))
      && (term < s.term ==> s' == s) && (term >= s.term ==> s'.term == term)
      && (r.accepted ==> s'.votedFor == candidate && s'.role == Follower && s'.leaderId == NOBODY)
      && (!r.accepted ==> s' == s)
      && KeepsLog(s, s') && s'.votes == s.votes && s'.nextIndex == s.nextIndex && s'.matchIndex == s.matchIndex
  {
  }

  /** A reply the candidate asked for in this term, and a vote for it. */
  predicate IsVote(s: State, electionTerm: int, reply: Reply) {
    && s.running && s.role == Candidate
    && s.term == electionTerm == reply.term && reply.kind == VoteReplyKind && reply.accepted
  }

  /** A candidate is elected by the vote that completes a majority, and by no smaller number. */
  lemma VoteCounted(cfg: Membership, n: int, s: State, electionTerm: int, peer: int, reply: Reply)
    requires WellFormed(cfg) && n in cfg && IsVote(s, electionTerm, reply) && s.votes + {peer} <= cfg.Keys
    ensures
      var s' := HandleVoteReply(s, n, cfg[n], electionTerm, peer, reply);
      && s'.term == s.term && s'.votedFor == s.votedFor && s'.votes == s.votes + {peer} && KeepsLog(s, s')
      && (s'.role == Leader <==> IsQuorum(cfg, s.votes + {peer}))
      && (if IsQuorum(cfg, s.votes + {peer}) then StartsLeading(s, n, cfg[n], s')
          else s' == s.(votes := s.votes + {peer}))
  {
    MajorityIsQuorum(cfg, n, s.votes + {peer});
  }

  /** Any other reply is ignored, unless it tells of a later term. */
  lemma OtherVoteReply(s: State, n: int, peers: seq<int>, electionTerm: int, peer: int, reply: Reply)
    requires !IsVote(s, electionTerm, reply)
    ensures
      var s' := HandleVoteReply(s, n, peers, electionTerm, peer, reply);
      if s.running && reply.term > s.term then
        s' == s.(term := reply.term, votedFor := NOBODY, role := Follower, leaderId := NOBODY)
      else s' == s
  {
  }

  /** In every run the votes a candidate holds are of members, so a bare majority of them elects it, and
      nothing less does. */
  lemma BareMajorityWins(cfg: Membership, run: seq<Action>, n: int, m: Message)
    requires WellFormed(cfg) && Legal(cfg, run) && Enabled(cfg, After(cfg, run).c, OnVoteAnswer(n, m))
    requires IsVote(After(cfg, run).c.nodes[n], m.electionTerm, m.reply)
    ensures
      var s, s' := After(cfg, run).c.nodes[n], NodeAfter(cfg, After(cfg, run).c, OnVoteAnswer(n, m));
      s.votes + {m.src} <= cfg.Keys && (s'.role == Leader <==> IsQuorum(cfg, s.votes + {m.src}))
  {
    ElectionsHold(cfg, run);
    var w := After(cfg, run);
    var s := w.c.nodes[n];
    assert CandidateOk(w.h, n, s);
    forall v | v in s.votes + {m.src} ensures v in cfg {
      if v in s.votes {
        assert Voted(w.h, s.term, v, n);
      }
    }
    VoteCounted(cfg, n, s, m.electionTerm, m.src, m.reply);
  }

  // ----- Callbacks

  /** The callbacks made on the way to `s'` are those for the positions from the first that was not applied up
      to the commit index, each with the command the log has there. */
  ghost predicate Applies(applied: int, delivered: seq<Delivery>, log: seq<Entry>, s': State) {
    && s'.lastApplied == (if applied < s'.commitIndex then s'.commitIndex else applied)
    && delivered <= s'.delivered && |s'.delivered| == s'.lastApplied
    && forall i {:trigger s'.delivered[i]} :: |delivered| <= i < |s'.delivered| ==>
         i + 1 < |log| && s'.delivered[i] == Delivery(i + 1, log[i + 1].command)
  }

  lemma CommittedIsApplied(s: State)
    requires Sane(s) && s.commitIndex < |s.log|
    ensures
      var s' := ApplyCommitted(s);
      && Applies(s.lastApplied, s.delivered, s.log, s')
      && s' == s.(lastApplied := s'.lastApplied, delivered := s'.delivered)
  {
  }

  // ----- Entries

  /** Where both have an entry, the terms agree up to entry `n` of those received. */
  predicate Agrees(log: seq<Entry>, index: int, entries: seq<Entry>, n: int)
    requires 0 <= index < |log| && 0 <= n <= |entries|
  {
    forall i :: 0 <= i < n && index + 1 + i < |log| ==> log[index + 1 + i].term == entries[i].term
  }

  lemma AgreesOn(log: seq<Entry>, index: int, entries: seq<Entry>, n: int)
    requires 0 <= index && index + 1 < |log| && 1 <= n <= |entries| && Agrees(log, index, entries, n)
    ensures log[index + 1].term == entries[0].term && Agrees(log, index + 1, entries[1..], n - 1)
  {
    forall j | 0 <= j < n - 1 && index + 2 + j < |log| ensures log[index + 2 + j].term == entries[1..][j].term {
      assert entries[1..][j] == entries[j + 1] && index + 1 + (j + 1) == index + 2 + j;
    }
  }

  lemma {:induction false} MergeAtEnd(log: seq<Entry>, entries: seq<Entry>)
    requires |log| > 0
    ensures MergeEntries(log, |log| - 1, entries) == log + entries
    decreases |entries|
  {
    if entries != [] {
      MergeAtEnd(log + [entries[0]], entries[1..]);
      assert log + [entries[0]] + entries[1..] == log + entries;
    }
  }

  /** Without a conflict the log keeps all it has and gains what it lacks. */
  lemma {:induction false} MergeWithoutConflict(log: seq<Entry>, index: int, entries: seq<Entry>)
    requires 0 <= index < |log| && Agrees(log, index, entries, |entries|)
    ensures MergeEntries(log, index, entries) ==
            if index + 1 + |entries| <= |log| then log else log + entries[|log| - index - 1..]
    decreases |entries|
  {
    if index + 1 == |log| {
      MergeAtEnd(log, entries);
    } else if entries != [] {
      AgreesOn(log, index, entries, |entries|);
      MergeWithoutConflict(log, index + 1, entries[1..]);
    }
  }

  lemma MergeConflict(log: seq<Entry>, index: int, entries: seq<Entry>)
    requires 0 <= index && index + 1 < |log| && entries != [] && log[index + 1].term != entries[0].term
    ensures MergeEntries(log, index, entries) == log[..index + 1] + entries
  {
    var log1 := log[..index + 1] + [entries[0]];
    MergeAtEnd(log1, entries[1..]);
    assert log1 + entries[1..] == log[..index + 1] + entries;
  }

  /** From the first conflict on the log is replaced by what was received. */
  lemma {:induction false} MergeWithConflict(log: seq<Entry>, index: int, entries: seq<Entry>, n: int)
    requires 0 <= index < |log| && 0 <= n < |entries| && Agrees(log, index, entries, n)
    requires index + 1 + n < |log| && log[index + 1 + n].term != entries[n].term
    ensures MergeEntries(log, index, entries) == log[..index + 1 + n] + entries[n..]
    decreases |entries|
  {
    if n == 0 {
      MergeConflict(log, index, entries);
    } else {
      AgreesOn(log, index, entries, n);
      assert entries[1..][n - 1] == entries[n];
      MergeWithConflict(log, index + 1, entries[1..], n - 1);
    }
  }

  /** The log after the entries, exactly. */
  ghost predicate Merged(log: seq<Entry>, index: int, entries: seq<Entry>, log': seq<Entry>)
    requires 0 <= index < |log|
  {
    && (Agrees(log, index, entries, |entries|) ==>
          log' == if index + 1 + |entries| <= |log| then log else log + entries[|log| - index - 1..])
    && (forall n :: 0 <= n < |entries| && Agrees(log, index, entries, n)
                    && index + 1 + n < |log| && log[index + 1 + n].term != entries[n].term ==>
          log' == log[..index + 1 + n] + entries[n..])
  }

  lemma MergesExactly(log: seq<Entry>, index: int, entries: seq<Entry>)
    requires 0 <= index < |log|
    ensures Merged(log, index, entries, MergeEntries(log, index, entries))
  {
    if Agrees(log, index, entries, |entries|) {
      MergeWithoutConflict(log, index, entries);
    }
    forall n | 0 <= n < |entries| && Agrees(log, index, entries, n)
               && index + 1 + n < |log| && log[index + 1 + n].term != entries[n].term
      ensures MergeEntries(log, index, entries) == log[..index + 1 + n] + entries[n..]
    {
      MergeWithConflict(log, index, entries, n);
    }
  }

  /** The commit index a follower takes over: the leader's, as far as the message vouches for the log. */
  function FollowedCommit(commitIndex: int, args: AppendArgs): int {
    var last := args.prevIndex + |args.entries|;
    if args.leaderCommit <= commitIndex then commitIndex
    else if args.leaderCommit <= last then args.leaderCommit
    else last
  }

  /** A message in time is in a term that is not over, and its entries fit when the log has the one before. */
  predicate FitsLog(s: State, term: int, args: AppendArgs) {
    term >= s.term && 0 <= args.prevIndex < |s.log| && s.log[args.prevIndex].term == args.prevTerm
  }

  /** Whoever sends entries in a term that is not over is followed. */
  ghost predicate Followed(s: State, term: int, leader: int, s': State) {
    && s'.term == term && s'.role == Follower && s'.leaderId == leader
    && s'.votedFor == (if term > s.term then NOBODY else s.votedFor)
    && s'.running == s.running && s'.votes == s.votes
    && s'.nextIndex == s.nextIndex && s'.matchIndex == s.matchIndex
  }

  lemma EntriesRefused(s: State, term: int, leader: int, args: AppendArgs)
    requires Sane(s) && (term < s.term || 0 <= args.prevIndex) && !FitsLog(s, term, args)
    ensures
      var (s', r) := HandleAppendEntries(s, term, leader, args);
      && r == Reply(AppendReplyKind, s'.term, false)
      && (if term < s.term then s' == s else Followed(s, term, leader, s') && KeepsLog(s, s'))
  {
  }

  /** A log is taken over, and what the leader says is committed of it. */
  lemma CommitFollowed(s: State, args: AppendArgs, log: seq<Entry>)
    requires Sane(s) && 0 <= args.prevIndex && args.prevIndex + |args.entries| < |log|
    ensures |s.(log := log).log| > 0
    ensures
      var s2 := s.(log := log);
      var c := Min(args.leaderCommit, args.prevIndex + |args.entries|);
      var s' := if args.leaderCommit > s.commitIndex then ApplyCommitted(s2.(commitIndex := c)) else s2;
      && s'.commitIndex == FollowedCommit(s.commitIndex, args)
      && s' == s.(log := log, commitIndex := s'.commitIndex, lastApplied := s'.lastApplied, delivered := s'.delivered)
      && (if args.leaderCommit > s.commitIndex then Applies(s.lastApplied, s.delivered, log, s')
          else s'.lastApplied == s.lastApplied && s'.delivered == s.delivered)
  {
    if args.leaderCommit > s.commitIndex {
      CommittedIsApplied(s.(log := log, commitIndex := FollowedCommit(s.commitIndex, args)));
    }
  }

  /** Entries that fit are taken: the log becomes the merged one, the commit index follows the leader's, and what
      is newly committed is applied. */
  lemma EntriesTaken(s: State, term: int, leader: int, args: AppendArgs)
    requires Sane(s) && FitsLog(s, term, args)
    ensures
      var (s', r) := HandleAppendEntries(s, term, leader, args);
      && r == Reply(AppendReplyKind, term, true) && Followed(s, term, leader, s')
      && Merged(s.log, args.prevIndex, args.entries, s'.log)
      && s'.commitIndex == FollowedCommit(s.commitIndex, args)
      && (if args.leaderCommit > s.commitIndex then Applies(s.lastApplied, s.delivered, s'.log, s')
          else s'.lastApplied == s.lastApplied && s'.delivered == s.delivered)
  {
    var log := MergeEntries(s.log, args.prevIndex, args.entries);
    MergesExactly(s.log, args.prevIndex, args.entries);
    var s1 := AcknowledgeLeader(s, term, leader);
    CommitFollowed(s1, args, log);
    var s' := HandleAppendEntries(s, term, leader, args).0;
    assert s'.log == log;
  }

  // ----- Replies to a leader

  /** The leader and the peers known to hold position `k`. */
  function Backers(n: int, matchIndex: map<int, int>, peers: seq<int>, k: int): set<int> {
    {n} + set p | p in peers && Get(matchIndex, p) >= k
  }

  /** Position `k` can be committed: it is of the leader's term, and a majority is known to hold it. */
  ghost predicate IsBacked(cfg: Membership, n: int, log: seq<Entry>, term: int, matchIndex: map<int, int>, k: int)
    requires n in cfg
  {
    0 <= k < |log| && log[k].term == term && IsQuorum(cfg, Backers(n, matchIndex, cfg[n], k))
  }

  lemma CommittableIsBacked(cfg: Membership, n: int, s: State, k: int)
    requires WellFormed(cfg) && n in cfg
    ensures Committable(s, cfg[n], k) <==> IsBacked(cfg, n, s.log, s.term, s.matchIndex, k)
  {
    HoldersCounted(s.matchIndex, cfg[n], k);
    var holders := Holders(s.matchIndex, cfg[n], k);
    assert Backers(n, s.matchIndex, cfg[n], k) == {n} + holders && n !in holders;
    assert |{n} + holders| == 1 + |holders|;
  }

  /** The new commit index is the last position beyond the old one that can be committed, or the old one. */
  ghost predicate CommitsLast(cfg: Membership, n: int, log: seq<Entry>, term: int, matchIndex: map<int, int>,
                              before: int, after: int)
    requires n in cfg
  {
    && (after == before || (before < after && IsBacked(cfg, n, log, term, matchIndex, after)))
    && (forall k {:trigger IsBacked(cfg, n, log, term, matchIndex, k)} ::
          IsBacked(cfg, n, log, term, matchIndex, k) ==> k <= before || k <= after)
  }

  lemma HighestIsLast(cfg: Membership, n: int, s: State)
    requires WellFormed(cfg) && n in cfg && |s.log| > 0 && 0 <= s.commitIndex
    ensures CommitsLast(cfg, n, s.log, s.term, s.matchIndex, s.commitIndex, Highest(s, cfg[n], |s.log| - 1))
  {
    var best := Highest(s, cfg[n], |s.log| - 1);
    CommittableIsBacked(cfg, n, s, best);
    forall k | IsBacked(cfg, n, s.log, s.term, s.matchIndex, k) ensures k <= best {
      CommittableIsBacked(cfg, n, s, k);
    }
  }

  lemma CommitAdvances(cfg: Membership, n: int, s: State)
    requires WellFormed(cfg) && n in cfg && Sane(s) && 0 <= s.commitIndex
    ensures
      CommitsLast(cfg, n, s.log, s.term, s.matchIndex, s.commitIndex, AdvanceCommit(s, cfg[n]).commitIndex)
  {
    HighestIsLast(cfg, n, s);
    assert AdvanceCommit(s, cfg[n]).commitIndex == Highest(s, cfg[n], |s.log| - 1);
  }

  lemma AdvanceApplies(s: State, peers: seq<int>)
    requires Sane(s) && 0 <= s.commitIndex
    ensures
      var s' := AdvanceCommit(s, peers);
      && (if s'.commitIndex == s.commitIndex then s' == s else Applies(s.lastApplied, s.delivered, s.log, s'))
      && s' == s.(commitIndex := s'.commitIndex, lastApplied := s'.lastApplied, delivered := s'.delivered)
  {
    var best := Highest(s, peers, |s.log| - 1);
    if best > s.commitIndex {
      CommittedIsApplied(s.(commitIndex := best));
    }
  }

  /** A reply a leader counts: of its kind, not of a later term, and a success. */
  predicate IsSuccess(s: State, reply: Reply) {
    s.running && s.role == Leader && reply.term <= s.term && reply.kind == AppendReplyKind && reply.accepted
  }

  /** What a leader then knows of the peer: the larger of the position replied and what it knew. */
  function Counted(s: State, peer: int, sent: int): State {
    var m := if sent <= Get(s.matchIndex, peer) then Get(s.matchIndex, peer) else sent;
    s.(matchIndex := s.matchIndex[peer := m], nextIndex := s.nextIndex[peer := m + 1])
  }

  lemma SuccessAdvances(s: State, peers: seq<int>, peer: int, reply: Reply, sent: int)
    requires Sane(s) && 0 <= s.commitIndex && IsSuccess(s, reply)
    ensures HandleAppendReply(s, peers, peer, reply, sent) == AdvanceCommit(Counted(s, peer, sent), peers)
  {
  }

  /** A success reply raises what is known of the peer, never lowers it, and commits what a bare majority is
      then known to hold. */
  lemma SuccessCounted(cfg: Membership, n: int, s: State, peer: int, reply: Reply, sent: int)
    requires WellFormed(cfg) && n in cfg && Sane(s) && 0 <= s.commitIndex && IsSuccess(s, reply)
    ensures
      var s1, s' := Counted(s, peer, sent), HandleAppendReply(s, cfg[n], peer, reply, sent);
      && s' == s1.(commitIndex := s'.commitIndex, lastApplied := s'.lastApplied, delivered := s'.delivered)
      && CommitsLast(cfg, n, s1.log, s1.term, s1.matchIndex, s1.commitIndex, s'.commitIndex)
      && (if s'.commitIndex == s1.commitIndex then s' == s1
          else Applies(s1.lastApplied, s1.delivered, s1.log, s'))
  {
    SuccessAdvances(s, cfg[n], peer, reply, sent);
    CommitAdvances(cfg, n, Counted(s, peer, sent));
    AdvanceApplies(Counted(s, peer, sent), cfg[n]);
  }

  /** A failure steps the peer's next index back by one, down to 1; a later term ends the leadership; anything
      else is ignored. */
  lemma OtherAppendReply(s: State, peers: seq<int>, peer: int, reply: Reply, sent: int)
    requires Sane(s) && 0 <= s.commitIndex && !IsSuccess(s, reply)
    ensures
      var s' := HandleAppendReply(s, peers, peer, reply, sent);
      if !s.running || s.role != Leader then s' == s
      else if reply.term > s.term then
        s' == s.(term := reply.term, votedFor := NOBODY, role := Follower, leaderId := NOBODY)
      else if reply.kind == AppendReplyKind then
        var next := Get(s.nextIndex, peer);
        s' == s.(nextIndex := s.nextIndex[peer := if next > 1 then next - 1 else 1])
      else s' == s
  {
  }

  // ----- What is sent

  /** A heartbeat carries the whole log from the peer's next index on, and names the entry before it. */
  lemma HeartbeatCarries(s: State, p: int)
    requires HeartbeatDefined(s, p)
    ensures
      var args := HeartbeatArgs(s, p);
      && args.prevIndex + 1 == Get(s.nextIndex, p) && args.leaderCommit == s.commitIndex
      && s.log[..args.prevIndex + 1] + args.entries == s.log && s.log[args.prevIndex].term == args.prevTerm
  {
  }

  /** Candidates ask every peer for its vote, and leaders send every peer its entries. */
  lemma EveryPeerIsSent(cfg: Membership, c: Cluster, n: int, p: int)
    requires n in cfg && n in c.nodes && p in cfg[n] && c.nodes[n].running
    ensures
      var s := c.nodes[n];
      && (s.role != Leader ==>
            var s' := NodeAfter(cfg, c, Elect(n));
            s'.role == Leader || VoteRequest(s.term + 1, n, p) in Sends(cfg, c, Elect(n)))
      && (s.role == Leader && Enabled(cfg, c, Heartbeat(n)) ==>
            HeartbeatDefined(s, p) && Append(s.term, n, p, HeartbeatArgs(s, p)) in Sends(cfg, c, Heartbeat(n)))
  {
  }

  /** Every request that is handled is answered, with what its handler says and the position it was for. */
  lemma AnswersAreSent(cfg: Membership, c: Cluster, a: Action)
    requires Enabled(cfg, c, a) && (a.OnVoteRequest? || a.OnAppend?)
    ensures
      var s, m := c.nodes[a.n], a.m;
      && (a.OnVoteRequest? ==>
            Sends(cfg, c, a) == {VoteAnswer(m.term, a.n, m.src, HandleRequestVote(s, m.term, m.src).1)})
      && (a.OnAppend? ==>
            var (s', r) := HandleAppendEntries(s, m.term, m.src, m.args);
            Sends(cfg, c, a) == {AppendAnswer(a.n, m.src, r, m.args.prevIndex + |m.args.entries|)})
  {
  }
}
