/** One Raft replica: its state, and the effect of each handler on that state. */
module RaftNode {
  import opened Bytes

  type Command = seq<byte>

  datatype Role = Follower | Candidate | Leader

  datatype Entry = Entry(term: int, index: int, command: Command)

  /** One call of the commit callback. */
  datatype Delivery = Delivery(index: int, command: Command)

  datatype AppendArgs = AppendArgs(prevIndex: int, prevTerm: int, leaderCommit: int, entries: seq<Entry>)

  datatype ReplyKind = VoteReplyKind | AppendReplyKind | PongKind

  /** A reply message; `accepted` stands for the payload "1". */
  datatype Reply = Reply(kind: ReplyKind, term: int, accepted: bool)

  datatype State = State(
    running: bool,
    term: int,
    votedFor: int,
    role: Role,
    leaderId: int,
    votes: set<int>,
    log: seq<Entry>,
    commitIndex: int,
    lastApplied: int,
    nextIndex: map<int, int>,
    matchIndex: map<int, int>,
    delivered: seq<Delivery>)

  const NOBODY := -1

  const SENTINEL := Entry(0, 0, [])

  const INITIAL := State(false, 0, NOBODY, Follower, NOBODY, {}, [SENTINEL], 0, 0, map[], map[], [])

  /** What every handler needs of the state it starts from, and keeps. */
  predicate Sane(s: State) {
    && |s.log| > 0
    && |s.delivered| == s.lastApplied
  }

  /** `operator[]` of an unordered map of integers: an absent key reads as 0. */
  function Get(m: map<int, int>, key: int): int {
    if key in m then m[key] else 0
  }

  function SetAll(m: map<int, int>, keys: seq<int>, value: int): map<int, int> {
    m + map k | k in keys :: value
  }

  // ----- Votes and elections

  function HandleRequestVote(s: State, term: int, candidate: int): (State, Reply) {
    if term < s.term then
      (s, Reply(VoteReplyKind, s.term, false))
    else
      var s1 := if term > s.term
                then s.(term := term, votedFor := NOBODY, role := Follower, leaderId := NOBODY) else s;
      if s1.votedFor == NOBODY || s1.votedFor == candidate then
        (s1.(votedFor := candidate, role := Follower, leaderId := NOBODY), Reply(VoteReplyKind, s1.term, true))
      else
        (s1, Reply(VoteReplyKind, s1.term, false))
  }

  function BecomeLeader(s: State, self: int, peers: seq<int>): State {
    s.(role := Leader, leaderId := self,
       nextIndex := SetAll(s.nextIndex, peers, |s.log|),
       matchIndex := SetAll(s.matchIndex, peers, 0))
  }

  /** `votes_received_.size() > cluster_size_ / 2` with `cluster_size_` one more than the peers. */
  predicate Majority(count: int, peers: seq<int>) {
    count > (|peers| + 1) / 2
  }

  function StartElection(s: State, self: int, peers: seq<int>): State {
    if !s.running || s.role == Leader then s
    else
      var s1 := s.(role := Candidate, term := s.term + 1, votedFor := self, leaderId := NOBODY, votes := {self});
      if Majority(1, peers) then BecomeLeader(s1, self, peers) else s1
  }

  function StepDown(s: State, term: int): State {
    s.(term := term, votedFor := NOBODY, role := Follower, leaderId := NOBODY)
  }

  function HandleVoteReply(s: State, self: int, peers: seq<int>, electionTerm: int, peer: int, reply: Reply): State {
    if !s.running then s
    else if reply.term > s.term then StepDown(s, reply.term)
    else if s.role != Candidate || s.term != electionTerm || reply.kind != VoteReplyKind
            || reply.term != electionTerm || !reply.accepted then s
    else
      var s1 := s.(votes := s.votes + {peer});
      if Majority(|s1.votes|, peers) then BecomeLeader(s1, self, peers) else s1
  }

  // ----- Replication

  function Propose(s: State, command: Command): (State, bool) {
    if s.role != Leader then (s, false)
    else (s.(log := s.log + [Entry(s.term, |s.log|, command)]), true)
  }

  /** The follower's loop over the received entries, `index` being the last position already settled. */
  function MergeEntries(log: seq<Entry>, index: int, entries: seq<Entry>): (merged: seq<Entry>)
    requires 0 <= index < |log|
    ensures |merged| > index + |entries|
    decreases |entries|
  {
    if entries == [] then log
    else
      var i := index + 1;
      var log1 := if i >= |log| then log + [entries[0]]
                  else if log[i].term != entries[0].term then log[..i] + [entries[0]]
                  else log;
      MergeEntries(log1, i, entries[1..])
  }

  /** The callback calls for positions `first .. last`, in order. */
  function Deliveries(log: seq<Entry>, first: int, last: int): (calls: seq<Delivery>)
    requires 0 <= first && last < |log|
    ensures |calls| == if first <= last then last - first + 1 else 0
    ensures forall i :: 0 <= i < |calls| ==> calls[i] == Delivery(first + i, log[first + i].command)
    decreases last - first
  {
    if first <= last then [Delivery(first, log[first].command)] + Deliveries(log, first + 1, last) else []
  }

  function ApplyCommitted(s: State): State
    requires Sane(s) && s.commitIndex < |s.log|
  {
    if s.lastApplied < s.commitIndex then
      s.(lastApplied := s.commitIndex, delivered := s.delivered + Deliveries(s.log, s.lastApplied + 1, s.commitIndex))
    else s
  }

  function Min(a: int, b: int): int { if a < b then a else b }

  function Max(a: int, b: int): int { if a < b then b else a }

  predicate PrefixMatches(s: State, args: AppendArgs)
    requires 0 <= args.prevIndex
  {
    args.prevIndex < |s.log| && s.log[args.prevIndex].term == args.prevTerm
  }

  /** `term >= current_term_` holds on entry. */
  function AcknowledgeLeader(s: State, term: int, leader: int): State {
    var s1 := if term > s.term then s.(term := term, votedFor := NOBODY) else s;
    s1.(role := Follower, leaderId := leader)
  }

  function HandleAppendEntries(s: State, term: int, leader: int, args: AppendArgs): (State, Reply)
    requires Sane(s) && (term < s.term || 0 <= args.prevIndex)
  {
    if term < s.term then (s, Reply(AppendReplyKind, s.term, false))
    else
      var s1 := AcknowledgeLeader(s, term, leader);
      if !PrefixMatches(s1, args) then (s1, Reply(AppendReplyKind, s1.term, false))
      else
        var s2 := s1.(log := MergeEntries(s1.log, args.prevIndex, args.entries));
        var s3 := if args.leaderCommit > s2.commitIndex
                  then ApplyCommitted(s2.(commitIndex := Min(args.leaderCommit, args.prevIndex + |args.entries|)))
                  else s2;
        (s3, Reply(AppendReplyKind, s3.term, true))
  }

  /** The argument `SendHeartbeats` builds for one peer; outside `0 < next_index_ <= log_.size()`
      the source reads the log out of bounds. */
  predicate HeartbeatDefined(s: State, peer: int) {
    0 < Get(s.nextIndex, peer) <= |s.log|
  }

  function HeartbeatArgs(s: State, peer: int): AppendArgs
    requires HeartbeatDefined(s, peer)
  {
    var next := Get(s.nextIndex, peer);
    AppendArgs(next - 1, s.log[next - 1].term, s.commitIndex, s.log[next..])
  }

  /** The leader itself plus the peers known to hold position `n`. */
  function MatchCount(matchIndex: map<int, int>, peers: seq<int>, n: int): int {
    if peers == [] then 1
    else MatchCount(matchIndex, peers[..|peers| - 1], n) + if Get(matchIndex, peers[|peers| - 1]) >= n then 1 else 0
  }

  predicate Committable(s: State, peers: seq<int>, n: int) {
    0 <= n < |s.log| && s.log[n].term == s.term && Majority(MatchCount(s.matchIndex, peers, n), peers)
  }

  /** The largest committable position above `commitIndex` and not above `n`, else `commitIndex`. */
  function Highest(s: State, peers: seq<int>, n: int): (best: int)
    requires n < |s.log| && 0 <= s.commitIndex
    ensures best == s.commitIndex || (s.commitIndex < best <= n && Committable(s, peers, best))
    ensures forall k :: best < k <= n ==> !Committable(s, peers, k)
    decreases n - s.commitIndex
  {
    if n <= s.commitIndex then s.commitIndex
    else if Committable(s, peers, n) then n
    else Highest(s, peers, n - 1)
  }

  function AdvanceCommit(s: State, peers: seq<int>): State
    requires Sane(s) && 0 <= s.commitIndex
  {
    var n := Highest(s, peers, |s.log| - 1);
    if n > s.commitIndex then ApplyCommitted(s.(commitIndex := n)) else s
  }

  function HandleAppendReply(s: State, peers: seq<int>, peer: int, reply: Reply, sent: int): State
    requires Sane(s) && 0 <= s.commitIndex
  {
    if !s.running || s.role != Leader then s
    else if reply.term > s.term then StepDown(s, reply.term)
    else if reply.kind != AppendReplyKind then s
    else if reply.accepted then
      var m := Max(Get(s.matchIndex, peer), sent);
      AdvanceCommit(s.(matchIndex := s.matchIndex[peer := m], nextIndex := s.nextIndex[peer := m + 1]), peers)
    else
      s.(nextIndex := s.nextIndex[peer := Max(1, Get(s.nextIndex, peer) - 1)])
  }

  // ----- Stopping and starting one object keeps its term, vote and log

  function Start(s: State): State {
    if s.running then s else s.(running := true, role := Follower, leaderId := NOBODY)
  }

  function Stop(s: State): State { s.(running := false) }
}
