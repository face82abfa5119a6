/** Following a run of three replicas one action at a time. */
module RaftScripts {
  import opened RaftNode
  import opened RaftCluster

  const Three: Membership := map[1 := [2, 3], 2 := [1, 3], 3 := [1, 2]]

  lemma ThreeIsWellFormed()
    ensures RaftCluster.WellFormed(Three)
  {
    assert Three.Keys == {1, 2, 3};
  }

  // ----- Runs that keep one hypothesis, or both, or none

  datatype Keeps = Keeps(sameTerm: bool, upToDate: bool)

  predicate Allowed(k: Keeps, w: World, a: Action)
    requires Enabled(Three, w.c, a)
  {
    (k.sameTerm ==> SameTermReply(w.c, a)) && (k.upToDate ==> UpToDateVote(Three, w, a))
  }

  predicate Kept(k: Keeps, run: seq<Action>)
    requires Legal(Three, run)
  {
    (k.sameTerm ==> SameTermReplies(Three, run)) && (k.upToDate ==> UpToDateVotes(Three, run))
  }

  /** `R` holds where runs that keep `k` lead. */
  ghost predicate Closed(R: World -> bool, k: Keeps) {
    && R(Initial(Three))
    && forall w: World, a :: R(w) && Enabled(Three, w.c, a) && Allowed(k, w, a) ==> R(Next(Three, w, a))
  }

  ghost predicate Reached(w: World, k: Keeps) {
    exists run :: Legal(Three, run) && Kept(k, run) && After(Three, run) == w
  }

  lemma ReachedIsClosed(k: Keeps)
    ensures Closed((w: World) => Reached(w, k), k)
  {
    assert After(Three, []) == Initial(Three);
    assert Legal(Three, []) && Kept(k, []);
    forall w: World, a | Reached(w, k) && Enabled(Three, w.c, a) && Allowed(k, w, a)
      ensures Reached(Next(Three, w, a), k)
    {
      ReachedGoesOn(w, a, k);
    }
  }

  lemma ReachedGoesOn(w: World, a: Action, k: Keeps)
    requires Reached(w, k) && Enabled(Three, w.c, a) && Allowed(k, w, a)
    ensures Reached(Next(Three, w, a), k)
  {
    var run :| Legal(Three, run) && Kept(k, run) && After(Three, run) == w;
    assert (run + [a])[..|run|] == run;
    assert After(Three, run + [a]) == Next(Three, w, a);
  }

  // ----- Single actions

  /** Replica `a.n` takes one more action and moves to `s'`. */
  lemma Act(R: World -> bool, k: Keeps, w: World, a: Action, s': State) returns (w': World)
    requires Closed(R, k) && R(w) && Enabled(Three, w.c, a) && NodeAfter(Three, w.c, a) == s' && Allowed(k, w, a)
    ensures R(w') && w'.c.nodes == w.c.nodes[a.n := s'] && w'.c.net == w.c.net + Sends(Three, w.c, a)
    ensures
      var s := w.c.nodes[a.n];
      w'.h.votes == if Votes(s, s') then w.h.votes[(s'.term, a.n) := Vote(s'.votedFor, s.log)] else w.h.votes
  {
    w' := Next(Three, w, a);
  }

  lemma Elects(R: World -> bool, k: Keeps, w: World, n: int, s': State) returns (w': World)
    requires Closed(R, k) && R(w) && n in Three && n in w.c.nodes
    requires s' == StartElection(w.c.nodes[n], n, Three[n]) && w.c.nodes[n].running && s'.role == Candidate
    ensures R(w') && w'.c.nodes == w.c.nodes[n := s'] && w.c.net <= w'.c.net
    ensures forall p <- Three[n] :: VoteRequest(s'.term, n, p) in w'.c.net
    ensures (s'.term, n) in w'.h.votes && w'.h.votes[(s'.term, n)] == Vote(n, w.c.nodes[n].log)
  {
    w' := Act(R, k, w, Elect(n), s');
  }

  lemma Grants(R: World -> bool, k: Keeps, w: World, term: int, c: int, n: int, s': State) returns (w': World)
    requires Closed(R, k) && R(w) && n in Three && n in w.c.nodes && VoteRequest(term, c, n) in w.c.net
    requires HandleRequestVote(w.c.nodes[n], term, c) == (s', Reply(VoteReplyKind, term, true))
    requires k.upToDate && (term, c) in w.h.votes ==> UpToDate(w.h.votes[(term, c)].log, w.c.nodes[n].log)
    ensures R(w') && w'.c.nodes == w.c.nodes[n := s'] && w.c.net <= w'.c.net
    ensures VoteAnswer(term, n, c, Reply(VoteReplyKind, term, true)) in w'.c.net
    ensures c != n && (term, c) in w.h.votes ==>
              (term, c) in w'.h.votes && w'.h.votes[(term, c)] == w.h.votes[(term, c)]
  {
    w' := Act(R, k, w, OnVoteRequest(n, VoteRequest(term, c, n)), s');
  }

  lemma CountsVote(R: World -> bool, k: Keeps, w: World, term: int, v: int, n: int, s': State) returns (w': World)
    requires Closed(R, k) && R(w) && n in Three && n in w.c.nodes
    requires VoteAnswer(term, v, n, Reply(VoteReplyKind, term, true)) in w.c.net
    requires s' == HandleVoteReply(w.c.nodes[n], n, Three[n], term, v, Reply(VoteReplyKind, term, true))
    ensures R(w') && w'.c.nodes == w.c.nodes[n := s'] && w.c.net <= w'.c.net && w'.h.votes == w.h.votes
  {
    w' := Act(R, k, w, OnVoteAnswer(n, VoteAnswer(term, v, n, Reply(VoteReplyKind, term, true))), s');
  }

  lemma Submits(R: World -> bool, k: Keeps, w: World, n: int, command: Command, log: seq<Entry>) returns (w': World)
    requires Closed(R, k) && R(w) && n in Three && n in w.c.nodes && w.c.nodes[n].role == Leader
    requires log == w.c.nodes[n].log + [Entry(w.c.nodes[n].term, |w.c.nodes[n].log|, command)]
    ensures R(w') && w'.c.nodes == w.c.nodes[n := w.c.nodes[n].(log := log)] && w.c.net <= w'.c.net
  {
    w' := Act(R, k, w, Submit(n, command), w.c.nodes[n].(log := log));
  }

  lemma Beats(R: World -> bool, k: Keeps, w: World, n: int, p: int, args: AppendArgs) returns (w': World)
    requires Closed(R, k) && R(w) && n in Three && n in w.c.nodes && p in Three[n]
    requires w.c.nodes[n].running && w.c.nodes[n].role == Leader
    requires forall q <- Three[n] :: HeartbeatDefined(w.c.nodes[n], q)
    requires args == HeartbeatArgs(w.c.nodes[n], p)
    ensures R(w') && w'.c.nodes == w.c.nodes && w.c.net <= w'.c.net
    ensures Append(w.c.nodes[n].term, n, p, args) in w'.c.net
  {
    w' := Act(R, k, w, Heartbeat(n), w.c.nodes[n]);
  }

  lemma Takes(R: World -> bool, k: Keeps, w: World, term: int, l: int, n: int, args: AppendArgs, s': State, ok: bool)
      returns (w': World)
    requires Closed(R, k) && R(w) && n in Three && n in w.c.nodes && Append(term, l, n, args) in w.c.net
    requires 0 <= args.prevIndex && Sane(w.c.nodes[n])
    requires HandleAppendEntries(w.c.nodes[n], term, l, args) == (s', Reply(AppendReplyKind, term, ok))
    ensures R(w') && w'.c.nodes == w.c.nodes[n := s'] && w.c.net <= w'.c.net
    ensures AppendAnswer(n, l, Reply(AppendReplyKind, term, ok), args.prevIndex + |args.entries|) in w'.c.net
  {
    w' := Act(R, k, w, OnAppend(n, Append(term, l, n, args)), s');
  }

  lemma Hears(R: World -> bool, k: Keeps, w: World, term: int, p: int, n: int, sent: int, ok: bool, s': State)
      returns (w': World)
    requires Closed(R, k) && R(w) && n in Three && n in w.c.nodes
    requires AppendAnswer(p, n, Reply(AppendReplyKind, term, ok), sent) in w.c.net
    requires Sane(w.c.nodes[n]) && 0 <= w.c.nodes[n].commitIndex && (k.sameTerm && ok ==> term >= w.c.nodes[n].term)
    requires s' == HandleAppendReply(w.c.nodes[n], Three[n], p, Reply(AppendReplyKind, term, ok), sent)
    ensures R(w') && w'.c.nodes == w.c.nodes[n := s'] && w.c.net <= w'.c.net
  {
    w' := Act(R, k, w, OnAppendAnswer(n, AppendAnswer(p, n, Reply(AppendReplyKind, term, ok), sent)), s');
  }

  // ----- Elections

  /** A follower stands for the next term. */
  function Stood(s: State, n: int): State {
    s.(role := Candidate, term := s.term + 1, votedFor := n, leaderId := NOBODY, votes := {n})
  }

  /** It has been elected, with the vote of `v`. */
  function Led(s: State, n: int, v: int, p: int, q: int): State {
    Stood(s, n).(role := Leader, leaderId := n, votes := {n, v},
                 nextIndex := map[p := |s.log|, q := |s.log|], matchIndex := map[p := 0, q := 0])
  }

  /** It has voted for `c`. */
  function Voted(s: State, term: int, c: int): State {
    s.(term := term, votedFor := c, role := Follower, leaderId := NOBODY)
  }

  lemma SetsBoth(m: map<int, int>, p: int, q: int, value: int)
    requires m.Keys <= {p, q}
    ensures SetAll(m, [p, q], value) == map[p := value, q := value]
  {
  }

  lemma SecondVoteWins(s: State, n: int, v: int, p: int, q: int)
    requires s.running && v != n && s.nextIndex.Keys <= {p, q} && s.matchIndex.Keys <= {p, q}
    ensures HandleVoteReply(Stood(s, n), n, [p, q], s.term + 1, v, Reply(VoteReplyKind, s.term + 1, true)) ==
            Led(s, n, v, p, q)
  {
    SetsBoth(s.nextIndex, p, q, |s.log|);
    SetsBoth(s.matchIndex, p, q, 0);
    assert {n} + {v} == {n, v};
  }

  lemma Stands(s: State, n: int, p: int, q: int)
    requires s.running && s.role != Leader
    ensures StartElection(s, n, [p, q]) == Stood(s, n)
  {
  }

  lemma VotesFor(r: State, term: int, c: int)
    requires r.term < term
    ensures HandleRequestVote(r, term, c) == (Voted(r, term, c), Reply(VoteReplyKind, term, true))
  {
  }

  /** Replica `n` wins the next term with the vote of `v`. */
  lemma WinsTerm(R: World -> bool, k: Keeps, w0: World, n: int, v: int, p: int, q: int) returns (w: World)
    requires Closed(R, k) && R(w0) && n in Three && n in w0.c.nodes && v in Three && v in w0.c.nodes && v != n
    requires Three[n] == [p, q] && v in [p, q]
    requires
      var s, r := w0.c.nodes[n], w0.c.nodes[v];
      && s.running && s.role != Leader && r.term <= s.term && s.nextIndex.Keys <= {p, q} && s.matchIndex.Keys <= {p, q}
      && (k.upToDate ==> UpToDate(s.log, r.log))
    ensures R(w) && w0.c.net <= w.c.net
    ensures
      var s, r := w0.c.nodes[n], w0.c.nodes[v];
      && w.c.nodes == w0.c.nodes[n := Led(s, n, v, p, q)][v := Voted(r, s.term + 1, n)]
      && VoteRequest(s.term + 1, n, p) in w.c.net && VoteRequest(s.term + 1, n, q) in w.c.net
      && (s.term + 1, n) in w.h.votes && w.h.votes[(s.term + 1, n)].log == s.log
  {
    var s, r, term := w0.c.nodes[n], w0.c.nodes[v], w0.c.nodes[n].term + 1;
    Stands(s, n, p, q);
    w := Elects(R, k, w0, n, Stood(s, n));
    VotesFor(r, term, n);
    w := Grants(R, k, w, term, n, v, Voted(r, term, n));
    SecondVoteWins(s, n, v, p, q);
    w := CountsVote(R, k, w, term, v, n, Led(s, n, v, p, q));
  }

  // ----- Where all runs begin

  const IDLE := INITIAL.(running := true)

  const X: Command := [1]
  const Y: Command := [2]

  lemma Idle(R: World -> bool, k: Keeps) returns (w: World)
    requires Closed(R, k)
    ensures R(w) && w.c.nodes == map[1 := IDLE, 2 := IDLE, 3 := IDLE]
  {
    w := Initial(Three);
    w := Act(R, k, w, StartUp(1), IDLE);
    w := Act(R, k, w, StartUp(2), IDLE);
    w := Act(R, k, w, StartUp(3), IDLE);
  }

  const FIRST := Led(IDLE, 1, 2, 2, 3)

  /** Replica 1 leads term 1, elected by replica 2. */
  lemma ElectsFirst(R: World -> bool, k: Keeps) returns (w: World)
    requires Closed(R, k)
    ensures R(w) && w.c.nodes == map[1 := FIRST, 2 := Voted(IDLE, 1, 1), 3 := IDLE]
  {
    w := Idle(R, k);
    w := WinsTerm(R, k, w, 1, 2, 2, 3);
  }

  const LOST := Stood(IDLE, 3)
  const THIRD := Led(LOST, 3, 2, 1, 2)

  /** Replica 3 stands for term 1 in vain and then wins term 2 with the vote of replica 2. */
  lemma ElectsThird(R: World -> bool, k: Keeps, w0: World) returns (w: World)
    requires Closed(R, k) && R(w0) && w0.c.nodes.Keys == {1, 2, 3} && w0.c.nodes[3] == IDLE && w0.c.nodes[2].term == 1
    requires k.upToDate ==> UpToDate([SENTINEL], w0.c.nodes[2].log)
    ensures R(w) && w0.c.net <= w.c.net
    ensures w.c.nodes == w0.c.nodes[2 := Voted(w0.c.nodes[2], 2, 3)][3 := THIRD]
  {
    w := Elects(R, k, w0, 3, LOST);
    w := WinsTerm(R, k, w, 3, 2, 1, 2);
  }

  // ----- Entries

  lemma MergesOne(log: seq<Entry>, e: Entry)
    requires |log| > 0 && (|log| > 1 ==> log[1].term != e.term)
    ensures MergeEntries(log, 0, [e]) == [log[0], e]
  {
    var log1 := [log[0], e];
    assert log1 == if 1 >= |log| then log + [e] else log[..1] + [e];
    assert MergeEntries(log, 0, [e]) == MergeEntries(log1, 1, [e][1..]);
  }

  lemma MergesTwo(log: seq<Entry>, e: Entry, f: Entry)
    requires |log| > 0 && (|log| > 1 ==> log[1].term != e.term)
    ensures MergeEntries(log, 0, [e, f]) == [log[0], e, f]
  {
    var log1, log2 := [log[0], e], [log[0], e, f];
    assert log1 == if 1 >= |log| then log + [e] else log[..1] + [e];
    assert log2 == log1 + [f];
    assert [e, f][1..] == [f] && [f][1..] == [];
    assert MergeEntries(log, 0, [e, f]) == MergeEntries(log1, 1, [f]);
    assert MergeEntries(log1, 1, [f]) == MergeEntries(log2, 2, []);
  }

  /** A leader of three with one entry of its own term commits it on the first success reply. */
  lemma CommitsOne(s: State, p: int, q: int, peers: seq<int>, e: Entry)
    requires s.running && s.role == Leader && s.log == [SENTINEL, e] && s.term == e.term
    requires s.commitIndex == s.lastApplied == 0 && s.delivered == [] && p != q && (peers == [p, q] || peers == [q, p])
    requires Get(s.matchIndex, p) == Get(s.matchIndex, q) == 0
    ensures HandleAppendReply(s, peers, p, Reply(AppendReplyKind, s.term, true), 1) ==
              s.(commitIndex := 1, lastApplied := 1, delivered := [Delivery(1, e.command)],
                 matchIndex := s.matchIndex[p := 1], nextIndex := s.nextIndex[p := 2])
  {
    TwoHold(s.matchIndex[p := 1], peers, p, q, 1);
    assert Deliveries(s.log, 1, 1) == [Delivery(1, e.command)];
  }

  /** A leader of three whose last of two entries is of its own term commits both on a success reply for the
      second, of whatever term that reply is. */
  lemma CommitsTwo(s: State, p: int, q: int, peers: seq<int>, e: Entry, f: Entry, term: int)
    requires s.running && s.role == Leader && s.log == [SENTINEL, e, f] && s.term == f.term && term <= s.term
    requires s.commitIndex == s.lastApplied == 0 && s.delivered == [] && p != q && (peers == [p, q] || peers == [q, p])
    requires Get(s.matchIndex, p) == Get(s.matchIndex, q) == 0
    ensures HandleAppendReply(s, peers, p, Reply(AppendReplyKind, term, true), 2) ==
              s.(commitIndex := 2, lastApplied := 2, delivered := [Delivery(1, e.command), Delivery(2, f.command)],
                 matchIndex := s.matchIndex[p := 2], nextIndex := s.nextIndex[p := 3])
  {
    TwoHold(s.matchIndex[p := 2], peers, p, q, 2);
    assert Deliveries(s.log, 2, 2) == [Delivery(2, f.command)];
    assert Deliveries(s.log, 1, 2) == [Delivery(1, e.command), Delivery(2, f.command)];
  }

  lemma TwoHold(m: map<int, int>, peers: seq<int>, p: int, q: int, n: int)
    requires p != q && (peers == [p, q] || peers == [q, p]) && Get(m, p) >= n && Get(m, q) < n
    ensures MatchCount(m, peers, n) == 2 && Majority(MatchCount(m, peers, n), peers)
  {
    assert peers[..1] == [peers[0]] && peers[..1][..0] == [];
    assert MatchCount(m, peers[..1], n) == 1 + if peers[0] == p then 1 else 0;
  }
}
