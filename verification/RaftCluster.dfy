/** A cluster of replicas around a network that may lose, delay, reorder and duplicate
    messages: a message once sent stays in `net` and may be handled any number of times,
    or never. `Happened` records what the proofs need to remember; no step reads it. */
module RaftCluster {
  import opened RaftNode

  /** For every replica, the ids of its peers in the order of its peer list. */
  type Membership = map<int, seq<int>>

  ghost predicate WellFormed(cfg: Membership) {
    && NOBODY !in cfg
    && forall n <- cfg ::
        && (forall p :: p in cfg[n] <==> p in cfg && p != n)
        && (forall i, j :: 0 <= i < j < |cfg[n]| ==> cfg[n][i] != cfg[n][j])
        && |cfg[n]| + 1 == |cfg.Keys|
  }

  datatype Message =
    | VoteRequest(term: int, src: int, dst: int)
    | VoteAnswer(electionTerm: int, src: int, dst: int, reply: Reply)
    | Append(term: int, src: int, dst: int, args: AppendArgs)
    | AppendAnswer(src: int, dst: int, reply: Reply, sent: int)

  datatype Cluster = Cluster(nodes: map<int, State>, net: set<Message>)

  datatype Action =
    | Elect(n: int)
    | OnVoteRequest(n: int, m: Message)
    | OnVoteAnswer(n: int, m: Message)
    | Submit(n: int, command: Command)
    | Heartbeat(n: int)
    | OnAppend(n: int, m: Message)
    | OnAppendAnswer(n: int, m: Message)
    | StartUp(n: int)
    | ShutDown(n: int)

  // ----- History

  /** The candidate a voter chose in a term, and the voter's log at that moment. */
  datatype Vote = Vote(candidate: int, log: seq<Entry>)

  /** One leadership: the log it began with, the voters that made it, the log it has grown to. */
  datatype Reign = Reign(leader: int, init: seq<Entry>, voters: set<int>, log: seq<Entry>)

  /** `node` held the log of the leader of `term` on positions 0 to `upto` while in that term.
      Recorded together with every smaller position. */
  datatype Ack = Ack(node: int, term: int, upto: int)

  datatype Happened = Happened(
    votes: map<(int, int), Vote>,     // (term, voter)
    reigns: map<int, Reign>,          // term
    leaders: set<(int, int)>,         // (term, node): has been leader
    acks: set<Ack>,
    commits: set<(int, int)>)         // (term, position) a leader of that term committed

  datatype World = World(c: Cluster, h: Happened)

  function Initial(cfg: Membership): World {
    World(Cluster(map n | n in cfg :: INITIAL, {}), Happened(map[], map[], {}, {}, {}))
  }

  // ----- Steps

  predicate Enabled(cfg: Membership, c: Cluster, a: Action) {
    && a.n in cfg && a.n in c.nodes
    && match a
       case Elect(_) | Submit(_, _) | StartUp(_) | ShutDown(_) => true
       case OnVoteRequest(n, m) => m in c.net && m.VoteRequest? && m.dst == n
       case OnVoteAnswer(n, m) => m in c.net && m.VoteAnswer? && m.dst == n
       case OnAppend(n, m) => m in c.net && m.Append? && m.dst == n && 0 <= m.args.prevIndex && Sane(c.nodes[n])
       case OnAppendAnswer(n, m) => m in c.net && m.AppendAnswer? && m.dst == n
                                    && Sane(c.nodes[n]) && 0 <= c.nodes[n].commitIndex
       case Heartbeat(n) => c.nodes[n].running && c.nodes[n].role == Leader ==>
                              forall p <- cfg[n] :: HeartbeatDefined(c.nodes[n], p)
  }

  /** The acting replica after the step. */
  function NodeAfter(cfg: Membership, c: Cluster, a: Action): State
    requires Enabled(cfg, c, a)
  {
    var s := c.nodes[a.n];
    match a
    case Elect(n) => StartElection(s, n, cfg[n])
    case OnVoteRequest(n, m) => HandleRequestVote(s, m.term, m.src).0
    case OnVoteAnswer(n, m) => HandleVoteReply(s, n, cfg[n], m.electionTerm, m.src, m.reply)
    case Submit(_, command) => Propose(s, command).0
    case Heartbeat(_) => s
    case OnAppend(_, m) => HandleAppendEntries(s, m.term, m.src, m.args).0
    case OnAppendAnswer(n, m) => HandleAppendReply(s, cfg[n], m.src, m.reply, m.sent)
    case StartUp(_) => Start(s)
    case ShutDown(_) => Stop(s)
  }

  /** The messages the step sends. */
  function Sends(cfg: Membership, c: Cluster, a: Action): set<Message>
    requires Enabled(cfg, c, a)
  {
    var s := c.nodes[a.n];
    var s' := NodeAfter(cfg, c, a);
    match a
    case Elect(n) =>
      if s.running && s.role != Leader && s'.role != Leader
      then set p | p in cfg[n] :: VoteRequest(s'.term, n, p) else {}
    case OnVoteRequest(n, m) =>
      {VoteAnswer(m.term, n, m.src, HandleRequestVote(s, m.term, m.src).1)}
    case Heartbeat(n) =>
      if s.running && s.role == Leader then set p | p in cfg[n] :: Append(s.term, n, p, HeartbeatArgs(s, p)) else {}
    case OnAppend(n, m) =>
      {AppendAnswer(n, m.src, HandleAppendEntries(s, m.term, m.src, m.args).1, m.args.prevIndex + |m.args.entries|)}
    case _ => {}
  }

  /** The replica casts a vote. */
  predicate Votes(s: State, s': State) {
    s'.votedFor != NOBODY && (s'.votedFor != s.votedFor || s'.term != s.term)
  }

  /** The replica becomes leader. */
  predicate Wins(s: State, s': State) {
    s'.role == Leader && s.role != Leader
  }

  function AcksUpTo(n: int, term: int, upto: int): set<Ack> {
    set j | 0 <= j <= upto :: Ack(n, term, j)
  }

  function Remember(h: Happened, n: int, s: State, s': State, a: Action): Happened {
    var h1 := if Votes(s, s')
              then h.(votes := h.votes[(s'.term, n) := Vote(s'.votedFor, s.log)]) else h;
    var h2 := if Wins(s, s')
              then h1.(reigns := h1.reigns[s'.term := Reign(n, s'.log, s'.votes, s'.log)],
                       leaders := h1.leaders + {(s'.term, n)})
              else h1;
    match a
    case Submit(_, _) =>
      if s.role == Leader && s.term in h2.reigns
      then h2.(reigns := h2.reigns[s.term := h2.reigns[s.term].(log := s'.log)]) else h2
    case OnAppend(_, m) =>
      if m.Append? && s.term <= m.term && 0 <= m.args.prevIndex && PrefixMatches(s, m.args)
      then h2.(acks := h2.acks + AcksUpTo(n, m.term, m.args.prevIndex + |m.args.entries|)) else h2
    case OnAppendAnswer(_, _) =>
      if s'.commitIndex != s.commitIndex
      then h2.(acks := h2.acks + AcksUpTo(n, s.term, s'.commitIndex),
               commits := h2.commits + {(s.term, s'.commitIndex)})
      else h2
    case _ => h2
  }

  /** The world once replica `a.n` has moved to `s'` and sent `out`. */
  function Moved(w: World, a: Action, s': State, out: set<Message>): World
    requires a.n in w.c.nodes
  {
    World(Cluster(w.c.nodes[a.n := s'], w.c.net + out), Remember(w.h, a.n, w.c.nodes[a.n], s', a))
  }

  function Next(cfg: Membership, w: World, a: Action): World
    requires Enabled(cfg, w.c, a)
  {
    Moved(w, a, NodeAfter(cfg, w.c, a), Sends(cfg, w.c, a))
  }

  // ----- Runs

  /** Every action of the run is enabled where it is taken. */
  predicate Legal(cfg: Membership, run: seq<Action>)
    decreases |run|, 0
  {
    run == [] ||
    var n := |run| - 1;
    Legal(cfg, run[..n]) && Enabled(cfg, After(cfg, run[..n]).c, run[n])
  }

  function After(cfg: Membership, run: seq<Action>): World
    requires Legal(cfg, run)
    decreases |run|, 1
  {
    if run == [] then Initial(cfg)
    else var n := |run| - 1; Next(cfg, After(cfg, run[..n]), run[n])
  }

  // ----- The two hypotheses on runs

  function LastTerm(log: seq<Entry>): int {
    if log == [] then 0 else log[|log| - 1].term
  }

  /** The comparison of section 5.4.1 of the Raft paper: `a` is at least as up-to-date as `b`. */
  predicate UpToDate(a: seq<Entry>, b: seq<Entry>) {
    LastTerm(a) > LastTerm(b) || (LastTerm(a) == LastTerm(b) && |a| >= |b|)
  }

  /** A new vote goes only to a candidate whose log is at least as up-to-date as the voter's. */
  predicate UpToDateVote(cfg: Membership, w: World, a: Action)
    requires Enabled(cfg, w.c, a)
  {
    var s := w.c.nodes[a.n];
    var s' := NodeAfter(cfg, w.c, a);
    a.OnVoteRequest? && s'.votedFor == a.m.src && (s.votedFor != a.m.src || s.term != s'.term) ==>
      ((a.m.term, a.m.src) in w.h.votes ==> UpToDate(w.h.votes[(a.m.term, a.m.src)].log, s.log))
  }

  /** A success reply reaches a leader only in the term the reply carries. */
  predicate SameTermReply(c: Cluster, a: Action)
    requires a.n in c.nodes
  {
    a.OnAppendAnswer? && a.m.AppendAnswer? && a.m.reply.accepted && c.nodes[a.n].role == Leader ==>
      a.m.reply.term >= c.nodes[a.n].term
  }

  predicate UpToDateVotes(cfg: Membership, run: seq<Action>)
    requires Legal(cfg, run)
  {
    run == [] ||
    var n := |run| - 1;
    UpToDateVotes(cfg, run[..n]) && UpToDateVote(cfg, After(cfg, run[..n]), run[n])
  }

  predicate SameTermReplies(cfg: Membership, run: seq<Action>)
    requires Legal(cfg, run)
  {
    run == [] ||
    var n := |run| - 1;
    SameTermReplies(cfg, run[..n]) && SameTermReply(After(cfg, run[..n]).c, run[n])
  }
}
