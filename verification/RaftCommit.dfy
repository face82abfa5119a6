/** What a leader commits rests on a majority, in every run whose success replies are handled in
    the term they carry. The handler itself never checks that. */
module RaftCommit {
  import opened RaftNode
  import opened RaftCluster
  import opened RaftElection
  import opened RaftLogs
  import opened RaftAcks

  // ----- The invariant

  /** What a leader takes a peer to hold, the peer has acknowledged in the leader's term. */
  ghost predicate PeerOk(h: Happened, s: State, p: int) {
    && 0 <= Get(s.matchIndex, p)
    && (forall j :: 1 <= j <= Get(s.matchIndex, p) ==> Ack(p, s.term, j) in h.acks)
  }

  ghost predicate PeersOk(cfg: Membership, h: Happened, n: int, s: State)
    requires n in cfg
  {
    s.role == Leader ==> forall p <- cfg[n] :: PeerOk(h, s, p)
  }

  ghost predicate AckedBy(h: Happened, voters: set<int>, t: int, n: int) {
    forall v <- voters :: Ack(v, t, n) in h.acks
  }

  ghost predicate CommitOk(cfg: Membership, h: Happened, t: int, n: int) {
    && t in h.reigns && 1 <= n < |h.reigns[t].log| && h.reigns[t].log[n].term == t
    && exists voters :: IsQuorum(cfg, voters) && AckedBy(h, voters, t, n)
  }

  ghost predicate Commitments(cfg: Membership, w: World)
    requires w.c.nodes.Keys == cfg.Keys
  {
    && (forall n {:trigger PeersOk(cfg, w.h, n, w.c.nodes[n])} :: n in cfg ==> PeersOk(cfg, w.h, n, w.c.nodes[n]))
    && (forall n <- cfg :: 0 <= w.c.nodes[n].commitIndex)
    && (forall t, n {:trigger CommitOk(cfg, w.h, t, n)} :: (t, n) in w.h.commits ==> CommitOk(cfg, w.h, t, n))
  }

  // ----- What a single step may do

  /** `match_index_` and `next_index_` of peer `p`: set when the leader is elected, moved by p's replies. */
  ghost predicate PeerMove(s: State, s': State, a: Action, p: int) {
    if Wins(s, s') then Get(s'.matchIndex, p) == 0 && Get(s'.nextIndex, p) == |s'.log|
    else
      || (Get(s'.matchIndex, p) == Get(s.matchIndex, p) && Get(s'.nextIndex, p) == Get(s.nextIndex, p))
      || (a.OnAppendAnswer? && a.m.AppendAnswer? && p == a.m.src && a.m.reply.term <= s.term &&
          if a.m.reply.accepted
          then Get(s'.matchIndex, p) == Max(Get(s.matchIndex, p), a.m.sent)
               && Get(s'.nextIndex, p) == Get(s'.matchIndex, p) + 1
          else Get(s'.matchIndex, p) == Get(s.matchIndex, p)
               && Get(s'.nextIndex, p) == Max(1, Get(s.nextIndex, p) - 1))
  }

  ghost predicate CommitMoves(cfg: Membership, n: int, s: State, s': State, a: Action)
    requires n in cfg
  {
    && (s'.role == Leader ==> forall p <- cfg[n] :: PeerMove(s, s', a, p))
    && (s'.role == Leader ==> Wins(s, s') || (s.role == Leader && s'.term == s.term && s.log <= s'.log))
    && (Commits(s, s', a) ==> s.commitIndex < s'.commitIndex && Committable(s', cfg[n], s'.commitIndex))
    && (0 <= s.commitIndex ==> 0 <= s'.commitIndex)
  }

  lemma ReplyMoves(cfg: Membership, s: State, a: Action)
    requires a.OnAppendAnswer? && a.m.AppendAnswer? && a.n in cfg && Sane(s) && 0 <= s.commitIndex
    ensures CommitMoves(cfg, a.n, s, HandleAppendReply(s, cfg[a.n], a.m.src, a.m.reply, a.m.sent), a)
  {
  }

  lemma AppendMoves(cfg: Membership, s: State, a: Action)
    requires a.OnAppend? && a.m.Append? && a.n in cfg && Sane(s) && 0 <= a.m.args.prevIndex
    ensures CommitMoves(cfg, a.n, s, HandleAppendEntries(s, a.m.term, a.m.src, a.m.args).0, a)
  {
  }

  lemma MovesAreCommitMoves(cfg: Membership, c: Cluster, a: Action)
    requires WellFormed(cfg) && Enabled(cfg, c, a) && Sane(c.nodes[a.n])
    ensures CommitMoves(cfg, a.n, c.nodes[a.n], NodeAfter(cfg, c, a), a)
  {
    if a.OnAppendAnswer? {
      ReplyMoves(cfg, c.nodes[a.n], a);
    } else if a.OnAppend? {
      AppendMoves(cfg, c.nodes[a.n], a);
    }
  }

  // ----- Counting matches

  function Holders(matchIndex: map<int, int>, peers: seq<int>, n: int): set<int> {
    set p | p in peers && Get(matchIndex, p) >= n
  }

  lemma {:induction false} HoldersCounted(matchIndex: map<int, int>, peers: seq<int>, n: int)
    requires forall i, j :: 0 <= i < j < |peers| ==> peers[i] != peers[j]
    ensures MatchCount(matchIndex, peers, n) == 1 + |Holders(matchIndex, peers, n)|
  {
    if peers == [] {
      assert Holders(matchIndex, peers, n) == {};
    } else {
      HoldersCounted(matchIndex, peers[..|peers| - 1], n);
      OneMoreHolder(matchIndex, peers, n);
    }
  }

  lemma OneMoreHolder(matchIndex: map<int, int>, peers: seq<int>, n: int)
    requires |peers| > 0 && peers[|peers| - 1] !in peers[..|peers| - 1]
    ensures
      |Holders(matchIndex, peers, n)|
        == |Holders(matchIndex, peers[..|peers| - 1], n)| + if Get(matchIndex, peers[|peers| - 1]) >= n then 1 else 0
  {
    var front, last := peers[..|peers| - 1], peers[|peers| - 1];
    assert peers == front + [last];
    var more := if Get(matchIndex, last) >= n then {last} else {};
    assert Holders(matchIndex, peers, n) == Holders(matchIndex, front, n) + more;
  }

  /** A committable position is acknowledged by a majority, counting the leader. */
  lemma CommittableIsAcked(cfg: Membership, h: Happened, n: int, s: State, k: int) returns (voters: set<int>)
    requires WellFormed(cfg) && n in cfg && s.role == Leader && PeersOk(cfg, h, n, s)
    requires 1 <= k && Committable(s, cfg[n], k) && Ack(n, s.term, k) in h.acks
    ensures IsQuorum(cfg, voters) && AckedBy(h, voters, s.term, k)
  {
    HoldersCounted(s.matchIndex, cfg[n], k);
    var holders := Holders(s.matchIndex, cfg[n], k);
    voters := {n} + holders;
    assert n !in holders;
    assert voters <= cfg.Keys;
    assert |voters| == 1 + |holders|;
    forall v | v in voters ensures Ack(v, s.term, k) in h.acks {
      assert v in holders ==> PeerOk(h, s, v);
    }
  }

  // ----- Preservation

  ghost predicate CommitStep(cfg: Membership, w: World, a: Action, w': World) {
    && AckStep(cfg, w, a, w') && Acks(cfg, w') && Commitments(cfg, w)
    && CommitMoves(cfg, a.n, w.c.nodes[a.n], w'.c.nodes[a.n], a)
    && SameTermReply(w.c, a)
    && (a.OnAppendAnswer? ==> a.m in w.c.net && a.m.dst == a.n)
    && (var s, s' := w.c.nodes[a.n], w'.c.nodes[a.n];
        w'.h.commits == w.h.commits + if Commits(s, s', a) then {(s.term, s'.commitIndex)} else {})
  }

  /** The largest acknowledged position covers every smaller one, before and after a success reply. */
  lemma MatchGrows(cfg: Membership, w: World, s: State, s': State, a: Action, p: int)
    requires Acks(cfg, w) && PeerOk(w.h, s, p) && PeerMove(s, s', a, p) && !Wins(s, s')
    requires a.OnAppendAnswer? ==> a.m in w.c.net
    requires a.OnAppendAnswer? && a.m.AppendAnswer? && a.m.reply.accepted ==> a.m.reply.term >= s.term
    ensures 0 <= Get(s'.matchIndex, p)
    ensures forall j :: 1 <= j <= Get(s'.matchIndex, p) ==> Ack(p, s.term, j) in w.h.acks
  {
    forall j | 1 <= j <= Get(s'.matchIndex, p) ensures Ack(p, s.term, j) in w.h.acks {
      if j > Get(s.matchIndex, p) {
        assert Ack(p, s.term, j) in AcksUpTo(a.m.src, a.m.reply.term, a.m.sent);
      }
    }
  }

  lemma PeerStays(cfg: Membership, w: World, a: Action, w': World, p: int)
    requires CommitStep(cfg, w, a, w') && p in cfg[a.n]
    requires w.c.nodes[a.n].role == Leader && w'.c.nodes[a.n].role == Leader
    ensures PeerOk(w'.h, w'.c.nodes[a.n], p)
  {
    var s, s' := w.c.nodes[a.n], w'.c.nodes[a.n];
    assert PeerMove(s, s', a, p);
    assert PeersOk(cfg, w.h, a.n, s) && PeerOk(w.h, s, p);
    MatchGrows(cfg, w, s, s', a, p);
  }

  lemma PeerStep(cfg: Membership, w: World, a: Action, w': World, p: int)
    requires CommitStep(cfg, w, a, w') && w'.c.nodes[a.n].role == Leader && p in cfg[a.n]
    ensures PeerOk(w'.h, w'.c.nodes[a.n], p)
  {
    if w.c.nodes[a.n].role == Leader {
      PeerStays(cfg, w, a, w', p);
    } else {
      FreshPeer(w'.h, w.c.nodes[a.n], w'.c.nodes[a.n], a, p);
    }
  }

  lemma FreshPeer(h: Happened, s: State, s': State, a: Action, p: int)
    requires PeerMove(s, s', a, p) && Wins(s, s')
    ensures PeerOk(h, s', p)
  {
  }

  lemma MoverPeers(cfg: Membership, w: World, a: Action, w': World)
    requires CommitStep(cfg, w, a, w')
    ensures PeersOk(cfg, w'.h, a.n, w'.c.nodes[a.n]) && 0 <= w'.c.nodes[a.n].commitIndex
  {
    if w'.c.nodes[a.n].role == Leader {
      forall p | p in cfg[a.n] ensures PeerOk(w'.h, w'.c.nodes[a.n], p) {
        PeerStep(cfg, w, a, w', p);
      }
    }
  }

  lemma BystanderPeers(cfg: Membership, w: World, a: Action, w': World, n: int)
    requires CommitStep(cfg, w, a, w') && n in cfg && n != a.n
    ensures PeersOk(cfg, w'.h, n, w'.c.nodes[n]) && 0 <= w'.c.nodes[n].commitIndex
  {
    assert PeersOk(cfg, w.h, n, w.c.nodes[n]);
    if w.c.nodes[n].role == Leader {
      forall p | p in cfg[n] ensures PeerOk(w'.h, w'.c.nodes[n], p) {
        assert PeerOk(w.h, w.c.nodes[n], p);
      }
    }
  }

  lemma CommitKept(cfg: Membership, h: Happened, h': Happened, t: int, n: int)
    requires CommitOk(cfg, h, t, n) && Grows(h, h') && h.acks <= h'.acks
    ensures CommitOk(cfg, h', t, n)
  {
    var voters :| IsQuorum(cfg, voters) && AckedBy(h, voters, t, n);
    assert AckedBy(h', voters, t, n);
  }

  lemma NewCommit(cfg: Membership, w: World, a: Action, w': World)
    requires CommitStep(cfg, w, a, w') && Commits(w.c.nodes[a.n], w'.c.nodes[a.n], a)
    requires PeersOk(cfg, w'.h, a.n, w'.c.nodes[a.n])
    ensures CommitOk(cfg, w'.h, w.c.nodes[a.n].term, w'.c.nodes[a.n].commitIndex)
  {
    var s, s' := w.c.nodes[a.n], w'.c.nodes[a.n];
    assert LeaderOk(w'.h, a.n, s');
    assert Ack(a.n, s.term, s'.commitIndex) in AcksUpTo(a.n, s.term, s'.commitIndex);
    var voters := CommittableIsAcked(cfg, w'.h, a.n, s', s'.commitIndex);
  }

  lemma CommitsKept(cfg: Membership, w: World, a: Action, w': World)
    requires CommitStep(cfg, w, a, w')
    ensures forall t, n :: (t, n) in w'.h.commits ==> CommitOk(cfg, w'.h, t, n)
  {
    MoverPeers(cfg, w, a, w');
    forall t, n | (t, n) in w'.h.commits ensures CommitOk(cfg, w'.h, t, n) {
      if (t, n) in w.h.commits {
        CommitKept(cfg, w.h, w'.h, t, n);
      } else {
        NewCommit(cfg, w, a, w');
      }
    }
  }

  lemma CommitmentsKept(cfg: Membership, w: World, a: Action, w': World)
    requires CommitStep(cfg, w, a, w')
    ensures Commitments(cfg, w')
  {
    forall n | n in cfg ensures PeersOk(cfg, w'.h, n, w'.c.nodes[n]) && 0 <= w'.c.nodes[n].commitIndex {
      if n == a.n {
        MoverPeers(cfg, w, a, w');
      } else {
        BystanderPeers(cfg, w, a, w', n);
      }
    }
    CommitsKept(cfg, w, a, w');
  }

  lemma RememberedCommits(h: Happened, n: int, s: State, s': State, a: Action)
    ensures Remember(h, n, s, s', a).commits ==
              h.commits + if Commits(s, s', a) then {(s.term, s'.commitIndex)} else {}
  {
  }

  lemma CommitmentsStep(cfg: Membership, w: World, a: Action)
    requires WellFormed(cfg) && Elections(cfg, w) && Logs(cfg, w) && Acks(cfg, w) && Commitments(cfg, w)
    requires Enabled(cfg, w.c, a) && SameTermReply(w.c, a)
    ensures CommitStep(cfg, w, a, Next(cfg, w, a)) && Commitments(cfg, Next(cfg, w, a))
  {
    AcksStep(cfg, w, a);
    MovesAreCommitMoves(cfg, w.c, a);
    RememberedCommits(w.h, a.n, w.c.nodes[a.n], NodeAfter(cfg, w.c, a), a);
    CommitmentsKept(cfg, w, a, Next(cfg, w, a));
  }

  lemma {:induction false} CommitmentsHold(cfg: Membership, run: seq<Action>)
    requires WellFormed(cfg) && Legal(cfg, run) && SameTermReplies(cfg, run)
    ensures Elections(cfg, After(cfg, run)) && Logs(cfg, After(cfg, run)) && Acks(cfg, After(cfg, run))
    ensures Commitments(cfg, After(cfg, run))
  {
    AcksHold(cfg, run);
    if run != [] {
      var n := |run| - 1;
      CommitmentsHold(cfg, run[..n]);
      AcksHold(cfg, run[..n]);
      CommitmentsStep(cfg, After(cfg, run[..n]), run[n]);
    }
  }

  // ----- Main results

  /** At some moment of the run the replica, being in that term, held the prefix. */
  ghost predicate HeldOnce(cfg: Membership, run: seq<Action>, v: int, term: int, prefix: seq<Entry>) {
    exists i :: HeldAt(cfg, run, i, v, term, prefix)
  }

  /** The replica held the prefix while in the term, and if it is still in that term it holds it now. */
  ghost predicate HeldInTerm(cfg: Membership, run: seq<Action>, v: int, term: int, prefix: seq<Entry>)
    requires Legal(cfg, run)
  {
    var nodes := After(cfg, run).c.nodes;
    && HeldOnce(cfg, run, v, term, prefix)
    && v in nodes && term <= nodes[v].term && (nodes[v].term == term ==> prefix <= nodes[v].log)
  }

  ghost predicate AllHeld(cfg: Membership, run: seq<Action>, voters: set<int>, term: int, prefix: seq<Entry>)
    requires Legal(cfg, run)
  {
    forall v <- voters :: HeldInTerm(cfg, run, v, term, prefix)
  }

  /** Each member of some strict majority held the prefix while in the term. */
  ghost predicate MajorityHeld(cfg: Membership, run: seq<Action>, term: int, prefix: seq<Entry>)
    requires Legal(cfg, run)
  {
    exists voters :: IsQuorum(cfg, voters) && AllHeld(cfg, run, voters, term, prefix)
  }

  lemma AckedIsHeld(cfg: Membership, run: seq<Action>, v: int, t: int, n: int)
    requires WellFormed(cfg) && Legal(cfg, run) && Ack(v, t, n) in After(cfg, run).h.acks
    ensures AckInRange(After(cfg, run).h, Ack(v, t, n))
    ensures HeldInTerm(cfg, run, v, t, Held(After(cfg, run).h, t, n))
  {
    AcksHold(cfg, run);
    assert AckOk(cfg, After(cfg, run), Ack(v, t, n));
    AckedAtSomeMoment(cfg, run, Ack(v, t, n));
  }

  /** What a leader commits is of its own term, and each member of some strict majority held the leader's log
      up to there while in that term. */
  lemma QuorumBackedCommit(cfg: Membership, run: seq<Action>, t: int, n: int)
    requires WellFormed(cfg) && Legal(cfg, run) && SameTermReplies(cfg, run)
    requires (t, n) in After(cfg, run).h.commits
    ensures
      var reigns := After(cfg, run).h.reigns;
      && t in reigns && 1 <= n < |reigns[t].log| && reigns[t].log[n].term == t
      && MajorityHeld(cfg, run, t, reigns[t].log[..n + 1])
  {
    CommitmentsHold(cfg, run);
    var h := After(cfg, run).h;
    assert CommitOk(cfg, h, t, n);
    var voters :| IsQuorum(cfg, voters) && AckedBy(h, voters, t, n);
    forall v | v in voters ensures HeldInTerm(cfg, run, v, t, h.reigns[t].log[..n + 1]) {
      AckedIsHeld(cfg, run, v, t, n);
    }
    assert AllHeld(cfg, run, voters, t, h.reigns[t].log[..n + 1]);
  }

  lemma CommitIsRemembered(cfg: Membership, w: World, a: Action)
    requires WellFormed(cfg) && Elections(cfg, w) && Logs(cfg, w) && Acks(cfg, w) && Commitments(cfg, w)
    requires Enabled(cfg, w.c, a) && SameTermReply(w.c, a)
    ensures
      var w' := Next(cfg, w, a);
      && a.n in w'.c.nodes
      && (Commits(w.c.nodes[a.n], w'.c.nodes[a.n], a) ==>
            w.c.nodes[a.n].commitIndex < w'.c.nodes[a.n].commitIndex && Committed(w'.h, w'.c.nodes[a.n]))
  {
    CommitmentsStep(cfg, w, a);
    assert LeaderOk(Next(cfg, w, a).h, a.n, Next(cfg, w, a).c.nodes[a.n]);
  }

  /** The leader's commit index is remembered as a position of its log committed in its term. */
  ghost predicate Committed(h: Happened, s: State) {
    && 0 <= s.commitIndex < |s.log| && (s.term, s.commitIndex) in h.commits
    && s.term in h.reigns && h.reigns[s.term].log == s.log
  }

  lemma CommittedIsBacked(cfg: Membership, run: seq<Action>, s: State)
    requires WellFormed(cfg) && Legal(cfg, run) && SameTermReplies(cfg, run) && Committed(After(cfg, run).h, s)
    ensures s.log[s.commitIndex].term == s.term && MajorityHeld(cfg, run, s.term, s.log[..s.commitIndex + 1])
  {
    QuorumBackedCommit(cfg, run, s.term, s.commitIndex);
  }

  lemma LastStep(cfg: Membership, run: seq<Action>)
    requires WellFormed(cfg) && Legal(cfg, run) && SameTermReplies(cfg, run) && run != []
    ensures
      var a, w, w' := run[|run| - 1], After(cfg, run[..|run| - 1]), After(cfg, run);
      && a.n in w.c.nodes && a.n in w'.c.nodes
      && (Commits(w.c.nodes[a.n], w'.c.nodes[a.n], a) ==>
            w.c.nodes[a.n].commitIndex < w'.c.nodes[a.n].commitIndex && Committed(w'.h, w'.c.nodes[a.n]))
  {
    var last := |run| - 1;
    CommitmentsHold(cfg, run[..last]);
    CommitIsRemembered(cfg, After(cfg, run[..last]), run[last]);
  }

  /** The same of the step in which a leader's commit index moves up, and of the leader's own log. */
  lemma CommitStepIsBacked(cfg: Membership, run: seq<Action>, c: State, s: State)
    requires WellFormed(cfg) && Legal(cfg, run) && SameTermReplies(cfg, run) && run != []
    requires run[|run| - 1].n in After(cfg, run[..|run| - 1]).c.nodes && run[|run| - 1].n in After(cfg, run).c.nodes
    requires c == After(cfg, run[..|run| - 1]).c.nodes[run[|run| - 1].n]
    requires s == After(cfg, run).c.nodes[run[|run| - 1].n]
    requires Commits(c, s, run[|run| - 1])
    ensures c.commitIndex < s.commitIndex < |s.log| && s.log[s.commitIndex].term == s.term
    ensures MajorityHeld(cfg, run, s.term, s.log[..s.commitIndex + 1])
  {
    LastStep(cfg, run);
    CommittedIsBacked(cfg, run, s);
  }

  /** A leader commits the largest position of its term that a majority matches, or stays where it was. */
  lemma CommitsTheLargest(s: State, peers: seq<int>)
    requires Sane(s) && 0 <= s.commitIndex
    ensures
      var n := AdvanceCommit(s, peers).commitIndex;
      && (forall k :: n < k ==> !Committable(s, peers, k))
      && (n != s.commitIndex ==> n > s.commitIndex && Committable(s, peers, n))
  {
  }
}
