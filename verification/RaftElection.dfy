/** Section 5.2: votes, majorities and Election Safety, for every run. */
module RaftElection {
  import opened RaftNode
  import opened RaftCluster

  // ----- Majorities

  predicate IsQuorum(cfg: Membership, voters: set<int>) {
    voters <= cfg.Keys && |voters| > |cfg.Keys| / 2
  }

  lemma QuorumsMeet(cfg: Membership, a: set<int>, b: set<int>) returns (v: int)
    requires IsQuorum(cfg, a) && IsQuorum(cfg, b)
    ensures v in a && v in b
  {
    if forall u :: u in a ==> u !in b {
      assert |a + b| == |a| + |b| by { assert a !! b; }
      SubsetSize(a + b, cfg.Keys);
    }
    v :| v in a && v in b;
  }

  lemma SubsetSize(a: set<int>, b: set<int>)
    requires a <= b
    ensures |a| <= |b|
  {
    assert |b| == |a| + |b - a| by { assert b == a + (b - a); }
  }

  // ----- The invariant

  /** A voter's recorded vote never lies in its future, and is its `voted_for_` while the term lasts. */
  ghost predicate VotesKept(cfg: Membership, w: World) {
    && (forall k <- w.h.votes ::
          && 1 <= k.0 && k.1 in cfg && w.h.votes[k].candidate in cfg
          && k.1 in w.c.nodes && k.0 <= w.c.nodes[k.1].term
          && (k.0 == w.c.nodes[k.1].term ==> w.c.nodes[k.1].votedFor == w.h.votes[k].candidate))
    && (forall n <- w.c.nodes :: w.c.nodes[n].votedFor != NOBODY ==> (w.c.nodes[n].term, n) in w.h.votes)
  }

  /** `v` voted for `candidate` in `term`. */
  ghost predicate Voted(h: Happened, term: int, v: int, candidate: int) {
    (term, v) in h.votes && h.votes[(term, v)].candidate == candidate
  }

  ghost predicate MessagesVoted(cfg: Membership, w: World) {
    forall m <- w.c.net ::
      && m.src in cfg
      && (m.VoteRequest? ==> Voted(w.h, m.term, m.src, m.src))
      && (m.VoteAnswer? && m.reply.accepted && m.reply.term == m.electionTerm ==>
            Voted(w.h, m.electionTerm, m.src, m.dst))
  }

  /** A candidate holds only votes cast for it, its own among them, and is not yet leader. */
  ghost predicate CandidateOk(h: Happened, n: int, s: State) {
    s.role == Candidate ==>
      && n in s.votes
      && (forall v <- s.votes :: Voted(h, s.term, v, n))
      && h.votes[(s.term, n)].log == s.log
      && (s.term, n) !in h.leaders
  }

  ghost predicate ReignOk(cfg: Membership, h: Happened, term: int) {
    term in h.reigns &&
    var r := h.reigns[term];
    && (term, r.leader) in h.leaders
    && IsQuorum(cfg, r.voters)
    && r.leader in r.voters
    && (forall v <- r.voters :: Voted(h, term, v, r.leader))
    && r.init == h.votes[(term, r.leader)].log
  }

  ghost predicate LeaderOk(h: Happened, n: int, s: State) {
    s.role == Leader ==>
      (s.term, n) in h.leaders && s.term in h.reigns && s.log == h.reigns[s.term].log
  }

  ghost predicate LeadersReign(h: Happened) {
    forall l <- h.leaders :: l.0 in h.reigns && h.reigns[l.0].leader == l.1
  }

  ghost predicate RolesOk(cfg: Membership, w: World)
    requires w.c.nodes.Keys == cfg.Keys
  {
    && (forall n {:trigger CandidateOk(w.h, n, w.c.nodes[n])} :: n in cfg ==> CandidateOk(w.h, n, w.c.nodes[n]))
    && (forall n {:trigger LeaderOk(w.h, n, w.c.nodes[n])} :: n in cfg ==> LeaderOk(w.h, n, w.c.nodes[n]))
  }

  ghost predicate Elections(cfg: Membership, w: World) {
    && w.c.nodes.Keys == cfg.Keys
    && (forall n <- cfg :: 0 <= w.c.nodes[n].term && Sane(w.c.nodes[n]))
    && VotesKept(cfg, w)
    && MessagesVoted(cfg, w)
    && RolesOk(cfg, w)
    && (forall t {:trigger ReignOk(cfg, w.h, t)} :: t in w.h.reigns ==> ReignOk(cfg, w.h, t))
    && LeadersReign(w.h)
  }

  // ----- What a single step may do to votes, roles and terms

  /** The replica stood for election in this step. */
  predicate Stands(n: int, s: State, s': State, a: Action) {
    a.Elect? && s'.term == s.term + 1 && s'.votedFor == n && s'.votes == {n} && s'.log == s.log
  }

  /** The replica counts one more vote for it in this step. */
  predicate Counts(s: State, s': State, a: Action) {
    && a.OnVoteAnswer? && a.m.VoteAnswer? && a.m.reply.accepted
    && a.m.electionTerm == a.m.reply.term == s.term
    && s.role == Candidate && s'.term == s.term && s'.votedFor == s.votedFor
    && s'.votes == s.votes + {a.m.src} && s'.log == s.log
  }

  ghost predicate ElectionMove(cfg: Membership, n: int, s: State, s': State, a: Action) {
    && s.term <= s'.term
    && (s'.term == s.term && s.votedFor != NOBODY ==> s'.votedFor == s.votedFor)
    && (Votes(s, s') ==>
          || Stands(n, s, s', a)
          || (a.OnVoteRequest? && a.m.VoteRequest? && s'.votedFor == a.m.src && s'.term == a.m.term &&
              s'.role == Follower))
    && (s'.role == Candidate ==>
          || Stands(n, s, s', a) || Counts(s, s', a)
          || (s.role == Candidate && s'.term == s.term && s'.votes == s.votes && s'.log == s.log))
    && (Wins(s, s') ==>
          (Stands(n, s, s', a) || Counts(s, s', a)) && |s'.votes| > |cfg.Keys| / 2)
    && (s'.role == Leader && s.role == Leader ==>
          s'.term == s.term && (s'.log == s.log || a.Submit?))
    && (a.Submit? ==> s'.role == s.role && s'.term == s.term && s'.votedFor == s.votedFor && s.log <= s'.log)
    && Sane(s')
  }

  ghost predicate ElectionSend(n: int, s: State, s': State, m: Message) {
    && m.src == n
    && (m.VoteRequest? ==> m.term == s'.term && s'.votedFor == n)
    && (m.VoteAnswer? && m.reply.accepted && m.reply.term == m.electionTerm ==>
          s'.term == m.electionTerm && s'.votedFor == m.dst && m.dst != NOBODY)
  }

  lemma MovesAreElectionMoves(cfg: Membership, c: Cluster, a: Action)
    requires WellFormed(cfg) && Enabled(cfg, c, a) && Sane(c.nodes[a.n])
    ensures ElectionMove(cfg, a.n, c.nodes[a.n], NodeAfter(cfg, c, a), a)
  {
    var s := c.nodes[a.n];
    if a.OnAppend? {
      AppendEntriesShape(s, a.m.term, a.m.src, a.m.args);
    }
  }

  lemma AppendEntriesShape(s: State, term: int, leader: int, args: AppendArgs)
    requires Sane(s) && 0 <= args.prevIndex
    ensures
      var s' := HandleAppendEntries(s, term, leader, args).0;
      Sane(s') && (s' == s || (term >= s.term && s'.term == term && s'.role == Follower
                               && s'.votedFor == if term > s.term then NOBODY else s.votedFor))
  {
  }

  lemma SendsAreElectionSends(cfg: Membership, c: Cluster, a: Action)
    requires WellFormed(cfg) && Enabled(cfg, c, a)
    requires a.OnVoteRequest? ==> a.m.src in cfg
    ensures forall m <- Sends(cfg, c, a) :: ElectionSend(a.n, c.nodes[a.n], NodeAfter(cfg, c, a), m)
  {
  }

  // ----- Preservation

  /** What only grows: votes, leaders and leaderships. */
  ghost predicate Grows(h: Happened, h': Happened) {
    && (forall k <- h.votes :: k in h'.votes && h'.votes[k] == h.votes[k])
    && h.leaders <= h'.leaders
    && (forall t <- h.reigns :: t in h'.reigns
          && h'.reigns[t].leader == h.reigns[t].leader && h'.reigns[t].init == h.reigns[t].init
          && h'.reigns[t].voters == h.reigns[t].voters && h.reigns[t].log <= h'.reigns[t].log)
  }

  /** Two candidates with a majority in one term are the same. */
  lemma SameWinner(cfg: Membership, h: Happened, term: int, voters: set<int>, n: int)
    requires ReignOk(cfg, h, term) && IsQuorum(cfg, voters)
    requires forall v <- voters :: Voted(h, term, v, n)
    ensures h.reigns[term].leader == n
  {
    var v := QuorumsMeet(cfg, voters, h.reigns[term].voters);
    assert Voted(h, term, v, n) && Voted(h, term, v, h.reigns[term].leader);
  }

  /** The step as the election argument sees it. */
  ghost predicate ElectionStep(cfg: Membership, w: World, a: Action, w': World) {
    && WellFormed(cfg) && Elections(cfg, w)
    && a.n in cfg && a.n in w'.c.nodes && w'.c.nodes == w.c.nodes[a.n := w'.c.nodes[a.n]]
    && ElectionMove(cfg, a.n, w.c.nodes[a.n], w'.c.nodes[a.n], a)
    && (forall m <- w'.c.net :: m in w.c.net || ElectionSend(a.n, w.c.nodes[a.n], w'.c.nodes[a.n], m))
    && (a.OnVoteRequest? ==> a.m in w.c.net)
    && (a.OnVoteAnswer? ==> a.m in w.c.net && (a.m.VoteAnswer? ==> a.m.dst == a.n))
    && Remembers(w.h, a.n, w.c.nodes[a.n], w'.c.nodes[a.n], a, w'.h)
  }

  /** The fields of the history the election argument reads. */
  ghost predicate Remembers(h: Happened, n: int, s: State, s': State, a: Action, h': Happened) {
    && h'.votes == (if Votes(s, s') then h.votes[(s'.term, n) := Vote(s'.votedFor, s.log)] else h.votes)
    && h'.leaders == (if Wins(s, s') then h.leaders + {(s'.term, n)} else h.leaders)
    && (Wins(s, s') && !a.Submit? ==> h'.reigns == h.reigns[s'.term := Reign(n, s'.log, s'.votes, s'.log)])
    && (!Wins(s, s') && !a.Submit? ==> h'.reigns == h.reigns)
    && (a.Submit? && !(s.role == Leader && s.term in h.reigns) ==> h'.reigns == h.reigns)
    && (a.Submit? && s.role == Leader && s.term in h.reigns ==>
          h'.reigns == h.reigns[s.term := h.reigns[s.term].(log := s'.log)])
  }

  lemma Remembered(h: Happened, n: int, s: State, s': State, a: Action)
    requires a.Submit? ==> !Wins(s, s')
    ensures Remembers(h, n, s, s', a, Remember(h, n, s, s', a))
  {
  }

  /** A vote cast now is the voter's first in its term. */
  lemma FirstVote(cfg: Membership, w: World, a: Action, w': World)
    requires ElectionStep(cfg, w, a, w')
    ensures Votes(w.c.nodes[a.n], w'.c.nodes[a.n]) ==> (w'.c.nodes[a.n].term, a.n) !in w.h.votes
  {
  }

  lemma VotersAreMembers(cfg: Membership, w: World, voters: set<int>, term: int, n: int)
    requires VotesKept(cfg, w) && forall v <- voters :: Voted(w.h, term, v, n)
    ensures voters <= cfg.Keys
  {
    forall v | v in voters ensures v in cfg.Keys {
      assert Voted(w.h, term, v, n);
      assert (term, v) in w.h.votes;
    }
  }

  /** A replica that becomes leader does so in a term that had no leader. */
  lemma WinsFreshTerm(cfg: Membership, w: World, a: Action, w': World)
    requires ElectionStep(cfg, w, a, w') && Wins(w.c.nodes[a.n], w'.c.nodes[a.n])
    ensures
      var s, s' := w.c.nodes[a.n], w'.c.nodes[a.n];
      && s'.term !in w.h.reigns && IsQuorum(cfg, s'.votes) && a.n in s'.votes
      && (Counts(s, s', a) ==> forall v <- s'.votes :: Voted(w.h, s'.term, v, a.n))
  {
    var s, s' := w.c.nodes[a.n], w'.c.nodes[a.n];
    if Counts(s, s', a) {
      assert CandidateOk(w.h, a.n, s);
      VotersAreMembers(cfg, w, s'.votes, s'.term, a.n);
      if s'.term in w.h.reigns {
        assert ReignOk(cfg, w.h, s'.term);
        SameWinner(cfg, w.h, s'.term, s'.votes, a.n);
      }
    } else {
      assert IsQuorum(cfg, {a.n});
      forall t | t in w.h.reigns ensures Voted(w.h, t, a.n, w.h.reigns[t].leader) {
        assert ReignOk(cfg, w.h, t);
        var v := QuorumsMeet(cfg, {a.n}, w.h.reigns[t].voters);
      }
    }
  }

  lemma HistoryGrows(cfg: Membership, w: World, a: Action, w': World)
    requires ElectionStep(cfg, w, a, w')
    ensures Grows(w.h, w'.h)
  {
    FirstVote(cfg, w, a, w');
    assert LeaderOk(w.h, a.n, w.c.nodes[a.n]);
    if Wins(w.c.nodes[a.n], w'.c.nodes[a.n]) {
      WinsFreshTerm(cfg, w, a, w');
    }
  }

  lemma VotesStep(cfg: Membership, w: World, a: Action, w': World)
    requires ElectionStep(cfg, w, a, w')
    ensures VotesKept(cfg, w')
  {
    FirstVote(cfg, w, a, w');
  }

  lemma MessagesStep(cfg: Membership, w: World, a: Action, w': World)
    requires ElectionStep(cfg, w, a, w')
    ensures MessagesVoted(cfg, w')
  {
    HistoryGrows(cfg, w, a, w');
    VotesStep(cfg, w, a, w');
    forall m | m in w'.c.net
      ensures m.src in cfg
      ensures m.VoteRequest? ==> Voted(w'.h, m.term, m.src, m.src)
      ensures m.VoteAnswer? && m.reply.accepted && m.reply.term == m.electionTerm ==>
                Voted(w'.h, m.electionTerm, m.src, m.dst)
    {
      if m in w.c.net {
        assert m.VoteRequest? ==> Voted(w.h, m.term, m.src, m.src);
      } else {
        assert ElectionSend(a.n, w.c.nodes[a.n], w'.c.nodes[a.n], m);
      }
    }
  }

  lemma LeaderVoted(cfg: Membership, w: World, term: int, n: int)
    requires Elections(cfg, w)
    ensures (term, n) in w.h.leaders ==> ReignOk(cfg, w.h, term) && Voted(w.h, term, n, n)
  {
    assert term in w.h.reigns ==> ReignOk(cfg, w.h, term);
  }

  lemma MoverRole(cfg: Membership, w: World, a: Action, w': World)
    requires ElectionStep(cfg, w, a, w')
    ensures CandidateOk(w'.h, a.n, w'.c.nodes[a.n]) && LeaderOk(w'.h, a.n, w'.c.nodes[a.n])
  {
    var n, s, s' := a.n, w.c.nodes[a.n], w'.c.nodes[a.n];
    HistoryGrows(cfg, w, a, w');
    assert CandidateOk(w.h, n, s) && LeaderOk(w.h, n, s);
    if s'.role == Leader {
      if Wins(s, s') {
        WinsFreshTerm(cfg, w, a, w');
      }
    } else if s'.role == Candidate {
      LeaderVoted(cfg, w, s'.term, n);
      forall v | v in s'.votes ensures Voted(w'.h, s'.term, v, n) {
        assert v in s.votes && s.role == Candidate ==> Voted(w.h, s.term, v, n);
      }
    }
  }

  lemma BystanderRole(cfg: Membership, w: World, a: Action, w': World, n: int)
    requires ElectionStep(cfg, w, a, w') && n in cfg && n != a.n
    ensures CandidateOk(w'.h, n, w.c.nodes[n]) && LeaderOk(w'.h, n, w.c.nodes[n])
  {
    var s, t := w.c.nodes[a.n], w.c.nodes[n];
    HistoryGrows(cfg, w, a, w');
    assert CandidateOk(w.h, n, t) && LeaderOk(w.h, n, t) && LeaderOk(w.h, a.n, s);
    if t.role == Candidate {
      forall v | v in t.votes ensures Voted(w'.h, t.term, v, n) {
        assert Voted(w.h, t.term, v, n);
      }
    } else if t.role == Leader {
      assert t.term in w.h.reigns && w.h.reigns[t.term].leader == n;
      if Wins(s, w'.c.nodes[a.n]) {
        WinsFreshTerm(cfg, w, a, w');
      }
    }
  }

  lemma RolesStep(cfg: Membership, w: World, a: Action, w': World)
    requires ElectionStep(cfg, w, a, w')
    ensures RolesOk(cfg, w')
  {
    forall n | n in cfg
      ensures CandidateOk(w'.h, n, w'.c.nodes[n]) && LeaderOk(w'.h, n, w'.c.nodes[n])
    {
      if n == a.n {
        MoverRole(cfg, w, a, w');
      } else {
        BystanderRole(cfg, w, a, w', n);
      }
    }
  }

  lemma ReignKept(cfg: Membership, h: Happened, h': Happened, term: int)
    requires ReignOk(cfg, h, term) && Grows(h, h')
    ensures ReignOk(cfg, h', term)
  {
    forall v | v in h.reigns[term].voters ensures Voted(h', term, v, h.reigns[term].leader) {
      assert Voted(h, term, v, h.reigns[term].leader);
    }
  }

  lemma ReignBegins(cfg: Membership, w: World, a: Action, w': World)
    requires ElectionStep(cfg, w, a, w') && Wins(w.c.nodes[a.n], w'.c.nodes[a.n])
    ensures ReignOk(cfg, w'.h, w'.c.nodes[a.n].term)
  {
    var s, s' := w.c.nodes[a.n], w'.c.nodes[a.n];
    WinsFreshTerm(cfg, w, a, w');
    HistoryGrows(cfg, w, a, w');
    MoverRole(cfg, w, a, w');
    assert CandidateOk(w.h, a.n, s);
    forall v | v in s'.votes ensures Voted(w'.h, s'.term, v, a.n) {
      assert Counts(s, s', a) ==> Voted(w.h, s'.term, v, a.n);
    }
  }

  lemma ReignsStep(cfg: Membership, w: World, a: Action, w': World)
    requires ElectionStep(cfg, w, a, w')
    ensures forall t <- w'.h.reigns :: ReignOk(cfg, w'.h, t)
    ensures LeadersReign(w'.h)
  {
    HistoryGrows(cfg, w, a, w');
    if Wins(w.c.nodes[a.n], w'.c.nodes[a.n]) {
      WinsFreshTerm(cfg, w, a, w');
      ReignBegins(cfg, w, a, w');
    }
    forall t | t in w'.h.reigns ensures ReignOk(cfg, w'.h, t) {
      if t in w.h.reigns {
        assert ReignOk(cfg, w.h, t);
        ReignKept(cfg, w.h, w'.h, t);
      }
    }
  }

  lemma ElectionsKept(cfg: Membership, w: World, a: Action, w': World)
    requires ElectionStep(cfg, w, a, w')
    ensures Elections(cfg, w') && Grows(w.h, w'.h)
  {
    HistoryGrows(cfg, w, a, w');
    VotesStep(cfg, w, a, w');
    MessagesStep(cfg, w, a, w');
    RolesStep(cfg, w, a, w');
    ReignsStep(cfg, w, a, w');
  }

  lemma ElectionsStep(cfg: Membership, w: World, a: Action)
    requires WellFormed(cfg) && Elections(cfg, w) && Enabled(cfg, w.c, a)
    ensures ElectionStep(cfg, w, a, Next(cfg, w, a))
    ensures Elections(cfg, Next(cfg, w, a)) && Grows(w.h, Next(cfg, w, a).h)
  {
    MovesAreElectionMoves(cfg, w.c, a);
    SendsAreElectionSends(cfg, w.c, a);
    Remembered(w.h, a.n, w.c.nodes[a.n], NodeAfter(cfg, w.c, a), a);
    ElectionsKept(cfg, w, a, Next(cfg, w, a));
  }

  lemma {:induction false} ElectionsHold(cfg: Membership, run: seq<Action>)
    requires WellFormed(cfg) && Legal(cfg, run)
    ensures Elections(cfg, After(cfg, run))
  {
    if run != [] {
      var n := |run| - 1;
      ElectionsHold(cfg, run[..n]);
      ElectionsStep(cfg, After(cfg, run[..n]), run[n]);
    }
  }

  lemma GrowsOn(h: Happened, h1: Happened, h2: Happened)
    requires Grows(h, h1) && Grows(h1, h2)
    ensures Grows(h, h2)
  {
  }

  /** What is remembered at one moment of a run is remembered at its end. */
  lemma {:induction false} HistoryOnlyGrows(cfg: Membership, run: seq<Action>, i: int)
    requires WellFormed(cfg) && Legal(cfg, run) && 0 <= i <= |run|
    ensures Legal(cfg, run[..i]) && Grows(After(cfg, run[..i]).h, After(cfg, run).h)
    decreases |run|
  {
    if i == |run| {
      assert run[..i] == run;
    } else {
      var last := |run| - 1;
      assert run[..last][..i] == run[..i];
      HistoryOnlyGrows(cfg, run[..last], i);
      ElectionsHold(cfg, run[..last]);
      ElectionsStep(cfg, After(cfg, run[..last]), run[last]);
      GrowsOn(After(cfg, run[..i]).h, After(cfg, run[..last]).h, After(cfg, run).h);
    }
  }

  /** Election Safety: in every run at most one replica is, or has been, leader of a term. */
  lemma ElectionSafety(cfg: Membership, run: seq<Action>, term: int, a: int, b: int)
    requires WellFormed(cfg) && Legal(cfg, run)
    requires (term, a) in After(cfg, run).h.leaders && (term, b) in After(cfg, run).h.leaders
    ensures a == b
  {
    ElectionsHold(cfg, run);
  }

  /** The same of what can be seen: two replicas that lead one term, at whatever moments of a run, are one. */
  lemma OneLeaderPerTerm(cfg: Membership, run: seq<Action>, i: int, a: int, j: int, b: int)
    requires WellFormed(cfg) && Legal(cfg, run) && 0 <= i <= |run| && 0 <= j <= |run| && a in cfg && b in cfg
    ensures Legal(cfg, run[..i]) && Legal(cfg, run[..j])
    ensures a in After(cfg, run[..i]).c.nodes && b in After(cfg, run[..j]).c.nodes
    ensures
      var s, r := After(cfg, run[..i]).c.nodes[a], After(cfg, run[..j]).c.nodes[b];
      s.role == Leader && r.role == Leader && s.term == r.term ==> a == b
  {
    LeaderIsRemembered(cfg, run, i, a);
    LeaderIsRemembered(cfg, run, j, b);
    var s, r := After(cfg, run[..i]).c.nodes[a], After(cfg, run[..j]).c.nodes[b];
    if s.role == Leader && r.role == Leader && s.term == r.term {
      ElectionSafety(cfg, run, s.term, a, b);
    }
  }

  lemma LeaderIsRemembered(cfg: Membership, run: seq<Action>, i: int, a: int)
    requires WellFormed(cfg) && Legal(cfg, run) && 0 <= i <= |run| && a in cfg
    ensures Legal(cfg, run[..i]) && a in After(cfg, run[..i]).c.nodes
    ensures
      var s := After(cfg, run[..i]).c.nodes[a];
      s.role == Leader ==> (s.term, a) in After(cfg, run).h.leaders
  {
    HistoryOnlyGrows(cfg, run, i);
    ElectionsHold(cfg, run[..i]);
    assert LeaderOk(After(cfg, run[..i]).h, a, After(cfg, run[..i]).c.nodes[a]);
  }
}
