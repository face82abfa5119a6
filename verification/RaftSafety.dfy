/** Section 5.4: what is committed stays, for every run that keeps the two hypotheses. */
module RaftSafety {
  import opened RaftNode
  import opened RaftCluster
  import opened RaftElection
  import opened RaftLogs
  import opened RaftAcks
  import opened RaftCommit

  // ----- Leader Completeness

  /** The voter's log was no more up-to-date than the candidate's when it voted. */
  ghost predicate VoteUpToDate(h: Happened, k: (int, int))
    requires k in h.votes
  {
    var c := (k.0, h.votes[k].candidate);
    c in h.votes && UpToDate(h.votes[c].log, h.votes[k].log)
  }

  ghost predicate VotesUpToDate(h: Happened) {
    forall k {:trigger VoteUpToDate(h, k)} :: k in h.votes ==> VoteUpToDate(h, k)
  }

  /** The history facts Leader Completeness rests on. */
  ghost predicate Complete(cfg: Membership, w: World) {
    && WellFormed(cfg) && Elections(cfg, w) && Logs(cfg, w) && Acks(cfg, w) && Commitments(cfg, w)
    && VotesUpToDate(w.h)
  }

  /** A log ending in the same term at least as far away holds the other. */
  lemma LongerHoldsShorter(h: Happened, a: seq<Entry>, b: seq<Entry>)
    requires LogOk(h, a) && LogOk(h, b) && LastTerm(a) == LastTerm(b) && |a| >= |b| > 1
    ensures b <= a
  {
    assert EntryOk(h, a, |a| - 1) && EntryOk(h, b, |b| - 1);
    var lead := h.reigns[LastTerm(a)].log;
    assert a == lead[..|a|] && b == lead[..|b|];
  }

  /** A log ending in the term of a leader that began with `held` holds it too, `held` being older. */
  lemma LaterHoldsEarlier(h: Happened, a: seq<Entry>, held: seq<Entry>, t: int)
    requires LogOk(h, a) && TermsUpTo(held, t) && t < LastTerm(a) && 1 <= t
    requires LastTerm(a) in h.reigns ==> held <= h.reigns[LastTerm(a)].log
    ensures held <= a
  {
    assert |a| > 1;
    assert EntryOk(h, a, |a| - 1);
    var lead := h.reigns[LastTerm(a)].log;
    assert a == lead[..|a|];
    assert forall x :: 0 <= x < |held| && held <= lead ==> held[x] == lead[x];
  }

  /** What a voter's log holds, the log of a candidate at least as up-to-date holds,
      if every leader in between does. */
  lemma UpToDateHolds(h: Happened, candidate: seq<Entry>, voter: seq<Entry>, t: int, n: int, u: int)
    requires forall x <- h.reigns :: ReignLogOk(h, x)
    requires LogOk(h, candidate) && LogOk(h, voter) && UpToDate(candidate, voter) && TermsUpTo(candidate, u - 1)
    requires t in h.reigns && 1 <= n < |h.reigns[t].log| && h.reigns[t].log[n].term == t
    requires Held(h, t, n) <= voter
    requires forall x <- h.reigns :: t < x < u ==> Held(h, t, n) <= h.reigns[x].init
    ensures Held(h, t, n) <= candidate
  {
    var held := Held(h, t, n);
    assert ReignLogOk(h, t);
    assert voter[n] == held[n];
    OrderedLog(h, voter, n, |voter| - 1);
    PositiveTerms(h, h.reigns[t].log, n);
    if LastTerm(candidate) == LastTerm(voter) {
      LongerHoldsShorter(h, candidate, voter);
    } else {
      assert |candidate| > 0;
      if LastTerm(candidate) in h.reigns {
        assert ReignLogOk(h, LastTerm(candidate));
      }
      LaterHoldsEarlier(h, candidate, held, t);
    }
  }

  /** Leader Completeness: a leader of a later term began with every entry committed earlier. */
  lemma {:induction false} LeaderBeganWith(cfg: Membership, w: World, t: int, n: int, u: int)
    requires Complete(cfg, w) && (t, n) in w.h.commits && u in w.h.reigns && t < u
    ensures t in w.h.reigns && 1 <= n < |w.h.reigns[t].log| && Held(w.h, t, n) <= w.h.reigns[u].init
    decreases u - t
  {
    assert CommitOk(cfg, w.h, t, n) && ReignOk(cfg, w.h, u);
    forall x | x in w.h.reigns && t < x < u ensures Held(w.h, t, n) <= w.h.reigns[x].init {
      LeaderBeganWith(cfg, w, t, n, x);
    }
    var r := w.h.reigns[u];
    var voters :| IsQuorum(cfg, voters) && AckedBy(w.h, voters, t, n);
    var v := QuorumsMeet(cfg, voters, r.voters);
    VoterHeld(cfg, w, t, n, u, v);
    assert VoteUpToDate(w.h, (u, v));
    assert VoteLogOk(w.h, (u, v)) && VoteLogOk(w.h, (u, r.leader)) && ReignLogOk(w.h, u);
    UpToDateHolds(w.h, r.init, w.h.votes[(u, v)].log, t, n, u);
  }

  lemma VoterHeld(cfg: Membership, w: World, t: int, n: int, u: int, v: int)
    requires Elections(cfg, w) && Acks(cfg, w) && Ack(v, t, n) in w.h.acks
    requires u in w.h.reigns && t < u && v in w.h.reigns[u].voters
    requires t in w.h.reigns && 0 <= n < |w.h.reigns[t].log|
    requires forall x <- w.h.reigns :: t < x < u ==> Held(w.h, t, n) <= w.h.reigns[x].init
    ensures Voted(w.h, u, v, w.h.reigns[u].leader) && Held(w.h, t, n) <= w.h.votes[(u, v)].log
  {
    assert AckOk(cfg, w, Ack(v, t, n));
    assert ReignOk(cfg, w.h, u) && Voted(w.h, u, v, w.h.reigns[u].leader);
    assert VoterRetains(w.h, Ack(v, t, n), u);
  }

  // ----- Committed positions

  ghost predicate BackedBy(h: Happened, log: seq<Entry>, c: int, term: int, t: int, n: int) {
    && (t, n) in h.commits && 0 <= c <= n && t <= term
    && t in h.reigns && n < |h.reigns[t].log|
    && c < |log| && log[..c + 1] == h.reigns[t].log[..c + 1]
  }

  /** Positions up to `c` are entries some leader committed by `term`. */
  ghost predicate Backed(h: Happened, log: seq<Entry>, c: int, term: int) {
    c == 0 || exists t, n :: BackedBy(h, log, c, term, t, n)
  }

  ghost predicate NodeBacked(h: Happened, s: State) {
    && 0 <= s.commitIndex < |s.log| && Backed(h, s.log, s.commitIndex, s.term)
    && s.lastApplied <= s.commitIndex && |s.delivered| == s.lastApplied
    && forall i :: 0 <= i < |s.delivered| ==> s.delivered[i] == Delivery(i + 1, s.log[i + 1].command)
  }

  ghost predicate AppendBacked(h: Happened, m: Message) {
    m.Append? && m.term in h.reigns ==>
      && 0 <= m.args.leaderCommit <= m.args.prevIndex + |m.args.entries|
      && Backed(h, h.reigns[m.term].log, m.args.leaderCommit, m.term)
  }

  ghost predicate Safe(cfg: Membership, w: World) {
    && Complete(cfg, w)
    && (forall n {:trigger NodeBacked(w.h, w.c.nodes[n])} :: n in cfg ==> NodeBacked(w.h, w.c.nodes[n]))
    && (forall m {:trigger AppendBacked(w.h, m)} :: m in w.c.net ==> AppendBacked(w.h, m))
  }

  /** Every leader holds what was committed by its term. */
  ghost predicate CommitsSpread(h: Happened) {
    forall t, n, u :: (t, n) in h.commits && u in h.reigns && t <= u ==> HoldsCommit(h, t, n, u)
  }

  ghost predicate HoldsCommit(h: Happened, t: int, n: int, u: int)
    requires u in h.reigns
  {
    t in h.reigns && 1 <= n < |h.reigns[t].log| && Held(h, t, n) <= h.reigns[u].log
  }

  lemma CommitsDoSpread(cfg: Membership, w: World)
    requires Complete(cfg, w)
    ensures CommitsSpread(w.h)
  {
    forall t, n, u | (t, n) in w.h.commits && u in w.h.reigns && t <= u ensures HoldsCommit(w.h, t, n, u) {
      CommitSpreads(cfg, w, t, n, u);
    }
  }

  lemma CommitSpreads(cfg: Membership, w: World, t: int, n: int, u: int)
    requires Complete(cfg, w) && (t, n) in w.h.commits && u in w.h.reigns && t <= u
    ensures HoldsCommit(w.h, t, n, u)
  {
    if t < u {
      LeaderBeganWith(cfg, w, t, n, u);
      assert ReignLogOk(w.h, u);
    } else {
      assert CommitOk(cfg, w.h, t, n);
    }
  }

  /** Two committed prefixes agree wherever both reach. */
  lemma CommittedAgree(h: Happened, t: int, n: int, u: int, m: int, k: int)
    requires CommitsSpread(h) && (t, n) in h.commits && (u, m) in h.commits && 0 <= k <= n && k <= m
    requires t in h.reigns && u in h.reigns && n < |h.reigns[t].log| && m < |h.reigns[u].log|
    ensures h.reigns[t].log[k] == h.reigns[u].log[k]
  {
    if t <= u {
      assert HoldsCommit(h, t, n, u);
      assert Held(h, t, n)[k] == h.reigns[u].log[k];
    } else {
      assert HoldsCommit(h, u, m, t);
      assert Held(h, u, m)[k] == h.reigns[t].log[k];
    }
  }

  /** The leader of a term holds what backs anything committed by that term. */
  lemma LeaderHoldsBacked(h: Happened, log: seq<Entry>, c: int, term: int, u: int)
    requires CommitsSpread(h) && u in h.reigns && term <= u
    requires 0 <= c < |log| && Backed(h, log, c, term)
    requires |h.reigns[u].log| > 0 && log[0] == h.reigns[u].log[0]
    ensures log[..c + 1] <= h.reigns[u].log
  {
    if c > 0 {
      var t, n :| BackedBy(h, log, c, term, t, n);
      assert HoldsCommit(h, t, n, u);
      assert log[..c + 1] == Held(h, t, n)[..c + 1];
    }
  }

  lemma BackedGrows(h: Happened, h': Happened, log: seq<Entry>, log': seq<Entry>, c: int, term: int, term': int)
    requires Backed(h, log, c, term) && Grows(h, h') && h.commits <= h'.commits
    requires 0 <= c < |log| && log[..c + 1] <= log' && term <= term'
    ensures Backed(h', log', c, term')
  {
    if c != 0 {
      var t, n :| BackedBy(h, log, c, term, t, n);
      assert log'[..c + 1] == log[..c + 1];
      assert BackedBy(h', log', c, term', t, n);
    }
  }

  // ----- What a single step may do to what is applied

  ghost predicate ApplyMove(s: State, s': State, a: Action) {
    && (|| (s'.commitIndex == s.commitIndex && s'.lastApplied == s.lastApplied && s'.delivered == s.delivered)
        || (&& 0 <= s'.commitIndex < |s'.log|
            && s'.lastApplied == Max(s.lastApplied, s'.commitIndex)
            && s'.delivered == s.delivered + Deliveries(s'.log, |s.delivered| + 1, s'.commitIndex)))
    && (if Appends(s, a) && a.m.args.leaderCommit > s.commitIndex
        then s'.commitIndex == Min(a.m.args.leaderCommit, a.m.args.prevIndex + |a.m.args.entries|)
        else s'.commitIndex == s.commitIndex || Commits(s, s', a))
  }

  ghost predicate CommitSend(s: State, m: Message) {
    m.Append? ==> m.args.leaderCommit == s.commitIndex && m.args.prevIndex + |m.args.entries| == |s.log| - 1
  }

  lemma ReplyApplies(s: State, peers: seq<int>, a: Action)
    requires a.OnAppendAnswer? && a.m.AppendAnswer? && Sane(s) && 0 <= s.commitIndex
    ensures ApplyMove(s, HandleAppendReply(s, peers, a.m.src, a.m.reply, a.m.sent), a)
  {
  }

  lemma AppliesUpTo(s: State)
    requires Sane(s) && 0 <= s.commitIndex < |s.log|
    ensures
      var s' := ApplyCommitted(s);
      && s' == s.(lastApplied := s'.lastApplied, delivered := s'.delivered)
      && s'.lastApplied == Max(s.lastApplied, s.commitIndex)
      && s'.delivered == s.delivered + Deliveries(s.log, |s.delivered| + 1, s.commitIndex)
  {
  }

  lemma AppendApplies(s: State, a: Action)
    requires a.OnAppend? && a.m.Append? && Sane(s) && 0 <= a.m.args.prevIndex && 0 <= s.commitIndex
    ensures ApplyMove(s, HandleAppendEntries(s, a.m.term, a.m.src, a.m.args).0, a)
  {
    if Appends(s, a) && a.m.args.leaderCommit > s.commitIndex {
      AppendCommits(s, a.m.term, a.m.src, a.m.args);
    }
  }

  lemma AppendCommits(s: State, term: int, leader: int, args: AppendArgs)
    requires Sane(s) && 0 <= args.prevIndex && 0 <= s.commitIndex && args.leaderCommit > s.commitIndex
    requires s.term <= term && PrefixMatches(s, args)
    ensures
      var s', c := HandleAppendEntries(s, term, leader, args).0,
        Min(args.leaderCommit, args.prevIndex + |args.entries|);
      && s'.commitIndex == c && 0 <= c < |s'.log| && s'.lastApplied == Max(s.lastApplied, c)
      && s'.delivered == s.delivered + Deliveries(s'.log, |s.delivered| + 1, c)
  {
    var s1 := AcknowledgeLeader(s, term, leader);
    AppliesUpTo(s1.(log := MergeEntries(s1.log, args.prevIndex, args.entries),
                    commitIndex := Min(args.leaderCommit, args.prevIndex + |args.entries|)));
  }

  lemma MovesAreApplyMoves(cfg: Membership, c: Cluster, a: Action)
    requires Enabled(cfg, c, a) && 0 <= c.nodes[a.n].commitIndex
    ensures ApplyMove(c.nodes[a.n], NodeAfter(cfg, c, a), a)
  {
    if a.OnAppendAnswer? {
      ReplyApplies(c.nodes[a.n], cfg[a.n], a);
    } else if a.OnAppend? {
      AppendApplies(c.nodes[a.n], a);
    }
  }

  lemma SendsAreCommitSends(cfg: Membership, c: Cluster, a: Action)
    requires Enabled(cfg, c, a)
    ensures forall m <- Sends(cfg, c, a) :: CommitSend(c.nodes[a.n], m)
  {
  }

  // ----- Preservation

  ghost predicate SafeStep(cfg: Membership, w: World, a: Action, w': World) {
    && CommitStep(cfg, w, a, w') && Commitments(cfg, w')
    && Safe(cfg, w)
    && ApplyMove(w.c.nodes[a.n], w'.c.nodes[a.n], a)
    && (forall m <- w'.c.net :: m in w.c.net || CommitSend(w.c.nodes[a.n], m))
    && (Votes(w.c.nodes[a.n], w'.c.nodes[a.n]) && a.OnVoteRequest? ==>
          ((a.m.term, a.m.src) in w.h.votes ==> UpToDate(w.h.votes[(a.m.term, a.m.src)].log, w.c.nodes[a.n].log)))
  }

  lemma VotesUpToDateKept(cfg: Membership, w: World, a: Action, w': World)
    requires SafeStep(cfg, w, a, w')
    ensures VotesUpToDate(w'.h)
  {
    var s, s' := w.c.nodes[a.n], w'.c.nodes[a.n];
    FirstVote(cfg, w, a, w');
    forall k | k in w'.h.votes ensures VoteUpToDate(w'.h, k) {
      if k in w.h.votes {
        assert VoteUpToDate(w.h, k);
      } else {
        if a.OnVoteRequest? {
          assert Voted(w.h, a.m.term, a.m.src, a.m.src);
        }
      }
    }
  }

  /** Taking entries never takes away what the follower has committed. */
  lemma MergeKeepsCommitted(cfg: Membership, w: World, a: Action)
    requires Elections(cfg, w) && Logs(cfg, w) && CommitsSpread(w.h)
    requires a.n in cfg && Appends(w.c.nodes[a.n], a) && a.m in w.c.net && NodeBacked(w.h, w.c.nodes[a.n])
    ensures
      var s, args := w.c.nodes[a.n], a.m.args;
      s.log[..s.commitIndex + 1] <= MergeEntries(s.log, args.prevIndex, args.entries)
  {
    var s := w.c.nodes[a.n];
    AppendMerges(cfg, w, a);
    assert ReignLogOk(w.h, a.m.term);
    LeaderHoldsBacked(w.h, s.log, s.commitIndex, s.term, a.m.term);
    MergeKeepsCommon(s.log[..s.commitIndex + 1], s.log, w.h.reigns[a.m.term].log,
                     a.m.args.prevIndex + |a.m.args.entries| + 1);
  }

  /** A follower that moves its commit index moves it to the leader's, inside the entries it holds. */
  lemma FollowerCommits(cfg: Membership, w: World, a: Action)
    requires Elections(cfg, w) && Logs(cfg, w) && a.n in cfg && Appends(w.c.nodes[a.n], a) && a.m in w.c.net
    requires AppendBacked(w.h, a.m)
    ensures
      var s, args := w.c.nodes[a.n], a.m.args;
      var merged := MergeEntries(s.log, args.prevIndex, args.entries);
      && 0 <= args.leaderCommit <= args.prevIndex + |args.entries| < |merged|
      && Backed(w.h, merged, args.leaderCommit, a.m.term)
  {
    AppendMerges(cfg, w, a);
    var lead := w.h.reigns[a.m.term].log;
    var c := a.m.args.leaderCommit;
    var merged := MergeEntries(w.c.nodes[a.n].log, a.m.args.prevIndex, a.m.args.entries);
    assert lead[..c + 1] == lead[..a.m.args.prevIndex + |a.m.args.entries| + 1][..c + 1] <= merged;
    BackedGrows(w.h, w.h, lead, merged, c, a.m.term, a.m.term);
  }

  lemma LeaderCommits(cfg: Membership, w: World, a: Action, w': World)
    requires SafeStep(cfg, w, a, w') && Commits(w.c.nodes[a.n], w'.c.nodes[a.n], a)
    ensures
      var s' := w'.c.nodes[a.n];
      w.c.nodes[a.n].commitIndex < s'.commitIndex < |s'.log| && Backed(w'.h, s'.log, s'.commitIndex, s'.term)
  {
    var s' := w'.c.nodes[a.n];
    assert LeaderOk(w'.h, a.n, s');
    assert BackedBy(w'.h, s'.log, s'.commitIndex, s'.term, s'.term, s'.commitIndex);
  }

  /** What the replica had committed is still in its log. */
  lemma CommittedStays(cfg: Membership, w: World, a: Action, w': World)
    requires SafeStep(cfg, w, a, w')
    ensures NodeBacked(w.h, w.c.nodes[a.n])
    ensures w.c.nodes[a.n].log[..w.c.nodes[a.n].commitIndex + 1] <= w'.c.nodes[a.n].log
  {
    var s := w.c.nodes[a.n];
    assert NodeBacked(w.h, s);
    if Appends(s, a) {
      CommitsDoSpread(cfg, w);
      MergeKeepsCommitted(cfg, w, a);
    }
  }

  lemma FollowerIndex(cfg: Membership, w: World, a: Action, w': World)
    requires SafeStep(cfg, w, a, w')
    requires Appends(w.c.nodes[a.n], a) && a.m.args.leaderCommit > w.c.nodes[a.n].commitIndex
    ensures
      var s' := w'.c.nodes[a.n];
      s'.commitIndex == a.m.args.leaderCommit < |s'.log| && Backed(w.h, s'.log, s'.commitIndex, s'.term)
  {
    assert AppendBacked(w.h, a.m);
    FollowerCommits(cfg, w, a);
  }

  lemma StepGrows(cfg: Membership, w: World, a: Action, w': World)
    requires SafeStep(cfg, w, a, w')
    ensures Grows(w.h, w'.h) && w.h.commits <= w'.h.commits
    ensures w.c.nodes[a.n].term <= w'.c.nodes[a.n].term
    ensures ApplyMove(w.c.nodes[a.n], w'.c.nodes[a.n], a)
  {
  }

  lemma DeliveredMatches(s: State, s': State, a: Action)
    requires ApplyMove(s, s', a)
    requires 0 <= s.commitIndex <= s'.commitIndex < |s'.log| && s.commitIndex < |s.log|
    requires s.log[..s.commitIndex + 1] <= s'.log
    requires s.lastApplied <= s.commitIndex && |s.delivered| == s.lastApplied
    requires forall i :: 0 <= i < |s.delivered| ==> s.delivered[i] == Delivery(i + 1, s.log[i + 1].command)
    ensures s'.lastApplied <= s'.commitIndex && |s'.delivered| == s'.lastApplied
    ensures forall i :: 0 <= i < |s'.delivered| ==> s'.delivered[i] == Delivery(i + 1, s'.log[i + 1].command)
  {
    var kept := s.log[..s.commitIndex + 1];
    forall i | 0 <= i < |s.delivered| ensures s.delivered[i] == Delivery(i + 1, s'.log[i + 1].command) {
      assert kept[i + 1] == s'.log[i + 1];
    }
  }

  /** Backing carried over one step, from what the step may do to log, commit index and deliveries. */
  lemma BackedMoves(h: Happened, h': Happened, s: State, s': State, a: Action)
    requires NodeBacked(h, s) && ApplyMove(s, s', a)
    requires Grows(h, h') && h.commits <= h'.commits && s.term <= s'.term
    requires s.log[..s.commitIndex + 1] <= s'.log
    requires s'.commitIndex != s.commitIndex ==>
      s.commitIndex < s'.commitIndex < |s'.log| && Backed(h', s'.log, s'.commitIndex, s'.term)
    ensures NodeBacked(h', s') && s.commitIndex <= s'.commitIndex
  {
    BackedGrows(h, h', s.log, s'.log, s.commitIndex, s.term, s'.term);
    DeliveredMatches(s, s', a);
  }

  lemma NewIndexBacked(cfg: Membership, w: World, a: Action, w': World)
    requires SafeStep(cfg, w, a, w') && w'.c.nodes[a.n].commitIndex != w.c.nodes[a.n].commitIndex
    ensures
      var s, s' := w.c.nodes[a.n], w'.c.nodes[a.n];
      s.commitIndex < s'.commitIndex < |s'.log| && Backed(w'.h, s'.log, s'.commitIndex, s'.term)
  {
    var s, s' := w.c.nodes[a.n], w'.c.nodes[a.n];
    if Commits(s, s', a) {
      LeaderCommits(cfg, w, a, w');
    } else {
      FollowerIndex(cfg, w, a, w');
      StepGrows(cfg, w, a, w');
      BackedGrows(w.h, w'.h, s'.log, s'.log, s'.commitIndex, s'.term, s'.term);
    }
  }

  /** The acting replica stays backed, and its commit index never falls. */
  lemma MoverBacked(cfg: Membership, w: World, a: Action, w': World)
    requires SafeStep(cfg, w, a, w')
    ensures NodeBacked(w'.h, w'.c.nodes[a.n]) && w.c.nodes[a.n].commitIndex <= w'.c.nodes[a.n].commitIndex
  {
    CommittedStays(cfg, w, a, w');
    StepGrows(cfg, w, a, w');
    if w'.c.nodes[a.n].commitIndex != w.c.nodes[a.n].commitIndex {
      NewIndexBacked(cfg, w, a, w');
    }
    BackedMoves(w.h, w'.h, w.c.nodes[a.n], w'.c.nodes[a.n], a);
  }

  lemma NodesStayBacked(cfg: Membership, w: World, a: Action, w': World)
    requires SafeStep(cfg, w, a, w')
    ensures forall n <- cfg :: NodeBacked(w'.h, w'.c.nodes[n])
  {
    forall n | n in cfg ensures NodeBacked(w'.h, w'.c.nodes[n]) {
      if n == a.n {
        MoverBacked(cfg, w, a, w');
      } else {
        var s := w.c.nodes[n];
        assert NodeBacked(w.h, s);
        BackedGrows(w.h, w'.h, s.log, s.log, s.commitIndex, s.term, s.term);
      }
    }
  }

  lemma AppendsStayBacked(cfg: Membership, w: World, a: Action, w': World)
    requires SafeStep(cfg, w, a, w')
    ensures forall m <- w'.c.net :: AppendBacked(w'.h, m)
  {
    var s := w.c.nodes[a.n];
    forall m | m in w'.c.net ensures AppendBacked(w'.h, m) {
      if m.Append? {
        if m in w.c.net {
          assert AppendBacked(w.h, m) && AppendOk(w.h, m);
        } else {
          assert LogSend(cfg, a.n, s, m) && CommitSend(s, m) && LeaderOk(w.h, a.n, s) && NodeBacked(w.h, s);
        }
        BackedMessageGrows(w.h, w'.h, m);
      }
    }
  }

  lemma BackedMessageGrows(h: Happened, h': Happened, m: Message)
    requires m.Append? && m.term in h.reigns && AppendBacked(h, m) && AppendOk(h, m)
    requires Grows(h, h') && h.commits <= h'.commits
    ensures AppendBacked(h', m)
  {
    BackedGrows(h, h', h.reigns[m.term].log, h'.reigns[m.term].log, m.args.leaderCommit, m.term, m.term);
  }

  lemma SafeKept(cfg: Membership, w: World, a: Action, w': World)
    requires SafeStep(cfg, w, a, w')
    ensures Safe(cfg, w')
  {
    VotesUpToDateKept(cfg, w, a, w');
    NodesStayBacked(cfg, w, a, w');
    AppendsStayBacked(cfg, w, a, w');
  }

  lemma SafetyStep(cfg: Membership, w: World, a: Action)
    requires Safe(cfg, w) && Enabled(cfg, w.c, a) && SameTermReply(w.c, a) && UpToDateVote(cfg, w, a)
    ensures SafeStep(cfg, w, a, Next(cfg, w, a)) && Safe(cfg, Next(cfg, w, a))
  {
    CommitmentsStep(cfg, w, a);
    MovesAreApplyMoves(cfg, w.c, a);
    SendsAreCommitSends(cfg, w.c, a);
    SafeKept(cfg, w, a, Next(cfg, w, a));
  }

  lemma {:induction false} SafetyHolds(cfg: Membership, run: seq<Action>)
    requires WellFormed(cfg) && Legal(cfg, run) && SameTermReplies(cfg, run) && UpToDateVotes(cfg, run)
    ensures Safe(cfg, After(cfg, run))
  {
    CommitmentsHold(cfg, run);
    if run != [] {
      var n := |run| - 1;
      SafetyHolds(cfg, run[..n]);
      SafetyStep(cfg, After(cfg, run[..n]), run[n]);
    }
  }
}
