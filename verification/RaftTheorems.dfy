/** The results about whole runs. */
module RaftTheorems {
  import opened RaftNode
  import opened RaftCluster
  import opened RaftElection
  import opened RaftLogs
  import opened RaftCommit
  import opened RaftSafety

  // ----- Under both hypotheses

  lemma BackedPositionsAgree(cfg: Membership, w: World, a: int, b: int, k: int)
    requires Safe(cfg, w) && a in cfg && b in cfg
    requires 0 <= k <= w.c.nodes[a].commitIndex && k <= w.c.nodes[b].commitIndex
    ensures k < |w.c.nodes[a].log| && k < |w.c.nodes[b].log|
    ensures w.c.nodes[a].log[k] == w.c.nodes[b].log[k]
  {
    var s, r := w.c.nodes[a], w.c.nodes[b];
    assert NodeBacked(w.h, s) && NodeBacked(w.h, r);
    if k > 0 {
      CommitsDoSpread(cfg, w);
      var t, n :| BackedBy(w.h, s.log, s.commitIndex, s.term, t, n);
      var u, m :| BackedBy(w.h, r.log, r.commitIndex, r.term, u, m);
      CommittedAgree(w.h, t, n, u, m, k);
      assert s.log[..s.commitIndex + 1][k] == w.h.reigns[t].log[k];
      assert r.log[..r.commitIndex + 1][k] == w.h.reigns[u].log[k];
    }
  }

  /** State Machine Safety: two replicas that have both applied an index applied the same command there. */
  lemma StateMachineSafety(cfg: Membership, run: seq<Action>, a: int, b: int, i: int)
    requires WellFormed(cfg) && Legal(cfg, run) && SameTermReplies(cfg, run) && UpToDateVotes(cfg, run)
    requires a in cfg && b in cfg
    ensures
      var nodes := After(cfg, run).c.nodes;
      a in nodes && b in nodes &&
      (0 <= i < |nodes[a].delivered| && i < |nodes[b].delivered| ==> nodes[a].delivered[i] == nodes[b].delivered[i])
  {
    SafetyHolds(cfg, run);
    AppliedAgree(cfg, After(cfg, run), a, b, i);
  }

  lemma AppliedAgree(cfg: Membership, w: World, a: int, b: int, i: int)
    requires Safe(cfg, w) && a in cfg && b in cfg
    ensures
      var nodes := w.c.nodes;
      0 <= i < |nodes[a].delivered| && i < |nodes[b].delivered| ==> nodes[a].delivered[i] == nodes[b].delivered[i]
  {
    assert NodeBacked(w.h, w.c.nodes[a]) && NodeBacked(w.h, w.c.nodes[b]);
    if 0 <= i < |w.c.nodes[a].delivered| && i < |w.c.nodes[b].delivered| {
      BackedPositionsAgree(cfg, w, a, b, i + 1);
    }
  }

  /** Leader Completeness: an entry committed in one term is in the log of the leader of every later term. */
  lemma LeaderCompleteness(cfg: Membership, run: seq<Action>, t: int, n: int, u: int)
    requires WellFormed(cfg) && Legal(cfg, run) && SameTermReplies(cfg, run) && UpToDateVotes(cfg, run)
    requires (t, n) in After(cfg, run).h.commits && u in After(cfg, run).h.reigns && t < u
    ensures
      var reigns := After(cfg, run).h.reigns;
      t in reigns && 1 <= n < |reigns[t].log| && reigns[t].log[..n + 1] <= reigns[u].init <= reigns[u].log
  {
    SafetyHolds(cfg, run);
    LeaderBeganWith(cfg, After(cfg, run), t, n, u);
    assert ReignLogOk(After(cfg, run).h, u);
  }

  lemma {:induction false} PrefixKeeps(cfg: Membership, run: seq<Action>, i: int)
    requires Legal(cfg, run) && SameTermReplies(cfg, run) && UpToDateVotes(cfg, run) && 0 <= i <= |run|
    ensures Legal(cfg, run[..i]) && SameTermReplies(cfg, run[..i]) && UpToDateVotes(cfg, run[..i])
    decreases |run|
  {
    if i == |run| {
      assert run[..i] == run;
    } else {
      assert run[..|run| - 1][..i] == run[..i];
      PrefixKeeps(cfg, run[..|run| - 1], i);
    }
  }

  lemma {:induction false} CommitsOnlyGrow(cfg: Membership, run: seq<Action>, i: int)
    requires Legal(cfg, run) && 0 <= i <= |run|
    ensures Legal(cfg, run[..i]) && After(cfg, run[..i]).h.commits <= After(cfg, run).h.commits
    decreases |run|
  {
    if i == |run| {
      assert run[..i] == run;
    } else {
      var last := |run| - 1;
      assert run[..last][..i] == run[..i];
      CommitsOnlyGrow(cfg, run[..last], i);
      var c := After(cfg, run[..last]).c;
      RememberedCommits(After(cfg, run[..last]).h, run[last].n, c.nodes[run[last].n], NodeAfter(cfg, c, run[last]),
                        run[last]);
    }
  }

  /** A leader's log begins with the log its reign is remembered to have begun with. */
  lemma LeaderHoldsInit(cfg: Membership, run: seq<Action>, j: int, b: int)
    requires WellFormed(cfg) && Legal(cfg, run) && 0 <= j <= |run| && b in cfg
    ensures Legal(cfg, run[..j]) && b in After(cfg, run[..j]).c.nodes
    ensures
      var r, reigns := After(cfg, run[..j]).c.nodes[b], After(cfg, run).h.reigns;
      r.role == Leader ==> r.term in reigns && reigns[r.term].init <= r.log
  {
    HistoryOnlyGrows(cfg, run, j);
    var w := After(cfg, run[..j]);
    LogsHold(cfg, run[..j]);
    assert LeaderOk(w.h, b, w.c.nodes[b]);
    if w.c.nodes[b].role == Leader {
      assert ReignLogOk(w.h, w.c.nodes[b].term);
    }
  }

  /** Leader Completeness of what can be seen: at every moment a replica that leads a later term has what was
      committed in an earlier one in its own log. */
  lemma LeadersHoldCommitted(cfg: Membership, run: seq<Action>, t: int, n: int, j: int, b: int)
    requires WellFormed(cfg) && Legal(cfg, run) && SameTermReplies(cfg, run) && UpToDateVotes(cfg, run)
    requires (t, n) in After(cfg, run).h.commits && 0 <= j <= |run| && b in cfg
    ensures Legal(cfg, run[..j]) && b in After(cfg, run[..j]).c.nodes
    ensures
      var r, reigns := After(cfg, run[..j]).c.nodes[b], After(cfg, run).h.reigns;
      r.role == Leader && t < r.term ==> t in reigns && 1 <= n < |reigns[t].log| && reigns[t].log[..n + 1] <= r.log
  {
    LeaderHoldsInit(cfg, run, j, b);
    var r := After(cfg, run[..j]).c.nodes[b];
    if r.role == Leader && t < r.term {
      LeaderCompleteness(cfg, run, t, n, r.term);
    }
  }

  /** What the replica counts as committed is, if anything, a prefix committed by the leader of term `t`. */
  ghost predicate CommittedBy(h: Happened, s: State, t: int, n: int) {
    && 0 <= s.commitIndex < |s.log|
    && (s.commitIndex > 0 ==>
          && (t, n) in h.commits && t <= s.term && t in h.reigns && s.commitIndex <= n < |h.reigns[t].log|
          && s.log[..s.commitIndex + 1] <= h.reigns[t].log)
  }

  lemma CommittedByGrows(h: Happened, h': Happened, s: State, t: int, n: int)
    requires CommittedBy(h, s, t, n) && Grows(h, h') && h.commits <= h'.commits
    ensures CommittedBy(h', s, t, n)
  {
  }

  lemma CountedAsCommitted(cfg: Membership, w: World, a: int) returns (t: int, n: int)
    requires Safe(cfg, w) && a in cfg
    ensures CommittedBy(w.h, w.c.nodes[a], t, n)
  {
    t, n := 0, 0;
    var s := w.c.nodes[a];
    assert NodeBacked(w.h, s);
    if s.commitIndex > 0 {
      t, n :| BackedBy(w.h, s.log, s.commitIndex, s.term, t, n);
    }
  }

  lemma CountedAtMoment(cfg: Membership, run: seq<Action>, i: int, a: int) returns (t: int, n: int)
    requires WellFormed(cfg) && Legal(cfg, run) && SameTermReplies(cfg, run) && UpToDateVotes(cfg, run)
    requires 0 <= i <= |run| && a in cfg
    ensures Legal(cfg, run[..i]) && a in After(cfg, run[..i]).c.nodes
    ensures CommittedBy(After(cfg, run).h, After(cfg, run[..i]).c.nodes[a], t, n)
  {
    PrefixKeeps(cfg, run, i);
    SafetyHolds(cfg, run[..i]);
    HistoryOnlyGrows(cfg, run, i);
    CommitsOnlyGrow(cfg, run, i);
    t, n := CountedAsCommitted(cfg, After(cfg, run[..i]), a);
    CommittedByGrows(After(cfg, run[..i]).h, After(cfg, run).h, After(cfg, run[..i]).c.nodes[a], t, n);
  }

  lemma PrefixPasses(s: State, r: State, lead: seq<Entry>, n: int)
    requires 0 <= s.commitIndex < |s.log| && s.commitIndex <= n < |lead|
    requires s.log[..s.commitIndex + 1] <= lead && lead[..n + 1] <= r.log
    ensures s.log[..s.commitIndex + 1] <= r.log
  {
    assert s.log[..s.commitIndex + 1] <= lead[..n + 1];
  }

  /** Every log begins with the sentinel. */
  lemma SentinelFirst(cfg: Membership, run: seq<Action>, i: int, a: int)
    requires WellFormed(cfg) && Legal(cfg, run) && 0 <= i <= |run| && a in cfg
    ensures Legal(cfg, run[..i]) && a in After(cfg, run[..i]).c.nodes
    ensures
      var log := After(cfg, run[..i]).c.nodes[a].log;
      |log| > 0 && log[0] == SENTINEL
  {
    HistoryOnlyGrows(cfg, run, i);
    LogsHold(cfg, run[..i]);
  }

  lemma ReachesLeader(cfg: Membership, run: seq<Action>, s: State, t: int, n: int, j: int, b: int)
    requires WellFormed(cfg) && Legal(cfg, run) && SameTermReplies(cfg, run) && UpToDateVotes(cfg, run)
    requires CommittedBy(After(cfg, run).h, s, t, n) && s.log[0] == SENTINEL && 0 <= j <= |run| && b in cfg
    ensures Legal(cfg, run[..j]) && b in After(cfg, run[..j]).c.nodes
    ensures
      var r := After(cfg, run[..j]).c.nodes[b];
      r.role == Leader && s.term < r.term ==> s.log[..s.commitIndex + 1] <= r.log
  {
    SentinelFirst(cfg, run, j, b);
    var r := After(cfg, run[..j]).c.nodes[b];
    if r.role == Leader && s.term < r.term && s.commitIndex > 0 {
      LeadersHoldCommitted(cfg, run, t, n, j, b);
      PrefixPasses(s, r, After(cfg, run).h.reigns[t].log, n);
    }
  }

  /** The same without any history: what a replica counts as committed at one moment of a run, every replica
      that leads a later term, at whatever moment, has in its log. */
  lemma CommittedReachesLeaders(cfg: Membership, run: seq<Action>, i: int, a: int, j: int, b: int)
    requires WellFormed(cfg) && Legal(cfg, run) && SameTermReplies(cfg, run) && UpToDateVotes(cfg, run)
    requires 0 <= i <= |run| && 0 <= j <= |run| && a in cfg && b in cfg
    ensures Legal(cfg, run[..i]) && Legal(cfg, run[..j])
    ensures a in After(cfg, run[..i]).c.nodes && b in After(cfg, run[..j]).c.nodes
    ensures
      var s, r := After(cfg, run[..i]).c.nodes[a], After(cfg, run[..j]).c.nodes[b];
      && 0 <= s.commitIndex < |s.log|
      && (r.role == Leader && s.term < r.term ==> s.log[..s.commitIndex + 1] <= r.log)
  {
    SentinelFirst(cfg, run, i, a);
    SentinelFirst(cfg, run, j, b);
    var t, n := CountedAtMoment(cfg, run, i, a);
    ReachesLeader(cfg, run, After(cfg, run[..i]).c.nodes[a], t, n, j, b);
  }

  lemma StepKeepsCommit(cfg: Membership, w: World, a: Action, n: int)
    requires Safe(cfg, w) && Enabled(cfg, w.c, a) && SameTermReply(w.c, a) && UpToDateVote(cfg, w, a) && n in cfg
    ensures n in Next(cfg, w, a).c.nodes && w.c.nodes[n].commitIndex <= Next(cfg, w, a).c.nodes[n].commitIndex
  {
    SafetyStep(cfg, w, a);
    MoverBacked(cfg, w, a, Next(cfg, w, a));
  }

  /** A commit index never decreases and stays inside the log; everything up to it is applied. */
  lemma {:induction false} CommitIndexOnlyGrows(cfg: Membership, run: seq<Action>, n: int, i: int)
    requires WellFormed(cfg) && Legal(cfg, run) && SameTermReplies(cfg, run) && UpToDateVotes(cfg, run)
    requires n in cfg && 0 <= i <= |run|
    ensures Legal(cfg, run[..i]) && n in After(cfg, run[..i]).c.nodes && n in After(cfg, run).c.nodes
    ensures
      var s := After(cfg, run).c.nodes[n];
      After(cfg, run[..i]).c.nodes[n].commitIndex <= s.commitIndex < |s.log| && s.lastApplied <= s.commitIndex
    decreases |run|
  {
    SafetyHolds(cfg, run);
    assert NodeBacked(After(cfg, run).h, After(cfg, run).c.nodes[n]);
    if i == |run| {
      assert run[..i] == run;
    } else {
      var last := |run| - 1;
      assert run[..last][..i] == run[..i];
      CommitIndexOnlyGrows(cfg, run[..last], n, i);
      SafetyHolds(cfg, run[..last]);
      StepKeepsCommit(cfg, After(cfg, run[..last]), run[last], n);
    }
  }

  // ----- Under no hypothesis

  /** The callbacks made so far are for indices 1, 2, 3, ... */
  ghost predicate InOrder(s: State) {
    && 0 <= s.commitIndex
    && |s.delivered| == s.lastApplied
    && forall i :: 0 <= i < |s.delivered| ==> s.delivered[i].index == i + 1
  }

  lemma InOrderStep(s: State, s': State, a: Action)
    requires InOrder(s) && ApplyMove(s, s', a)
    ensures InOrder(s') && s.delivered <= s'.delivered
  {
  }

  lemma StepInOrder(cfg: Membership, c: Cluster, a: Action, n: int)
    requires Enabled(cfg, c, a) && n in c.nodes && InOrder(c.nodes[n]) && InOrder(c.nodes[a.n])
    ensures
      var s' := if n == a.n then NodeAfter(cfg, c, a) else c.nodes[n];
      InOrder(s') && c.nodes[n].delivered <= s'.delivered
  {
    MovesAreApplyMoves(cfg, c, a);
    InOrderStep(c.nodes[a.n], NodeAfter(cfg, c, a), a);
  }

  lemma {:induction false} InOrderHolds(cfg: Membership, run: seq<Action>, n: int)
    requires WellFormed(cfg) && Legal(cfg, run) && n in cfg
    ensures n in After(cfg, run).c.nodes && Sane(After(cfg, run).c.nodes[n]) && InOrder(After(cfg, run).c.nodes[n])
    decreases |run|
  {
    ElectionsHold(cfg, run);
    if run != [] {
      var last := |run| - 1;
      InOrderHolds(cfg, run[..last], n);
      InOrderHolds(cfg, run[..last], run[last].n);
      StepInOrder(cfg, After(cfg, run[..last]).c, run[last], n);
    }
  }

  /** In-order exactly-once application, even across truncation of the log: at every moment of every
      run the callbacks made are those for 1, 2, ..., `last_applied_`, and none is ever taken back. */
  lemma {:induction false} AppliedInOrder(cfg: Membership, run: seq<Action>, n: int, i: int)
    requires WellFormed(cfg) && Legal(cfg, run) && n in cfg && 0 <= i <= |run|
    ensures Legal(cfg, run[..i]) && n in After(cfg, run[..i]).c.nodes && n in After(cfg, run).c.nodes
    ensures InOrder(After(cfg, run).c.nodes[n])
    ensures After(cfg, run[..i]).c.nodes[n].delivered <= After(cfg, run).c.nodes[n].delivered
    decreases |run|
  {
    InOrderHolds(cfg, run, n);
    if i == |run| {
      assert run[..i] == run;
    } else {
      var last := |run| - 1;
      assert run[..last][..i] == run[..i];
      AppliedInOrder(cfg, run[..last], n, i);
      InOrderHolds(cfg, run[..last], run[last].n);
      StepInOrder(cfg, After(cfg, run[..last]).c, run[last], n);
    }
  }

  /** Every delivery of a message meets what its handler needs, so the side conditions on handling messages
      exclude no step: no log is read at a negative position. The side condition on heartbeats does exclude
      steps, those that read a log out of bounds; `RaftBounds` says exactly in which runs it excludes none. */
  lemma HandlersDefined(cfg: Membership, run: seq<Action>, m: Message)
    requires WellFormed(cfg) && Legal(cfg, run) && m in After(cfg, run).c.net && m.dst in cfg
    ensures
      var c := After(cfg, run).c;
      m.dst in c.nodes && match m
        case VoteRequest(_, _, n) => Enabled(cfg, c, OnVoteRequest(n, m))
        case VoteAnswer(_, _, n, _) => Enabled(cfg, c, OnVoteAnswer(n, m))
        case Append(_, _, n, _) => Enabled(cfg, c, OnAppend(n, m))
        case AppendAnswer(_, n, _, _) => Enabled(cfg, c, OnAppendAnswer(n, m))
  {
    LogsHold(cfg, run);
    InOrderHolds(cfg, run, m.dst);
    assert AppendOk(After(cfg, run).h, m);
  }
}
