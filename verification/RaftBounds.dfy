/** When a leader's heartbeats stay inside its log: exactly when no success reply that it counts, whatever
    the term of the reply, tells of a position its log does not have. */
module RaftBounds {
  import opened RaftNode
  import opened RaftCluster
  import opened RaftElection
  import opened RaftAcks
  import opened RaftCommit

  /** Every leader could build its heartbeats now. */
  ghost predicate HeartbeatsDefined(cfg: Membership, c: Cluster) {
    forall n <- cfg :: n in c.nodes &&
      (c.nodes[n].role == Leader ==> forall p <- cfg[n] :: HeartbeatDefined(c.nodes[n], p))
  }

  /** A success reply that a leader counts is for a position of its log. */
  predicate ReplyFits(c: Cluster, a: Action)
    requires a.n in c.nodes
  {
    var s := c.nodes[a.n];
    && a.OnAppendAnswer? && a.m.AppendAnswer? && a.m.reply.accepted
    && s.running && s.role == Leader && a.m.reply.term <= s.term
    ==> a.m.sent < |s.log|
  }

  predicate RepliesFit(cfg: Membership, run: seq<Action>)
    requires Legal(cfg, run)
  {
    run == [] ||
    var n := |run| - 1;
    RepliesFit(cfg, run[..n]) && ReplyFits(After(cfg, run[..n]).c, run[n])
  }

  // ----- Messages travel between peers

  ghost predicate Travels(cfg: Membership, m: Message) {
    && (m.Append? ==> m.src in cfg && m.dst in cfg && m.dst in cfg[m.src])
    && (m.AppendAnswer? ==> m.dst in cfg && m.src in cfg[m.dst] && m.reply.kind == AppendReplyKind)
  }

  ghost predicate AllTravel(cfg: Membership, c: Cluster) {
    forall m {:trigger Travels(cfg, m)} :: m in c.net ==> Travels(cfg, m)
  }

  lemma SentTravels(cfg: Membership, c: Cluster, a: Action, m: Message)
    requires WellFormed(cfg) && Enabled(cfg, c, a) && AllTravel(cfg, c) && m in Sends(cfg, c, a)
    ensures Travels(cfg, m)
  {
    if a.OnAppend? {
      assert Travels(cfg, a.m);
    }
  }

  lemma {:induction false} MessagesTravel(cfg: Membership, run: seq<Action>)
    requires WellFormed(cfg) && Legal(cfg, run)
    ensures AllTravel(cfg, After(cfg, run).c)
  {
    if run != [] {
      var n := |run| - 1;
      MessagesTravel(cfg, run[..n]);
      var c := After(cfg, run[..n]).c;
      forall m | m in After(cfg, run).c.net ensures Travels(cfg, m) {
        if m !in c.net {
          SentTravels(cfg, c, run[n], m);
        }
      }
    }
  }

  // ----- One step

  /** A leader's indices for a peer lie inside its log. */
  ghost predicate InBounds(s: State, p: int) {
    HeartbeatDefined(s, p) && 0 <= Get(s.matchIndex, p) < |s.log|
  }

  ghost predicate AllInBounds(cfg: Membership, c: Cluster) {
    forall n <- cfg :: n in c.nodes && (c.nodes[n].role == Leader ==> forall p <- cfg[n] :: InBounds(c.nodes[n], p))
  }

  /** A counted success reply leaves the next index inside the log exactly when its position is in the log. */
  lemma ReplyDecides(s: State, peers: seq<int>, p: int, reply: Reply, sent: int)
    requires Sane(s) && 0 <= s.commitIndex && s.running && s.role == Leader
    requires reply.kind == AppendReplyKind && reply.accepted && reply.term <= s.term && InBounds(s, p)
    ensures
      var s' := HandleAppendReply(s, peers, p, reply, sent);
      s'.role == Leader && s'.log == s.log && (HeartbeatDefined(s', p) <==> sent < |s.log|)
  {
  }

  lemma ReplyKeepsBounds(s: State, peers: seq<int>, a: Action, p: int)
    requires a.OnAppendAnswer? && a.m.AppendAnswer? && Sane(s) && 0 <= s.commitIndex
    requires s.role == Leader ==> InBounds(s, p)
    requires a.m.reply.accepted && s.running && s.role == Leader && a.m.reply.term <= s.term ==> a.m.sent < |s.log|
    ensures
      var s' := HandleAppendReply(s, peers, a.m.src, a.m.reply, a.m.sent);
      s'.role == Leader ==> InBounds(s', p)
  {
  }

  lemma OthersKeepBounds(s: State, s': State, a: Action, p: int)
    requires !a.OnAppendAnswer? && PeerMove(s, s', a, p) && |s'.log| > 0
    requires Wins(s, s') || (s.role == Leader && s.log <= s'.log && InBounds(s, p))
    ensures InBounds(s', p)
  {
  }

  lemma StepInBounds(cfg: Membership, w: World, a: Action)
    requires WellFormed(cfg) && Elections(cfg, w) && Enabled(cfg, w.c, a) && AllInBounds(cfg, w.c) && ReplyFits(w.c, a)
    ensures AllInBounds(cfg, Next(cfg, w, a).c)
  {
    MovesAreCommitMoves(cfg, w.c, a);
    MovesAreElectionMoves(cfg, w.c, a);
    var s, s' := w.c.nodes[a.n], NodeAfter(cfg, w.c, a);
    forall p | p in cfg[a.n] && s'.role == Leader ensures InBounds(s', p) {
      if a.OnAppendAnswer? {
        ReplyKeepsBounds(s, cfg[a.n], a, p);
      } else {
        OthersKeepBounds(s, s', a, p);
      }
    }
  }

  lemma {:induction false} FittingRepliesKeepBounds(cfg: Membership, run: seq<Action>)
    requires WellFormed(cfg) && Legal(cfg, run) && RepliesFit(cfg, run)
    ensures AllInBounds(cfg, After(cfg, run).c)
  {
    if run != [] {
      var n := |run| - 1;
      FittingRepliesKeepBounds(cfg, run[..n]);
      ElectionsHold(cfg, run[..n]);
      StepInBounds(cfg, After(cfg, run[..n]), run[n]);
    }
  }

  /** A reply that does not fit takes the next index out of the log at once. */
  lemma MisfitBreaks(cfg: Membership, w: World, a: Action)
    requires WellFormed(cfg) && Enabled(cfg, w.c, a) && AllTravel(cfg, w.c) && AllInBounds(cfg, w.c)
    requires !ReplyFits(w.c, a)
    ensures !HeartbeatsDefined(cfg, Next(cfg, w, a).c)
  {
    assert Travels(cfg, a.m);
    ReplyDecides(w.c.nodes[a.n], cfg[a.n], a.m.src, a.m.reply, a.m.sent);
  }

  // ----- Main results

  /** Heartbeats are defined after every prefix of the run. */
  ghost predicate AlwaysDefined(cfg: Membership, run: seq<Action>)
    requires Legal(cfg, run)
  {
    forall i {:trigger DefinedAfter(cfg, run, i)} :: 0 <= i <= |run| ==> DefinedAfter(cfg, run, i)
  }

  ghost predicate DefinedAfter(cfg: Membership, run: seq<Action>, i: int) {
    0 <= i <= |run| && Legal(cfg, run[..i]) && HeartbeatsDefined(cfg, After(cfg, run[..i]).c)
  }

  lemma DefinedBefore(cfg: Membership, run: seq<Action>, i: int)
    requires Legal(cfg, run) && run != [] && 0 <= i < |run|
    ensures DefinedAfter(cfg, run[..|run| - 1], i) <==> DefinedAfter(cfg, run, i)
  {
    assert run[..|run| - 1][..i] == run[..i];
  }

  lemma {:induction false} FittingIsSafe(cfg: Membership, run: seq<Action>)
    requires WellFormed(cfg) && Legal(cfg, run) && RepliesFit(cfg, run)
    ensures AlwaysDefined(cfg, run)
  {
    forall i | 0 <= i <= |run| ensures DefinedAfter(cfg, run, i) {
      if i == |run| {
        assert run[..i] == run;
        FittingRepliesKeepBounds(cfg, run);
      } else {
        FittingIsSafe(cfg, run[..|run| - 1]);
        assert DefinedAfter(cfg, run[..|run| - 1], i);
        DefinedBefore(cfg, run, i);
      }
    }
  }

  lemma {:induction false} SafeIsFitting(cfg: Membership, run: seq<Action>)
    requires WellFormed(cfg) && Legal(cfg, run) && AlwaysDefined(cfg, run)
    ensures RepliesFit(cfg, run)
  {
    if run != [] {
      var last := |run| - 1;
      forall i | 0 <= i <= last ensures DefinedAfter(cfg, run[..last], i) {
        assert DefinedAfter(cfg, run, i);
        DefinedBefore(cfg, run, i);
      }
      SafeIsFitting(cfg, run[..last]);
      FittingRepliesKeepBounds(cfg, run[..last]);
      MessagesTravel(cfg, run[..last]);
      assert run[..|run|] == run && DefinedAfter(cfg, run, |run|);
      if !ReplyFits(After(cfg, run[..last]).c, run[last]) {
        MisfitBreaks(cfg, After(cfg, run[..last]), run[last]);
      }
    }
  }

  /** The exact condition: leaders can build their heartbeats at every moment of a run if and only if each
      success reply a leader counts in it is for a position of the leader's log. */
  lemma HeartbeatsDefinedExactly(cfg: Membership, run: seq<Action>)
    requires WellFormed(cfg) && Legal(cfg, run)
    ensures AlwaysDefined(cfg, run) <==> RepliesFit(cfg, run)
  {
    if RepliesFit(cfg, run) {
      FittingIsSafe(cfg, run);
    }
    if AlwaysDefined(cfg, run) {
      SafeIsFitting(cfg, run);
    }
  }

  /** An acknowledged position of the current term lies inside the leader's log. */
  lemma MatchInLog(cfg: Membership, w: World, n: int, p: int, j: int)
    requires Elections(cfg, w) && Acks(cfg, w) && n in cfg && w.c.nodes[n].role == Leader
    requires Ack(p, w.c.nodes[n].term, j) in w.h.acks
    ensures j < |w.c.nodes[n].log|
  {
    assert AckOk(cfg, w, Ack(p, w.c.nodes[n].term, j));
    assert LeaderOk(w.h, n, w.c.nodes[n]);
  }

  /** A reply handled in its own term is for a position of the leader's log. */
  lemma SameTermFits(cfg: Membership, w: World, a: Action)
    requires Elections(cfg, w) && Acks(cfg, w) && Enabled(cfg, w.c, a) && SameTermReply(w.c, a)
    ensures ReplyFits(w.c, a)
  {
    if a.OnAppendAnswer? && a.m.reply.accepted && 0 <= a.m.sent && w.c.nodes[a.n].role == Leader
       && a.m.reply.term == w.c.nodes[a.n].term {
      assert Ack(a.m.src, a.m.reply.term, a.m.sent) in AcksUpTo(a.m.src, a.m.reply.term, a.m.sent);
      MatchInLog(cfg, w, a.n, a.m.src, a.m.sent);
    } else {
      assert LeaderOk(w.h, a.n, w.c.nodes[a.n]);
    }
  }

  lemma {:induction false} SameTermRepliesFit(cfg: Membership, run: seq<Action>)
    requires WellFormed(cfg) && Legal(cfg, run) && SameTermReplies(cfg, run)
    ensures RepliesFit(cfg, run)
  {
    if run != [] {
      var n := |run| - 1;
      SameTermRepliesFit(cfg, run[..n]);
      AcksHold(cfg, run[..n]);
      SameTermFits(cfg, After(cfg, run[..n]), run[n]);
    }
  }

  /** With same-term replies no heartbeat reads the log out of bounds. */
  lemma HeartbeatsInBounds(cfg: Membership, run: seq<Action>, n: int, p: int)
    requires WellFormed(cfg) && Legal(cfg, run) && SameTermReplies(cfg, run)
    requires n in cfg && p in cfg[n]
    ensures n in After(cfg, run).c.nodes
    ensures
      var s := After(cfg, run).c.nodes[n];
      s.role == Leader ==> HeartbeatDefined(s, p) && 0 <= Get(s.matchIndex, p) < |s.log|
  {
    SameTermRepliesFit(cfg, run);
    FittingRepliesKeepBounds(cfg, run);
    if After(cfg, run).c.nodes[n].role == Leader {
      assert InBounds(After(cfg, run).c.nodes[n], p);
    }
  }
}
