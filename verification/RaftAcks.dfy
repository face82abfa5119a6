/** What an acknowledgement keeps meaning: a replica that held a leader's log up to a position
    still holds it, unless a later leader began without it. True of every run. */
module RaftAcks {
  import opened RaftNode
  import opened RaftCluster
  import opened RaftElection
  import opened RaftLogs

  /** The log of the leader of `term` on positions 0 to `upto`. */
  ghost function Held(h: Happened, term: int, upto: int): seq<Entry>
    requires term in h.reigns && 0 <= upto < |h.reigns[term].log|
  {
    h.reigns[term].log[..upto + 1]
  }

  ghost predicate AckInRange(h: Happened, k: Ack) {
    k.term in h.reigns && 0 <= k.upto < |h.reigns[k.term].log|
  }

  /** A leader of a later term began without the acknowledged prefix. */
  ghost predicate BeganWithout(h: Happened, k: Ack, u: int)
    requires AckInRange(h, k)
  {
    k.term < u && u in h.reigns && !(Held(h, k.term, k.upto) <= h.reigns[u].init)
  }

  ghost predicate Retained(h: Happened, k: Ack, log: seq<Entry>, bound: int)
    requires AckInRange(h, k)
  {
    Held(h, k.term, k.upto) <= log || exists u :: BeganWithout(h, k, u) && u <= bound
  }

  ghost predicate VoteRetains(h: Happened, k: Ack, u: int)
    requires AckInRange(h, k)
  {
    (u, k.node) in h.votes && k.term < u ==> Retained(h, k, h.votes[(u, k.node)].log, u)
  }

  ghost predicate VoterRetains(h: Happened, k: Ack, u: int)
    requires AckInRange(h, k)
  {
    u in h.reigns && k.node in h.reigns[u].voters && k.term < u && (u, k.node) in h.votes ==>
      Retained(h, k, h.votes[(u, k.node)].log, u - 1)
  }

  ghost predicate AckOk(cfg: Membership, w: World, k: Ack) {
    && k.node in cfg && k.node in w.c.nodes && AckInRange(w.h, k)
    && k.term <= w.c.nodes[k.node].term
    && Retained(w.h, k, w.c.nodes[k.node].log, w.c.nodes[k.node].term)
    && (forall u {:trigger VoteRetains(w.h, k, u)} :: VoteRetains(w.h, k, u))
    && (forall u {:trigger VoterRetains(w.h, k, u)} :: VoterRetains(w.h, k, u))
  }

  ghost predicate Acks(cfg: Membership, w: World) {
    && (forall k {:trigger AckOk(cfg, w, k)} :: k in w.h.acks ==> AckOk(cfg, w, k))
    && (forall m <- w.c.net | m.AppendAnswer? && m.reply.accepted :: AcksUpTo(m.src, m.reply.term, m.sent) <= w.h.acks)
  }

  // ----- Steps

  /** The leader commits in this step. */
  predicate Commits(s: State, s': State, a: Action) {
    a.OnAppendAnswer? && s'.commitIndex != s.commitIndex
  }

  /** The acknowledgements a follower gives when it takes entries. */
  function AppendAcks(a: Action): set<Ack>
    requires a.OnAppend? && a.m.Append?
  {
    AcksUpTo(a.n, a.m.term, a.m.args.prevIndex + |a.m.args.entries|)
  }

  ghost predicate AckStep(cfg: Membership, w: World, a: Action, w': World) {
    && LogStep(cfg, w, a, w') && Logs(cfg, w') && Acks(cfg, w)
    && (var s, s' := w.c.nodes[a.n], w'.c.nodes[a.n];
        && w'.h.acks == w.h.acks
            + (if Appends(s, a) then AppendAcks(a) else {})
            + (if Commits(s, s', a) then AcksUpTo(a.n, s.term, s'.commitIndex) else {})
        && (Commits(s, s', a) ==> s.role == Leader && s'.role == Leader && s'.log == s.log && s'.term == s.term
                                  && 0 <= s'.commitIndex < |s.log|)
        && (forall m <- w'.c.net | m !in w.c.net && m.AppendAnswer? && m.reply.accepted ::
              AcksUpTo(m.src, m.reply.term, m.sent) <= w'.h.acks))
  }

  lemma AckInRangeGrows(h: Happened, h': Happened, k: Ack)
    requires AckInRange(h, k) && Grows(h, h')
    ensures AckInRange(h', k) && Held(h', k.term, k.upto) == Held(h, k.term, k.upto)
    ensures forall u :: BeganWithout(h, k, u) ==> BeganWithout(h', k, u)
  {
  }

  lemma RetainedGrows(h: Happened, h': Happened, k: Ack, log: seq<Entry>, log': seq<Entry>, bound: int, bound': int)
    requires AckInRange(h, k) && Grows(h, h') && Retained(h, k, log, bound) && bound <= bound' && log <= log'
    ensures AckInRange(h', k) && Retained(h', k, log', bound')
  {
    AckInRangeGrows(h, h', k);
    if !(Held(h, k.term, k.upto) <= log) {
      var u :| BeganWithout(h, k, u) && u <= bound;
      assert BeganWithout(h', k, u);
    }
  }

  lemma MergeKeepsCommon(held: seq<Entry>, log: seq<Entry>, lead: seq<Entry>, last: int)
    requires 0 <= last <= |lead| && held <= log && held <= lead
    ensures held <= if lead[..last] <= log then log else lead[..last]
  {
  }

  /** Taking entries from a later leader keeps the prefix, or that leader began without it. */
  lemma AppendRetains(cfg: Membership, w: World, a: Action, k: Ack)
    requires Elections(cfg, w) && Logs(cfg, w) && a.n in cfg && Appends(w.c.nodes[a.n], a) && a.m in w.c.net
    requires AckOk(cfg, w, k) && k.node == a.n
    ensures
      var s, args := w.c.nodes[a.n], a.m.args;
      Retained(w.h, k, MergeEntries(s.log, args.prevIndex, args.entries), a.m.term)
  {
    var s := w.c.nodes[a.n];
    AppendMerges(cfg, w, a);
    var held := Held(w.h, k.term, k.upto);
    var lead := w.h.reigns[a.m.term].log;
    if held <= s.log && held <= lead {
      MergeKeepsCommon(held, s.log, lead, a.m.args.prevIndex + |a.m.args.entries| + 1);
    } else if held <= s.log {
      assert ReignLogOk(w.h, a.m.term);
      assert BeganWithout(w.h, k, a.m.term);
    } else {
      var u :| BeganWithout(w.h, k, u) && u <= s.term;
    }
  }

  lemma LogRetains(cfg: Membership, w: World, a: Action, w': World, k: Ack)
    requires AckStep(cfg, w, a, w') && k in w.h.acks
    ensures AckInRange(w'.h, k) && k.node in w'.c.nodes
    ensures Retained(w'.h, k, w'.c.nodes[k.node].log, w'.c.nodes[k.node].term)
  {
    assert AckOk(cfg, w, k);
    if k.node == a.n && Appends(w.c.nodes[a.n], a) {
      AppendRetains(cfg, w, a, k);
      var log' := w'.c.nodes[a.n].log;
      RetainedGrows(w.h, w'.h, k, log', log', a.m.term, a.m.term);
    } else {
      RetainedGrows(w.h, w'.h, k, w.c.nodes[k.node].log, w'.c.nodes[k.node].log,
                    w.c.nodes[k.node].term, w'.c.nodes[k.node].term);
    }
  }

  lemma VotesStillRetain(cfg: Membership, w: World, a: Action, w': World, k: Ack)
    requires AckStep(cfg, w, a, w') && k in w.h.acks
    ensures AckInRange(w'.h, k) && forall u {:trigger VoteRetains(w'.h, k, u)} :: VoteRetains(w'.h, k, u)
  {
    assert AckOk(cfg, w, k);
    AckInRangeGrows(w.h, w'.h, k);
    forall u | (u, k.node) in w'.h.votes && k.term < u
      ensures Retained(w'.h, k, w'.h.votes[(u, k.node)].log, u)
    {
      if (u, k.node) in w.h.votes {
        assert VoteRetains(w.h, k, u);
        var log := w.h.votes[(u, k.node)].log;
        RetainedGrows(w.h, w'.h, k, log, log, u, u);
      } else {
        var log := w.c.nodes[a.n].log;
        RetainedGrows(w.h, w'.h, k, log, log, w.c.nodes[a.n].term, u);
      }
    }
  }

  /** When a leadership begins, no leader of its own term can be the one that began without the prefix. */
  lemma NewVotersRetain(cfg: Membership, w: World, a: Action, w': World, k: Ack)
    requires AckStep(cfg, w, a, w') && k in w.h.acks && Wins(w.c.nodes[a.n], w'.c.nodes[a.n])
    requires k.node in w'.c.nodes[a.n].votes && k.term < w'.c.nodes[a.n].term
    ensures AckInRange(w'.h, k)
    ensures
      var u := w'.c.nodes[a.n].term;
      (u, k.node) in w'.h.votes ==> Retained(w'.h, k, w'.h.votes[(u, k.node)].log, u - 1)
  {
    var s, s' := w.c.nodes[a.n], w'.c.nodes[a.n];
    assert AckOk(cfg, w, k);
    WinsFreshTerm(cfg, w, a, w');
    if Counts(s, s', a) {
      assert Voted(w.h, s'.term, k.node, a.n) && VoteRetains(w.h, k, s'.term);
      VoteRetainsEarlier(w.h, w'.h, k, s'.term);
    } else {
      RetainedGrows(w.h, w'.h, k, s.log, s.log, s.term, s'.term - 1);
    }
  }

  lemma VoteRetainsEarlier(h: Happened, h': Happened, k: Ack, u: int)
    requires AckInRange(h, k) && Grows(h, h') && VoteRetains(h, k, u)
    requires (u, k.node) in h.votes && k.term < u && u !in h.reigns
    ensures AckInRange(h', k) && (u, k.node) in h'.votes && Retained(h', k, h'.votes[(u, k.node)].log, u - 1)
  {
    var log := h.votes[(u, k.node)].log;
    assert Retained(h, k, log, u - 1);
    RetainedGrows(h, h', k, log, log, u - 1, u - 1);
  }

  lemma VoterStillRetains(cfg: Membership, w: World, a: Action, w': World, k: Ack, u: int)
    requires AckStep(cfg, w, a, w') && k in w.h.acks && AckOk(cfg, w, k)
    requires u in w.h.reigns && k.node in w.h.reigns[u].voters && k.term < u
    ensures AckInRange(w'.h, k)
    ensures (u, k.node) in w'.h.votes && Retained(w'.h, k, w'.h.votes[(u, k.node)].log, u - 1)
  {
    assert ReignOk(cfg, w.h, u) && Voted(w.h, u, k.node, w.h.reigns[u].leader) && VoterRetains(w.h, k, u);
    var log := w.h.votes[(u, k.node)].log;
    RetainedGrows(w.h, w'.h, k, log, log, u - 1, u - 1);
  }

  lemma NewReignIsMovers(cfg: Membership, w: World, a: Action, w': World, u: int)
    requires ElectionStep(cfg, w, a, w') && u in w'.h.reigns && u !in w.h.reigns
    ensures
      var s, s' := w.c.nodes[a.n], w'.c.nodes[a.n];
      Wins(s, s') && u == s'.term && w'.h.reigns[u].voters == s'.votes
  {
  }

  lemma VotersStillRetain(cfg: Membership, w: World, a: Action, w': World, k: Ack)
    requires AckStep(cfg, w, a, w') && k in w.h.acks
    ensures AckInRange(w'.h, k) && forall u {:trigger VoterRetains(w'.h, k, u)} :: VoterRetains(w'.h, k, u)
  {
    assert AckOk(cfg, w, k);
    AckInRangeGrows(w.h, w'.h, k);
    forall u | u in w'.h.reigns && k.node in w'.h.reigns[u].voters && k.term < u && (u, k.node) in w'.h.votes
      ensures Retained(w'.h, k, w'.h.votes[(u, k.node)].log, u - 1)
    {
      if u in w.h.reigns {
        VoterStillRetains(cfg, w, a, w', k, u);
      } else {
        NewReignIsMovers(cfg, w, a, w', u);
        NewVotersRetain(cfg, w, a, w', k);
      }
    }
  }

  /** An acknowledgement given in the current term holds of the log as it is. */
  lemma FreshAck(cfg: Membership, w: World, k: Ack)
    requires Elections(cfg, w) && k.node in cfg && AckInRange(w.h, k)
    requires k.term == w.c.nodes[k.node].term && Held(w.h, k.term, k.upto) <= w.c.nodes[k.node].log
    ensures AckOk(cfg, w, k)
  {
    forall u <- w.h.reigns | k.node in w.h.reigns[u].voters ensures u <= k.term {
      assert ReignOk(cfg, w.h, u) && Voted(w.h, u, k.node, w.h.reigns[u].leader);
    }
  }

  lemma AppendAckHolds(cfg: Membership, w: World, a: Action, k: Ack)
    requires Elections(cfg, w) && Logs(cfg, w) && a.n in cfg && Appends(w.c.nodes[a.n], a) && a.m in w.c.net
    requires k in AppendAcks(a)
    ensures
      var s, args := w.c.nodes[a.n], a.m.args;
      AckInRange(w.h, k) && Held(w.h, k.term, k.upto) <= MergeEntries(s.log, args.prevIndex, args.entries)
  {
    AppendMerges(cfg, w, a);
  }

  /** Whoever acknowledges holds the prefix, in the term of the acknowledgement, at that very moment. */
  lemma NewAckHeld(cfg: Membership, w: World, a: Action, w': World, k: Ack)
    requires AckStep(cfg, w, a, w') && k in w'.h.acks && k !in w.h.acks
    ensures k.node in cfg && AckInRange(w'.h, k)
    ensures k.term == w'.c.nodes[k.node].term && Held(w'.h, k.term, k.upto) <= w'.c.nodes[k.node].log
  {
    var s, s' := w.c.nodes[a.n], w'.c.nodes[a.n];
    if Appends(s, a) {
      AppendAckHolds(cfg, w, a, k);
      AckInRangeGrows(w.h, w'.h, k);
    } else {
      assert LeaderOk(w'.h, a.n, s');
    }
  }

  lemma NewAckOk(cfg: Membership, w: World, a: Action, w': World, k: Ack)
    requires AckStep(cfg, w, a, w') && k in w'.h.acks && k !in w.h.acks
    ensures AckOk(cfg, w', k)
  {
    NewAckHeld(cfg, w, a, w', k);
    FreshAck(cfg, w', k);
  }

  lemma AcksKept(cfg: Membership, w: World, a: Action, w': World)
    requires AckStep(cfg, w, a, w')
    ensures Acks(cfg, w')
  {
    forall k | k in w'.h.acks ensures AckOk(cfg, w', k) {
      if k in w.h.acks {
        assert AckOk(cfg, w, k);
        LogRetains(cfg, w, a, w', k);
        VotesStillRetain(cfg, w, a, w', k);
        VotersStillRetain(cfg, w, a, w', k);
      } else {
        NewAckOk(cfg, w, a, w', k);
      }
    }
  }

  lemma CommitMove(cfg: Membership, c: Cluster, a: Action)
    requires Enabled(cfg, c, a)
    ensures
      var s, s' := c.nodes[a.n], NodeAfter(cfg, c, a);
      Commits(s, s', a) ==> s.role == Leader && s'.role == Leader && s'.log == s.log && s'.term == s.term
                            && 0 <= s'.commitIndex < |s.log|
  {
  }

  lemma AckSend(cfg: Membership, w: World, a: Action)
    requires Enabled(cfg, w.c, a)
    ensures forall m <- Sends(cfg, w.c, a) | m.AppendAnswer? && m.reply.accepted ::
              AcksUpTo(m.src, m.reply.term, m.sent) <= Next(cfg, w, a).h.acks
  {
  }

  lemma RememberedAcks(h: Happened, n: int, s: State, s': State, a: Action)
    requires n == a.n
    ensures Remember(h, n, s, s', a).acks == h.acks
              + (if Appends(s, a) then AppendAcks(a) else {})
              + (if Commits(s, s', a) then AcksUpTo(n, s.term, s'.commitIndex) else {})
  {
  }

  lemma AcksStep(cfg: Membership, w: World, a: Action)
    requires WellFormed(cfg) && Elections(cfg, w) && Logs(cfg, w) && Acks(cfg, w) && Enabled(cfg, w.c, a)
    ensures AckStep(cfg, w, a, Next(cfg, w, a)) && Acks(cfg, Next(cfg, w, a))
  {
    LogsStep(cfg, w, a);
    CommitMove(cfg, w.c, a);
    AckSend(cfg, w, a);
    RememberedAcks(w.h, a.n, w.c.nodes[a.n], NodeAfter(cfg, w.c, a), a);
    AcksKept(cfg, w, a, Next(cfg, w, a));
  }

  lemma {:induction false} AcksHold(cfg: Membership, run: seq<Action>)
    requires WellFormed(cfg) && Legal(cfg, run)
    ensures Elections(cfg, After(cfg, run)) && Logs(cfg, After(cfg, run)) && Acks(cfg, After(cfg, run))
  {
    LogsHold(cfg, run);
    if run != [] {
      var n := |run| - 1;
      AcksHold(cfg, run[..n]);
      AcksStep(cfg, After(cfg, run[..n]), run[n]);
    }
  }

  // ----- What an acknowledgement says of the past

  /** After the first `i` steps of the run, `v` was in the term and held the prefix. */
  ghost predicate HeldAt(cfg: Membership, run: seq<Action>, i: int, v: int, term: int, prefix: seq<Entry>) {
    && 0 <= i <= |run| && Legal(cfg, run[..i])
    && var nodes := After(cfg, run[..i]).c.nodes;
    && v in nodes && nodes[v].term == term && prefix <= nodes[v].log
  }

  lemma HeldEarlier(cfg: Membership, run: seq<Action>, i: int, k: Ack)
    requires WellFormed(cfg) && Legal(cfg, run) && run != []
    requires AckInRange(After(cfg, run[..|run| - 1]).h, k)
    requires HeldAt(cfg, run[..|run| - 1], i, k.node, k.term, Held(After(cfg, run[..|run| - 1]).h, k.term, k.upto))
    ensures AckInRange(After(cfg, run).h, k)
    ensures HeldAt(cfg, run, i, k.node, k.term, Held(After(cfg, run).h, k.term, k.upto))
  {
    HistoryOnlyGrows(cfg, run, |run| - 1);
    AckInRangeGrows(After(cfg, run[..|run| - 1]).h, After(cfg, run).h, k);
    assert run[..|run| - 1][..i] == run[..i];
  }

  lemma StepAckHeld(cfg: Membership, w: World, a: Action, k: Ack)
    requires WellFormed(cfg) && Elections(cfg, w) && Logs(cfg, w) && Acks(cfg, w) && Enabled(cfg, w.c, a)
    requires k in Next(cfg, w, a).h.acks && k !in w.h.acks
    ensures
      var w' := Next(cfg, w, a);
      && AckInRange(w'.h, k) && k.node in w'.c.nodes
      && k.term == w'.c.nodes[k.node].term && Held(w'.h, k.term, k.upto) <= w'.c.nodes[k.node].log
  {
    AcksStep(cfg, w, a);
    NewAckHeld(cfg, w, a, Next(cfg, w, a), k);
  }

  lemma HeldNow(cfg: Membership, run: seq<Action>, k: Ack)
    requires WellFormed(cfg) && Legal(cfg, run) && run != []
    requires k in After(cfg, run).h.acks && k !in After(cfg, run[..|run| - 1]).h.acks
    ensures AckInRange(After(cfg, run).h, k)
    ensures HeldAt(cfg, run, |run|, k.node, k.term, Held(After(cfg, run).h, k.term, k.upto))
  {
    var last := |run| - 1;
    AcksHold(cfg, run[..last]);
    StepAckHeld(cfg, After(cfg, run[..last]), run[last], k);
    assert run[..|run|] == run;
  }

  /** Every acknowledgement was true once: at some moment of the run the replica held the leader's log
      up to there while in the leader's term. */
  lemma {:induction false} AckedAtSomeMoment(cfg: Membership, run: seq<Action>, k: Ack)
    requires WellFormed(cfg) && Legal(cfg, run) && k in After(cfg, run).h.acks
    ensures AckInRange(After(cfg, run).h, k)
    ensures exists i :: HeldAt(cfg, run, i, k.node, k.term, Held(After(cfg, run).h, k.term, k.upto))
    decreases |run|
  {
    if k in After(cfg, run[..|run| - 1]).h.acks {
      AckedAtSomeMoment(cfg, run[..|run| - 1], k);
      var i :| HeldAt(cfg, run[..|run| - 1], i, k.node, k.term, Held(After(cfg, run[..|run| - 1]).h, k.term, k.upto));
      HeldEarlier(cfg, run, i, k);
    } else {
      HeldNow(cfg, run, k);
    }
  }
}
