/** Section 5.3: every log is made of prefixes of leaders' logs; Log Matching, for every run. */
module RaftLogs {
  import opened RaftNode
  import opened RaftCluster
  import opened RaftElection

  // ----- Logs and the logs of leaders

  /** Up to and including position `x`, the log is that of the leader of the term at `x`. */
  ghost predicate EntryOk(h: Happened, log: seq<Entry>, x: int)
    requires 0 <= x < |log|
  {
    var t := log[x].term;
    && 1 <= t && t in h.reigns && x < |h.reigns[t].log|
    && log[..x + 1] == h.reigns[t].log[..x + 1]
    && log[x].index == x
  }

  ghost predicate LogOk(h: Happened, log: seq<Entry>) {
    |log| > 0 && log[0] == SENTINEL && forall x :: 1 <= x < |log| ==> EntryOk(h, log, x)
  }

  ghost predicate TermsUpTo(log: seq<Entry>, term: int) {
    forall x :: 0 <= x < |log| ==> log[x].term <= term
  }

  lemma LogOkGrows(h: Happened, h': Happened, log: seq<Entry>)
    requires LogOk(h, log) && Grows(h, h')
    ensures LogOk(h', log)
  {
    forall x | 1 <= x < |log| ensures EntryOk(h', log, x) {
      assert EntryOk(h, log, x);
    }
  }

  lemma LogOkPrefix(h: Happened, log: seq<Entry>, n: int)
    requires LogOk(h, log) && 0 < n <= |log|
    ensures LogOk(h, log[..n])
  {
    forall x | 1 <= x < n ensures EntryOk(h, log[..n], x) {
      assert EntryOk(h, log, x);
      assert log[..n][..x + 1] == log[..x + 1];
    }
  }

  /** Log Matching, for any two logs built from leaders' logs. */
  lemma Matching(h: Happened, a: seq<Entry>, b: seq<Entry>, x: int)
    requires LogOk(h, a) && LogOk(h, b)
    requires 0 <= x < |a| && x < |b| && a[x].term == b[x].term
    ensures a[..x + 1] == b[..x + 1]
  {
    if x > 0 {
      assert EntryOk(h, a, x) && EntryOk(h, b, x);
    }
  }

  /** A position holds term 0 only if it is the sentinel's. */
  lemma PositiveTerms(h: Happened, log: seq<Entry>, x: int)
    requires LogOk(h, log) && 1 <= x < |log|
    ensures log[x].term >= 1 && log[x].index == x
  {
    assert EntryOk(h, log, x);
  }

  // ----- Merging a leader's entries into a log

  /** `entries` are those of `lead` after position `index`. */
  predicate SliceOf(lead: seq<Entry>, index: int, entries: seq<Entry>) {
    && 0 <= index && index + |entries| < |lead|
    && entries == lead[index + 1..index + 1 + |entries|]
  }

  /** The two logs agree below any position where they hold the same term. */
  ghost predicate Compatible(a: seq<Entry>, b: seq<Entry>) {
    forall x :: 0 <= x < |a| && x < |b| && a[x].term == b[x].term ==> a[..x + 1] == b[..x + 1]
  }

  /** At the first entry the follower lacks or holds with another term, it takes the leader's prefix. */
  lemma Diverges(log: seq<Entry>, index: int, entries: seq<Entry>, lead: seq<Entry>)
    requires 0 <= index < |log| && SliceOf(lead, index, entries) && entries != []
    requires log[..index + 1] == lead[..index + 1]
    requires index + 1 < |log| ==> log[index + 1].term != lead[index + 1].term
    ensures MergeEntries(log, index, entries) == MergeEntries(lead[..index + 2], index + 1, entries[1..])
    ensures forall last :: index + 2 <= last <= |lead| ==> !(lead[..last] <= log)
  {
    var i := index + 1;
    assert entries[0] == lead[i];
    assert lead[..i + 1] == lead[..i] + [entries[0]];
    assert i >= |log| ==> log == lead[..i];
    forall last | i + 1 <= last <= |lead| ensures !(lead[..last] <= log) {
      assert lead[..last][i] == lead[i];
    }
  }

  /** The follower keeps its log when it already holds the entries; otherwise it ends up with the
      leader's log up to the last entry sent, and loses only what disagreed with the leader. */
  lemma {:induction false} MergeResult(log: seq<Entry>, index: int, entries: seq<Entry>, lead: seq<Entry>)
    requires 0 <= index < |log| && SliceOf(lead, index, entries)
    requires log[..index + 1] == lead[..index + 1] && Compatible(log, lead)
    ensures
      var last := index + |entries| + 1;
      MergeEntries(log, index, entries) == if lead[..last] <= log then log else lead[..last]
    decreases |entries|
  {
    var i := index + 1;
    if entries == [] {
      assert lead[..i] <= log;
    } else {
      assert SliceOf(lead, i, entries[1..]) && entries[0] == lead[i];
      if i < |log| && log[i].term == lead[i].term {
        assert log[..i + 1] == lead[..i + 1];
        MergeResult(log, i, entries[1..], lead);
      } else {
        Diverges(log, index, entries, lead);
        var log1 := lead[..i + 1];
        assert Compatible(log1, lead);
        MergeResult(log1, i, entries[1..], lead);
        assert lead[..i + |entries|] <= log1 ==> lead[..i + |entries|] == log1;
      }
    }
  }

  // ----- The invariant

  /** An AppendEntries message carries a slice of the log of its term's leader. */
  ghost predicate AppendOk(h: Happened, m: Message) {
    m.Append? ==>
      && m.term in h.reigns && h.reigns[m.term].leader == m.src
      && SliceOf(h.reigns[m.term].log, m.args.prevIndex, m.args.entries)
      && m.args.prevTerm == h.reigns[m.term].log[m.args.prevIndex].term
  }

  ghost predicate VoteLogOk(h: Happened, k: (int, int))
    requires k in h.votes
  {
    && LogOk(h, h.votes[k].log) && TermsUpTo(h.votes[k].log, k.0)
    && (h.votes[k].candidate == k.1 ==> TermsUpTo(h.votes[k].log, k.0 - 1))
  }

  ghost predicate ReignLogOk(h: Happened, t: int)
    requires t in h.reigns
  {
    var r := h.reigns[t];
    && LogOk(h, r.log) && TermsUpTo(r.log, t)
    && |r.init| > 0 && r.init <= r.log && TermsUpTo(r.init, t - 1)
  }

  ghost predicate Logs(cfg: Membership, w: World)
    requires w.c.nodes.Keys == cfg.Keys
  {
    && (forall n <- cfg :: LogOk(w.h, w.c.nodes[n].log) && TermsUpTo(w.c.nodes[n].log, w.c.nodes[n].term))
    && (forall t {:trigger ReignLogOk(w.h, t)} :: t in w.h.reigns ==> ReignLogOk(w.h, t))
    && (forall k {:trigger VoteLogOk(w.h, k)} :: k in w.h.votes ==> VoteLogOk(w.h, k))
    && (forall m {:trigger AppendOk(w.h, m)} :: m in w.c.net ==> AppendOk(w.h, m))
    && (forall m <- w.c.net :: m.VoteRequest? ==> m.src != m.dst)
  }

  // ----- What a single step may do to logs

  predicate Appends(s: State, a: Action) {
    a.OnAppend? && a.m.Append? && s.term <= a.m.term && 0 <= a.m.args.prevIndex && PrefixMatches(s, a.m.args)
  }

  ghost predicate LogMove(s: State, s': State, a: Action) {
    if a.Submit? && s.role == Leader then s'.log == s.log + [Entry(s.term, |s.log|, a.command)] && s'.term == s.term
    else if Appends(s, a) then
      s'.log == MergeEntries(s.log, a.m.args.prevIndex, a.m.args.entries) && s'.term == a.m.term
    else s'.log == s.log
  }

  ghost predicate LogSend(cfg: Membership, n: int, s: State, m: Message) {
    && m.src == n
    && (m.VoteRequest? ==> m.dst != n)
    && (m.Append? ==> s.role == Leader && m.term == s.term
                      && SliceOf(s.log, m.args.prevIndex, m.args.entries)
                      && m.args.prevTerm == s.log[m.args.prevIndex].term)
  }

  lemma MovesAreLogMoves(cfg: Membership, c: Cluster, a: Action)
    requires WellFormed(cfg) && Enabled(cfg, c, a)
    ensures LogMove(c.nodes[a.n], NodeAfter(cfg, c, a), a)
  {
  }

  lemma SendsAreLogSends(cfg: Membership, c: Cluster, a: Action)
    requires WellFormed(cfg) && Enabled(cfg, c, a)
    ensures forall m <- Sends(cfg, c, a) :: LogSend(cfg, a.n, c.nodes[a.n], m)
  {
    forall m | m in Sends(cfg, c, a) ensures LogSend(cfg, a.n, c.nodes[a.n], m) {
      if m.Append? {
        var p :| p in cfg[a.n] && m == Append(c.nodes[a.n].term, a.n, p, HeartbeatArgs(c.nodes[a.n], p));
        var log := c.nodes[a.n].log;
        var next := Get(c.nodes[a.n].nextIndex, p);
        assert log[next..] == log[next..next + |log[next..]|];
      }
    }
  }

  // ----- Preservation

  ghost predicate LogStep(cfg: Membership, w: World, a: Action, w': World) {
    && ElectionStep(cfg, w, a, w') && Elections(cfg, w') && Grows(w.h, w'.h)
    && Logs(cfg, w)
    && LogMove(w.c.nodes[a.n], w'.c.nodes[a.n], a)
    && (forall m <- w'.c.net :: m in w.c.net || LogSend(cfg, a.n, w.c.nodes[a.n], m))
    && (a.OnVoteRequest? || a.OnAppend? ==> a.m in w.c.net && a.m.dst == a.n)
  }

  /** The follower's log agrees with the leader's up to the entry before the ones sent. */
  lemma AppendMerges(cfg: Membership, w: World, a: Action)
    requires Elections(cfg, w) && Logs(cfg, w) && a.n in cfg && Appends(w.c.nodes[a.n], a) && a.m in w.c.net
    ensures a.m.term in w.h.reigns
    ensures
      var log, args, lead := w.c.nodes[a.n].log, a.m.args, w.h.reigns[a.m.term].log;
      var last := args.prevIndex + |args.entries| + 1;
      && last <= |lead| && Compatible(log, lead)
      && MergeEntries(log, args.prevIndex, args.entries) == if lead[..last] <= log then log else lead[..last]
  {
    assert AppendOk(w.h, a.m);
    var log, args, lead := w.c.nodes[a.n].log, a.m.args, w.h.reigns[a.m.term].log;
    assert ReignLogOk(w.h, a.m.term);
    forall x | 0 <= x < |log| && x < |lead| && log[x].term == lead[x].term ensures log[..x + 1] == lead[..x + 1] {
      Matching(w.h, log, lead, x);
    }
    MergeResult(log, args.prevIndex, args.entries, lead);
  }

  lemma SubmittedLogOk(h: Happened, log: seq<Entry>, term: int, command: Command)
    requires LogOk(h, log) && 1 <= term && term in h.reigns
    requires h.reigns[term].log == log + [Entry(term, |log|, command)]
    ensures LogOk(h, h.reigns[term].log)
  {
    var log1 := h.reigns[term].log;
    forall x | 1 <= x < |log1| ensures EntryOk(h, log1, x) {
      if x < |log| {
        assert EntryOk(h, log, x);
        assert log1[..x + 1] == log[..x + 1];
      }
    }
  }

  lemma MergedLogOk(cfg: Membership, w: World, a: Action)
    requires Elections(cfg, w) && Logs(cfg, w) && a.n in cfg && Appends(w.c.nodes[a.n], a) && a.m in w.c.net
    ensures
      var merged := MergeEntries(w.c.nodes[a.n].log, a.m.args.prevIndex, a.m.args.entries);
      LogOk(w.h, merged) && TermsUpTo(merged, a.m.term)
  {
    AppendMerges(cfg, w, a);
    assert ReignLogOk(w.h, a.m.term);
    LogOkPrefix(w.h, w.h.reigns[a.m.term].log, a.m.args.prevIndex + |a.m.args.entries| + 1);
  }

  lemma SubmitterLog(cfg: Membership, w: World, a: Action, w': World)
    requires LogStep(cfg, w, a, w') && a.Submit? && w.c.nodes[a.n].role == Leader
    ensures LogOk(w'.h, w'.c.nodes[a.n].log) && TermsUpTo(w'.c.nodes[a.n].log, w'.c.nodes[a.n].term)
  {
    var s := w.c.nodes[a.n];
    LogOkGrows(w.h, w'.h, s.log);
    assert LeaderOk(w.h, a.n, s);
    LeaderVoted(cfg, w, s.term, a.n);
    SubmittedLogOk(w'.h, s.log, s.term, a.command);
  }

  lemma MoverLog(cfg: Membership, w: World, a: Action, w': World)
    requires LogStep(cfg, w, a, w')
    ensures LogOk(w'.h, w'.c.nodes[a.n].log) && TermsUpTo(w'.c.nodes[a.n].log, w'.c.nodes[a.n].term)
  {
    var s, s' := w.c.nodes[a.n], w'.c.nodes[a.n];
    if a.Submit? && s.role == Leader {
      SubmitterLog(cfg, w, a, w');
    } else {
      if Appends(s, a) {
        MergedLogOk(cfg, w, a);
      }
      LogOkGrows(w.h, w'.h, s'.log);
    }
  }

  lemma ReignLogsStep(cfg: Membership, w: World, a: Action, w': World)
    requires LogStep(cfg, w, a, w')
    ensures forall t <- w'.h.reigns :: ReignLogOk(w'.h, t)
  {
    var s, s' := w.c.nodes[a.n], w'.c.nodes[a.n];
    MoverLog(cfg, w, a, w');
    forall t | t in w'.h.reigns ensures ReignLogOk(w'.h, t) {
      if Wins(s, s') && t == s'.term {
        assert CandidateOk(w.h, a.n, s);
        assert Counts(s, s', a) ==> VoteLogOk(w.h, (s.term, a.n));
      } else {
        assert ReignLogOk(w.h, t);
        LogOkGrows(w.h, w'.h, w.h.reigns[t].log);
        assert s.role == Leader ==> LeaderOk(w.h, a.n, s);
      }
    }
  }

  lemma VoteLogsStep(cfg: Membership, w: World, a: Action, w': World)
    requires LogStep(cfg, w, a, w')
    ensures forall k <- w'.h.votes :: VoteLogOk(w'.h, k)
  {
    var s, s' := w.c.nodes[a.n], w'.c.nodes[a.n];
    LogOkGrows(w.h, w'.h, s.log);
    forall k | k in w'.h.votes ensures VoteLogOk(w'.h, k) {
      if Votes(s, s') && k == (s'.term, a.n) {
        assert Stands(a.n, s, s', a) || (a.m.VoteRequest? ==> a.m.src != a.n);
      } else {
        assert VoteLogOk(w.h, k);
        LogOkGrows(w.h, w'.h, w.h.votes[k].log);
      }
    }
  }

  lemma SliceGrows(lead: seq<Entry>, lead': seq<Entry>, index: int, entries: seq<Entry>)
    requires SliceOf(lead, index, entries) && lead <= lead'
    ensures SliceOf(lead', index, entries) && lead'[index] == lead[index]
  {
  }

  lemma AppendOkGrows(h: Happened, h': Happened, m: Message)
    requires AppendOk(h, m) && Grows(h, h')
    ensures AppendOk(h', m)
  {
    if m.Append? {
      SliceGrows(h.reigns[m.term].log, h'.reigns[m.term].log, m.args.prevIndex, m.args.entries);
    }
  }

  lemma SentAppendOk(cfg: Membership, w: World, a: Action, w': World, m: Message)
    requires LogStep(cfg, w, a, w') && LogSend(cfg, a.n, w.c.nodes[a.n], m)
    ensures AppendOk(w.h, m)
  {
    assert LeaderOk(w.h, a.n, w.c.nodes[a.n]);
  }

  lemma AppendsStep(cfg: Membership, w: World, a: Action, w': World)
    requires LogStep(cfg, w, a, w')
    ensures forall m <- w'.c.net :: AppendOk(w'.h, m) && (m.VoteRequest? ==> m.src != m.dst)
  {
    forall m | m in w'.c.net ensures AppendOk(w'.h, m) && (m.VoteRequest? ==> m.src != m.dst) {
      if m !in w.c.net {
        SentAppendOk(cfg, w, a, w', m);
      }
      AppendOkGrows(w.h, w'.h, m);
    }
  }

  lemma LogsKept(cfg: Membership, w: World, a: Action, w': World)
    requires LogStep(cfg, w, a, w')
    ensures Logs(cfg, w')
  {
    forall n | n in cfg
      ensures LogOk(w'.h, w'.c.nodes[n].log) && TermsUpTo(w'.c.nodes[n].log, w'.c.nodes[n].term)
    {
      if n == a.n {
        MoverLog(cfg, w, a, w');
      } else {
        LogOkGrows(w.h, w'.h, w.c.nodes[n].log);
      }
    }
    ReignLogsStep(cfg, w, a, w');
    VoteLogsStep(cfg, w, a, w');
    AppendsStep(cfg, w, a, w');
  }

  lemma LogsStep(cfg: Membership, w: World, a: Action)
    requires WellFormed(cfg) && Elections(cfg, w) && Logs(cfg, w) && Enabled(cfg, w.c, a)
    ensures LogStep(cfg, w, a, Next(cfg, w, a))
    ensures Logs(cfg, Next(cfg, w, a))
  {
    ElectionsStep(cfg, w, a);
    MovesAreLogMoves(cfg, w.c, a);
    SendsAreLogSends(cfg, w.c, a);
    LogsKept(cfg, w, a, Next(cfg, w, a));
  }

  lemma {:induction false} LogsHold(cfg: Membership, run: seq<Action>)
    requires WellFormed(cfg) && Legal(cfg, run)
    ensures Elections(cfg, After(cfg, run)) && Logs(cfg, After(cfg, run))
  {
    ElectionsHold(cfg, run);
    if run != [] {
      var n := |run| - 1;
      LogsHold(cfg, run[..n]);
      LogsStep(cfg, After(cfg, run[..n]), run[n]);
    }
  }

  /** Log Matching: in every run, two logs with the same term at a position are identical up to it. */
  lemma LogMatching(cfg: Membership, run: seq<Action>, a: int, b: int, x: int)
    requires WellFormed(cfg) && Legal(cfg, run) && a in cfg && b in cfg
    ensures
      var nodes := After(cfg, run).c.nodes;
      && a in nodes && b in nodes
      && (0 <= x < |nodes[a].log| && x < |nodes[b].log| && nodes[a].log[x].term == nodes[b].log[x].term ==>
            nodes[a].log[..x + 1] == nodes[b].log[..x + 1])
  {
    LogsHold(cfg, run);
    var nodes := After(cfg, run).c.nodes;
    if 0 <= x < |nodes[a].log| && x < |nodes[b].log| && nodes[a].log[x].term == nodes[b].log[x].term {
      Matching(After(cfg, run).h, nodes[a].log, nodes[b].log, x);
    }
  }

  /** In every run, every entry carries its position and terms never decrease along a log. */
  lemma LogsAreOrdered(cfg: Membership, run: seq<Action>, n: int, x: int, y: int)
    requires WellFormed(cfg) && Legal(cfg, run) && n in cfg
    ensures n in After(cfg, run).c.nodes
    ensures
      var s := After(cfg, run).c.nodes[n];
      0 <= x <= y < |s.log| ==> s.log[x].index == x && 0 <= s.log[x].term <= s.log[y].term <= s.term
  {
    LogsHold(cfg, run);
    if 0 <= x <= y < |After(cfg, run).c.nodes[n].log| {
      OrderedLog(After(cfg, run).h, After(cfg, run).c.nodes[n].log, x, y);
    }
  }

  lemma OrderedLog(h: Happened, log: seq<Entry>, x: int, y: int)
    requires LogOk(h, log) && forall t <- h.reigns :: ReignLogOk(h, t)
    requires 0 <= x <= y < |log|
    ensures log[x].index == x && 0 <= log[x].term <= log[y].term
  {
    if x > 0 { PositiveTerms(h, log, x); }
    if y > 0 {
      assert EntryOk(h, log, y);
      var lead := h.reigns[log[y].term].log;
      assert ReignLogOk(h, log[y].term);
      assert log[x] == log[..y + 1][x] == lead[..y + 1][x] == lead[x];
    }
  }
}
