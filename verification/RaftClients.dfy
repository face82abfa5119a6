/** What a client may rely on: an accepted command keeps its position, and what is applied is what the log
    has. */
module RaftClients {
  import opened RaftNode
  import opened RaftCluster
  import opened RaftElection
  import opened RaftLogs
  import opened RaftSafety
  import opened RaftTheorems

  /** The leader of term `t` has the entry at position `k`. */
  ghost predicate Led(h: Happened, t: int, k: int, e: Entry) {
    t in h.reigns && 0 <= k < |h.reigns[t].log| && h.reigns[t].log[k] == e
  }

  /** A leader that accepts a command has it in its log, behind everything it had. */
  lemma AcceptedIsLed(cfg: Membership, w: World, n: int, command: Command)
    requires WellFormed(cfg) && Elections(cfg, w) && n in cfg && w.c.nodes[n].role == Leader
    ensures
      var s, w' := w.c.nodes[n], Next(cfg, w, Submit(n, command));
      Led(w'.h, s.term, |s.log|, Entry(s.term, |s.log|, command))
  {
    assert LeaderOk(w.h, n, w.c.nodes[n]);
  }

  lemma LedStays(h: Happened, h': Happened, t: int, k: int, e: Entry)
    requires Led(h, t, k, e) && Grows(h, h')
    ensures Led(h', t, k, e)
  {
  }

  lemma LedIsHeld(cfg: Membership, w: World, b: int, t: int, k: int, e: Entry)
    requires Elections(cfg, w) && Logs(cfg, w) && b in cfg && Led(w.h, t, k, e) && k >= 1
    ensures
      var r := w.c.nodes[b];
      && (k < |r.log| && r.log[k].term == t ==> r.log[k] == e)
      && (r.role == Leader && r.term == t ==> k < |r.log| && r.log[k] == e)
  {
    var r := w.c.nodes[b];
    assert LeaderOk(w.h, b, r);
    if k < |r.log| && r.log[k].term == t {
      assert EntryOk(w.h, r.log, k);
      assert r.log[..k + 1][k] == w.h.reigns[t].log[..k + 1][k];
    }
  }

  /** A command that a leader accepts is at the position after its last one. At every later moment that leader,
      while it leads in that term, has it there, and no replica ever has another entry of that term there. */
  lemma AcceptedKeepsItsPlace(cfg: Membership, run: seq<Action>, i: int, j: int, n: int, command: Command, b: int)
    requires WellFormed(cfg) && Legal(cfg, run) && 0 <= i < j <= |run| && n in cfg && b in cfg
    requires run[i] == Submit(n, command)
    ensures Legal(cfg, run[..i]) && n in After(cfg, run[..i]).c.nodes
    ensures Legal(cfg, run[..j]) && b in After(cfg, run[..j]).c.nodes
    ensures
      var s, r := After(cfg, run[..i]).c.nodes[n], After(cfg, run[..j]).c.nodes[b];
      var e := Entry(s.term, |s.log|, command);
      s.role == Leader ==>
        && (|s.log| < |r.log| && r.log[|s.log|].term == s.term ==> r.log[|s.log|] == e)
        && (r.role == Leader && r.term == s.term ==> |s.log| < |r.log| && r.log[|s.log|] == e)
  {
    Members(cfg, run, i, n);
    Members(cfg, run, j, b);
    var s := After(cfg, run[..i]).c.nodes[n];
    if s.role == Leader {
      SubmitIsLed(cfg, run, i, n, command);
      PlaceKept(cfg, run, i + 1, j, b, s.term, |s.log|, Entry(s.term, |s.log|, command));
    }
  }

  lemma Members(cfg: Membership, run: seq<Action>, i: int, n: int)
    requires WellFormed(cfg) && Legal(cfg, run) && 0 <= i <= |run| && n in cfg
    ensures Legal(cfg, run[..i]) && n in After(cfg, run[..i]).c.nodes
  {
    HistoryOnlyGrows(cfg, run, i);
    ElectionsHold(cfg, run[..i]);
  }

  lemma GrowsBetween(cfg: Membership, run: seq<Action>, i: int, j: int)
    requires WellFormed(cfg) && Legal(cfg, run) && 0 <= i <= j <= |run|
    ensures Legal(cfg, run[..i]) && Legal(cfg, run[..j])
    ensures Grows(After(cfg, run[..i]).h, After(cfg, run[..j]).h)
  {
    HistoryOnlyGrows(cfg, run, j);
    assert run[..j][..i] == run[..i];
    HistoryOnlyGrows(cfg, run[..j], i);
  }

  lemma PlaceKept(cfg: Membership, run: seq<Action>, i: int, j: int, b: int, t: int, k: int, e: Entry)
    requires WellFormed(cfg) && Legal(cfg, run) && 0 <= i <= j <= |run| && b in cfg
    requires Legal(cfg, run[..i]) && Led(After(cfg, run[..i]).h, t, k, e) && k >= 1
    ensures Legal(cfg, run[..j]) && b in After(cfg, run[..j]).c.nodes
    ensures
      var r := After(cfg, run[..j]).c.nodes[b];
      && (k < |r.log| && r.log[k].term == t ==> r.log[k] == e)
      && (r.role == Leader && r.term == t ==> k < |r.log| && r.log[k] == e)
  {
    GrowsBetween(cfg, run, i, j);
    LogsHold(cfg, run[..j]);
    LedStays(After(cfg, run[..i]).h, After(cfg, run[..j]).h, t, k, e);
    LedIsHeld(cfg, After(cfg, run[..j]), b, t, k, e);
  }

  lemma SubmitIsLed(cfg: Membership, run: seq<Action>, i: int, n: int, command: Command)
    requires WellFormed(cfg) && Legal(cfg, run) && 0 <= i < |run| && n in cfg && run[i] == Submit(n, command)
    requires Legal(cfg, run[..i]) && n in After(cfg, run[..i]).c.nodes
    requires After(cfg, run[..i]).c.nodes[n].role == Leader
    ensures Legal(cfg, run[..i + 1])
    ensures
      var s := After(cfg, run[..i]).c.nodes[n];
      |s.log| >= 1 && Led(After(cfg, run[..i + 1]).h, s.term, |s.log|, Entry(s.term, |s.log|, command))
  {
    HistoryOnlyGrows(cfg, run, i + 1);
    ElectionsHold(cfg, run[..i]);
    assert run[..i + 1][..i] == run[..i];
    AcceptedIsLed(cfg, After(cfg, run[..i]), n, command);
  }

  /** Under both hypotheses what a replica has applied is, and stays, what its log has there. */
  lemma AppliedIsInLog(cfg: Membership, run: seq<Action>, b: int, k: int)
    requires WellFormed(cfg) && Legal(cfg, run) && SameTermReplies(cfg, run) && UpToDateVotes(cfg, run) && b in cfg
    ensures b in After(cfg, run).c.nodes
    ensures
      var r := After(cfg, run).c.nodes[b];
      1 <= k <= r.lastApplied ==>
        k < |r.log| && k <= |r.delivered| && r.delivered[k - 1] == Delivery(k, r.log[k].command)
  {
    SafetyHolds(cfg, run);
    assert NodeBacked(After(cfg, run).h, After(cfg, run).c.nodes[b]);
  }
}
