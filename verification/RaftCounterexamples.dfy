/** Runs of three replicas: what goes wrong without the log comparison of votes, what goes wrong with the
    bounds of a leader's indices when a reply is late, and runs that do without the comparison, or have a late
    reply, and are none the worse for it. */
module RaftCounterexamples {
  import opened RaftNode
  import opened RaftCluster
  import opened RaftTheorems
  import opened RaftBounds
  import opened RaftScripts

  const A := Entry(1, 1, X)
  const A2 := Entry(1, 2, X)
  const B := Entry(2, 1, Y)

  // ----- Votes without the up-to-date check: a committed entry is lost

  const TOOK_A := IDLE.(term := 1, votedFor := 1, leaderId := 1, log := [SENTINEL, A])
  const LED_A := FIRST.(log := [SENTINEL, A], commitIndex := 1, lastApplied := 1, delivered := [Delivery(1, X)],
                        nextIndex := map[2 := 2, 3 := 1], matchIndex := map[2 := 1, 3 := 0])
  const TOOK_B := Voted(TOOK_A, 2, 3).(leaderId := 3, log := [SENTINEL, B])
  const LED_B := THIRD.(log := [SENTINEL, B], commitIndex := 1, lastApplied := 1, delivered := [Delivery(1, Y)],
                        nextIndex := map[1 := 1, 2 := 2], matchIndex := map[1 := 0, 2 := 1])

  const ANSWER := AppendAnswer(2, 1, Reply(AppendReplyKind, 1, true), 1)

  lemma CommitsA(R: World -> bool, k: Keeps) returns (w: World)
    requires Closed(R, k)
    ensures R(w) && w.c.nodes == map[1 := LED_A, 2 := TOOK_A, 3 := IDLE] && ANSWER in w.c.net
  {
    w := ElectsFirst(R, k);
    w := Submits(R, k, w, 1, X, [SENTINEL, A]);
    w := Beats(R, k, w, 1, 2, AppendArgs(0, 0, 0, [A]));
    MergesOne([SENTINEL], A);
    w := Takes(R, k, w, 1, 1, 2, AppendArgs(0, 0, 0, [A]), TOOK_A, true);
    CommitsOne(FIRST.(log := [SENTINEL, A]), 2, 3, [2, 3], A);
    w := Hears(R, k, w, 1, 2, 1, 1, true, LED_A);
  }

  const SAME_TERM := Keeps(true, false)

  lemma CommitsB(R: World -> bool) returns (w: World)
    requires Closed(R, SAME_TERM)
    ensures R(w) && w.c.nodes == map[1 := LED_A, 2 := TOOK_B, 3 := LED_B]
  {
    w := CommitsA(R, SAME_TERM);
    w := ElectsThird(R, SAME_TERM, w);
    w := Submits(R, SAME_TERM, w, 3, Y, [SENTINEL, B]);
    w := Beats(R, SAME_TERM, w, 3, 2, AppendArgs(0, 0, 0, [B]));
    MergesOne([SENTINEL, A], B);
    w := Takes(R, SAME_TERM, w, 2, 3, 2, AppendArgs(0, 0, 0, [B]), TOOK_B, true);
    CommitsOne(THIRD.(log := [SENTINEL, B]), 2, 1, [1, 2], B);
    w := Hears(R, SAME_TERM, w, 2, 2, 3, 1, true, LED_B);
  }

  /** A run that handles every success reply in its term, yet two replicas apply different commands at index 1. */
  lemma UnsafeWithoutUpToDateVotes() returns (run: seq<Action>)
    ensures RaftCluster.WellFormed(Three) && Legal(Three, run) && SameTermReplies(Three, run)
    ensures
      var nodes := After(Three, run).c.nodes;
      && 1 in nodes && 3 in nodes
      && nodes[1].delivered == [Delivery(1, X)] && nodes[3].delivered == [Delivery(1, Y)] && X != Y
  {
    ThreeIsWellFormed();
    ReachedIsClosed(SAME_TERM);
    var w := CommitsB((w: World) => Reached(w, SAME_TERM));
    run :| Legal(Three, run) && Kept(SAME_TERM, run) && After(Three, run) == w;
    assert X[0] != Y[0];
  }

  // ----- Replies from an earlier leadership: a leader's bookkeeping leaves its log

  const NEITHER := Keeps(false, false)

  const LED_AA := FIRST.(log := [SENTINEL, A, A2])
  const TOOK_AA := IDLE.(term := 1, votedFor := 1, leaderId := 1, log := [SENTINEL, A, A2])
  const BACK_TO_B := LED_AA.(term := 2, votedFor := NOBODY, role := Follower, leaderId := 3, log := [SENTINEL, B])
  const FIRST_AGAIN := Led(BACK_TO_B, 1, 2, 2, 3)
  const STALE := FIRST_AGAIN.(nextIndex := map[2 := 3, 3 := 2], matchIndex := map[2 := 2, 3 := 0])

  /** Replica 2 takes two entries from replica 1; its reply is still on its way. */
  lemma AnswersTwo(R: World -> bool) returns (w: World)
    requires Closed(R, NEITHER)
    ensures R(w) && w.c.nodes == map[1 := LED_AA, 2 := TOOK_AA, 3 := IDLE]
    ensures AppendAnswer(2, 1, Reply(AppendReplyKind, 1, true), 2) in w.c.net
  {
    w := ElectsFirst(R, NEITHER);
    w := Submits(R, NEITHER, w, 1, X, [SENTINEL, A]);
    w := Submits(R, NEITHER, w, 1, X, [SENTINEL, A, A2]);
    assert [SENTINEL, A, A2][1..] == [A, A2];
    w := Beats(R, NEITHER, w, 1, 2, AppendArgs(0, 0, 0, [A, A2]));
    MergesTwo([SENTINEL], A, A2);
    w := Takes(R, NEITHER, w, 1, 1, 2, AppendArgs(0, 0, 0, [A, A2]), TOOK_AA, true);
  }

  /** Replica 3 leads term 2 and overwrites the log of replica 1. */
  lemma Overwrites(R: World -> bool) returns (w: World)
    requires Closed(R, NEITHER)
    ensures R(w) && w.c.nodes.Keys == {1, 2, 3} && w.c.nodes[1] == BACK_TO_B && w.c.nodes[2] == Voted(TOOK_AA, 2, 3)
    ensures AppendAnswer(2, 1, Reply(AppendReplyKind, 1, true), 2) in w.c.net
  {
    w := AnswersTwo(R);
    w := ElectsThird(R, NEITHER, w);
    w := Submits(R, NEITHER, w, 3, Y, [SENTINEL, B]);
    w := Beats(R, NEITHER, w, 3, 1, AppendArgs(0, 0, 0, [B]));
    MergesOne([SENTINEL, A, A2], B);
    w := Takes(R, NEITHER, w, 2, 3, 1, AppendArgs(0, 0, 0, [B]), BACK_TO_B, true);
  }

  lemma StaleMove()
    ensures HandleAppendReply(FIRST_AGAIN, [2, 3], 2, Reply(AppendReplyKind, 1, true), 2) == STALE
  {
    assert !Committable(STALE, [2, 3], 1);
    assert Highest(STALE, [2, 3], 1) == Highest(STALE, [2, 3], 0) == 0;
  }

  /** Replica 1 leads again, in term 3 and with a shorter log, when the reply of term 1 arrives. */
  lemma HearsStale(R: World -> bool) returns (w: World)
    requires Closed(R, NEITHER)
    ensures R(w) && 1 in w.c.nodes && w.c.nodes[1] == STALE
  {
    w := Overwrites(R);
    w := WinsTerm(R, NEITHER, w, 1, 2, 2, 3);
    StaleMove();
    w := Hears(R, NEITHER, w, 1, 2, 1, 2, true, STALE);
  }

  /** A run in which the next heartbeat of a leader would read its log out of bounds. */
  lemma OutOfBoundsWithoutSameTermReplies() returns (run: seq<Action>)
    ensures RaftCluster.WellFormed(Three) && Legal(Three, run)
    ensures
      var nodes := After(Three, run).c.nodes;
      1 in nodes && nodes[1].role == Leader && !HeartbeatDefined(nodes[1], 2)
  {
    ThreeIsWellFormed();
    ReachedIsClosed(NEITHER);
    var w := HearsStale((w: World) => Reached(w, NEITHER));
    run :| Legal(Three, run) && After(Three, run) == w;
  }

  // ----- A vote that fails the comparison and does no harm

  /** Replica 2 holds a committed entry, and replica 3, which does not, has asked for its vote. */
  ghost predicate Asking(w: World) {
    && w.c.nodes == map[1 := LED_A, 2 := TOOK_A, 3 := Stood(LOST, 3)]
    && VoteRequest(2, 3, 2) in w.c.net && (2, 3) in w.h.votes && w.h.votes[(2, 3)].log == [SENTINEL]
  }

  lemma AsksVoter(R: World -> bool) returns (w: World)
    requires Closed(R, SAME_TERM)
    ensures R(w) && Asking(w)
  {
    w := CommitsA(R, SAME_TERM);
    w := Elects(R, SAME_TERM, w, 3, LOST);
    w := Elects(R, SAME_TERM, w, 3, Stood(LOST, 3));
  }

  const ASKED := OnVoteRequest(2, VoteRequest(2, 3, 2))

  lemma VoteFails(w: World)
    requires Asking(w)
    ensures Enabled(Three, w.c, ASKED) && !UpToDateVote(Three, w, ASKED)
    ensures Next(Three, w, ASKED).c.nodes == map[1 := LED_A, 2 := Voted(TOOK_A, 2, 3), 3 := Stood(LOST, 3)]
  {
    VotesFor(TOOK_A, 2, 3);
  }

  /** At no moment of the run have two replicas applied different commands at one index. */
  ghost predicate NeverApart(cfg: Membership, run: seq<Action>)
    requires Legal(cfg, run)
  {
    forall i, a, b {:trigger AgreeAt(cfg, run, i, a, b)} :: 0 <= i <= |run| && a in cfg && b in cfg ==>
      AgreeAt(cfg, run, i, a, b)
  }

  ghost predicate AgreeAt(cfg: Membership, run: seq<Action>, i: int, a: int, b: int) {
    && 0 <= i <= |run| && Legal(cfg, run[..i])
    && var nodes := After(cfg, run[..i]).c.nodes;
    && a in nodes && b in nodes
    && forall x :: 0 <= x < |nodes[a].delivered| && x < |nodes[b].delivered| ==>
      nodes[a].delivered[x] == nodes[b].delivered[x]
  }

  /** Deliveries are never taken back, so if they agree at the end they agree throughout. */
  lemma AgreesThroughout(cfg: Membership, run: seq<Action>)
    requires WellFormed(cfg) && Legal(cfg, run)
    requires forall a, b :: a in cfg && b in cfg ==> AgreeAt(cfg, run, |run|, a, b)
    ensures NeverApart(cfg, run)
  {
    assert run[..|run|] == run;
    forall i, a, b | 0 <= i <= |run| && a in cfg && b in cfg ensures AgreeAt(cfg, run, i, a, b) {
      AppliedInOrder(cfg, run, a, i);
      AppliedInOrder(cfg, run, b, i);
      assert AgreeAt(cfg, run, |run|, a, b);
    }
  }

  lemma OnlyFirstApplies(run: seq<Action>, first: State, second: State, third: State)
    requires Legal(Three, run) && After(Three, run).c.nodes == map[1 := first, 2 := second, 3 := third]
    requires second.delivered == third.delivered == []
    ensures NeverApart(Three, run)
  {
    ThreeIsWellFormed();
    assert run[..|run|] == run;
    forall a, b | a in Three && b in Three ensures AgreeAt(Three, run, |run|, a, b) {
    }
    AgreesThroughout(Three, run);
  }

  lemma OneMoreVote(before: seq<Action>, a: Action)
    requires Legal(Three, before) && SameTermReplies(Three, before) && a.OnVoteRequest?
    requires Enabled(Three, After(Three, before).c, a) && !UpToDateVote(Three, After(Three, before), a)
    ensures Legal(Three, before + [a]) && SameTermReplies(Three, before + [a]) && !UpToDateVotes(Three, before + [a])
    ensures After(Three, before + [a]) == Next(Three, After(Three, before), a)
  {
    assert (before + [a])[..|before|] == before;
  }

  lemma AskingRun() returns (before: seq<Action>)
    ensures Legal(Three, before) && SameTermReplies(Three, before) && Asking(After(Three, before))
  {
    ReachedIsClosed(SAME_TERM);
    var w := AsksVoter((w: World) => Reached(w, SAME_TERM));
    before :| Legal(Three, before) && Kept(SAME_TERM, before) && After(Three, before) == w;
  }

  lemma HarmlessRun() returns (run: seq<Action>)
    ensures Legal(Three, run) && SameTermReplies(Three, run) && !UpToDateVotes(Three, run)
    ensures After(Three, run).c.nodes == map[1 := LED_A, 2 := Voted(TOOK_A, 2, 3), 3 := Stood(LOST, 3)]
  {
    var before := AskingRun();
    VoteFails(After(Three, before));
    OneMoreVote(before, ASKED);
    run := before + [ASKED];
  }

  /** Up-to-date votes are not necessary: a run with a vote that fails the comparison, in which a command is
      applied and at no moment two replicas have applied different ones. */
  lemma SafeWithoutUpToDateVotes() returns (run: seq<Action>)
    ensures RaftCluster.WellFormed(Three) && Legal(Three, run) && SameTermReplies(Three, run)
    ensures !UpToDateVotes(Three, run) && NeverApart(Three, run)
    ensures 1 in After(Three, run).c.nodes && After(Three, run).c.nodes[1].delivered == [Delivery(1, X)]
  {
    ThreeIsWellFormed();
    run := HarmlessRun();
    OnlyFirstApplies(run, LED_A, Voted(TOOK_A, 2, 3), Stood(LOST, 3));
  }

  // ----- A late reply that does no harm

  const BOTH := Keeps(true, true)

  const RESTARTED := LED_A.(role := Follower, leaderId := NOBODY)
  const LED_AGAIN := Led(RESTARTED, 1, 2, 2, 3)
  const COUNTED := LED_AGAIN.(nextIndex := map[2 := 2, 3 := 2], matchIndex := map[2 := 1, 3 := 0])

  /** Replica 1 has committed in term 1 and leads term 2, and the reply of term 1 is still under way. */
  ghost predicate LeadsAgain(w: World) {
    w.c.nodes == map[1 := LED_AGAIN, 2 := Voted(TOOK_A, 2, 1), 3 := IDLE] && ANSWER in w.c.net
  }

  lemma RestartsAndWins(R: World -> bool) returns (w: World)
    requires Closed(R, BOTH)
    ensures R(w) && LeadsAgain(w)
  {
    w := CommitsA(R, BOTH);
    w := Act(R, BOTH, w, ShutDown(1), LED_A.(running := false));
    w := Act(R, BOTH, w, StartUp(1), RESTARTED);
    w := WinsTerm(R, BOTH, w, 1, 2, 2, 3);
  }

  lemma LeadingRun() returns (before: seq<Action>)
    ensures Legal(Three, before) && Kept(BOTH, before) && LeadsAgain(After(Three, before))
  {
    ReachedIsClosed(BOTH);
    var w := RestartsAndWins((w: World) => Reached(w, BOTH));
    before :| Legal(Three, before) && Kept(BOTH, before) && After(Three, before) == w;
  }

  const COUNTS := OnAppendAnswer(1, ANSWER)

  lemma LateMove()
    ensures HandleAppendReply(LED_AGAIN, [2, 3], 2, Reply(AppendReplyKind, 1, true), 1) == COUNTED
  {
    assert Highest(COUNTED, [2, 3], 1) == 1;
  }

  lemma LateReplyFits(w: World)
    requires LeadsAgain(w)
    ensures Enabled(Three, w.c, COUNTS) && !SameTermReply(w.c, COUNTS) && ReplyFits(w.c, COUNTS)
    ensures Next(Three, w, COUNTS).c.nodes == map[1 := COUNTED, 2 := Voted(TOOK_A, 2, 1), 3 := IDLE]
  {
    LateMove();
  }

  lemma OneMoreReply(before: seq<Action>, a: Action)
    requires Legal(Three, before) && Kept(BOTH, before) && a.OnAppendAnswer?
    requires Enabled(Three, After(Three, before).c, a)
    requires !SameTermReply(After(Three, before).c, a) && ReplyFits(After(Three, before).c, a)
    ensures Legal(Three, before + [a]) && UpToDateVotes(Three, before + [a])
    ensures !SameTermReplies(Three, before + [a]) && RepliesFit(Three, before + [a])
    ensures After(Three, before + [a]) == Next(Three, After(Three, before), a)
  {
    ThreeIsWellFormed();
    assert (before + [a])[..|before|] == before;
    SameTermRepliesFit(Three, before);
  }

  lemma LateRun() returns (run: seq<Action>)
    ensures Legal(Three, run) && UpToDateVotes(Three, run) && !SameTermReplies(Three, run) && RepliesFit(Three, run)
    ensures After(Three, run).c.nodes == map[1 := COUNTED, 2 := Voted(TOOK_A, 2, 1), 3 := IDLE]
  {
    var before := LeadingRun();
    LateReplyFits(After(Three, before));
    OneMoreReply(before, COUNTS);
    run := before + [COUNTS];
  }

  /** Nor are same-term replies necessary: a run in which a leader of term 2 counts a success reply of term 1,
      a command is applied, and at no moment two replicas have applied different ones. */
  lemma SafeWithoutSameTermReplies() returns (run: seq<Action>)
    ensures RaftCluster.WellFormed(Three) && Legal(Three, run) && UpToDateVotes(Three, run)
    ensures !SameTermReplies(Three, run) && RepliesFit(Three, run) && NeverApart(Three, run)
    ensures 1 in After(Three, run).c.nodes && After(Three, run).c.nodes[1].delivered == [Delivery(1, X)]
  {
    ThreeIsWellFormed();
    run := LateRun();
    OnlyFirstApplies(run, COUNTED, Voted(TOOK_A, 2, 1), IDLE);
  }
}
