/** A run of three replicas in which every vote passes the log comparison, yet two replicas apply different
    commands at one index: a success reply of term 3 arrives when its receiver leads term 5 with another log. */
module RaftStaleReply {
  import opened RaftNode
  import opened RaftCluster
  import opened RaftScripts

  const VOTES := Keeps(false, true)

  const A := Entry(1, 1, X)
  const A2 := Entry(1, 2, X)
  const B := Entry(2, 1, Y)
  const C := Entry(5, 2, X)
  const D := Entry(6, 2, Y)

  const NOTHING := AppendArgs(0, 0, 0, [])

  // ----- Handling entries, in general

  lemma Refuses(s: State, term: int, leader: int, args: AppendArgs)
    requires Sane(s) && 0 <= args.prevIndex && s.term <= term && !PrefixMatches(s, args)
    ensures HandleAppendEntries(s, term, leader, args) ==
              (AcknowledgeLeader(s, term, leader), Reply(AppendReplyKind, term, false))
  {
  }

  lemma Accepts(s: State, term: int, leader: int, entries: seq<Entry>, log: seq<Entry>)
    requires Sane(s) && s.term <= term && 0 <= s.commitIndex && s.log[0].term == 0
    requires log == MergeEntries(s.log, 0, entries)
    ensures HandleAppendEntries(s, term, leader, AppendArgs(0, 0, 0, entries)) ==
              (AcknowledgeLeader(s, term, leader).(log := log), Reply(AppendReplyKind, term, true))
  {
  }

  lemma StepsBack(s: State, peers: seq<int>, p: int, sent: int)
    requires Sane(s) && 0 <= s.commitIndex && s.running && s.role == Leader
    ensures HandleAppendReply(s, peers, p, Reply(AppendReplyKind, s.term, false), sent) ==
              s.(nextIndex := s.nextIndex[p := Max(1, Get(s.nextIndex, p) - 1)])
  {
  }

  // ----- Terms 1 and 2: replica 1 keeps two entries to itself, replica 3 another one

  const ONE_A := FIRST.(log := [SENTINEL, A, A2])
  const ONE_DOWN := ONE_A.(term := 2, votedFor := NOBODY, role := Follower, leaderId := 3)
  const TWO_2 := Voted(Voted(IDLE, 1, 1), 2, 3)
  const THREE_B := THIRD.(log := [SENTINEL, B])

  lemma TermTwo(R: World -> bool) returns (w: World)
    requires Closed(R, VOTES)
    ensures R(w) && w.c.nodes == map[1 := ONE_DOWN, 2 := TWO_2, 3 := THREE_B]
  {
    w := ElectsFirst(R, VOTES);
    w := Submits(R, VOTES, w, 1, X, [SENTINEL, A]);
    w := Submits(R, VOTES, w, 1, X, [SENTINEL, A, A2]);
    w := ElectsThird(R, VOTES, w);
    w := Beats(R, VOTES, w, 3, 1, NOTHING);
    Accepts(ONE_A, 2, 3, [], ONE_A.log);
    w := Takes(R, VOTES, w, 2, 3, 1, NOTHING, ONE_DOWN, true);
    w := Submits(R, VOTES, w, 3, Y, [SENTINEL, B]);
  }

  // ----- Term 3: replica 1 leads again and replica 2 takes the two entries

  const ONE_3 := Led(ONE_DOWN, 1, 2, 2, 3)
  const TWO_3 := Voted(TWO_2, 3, 1)
  const TWO_LED := TWO_3.(leaderId := 1)
  const THREE_DOWN := THREE_B.(term := 3, votedFor := NOBODY, role := Follower, leaderId := 1)

  lemma TermThree(R: World -> bool) returns (w: World)
    requires Closed(R, VOTES)
    ensures R(w) && w.c.nodes == map[1 := ONE_3, 2 := TWO_3, 3 := THREE_B]
  {
    w := TermTwo(R);
    w := WinsTerm(R, VOTES, w, 1, 2, 2, 3);
  }

  /** Both others refuse the first heartbeat of term 3, which looks for more than they have. */
  lemma RefuseBoth(R: World -> bool) returns (w: World)
    requires Closed(R, VOTES)
    ensures R(w) && w.c.nodes == map[1 := ONE_3, 2 := TWO_LED, 3 := THREE_DOWN]
    ensures AppendAnswer(2, 1, Reply(AppendReplyKind, 3, false), 2) in w.c.net
  {
    w := TermThree(R);
    var args := AppendArgs(2, 1, 0, []);
    assert [SENTINEL, A, A2][3..] == [];
    w := Beats(R, VOTES, w, 1, 2, args);
    w := Beats(R, VOTES, w, 1, 3, args);
    Refuses(TWO_3, 3, 1, args);
    w := Takes(R, VOTES, w, 3, 1, 2, args, TWO_LED, false);
    Refuses(THREE_B, 3, 1, args);
    w := Takes(R, VOTES, w, 3, 1, 3, args, THREE_DOWN, false);
  }

  const ONE_BACK := ONE_3.(nextIndex := map[2 := 1, 3 := 3])
  const TWO_A := TWO_LED.(log := [SENTINEL, A, A2])

  /** The refusal is delivered twice; then replica 2 takes both entries, and its reply stays on its way. */
  lemma TakesBoth(R: World -> bool) returns (w: World)
    requires Closed(R, VOTES)
    ensures R(w) && w.c.nodes == map[1 := ONE_BACK, 2 := TWO_A, 3 := THREE_DOWN]
    ensures AppendAnswer(2, 1, Reply(AppendReplyKind, 3, true), 2) in w.c.net
  {
    w := RefuseBoth(R);
    StepsBack(ONE_3, [2, 3], 2, 2);
    var half := ONE_3.(nextIndex := map[2 := 2, 3 := 3]);
    w := Hears(R, VOTES, w, 3, 2, 1, 2, false, half);
    StepsBack(half, [2, 3], 2, 2);
    w := Hears(R, VOTES, w, 3, 2, 1, 2, false, ONE_BACK);
    assert [SENTINEL, A, A2][1..] == [A, A2];
    w := Beats(R, VOTES, w, 1, 2, AppendArgs(0, 0, 0, [A, A2]));
    MergesTwo([SENTINEL], A, A2);
    Accepts(TWO_LED, 3, 1, [A, A2], [SENTINEL, A, A2]);
    w := Takes(R, VOTES, w, 3, 1, 2, AppendArgs(0, 0, 0, [A, A2]), TWO_A, true);
  }

  // ----- Term 4: replica 3 leads again and overwrites the log of replica 1

  const THREE_4 := Led(THREE_DOWN, 3, 2, 1, 2)
  const TWO_4 := Voted(TWO_A, 4, 3)
  const ONE_4 := ONE_BACK.(term := 4, votedFor := NOBODY, role := Follower, leaderId := 3)

  lemma TermFour(R: World -> bool) returns (w: World)
    requires Closed(R, VOTES)
    ensures R(w) && w.c.nodes == map[1 := ONE_BACK, 2 := TWO_4, 3 := THREE_4]
    ensures AppendAnswer(2, 1, Reply(AppendReplyKind, 3, true), 2) in w.c.net
  {
    w := TakesBoth(R);
    w := WinsTerm(R, VOTES, w, 3, 2, 1, 2);
  }

  lemma FirstRefuses(R: World -> bool) returns (w: World)
    requires Closed(R, VOTES)
    ensures R(w) && w.c.nodes == map[1 := ONE_4, 2 := TWO_4, 3 := THREE_4]
    ensures AppendAnswer(2, 1, Reply(AppendReplyKind, 3, true), 2) in w.c.net
    ensures AppendAnswer(1, 3, Reply(AppendReplyKind, 4, false), 1) in w.c.net
  {
    w := TermFour(R);
    var args := AppendArgs(1, 2, 0, []);
    assert [SENTINEL, B][2..] == [];
    w := Beats(R, VOTES, w, 3, 1, args);
    Refuses(ONE_BACK, 4, 3, args);
    w := Takes(R, VOTES, w, 4, 3, 1, args, ONE_4, false);
  }

  const THREE_BACK := THREE_4.(nextIndex := map[1 := 1, 2 := 2])
  const ONE_B := ONE_4.(log := [SENTINEL, B])

  lemma OverwritesFirst(R: World -> bool) returns (w: World)
    requires Closed(R, VOTES)
    ensures R(w) && w.c.nodes == map[1 := ONE_B, 2 := TWO_4, 3 := THREE_BACK]
    ensures AppendAnswer(2, 1, Reply(AppendReplyKind, 3, true), 2) in w.c.net
  {
    w := FirstRefuses(R);
    StepsBack(THREE_4, [1, 2], 1, 1);
    w := Hears(R, VOTES, w, 4, 1, 3, 1, false, THREE_BACK);
    assert [SENTINEL, B][1..] == [B];
    w := Beats(R, VOTES, w, 3, 1, AppendArgs(0, 0, 0, [B]));
    MergesOne([SENTINEL, A, A2], B);
    Accepts(ONE_4, 4, 3, [B], [SENTINEL, B]);
    w := Takes(R, VOTES, w, 4, 3, 1, AppendArgs(0, 0, 0, [B]), ONE_B, true);
  }

  // ----- Term 5: replica 1 leads once more, and the reply of term 3 arrives

  const ONE_5 := Led(ONE_B, 1, 2, 2, 3)
  const TWO_5 := Voted(TWO_4, 5, 1)
  const THREE_5 := Voted(THREE_BACK, 5, 1)
  const ONE_C := ONE_5.(log := [SENTINEL, B, C])
  const ONE_DONE := ONE_C.(commitIndex := 2, lastApplied := 2, delivered := [Delivery(1, Y), Delivery(2, X)],
                           matchIndex := map[2 := 2, 3 := 0], nextIndex := map[2 := 3, 3 := 2])

  lemma TermFive(R: World -> bool) returns (w: World)
    requires Closed(R, VOTES)
    ensures R(w) && w.c.nodes == map[1 := ONE_5, 2 := TWO_5, 3 := THREE_5]
    ensures AppendAnswer(2, 1, Reply(AppendReplyKind, 3, true), 2) in w.c.net
  {
    w := OverwritesFirst(R);
    w := WinsTerm(R, VOTES, w, 1, 2, 2, 3);
    VotesFor(THREE_BACK, 5, 1);
    w := Grants(R, VOTES, w, 5, 1, 3, THREE_5);
  }

  lemma HearsLate(R: World -> bool) returns (w: World)
    requires Closed(R, VOTES)
    ensures R(w) && w.c.nodes == map[1 := ONE_DONE, 2 := TWO_5, 3 := THREE_5]
  {
    w := TermFive(R);
    w := Submits(R, VOTES, w, 1, X, [SENTINEL, B, C]);
    CommitsTwo(ONE_C, 2, 3, [2, 3], B, C, 3);
    w := Hears(R, VOTES, w, 3, 2, 1, 2, true, ONE_DONE);
  }

  // ----- Term 6: replica 3 commits another entry there

  const THREE_6 := Led(THREE_5, 3, 2, 1, 2)
  const TWO_6 := Voted(TWO_5, 6, 3)
  const THREE_D := THREE_6.(log := [SENTINEL, B, D])
  const TWO_REFUSED := TWO_6.(leaderId := 3)

  lemma TermSix(R: World -> bool) returns (w: World)
    requires Closed(R, VOTES)
    ensures R(w) && w.c.nodes == map[1 := ONE_DONE, 2 := TWO_6, 3 := THREE_D]
  {
    w := HearsLate(R);
    w := WinsTerm(R, VOTES, w, 3, 2, 1, 2);
    w := Submits(R, VOTES, w, 3, Y, [SENTINEL, B, D]);
  }

  lemma SecondRefuses(R: World -> bool) returns (w: World)
    requires Closed(R, VOTES)
    ensures R(w) && w.c.nodes == map[1 := ONE_DONE, 2 := TWO_REFUSED, 3 := THREE_D]
    ensures AppendAnswer(2, 3, Reply(AppendReplyKind, 6, false), 2) in w.c.net
  {
    w := TermSix(R);
    var args := AppendArgs(1, 2, 0, [D]);
    assert [SENTINEL, B, D][2..] == [D];
    w := Beats(R, VOTES, w, 3, 2, args);
    Refuses(TWO_6, 6, 3, args);
    w := Takes(R, VOTES, w, 6, 3, 2, args, TWO_REFUSED, false);
  }

  const THREE_LAST := THREE_D.(nextIndex := map[1 := 2, 2 := 1])
  const TWO_D := TWO_REFUSED.(log := [SENTINEL, B, D])
  const THREE_DONE := THREE_LAST.(commitIndex := 2, lastApplied := 2, delivered := [Delivery(1, Y), Delivery(2, Y)],
                                  matchIndex := map[1 := 0, 2 := 2], nextIndex := map[1 := 2, 2 := 3])

  lemma ThirdStepsBack(R: World -> bool) returns (w: World)
    requires Closed(R, VOTES)
    ensures R(w) && w.c.nodes == map[1 := ONE_DONE, 2 := TWO_REFUSED, 3 := THREE_LAST]
  {
    w := SecondRefuses(R);
    StepsBack(THREE_D, [1, 2], 2, 2);
    w := Hears(R, VOTES, w, 6, 2, 3, 2, false, THREE_LAST);
  }

  lemma TakesOther(R: World -> bool) returns (w: World)
    requires Closed(R, VOTES)
    ensures R(w) && w.c.nodes == map[1 := ONE_DONE, 2 := TWO_D, 3 := THREE_LAST]
    ensures AppendAnswer(2, 3, Reply(AppendReplyKind, 6, true), 2) in w.c.net
  {
    w := ThirdStepsBack(R);
    assert [SENTINEL, B, D][1..] == [B, D];
    w := Beats(R, VOTES, w, 3, 2, AppendArgs(0, 0, 0, [B, D]));
    MergesTwo([SENTINEL, A, A2], B, D);
    Accepts(TWO_REFUSED, 6, 3, [B, D], [SENTINEL, B, D]);
    w := Takes(R, VOTES, w, 6, 3, 2, AppendArgs(0, 0, 0, [B, D]), TWO_D, true);
  }

  lemma CommitsOther(R: World -> bool) returns (w: World)
    requires Closed(R, VOTES)
    ensures R(w) && w.c.nodes == map[1 := ONE_DONE, 2 := TWO_D, 3 := THREE_DONE]
  {
    w := TakesOther(R);
    CommitsTwo(THREE_LAST, 2, 1, [1, 2], B, D, 6);
    w := Hears(R, VOTES, w, 6, 2, 3, 2, true, THREE_DONE);
  }

  /** Up-to-date votes alone do not make the cluster safe. */
  lemma UnsafeWithoutSameTermReplies() returns (run: seq<Action>)
    ensures RaftCluster.WellFormed(Three) && Legal(Three, run) && UpToDateVotes(Three, run)
    ensures
      var nodes := After(Three, run).c.nodes;
      && 1 in nodes && 3 in nodes && X != Y
      && nodes[1].delivered == [Delivery(1, Y), Delivery(2, X)]
      && nodes[3].delivered == [Delivery(1, Y), Delivery(2, Y)]
  {
    ThreeIsWellFormed();
    ReachedIsClosed(VOTES);
    var w := CommitsOther((w: World) => Reached(w, VOTES));
    run :| Legal(Three, run) && Kept(VOTES, run) && After(Three, run) == w;
    assert X[0] != Y[0];
  }
}
