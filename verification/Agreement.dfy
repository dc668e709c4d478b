// Agreement over whole runs, and why the discipline asked of proposers cannot be dropped.
module Agreement {
  import opened Common
  import opened Chain
  import opened Quorum
  import opened Replica
  import opened ConsensusRun

  lemma VotesGrow(cfg: Config, run: seq<System>, j: nat, k: nat)
    requires IsRun(cfg, run) && j <= k < |run|
    ensures run[j].votes <= run[k].votes
    decreases k
  {
    if j < k {
      VotesGrow(cfg, run, j, k - 1);
      assert StepAt(cfg, run, k - 1);
    }
  }

  lemma RunDisciplined(cfg: Config, run: seq<System>, k: nat)
    requires IsRun(cfg, run) && k < |run| && ProposerDiscipline(cfg, run[|run| - 1].votes)
    ensures ProposerDiscipline(cfg, run[k].votes)
  {
    VotesGrow(cfg, run, k, |run| - 1);
    FewerVotesDisciplined(cfg, run[k].votes, run[|run| - 1].votes);
  }

  lemma {:induction false} RunInv(cfg: Config, run: seq<System>, k: nat)
    requires IsRun(cfg, run) && k < |run| && ProposerDiscipline(cfg, run[|run| - 1].votes)
    ensures Inv(cfg, run[k]) && ProposerDiscipline(cfg, run[k].votes)
  {
    hide Apply, Enabled, Inv, ProposerDiscipline;
    RunDisciplined(cfg, run, k);
    if k == 0 {
      InitInv(cfg, run[0]);
    } else {
      RunInv(cfg, run, k - 1);
      assert StepAt(cfg, run, k - 1);
      var step :| Enabled(cfg, run[k - 1], step) && run[k] == Apply(cfg, run[k - 1], step);
      StepInv(cfg, run[k - 1], step);
    }
  }

  lemma NextGrows(cfg: Config, s: System, s': System, v: Validator)
    requires Inv(cfg, s) && Next(cfg, s, s') && ProposerDiscipline(cfg, s'.votes) && Honest(cfg, v)
    ensures v in s.nodes && v in s'.nodes && s.nodes[v].log <= s'.nodes[v].log
  {
    var step :| Enabled(cfg, s, step) && s' == Apply(cfg, s, step);
    StepInv(cfg, s, step);
  }

  lemma StepGrows(cfg: Config, run: seq<System>, k: nat, v: Validator)
    requires IsRun(cfg, run) && k + 1 < |run| && ProposerDiscipline(cfg, run[|run| - 1].votes)
    requires Honest(cfg, v)
    ensures v in run[k].nodes && v in run[k + 1].nodes && run[k].nodes[v].log <= run[k + 1].nodes[v].log
  {
    hide Apply, Enabled, Inv, Init;
    RunInv(cfg, run, k);
    RunDisciplined(cfg, run, k + 1);
    assert StepAt(cfg, run, k);
    NextGrows(cfg, run[k], run[k + 1], v);
  }

  lemma HonestPresent(cfg: Config, run: seq<System>, k: nat, v: Validator)
    requires IsRun(cfg, run) && k < |run| && ProposerDiscipline(cfg, run[|run| - 1].votes)
    requires Honest(cfg, v)
    ensures v in run[k].nodes
  {
    RunInv(cfg, run, k);
  }

  /** A replica's commit log only ever grows. */
  lemma {:induction false} LogGrows(cfg: Config, run: seq<System>, j: nat, k: nat, v: Validator)
    requires IsRun(cfg, run) && j <= k < |run| && ProposerDiscipline(cfg, run[|run| - 1].votes)
    requires Honest(cfg, v)
    ensures v in run[j].nodes && v in run[k].nodes && run[j].nodes[v].log <= run[k].nodes[v].log
    decreases k
  {
    hide ProposerDiscipline, Init, StepAt;
    HonestPresent(cfg, run, j, v);
    if j < k {
      LogGrows(cfg, run, j, k - 1, v);
      StepGrows(cfg, run, k - 1, v);
    }
  }

  /**
   * Agreement: whatever replicas v and w have committed, at whatever moments of the run,
   * one log is a prefix of the other.
   */
  lemma CommittedLogsAgree(cfg: Config, run: seq<System>, j: nat, k: nat, v: Validator, w: Validator)
    requires IsRun(cfg, run) && ProposerDiscipline(cfg, run[|run| - 1].votes)
    requires j < |run| && k < |run| && Honest(cfg, v) && Honest(cfg, w)
    ensures v in run[j].nodes && w in run[k].nodes
    ensures run[j].nodes[v].log <= run[k].nodes[w].log || run[k].nodes[w].log <= run[j].nodes[v].log
  {
    var last := |run| - 1;
    RunInv(cfg, run, last);
    LogGrows(cfg, run, j, last, v);
    LogGrows(cfg, run, k, last, w);
    var s := run[last];
    InvGivesSoundVotes(cfg, s);
    ReadyOnOneChain(cfg, s.votes, s.nodes[v].bExec, s.nodes[w].bExec);
    if Extends(s.nodes[v].bExec, s.nodes[w].bExec) {
      ExtendsPath(s.nodes[v].bExec, s.nodes[w].bExec);
    } else {
      ExtendsPath(s.nodes[w].bExec, s.nodes[v].bExec);
    }
  }

  /** No honest replica ever dies in the fatal branch, and its log is a chain of consecutive heights. */
  lemma NeverBreached(cfg: Config, run: seq<System>, k: nat, v: Validator)
    requires IsRun(cfg, run) && ProposerDiscipline(cfg, run[|run| - 1].votes)
    requires k < |run| && Honest(cfg, v)
    ensures v in run[k].nodes && !run[k].nodes[v].crashed
    ensures var log := run[k].nodes[v].log;
      && (forall i :: 0 <= i < |log| ==> log[i].Block? && Height(log[i]) == i + 1)
      && (forall i :: 0 < i < |log| ==> log[i].parent == log[i - 1])
      && (|log| > 0 ==> log[0].parent == Genesis)
  {
    RunInv(cfg, run, k);
    var s := run[k];
    InvGivesSoundVotes(cfg, s);
    var b := s.nodes[v].bExec;
    if b.Block? {
      ReadyIsCertified(cfg, s.votes, b);
    }
    PathHeights(b);
    PathLinks(b);
  }

  lemma {:induction false} PathLinks(b: Block)
    ensures b.Block? ==> |Path(b)| > 0 && Path(b)[|Path(b)| - 1] == b
    ensures forall i :: 0 <= i < |Path(b)| ==> Path(b)[i].Block?
    ensures forall i :: 0 < i < |Path(b)| ==> Path(b)[i].parent == Path(b)[i - 1]
    ensures |Path(b)| > 0 ==> Path(b)[0].parent == Genesis
  {
    if b.Block? {
      PathLinks(b.parent);
      assert Path(b) == Path(b.parent) + [b];
    }
  }

  // ----------------------------------------------- an equivocating leader

  const FOUR := Config(4, {3})

  const B1 := Block(Genesis, 1, 0, Genesis, 0, 1)
  const C1 := Block(Genesis, 1, 0, Genesis, 0, 2)
  const B2 := Block(B1, 2, 0, B1, 0, 1)
  const C2 := Block(C1, 2, 0, C1, 0, 2)

  const TRIO: set<Validator> := {0, 1, 2}

  ghost function GenesisVotes(): set<Vote> {
    set v | v in {0, 1, 2, 3} :: Vote(v, Genesis, 0)
  }

  ghost function VotesOf(blk: Block): set<Vote> {
    {Vote(0, blk, 0), Vote(1, blk, 0), Vote(2, blk, 0)}
  }

  ghost predicate Reachable(cfg: Config, s: System) {
    exists run :: IsRun(cfg, run) && run[|run| - 1] == s
  }

  lemma Reach(cfg: Config, s: System, step: Step)
    requires Reachable(cfg, s) && cfg.n > 0 && Enabled(cfg, s, step)
    ensures Reachable(cfg, Apply(cfg, s, step))
  {
    var run :| IsRun(cfg, run) && run[|run| - 1] == s;
    var run' := run + [Apply(cfg, s, step)];
    forall k: nat | k + 1 < |run'| ensures StepAt(cfg, run', k) {
      if k + 1 < |run| { assert StepAt(cfg, run, k); }
    }
    assert IsRun(cfg, run') && run'[|run'| - 1] == Apply(cfg, s, step);
  }

  /** A replica that already holds a certificate of this rank signs any proposal of its leader carrying it. */
  lemma SignAgain(s: System, me: Validator, blk: Block, qc: QC)
    requires Reachable(FOUR, s)
    requires me in s.nodes && CarriesItsQC(blk, qc) && ValidQC(FOUR, s.votes, qc)
    requires Follows(s.nodes[me], qc) && blk.view == 0
    ensures Reachable(FOUR, System(s.nodes, s.votes + {Vote(me, blk, 0)}))
  {
    Reach(FOUR, s, RecvProposal(me, blk, qc, 3, true));
    assert s.nodes[me := s.nodes[me]] == s.nodes;
  }

  /** A replica in view 0 that follows leader 3 and holds a certificate of the same rank as `qc`. */
  predicate Follows(nd: Node, qc: QC) {
    !nd.crashed && nd.view == 0 && nd.viewChange == 0 && nd.leaderIndex == 3 && CmpQCPriority(qc, nd.qcHigh) == 0
  }

  ghost function Trio(nd0: Node, nd1: Node, nd2: Node): map<Validator, Node> {
    map[0 := nd0, 1 := nd1, 2 := nd2]
  }

  /** All three honest replicas sign the same proposal. */
  lemma AllSign(nd: Node, votes: set<Vote>, blk: Block, qc: QC)
    requires Reachable(FOUR, System(Trio(nd, nd, nd), votes))
    requires CarriesItsQC(blk, qc) && blk.view == 0
    requires ValidQC(FOUR, votes, qc) && Follows(nd, qc)
    ensures Reachable(FOUR, System(Trio(nd, nd, nd), votes + VotesOf(blk)))
  {
    var m := Trio(nd, nd, nd);
    SignAgain(System(m, votes), 0, blk, qc);
    var v1 := votes + {Vote(0, blk, 0)};
    SignAgain(System(m, v1), 1, blk, qc);
    var v2 := v1 + {Vote(1, blk, 0)};
    SignAgain(System(m, v2), 2, blk, qc);
    assert v2 + {Vote(2, blk, 0)} == votes + VotesOf(blk);
  }

  lemma TrioIsMajority()
    ensures IsMajority(4, TRIO)
  {
    assert TRIO == {0} + {1} + {2};
  }

  /** The start: three honest replicas that follow leader 3, and the genesis votes. */
  lemma Start()
    ensures Reachable(FOUR, System(Trio(Initial(4, 3), Initial(4, 3), Initial(4, 3)), GenesisVotes()))
  {
    var s := System(Trio(Initial(4, 3), Initial(4, 3), Initial(4, 3)), GenesisVotes());
    assert |FOUR.faulty| == 1;
    assert IsRun(FOUR, [s]);
  }

  lemma Adopt(s: System, me: Validator, qc: QC, nd': Node)
    requires Reachable(FOUR, s)
    requires me in s.nodes && !s.nodes[me].crashed && ValidQC(FOUR, s.votes, qc)
    requires ReceiveQC(s.nodes[me], 4, me, qc, 0, false, false) == (nd', None)
    ensures Reachable(FOUR, System(s.nodes[me := nd'], s.votes))
  {
    Reach(FOUR, s, RecvQC(me, qc, 0, false, false));
    assert s.votes + {} == s.votes;
  }

  const FIRST := Initial(4, 3)
  const HELD := Initial(4, 3).(qcHigh := QC(B1, 0, TRIO), bLeaf := B1, highQCCount := 1)

  ghost function RoundOne(): set<Vote> { GenesisVotes() + VotesOf(B1) + VotesOf(C1) }
  ghost function RoundTwo(): set<Vote> { RoundOne() + VotesOf(B2) + VotesOf(C2) }

  lemma FirstRound()
    ensures Reachable(FOUR, System(Trio(FIRST, FIRST, FIRST), RoundOne()))
  {
    Start();
    assert ValidQC(FOUR, GenesisVotes(), GenesisQC(4));
    AllSign(FIRST, GenesisVotes(), B1, GenesisQC(4));
    assert ValidQC(FOUR, GenesisVotes() + VotesOf(B1), GenesisQC(4));
    AllSign(FIRST, GenesisVotes() + VotesOf(B1), C1, GenesisQC(4));
  }

  lemma TrioQC(votes: set<Vote>, blk: Block)
    requires VotesOf(blk) <= votes
    ensures ValidQC(FOUR, votes, QC(blk, 0, TRIO))
  {
    TrioIsMajority();
    assert Vote(0, blk, 0) in VotesOf(blk) && Vote(1, blk, 0) in VotesOf(blk) && Vote(2, blk, 0) in VotesOf(blk);
  }

  /** Any one honest replica may take up the certificate for B1. */
  lemma AdoptFirst(s: System, me: Validator)
    requires Reachable(FOUR, s) && me in s.nodes && s.nodes[me] == FIRST && me < 3 && VotesOf(B1) <= s.votes
    ensures Reachable(FOUR, System(s.nodes[me := HELD], s.votes))
  {
    TrioQC(s.votes, B1);
    Adopt(s, me, QC(B1, 0, TRIO), HELD);
  }

  lemma AllAdopt()
    ensures Reachable(FOUR, System(Trio(HELD, HELD, HELD), RoundOne()))
  {
    hide Reachable, Initial;
    FirstRound();
    AdoptFirst(System(Trio(FIRST, FIRST, FIRST), RoundOne()), 0);
    assert Trio(FIRST, FIRST, FIRST)[0 := HELD] == Trio(HELD, FIRST, FIRST);
    AdoptFirst(System(Trio(HELD, FIRST, FIRST), RoundOne()), 1);
    assert Trio(HELD, FIRST, FIRST)[1 := HELD] == Trio(HELD, HELD, FIRST);
    AdoptFirst(System(Trio(HELD, HELD, FIRST), RoundOne()), 2);
    assert Trio(HELD, HELD, FIRST)[2 := HELD] == Trio(HELD, HELD, HELD);
  }

  lemma SecondRound()
    ensures Reachable(FOUR, System(Trio(HELD, HELD, HELD), RoundTwo()))
  {
    AllAdopt();
    TrioQC(RoundOne(), B1);
    AllSign(HELD, RoundOne(), B2, QC(B1, 0, TRIO));
    TrioQC(RoundOne() + VotesOf(B2), C1);
    AllSign(HELD, RoundOne() + VotesOf(B2), C2, QC(C1, 0, TRIO));
  }

  /** A certificate for the second block of either chain makes the replica commit the first. */
  lemma CommitsParent(me: Validator, parent: Block, child: Block) returns (nd: Node)
    requires me < 3 && (parent == B1 || parent == C1) && child == Block(parent, 2, 0, parent, 0, parent.payload)
    ensures ReceiveQC(HELD, 4, me, QC(child, 0, TRIO), 0, false, false) == (nd, None)
    ensures !HELD.crashed && nd.log == [parent] && !nd.crashed
  {
    assert OnCommit(Genesis, Genesis) == Some([]);
    assert OnCommit(Genesis, parent) == Some([] + [parent]);
    nd := ReceiveQC(HELD, 4, me, QC(child, 0, TRIO), 0, false, false).0;
  }

  /**
   * Without the discipline the code does not agree: leader 3 of four proposes two chains in view 0,
   * every honest replica signs both, and replicas 0 and 1 commit different blocks at height 1.
   */
  lemma EquivocationBreaksAgreement() returns (s: System)
    ensures Reachable(FOUR, s)
    ensures 0 in s.nodes && 1 in s.nodes && Honest(FOUR, 0) && Honest(FOUR, 1)
    ensures s.nodes[0].log == [B1] && s.nodes[1].log == [C1] && B1 != C1
    ensures !ProposerDiscipline(FOUR, s.votes)
  {
    hide Reachable, ReceiveQC, Initial, ProposerDiscipline, ValidQC;
    SecondRound();
    var nd0 := CommitsParent(0, B1, B2);
    var nd1 := CommitsParent(1, C1, C2);
    var s0 := System(Trio(HELD, HELD, HELD), RoundTwo());
    TrioQC(RoundTwo(), B2);
    TrioQC(RoundTwo(), C2);
    Adopt(s0, 0, QC(B2, 0, TRIO), nd0);
    var s1 := System(s0.nodes[0 := nd0], RoundTwo());
    Adopt(s1, 1, QC(C2, 0, TRIO), nd1);
    s := System(s1.nodes[1 := nd1], RoundTwo());
    Undisciplined(s.votes);
  }

  lemma Undisciplined(votes: set<Vote>)
    requires VotesOf(B1) <= votes && VotesOf(C1) <= votes
    ensures !ProposerDiscipline(FOUR, votes)
  {
    TrioQC(votes, B1);
    TrioQC(votes, C1);
    assert Certified(FOUR, votes, B1, View(B1)) && Certified(FOUR, votes, C1, View(C1));
    assert !OnOneChain(B1, C1);
  }
}
