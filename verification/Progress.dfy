// What the protocol is for: a leader that a majority follows gets its blocks committed, by everyone in it.
module Progress {
  import opened Common
  import opened Chain
  import opened Quorum
  import opened Replica
  import opened ReplicaRules
  import opened ConsensusRun

  // ------------------------------------------------ going on from a state

  /** Some sequence of steps leads from the first state to the second. */
  ghost predicate LeadsTo(cfg: Config, s: System, s': System) {
    exists run :: IsWay(cfg, run) && run[0] == s && run[|run| - 1] == s'
  }

  ghost predicate IsWay(cfg: Config, run: seq<System>) {
    |run| > 0 && forall k: nat :: k + 1 < |run| ==> StepAt(cfg, run, k)
  }

  lemma Stay(cfg: Config, s: System)
    ensures LeadsTo(cfg, s, s)
  {
    assert IsWay(cfg, [s]);
  }

  lemma Go(cfg: Config, s0: System, s: System, step: Step)
    requires LeadsTo(cfg, s0, s) && cfg.n > 0 && Enabled(cfg, s, step)
    ensures LeadsTo(cfg, s0, Apply(cfg, s, step))
  {
    hide Enabled, Apply;
    var run :| IsWay(cfg, run) && run[0] == s0 && run[|run| - 1] == s;
    var run' := run + [Apply(cfg, s, step)];
    forall k: nat | k + 1 < |run'| ensures StepAt(cfg, run', k) {
      if k + 1 < |run| { assert StepAt(cfg, run, k); }
    }
    assert IsWay(cfg, run');
  }

  // ------------------------------------------------ a leader and those who follow it

  /** The leader of the view, settled, with its high certificate for its leaf. */
  predicate Leads(nd: Node, me: Validator, view: nat, qc: QC) {
    && !nd.crashed && nd.view == view && nd.leaderIndex == me && nd.viewChange == 0
    && nd.qcHigh == qc && nd.bLeaf == qc.blk
  }

  /** Settled in the leader's view, with no higher certificate. */
  predicate Trails(nd: Node, leader: Validator, view: nat, qc: QC) {
    !nd.crashed && nd.view == view && nd.leaderIndex == leader && nd.viewChange == 0 && !Outranks(nd.qcHigh, qc)
  }

  predicate Distinct(fs: seq<Validator>) {
    forall i, j :: 0 <= i < j < |fs| ==> fs[i] != fs[j]
  }

  /** The leader and its followers are a majority, and in one view. */
  ghost predicate Ready(cfg: Config, s: System, leader: Validator, fs: seq<Validator>, view: nat, qc: QC) {
    && Inv(cfg, s) && leader in s.nodes && Leads(s.nodes[leader], leader, view, qc) && qc.view <= view
    && fs != [] && Distinct(fs) && |fs| + 1 == MajorityCount(cfg.n)
    && forall i :: 0 <= i < |fs| ==> fs[i] in s.nodes && fs[i] != leader && Trails(s.nodes[fs[i]], leader, view, qc)
  }

  /** The block a leader proposes on its high certificate. */
  function Proposal(view: nat, qc: QC, payload: nat): Block {
    Block(qc.blk, Height(qc.blk) + 1, view, qc.blk, qc.view, payload)
  }

  function First(fs: seq<Validator>, k: nat): set<Validator>
    requires k <= |fs|
  {
    if k == 0 then {} else First(fs, k - 1) + {fs[k - 1]}
  }

  lemma {:induction false} FirstIs(fs: seq<Validator>, k: nat, v: Validator)
    requires k <= |fs|
    ensures v in First(fs, k) <==> exists i :: 0 <= i < k && fs[i] == v
  {
    if k > 0 { FirstIs(fs, k - 1, v); }
  }

  /** The votes of the leader and of its first k followers. */
  function VotesFor(leader: Validator, fs: seq<Validator>, k: nat, blk: Block): set<Vote>
    requires k <= |fs|
  {
    {Vote(leader, blk, View(blk))} + set i | 0 <= i < k :: Vote(fs[i], blk, View(blk))
  }

  /** Another follower is another voter. */
  lemma OneMore(leader: Validator, fs: seq<Validator>, k: nat)
    requires Distinct(fs) && k < |fs| && fs[k] != leader
    ensures {leader} + First(fs, k + 1) == ({leader} + First(fs, k)) + {fs[k]}
    ensures fs[k] !in {leader} + First(fs, k)
  {
    FirstIs(fs, k, fs[k]);
  }

  lemma {:induction false} CountFirst(leader: Validator, fs: seq<Validator>, k: nat)
    requires Distinct(fs) && k <= |fs| && forall i :: 0 <= i < |fs| ==> fs[i] != leader
    ensures |{leader} + First(fs, k)| == k + 1
  {
    hide First;
    if k == 0 {
      FirstNone(fs);
      assert {leader} + {} == {leader};
    } else {
      CountFirst(leader, fs, k - 1);
      OneMore(leader, fs, k - 1);
    }
  }

  lemma FirstNone(fs: seq<Validator>)
    ensures First(fs, 0) == {}
  {
  }

  // ------------------------------------------------ one round

  /** The leader has proposed and voted; nothing else has changed. */
  ghost predicate Opened(s: System, s1: System, leader: Validator, blk: Block) {
    && leader in s.nodes && s1.votes == s.votes + {Vote(leader, blk, View(blk))}
    && s1.nodes == s.nodes[leader := s.nodes[leader].(bLeaf := blk, proposal := Some(blk), voters := {leader})]
  }

  lemma Proposes(cfg: Config, s0: System, s: System, leader: Validator, fs: seq<Validator>, view: nat, qc: QC,
                 payload: nat) returns (s1: System)
    requires LeadsTo(cfg, s0, s) && Ready(cfg, s, leader, fs, view, qc)
    requires ProposerDiscipline(cfg, s.votes + VotesFor(leader, fs, 0, Proposal(view, qc, payload)))
    ensures LeadsTo(cfg, s0, s1) && Inv(cfg, s1) && Opened(s, s1, leader, Proposal(view, qc, payload))
  {
    hide LeadsTo, Inv, ProposerDiscipline;
    var step, blk, nd := MakeProposal(leader, payload, true, true), Proposal(view, qc, payload), s.nodes[leader];
    InvParts(cfg, s);
    s1 := Apply(cfg, s, step);
    assert Local(cfg, s, step) == (nd.(bLeaf := blk, proposal := Some(blk), voters := {leader}), Some(blk)) by {
      assert {} + {leader} == {leader} && |{leader}| == 1;
    }
    assert VotesFor(leader, fs, 0, blk) == {Vote(leader, blk, View(blk))};
    Go(cfg, s0, s, step);
    StepInv(cfg, s, step);
  }

  lemma InvParts(cfg: Config, s: System)
    requires Inv(cfg, s)
    ensures cfg.n > 0 && forall v :: v in s.nodes ==>
      !s.nodes[v].crashed && v < cfg.n && ValidQC(cfg, s.votes, s.nodes[v].qcHigh)
  {
  }

  /** What a follower is once it has received the proposal. */
  ghost predicate Heeds(before: Node, after: Node, blk: Block, qc: QC, leader: Validator) {
    && blk.Block? && Faced(before, after, qc) && !after.crashed
  }

  /** The first k followers have received the proposal and voted for it. */
  ghost predicate Spread(s1: System, s2: System, leader: Validator, fs: seq<Validator>, k: nat, blk: Block, qc: QC)
    requires k <= |fs|
  {
    && s2.nodes.Keys == s1.nodes.Keys && leader in s1.nodes && s2.nodes[leader] == s1.nodes[leader]
    && (forall i :: 0 <= i < |fs| ==> fs[i] in s1.nodes)
    && (forall i :: 0 <= i < k ==> Heeds(s1.nodes[fs[i]], s2.nodes[fs[i]], blk, qc, leader))
    && (forall i :: k <= i < |fs| ==> s2.nodes[fs[i]] == s1.nodes[fs[i]])
    && s2.votes == s1.votes + VotesFor(leader, fs, k, blk)
  }

  /** One more follower. */
  lemma OneVotes(cfg: Config, s0: System, s1: System, s2: System, leader: Validator, fs: seq<Validator>, k: nat,
                 blk: Block, qc: QC) returns (s3: System)
    requires LeadsTo(cfg, s0, s2) && Inv(cfg, s2) && k < |fs| && Distinct(fs)
    requires Spread(s1, s2, leader, fs, k, blk, qc) && fs[k] != leader
    requires CarriesItsQC(blk, qc) && ValidQC(cfg, s1.votes, qc) && Trails(s1.nodes[fs[k]], leader, blk.view, qc)
    requires ProposerDiscipline(cfg, s1.votes + VotesFor(leader, fs, k + 1, blk))
    ensures LeadsTo(cfg, s0, s3) && Inv(cfg, s3) && Spread(s1, s3, leader, fs, k + 1, blk, qc)
  {
    hide LeadsTo, Inv, ProposerDiscipline, Faced, ValidQC;
    var f := fs[k];
    var nd, step := s2.nodes[f], RecvProposal(f, blk, qc, leader, true);
    InvParts(cfg, s2);
    MoreSigned(cfg, s1.votes, s2.votes, qc);
    s3 := Apply(cfg, s2, step);
    var (after, voted) := ReceiveProposal(nd, blk, qc, leader, true);
    HeardRight(nd, blk, qc, leader, true);
    LocalOkFor(cfg, s2, step, s1.votes + VotesFor(leader, fs, k + 1, blk));
    assert after.leaderIndex == leader && voted by { FacedKeeps(nd, after, qc); }
    assert VotesFor(leader, fs, k + 1, blk) == VotesFor(leader, fs, k, blk) + {Vote(f, blk, View(blk))};
    assert s3.votes == s1.votes + VotesFor(leader, fs, k + 1, blk);
    Go(cfg, s0, s2, step);
    StepInv(cfg, s2, step);
  }

  lemma MoreSigned(cfg: Config, votes: set<Vote>, votes': set<Vote>, qc: QC)
    requires votes <= votes' && ValidQC(cfg, votes, qc)
    ensures ValidQC(cfg, votes', qc)
  {
  }

  lemma FacedKeeps(nd: Node, nd': Node, qc: QC)
    requires Faced(nd, nd', qc)
    ensures nd'.view == nd.view && nd'.leaderIndex == nd.leaderIndex && nd'.viewChange == nd.viewChange
    ensures !nd'.crashed ==> nd'.qcHigh == if Outranks(qc, nd.qcHigh) then qc else nd.qcHigh
  {
  }

  /** Receiving a proposal does not crash a replica of a disciplined system. */
  lemma LocalOkFor(cfg: Config, s: System, step: Step, votes: set<Vote>)
    requires Inv(cfg, s) && step.RecvProposal? && Enabled(cfg, s, step)
    requires s.votes <= votes && ProposerDiscipline(cfg, votes)
    ensures !Local(cfg, s, step).0.crashed
  {
    FewerVotesDisciplined(cfg, s.votes, votes);
    hide ProposerDiscipline;
    ReceiveProposalOk(cfg, s, step);
  }

  /** All followers vote. */
  lemma {:induction false} AllVote(cfg: Config, s0: System, s1: System, leader: Validator, fs: seq<Validator>, k: nat,
                                   blk: Block, qc: QC) returns (s2: System)
    requires LeadsTo(cfg, s0, s1) && Inv(cfg, s1) && k <= |fs| && Distinct(fs) && leader in s1.nodes
    requires Vote(leader, blk, View(blk)) in s1.votes && CarriesItsQC(blk, qc) && ValidQC(cfg, s1.votes, qc)
    requires forall i :: 0 <= i < |fs| ==>
      fs[i] in s1.nodes && fs[i] != leader && Trails(s1.nodes[fs[i]], leader, blk.view, qc)
    requires ProposerDiscipline(cfg, s1.votes + VotesFor(leader, fs, |fs|, blk))
    ensures LeadsTo(cfg, s0, s2) && Inv(cfg, s2) && Spread(s1, s2, leader, fs, k, blk, qc)
  {
    hide LeadsTo, Inv, ValidQC, ProposerDiscipline, Heeds;
    if k == 0 {
      s2 := s1;
      assert s1.votes + VotesFor(leader, fs, 0, blk) == s1.votes;
    } else {
      var s := AllVote(cfg, s0, s1, leader, fs, k - 1, blk, qc);
      assert VotesFor(leader, fs, k, blk) <= VotesFor(leader, fs, |fs|, blk);
      FewerVotesDisciplined(cfg, s1.votes + VotesFor(leader, fs, k, blk), s1.votes + VotesFor(leader, fs, |fs|, blk));
      s2 := OneVotes(cfg, s0, s1, s, leader, fs, k - 1, blk, qc);
    }
  }

  /** The leader has counted its own vote and those of its first k followers. */
  ghost predicate Counting(s2: System, s3: System, leader: Validator, fs: seq<Validator>, k: nat)
    requires k <= |fs|
  {
    && leader in s2.nodes && s3.votes == s2.votes
    && s3.nodes == s2.nodes[leader := s2.nodes[leader].(voters := {leader} + First(fs, k))]
  }

  lemma {:induction false} Counts(cfg: Config, s0: System, s2: System, leader: Validator, fs: seq<Validator>, k: nat,
                                  blk: Block) returns (s3: System)
    requires LeadsTo(cfg, s0, s2) && Inv(cfg, s2) && k < |fs| && Distinct(fs) && leader in s2.nodes
    requires ProposerDiscipline(cfg, s2.votes) && |fs| + 1 == MajorityCount(cfg.n)
    requires var nd := s2.nodes[leader];
      nd.viewChange == 0 && nd.proposal == Some(blk) && nd.voters == {leader}
    requires forall i :: 0 <= i < |fs| ==>
      fs[i] in s2.nodes && fs[i] != leader && Vote(fs[i], blk, View(blk)) in s2.votes
    ensures LeadsTo(cfg, s0, s3) && Inv(cfg, s3) && Counting(s2, s3, leader, fs, k)
  {
    hide LeadsTo, Inv, ProposerDiscipline, First, MajorityCount;
    if k == 0 {
      s3 := s2;
      FirstNone(fs);
      assert {leader} + {} == {leader};
      assert s2.nodes[leader := s2.nodes[leader]] == s2.nodes;
    } else {
      var s := Counts(cfg, s0, s2, leader, fs, k - 1, blk);
      CountFirst(leader, fs, k);
      OneMore(leader, fs, k - 1);
      assert s.nodes[leader].voters == {leader} + First(fs, k - 1);
      s3 := CountNext(cfg, s0, s, leader, Vote(fs[k - 1], blk, View(blk)));
    }
  }

  lemma CountNext(cfg: Config, s0: System, s: System, leader: Validator, vote: Vote) returns (s': System)
    requires LeadsTo(cfg, s0, s) && Inv(cfg, s) && ProposerDiscipline(cfg, s.votes)
    requires leader in s.nodes && vote.voter in s.nodes && vote in s.votes
    requires s.nodes[leader].viewChange == 0 && Fits(s.nodes[leader], vote)
    requires |s.nodes[leader].voters + {vote.voter}| < MajorityCount(cfg.n)
    ensures LeadsTo(cfg, s0, s') && Inv(cfg, s') && s'.votes == s.votes
    ensures s'.nodes == s.nodes[leader := s.nodes[leader].(voters := s.nodes[leader].voters + {vote.voter})]
  {
    hide LeadsTo, Inv, ProposerDiscipline, UpdateQCHigh, MajorityCount;
    var step := RecvVote(leader, vote, true);
    InvParts(cfg, s);
    CountsOne(s.nodes[leader], cfg.n, vote);
    s' := Apply(cfg, s, step);
    assert s'.votes == s.votes;
    Go(cfg, s0, s, step);
    StepInv(cfg, s, step);
  }

  /** A vote that does not make a majority is counted and that is all. */
  lemma CountsOne(nd: Node, n: nat, vote: Vote)
    requires nd.viewChange == 0 && Fits(nd, vote) && |nd.voters + {vote.voter}| < MajorityCount(n)
    ensures ReceiveVote(nd, n, vote, true) == nd.(voters := nd.voters + {vote.voter})
  {
  }

  /** The last vote makes the certificate. */
  lemma Certifies(nd: Node, n: nat, vote: Vote)
    requires nd.viewChange == 0 && Fits(nd, vote) && |nd.voters + {vote.voter}| >= MajorityCount(n)
    ensures ReceiveVote(nd, n, vote, true) ==
      UpdateQCHigh(nd.(proposal := None, voters := {}), QC(vote.blk, vote.view, nd.voters + {vote.voter}))
  {
  }

  lemma Completes(cfg: Config, s0: System, s2: System, leader: Validator, fs: seq<Validator>, blk: Block)
    returns (s3: System)
    requires LeadsTo(cfg, s0, s2) && Inv(cfg, s2) && fs != [] && Distinct(fs) && leader in s2.nodes
    requires ProposerDiscipline(cfg, s2.votes) && |fs| + 1 == MajorityCount(cfg.n)
    requires var nd := s2.nodes[leader];
      nd.viewChange == 0 && nd.proposal == Some(blk) && nd.voters == {leader}
    requires forall i :: 0 <= i < |fs| ==>
      fs[i] in s2.nodes && fs[i] != leader && Vote(fs[i], blk, View(blk)) in s2.votes
    ensures LeadsTo(cfg, s0, s3) && Inv(cfg, s3) && s3.votes == s2.votes
    ensures leader in s3.nodes && s3.nodes == s2.nodes[leader := s3.nodes[leader]] && !s3.nodes[leader].crashed
    ensures Faced(s2.nodes[leader].(proposal := None, voters := {}), s3.nodes[leader],
      QC(blk, View(blk), {leader} + First(fs, |fs|)))
  {
    hide LeadsTo, Inv, ProposerDiscipline, UpdateQCHigh, First, Faced;
    var k := |fs| - 1;
    var s := Counts(cfg, s0, s2, leader, fs, k, blk);
    var nd, vote := s.nodes[leader], Vote(fs[k], blk, View(blk));
    var step := RecvVote(leader, vote, true);
    InvParts(cfg, s);
    assert leader in s.nodes && fs[k] in s.nodes;
    CountFirst(leader, fs, k + 1);
    OneMore(leader, fs, k);
    Certifies(nd, cfg.n, vote);
    FacedRight(nd.(proposal := None, voters := {}), QC(blk, View(blk), {leader} + First(fs, |fs|)));
    s3 := Apply(cfg, s, step);
    assert s3.votes == s.votes;
    assert s2.nodes[leader := s3.nodes[leader]] == s3.nodes;
    Go(cfg, s0, s, step);
    StepInv(cfg, s, step);
    InvParts(cfg, s3);
  }

  /** What a round does: everyone but the leader has faced its old certificate, the leader the new one. */
  ghost predicate Round(cfg: Config, s: System, s': System, leader: Validator, fs: seq<Validator>, view: nat, qc: QC,
                        payload: nat, qc': QC)
  {
    var blk := Proposal(view, qc, payload);
    && s'.nodes.Keys == s.nodes.Keys && leader in s.nodes && (forall i :: 0 <= i < |fs| ==> fs[i] in s.nodes)
    && s'.votes == s.votes + VotesFor(leader, fs, |fs|, blk)
    && qc' == QC(blk, view, {leader} + First(fs, |fs|))
    && (forall i :: 0 <= i < |fs| ==> Faced(s.nodes[fs[i]], s'.nodes[fs[i]], qc))
    && Faced(s.nodes[leader].(bLeaf := blk, proposal := None, voters := {}), s'.nodes[leader], qc')
    && !s'.nodes[leader].crashed && forall i :: 0 <= i < |fs| ==> !s'.nodes[fs[i]].crashed
  }

  /** A leader that is ready can have its next block certified by its followers, and is then ready again. */
  lemma NextRound(cfg: Config, s0: System, s: System, leader: Validator, fs: seq<Validator>, view: nat, qc: QC,
                  payload: nat) returns (s': System, qc': QC)
    requires LeadsTo(cfg, s0, s) && Ready(cfg, s, leader, fs, view, qc)
    requires ProposerDiscipline(cfg, s.votes + VotesFor(leader, fs, |fs|, Proposal(view, qc, payload)))
    ensures LeadsTo(cfg, s0, s') && Ready(cfg, s', leader, fs, view, qc')
    ensures Round(cfg, s, s', leader, fs, view, qc, payload, qc')
  {
    hide LeadsTo, Inv, ProposerDiscipline, First, Faced, ValidQC;
    var blk := Proposal(view, qc, payload);
    InvParts(cfg, s);
    assert VotesFor(leader, fs, 0, blk) <= VotesFor(leader, fs, |fs|, blk);
    FewerVotesDisciplined(cfg, s.votes + VotesFor(leader, fs, 0, blk), s.votes + VotesFor(leader, fs, |fs|, blk));
    var s1 := Proposes(cfg, s0, s, leader, fs, view, qc, payload);
    assert s1.votes + VotesFor(leader, fs, |fs|, blk) == s.votes + VotesFor(leader, fs, |fs|, blk);
    MoreSigned(cfg, s.votes, s1.votes, qc);
    var s2 := AllVote(cfg, s0, s1, leader, fs, |fs|, blk, qc);
    s' := Completes(cfg, s0, s2, leader, fs, blk);
    qc' := QC(blk, view, {leader} + First(fs, |fs|));
    FacedKeeps(s2.nodes[leader].(proposal := None, voters := {}), s'.nodes[leader], qc');
    FacedLeaf(s2.nodes[leader].(proposal := None, voters := {}), s'.nodes[leader], qc');
    forall i | 0 <= i < |fs|
      ensures Faced(s.nodes[fs[i]], s'.nodes[fs[i]], qc) && !s'.nodes[fs[i]].crashed
      ensures Trails(s'.nodes[fs[i]], leader, view, qc')
    {
      assert Heeds(s1.nodes[fs[i]], s2.nodes[fs[i]], blk, qc, leader);
      FacedKeeps(s.nodes[fs[i]], s'.nodes[fs[i]], qc);
    }
  }

  lemma FacedLeaf(nd: Node, nd': Node, qc: QC)
    requires Faced(nd, nd', qc) && !nd'.crashed && qc.blk.Block? && Outranks(qc, nd.qcHigh)
    ensures nd'.bLeaf == qc.blk && nd'.qcHigh == qc
    ensures Commits(nd, qc.blk) ==> nd'.bExec == qc.blk.parent
    ensures !Commits(nd, qc.blk) ==> nd'.bExec == nd.bExec
  {
  }

  // ------------------------------------------------ round after round, from genesis

  /** The payloads of a chain, oldest first. */
  function Payloads(b: Block): seq<nat> {
    if b.Genesis? then [] else Payloads(b.parent) + [b.payload]
  }

  /** Every vote so far was for a block of this chain, in the block's view. */
  ghost predicate OnChain(votes: set<Vote>, top: Block) {
    forall v :: v in votes ==> Extends(top, v.blk) && v.view == View(v.blk)
  }

  /** Votes for one linked chain are disciplined. */
  lemma OneChainDisciplined(cfg: Config, votes: set<Vote>, top: Block)
    requires cfg.n > 0 && OnChain(votes, top) && ChainLinked(top)
    ensures ProposerDiscipline(cfg, votes)
  {
    hide MajorityCount, ChainLinked, WellLinked;
    forall b, view | Certified(cfg, votes, b, view) ensures Extends(top, b) && WellLinked(b) {
      var signers :| ValidQC(cfg, votes, QC(b, view, signers));
      SomeSigner(cfg, signers);
      var v :| v in signers;
      assert Vote(v, b, view) in votes;
      LinkedBelow(top, b);
    }
    forall a, b | Certified(cfg, votes, a, View(a)) && Certified(cfg, votes, b, View(b)) ensures OnOneChain(a, b) {
      AncestorsOnOneChain(top, a, b);
    }
  }

  lemma SomeSigner(cfg: Config, signers: set<Validator>)
    requires cfg.n > 0 && IsMajority(cfg.n, signers)
    ensures signers != {}
  {
  }

  lemma {:induction false} LinkedBelow(top: Block, b: Block)
    requires ChainLinked(top) && Extends(top, b)
    ensures WellLinked(b)
  {
    if top != b { LinkedBelow(top.parent, b); }
  }

  /** After some rounds in view 0: what was committed lags at most two blocks behind, at the leader one. */
  ghost predicate Grown(cfg: Config, s: System, leader: Validator, fs: seq<Validator>, qc: QC, payloads: seq<nat>) {
    && Ready(cfg, s, leader, fs, 0, qc) && OnChain(s.votes, qc.blk) && ChainLinked(qc.blk)
    && Payloads(qc.blk) == payloads && qc.view == View(qc.blk) == 0 && (qc.blk.Block? ==> View(qc.blk.parent) == 0)
    && Height(s.nodes[leader].bExec) + 1 >= Height(qc.blk)
    && forall i :: 0 <= i < |fs| ==> Lags(s.nodes[fs[i]], qc)
  }

  predicate Lags(nd: Node, qc: QC) {
    && nd.qcHigh.view == 0 && Height(nd.bExec) + 2 >= Height(qc.blk)
    && (Height(nd.qcHigh.blk) < Height(qc.blk) || qc.blk.Genesis?)
  }

  lemma Grow(cfg: Config, s0: System, s: System, leader: Validator, fs: seq<Validator>, qc: QC, payloads: seq<nat>,
             payload: nat) returns (s': System, qc': QC)
    requires LeadsTo(cfg, s0, s) && Grown(cfg, s, leader, fs, qc, payloads)
    ensures LeadsTo(cfg, s0, s') && Grown(cfg, s', leader, fs, qc', payloads + [payload])
  {
    hide LeadsTo, Inv, ProposerDiscipline, First, Faced, Ready, OnChain;
    var blk := Proposal(0, qc, payload);
    var votes := s.votes + VotesFor(leader, fs, |fs|, blk);
    ReadyParts(cfg, s, leader, fs, 0, qc);
    ChainGrows(s.votes, leader, fs, qc.blk, blk);
    OneChainDisciplined(cfg, votes, blk);
    s', qc' := NextRound(cfg, s0, s, leader, fs, 0, qc, payload);
    ReadyParts(cfg, s', leader, fs, 0, qc');
    LeaderKeepsUp(s.nodes[leader].(bLeaf := blk, proposal := None, voters := {}), s'.nodes[leader], qc');
    forall i | 0 <= i < |fs| ensures Lags(s'.nodes[fs[i]], qc') {
      FollowerKeepsUp(s.nodes[fs[i]], s'.nodes[fs[i]], qc, qc');
    }
  }

  lemma ReadyParts(cfg: Config, s: System, leader: Validator, fs: seq<Validator>, view: nat, qc: QC)
    requires Ready(cfg, s, leader, fs, view, qc)
    ensures Inv(cfg, s) && cfg.n > 0 && leader in s.nodes && s.nodes[leader].qcHigh == qc
    ensures forall i :: 0 <= i < |fs| ==> fs[i] in s.nodes && Trails(s.nodes[fs[i]], leader, view, qc)
  {
    hide LinksDisciplined;
  }

  lemma ChainGrows(votes: set<Vote>, leader: Validator, fs: seq<Validator>, top: Block, blk: Block)
    requires OnChain(votes, top) && blk.Block? && blk.parent == top
    ensures OnChain(votes + VotesFor(leader, fs, |fs|, blk), blk)
  {
  }

  lemma LeaderKeepsUp(nd: Node, nd': Node, qc: QC)
    requires Faced(nd, nd', qc) && !nd'.crashed && qc.blk.Block? && Outranks(qc, nd.qcHigh)
    requires View(qc.blk) == View(qc.blk.parent) && qc.blk.height == Height(qc.blk.parent) + 1
    ensures Height(nd'.bExec) + 1 >= Height(qc.blk)
  {
  }

  lemma FollowerKeepsUp(nd: Node, nd': Node, qc: QC, qc': QC)
    requires Faced(nd, nd', qc) && !nd'.crashed && !Outranks(nd.qcHigh, qc) && Lags(nd, qc) && qc.view == 0
    requires qc.blk.Block? ==> View(qc.blk) == View(qc.blk.parent) && qc.blk.height == Height(qc.blk.parent) + 1
    requires qc'.blk.Block? && Height(qc'.blk) == Height(qc.blk) + 1
    ensures Lags(nd', qc')
  {
  }

  /** As many rounds as there are payloads. */
  lemma {:induction false} Rounds(cfg: Config, s0: System, leader: Validator, fs: seq<Validator>, payloads: seq<nat>)
    returns (s: System, qc: QC)
    requires Starts(cfg, s0, leader, fs)
    ensures LeadsTo(cfg, s0, s) && Grown(cfg, s, leader, fs, qc, payloads)
  {
    hide LeadsTo, Inv;
    if payloads == [] {
      s, qc := s0, GenesisQC(cfg.n);
      Stay(cfg, s0);
      StartsGrown(cfg, s0, leader, fs);
    } else {
      var n := |payloads| - 1;
      assert payloads[..n] + [payloads[n]] == payloads;
      s, qc := Rounds(cfg, s0, leader, fs, payloads[..n]);
      s, qc := Grow(cfg, s0, s, leader, fs, qc, payloads[..n], payloads[n]);
    }
  }

  /** The system after genesis: everyone takes the same validator for the leader, and a majority is honest. */
  ghost predicate Starts(cfg: Config, s: System, leader: Validator, fs: seq<Validator>) {
    && Init(cfg, s) && Honest(cfg, leader)
    && (forall v :: v in s.nodes ==> s.nodes[v] == Initial(cfg.n, leader))
    && fs != [] && Distinct(fs) && |fs| + 1 == MajorityCount(cfg.n)
    && forall i :: 0 <= i < |fs| ==> Honest(cfg, fs[i]) && fs[i] != leader
  }

  lemma StartsGrown(cfg: Config, s: System, leader: Validator, fs: seq<Validator>)
    requires Starts(cfg, s, leader, fs)
    ensures Grown(cfg, s, leader, fs, GenesisQC(cfg.n), [])
  {
    InitInv(cfg, s);
    hide Inv;
  }

  /** Whatever was committed is a part of the one chain there is. */
  lemma LogsOnChain(cfg: Config, votes: set<Vote>, nd: Node, top: Block)
    requires NodeOk(cfg, votes, nd) && OnChain(votes, top) && cfg.n > 0 && ChainLinked(top)
    ensures nd.log <= Path(top) && |nd.log| == Height(nd.bExec)
  {
    if nd.bExec.Genesis? {
    } else {
      var child: Block :| Certified(cfg, votes, child, View(child)) && child.Block? && child.parent == nd.bExec;
      var signers :| ValidQC(cfg, votes, QC(child, View(child), signers));
      SomeSigner(cfg, signers);
      var v :| v in signers;
      assert Vote(v, child, View(child)) in votes;
      ExtendsParent(top, child);
      ExtendsPath(top, nd.bExec);
      ExtendsHeight(top, nd.bExec);
      PathHeights(nd.bExec);
    }
  }

  lemma {:induction false} ExtendsParent(top: Block, child: Block)
    requires Extends(top, child) && child.Block?
    ensures Extends(top, child.parent)
  {
    if top != child { ExtendsParent(top.parent, child); }
  }

  lemma {:induction false} PathPayloads(b: Block)
    ensures |Path(b)| == |Payloads(b)|
    ensures forall i :: 0 <= i < |Path(b)| ==> Path(b)[i].Block? && Path(b)[i].payload == Payloads(b)[i]
  {
    if b.Block? { PathPayloads(b.parent); }
  }

  /** The log begins with blocks that carry these payloads, in this order. */
  predicate Delivered(log: seq<Block>, payloads: seq<nat>) {
    |payloads| <= |log| && forall i :: 0 <= i < |payloads| ==> log[i].Block? && log[i].payload == payloads[i]
  }

  /**
   * From genesis, whatever a leader wants committed can be committed, in that order, by itself and everyone
   * in a majority of honest validators: the protocol never has to stand still.
   */
  lemma LeaderDelivers(cfg: Config, s0: System, leader: Validator, fs: seq<Validator>, payloads: seq<nat>)
    returns (s: System)
    requires Starts(cfg, s0, leader, fs)
    ensures LeadsTo(cfg, s0, s)
    ensures leader in s.nodes && Delivered(s.nodes[leader].log, payloads)
    ensures forall i :: 0 <= i < |fs| ==> fs[i] in s.nodes && Delivered(s.nodes[fs[i]].log, payloads)
  {
    hide LeadsTo, Inv, Ready, OnChain;
    var all := payloads + [0, 0];
    var qc: QC;
    s, qc := Rounds(cfg, s0, leader, fs, all);
    ReadyParts(cfg, s, leader, fs, 0, qc);
    DeliveredBy(cfg, s, leader, qc, payloads);
    forall i | 0 <= i < |fs| ensures Delivered(s.nodes[fs[i]].log, payloads) {
      assert Lags(s.nodes[fs[i]], qc);
      DeliveredBy(cfg, s, fs[i], qc, payloads);
    }
  }

  lemma DeliveredBy(cfg: Config, s: System, v: Validator, qc: QC, payloads: seq<nat>)
    requires Inv(cfg, s) && v in s.nodes && OnChain(s.votes, qc.blk) && ChainLinked(qc.blk)
    requires Payloads(qc.blk) == payloads + [0, 0] && Height(s.nodes[v].bExec) + 2 >= Height(qc.blk)
    ensures Delivered(s.nodes[v].log, payloads)
  {
    hide OnChain, ChainLinked;
    LogsOnChain(cfg, s.votes, s.nodes[v], qc.blk);
    PathPayloads(qc.blk);
    PathHeights(qc.blk);
  }
}
