// The replicas together with an adversarial network: every run of the system,
// with up to n - MajorityCount(n) faulty validators, commits one chain.
module ConsensusRun {
  import opened Common
  import opened Chain
  import opened Quorum
  import opened Replica

  datatype Config = Config(n: nat, faulty: set<Validator>)

  ghost predicate ValidConfig(cfg: Config) {
    && cfg.n > 0
    && |cfg.faulty| <= cfg.n - MajorityCount(cfg.n)
  }

  predicate Honest(cfg: Config, v: Validator) {
    v < cfg.n && v !in cfg.faulty
  }

  /** The honest replicas, and every vote ever signed. Messages can be delivered to anyone, in any order. */
  datatype System = System(nodes: map<Validator, Node>, votes: set<Vote>)

  /** A certificate that passes validation: a majority of distinct validators signed this block and view. */
  ghost predicate ValidQC(cfg: Config, votes: set<Vote>, qc: QC) {
    && IsMajority(cfg.n, qc.signers)
    && forall v :: v in qc.signers ==> Vote(v, qc.blk, qc.view) in votes
  }

  datatype Step =
    | RecvProposal(me: Validator, blk: Block, qc: QC, proposer: Validator, ok: bool)
    | RecvVote(me: Validator, vote: Vote, enoughQuota: bool)
    | MakeProposal(me: Validator, payload: nat, canVote: bool, enoughQuota: bool)
    | RecvQC(me: Validator, qc: QC, payload: nat, canVote: bool, enoughQuota: bool)
    | TimeoutLeader(me: Validator)
    | TimeoutView(me: Validator)
    | FaultyVote(vote: Vote)

  ghost predicate Init(cfg: Config, s: System) {
    && ValidConfig(cfg)
    && (forall v :: v in s.nodes <==> Honest(cfg, v))
    && (forall v :: v in s.nodes ==> exists leader :: s.nodes[v] == Initial(cfg.n, leader))
    && (forall v :: v in s.votes ==> v.blk == Genesis && v.view == 0)
    && (forall v: Validator :: v < cfg.n ==> Vote(v, Genesis, 0) in s.votes)
  }

  ghost predicate Enabled(cfg: Config, s: System, step: Step) {
    match step
    case FaultyVote(vote) => !Honest(cfg, vote.voter)
    case RecvProposal(me, blk, qc, proposer, ok) =>
      me in s.nodes && !s.nodes[me].crashed && CarriesItsQC(blk, qc) && ValidQC(cfg, s.votes, qc)
    case RecvVote(me, vote, _) =>
      me in s.nodes && !s.nodes[me].crashed && vote in s.votes && vote.voter < cfg.n
    case RecvQC(me, qc, _, _, _) => me in s.nodes && !s.nodes[me].crashed && ValidQC(cfg, s.votes, qc)
    case _ => step.me in s.nodes && !s.nodes[step.me].crashed
  }

  /** The replica's next state and the vote it signs, if any. */
  ghost function Local(cfg: Config, s: System, step: Step): (Node, Option<Block>)
    requires cfg.n > 0 && Enabled(cfg, s, step) && !step.FaultyVote?
  {
    var nd := s.nodes[step.me];
    match step
    case RecvProposal(me, blk, qc, proposer, ok) =>
      var r := ReceiveProposal(nd, blk, qc, proposer, ok);
      (r.0, if r.1 then Some(blk) else None)
    case RecvVote(me, vote, enough) => (ReceiveVote(nd, cfg.n, vote, enough), None)
    case MakeProposal(me, payload, canVote, enough) => Propose(nd, cfg.n, me, payload, canVote, enough)
    case RecvQC(me, qc, payload, canVote, enough) => ReceiveQC(nd, cfg.n, me, qc, payload, canVote, enough)
    case TimeoutLeader(me) => (LeaderTimeout(nd, cfg.n, me), None)
    case TimeoutView(me) => (ChangeView(nd, cfg.n, me), None)
  }

  ghost function Signed(me: Validator, voted: Option<Block>): set<Vote> {
    if voted.None? then {} else {Vote(me, voted.value, View(voted.value))}
  }

  ghost function Apply(cfg: Config, s: System, step: Step): System
    requires cfg.n > 0 && Enabled(cfg, s, step)
  {
    if step.FaultyVote? then s.(votes := s.votes + {step.vote})
    else
      var r := Local(cfg, s, step);
      System(s.nodes[step.me := r.0], s.votes + Signed(step.me, r.1))
  }

  ghost predicate Next(cfg: Config, s: System, s': System) {
    cfg.n > 0 && exists step :: Enabled(cfg, s, step) && s' == Apply(cfg, s, step)
  }

  ghost predicate StepAt(cfg: Config, run: seq<System>, k: nat)
    requires k + 1 < |run|
  {
    Next(cfg, run[k], run[k + 1])
  }

  ghost predicate IsRun(cfg: Config, run: seq<System>) {
    && |run| > 0
    && Init(cfg, run[0])
    && forall k: nat :: k + 1 < |run| ==> StepAt(cfg, run, k)
  }

  ghost predicate Certified(cfg: Config, votes: set<Vote>, blk: Block, view: nat) {
    exists signers :: ValidQC(cfg, votes, QC(blk, view, signers))
  }

  /**
   * What the receivers do not check and the proposers must provide, asked only of blocks that get
   * certified: the parent is the certified block, one height below, and the blocks of one view lie on
   * one chain.
   */
  ghost predicate ProposerDiscipline(cfg: Config, votes: set<Vote>) {
    && LinksDisciplined(cfg, votes)
    && ViewsDisciplined(cfg, votes)
  }

  ghost predicate LinksDisciplined(cfg: Config, votes: set<Vote>) {
    forall b, view :: Certified(cfg, votes, b, view) ==> WellLinked(b)
  }

  ghost predicate ViewsDisciplined(cfg: Config, votes: set<Vote>) {
    forall a, b :: Certified(cfg, votes, a, View(a)) && Certified(cfg, votes, b, View(b)) && View(a) == View(b) ==>
      OnOneChain(a, b)
  }

  // ---------------------------------------------------------------- invariant

  /** Certificate priority as a relation between (view, block) pairs. */
  predicate NotAbove(view0: nat, blk0: Block, view1: nat, blk1: Block) {
    view0 < view1 || (view0 == view1 && Height(blk0) <= Height(blk1))
  }

  ghost predicate VoteOk(cfg: Config, s: System, v: Vote)
    requires v.voter in s.nodes
  {
    var nd := s.nodes[v.voter];
    && v.view == View(v.blk)
    && (v.blk.Block? ==>
        && v.view <= nd.view
        && Certified(cfg, s.votes, v.blk.qcRef, v.blk.qcView)
        && NotAbove(v.blk.qcView, v.blk.qcRef, nd.qcHigh.view, nd.qcHigh.blk))
  }

  /** An honest voter never votes in a later view for a block carrying a lower certificate. */
  ghost predicate VoteOrder(cfg: Config, votes: set<Vote>) {
    forall v, w :: v in votes && w in votes && v.voter == w.voter && Honest(cfg, v.voter) ==>
      v.blk.Block? && w.blk.Block? && v.view < w.view ==>
      NotAbove(v.blk.qcView, v.blk.qcRef, w.blk.qcView, w.blk.qcRef)
  }

  /** What allows a commit: a certified child in the same view. */
  ghost predicate CommitReady(cfg: Config, votes: set<Vote>, blk: Block) {
    blk.Genesis? ||
    exists child: Block :: Certified(cfg, votes, child, View(child)) &&
      child.Block? && child.parent == blk && child.view == View(blk)
  }

  ghost predicate NodeOk(cfg: Config, votes: set<Vote>, nd: Node) {
    && !nd.crashed
    && ValidQC(cfg, votes, nd.qcHigh)
    && CommitReady(cfg, votes, nd.bExec)
    && nd.log == Path(nd.bExec)
    && (nd.proposal.Some? ==>
        forall v :: v in nd.voters ==> v < cfg.n && Vote(v, nd.proposal.value, View(nd.proposal.value)) in votes)
  }

  ghost predicate VotesOk(cfg: Config, s: System) {
    && (forall v: Validator :: v < cfg.n ==> Vote(v, Genesis, 0) in s.votes)
    && (forall v :: v in s.votes && v.voter in s.nodes ==> VoteOk(cfg, s, v))
    && VoteOrder(cfg, s.votes)
  }

  ghost predicate Inv(cfg: Config, s: System) {
    && ValidConfig(cfg)
    && (forall v :: v in s.nodes <==> Honest(cfg, v))
    && VotesOk(cfg, s)
    && (forall v :: v in s.nodes ==> NodeOk(cfg, s.votes, s.nodes[v]))
  }

  // ------------------------------------------------------------------- safety

  /** The facts about the vote set alone that safety rests on. */
  ghost predicate SoundVotes(cfg: Config, votes: set<Vote>) {
    && ValidConfig(cfg)
    && ProposerDiscipline(cfg, votes)
    && VoteOrder(cfg, votes)
    && (forall v :: v in votes && Honest(cfg, v.voter) ==> v.view == View(v.blk))
    && (forall v :: v in votes && Honest(cfg, v.voter) && v.blk.Block? ==>
          Certified(cfg, votes, v.blk.qcRef, v.blk.qcView))
  }

  lemma HonestSigner(cfg: Config, votes: set<Vote>, qc: QC) returns (v: Validator)
    requires ValidConfig(cfg) && ValidQC(cfg, votes, qc)
    ensures v in qc.signers && Honest(cfg, v)
  {
    v := HonestIntersection(cfg.n, qc.signers, qc.signers, cfg.faulty);
  }

  /** A certified block is well linked, certified in its own view, and so is its parent. */
  lemma CertifiedFacts(cfg: Config, votes: set<Vote>, blk: Block, view: nat)
    requires SoundVotes(cfg, votes) && Certified(cfg, votes, blk, view)
    ensures view == View(blk) && WellLinked(blk)
    ensures exists v :: v in votes && Honest(cfg, v.voter) && v.blk == blk
    ensures blk.Block? ==> Certified(cfg, votes, blk.parent, blk.qcView)
  {
    var signers :| ValidQC(cfg, votes, QC(blk, view, signers));
    var v := HonestSigner(cfg, votes, QC(blk, view, signers));
    assert Vote(v, blk, view) in votes;
  }

  lemma {:induction false} CertifiedChain(cfg: Config, votes: set<Vote>, blk: Block, view: nat)
    requires SoundVotes(cfg, votes) && Certified(cfg, votes, blk, view)
    ensures ChainLinked(blk)
    decreases blk
  {
    CertifiedFacts(cfg, votes, blk, view);
    if blk.Block? {
      CertifiedChain(cfg, votes, blk.parent, blk.qcView);
    }
  }

  lemma CertifiedSameView(cfg: Config, votes: set<Vote>, a: Block, b: Block)
    requires SoundVotes(cfg, votes)
    requires Certified(cfg, votes, a, View(a)) && Certified(cfg, votes, b, View(b))
    requires View(a) == View(b)
    ensures OnOneChain(a, b)
  {
    CertifiedFacts(cfg, votes, a, View(a));
    CertifiedFacts(cfg, votes, b, View(b));
  }

  /** Some honest validator voted both blocks, and its later vote carried no lower certificate. */
  lemma CommonVoter(cfg: Config, votes: set<Vote>, a: Block, b: Block) returns (v: Validator)
    requires SoundVotes(cfg, votes)
    requires Certified(cfg, votes, a, View(a)) && Certified(cfg, votes, b, View(b))
    requires a.Block? && b.Block? && a.view < b.view
    ensures Honest(cfg, v) && Vote(v, a, a.view) in votes && Vote(v, b, b.view) in votes
    ensures NotAbove(a.qcView, a.qcRef, b.qcView, b.qcRef)
  {
    var sa :| ValidQC(cfg, votes, QC(a, View(a), sa));
    var sb :| ValidQC(cfg, votes, QC(b, View(b), sb));
    v := HonestIntersection(cfg.n, sa, sb, cfg.faulty);
    assert Vote(v, a, a.view) in votes && Vote(v, b, b.view) in votes;
  }

  /** The heart of the commit rule: once a block has a certified child in its own view, every certified
      block of a later view, or of that view and no lower, descends from it. */
  lemma {:induction false} LaterCertifiedExtends(cfg: Config, votes: set<Vote>, child: Block, later: Block)
    requires SoundVotes(cfg, votes)
    requires Certified(cfg, votes, child, View(child)) && child.Block?
    requires View(child.parent) == child.view
    requires Certified(cfg, votes, later, View(later))
    requires NotAbove(child.view, child.parent, View(later), later)
    ensures Extends(later, child.parent)
    decreases later
  {
    var b0 := child.parent;
    CertifiedFacts(cfg, votes, child, View(child));
    CertifiedFacts(cfg, votes, b0, child.qcView);
    CertifiedFacts(cfg, votes, later, View(later));
    if View(later) > child.view {
      var _ := CommonVoter(cfg, votes, child, later);
      CertifiedFacts(cfg, votes, later.parent, later.qcView);
      LaterCertifiedExtends(cfg, votes, child, later.parent);
    } else {
      CertifiedSameView(cfg, votes, b0, later);
      CertifiedChain(cfg, votes, later, View(later));
      CertifiedChain(cfg, votes, b0, View(b0));
      if !Extends(later, b0) {
        ExtendsHeight(b0, later);
      }
    }
  }

  lemma ReadyIsCertified(cfg: Config, votes: set<Vote>, blk: Block)
    requires SoundVotes(cfg, votes) && CommitReady(cfg, votes, blk) && blk.Block?
    ensures Certified(cfg, votes, blk, View(blk)) && ChainLinked(blk)
  {
    var child: Block :| Certified(cfg, votes, child, View(child)) && child.Block? &&
      child.parent == blk && child.view == View(blk);
    CertifiedFacts(cfg, votes, child, View(child));
    CertifiedFacts(cfg, votes, blk, child.qcView);
    CertifiedChain(cfg, votes, blk, View(blk));
  }

  /** Any two blocks that may ever be committed lie on one chain. */
  lemma ReadyOnOneChain(cfg: Config, votes: set<Vote>, a: Block, b: Block)
    requires SoundVotes(cfg, votes)
    requires CommitReady(cfg, votes, a) && CommitReady(cfg, votes, b)
    ensures OnOneChain(a, b)
  {
    ExtendsGenesis(a);
    ExtendsGenesis(b);
    if a.Block? && b.Block? {
      ReadyIsCertified(cfg, votes, a);
      ReadyIsCertified(cfg, votes, b);
      if View(a) == View(b) {
        CertifiedSameView(cfg, votes, a, b);
      } else if View(a) < View(b) {
        ReadyBelow(cfg, votes, a, b);
      } else {
        ReadyBelow(cfg, votes, b, a);
      }
    }
  }

  lemma ReadyBelow(cfg: Config, votes: set<Vote>, a: Block, b: Block)
    requires SoundVotes(cfg, votes)
    requires CommitReady(cfg, votes, a) && a.Block?
    requires Certified(cfg, votes, b, View(b)) && View(a) < View(b)
    ensures Extends(b, a)
  {
    var child: Block :| Certified(cfg, votes, child, View(child)) && child.Block? &&
      child.parent == a && child.view == View(a);
    LaterCertifiedExtends(cfg, votes, child, b);
  }

  /** Committing an extension of the last committed block reaches it and never the fatal branch. */
  lemma {:induction false} OnCommitPath(bExec: Block, blk: Block)
    requires ChainLinked(blk) && Extends(blk, bExec)
    ensures OnCommit(bExec, blk).Some?
    ensures Path(blk) == Path(bExec) + OnCommit(bExec, blk).value
  {
    ExtendsHeight(blk, bExec);
    if blk != bExec {
      OnCommitPath(bExec, blk.parent);
    }
  }

  // ----------------------------------------------------------- preservation

  lemma MoreVotes(cfg: Config, votes: set<Vote>, votes': set<Vote>, nd: Node)
    requires votes <= votes' && NodeOk(cfg, votes, nd)
    ensures NodeOk(cfg, votes', nd)
  {
    if nd.bExec.Block? {
      var child: Block :| Certified(cfg, votes, child, View(child)) && child.Block? &&
        child.parent == nd.bExec && child.view == View(nd.bExec);
      MoreCertified(cfg, votes, votes', child, View(child));
    }
  }

  lemma MoreCertified(cfg: Config, votes: set<Vote>, votes': set<Vote>, blk: Block, view: nat)
    requires votes <= votes' && Certified(cfg, votes, blk, view)
    ensures Certified(cfg, votes', blk, view)
  {
    var signers :| ValidQC(cfg, votes, QC(blk, view, signers));
    assert ValidQC(cfg, votes', QC(blk, view, signers));
  }

  lemma InvGivesSoundVotes(cfg: Config, s: System)
    requires ValidConfig(cfg) && (forall v :: v in s.nodes <==> Honest(cfg, v)) && VotesOk(cfg, s)
    requires ProposerDiscipline(cfg, s.votes)
    ensures SoundVotes(cfg, s.votes)
  {
  }

  /** Raising the high certificate keeps the replica's invariant, and no priority is ever lost. */
  lemma UpdateQCHighOk(cfg: Config, votes: set<Vote>, nd: Node, qc: QC)
    requires SoundVotes(cfg, votes) && NodeOk(cfg, votes, nd) && ValidQC(cfg, votes, qc)
    ensures var nd' := UpdateQCHigh(nd, qc);
      && NodeOk(cfg, votes, nd')
      && NotAbove(nd.qcHigh.view, nd.qcHigh.blk, nd'.qcHigh.view, nd'.qcHigh.blk)
      && NotAbove(qc.view, qc.blk, nd'.qcHigh.view, nd'.qcHigh.blk)
      && nd'.view == nd.view && nd'.leaderIndex == nd.leaderIndex
      && nd.log <= nd'.log
  {
    assert ValidQC(cfg, votes, QC(qc.blk, qc.view, qc.signers));
    assert ValidQC(cfg, votes, QC(nd.qcHigh.blk, nd.qcHigh.view, nd.qcHigh.signers));
    CertifiedFacts(cfg, votes, qc.blk, qc.view);
    CertifiedFacts(cfg, votes, nd.qcHigh.blk, nd.qcHigh.view);
    if CmpQCPriority(qc, nd.qcHigh) == 1 && qc.blk.Block? {
      var blk0 := qc.blk.parent;
      if Height(blk0) > Height(nd.bExec) && View(blk0) == View(qc.blk) {
        CommitOk(cfg, votes, nd, qc.blk);
      }
    }
  }

  lemma CommitOk(cfg: Config, votes: set<Vote>, nd: Node, child: Block)
    requires SoundVotes(cfg, votes) && NodeOk(cfg, votes, nd)
    requires child.Block? && Certified(cfg, votes, child, View(child))
    requires View(child.parent) == child.view && Height(child.parent) > Height(nd.bExec)
    ensures CommitReady(cfg, votes, child.parent)
    ensures OnCommit(nd.bExec, child.parent).Some?
    ensures Path(child.parent) == nd.log + OnCommit(nd.bExec, child.parent).value
  {
    var blk0 := child.parent;
    assert CommitReady(cfg, votes, blk0);
    ReadyOnOneChain(cfg, votes, nd.bExec, blk0);
    ReadyIsCertified(cfg, votes, blk0);
    if !Extends(blk0, nd.bExec) {
      if nd.bExec.Block? { ReadyIsCertified(cfg, votes, nd.bExec); }
      ExtendsHeight(nd.bExec, blk0);
    }
    OnCommitPath(nd.bExec, blk0);
  }

  /** What an honest replica has checked of a block when it signs it. */
  ghost predicate MayVote(cfg: Config, votes: set<Vote>, nd: Node, blk: Block) {
    && blk.Block?
    && nd.view <= blk.view
    && Certified(cfg, votes, blk.qcRef, blk.qcView)
    && NotAbove(nd.qcHigh.view, nd.qcHigh.blk, blk.qcView, blk.qcRef)
  }

  /** The new state has not moved backwards and has caught up with whatever was signed. */
  ghost predicate Advances(nd: Node, nd': Node, voted: Option<Block>) {
    && nd.view <= nd'.view
    && NotAbove(nd.qcHigh.view, nd.qcHigh.blk, nd'.qcHigh.view, nd'.qcHigh.blk)
    && nd.log <= nd'.log
    && (voted.Some? && voted.value.Block? ==>
        && voted.value.view <= nd'.view
        && NotAbove(voted.value.qcView, voted.value.qcRef, nd'.qcHigh.view, nd'.qcHigh.blk))
  }

  /** Signing a block the voting rule allows keeps the votes in order. */
  lemma SigningKeepsOrder(cfg: Config, s: System, me: Validator, blk: Block)
    requires Inv(cfg, s) && me in s.nodes && MayVote(cfg, s.votes, s.nodes[me], blk)
    ensures VoteOrder(cfg, s.votes + {Vote(me, blk, blk.view)})
  {
    hide NodeOk, ProposerDiscipline, Certified, ValidQC;
    forall v | v in s.votes && v.voter == me && v.blk.Block?
      ensures v.view <= blk.view && NotAbove(v.blk.qcView, v.blk.qcRef, blk.qcView, blk.qcRef)
    {
      assert VoteOk(cfg, s, v);
    }
  }

  /** ... and keeps the vote set sound. */
  lemma SigningIsSound(cfg: Config, s: System, me: Validator, blk: Block)
    requires Inv(cfg, s) && me in s.nodes && MayVote(cfg, s.votes, s.nodes[me], blk)
    requires ProposerDiscipline(cfg, s.votes + {Vote(me, blk, blk.view)})
    ensures SoundVotes(cfg, s.votes + {Vote(me, blk, blk.view)})
  {
    hide VoteOrder, ProposerDiscipline, NodeOk, Certified;
    var votes' := s.votes + {Vote(me, blk, blk.view)};
    forall v | v in votes' && Honest(cfg, v.voter) && v.blk.Block?
      ensures Certified(cfg, votes', v.blk.qcRef, v.blk.qcView)
    {
      assert v in s.votes ==> VoteOk(cfg, s, v);
      MoreCertified(cfg, s.votes, votes', v.blk.qcRef, v.blk.qcView);
    }
    SigningKeepsOrder(cfg, s, me, blk);
  }

  lemma CollectVoteOk(cfg: Config, votes: set<Vote>, nd: Node, vote: Vote, enough: bool)
    requires SoundVotes(cfg, votes) && NodeOk(cfg, votes, nd) && vote in votes && vote.voter < cfg.n
    ensures var nd' := CollectVote(nd, cfg.n, vote, enough);
      NodeOk(cfg, votes, nd') && Advances(nd, nd', None)
  {
    hide SoundVotes, UpdateQCHigh, CommitReady;
    if nd.proposal.Some? && nd.proposal.value == vote.blk && View(vote.blk) == vote.view && vote.voter !in nd.voters {
      var nd1 := nd.(voters := nd.voters + {vote.voter});
      if |nd1.voters| >= MajorityCount(cfg.n) && enough {
        UpdateQCHighOk(cfg, votes, nd1.(proposal := None, voters := {}), QC(vote.blk, vote.view, nd1.voters));
      }
    }
  }

  lemma FewerVotesDisciplined(cfg: Config, votes: set<Vote>, votes': set<Vote>)
    requires votes <= votes' && ProposerDiscipline(cfg, votes')
    ensures ProposerDiscipline(cfg, votes)
  {
    hide Certified;
    forall b, view | Certified(cfg, votes, b, view) ensures Certified(cfg, votes', b, view) {
      MoreCertified(cfg, votes, votes', b, view);
    }
  }

  lemma ReceiveProposalOk(cfg: Config, s: System, step: Step)
    requires Inv(cfg, s) && ProposerDiscipline(cfg, s.votes)
    requires step.RecvProposal? && Enabled(cfg, s, step)
    ensures var r := Local(cfg, s, step);
      && NodeOk(cfg, s.votes, r.0) && Advances(s.nodes[step.me], r.0, r.1)
      && (r.1.Some? ==> MayVote(cfg, s.votes, s.nodes[step.me], r.1.value))
  {
    hide SoundVotes, ProposerDiscipline, VotesOk, UpdateQCHigh, CommitReady;
    InvGivesSoundVotes(cfg, s);
    var nd1 := Approve(s.nodes[step.me], step.blk.view, step.proposer);
    UpdateQCHighOk(cfg, s.votes, nd1, step.qc);
    assert ValidQC(cfg, s.votes, QC(step.qc.blk, step.qc.view, step.qc.signers));
  }

  /** A leader's own proposal carries its high certificate, so signing it is allowed. */
  lemma CreateProposalOk(cfg: Config, s: System, me: Validator, nd: Node, parent: Block, payload: nat,
                         canVote: bool, enough: bool)
    requires Inv(cfg, s) && me in s.nodes
    requires NodeOk(cfg, s.votes, nd) && Advances(s.nodes[me], nd, None)
    requires canVote ==> ProposerDiscipline(cfg, s.votes + Signed(me, Some(NewBlock(nd, parent, payload))))
    ensures var r := CreateProposal(nd, cfg.n, me, parent, payload, canVote, enough);
      && NodeOk(cfg, s.votes + Signed(me, r.1), r.0) && Advances(s.nodes[me], r.0, r.1)
      && (r.1.Some? ==> MayVote(cfg, s.votes, s.nodes[me], r.1.value))
  {
    var blk := NewBlock(nd, parent, payload);
    var nd1 := nd.(bLeaf := blk, proposal := Some(blk), voters := {});
    var nd2 := Approve(nd1, nd.view, me);
    assert UpdateQCHigh(nd2, nd.qcHigh) == nd2;
    assert NodeOk(cfg, s.votes, nd2);
    assert ValidQC(cfg, s.votes, QC(nd.qcHigh.blk, nd.qcHigh.view, nd.qcHigh.signers));
    if canVote {
      SigningIsSound(cfg, s, me, blk);
      var votes' := s.votes + {Vote(me, blk, blk.view)};
      MoreVotes(cfg, s.votes, votes', nd2);
      CollectVoteOk(cfg, votes', nd2, Vote(me, blk, blk.view), enough);
    }
  }

  lemma ReceiveQCOk(cfg: Config, s: System, step: Step)
    requires Inv(cfg, s)
    requires step.RecvQC? && Enabled(cfg, s, step)
    requires ProposerDiscipline(cfg, s.votes + Signed(step.me, Local(cfg, s, step).1))
    ensures var r := Local(cfg, s, step);
      && NodeOk(cfg, s.votes + Signed(step.me, r.1), r.0) && Advances(s.nodes[step.me], r.0, r.1)
      && (r.1.Some? ==> MayVote(cfg, s.votes, s.nodes[step.me], r.1.value))
  {
    hide SoundVotes, ProposerDiscipline, VotesOk, UpdateQCHigh, ValidQC, CommitReady;
    FewerVotesDisciplined(cfg, s.votes, s.votes + Signed(step.me, Local(cfg, s, step).1));
    InvGivesSoundVotes(cfg, s);
    var nd := s.nodes[step.me];
    UpdateQCHighOk(cfg, s.votes, nd, step.qc);
    var nd1 := UpdateQCHigh(nd, step.qc);
    var nd2 := EnterNextView(nd1, cfg.n);
    var nd3 := nd2.(highQCCount := nd2.highQCCount + 1);
    assert NodeOk(cfg, s.votes, nd3) && Advances(nd, nd3, None);
    if nd3.highQCCount >= MajorityCount(cfg.n) && nd3.leaderIndex == step.me {
      CreateProposalOk(cfg, s, step.me, nd3, nd3.qcHigh.blk, step.payload, step.canVote, step.enoughQuota);
    } else {
      assert s.votes + {} == s.votes;
    }
  }

  lemma LocalOk(cfg: Config, s: System, step: Step)
    requires Inv(cfg, s) && Enabled(cfg, s, step) && !step.FaultyVote?
    requires ProposerDiscipline(cfg, s.votes + Signed(step.me, Local(cfg, s, step).1))
    ensures var r := Local(cfg, s, step);
      && NodeOk(cfg, s.votes + Signed(step.me, r.1), r.0) && Advances(s.nodes[step.me], r.0, r.1)
      && (r.1.Some? ==> MayVote(cfg, s.votes, s.nodes[step.me], r.1.value))
  {
    hide SoundVotes, ProposerDiscipline, VotesOk, CollectVote, ReceiveProposal, ReceiveQC, CommitReady, ValidQC;
    var nd := s.nodes[step.me];
    var r := Local(cfg, s, step);
    assert r.1.None? ==> s.votes + Signed(step.me, r.1) == s.votes;
    FewerVotesDisciplined(cfg, s.votes, s.votes + Signed(step.me, r.1));
    match step
    case RecvProposal(me, blk, qc, proposer, ok) =>
      ReceiveProposalOk(cfg, s, step);
      MoreVotes(cfg, s.votes, s.votes + Signed(step.me, r.1), r.0);
    case RecvVote(me, vote, enough) =>
      InvGivesSoundVotes(cfg, s);
      CollectVoteOk(cfg, s.votes, nd, vote, enough);
    case MakeProposal(me, payload, canVote, enough) =>
      if nd.viewChange == 0 && nd.leaderIndex == me {
        CreateProposalOk(cfg, s, me, nd, nd.bLeaf, payload, canVote, enough);
      }
    case RecvQC(me, qc, payload, canVote, enough) =>
      ReceiveQCOk(cfg, s, step);
    case TimeoutLeader(me) =>
    case TimeoutView(me) =>
  }

  lemma InitInv(cfg: Config, s: System)
    requires Init(cfg, s)
    ensures Inv(cfg, s)
  {
    forall v | v in s.nodes ensures NodeOk(cfg, s.votes, s.nodes[v]) {
      var leader :| s.nodes[v] == Initial(cfg.n, leader);
    }
  }

  lemma FaultyVoteInv(cfg: Config, s: System, vote: Vote)
    requires Inv(cfg, s) && !Honest(cfg, vote.voter)
    ensures Inv(cfg, s.(votes := s.votes + {vote}))
  {
    var s' := s.(votes := s.votes + {vote});
    forall v | v in s.nodes ensures NodeOk(cfg, s'.votes, s'.nodes[v]) {
      MoreVotes(cfg, s.votes, s'.votes, s.nodes[v]);
    }
    forall v | v in s'.votes && v.voter in s'.nodes ensures VoteOk(cfg, s', v) {
      assert VoteOk(cfg, s, v);
      if v.blk.Block? { MoreCertified(cfg, s.votes, s'.votes, v.blk.qcRef, v.blk.qcView); }
    }
  }

  lemma StepVotesOk(cfg: Config, s: System, me: Validator, nd': Node, voted: Option<Block>)
    requires Inv(cfg, s) && me in s.nodes
    requires ProposerDiscipline(cfg, s.votes + Signed(me, voted))
    requires Advances(s.nodes[me], nd', voted)
    requires voted.Some? ==> MayVote(cfg, s.votes, s.nodes[me], voted.value)
    ensures VotesOk(cfg, System(s.nodes[me := nd'], s.votes + Signed(me, voted)))
  {
    var s' := System(s.nodes[me := nd'], s.votes + Signed(me, voted));
    forall v | v in s'.votes && v.voter in s'.nodes ensures VoteOk(cfg, s', v) {
      if v in s.votes { assert VoteOk(cfg, s, v); }
      if v.blk.Block? { MoreCertified(cfg, s.votes, s'.votes, v.blk.qcRef, v.blk.qcView); }
    }
    if voted.Some? {
      SigningIsSound(cfg, s, me, voted.value);
    } else {
      assert s'.votes == s.votes;
    }
  }

  /** Every step keeps the invariant, as long as the proposers have been disciplined so far. */
  lemma StepInv(cfg: Config, s: System, step: Step)
    requires Inv(cfg, s) && Enabled(cfg, s, step)
    requires ProposerDiscipline(cfg, Apply(cfg, s, step).votes)
    ensures Inv(cfg, Apply(cfg, s, step))
    ensures forall v :: v in s.nodes ==> s.nodes[v].log <= Apply(cfg, s, step).nodes[v].log
  {
    hide ProposerDiscipline, VotesOk, NodeOk, Local;
    if step.FaultyVote? {
      FaultyVoteInv(cfg, s, step.vote);
    } else {
      LocalOk(cfg, s, step);
      var r := Local(cfg, s, step);
      var s' := Apply(cfg, s, step);
      StepVotesOk(cfg, s, step.me, r.0, r.1);
      forall v | v in s'.nodes ensures NodeOk(cfg, s'.votes, s'.nodes[v]) {
        if v != step.me { MoreVotes(cfg, s.votes, s'.votes, s.nodes[v]); }
      }
    }
  }
}
