// The replica as the object it is: fields updated in place, each method proved
// to take the object from one state of module Replica to the next, and to keep
// it safe in every system it can be part of.
module ReplicaObject {
  import opened Common
  import opened Chain
  import opened Quorum
  import opened Replica
  import opened ReplicaRules
  import opened ConsensusRun

  /** The replica in a system that is in order. */
  ghost predicate PartOf(cfg: Config, s: System, me: Validator, n: nat, nd: Node) {
    Inv(cfg, s) && cfg.n == n && me in s.nodes && s.nodes[me] == nd
  }

  /** Not crashed, its log the path to a block that may be committed and only grown, its vote an allowed one. */
  ghost predicate Safe(cfg: Config, s: System, me: Validator, before: Node, after: Node, voted: Option<Block>) {
    && NodeOk(cfg, s.votes + Signed(me, voted), after) && Advances(before, after, voted)
    && (voted.Some? ==> MayVote(cfg, s.votes, before, voted.value))
  }

  /** In every system the step can happen in, with disciplined proposers, it is safe. */
  ghost predicate SafeStep(step: Step, n: nat, before: Node, after: Node, voted: Option<Block>)
    requires !step.FaultyVote?
  {
    forall cfg, s :: CanHappen(cfg, s, step, n, before, voted) ==> Safe(cfg, s, step.me, before, after, voted)
  }

  ghost predicate CanHappen(cfg: Config, s: System, step: Step, n: nat, before: Node, voted: Option<Block>)
    requires !step.FaultyVote?
  {
    && PartOf(cfg, s, step.me, n, before) && Enabled(cfg, s, step)
    && ProposerDiscipline(cfg, s.votes + Signed(step.me, voted))
  }

  lemma StepIsSafe(step: Step, n: nat, before: Node, after: Node, voted: Option<Block>)
    requires !step.FaultyVote? && n > 0
    requires forall cfg, s :: PartOf(cfg, s, step.me, n, before) && Enabled(cfg, s, step) ==>
      Local(cfg, s, step) == (after, voted)
    ensures SafeStep(step, n, before, after, voted)
  {
    hide Inv, Enabled, Local, NodeOk, Advances, MayVote, ProposerDiscipline;
    forall cfg, s | CanHappen(cfg, s, step, n, before, voted) ensures Safe(cfg, s, step.me, before, after, voted) {
      LocalOk(cfg, s, step);
    }
  }

  lemma TimeoutsSafe(me: Validator, n: nat, nd: Node)
    requires n > 0
    ensures SafeStep(TimeoutView(me), n, nd, ChangeView(nd, n, me), None)
    ensures SafeStep(TimeoutLeader(me), n, nd, LeaderTimeout(nd, n, me), None)
  {
    hide Inv, SafeStep;
    StepIsSafe(TimeoutView(me), n, nd, ChangeView(nd, n, me), None);
    StepIsSafe(TimeoutLeader(me), n, nd, LeaderTimeout(nd, n, me), None);
  }

  class Driver {
    const n: nat
    const me: Validator
    var view: nat
    var leaderIndex: Validator
    var viewChange: int
    var qcHigh: QC
    var bLeaf: Block
    var bExec: Block
    var log: seq<Block>
    var proposal: Option<Block>
    var voters: set<Validator>
    var oldView: nat
    var highQCCount: nat
    var timeoutCount: nat
    var crashed: bool

    function State(): (nd: Node)
      reads this
    {
      Node(view, leaderIndex, viewChange, qcHigh, bLeaf, bExec, log, proposal, voters,
           oldView, highQCCount, timeoutCount, crashed)
    }

    constructor (n: nat, me: Validator, leader: Validator)
      ensures this.n == n && this.me == me && State() == Initial(n, leader)
    {
      this.n, this.me := n, me;
      view, leaderIndex, viewChange := 0, leader, 0;
      qcHigh, bLeaf, bExec, log := GenesisQC(n), Genesis, Genesis, [];
      proposal, voters := None, {};
      oldView, highQCCount, timeoutCount, crashed := 0, 0, 0, false;
    }

    /** Commits the missing ancestors first; the last committed block itself moves only afterwards. */
    method OnCommit(blk: Block)
      requires !crashed
      modifies this
      ensures var r := Replica.OnCommit(old(bExec), blk);
        State() == if r.None? then old(State()).(crashed := true) else old(State()).(log := old(log) + r.value)
      ensures crashed <==> Under(blk, Height(bExec)) != bExec
      ensures !crashed ==> old(log) <= log && Path(blk) == Path(bExec) + log[|old(log)|..]
      decreases blk
    {
      if Height(blk) > Height(bExec) {
        OnCommit(blk.parent);
        if crashed {
          return;
        }
        log := log + [blk];
      } else if bExec != blk {
        crashed := true;
      }
    }

    method CommitRecursive(blk: Block)
      requires !crashed
      modifies this
      ensures State() == Replica.CommitRecursive(old(State()), blk)
      ensures Committed(old(State()), State(), blk)
    {
      hide Committed, Under, Path;
      CommitRight(State(), blk);
      OnCommit(blk);
      if !crashed {
        bExec := blk;
      }
    }

    method UpdateQCHigh(qc: QC)
      requires !crashed
      modifies this
      ensures State() == Replica.UpdateQCHigh(old(State()), qc) && Faced(old(State()), State(), qc)
      ensures forall cfg, votes ::
        SoundVotes(cfg, votes) && NodeOk(cfg, votes, old(State())) && ValidQC(cfg, votes, qc) ==>
          NodeOk(cfg, votes, State()) && old(log) <= log
    {
      forall cfg, votes | SoundVotes(cfg, votes) && NodeOk(cfg, votes, State()) && ValidQC(cfg, votes, qc)
        ensures NodeOk(cfg, votes, Replica.UpdateQCHigh(State(), qc)) && log <= Replica.UpdateQCHigh(State(), qc).log
      {
        UpdateQCHighOk(cfg, votes, State(), qc);
      }
      FacedRight(State(), qc);
      Raise(qc);
    }

    method Raise(qc: QC)
      requires !crashed
      modifies this
      ensures State() == Replica.UpdateQCHigh(old(State()), qc)
    {
      if CmpQCPriority(qc, qcHigh) == 1 {
        var blk1 := qc.blk;
        if blk1.Genesis? {
          crashed := true;
          return;
        }
        var blk0 := blk1.parent;
        qcHigh := qc;
        bLeaf := blk1;
        if Height(blk0) > Height(bExec) && View(blk0) == View(blk1) {
          CommitRecursive(blk0);
        }
      }
    }

    method ApproveProposal(blkView: nat, proposer: Validator)
      modifies this
      ensures State() == Approve(old(State()), blkView, proposer)
      ensures State() == if TakenFor(old(State()), blkView, proposer) then Following(old(State()), blkView, proposer)
                         else old(State())
    {
      if IsNewViewApproval(State(), blkView, proposer) {
        viewChange := 0;
        view := blkView;
        leaderIndex := proposer;
        timeoutCount := 0;
        highQCCount := 0;
      }
    }

    method OnReceiveProposal(blk: Block, qc: QC, proposer: Validator, ok: bool) returns (voted: bool)
      requires !crashed && CarriesItsQC(blk, qc)
      modifies this
      ensures (State(), voted) == ReceiveProposal(old(State()), blk, qc, proposer, ok)
      ensures Heard(old(State()), State(), blk, qc, proposer)
      ensures voted <==> Heeded(old(State()), blk, qc, proposer) && !crashed && leaderIndex == proposer && ok
      ensures n > 0 ==> SafeStep(RecvProposal(me, blk, qc, proposer, ok), n, old(State()), State(),
        if voted then Some(blk) else None)
    {
      hide Inv, SafeStep, Heard, Heeded;
      HeardRight(State(), blk, qc, proposer, ok);
      voted := Weigh(blk, qc, proposer, ok);
      if n > 0 {
        StepIsSafe(RecvProposal(me, blk, qc, proposer, ok), n, old(State()), State(),
          if voted then Some(blk) else None);
      }
    }

    method Weigh(blk: Block, qc: QC, proposer: Validator, ok: bool) returns (voted: bool)
      requires !crashed && CarriesItsQC(blk, qc)
      modifies this
      ensures (State(), voted) == ReceiveProposal(old(State()), blk, qc, proposer, ok)
    {
      ApproveProposal(blk.view, proposer);
      if view > blk.view {
        return false;
      }
      if CmpQCPriority(qc, qcHigh) < 0 {
        return false;
      }
      UpdateQCHigh(qc);
      return !crashed && leaderIndex == proposer && ok;
    }

    method Collect(vote: Vote, enoughQuota: bool)
      requires !crashed
      modifies this
      ensures State() == CollectVote(old(State()), n, vote, enoughQuota)
    {
      if proposal.None? || proposal.value != vote.blk || View(vote.blk) != vote.view || vote.voter in voters {
        return;
      }
      voters := voters + {vote.voter};
      if |voters| >= MajorityCount(n) && enoughQuota {
        var qc := QC(vote.blk, vote.view, voters);
        proposal := None;
        voters := {};
        UpdateQCHigh(qc);
      }
    }

    method OnReceiveVote(vote: Vote, enoughQuota: bool)
      requires !crashed
      modifies this
      ensures State() == ReceiveVote(old(State()), n, vote, enoughQuota)
      ensures old(viewChange) != 0 ==> State() == old(State())
      ensures old(viewChange) == 0 ==> Counted(old(State()), State(), n, vote, enoughQuota)
      ensures
        && old(viewChange == 0 && proposal == Some(vote.blk) && vote.voter !in voters)
        && vote.blk.Block? && vote.blk.view == vote.view && vote.view > old(qcHigh.view)
        && 3 * |old(voters) + {vote.voter}| > 2 * n && enoughQuota ==>
        qcHigh == QC(vote.blk, vote.view, old(voters) + {vote.voter}) && bLeaf == vote.blk && proposal == None
      ensures n > 0 ==> SafeStep(RecvVote(me, vote, enoughQuota), n, old(State()), State(), None)
    {
      hide Inv, SafeStep, Counted;
      CountedRight(State(), n, vote, enoughQuota);
      if viewChange == 0 {
        Collect(vote, enoughQuota);
      }
      if n > 0 {
        StepIsSafe(RecvVote(me, vote, enoughQuota), n, old(State()), State(), None);
      }
    }

    method MakeProposal(parent: Block, payload: nat, canVote: bool, enoughQuota: bool)
      returns (voted: Option<Block>)
      requires !crashed
      modifies this
      ensures (State(), voted) == CreateProposal(old(State()), n, me, parent, payload, canVote, enoughQuota)
    {
      var blk := Block(parent, Height(parent) + 1, view, qcHigh.blk, qcHigh.view, payload);
      var carried := qcHigh;
      bLeaf := blk;
      proposal := Some(blk);
      voters := {};
      ApproveProposal(blk.view, me);
      UpdateQCHigh(carried);
      voted := None;
      if canVote {
        Collect(Vote(me, blk, blk.view), enoughQuota);
        voted := Some(blk);
      }
    }

    method NewProposal(payload: nat, canVote: bool, enoughQuota: bool) returns (voted: Option<Block>)
      requires !crashed
      modifies this
      ensures (State(), voted) == Propose(old(State()), n, me, payload, canVote, enoughQuota)
      ensures old(viewChange != 0 || leaderIndex != me) ==> State() == old(State()) && voted == None
      ensures old(viewChange == 0 && leaderIndex == me) ==> exists blk ::
        OwnProposal(n, me, old(State()), State(), old(bLeaf), blk, payload, voted, canVote, enoughQuota)
      ensures n > 0 ==> SafeStep(Step.MakeProposal(me, payload, canVote, enoughQuota), n, old(State()), State(), voted)
    {
      hide Inv, SafeStep, OwnProposal;
      ProposalRight(n, me, State(), bLeaf, payload, canVote, enoughQuota);
      voted := None;
      if viewChange == 0 && leaderIndex == me {
        voted := MakeProposal(bLeaf, payload, canVote, enoughQuota);
      }
      if n > 0 {
        StepIsSafe(Step.MakeProposal(me, payload, canVote, enoughQuota), n, old(State()), State(), voted);
      }
    }

    method OnReceiveQC(qc: QC, payload: nat, canVote: bool, enoughQuota: bool) returns (voted: Option<Block>)
      requires !crashed && n > 0
      modifies this
      ensures (State(), voted) == ReceiveQC(old(State()), n, me, qc, payload, canVote, enoughQuota)
      ensures exists mid ::
        Faced(old(State()), mid, qc) && Reported(n, me, mid, State(), payload, voted, canVote, enoughQuota)
      ensures SafeStep(RecvQC(me, qc, payload, canVote, enoughQuota), n, old(State()), State(), voted)
    {
      hide Inv, SafeStep, Faced, Reported;
      FacedRight(State(), qc);
      ReportedRight(n, me, State(), qc, payload, canVote, enoughQuota);
      voted := TakeUp(qc, payload, canVote, enoughQuota);
      StepIsSafe(RecvQC(me, qc, payload, canVote, enoughQuota), n, old(State()), State(), voted);
    }

    method TakeUp(qc: QC, payload: nat, canVote: bool, enoughQuota: bool) returns (voted: Option<Block>)
      requires !crashed && n > 0
      modifies this
      ensures (State(), voted) == ReceiveQC(old(State()), n, me, qc, payload, canVote, enoughQuota)
    {
      voted := None;
      UpdateQCHigh(qc);
      if crashed {
        return;
      }
      if viewChange == 1 && oldView == view {
        view := oldView + 1;
        leaderIndex := (oldView + 1) % n;
      }
      highQCCount := highQCCount + 1;
      if highQCCount >= MajorityCount(n) && leaderIndex == me {
        voted := MakeProposal(qcHigh.blk, payload, canVote, enoughQuota);
      }
    }

    method OnViewTimeout()
      requires n > 0
      modifies this
      ensures State() == ChangeView(old(State()), n, me)
      ensures State() == old(State()).(oldView := old(view), viewChange := 1,
        highQCCount := if (old(view) + 1) % n == me then 1 else 0)
      ensures SafeStep(TimeoutView(me), n, old(State()), State(), None)
    {
      hide SafeStep;
      oldView := view;
      viewChange := 1;
      highQCCount := 0;
      if (oldView + 1) % n == me {
        highQCCount := highQCCount + 1;
      }
      TimeoutsSafe(me, n, old(State()));
    }

    method OnLeaderTimeout()
      requires n > 0
      modifies this
      ensures State() == LeaderTimeout(old(State()), n, me)
      ensures State() == old(State()).(oldView := old(view), timeoutCount := old(timeoutCount) + 1,
        viewChange := if old(timeoutCount) + 1 > (n - 1) / 3 then -1 else 1,
        highQCCount := if (old(view) + 1) % n == me then 1 else 0)
      ensures SafeStep(TimeoutLeader(me), n, old(State()), State(), None)
    {
      hide SafeStep;
      timeoutCount := timeoutCount + 1;
      OnViewTimeout();
      if timeoutCount > n - MajorityCount(n) {
        viewChange := -1;
      }
      TimeoutsSafe(me, n, old(State()));
    }
  }
}
