// What one validator does with a message: the voting rule, the collection of
// votes, the high certificate, the two-chain commit rule and the view change.
// Every operation is a function from the replica's state to its next state; the
// class in ReplicaObject.dfy runs the same operations in place.
module Replica {
  import opened Common
  import opened Chain
  import opened Quorum

  datatype Vote = Vote(voter: Validator, blk: Block, view: nat)

  datatype QC = QC(blk: Block, view: nat, signers: set<Validator>)

  /**
   * `voters` holds the voters of the proposal being collected, `log` the blocks
   * handed to storage in commit order. `crashed` is set where the process dies,
   * by the fatal "safety breached" log line or by a panic.
   */
  datatype Node = Node(
    view: nat,
    leaderIndex: Validator,
    viewChange: int,
    qcHigh: QC,
    bLeaf: Block,
    bExec: Block,
    log: seq<Block>,
    proposal: Option<Block>,
    voters: set<Validator>,
    oldView: nat,
    highQCCount: nat,
    timeoutCount: nat,
    crashed: bool)

  function GenesisQC(n: nat): QC {
    QC(Genesis, 0, Validators(n))
  }

  /** The state after genesis agreement; the leader is the proposer of the genesis certificate. */
  function Initial(n: nat, leader: Validator): Node {
    Node(0, leader, 0, GenesisQC(n), Genesis, Genesis, [], None, {}, 0, 0, 0, false)
  }

  /** Orders certificates by view, then by the height of the certified block. */
  function CmpQCPriority(a: QC, b: QC): int {
    if a.view > b.view then 1
    else if a.view < b.view then -1
    else if Height(a.blk) > Height(b.blk) then 1
    else if Height(a.blk) < Height(b.blk) then -1
    else 0
  }

  /** The blocks committed on the way to `blk`, oldest first; None where the fatal branch is taken. */
  function OnCommit(bExec: Block, blk: Block): Option<seq<Block>> {
    if Height(blk) > Height(bExec) then
      match OnCommit(bExec, blk.parent)
      case None => None
      case Some(bs) => Some(bs + [blk])
    else if bExec != blk then None
    else Some([])
  }

  function CommitRecursive(nd: Node, blk: Block): Node {
    match OnCommit(nd.bExec, blk)
    case None => nd.(crashed := true)
    case Some(bs) => nd.(log := nd.log + bs, bExec := blk)
  }

  /** Genesis has no parent to look up, so a certificate for it that outranks the high one panics. */
  function UpdateQCHigh(nd: Node, qc: QC): Node {
    if CmpQCPriority(qc, nd.qcHigh) != 1 then nd
    else if qc.blk.Genesis? then nd.(crashed := true)
    else
      var nd1 := nd.(qcHigh := qc, bLeaf := qc.blk);
      var blk0 := qc.blk.parent;
      if Height(blk0) > Height(nd.bExec) && View(blk0) == View(qc.blk) then
        CommitRecursive(nd1, blk0)
      else
        nd1
  }

  predicate IsNewViewApproval(nd: Node, view: nat, proposer: Validator) {
    || view > nd.view
    || (view == nd.view &&
        (|| (nd.viewChange == 0 && proposer != nd.leaderIndex)
         || (nd.viewChange == 1 && proposer == nd.leaderIndex)))
  }

  function Approve(nd: Node, view: nat, proposer: Validator): Node {
    if IsNewViewApproval(nd, view, proposer) then
      nd.(viewChange := 0, view := view, leaderIndex := proposer, timeoutCount := 0, highQCCount := 0)
    else
      nd
  }

  /** A proposal carries its block, the certificate named in the block's hash, and a proposer. */
  predicate CarriesItsQC(blk: Block, qc: QC) {
    blk.Block? && qc.blk == blk.qcRef && qc.view == blk.qcView
  }

  /**
   * The voting rule. `ok` says whether the checks on execution height, state root,
   * transactions and vote quota pass.
   */
  function ReceiveProposal(nd: Node, blk: Block, qc: QC, proposer: Validator, ok: bool): (Node, bool)
    requires CarriesItsQC(blk, qc)
  {
    var nd1 := Approve(nd, blk.view, proposer);
    if nd1.view > blk.view then (nd1, false)
    else if CmpQCPriority(qc, nd1.qcHigh) < 0 then (nd1, false)
    else
      var nd2 := UpdateQCHigh(nd1, qc);
      (nd2, !nd2.crashed && nd2.leaderIndex == proposer && ok)
  }

  /** `enoughQuota` says whether the stake window has reached its majority. */
  function CollectVote(nd: Node, n: nat, vote: Vote, enoughQuota: bool): Node {
    if nd.proposal.None? || nd.proposal.value != vote.blk || View(vote.blk) != vote.view ||
       vote.voter in nd.voters then
      nd
    else
      var nd1 := nd.(voters := nd.voters + {vote.voter});
      if |nd1.voters| >= MajorityCount(n) && enoughQuota then
        UpdateQCHigh(nd1.(proposal := None, voters := {}), QC(vote.blk, vote.view, nd1.voters))
      else
        nd1
  }

  function ReceiveVote(nd: Node, n: nat, vote: Vote, enoughQuota: bool): Node {
    if nd.viewChange != 0 then nd else CollectVote(nd, n, vote, enoughQuota)
  }

  function NewBlock(nd: Node, parent: Block, payload: nat): Block {
    Block(parent, Height(parent) + 1, nd.view, nd.qcHigh.blk, nd.qcHigh.view, payload)
  }

  /** Creating a proposal and, unless the quota refuses, voting for it; the result names the block voted. */
  function CreateProposal(nd: Node, n: nat, me: Validator, parent: Block, payload: nat,
                          canVote: bool, enoughQuota: bool): (Node, Option<Block>) {
    var blk := NewBlock(nd, parent, payload);
    var nd1 := nd.(bLeaf := blk, proposal := Some(blk), voters := {});
    var nd2 := UpdateQCHigh(Approve(nd1, nd.view, me), nd.qcHigh);
    if canVote then
      (CollectVote(nd2, n, Vote(me, blk, blk.view), enoughQuota), Some(blk))
    else
      (nd2, None)
  }

  /** The pacemaker's proposal on top of the current leaf. */
  function Propose(nd: Node, n: nat, me: Validator, payload: nat, canVote: bool, enoughQuota: bool)
    : (Node, Option<Block>)
  {
    if nd.viewChange != 0 || nd.leaderIndex != me then (nd, None)
    else CreateProposal(nd, n, me, nd.bLeaf, payload, canVote, enoughQuota)
  }

  function EnterNextView(nd: Node, n: nat): Node
    requires n > 0
  {
    if nd.viewChange == 1 && nd.oldView == nd.view then
      nd.(view := nd.oldView + 1, leaderIndex := (nd.oldView + 1) % n)
    else
      nd
  }

  /** A received high certificate: adopt it, enter the next view, and propose once a majority has reported. */
  function ReceiveQC(nd: Node, n: nat, me: Validator, qc: QC, payload: nat, canVote: bool, enoughQuota: bool)
    : (Node, Option<Block>)
    requires n > 0
  {
    var nd1 := UpdateQCHigh(nd, qc);
    if nd1.crashed then (nd1, None)
    else
      var nd2 := EnterNextView(nd1, n);
      var nd3 := nd2.(highQCCount := nd2.highQCCount + 1);
      if nd3.highQCCount >= MajorityCount(n) && nd3.leaderIndex == me then
        CreateProposal(nd3, n, me, nd3.qcHigh.blk, payload, canVote, enoughQuota)
      else
        (nd3, None)
  }

  function ChangeView(nd: Node, n: nat, me: Validator): Node
    requires n > 0
  {
    nd.(oldView := nd.view, viewChange := 1,
        highQCCount := if (nd.view + 1) % n == me then 1 else 0)
  }

  function LeaderTimeout(nd: Node, n: nat, me: Validator): Node
    requires n > 0
  {
    var nd1 := ChangeView(nd.(timeoutCount := nd.timeoutCount + 1), n, me);
    if nd1.timeoutCount > n - MajorityCount(n) then nd1.(viewChange := -1) else nd1
  }
}
