// What a replica does with a message, said of its state before and after, field by field: a second account of
// the operations of module Replica, which are shown to agree with it.
module ReplicaRules {
  import opened Common
  import opened Chain
  import opened Quorum
  import opened Replica

  /** The first certificate ranks above the second: a later view, or the same view and a higher block. */
  predicate Outranks(a: QC, b: QC) {
    a.view > b.view || (a.view == b.view && Height(a.blk) > Height(b.blk))
  }

  /** The two-chain rule: the parent of a newly certified block may be committed if it is of the same view. */
  predicate Commits(before: Node, blk: Block)
    requires blk.Block?
  {
    Height(blk.parent) > Height(before.bExec) && View(blk.parent) == View(blk)
  }

  /** The block or its nearest ancestor that is no higher. */
  function Under(b: Block, height: nat): Block {
    if Height(b) <= height then b else Under(b.parent, height)
  }

  /**
   * Up to `blk` was committed: the log grew by the missing part of the path to it, oldest first; unless the
   * path does not lead to what was committed before, which is fatal.
   */
  predicate Committed(before: Node, after: Node, blk: Block) {
    if Under(blk, Height(before.bExec)) != before.bExec then after == before.(crashed := true)
    else
      && after == before.(log := after.log, bExec := blk) && before.log <= after.log
      && Path(blk) == Path(before.bExec) + after.log[|before.log|..]
  }

  /**
   * The certificate was put before the replica: a higher one becomes the high certificate, its block the
   * leaf, and the block below is committed by the two-chain rule; any other changes nothing.
   */
  predicate Faced(before: Node, after: Node, qc: QC) {
    if !Outranks(qc, before.qcHigh) then after == before
    else if qc.blk.Genesis? then after == before.(crashed := true)
    else
      var nd := before.(qcHigh := qc, bLeaf := qc.blk);
      if Commits(before, qc.blk) then Committed(nd, after, qc.blk.parent) else after == nd
  }

  /** A vote that is collected: for the running proposal, in its view, the first of its voter. */
  predicate Fits(nd: Node, vote: Vote) {
    nd.proposal == Some(vote.blk) && View(vote.blk) == vote.view && vote.voter !in nd.voters
  }

  /** The vote was put before the leader: a majority of voters makes a certificate and ends the proposal. */
  predicate Counted(before: Node, after: Node, n: nat, vote: Vote, enoughQuota: bool) {
    if !Fits(before, vote) then after == before
    else
      var voters := before.voters + {vote.voter};
      if 3 * |voters| > 2 * n && enoughQuota then
        Faced(before.(proposal := None, voters := {}), after, QC(vote.blk, vote.view, voters))
      else after == before.(voters := voters)
  }

  /** A proposer is taken for the leader who comes with a later view, or settles the running one. */
  predicate TakenFor(nd: Node, view: nat, proposer: Validator) {
    || view > nd.view
    || (view == nd.view && nd.viewChange == 0 && proposer != nd.leaderIndex)
    || (view == nd.view && nd.viewChange == 1 && proposer == nd.leaderIndex)
  }

  function Following(nd: Node, view: nat, leader: Validator): Node {
    nd.(viewChange := 0, view := view, leaderIndex := leader, timeoutCount := 0, highQCCount := 0)
  }

  /** The replica as it looks at a proposal: with its proposer for leader, if it is taken for that. */
  function Looking(nd: Node, blk: Block, proposer: Validator): Node
    requires blk.Block?
  {
    if TakenFor(nd, blk.view, proposer) then Following(nd, blk.view, proposer) else nd
  }

  /** The proposal is not of an earlier view and does not carry a lower certificate. */
  predicate Heeded(nd: Node, blk: Block, qc: QC, proposer: Validator)
    requires blk.Block?
  {
    blk.view >= Looking(nd, blk, proposer).view && !Outranks(nd.qcHigh, qc)
  }

  predicate Heard(before: Node, after: Node, blk: Block, qc: QC, proposer: Validator)
    requires blk.Block?
  {
    var nd := Looking(before, blk, proposer);
    if Heeded(before, blk, qc, proposer) then Faced(nd, after, qc) else after == nd
  }

  /** A block on the given parent, one higher, with the replica's high certificate. */
  predicate BuildsOn(blk: Block, nd: Node, parent: Block, payload: nat) {
    blk == Block(parent, Height(parent) + 1, nd.view, nd.qcHigh.blk, nd.qcHigh.view, payload)
  }

  /** The block is the proposal votes are collected for; the leader's own vote is the first. */
  predicate Proposed(before: Node, after: Node, n: nat, me: Validator, blk: Block, canVote: bool, enoughQuota: bool) {
    var open := before.(bLeaf := blk, proposal := Some(blk), voters := {});
    if canVote then Counted(open, after, n, Vote(me, blk, before.view), enoughQuota) else after == open
  }

  /** A block of its own, built on the parent, was proposed, and voted for if the quota allows. */
  predicate OwnProposal(n: nat, me: Validator, before: Node, after: Node, parent: Block, blk: Block, payload: nat,
                        voted: Option<Block>, canVote: bool, enoughQuota: bool)
  {
    var nd := if TakenFor(before, before.view, me) then Following(before, before.view, me) else before;
    && BuildsOn(blk, before, parent, payload) && voted == (if canVote then Some(blk) else None)
    && Proposed(nd, after, n, me, blk, canVote, enoughQuota)
  }

  /** The next view is entered if a change is under way, and its leader proposes once a majority has reported. */
  ghost predicate Reported(n: nat, me: Validator, mid: Node, after: Node, payload: nat, voted: Option<Block>,
                           canVote: bool, enoughQuota: bool)
    requires n > 0
  {
    var next := if mid.viewChange == 1 && mid.oldView == mid.view
                then mid.(view := mid.view + 1, leaderIndex := (mid.view + 1) % n) else mid;
    var nd := next.(highQCCount := next.highQCCount + 1);
    if mid.crashed then after == mid && voted == None
    else if 3 * nd.highQCCount > 2 * n && nd.leaderIndex == me then
      exists blk :: OwnProposal(n, me, nd, after, nd.qcHigh.blk, blk, payload, voted, canVote, enoughQuota)
    else after == nd && voted == None
  }

  // ------------------------------------------------ the operations agree

  lemma {:induction false} CommitWalks(bExec: Block, blk: Block)
    ensures OnCommit(bExec, blk).Some? <==> Under(blk, Height(bExec)) == bExec
    ensures OnCommit(bExec, blk).Some? ==> Path(blk) == Path(bExec) + OnCommit(bExec, blk).value
  {
    if Height(blk) > Height(bExec) { CommitWalks(bExec, blk.parent); }
  }

  lemma CommitRight(nd: Node, blk: Block)
    ensures Committed(nd, CommitRecursive(nd, blk), blk)
  {
    hide Under, Path;
    CommitWalks(nd.bExec, blk);
  }

  lemma FacedRight(nd: Node, qc: QC)
    ensures Faced(nd, UpdateQCHigh(nd, qc), qc)
  {
    hide Committed;
    if qc.blk.Block? {
      CommitRight(nd.(qcHigh := qc, bLeaf := qc.blk), qc.blk.parent);
    }
  }

  lemma CountedRight(nd: Node, n: nat, vote: Vote, enoughQuota: bool)
    ensures Counted(nd, CollectVote(nd, n, vote, enoughQuota), n, vote, enoughQuota)
  {
    hide Faced, UpdateQCHigh;
    FacedRight(nd.(proposal := None, voters := {}), QC(vote.blk, vote.view, nd.voters + {vote.voter}));
  }

  lemma HeardRight(nd: Node, blk: Block, qc: QC, proposer: Validator, ok: bool)
    requires CarriesItsQC(blk, qc)
    ensures var (after, voted) := ReceiveProposal(nd, blk, qc, proposer, ok);
      && Heard(nd, after, blk, qc, proposer)
      && (voted <==> Heeded(nd, blk, qc, proposer) && !after.crashed && after.leaderIndex == proposer && ok)
  {
    hide Faced, UpdateQCHigh;
    FacedRight(Looking(nd, blk, proposer), qc);
  }

  lemma ProposalRight(n: nat, me: Validator, nd: Node, parent: Block, payload: nat, canVote: bool, enoughQuota: bool)
    ensures var (after, voted) := CreateProposal(nd, n, me, parent, payload, canVote, enoughQuota);
      OwnProposal(n, me, nd, after, parent, NewBlock(nd, parent, payload), payload, voted, canVote, enoughQuota)
  {
    hide Counted, CollectVote;
    var blk := NewBlock(nd, parent, payload);
    var open := nd.(bLeaf := blk, proposal := Some(blk), voters := {});
    CountedRight(Approve(open, nd.view, me), n, Vote(me, blk, blk.view), enoughQuota);
  }

  lemma ReportedRight(n: nat, me: Validator, nd: Node, qc: QC, payload: nat, canVote: bool, enoughQuota: bool)
    requires n > 0
    ensures var (after, voted) := ReceiveQC(nd, n, me, qc, payload, canVote, enoughQuota);
      Reported(n, me, UpdateQCHigh(nd, qc), after, payload, voted, canVote, enoughQuota)
  {
    hide OwnProposal, CreateProposal, UpdateQCHigh;
    var mid := EnterNextView(UpdateQCHigh(nd, qc), n);
    var nd3 := mid.(highQCCount := mid.highQCCount + 1);
    ProposalRight(n, me, nd3, nd3.qcHigh.blk, payload, canVote, enoughQuota);
  }
}
