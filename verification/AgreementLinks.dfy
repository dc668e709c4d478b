// The other half of the discipline cannot be dropped either: one chain per view, but a block that does not
// build on the block its certificate is for.
module AgreementLinks {
  import opened Common
  import opened Chain
  import opened Quorum
  import opened Replica
  import opened ConsensusRun
  import opened Agreement

  /** Carries the certificate for B1, yet builds on genesis. */
  const D1 := Block(Genesis, 1, 1, B1, 0, 3)
  const D2 := Block(D1, 2, 1, D1, 1, 3)

  const REST: set<Validator> := {1, 2, 3}

  ghost function ViewZero(): set<Vote> { GenesisVotes() + VotesOf(B1) + VotesOf(B2) }

  ghost function VotesOn(blk: Block): set<Vote> { {Vote(1, blk, 1), Vote(2, blk, 1), Vote(3, blk, 1)} }

  /** A replica in view 1 that holds the certificate for B1, and then the one for D1. */
  const NEXT := HELD.(view := 1, highQCCount := 0)
  const AHEAD := NEXT.(qcHigh := QC(D1, 1, REST), bLeaf := D1)

  lemma FirstSigned()
    ensures Reachable(FOUR, System(Trio(FIRST, FIRST, FIRST), GenesisVotes() + VotesOf(B1)))
  {
    hide Reachable, ValidQC;
    Start();
    GenesisValid(GenesisVotes());
    AllSign(FIRST, GenesisVotes(), B1, GenesisQC(4));
  }

  lemma FirstView()
    ensures Reachable(FOUR, System(Trio(HELD, HELD, HELD), ViewZero()))
  {
    FirstAdopted();
    hide Reachable, ValidQC;
    var v1 := GenesisVotes() + VotesOf(B1);
    TrioQC(v1, B1);
    AllSign(HELD, v1, B2, QC(B1, 0, TRIO));
  }

  lemma FirstAdopted()
    ensures Reachable(FOUR, System(Trio(HELD, HELD, HELD), GenesisVotes() + VotesOf(B1)))
  {
    hide Reachable, ValidQC;
    FirstSigned();
    var v1 := GenesisVotes() + VotesOf(B1);
    AdoptFirst(System(Trio(FIRST, FIRST, FIRST), v1), 0);
    assert Trio(FIRST, FIRST, FIRST)[0 := HELD] == Trio(HELD, FIRST, FIRST);
    AdoptFirst(System(Trio(HELD, FIRST, FIRST), v1), 1);
    assert Trio(HELD, FIRST, FIRST)[1 := HELD] == Trio(HELD, HELD, FIRST);
    AdoptFirst(System(Trio(HELD, HELD, FIRST), v1), 2);
    assert Trio(HELD, HELD, FIRST)[2 := HELD] == Trio(HELD, HELD, HELD);
  }

  lemma GenesisValid(votes: set<Vote>)
    requires GenesisVotes() <= votes
    ensures ValidQC(FOUR, votes, GenesisQC(4))
  {
    assert ValidQC(FOUR, GenesisVotes(), GenesisQC(4));
  }

  lemma RestQC(votes: set<Vote>, blk: Block)
    requires VotesOn(blk) <= votes
    ensures ValidQC(FOUR, votes, QC(blk, 1, REST))
  {
    assert REST == {1} + {2} + {3};
    assert Vote(1, blk, 1) in VotesOn(blk) && Vote(2, blk, 1) in VotesOn(blk) && Vote(3, blk, 1) in VotesOn(blk);
  }

  /** One replica takes a proposal of leader 3 in view 1 and signs it. */
  lemma Sign(s: System, me: Validator, blk: Block, qc: QC, nd': Node)
    requires Reachable(FOUR, s) && me in s.nodes && !s.nodes[me].crashed
    requires CarriesItsQC(blk, qc) && ValidQC(FOUR, s.votes, qc) && blk.view == 1
    requires ReceiveProposal(s.nodes[me], blk, qc, 3, true) == (nd', true)
    ensures Reachable(FOUR, System(s.nodes[me := nd'], s.votes + {Vote(me, blk, 1)}))
  {
    hide Reachable, ValidQC, ReceiveProposal;
    Reach(FOUR, s, RecvProposal(me, blk, qc, 3, true));
  }

  /** Replicas 1 and 2 sign, and the faulty one adds its vote. */
  lemma RestSigns(nd0: Node, nd: Node, nd': Node, votes: set<Vote>, blk: Block, qc: QC)
    requires Reachable(FOUR, System(Trio(nd0, nd, nd), votes)) && !nd.crashed
    requires CarriesItsQC(blk, qc) && ValidQC(FOUR, votes, qc) && blk.view == 1
    requires ReceiveProposal(nd, blk, qc, 3, true) == (nd', true)
    ensures Reachable(FOUR, System(Trio(nd0, nd', nd'), votes + VotesOn(blk)))
  {
    hide Reachable, ReceiveProposal;
    Sign(System(Trio(nd0, nd, nd), votes), 1, blk, qc, nd');
    assert Trio(nd0, nd, nd)[1 := nd'] == Trio(nd0, nd', nd);
    var v1 := votes + {Vote(1, blk, 1)};
    Sign(System(Trio(nd0, nd', nd), v1), 2, blk, qc, nd');
    assert Trio(nd0, nd', nd)[2 := nd'] == Trio(nd0, nd', nd');
    var v2 := v1 + {Vote(2, blk, 1)};
    Reach(FOUR, System(Trio(nd0, nd', nd'), v2), FaultyVote(Vote(3, blk, 1)));
    assert v2 + {Vote(3, blk, 1)} == votes + VotesOn(blk);
  }

  lemma TakesFirst()
    ensures ReceiveProposal(HELD, D1, QC(B1, 0, TRIO), 3, true) == (NEXT, true) && !HELD.crashed
  {
  }

  lemma TakesSecond()
    ensures ReceiveProposal(NEXT, D2, QC(D1, 1, REST), 3, true) == (AHEAD, true) && !NEXT.crashed
  {
  }

  lemma CommitsUnlinked() returns (nd: Node)
    ensures ReceiveQC(AHEAD, 4, 1, QC(D2, 1, REST), 0, false, false) == (nd, None)
    ensures !AHEAD.crashed && nd.log == [D1]
  {
    assert OnCommit(Genesis, Genesis) == Some([]);
    assert OnCommit(Genesis, D1) == Some([] + [D1]);
    nd := ReceiveQC(AHEAD, 4, 1, QC(D2, 1, REST), 0, false, false).0;
  }

  ghost function AllVotes(): set<Vote> { ViewZero() + VotesOn(D1) + VotesOn(D2) }

  /** Only these blocks are certified, each in its own view. */
  lemma CertifiedHere(b: Block, view: nat)
    requires Certified(FOUR, AllVotes(), b, view)
    ensures b in {Genesis, B1, B2, D1, D2}
  {
    var signers :| ValidQC(FOUR, AllVotes(), QC(b, view, signers));
    assert signers != {};
    var v: Validator :| v in signers;
    assert Vote(v, b, view) in AllVotes();
  }

  lemma OneChainPerView()
    ensures ViewsDisciplined(FOUR, AllVotes())
  {
    hide Certified;
    forall a, b |
      Certified(FOUR, AllVotes(), a, View(a)) && Certified(FOUR, AllVotes(), b, View(b)) && View(a) == View(b)
      ensures OnOneChain(a, b)
    {
      CertifiedHere(a, View(a));
      CertifiedHere(b, View(b));
      assert Extends(B1, Genesis) && Extends(B2, B1) && Extends(B2, Genesis) && Extends(D2, D1);
    }
  }

  /**
   * Certified blocks of one view always lie on one chain here, but D1 carries the certificate for B1 and
   * builds on genesis: replica 0 commits B1, replica 1 commits D1.
   */
  lemma UnlinkedBlockBreaksAgreement() returns (s: System)
    ensures Reachable(FOUR, s)
    ensures 0 in s.nodes && 1 in s.nodes && Honest(FOUR, 0) && Honest(FOUR, 1)
    ensures s.nodes[0].log == [B1] && s.nodes[1].log == [D1] && B1 != D1
    ensures ViewsDisciplined(FOUR, s.votes) && !LinksDisciplined(FOUR, s.votes)
  {
    hide Reachable, ReceiveQC, ReceiveProposal, Initial, ValidQC, ViewsDisciplined;
    FirstView();
    var v0 := ViewZero();
    TrioQC(v0, B1);
    TrioQC(v0, B2);
    var nd0 := CommitsParent(0, B1, B2);
    Adopt(System(Trio(HELD, HELD, HELD), v0), 0, QC(B2, 0, TRIO), nd0);
    assert Trio(HELD, HELD, HELD)[0 := nd0] == Trio(nd0, HELD, HELD);
    TakesFirst();
    RestSigns(nd0, HELD, NEXT, v0, D1, QC(B1, 0, TRIO));
    var v1 := v0 + VotesOn(D1);
    RestQC(v1, D1);
    TakesSecond();
    RestSigns(nd0, NEXT, AHEAD, v1, D2, QC(D1, 1, REST));
    RestQC(AllVotes(), D2);
    var nd1 := CommitsUnlinked();
    Adopt(System(Trio(nd0, AHEAD, AHEAD), AllVotes()), 1, QC(D2, 1, REST), nd1);
    s := System(Trio(nd0, AHEAD, AHEAD)[1 := nd1], AllVotes());
    OneChainPerView();
    RestQC(s.votes, D1);
    assert Certified(FOUR, s.votes, D1, 1) && !WellLinked(D1);
  }
}
