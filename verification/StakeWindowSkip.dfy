// A replica that skips a certificate no longer adds up with the others: a full vote can fall short.
module StakeWindowSkip {
  import opened Common
  import opened StakeWindow
  import opened StakeRun

  ghost predicate Reachable(cfg: Setup, s: Net) {
    Sized(cfg, s) && exists run, steps :: IsRun(cfg, run, steps) && run[|run| - 1] == s
  }

  lemma Reach(cfg: Setup, s: Net, step: Step)
    requires Reachable(cfg, s) && Enabled(cfg, s, step)
    ensures Reachable(cfg, Apply(cfg, s, step))
  {
    hide Enabled, Apply, Sized, Init;
    var run, steps :| IsRun(cfg, run, steps) && run[|run| - 1] == s;
    var run', steps' := run + [Apply(cfg, s, step)], steps + [step];
    forall k | 0 <= k < |steps'| ensures StepAt(cfg, run', steps', k) {
      if k < |steps| { assert StepAt(cfg, run, steps, k); }
    }
    assert IsRun(cfg, run', steps');
    StepSized(cfg, s, step);
  }

  ghost function AfterAdopt(s: Net, cert: Cert, k: nat): Net
    requires forall v :: 0 <= v < |s.replicas| ==>
      s.replicas[v].qcWindow != [] && s.replicas[v].voteWindow != [] && s.replicas[v].history != []
  {
    s.(replicas := seq(|s.replicas|, v requires 0 <= v < |s.replicas| =>
      if v < k then Adopted(s.replicas[v], v, cert) else s.replicas[v]))
  }

  /** The first k replicas adopt the certificate. */
  lemma {:induction false} AdoptUpTo(cfg: Setup, s: Net, cert: Cert, k: nat)
    requires Reachable(cfg, s) && Supported(cert, s.cast, |cfg.limits|) && k <= |cfg.limits|
    ensures Reachable(cfg, AfterAdopt(s, cert, k))
  {
    hide IsRun, Supported, Adopted;
    if k == 0 {
      assert AfterAdopt(s, cert, 0).replicas == s.replicas;
      assert AfterAdopt(s, cert, 0) == s;
    } else {
      AdoptUpTo(cfg, s, cert, k - 1);
      var s' := AfterAdopt(s, cert, k - 1);
      Reach(cfg, s', Adopt(k - 1, cert));
      assert s'.replicas[k - 1 := Adopted(s.replicas[k - 1], k - 1, cert)] == AfterAdopt(s, cert, k).replicas;
    }
  }

  ghost function Casts(cfg: Setup, s: Net, block: nat, randoms: seq<nat>, k: nat): set<Cast>
    requires Sized(cfg, s) && k <= |cfg.limits| == |randoms|
  {
    if k == 0 then {}
    else
      var c := Cast(k - 1, block, block, Quota(s.replicas[k - 1], cfg.limits[k - 1], randoms[k - 1]));
      Casts(cfg, s, block, randoms, k - 1) + {c}
  }

  /** The first k replicas vote for a block at the height of its number. */
  lemma {:induction false} CastUpTo(cfg: Setup, s: Net, block: nat, randoms: seq<nat>, k: nat)
    requires Reachable(cfg, s) && k <= |cfg.limits| == |randoms| && cfg.Everyone()
    requires forall v :: 0 <= v < k ==> block <= s.replicas[v].height + 1
    ensures Reachable(cfg, s.(cast := s.cast + Casts(cfg, s, block, randoms, k)))
  {
    hide IsRun, Quota;
    if k == 0 {
      assert s.cast + {} == s.cast;
    } else {
      CastUpTo(cfg, s, block, randoms, k - 1);
      var s' := s.(cast := s.cast + Casts(cfg, s, block, randoms, k - 1));
      var c := Cast(k - 1, block, block, Quota(s.replicas[k - 1], cfg.limits[k - 1], randoms[k - 1]));
      Reach(cfg, s', CastVote(k - 1, block, block, randoms[k - 1]));
      assert s'.cast + {c} == s.cast + (Casts(cfg, s, block, randoms, k - 1) + {c});
    }
  }

  // ------------------------------------------------ four validators of stake 8, windows of three

  const CFG: Setup := Setup([8, 8, 8, 8], 3, {0, 1, 2, 3})

  function Quad(block: nat, a: Amount, b: Amount, c: Amount, d: Amount): Cert {
    Cert(block, block, [Ballot(0, a), Ballot(1, b), Ballot(2, c), Ballot(3, d)])
  }

  const G: Cert := Quad(0, 4, 4, 4, 4)
  const Z1: Cert := Quad(1, 0, 0, 0, 0)
  const Z2: Cert := Quad(2, 0, 0, 0, 0)
  const C3: Cert := Quad(3, 4, 4, 4, 6)
  const C4: Cert := Quad(4, 0, 0, 0, 0)
  const C5: Cert := Cert(5, 5, [Ballot(0, 0), Ballot(1, 0), Ballot(2, 0)])

  ghost function CastsOf(cert: Cert): set<Cast> {
    set k | 0 <= k < |cert.votes| :: Cast(cert.votes[k].voter, cert.block, cert.height, cert.votes[k].quota)
  }

  /** Genesis: everyone voted half of its stake. */
  ghost function Zeroth(v: nat): Replica { Replica([0, 0, 16], [0, 0, 4], 0, [NO_CERT, NO_CERT, G]) }

  ghost function Moved(v: nat): Replica { Replica([0, 16, 0], [0, 4, 0], 1, [NO_CERT, G, Z1]) }

  /** Two certificates later the genesis votes are about to leave. */
  ghost function Empty(v: nat): Replica { Replica([16, 0, 0], [4, 0, 0], 2, [G, Z1, Z2]) }

  /** Everyone has adopted the third certificate. */
  ghost function Third(v: nat): Replica {
    Replica([0, 0, 18], [0, 0, if v < 3 then 4 else 6], 3, [Z1, Z2, C3])
  }

  /** All but the last have adopted the fourth. */
  ghost function Fourth(v: nat): Replica {
    if v < 3 then Replica([0, 18, 0], [0, 4, 0], 4, [Z2, C3, C4]) else Third(v)
  }

  /** Everyone has adopted the fifth. */
  ghost function Fifth(v: nat): Replica {
    if v < 3 then Replica([18, 0, 0], [4, 0, 0], 5, [C3, C4, C5])
    else Replica([0, 18, 0], [0, 6, 0], 5, [Z2, C3, C5])
  }

  ghost function Four(r: nat -> Replica): seq<Replica> { [r(0), r(1), r(2), r(3)] }

  // ------------------------------------------------ one round

  /** A vote of stake 8 with the given window at a low height. */
  lemma QuotaIs(r: Replica, a: nat, b: nat, c: nat, random: nat)
    requires r.voteWindow == [a, b, c] && a + b + c <= 8 && r.height <= 50
    ensures var pre := b + c;
      var most, least := if pre > 6 then 0 else 6 - pre, if pre > 4 then 0 else 4 - pre;
      Quota(r, 8, random) == random % (most - least + 1) + least
  {
    hide Vote;
    SumThree(a, b, c);
    Small(a + b + c, UINT64);
    Small(a, UINT64);
    SmallVote(b + c, a, r.height, random);
  }

  lemma ListOf3(a: Ballot, b: Ballot, c: Ballot)
    ensures SumQuota([a, b, c]) == a.quota + b.quota + c.quota
    ensures forall v: nat :: QuotaOf([a, b, c], v) == OneOf(a, b, c, v)
  {
    assert [a, b, c][1..] == [b, c];
    assert [b, c][1..] == [c];
    assert [c][1..] == [];
    assert SumQuota([c]) == c.quota + SumQuota([]);
    assert SumQuota([b, c]) == b.quota + SumQuota([c]);
    assert forall v: nat :: QuotaOf([c], v) == if c.voter == v then c.quota else 0;
    assert forall v: nat :: QuotaOf([b, c], v) == if b.voter == v then b.quota else QuotaOf([c], v);
  }

  function OneOf(a: Ballot, b: Ballot, c: Ballot, v: nat): nat {
    if a.voter == v then a.quota else if b.voter == v then b.quota else if c.voter == v then c.quota else 0
  }

  /** Adding up a certificate of small votes, and finding one's own. */
  lemma QuadIs(block: nat, a: Amount, b: Amount, c: Amount, d: Amount)
    requires a + b + c + d < UINT64
    ensures Total(Quad(block, a, b, c, d).votes) == a + b + c + d
    ensures forall v: nat :: v < 4 ==>
      QuotaOf(Quad(block, a, b, c, d).votes, v) == if v == 0 then a else if v == 1 then b else if v == 2 then c else d
  {
    var votes := Quad(block, a, b, c, d).votes;
    assert votes[1..] == [Ballot(1, b), Ballot(2, c), Ballot(3, d)];
    ListOf3(Ballot(1, b), Ballot(2, c), Ballot(3, d));
    Small(a + b + c + d, UINT64);
  }

  lemma CastsFour(s: Net, block: nat, randoms: seq<nat>)
    requires Sized(CFG, s) && |randoms| == 4
    ensures Casts(CFG, s, block, randoms, 3) == {
      Cast(0, block, block, Quota(s.replicas[0], 8, randoms[0])),
      Cast(1, block, block, Quota(s.replicas[1], 8, randoms[1])),
      Cast(2, block, block, Quota(s.replicas[2], 8, randoms[2]))}
    ensures Casts(CFG, s, block, randoms, 4) == Casts(CFG, s, block, randoms, 3)
      + {Cast(3, block, block, Quota(s.replicas[3], 8, randoms[3]))}
  {
    hide Quota;
    assert Casts(CFG, s, block, randoms, 0) == {};
    assert Casts(CFG, s, block, randoms, 1) == {Cast(0, block, block, Quota(s.replicas[0], 8, randoms[0]))};
    assert Casts(CFG, s, block, randoms, 2) == {
      Cast(0, block, block, Quota(s.replicas[0], 8, randoms[0])),
      Cast(1, block, block, Quota(s.replicas[1], 8, randoms[1]))};
  }

  /** All four vote for a block by the rule, and the first k adopt the certificate made of their votes. */
  lemma Round(s: Net, block: nat, randoms: seq<nat>, a: Amount, b: Amount, c: Amount, d: Amount, k: nat)
    requires Reachable(CFG, s) && |randoms| == 4 && k <= 4
    requires forall v :: 0 <= v < 4 ==> block <= s.replicas[v].height + 1
    requires Quota(s.replicas[0], 8, randoms[0]) == a && Quota(s.replicas[1], 8, randoms[1]) == b
    requires Quota(s.replicas[2], 8, randoms[2]) == c && Quota(s.replicas[3], 8, randoms[3]) == d
    ensures var s' := s.(cast := s.cast + Casts(CFG, s, block, randoms, 4));
      Reachable(CFG, AfterAdopt(s', Quad(block, a, b, c, d), k))
  {
    hide IsRun, Quota;
    CastUpTo(CFG, s, block, randoms, 4);
    CastsFour(s, block, randoms);
    var s' := s.(cast := s.cast + Casts(CFG, s, block, randoms, 4));
    var cert := Quad(block, a, b, c, d);
    assert Supported(cert, s'.cast, 4) by {
      assert Cast(0, block, block, a) in s'.cast && Cast(1, block, block, b) in s'.cast;
      assert Cast(2, block, block, c) in s'.cast && Cast(3, block, block, d) in s'.cast;
    }
    AdoptUpTo(CFG, s', cert, k);
  }

  /** Adopting moves windows of three by one place. */
  lemma Moves(r: Replica, v: nat, cert: Cert, q: seq<nat>, w: seq<nat>, h: seq<Cert>)
    requires |q| == |w| == |h| == 3 && r.qcWindow == q && r.voteWindow == w && r.history == h && cert.height > r.height
    ensures Adopted(r, v, cert) == Replica([q[1], q[2], Total(cert.votes)], [w[1], w[2], QuotaOf(cert.votes, v)],
                                           cert.height, [h[1], h[2], cert])
  {
    hide Total, QuotaOf;
  }

  // ------------------------------------------------ the run

  lemma Start() returns (s: Net)
    ensures Reachable(CFG, s) && s.replicas == Four(Zeroth)
  {
    hide Total, QuotaOf;
    s := Net(Four(Zeroth), CastsOf(G));
    QuadIs(0, 4, 4, 4, 4);
    forall v: nat | v < 4 ensures Starts(CFG, s, v) {
      var h := Newest([G], 3);
      assert h == [NO_CERT, NO_CERT, G];
      NothingVoted(v);
      assert Totals(h) == [0, 0, 16];
      assert Own(h, v) == [0, 0, 4];
      assert OneEach(G.votes, 4);
      assert Supported(G, s.cast, 4);
      assert StartsFrom(CFG, s, v, G);
    }
    HalfOfEight();
    assert Init(CFG, s);
    assert IsRun(CFG, [s], []);
  }

  lemma HalfOfEight()
    ensures Lower(8) == 4
  {
  }

  /** Two certificates in which nobody votes for anything. */
  lemma Emptied() returns (s: Net)
    ensures Reachable(CFG, s) && s.replicas == Four(Empty)
  {
    hide IsRun, Total, QuotaOf, Quota;
    var s0 := Start();
    QuotaIs(Zeroth(0), 0, 0, 4, 0);
    Round(s0, 1, [0, 0, 0, 0], 0, 0, 0, 0, 4);
    QuadIs(1, 0, 0, 0, 0);
    var s1 := AfterAdopt(s0.(cast := s0.cast + Casts(CFG, s0, 1, [0, 0, 0, 0], 4)), Z1, 4);
    forall v: nat | v < 4 ensures Adopted(Zeroth(v), v, Z1) == Moved(v) {
      Moves(Zeroth(v), v, Z1, [0, 0, 16], [0, 0, 4], [NO_CERT, NO_CERT, G]);
    }
    assert s1.replicas == Four(Moved);
    QuotaIs(Moved(0), 0, 4, 0, 0);
    Round(s1, 2, [0, 0, 0, 0], 0, 0, 0, 0, 4);
    QuadIs(2, 0, 0, 0, 0);
    s := AfterAdopt(s1.(cast := s1.cast + Casts(CFG, s1, 2, [0, 0, 0, 0], 4)), Z2, 4);
    forall v: nat | v < 4 ensures Adopted(Moved(v), v, Z2) == Empty(v) {
      Moves(Moved(v), v, Z2, [0, 16, 0], [0, 4, 0], [NO_CERT, G, Z1]);
    }
    assert s.replicas == Four(Empty);
  }

  /** The last replica votes more than the others. */
  lemma ThirdAdopted() returns (s: Net)
    ensures Reachable(CFG, s) && s.replicas == Four(Third)
  {
    hide IsRun, Total, QuotaOf, Quota;
    var s0 := Emptied();
    QuotaIs(Empty(0), 4, 0, 0, 0);
    QuotaIs(Empty(0), 4, 0, 0, 2);
    Round(s0, 3, [0, 0, 0, 2], 4, 4, 4, 6, 4);
    QuadIs(3, 4, 4, 4, 6);
    s := AfterAdopt(s0.(cast := s0.cast + Casts(CFG, s0, 3, [0, 0, 0, 2], 4)), C3, 4);
    forall v: nat | v < 4 ensures Adopted(Empty(v), v, C3) == Third(v) {
      Moves(Empty(v), v, C3, [16, 0, 0], [4, 0, 0], [G, Z1, Z2]);
    }
    assert s.replicas == Four(Third);
  }

  /** It misses the fourth certificate. */
  lemma FourthAdopted() returns (s: Net)
    ensures Reachable(CFG, s) && s.replicas == Four(Fourth)
  {
    hide IsRun, Total, QuotaOf, Quota;
    var s0 := ThirdAdopted();
    QuotaIs(Third(0), 0, 0, 4, 0);
    QuotaIs(Third(3), 0, 0, 6, 0);
    assert Third(1) == Third(0) && Third(2) == Third(0);
    Round(s0, 4, [0, 0, 0, 0], 0, 0, 0, 0, 3);
    QuadIs(4, 0, 0, 0, 0);
    s := AfterAdopt(s0.(cast := s0.cast + Casts(CFG, s0, 4, [0, 0, 0, 0], 4)), C4, 3);
    forall v: nat | v < 3 ensures Adopted(Third(v), v, C4) == Fourth(v) {
      Moves(Third(v), v, C4, [0, 0, 18], [0, 0, 4], [Z1, Z2, C3]);
    }
    assert s.replicas == Four(Fourth);
  }

  /** It goes on with the fifth, for which only the others voted. */
  lemma FifthAdopted() returns (s: Net)
    ensures Reachable(CFG, s) && s.replicas == Four(Fifth)
  {
    hide IsRun, Total, QuotaOf, Quota;
    var s0 := FourthAdopted();
    QuotaIs(Fourth(0), 0, 4, 0, 0);
    assert Fourth(1) == Fourth(0) && Fourth(2) == Fourth(0);
    CastUpTo(CFG, s0, 5, [0, 0, 0, 0], 3);
    CastsFour(s0, 5, [0, 0, 0, 0]);
    var s1 := s0.(cast := s0.cast + Casts(CFG, s0, 5, [0, 0, 0, 0], 3));
    FifthSupported(s1.cast);
    AdoptUpTo(CFG, s1, C5, 4);
    s := AfterAdopt(s1, C5, 4);
    FifthTotals();
    forall v: nat | v < 4 ensures Adopted(Fourth(v), v, C5) == Fifth(v) {
      if v < 3 {
        Moves(Fourth(v), v, C5, [0, 18, 0], [0, 4, 0], [Z2, C3, C4]);
      } else {
        Moves(Fourth(v), v, C5, [0, 0, 18], [0, 0, 6], [Z1, Z2, C3]);
      }
    }
    assert s.replicas == Four(Fifth);
  }

  lemma FifthSupported(cast: set<Cast>)
    requires Cast(0, 5, 5, 0) in cast && Cast(1, 5, 5, 0) in cast && Cast(2, 5, 5, 0) in cast
    ensures Supported(C5, cast, 4)
  {
  }

  lemma FifthTotals()
    ensures Total(C5.votes) == 0 && forall v: nat :: QuotaOf(C5.votes, v) == 0
  {
    ListOf3(Ballot(0, 0), Ballot(1, 0), Ballot(2, 0));
  }

  /**
   * Four validators of stake 8 and windows of three certificates, from genesis. The last one misses the
   * fourth certificate and goes on with the fifth. Then all four vote and the leader counts 12, not 16.
   */
  lemma SkippedCertificateFallsShort() returns (s: Net, votes: seq<nat>)
    ensures Reachable(CFG, s) && CFG.InRangeAll() && CFG.Everyone() && FullVote(CFG, s, votes)
    ensures LeaderCount(s, 0, votes) == 12 < MajorityQuota(CFG.limits)
    ensures !CanCount(CFG, s, 0) && !InStep(CFG, s, 0)
  {
    hide IsRun, Quota, Sum;
    s := FifthAdopted();
    votes := [4, 4, 4, 0];
    QuotaIs(Fifth(0), 4, 0, 0, 0);
    QuotaIs(Fifth(3), 0, 6, 0, 0);
    assert Fifth(1) == Fifth(0) && Fifth(2) == Fifth(0);
    forall v: nat | v < 4 ensures MayVote(CFG, s, v, votes[v]) {
      assert CFG.limits[v] == 8 && votes[v] == Quota(s.replicas[v], CFG.limits[v], 0);
    }
    assert s.replicas[0].qcWindow[1..] == [0, 0];
    SumFour(4, 4, 4, 0);
    SumFour(8, 8, 8, 8);
    SumFour(0, 0, 0, 0);
    assert s.replicas[3].history[1..] == [C3, C5] && s.replicas[0].history[1..] == [C4, C5];
    assert [C3, C5][0] != [C4, C5][0];
  }

  lemma SumFour(a: nat, b: nat, c: nat, d: nat)
    ensures Sum([a, b, c, d]) == a + b + c + d && Sum([c, d]) == c + d
  {
    assert [a, b, c, d][1..] == [b, c, d];
    SumThree(b, c, d);
    assert [c, d][1..] == [d] && [d][1..] == [];
    assert Sum([d]) == d;
  }

  /**
   * Votes for a block further ahead would break the limit: at a reachable window two votes by the rule, one
   * for a block two above it, that both enter.
   */
  lemma UnlinkedVoteBreaksLimit() returns (s: Net)
    ensures Reachable(CFG, s) && s.replicas[0].height == 2
    ensures var r := s.replicas[0];
      && Quota(r, 8, 2) == 6
      && Sum(Adopted(Adopted(r, 0, Cert(3, 3, [Ballot(0, 6)])), 0, Cert(4, 4, [Ballot(0, 6)])).voteWindow) > 8
  {
    hide IsRun, Quota, Total;
    s := Emptied();
    var r, c3, c4 := Empty(0), Cert(3, 3, [Ballot(0, 6)]), Cert(4, 4, [Ballot(0, 6)]);
    QuotaIs(r, 4, 0, 0, 2);
    Moves(r, 0, c3, [16, 0, 0], [4, 0, 0], [G, Z1, Z2]);
    var r1 := Adopted(r, 0, c3);
    Moves(r1, 0, c4, [0, 0, Total(c3.votes)], [0, 0, 6], [Z1, Z2, c3]);
    SumThree(0, 6, 6);
  }
}
