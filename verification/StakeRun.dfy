// Replicas with stake windows of their own, which vote and adopt certificates at their own pace.
module StakeRun {
  import opened Common
  import opened StakeWindow

  /** Everyone's stake, the size of the windows, and who keeps to the voting rule. */
  datatype Setup = Setup(limits: seq<nat>, size: nat, honest: set<nat>) {
    ghost predicate Ok() {
      size >= 1 && forall v :: 0 <= v < |limits| ==> limits[v] < UINT64
    }

    predicate Follows(v: nat) { v < |limits| && v in honest }

    ghost predicate Everyone() { forall v :: 0 <= v < |limits| ==> v in honest }

    /** The random rule is right for every honest stake. */
    ghost predicate InRangeAll() {
      forall v: nat :: Follows(v) ==> 3 * limits[v] + 3 < UINT64
    }
  }

  /** A vote that was cast. */
  datatype Cast = Cast(voter: nat, block: nat, height: nat, quota: nat)

  datatype Net = Net(replicas: seq<Replica>, cast: set<Cast>)

  /** A replica votes by the rule, somebody else votes anything, or a replica adopts a certificate. */
  datatype Step =
    | CastVote(v: nat, block: nat, height: nat, random: nat)
    | AnyVote(v: nat, block: nat, height: nat, quota: nat)
    | Adopt(v: nat, cert: Cert)

  /** A certificate over votes that were cast for its block, at most one from each. */
  ghost predicate Supported(cert: Cert, cast: set<Cast>, n: nat) {
    && OneEach(cert.votes, n)
    && forall k :: 0 <= k < |cert.votes| ==>
      Cast(cert.votes[k].voter, cert.block, cert.height, cert.votes[k].quota) in cast
  }

  ghost predicate RightSize(r: Replica, size: nat) {
    |r.qcWindow| == size && |r.voteWindow| == size && |r.history| == size
  }

  ghost predicate Sized(cfg: Setup, s: Net) {
    && cfg.Ok() && |s.replicas| == |cfg.limits|
    && forall v :: 0 <= v < |s.replicas| ==> RightSize(s.replicas[v], cfg.size)
  }

  /**
   * A replica votes for a block only after it adopted the certificate the block carries, which certifies
   * the block one height below: so the block is at most one above the voter's window.
   */
  ghost predicate Enabled(cfg: Setup, s: Net, step: Step) {
    match step
    case CastVote(v, block, height, random) =>
      cfg.Follows(v) && v < |s.replicas| && height <= s.replicas[v].height + 1
    case AnyVote(v, block, height, quota) => !cfg.Follows(v)
    case Adopt(v, cert) => v < |s.replicas| && Supported(cert, s.cast, |cfg.limits|)
  }

  ghost function Apply(cfg: Setup, s: Net, step: Step): Net
    requires Sized(cfg, s) && Enabled(cfg, s, step)
  {
    match step
    case CastVote(v, block, height, random) =>
      s.(cast := s.cast + {Cast(v, block, height, Quota(s.replicas[v], cfg.limits[v], random))})
    case AnyVote(v, block, height, quota) => s.(cast := s.cast + {Cast(v, block, height, quota)})
    case Adopt(v, cert) => s.(replicas := s.replicas[v := Adopted(s.replicas[v], v, cert)])
  }

  lemma StepSized(cfg: Setup, s: Net, step: Step)
    requires Sized(cfg, s) && Enabled(cfg, s, step)
    ensures Sized(cfg, Apply(cfg, s, step))
  {
  }

  // ------------------------------------------------ genesis

  /** The votes for the genesis block: half of the stake, rounded up, from everyone who keeps to the rule. */
  ghost predicate GenesisVotes(cfg: Setup, cast: set<Cast>) {
    forall c :: c in cast ==> c.height == 0 && (cfg.Follows(c.voter) ==> c.quota == Lower(cfg.limits[c.voter]))
  }

  /** The replica set up its window from a certificate for the genesis block. */
  ghost predicate StartsFrom(cfg: Setup, s: Net, v: nat, genesis: Cert)
    requires v < |s.replicas|
  {
    && genesis.height == 0 && Supported(genesis, s.cast, |cfg.limits|)
    && s.replicas[v] == Restored([genesis], cfg.size, 0, v)
  }

  ghost predicate Starts(cfg: Setup, s: Net, v: nat)
    requires v < |s.replicas|
  {
    exists genesis :: StartsFrom(cfg, s, v, genesis)
  }

  ghost predicate Init(cfg: Setup, s: Net) {
    && cfg.Ok() && |s.replicas| == |cfg.limits| && GenesisVotes(cfg, s.cast)
    && forall v :: 0 <= v < |s.replicas| ==> Starts(cfg, s, v)
  }

  // ------------------------------------------------ what every step keeps

  ghost predicate ReplicaOk(cfg: Setup, cast: set<Cast>, r: Replica, v: nat) {
    && r.qcWindow == Totals(r.history) && r.voteWindow == Own(r.history, v)
    && (forall i :: 0 <= i < |r.history| ==> Supported(r.history[i], cast, |cfg.limits|))
    && (cfg.Follows(v) ==> Sum(r.voteWindow) <= cfg.limits[v])
  }

  /** A vote by the rule is within the stake, and while it can still enter the voter's window it fits there. */
  ghost predicate CastOk(r: Replica, limit: nat, c: Cast)
    requires r.voteWindow != []
  {
    && c.quota <= limit && c.height <= r.height + 1
    && (c.height == r.height + 1 ==> Sum(r.voteWindow[1..]) + c.quota <= limit)
  }

  ghost predicate Inv(cfg: Setup, s: Net) {
    && Sized(cfg, s)
    && (forall v :: 0 <= v < |s.replicas| ==> ReplicaOk(cfg, s.cast, s.replicas[v], v))
    && (forall c :: c in s.cast && cfg.Follows(c.voter) ==> CastOk(s.replicas[c.voter], cfg.limits[c.voter], c))
  }

  /** More votes take nothing away. */
  lemma StillOk(cfg: Setup, cast: set<Cast>, more: set<Cast>, r: Replica, v: nat)
    requires ReplicaOk(cfg, cast, r, v) && cast <= more
    ensures ReplicaOk(cfg, more, r, v)
  {
    hide Totals, Own, Sum;
    forall i | 0 <= i < |r.history| ensures Supported(r.history[i], more, |cfg.limits|) {
      assert Supported(r.history[i], cast, |cfg.limits|);
    }
  }

  lemma VotesKeepInv(cfg: Setup, s: Net, c: Cast)
    requires Inv(cfg, s)
    requires cfg.Follows(c.voter) ==> CastOk(s.replicas[c.voter], cfg.limits[c.voter], c)
    ensures Inv(cfg, s.(cast := s.cast + {c}))
  {
    hide ReplicaOk, CastOk;
    forall v | 0 <= v < |s.replicas| ensures ReplicaOk(cfg, s.cast + {c}, s.replicas[v], v) {
      StillOk(cfg, s.cast, s.cast + {c}, s.replicas[v], v);
    }
  }

  /** A certificate that moves the window brings the vote that was made to fit, or none. */
  lemma AdoptedOk(cfg: Setup, s: Net, v: nat, cert: Cert)
    requires Inv(cfg, s) && v < |s.replicas| && Supported(cert, s.cast, |cfg.limits|)
    ensures ReplicaOk(cfg, s.cast, Adopted(s.replicas[v], v, cert), v)
  {
    hide Sum, QuotaOf, Total, OneEach;
    var r := s.replicas[v];
    assert ReplicaOk(cfg, s.cast, r, v);
    if cert.height > r.height {
      var r' := Adopted(r, v, cert);
      assert r'.qcWindow == Totals(r'.history);
      assert r'.voteWindow == Own(r'.history, v);
      SumAppend(r.voteWindow[1..], QuotaOf(cert.votes, v));
      SumTail(r.voteWindow);
      OwnVote(cert.votes, v);
      if QuotaOf(cert.votes, v) != 0 {
        var k :| 0 <= k < |cert.votes| && cert.votes[k] == Ballot(v, QuotaOf(cert.votes, v));
        assert Cast(v, cert.block, cert.height, cert.votes[k].quota) in s.cast;
      }
    }
  }

  lemma {:induction false} OwnVote(votes: seq<Ballot>, v: nat)
    ensures QuotaOf(votes, v) == 0 || exists k :: 0 <= k < |votes| && votes[k] == Ballot(v, QuotaOf(votes, v))
  {
    if votes != [] {
      if votes[0].voter == v {
        assert votes[0] == Ballot(v, QuotaOf(votes, v));
      } else {
        OwnVote(votes[1..], v);
        if QuotaOf(votes, v) != 0 {
          var k :| 0 <= k < |votes[1..]| && votes[1..][k] == Ballot(v, QuotaOf(votes[1..], v));
          assert votes[k + 1] == Ballot(v, QuotaOf(votes, v));
        }
      }
    }
  }

  /** A certificate that is not lower leaves the votes that can still enter as good as they were. */
  lemma CastStaysOk(r: Replica, v: nat, cert: Cert, limit: nat, c: Cast)
    requires r.qcWindow != [] && r.voteWindow != [] && r.history != [] && CastOk(r, limit, c)
    ensures CastOk(Adopted(r, v, cert), limit, c)
  {
  }

  lemma StepInv(cfg: Setup, s: Net, step: Step)
    requires Inv(cfg, s) && cfg.InRangeAll() && Enabled(cfg, s, step)
    ensures Inv(cfg, Apply(cfg, s, step))
  {
    hide Sum, Quota, ReplicaOk, Supported, CastOk, Adopted;
    StepSized(cfg, s, step);
    match step
    case CastVote(v, block, height, random) =>
      RuleVoteOk(cfg, s, v, block, height, random);
      VotesKeepInv(cfg, s, Cast(v, block, height, Quota(s.replicas[v], cfg.limits[v], random)));
    case AnyVote(v, block, height, quota) => VotesKeepInv(cfg, s, Cast(v, block, height, quota));
    case Adopt(v, cert) =>
      AdoptedOk(cfg, s, v, cert);
      forall c | c in s.cast && cfg.Follows(c.voter)
        ensures CastOk(Apply(cfg, s, step).replicas[c.voter], cfg.limits[c.voter], c)
      {
        CastStaysOk(s.replicas[c.voter], v, cert, cfg.limits[c.voter], c);
      }
  }

  lemma RuleVoteOk(cfg: Setup, s: Net, v: nat, block: nat, height: nat, random: nat)
    requires Inv(cfg, s) && cfg.InRangeAll() && cfg.Follows(v) && height <= s.replicas[v].height + 1
    ensures var r := s.replicas[v];
      CastOk(r, cfg.limits[v], Cast(v, block, height, Quota(r, cfg.limits[v], random)))
  {
    hide Quota, Sum;
    assert ReplicaOk(cfg, s.cast, s.replicas[v], v);
    QuotaAllowed(s.replicas[v], cfg.limits[v], random);
  }

  // ------------------------------------------------ the leader's count

  /** The majority a certificate's window must reach. */
  function MajorityQuota(limits: seq<nat>): nat { (Sum(limits) + 1) / 2 }

  /** It is the least that is at least half of the total stake. */
  lemma MajorityIsHalf(limits: seq<nat>, m: nat)
    ensures MajorityQuota(limits) <= m <==> Sum(limits) <= 2 * m
  {
  }

  /** A vote of everyone: by the rule, or of at most the stake from those who do not keep to it. */
  ghost predicate FullVote(cfg: Setup, s: Net, votes: seq<nat>)
    requires Sized(cfg, s)
  {
    |votes| == |cfg.limits| && forall v :: 0 <= v < |votes| ==> MayVote(cfg, s, v, votes[v])
  }

  ghost predicate MayVote(cfg: Setup, s: Net, v: nat, quota: nat)
    requires Sized(cfg, s) && v < |cfg.limits|
  {
    if cfg.Follows(v) then exists random: nat :: quota == Quota(s.replicas[v], cfg.limits[v], random)
    else quota <= cfg.limits[v]
  }

  /** What the leader counts: the votes and its window without the oldest certificate. */
  ghost function LeaderCount(s: Net, leader: nat, votes: seq<nat>): nat
    requires leader < |s.replicas| && s.replicas[leader].qcWindow != []
  {
    Sum(votes) + Sum(s.replicas[leader].qcWindow[1..])
  }

  /** Every full vote reaches the majority. */
  ghost predicate CanCount(cfg: Setup, s: Net, leader: nat)
    requires Sized(cfg, s)
  {
    && leader < |s.replicas|
    && forall votes :: FullVote(cfg, s, votes) ==> MajorityQuota(cfg.limits) <= LeaderCount(s, leader, votes)
  }

  /** The least everyone can vote. */
  ghost function Leasts(cfg: Setup, s: Net): seq<nat>
    requires Sized(cfg, s)
  {
    seq(|cfg.limits|, v requires 0 <= v < |cfg.limits| =>
      if cfg.Follows(v) then Least(cfg.limits[v], Sum(s.replicas[v].voteWindow[1..]), s.replicas[v].height) else 0)
  }

  lemma LeastsAreVotes(cfg: Setup, s: Net)
    requires Inv(cfg, s) && cfg.InRangeAll()
    ensures FullVote(cfg, s, Leasts(cfg, s))
    ensures forall votes :: FullVote(cfg, s, votes) ==> Sum(Leasts(cfg, s)) <= Sum(votes)
  {
    hide Quota, Least, Sum;
    var leasts := Leasts(cfg, s);
    forall v | 0 <= v < |leasts| ensures MayVote(cfg, s, v, leasts[v]) {
      if cfg.Follows(v) { LeastIsVote(cfg, s, v, 0); }
    }
    forall votes | FullVote(cfg, s, votes) ensures Sum(leasts) <= Sum(votes) {
      forall v | 0 <= v < |votes| ensures leasts[v] <= votes[v] {
        assert MayVote(cfg, s, v, votes[v]);
        if cfg.Follows(v) {
          var random: nat :| votes[v] == Quota(s.replicas[v], cfg.limits[v], random);
          LeastIsVote(cfg, s, v, random);
        }
      }
      SumBetween(leasts, votes);
    }
  }

  lemma LeastIsVote(cfg: Setup, s: Net, v: nat, random: nat)
    requires Inv(cfg, s) && cfg.InRangeAll() && cfg.Follows(v)
    ensures Leasts(cfg, s)[v] == Quota(s.replicas[v], cfg.limits[v], 0) <= Quota(s.replicas[v], cfg.limits[v], random)
  {
    hide Quota, Least, Sum;
    assert ReplicaOk(cfg, s.cast, s.replicas[v], v);
    LeastVote(s.replicas[v], cfg.limits[v], random);
  }

  /**
   * Exactly when the leader can count on a majority: every full vote reaches it if and only if the least
   * votes do, on top of the leader's window.
   */
  lemma FullVoteExact(cfg: Setup, s: Net, leader: nat)
    requires Inv(cfg, s) && cfg.InRangeAll() && leader < |s.replicas|
    ensures CanCount(cfg, s, leader) <==>
      MajorityQuota(cfg.limits) <= Sum(Leasts(cfg, s)) + Sum(s.replicas[leader].qcWindow[1..])
  {
    hide Leasts, FullVote, MajorityQuota, Sum;
    LeastsAreVotes(cfg, s);
  }

  // ------------------------------------------------ in step with the leader

  /** What each validator finds of its own in all of the certificates. */
  function OwnSums(history: seq<Cert>, n: nat): seq<nat> {
    seq(n, v requires 0 <= v => Sum(Own(history, v)))
  }

  /** The totals before they are cut to 64 bits. */
  function RawTotals(history: seq<Cert>): seq<nat> {
    seq(|history|, i requires 0 <= i < |history| => SumQuota(history[i].votes))
  }

  /** Adding up certificates first or validators first is the same. */
  lemma {:induction false} SumTotals(history: seq<Cert>, n: nat)
    requires forall i :: 0 <= i < |history| ==> OneEach(history[i].votes, n)
    ensures Sum(RawTotals(history)) == Sum(OwnSums(history, n))
  {
    if history == [] {
      assert OwnSums(history, n) == seq(n, i => 0) by {
        forall v | 0 <= v < n ensures OwnSums(history, n)[v] == 0 { assert Own(history, v) == []; }
      }
      SumZeros(n);
    } else {
      var c, rest := history[0], history[1..];
      assert RawTotals(history)[1..] == RawTotals(rest);
      TotalIsShares(c.votes, n);
      forall v | 0 <= v < n ensures OwnSums(history, n)[v] == Add(Shares(c.votes, n), OwnSums(rest, n))[v] {
        assert Own(history, v)[1..] == Own(rest, v);
      }
      assert OwnSums(history, n) == Add(Shares(c.votes, n), OwnSums(rest, n));
      SumAdd(Shares(c.votes, n), OwnSums(rest, n));
      SumTotals(rest, n);
    }
  }

  lemma {:induction false} TermAtMostSum(s: seq<nat>, i: nat)
    requires i < |s|
    ensures s[i] <= Sum(s)
  {
    if i > 0 { TermAtMostSum(s[1..], i - 1); }
  }

  /** While everything together fits into 64 bits no total is cut. */
  lemma NothingCut(history: seq<Cert>)
    requires Sum(RawTotals(history)) < UINT64
    ensures Totals(history) == RawTotals(history)
  {
    hide Sum, SumQuota;
    forall i | 0 <= i < |history| ensures Totals(history)[i] == RawTotals(history)[i] {
      TermAtMostSum(RawTotals(history), i);
      Small(SumQuota(history[i].votes), UINT64);
    }
  }

  /** Everyone's last certificates but the oldest are the leader's. */
  ghost predicate InStep(cfg: Setup, s: Net, leader: nat)
    requires Sized(cfg, s)
  {
    && leader < |s.replicas|
    && forall v :: 0 <= v < |s.replicas| ==> s.replicas[v].history[1..] == s.replicas[leader].history[1..]
  }

  lemma OwnTail(cfg: Setup, s: Net, leader: nat, v: nat)
    requires Inv(cfg, s) && InStep(cfg, s, leader) && v < |s.replicas|
    ensures Sum(Own(s.replicas[leader].history[1..], v)) == Sum(s.replicas[v].voteWindow[1..])
  {
    hide Sum, QuotaOf, Total;
    assert ReplicaOk(cfg, s.cast, s.replicas[v], v);
    assert Own(s.replicas[v].history, v)[1..] == Own(s.replicas[v].history[1..], v);
  }

  /** In step, the leader's window is made of what everyone finds of its own. */
  lemma LeaderWindow(cfg: Setup, s: Net, leader: nat)
    requires Inv(cfg, s) && cfg.Everyone() && InStep(cfg, s, leader) && Sum(cfg.limits) < UINT64
    ensures var own := OwnSums(s.replicas[leader].history[1..], |cfg.limits|);
      && Sum(s.replicas[leader].qcWindow[1..]) == Sum(own)
      && forall v :: 0 <= v < |cfg.limits| ==> own[v] == Sum(s.replicas[v].voteWindow[1..]) <= cfg.limits[v]
  {
    hide Sum, Totals, Own;
    var h, n := s.replicas[leader].history[1..], |cfg.limits|;
    assert ReplicaOk(cfg, s.cast, s.replicas[leader], leader);
    assert forall i :: 0 <= i < |h| ==> OneEach(h[i].votes, n) by {
      assert forall i :: 0 <= i < |h| ==> Supported(h[i], s.cast, n);
    }
    SumTotals(h, n);
    forall v | 0 <= v < n
      ensures OwnSums(h, n)[v] == Sum(s.replicas[v].voteWindow[1..]) <= cfg.limits[v]
    {
      assert ReplicaOk(cfg, s.cast, s.replicas[v], v);
      OwnTail(cfg, s, leader, v);
      SumTail(s.replicas[v].voteWindow);
    }
    SumBetween(OwnSums(h, n), cfg.limits);
    NothingCut(h);
    TotalsTail(s.replicas[leader].history);
  }

  lemma TotalsTail(history: seq<Cert>)
    requires history != []
    ensures Totals(history)[1..] == Totals(history[1..])
  {
  }

  /**
   * When all keep to the rule and their last certificates but the oldest are the leader's, every full vote
   * reaches the majority, whatever votes those certificates missed; and it never exceeds the total stake,
   * so nothing wraps.
   */
  lemma FullVoteReachesMajority(cfg: Setup, s: Net, leader: nat, votes: seq<nat>)
    requires Inv(cfg, s) && cfg.InRangeAll() && cfg.Everyone() && InStep(cfg, s, leader)
    requires Sum(cfg.limits) < UINT64 && FullVote(cfg, s, votes)
    ensures MajorityQuota(cfg.limits) <= LeaderCount(s, leader, votes) <= Sum(cfg.limits)
  {
    hide Sum, Quota, Own, OwnSums;
    var n := |cfg.limits|;
    LeaderWindow(cfg, s, leader);
    var own := OwnSums(s.replicas[leader].history[1..], n);
    assert |own| == n by { LengthOf(s.replicas[leader].history[1..], n); }
    var both := Add(own, votes);
    SumAdd(own, votes);
    forall v | 0 <= v < n ensures Halves(cfg.limits)[v] <= both[v] <= cfg.limits[v] {
      assert MayVote(cfg, s, v, votes[v]) && ReplicaOk(cfg, s.cast, s.replicas[v], v);
      var random: nat :| votes[v] == Quota(s.replicas[v], cfg.limits[v], random);
      QuotaAllowed(s.replicas[v], cfg.limits[v], random);
    }
    SumBetween(Halves(cfg.limits), both);
    SumBetween(both, cfg.limits);
    HalvesReach(cfg.limits);
  }

  lemma LengthOf(history: seq<Cert>, n: nat)
    ensures |OwnSums(history, n)| == n
  {
  }

  lemma InStepCounts(cfg: Setup, s: Net, leader: nat)
    requires Inv(cfg, s) && cfg.InRangeAll() && cfg.Everyone() && Sum(cfg.limits) < UINT64 && InStep(cfg, s, leader)
    ensures CanCount(cfg, s, leader)
  {
    hide Sum, LeaderCount, MajorityQuota, FullVote, ReplicaOk, CastOk;
    forall votes | FullVote(cfg, s, votes) ensures MajorityQuota(cfg.limits) <= LeaderCount(s, leader, votes) {
      FullVoteReachesMajority(cfg, s, leader, votes);
    }
  }

  // ------------------------------------------------ the count in 64 bits

  /** A certificate over votes by the rule counts at most the total stake. */
  lemma CertFits(cfg: Setup, s: Net, cert: Cert)
    requires Inv(cfg, s) && cfg.Everyone() && Supported(cert, s.cast, |cfg.limits|)
    ensures SumQuota(cert.votes) <= Sum(cfg.limits)
  {
    hide Sum, SumQuota, QuotaOf;
    var n := |cfg.limits|;
    TotalIsShares(cert.votes, n);
    forall v | 0 <= v < n ensures Shares(cert.votes, n)[v] <= cfg.limits[v] {
      OwnVote(cert.votes, v);
      if QuotaOf(cert.votes, v) != 0 {
        var k :| 0 <= k < |cert.votes| && cert.votes[k] == Ballot(v, QuotaOf(cert.votes, v));
        assert Cast(v, cert.block, cert.height, cert.votes[k].quota) in s.cast;
      }
    }
    SumBetween(Shares(cert.votes, n), cfg.limits);
  }

  lemma {:induction false} SumAtMost(s: seq<nat>, most: nat)
    requires forall i :: 0 <= i < |s| ==> s[i] <= most
    ensures Sum(s) <= |s| * most
  {
    if s != [] { SumAtMost(s[1..], most); }
  }

  /** Out of step too, the count stays within the window's size times the total stake. */
  lemma CountBounded(cfg: Setup, s: Net, leader: nat, votes: seq<nat>)
    requires Inv(cfg, s) && cfg.InRangeAll() && cfg.Everyone() && leader < |s.replicas| && FullVote(cfg, s, votes)
    ensures LeaderCount(s, leader, votes) <= cfg.size * Sum(cfg.limits)
  {
    hide Sum, Quota, SumQuota;
    forall v | 0 <= v < |votes| ensures votes[v] <= cfg.limits[v] {
      assert MayVote(cfg, s, v, votes[v]) && ReplicaOk(cfg, s.cast, s.replicas[v], v);
      var random: nat :| votes[v] == Quota(s.replicas[v], cfg.limits[v], random);
      QuotaAllowed(s.replicas[v], cfg.limits[v], random);
    }
    SumBetween(votes, cfg.limits);
    var r := s.replicas[leader];
    assert ReplicaOk(cfg, s.cast, r, leader);
    var tail, all := r.qcWindow[1..], Sum(cfg.limits);
    forall i | 0 <= i < |tail| ensures tail[i] <= all {
      assert Supported(r.history[i + 1], s.cast, |cfg.limits|);
      CertFits(cfg, s, r.history[i + 1]);
      CutDown(SumQuota(r.history[i + 1].votes));
    }
    SumAtMost(tail, all);
    assert |tail| == cfg.size - 1;
    assert (cfg.size - 1) * all + all == cfg.size * all;
  }

  lemma CutDown(x: nat)
    ensures x % UINT64 <= x
  {
  }

  /** The leader's object makes this count, as long as it fits into 64 bits. */
  method Count(w: Window, s: Net, leader: nat, votes: seq<nat>) returns (r: nat)
    requires w.Valid() && leader < |s.replicas| && w.Shows(s.replicas[leader])
    ensures r == LeaderCount(s, leader, votes) % UINT64
    ensures LeaderCount(s, leader, votes) < UINT64 ==> r == LeaderCount(s, leader, votes)
  {
    hide Sum;
    var cast := AddVotes(votes);
    r := w.QuotaCount(cast);
    ModAdd(Sum(votes), Sum(w.qcQuotas[1..]));
    if LeaderCount(s, leader, votes) < UINT64 { Small(LeaderCount(s, leader, votes), UINT64); }
  }

  /** The votes for a proposal are added up as they come in. */
  method AddVotes(votes: seq<nat>) returns (r: nat)
    ensures r == Sum(votes) % UINT64
  {
    r := 0;
    for i := 0 to |votes|
      invariant r == Sum(votes[..i]) % UINT64
    {
      SumAppend(votes[..i], votes[i]);
      assert votes[..i] + [votes[i]] == votes[..i + 1];
      ModAdd(Sum(votes[..i]), votes[i]);
      r := (r + votes[i]) % UINT64;
    }
    assert votes[..|votes|] == votes;
  }

  // ------------------------------------------------ whole runs

  ghost predicate StepAt(cfg: Setup, run: seq<Net>, steps: seq<Step>, k: nat)
    requires k + 1 < |run| && k < |steps|
  {
    Sized(cfg, run[k]) && Enabled(cfg, run[k], steps[k]) && run[k + 1] == Apply(cfg, run[k], steps[k])
  }

  ghost predicate IsRun(cfg: Setup, run: seq<Net>, steps: seq<Step>) {
    && |run| == |steps| + 1 && Init(cfg, run[0])
    && forall k :: 0 <= k < |steps| ==> StepAt(cfg, run, steps, k)
  }

  /** The first window: empty places, and the genesis vote in the last. */
  lemma FirstWindow(size: nat, genesis: Cert, v: nat)
    requires size >= 1
    ensures Sum(Restored([genesis], size, 0, v).voteWindow) == QuotaOf(genesis.votes, v)
  {
    var w, empty := Own(Newest([genesis], size), v), seq(size, i => 0);
    NothingVoted(v);
    assert w == empty[size - 1 := QuotaOf(genesis.votes, v)];
    SumZeros(size);
    SumOneChanged(empty, size - 1, QuotaOf(genesis.votes, v));
  }

  lemma FirstReplicaOk(cfg: Setup, s: Net, v: nat, genesis: Cert)
    requires cfg.Ok() && GenesisVotes(cfg, s.cast) && v < |s.replicas| == |cfg.limits| && StartsFrom(cfg, s, v, genesis)
    ensures RightSize(s.replicas[v], cfg.size) && ReplicaOk(cfg, s.cast, s.replicas[v], v)
  {
    hide Sum, QuotaOf, Total;
    FirstWindow(cfg.size, genesis, v);
    OwnVote(genesis.votes, v);
    if cfg.Follows(v) && QuotaOf(genesis.votes, v) != 0 {
      var k :| 0 <= k < |genesis.votes| && genesis.votes[k] == Ballot(v, QuotaOf(genesis.votes, v));
      assert Cast(v, genesis.block, genesis.height, genesis.votes[k].quota) in s.cast;
      HalfAtMost(cfg.limits[v]);
    }
  }

  lemma HalfAtMost(limit: nat)
    requires limit < UINT64
    ensures Lower(limit) <= limit
  {
  }

  lemma InitInv(cfg: Setup, s: Net)
    requires Init(cfg, s)
    ensures Inv(cfg, s)
  {
    hide ReplicaOk, StartsFrom, Lower;
    forall v | 0 <= v < |s.replicas|
      ensures RightSize(s.replicas[v], cfg.size) && ReplicaOk(cfg, s.cast, s.replicas[v], v)
    {
      assert Starts(cfg, s, v);
      var genesis :| StartsFrom(cfg, s, v, genesis);
      FirstReplicaOk(cfg, s, v, genesis);
    }
    forall c | c in s.cast && cfg.Follows(c.voter) ensures CastOk(s.replicas[c.voter], cfg.limits[c.voter], c) {
      HalfAtMost(cfg.limits[c.voter]);
    }
  }

  lemma {:induction false} RunInv(cfg: Setup, run: seq<Net>, steps: seq<Step>, k: nat)
    requires IsRun(cfg, run, steps) && cfg.InRangeAll() && k < |run|
    ensures Inv(cfg, run[k])
  {
    hide Inv, Enabled, Apply, Init;
    if k == 0 {
      InitInv(cfg, run[0]);
    } else {
      RunInv(cfg, run, steps, k - 1);
      assert StepAt(cfg, run, steps, k - 1);
      StepInv(cfg, run[k - 1], steps[k - 1]);
    }
  }

  /**
   * Over every run from genesis, with replicas voting and adopting certificates at their own pace and in
   * their own order and others voting as they like: no window of a replica that keeps to the rule exceeds
   * its limit, and a leader can count on a majority exactly when the least votes reach it.
   */
  lemma WindowsStaySound(cfg: Setup, run: seq<Net>, steps: seq<Step>, k: nat)
    requires IsRun(cfg, run, steps) && cfg.InRangeAll() && k < |run|
    ensures Inv(cfg, run[k])
    ensures forall v: nat :: cfg.Follows(v) ==> Sum(run[k].replicas[v].voteWindow) <= cfg.limits[v]
    ensures forall leader: nat :: leader < |run[k].replicas| ==>
      (CanCount(cfg, run[k], leader) <==>
       MajorityQuota(cfg.limits) <= Sum(Leasts(cfg, run[k])) + Sum(run[k].replicas[leader].qcWindow[1..]))
    ensures cfg.Everyone() && Sum(cfg.limits) < UINT64 ==>
      forall leader: nat :: InStep(cfg, run[k], leader) ==> CanCount(cfg, run[k], leader)
  {
    hide Sum, LeaderCount, MajorityQuota, Leasts, FullVote, InStep;
    RunInv(cfg, run, steps, k);
    var s := run[k];
    forall v: nat | cfg.Follows(v) ensures Sum(s.replicas[v].voteWindow) <= cfg.limits[v] {
      assert ReplicaOk(cfg, s.cast, s.replicas[v], v);
    }
    forall leader: nat | leader < |s.replicas|
      ensures CanCount(cfg, s, leader) <==>
        MajorityQuota(cfg.limits) <= Sum(Leasts(cfg, s)) + Sum(s.replicas[leader].qcWindow[1..])
    {
      FullVoteExact(cfg, s, leader);
    }
    if cfg.Everyone() && Sum(cfg.limits) < UINT64 {
      forall leader: nat | InStep(cfg, s, leader) ensures CanCount(cfg, s, leader) {
        InStepCounts(cfg, s, leader);
      }
    }
  }
}
