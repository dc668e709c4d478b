// Stake-weighted voting over a sliding window of certificates.
module StakeWindow {
  import opened Common

  const INT64: nat := 0x8000_0000_0000_0000

  function Sum(s: seq<nat>): nat {
    if s == [] then 0 else s[0] + Sum(s[1..])
  }

  /** The oldest entry leaves, a new one enters. */
  function Shift(s: seq<nat>, x: nat): seq<nat>
    requires s != []
  {
    s[1..] + [x]
  }

  lemma {:induction false} SumAppend(s: seq<nat>, x: nat)
    ensures Sum(s + [x]) == Sum(s) + x
  {
    if s == [] {
      assert [] + [x] == [x];
    } else {
      SumAppend(s[1..], x);
      assert (s + [x])[1..] == s[1..] + [x];
    }
  }

  // ------------------------------------------------ the voting rule

  datatype Strategy = AverageVote | RandomVote

  /** How much to vote, given the window's total, its oldest entry and a random number; `panics` on a zero modulus. */
  function Vote(strategy: Strategy, limit: nat, acc: nat, oldest: nat, height: nat, size: nat, random: nat)
    : (r: (nat, bool))
    requires limit < UINT64 && acc < UINT64 && oldest < UINT64 && size > 0
  {
    match strategy
    case AverageVote => (limit / size, false)
    case RandomVote =>
      if height > 50 then ((limit - acc + oldest) % UINT64, false)
      else
        var pre := (acc - oldest) % UINT64;
        Pick(Floored(Upper(limit), pre), Floored(Lower(limit), pre), random)
  }

  /** Three quarters of the limit, and half of it, rounded up in 64 bits. */
  function Upper(limit: nat): nat { ((3 * limit + 3) % UINT64) / 4 }

  function Lower(limit: nat): nat { ((limit + 1) % UINT64) / 2 }

  /** A number from min to max, both included. */
  function Pick(max: nat, min: nat, random: nat): (nat, bool) {
    var width := (max - min + 1) % UINT64;
    if width == 0 then (0, true) else ((random % width + min) % UINT64, false)
  }

  /** The 64-bit difference, or zero where it is negative read as signed. */
  function Floored(target: nat, pre: nat): nat {
    var d := (target - pre) % UINT64;
    if d >= INT64 then 0 else d
  }

  /** Half the limit at least, the whole limit at most. */
  predicate Allowed(limit: nat, pre: nat, quota: nat) {
    (limit + 1) / 2 <= pre + quota <= limit
  }

  lemma Small(x: nat, m: nat)
    requires x < m
    ensures x % m == x
  {
  }

  lemma Negative(x: int)
    requires 0 <= x + UINT64 && x < 0
    ensures x % UINT64 == x + UINT64
  {
  }

  lemma FlooredIs(target: nat, pre: nat)
    requires target < INT64 && pre < INT64
    ensures Floored(target, pre) == if target >= pre then target - pre else 0
  {
    if target >= pre { Small(target - pre, UINT64); } else { Negative(target - pre); }
  }

  /** The targets of the random rule lie between half the limit and the limit. */
  lemma Targets(limit: nat)
    requires 3 * limit + 3 < UINT64
    ensures Lower(limit) == (limit + 1) / 2 <= Upper(limit) <= limit < INT64
  {
    Small(3 * limit + 3, UINT64);
    Small(limit + 1, UINT64);
  }

  lemma PickIs(max: nat, min: nat, random: nat)
    requires min <= max < INT64
    ensures Pick(max, min, random) == (random % (max - min + 1) + min, false)
  {
    var width := max - min + 1;
    Small(width, UINT64);
    Small(random % width + min, UINT64);
  }

  /** The random rule does its duty: no division by zero, a total between half the limit and the limit. */
  predicate Good(limit: nat, pre: nat, oldest: nat, height: nat, size: nat, random: nat)
    requires limit < UINT64 && pre + oldest <= limit && size > 0
  {
    var (quota, panics) := Vote(RandomVote, limit, pre + oldest, oldest, height, size, random);
    !panics && Allowed(limit, pre, quota)
  }

  /** Limits and heights at which it always does. */
  predicate InRange(limit: nat, height: nat) { height > 50 || 3 * limit + 3 < UINT64 }

  lemma RandomVoteAllowed(limit: nat, pre: nat, oldest: nat, height: nat, size: nat, random: nat)
    requires limit < UINT64 && InRange(limit, height) && pre + oldest <= limit && size > 0
    ensures Good(limit, pre, oldest, height, size, random)
  {
    hide Pick, Floored, Upper, Lower;
    if height > 50 {
      Small(limit - pre, UINT64);
    } else {
      Targets(limit);
      Small(pre, UINT64);
      FlooredIs(Upper(limit), pre);
      FlooredIs(Lower(limit), pre);
      PickIs(Floored(Upper(limit), pre), Floored(Lower(limit), pre), random);
    }
  }

  /** Outside the range the very first vote can go wrong. */
  lemma HugeLimit(limit: nat, height: nat, size: nat) returns (random: nat)
    requires limit < UINT64 && !InRange(limit, height) && size > 0
    ensures random < UINT64 && !Good(limit, 0, 0, height, size, random)
  {
    hide Pick, Floored, Upper, Lower;
    Small(0, UINT64);
    if limit == UINT64 - 1 {
      random := 0;
      LargestLimit();
    } else {
      HugeTargets(limit);
      FlooredIs(Upper(limit), 0);
      FlooredIs(Lower(limit), 0);
      random := UINT64 - 1 - Lower(limit);
      WrappedPick(Upper(limit), Lower(limit));
    }
  }

  /** The random rule is right for every window and every random number exactly in this range. */
  lemma RandomRuleExact(limit: nat, height: nat, size: nat)
    requires limit < UINT64 && size > 0
    ensures InRange(limit, height) <==> forall pre: nat, oldest: nat, random: nat ::
      pre + oldest <= limit && random < UINT64 ==> Good(limit, pre, oldest, height, size, random)
  {
    hide Good;
    if InRange(limit, height) {
      forall pre: nat, oldest: nat, random: nat | pre + oldest <= limit && random < UINT64
        ensures Good(limit, pre, oldest, height, size, random)
      {
        RandomVoteAllowed(limit, pre, oldest, height, size, random);
      }
    } else {
      var random := HugeLimit(limit, height, size);
    }
  }

  lemma LargestLimit()
    ensures var limit := UINT64 - 1; Pick(Floored(Upper(limit), 0), Floored(Lower(limit), 0), 0) == (0, false)
  {
  }

  lemma HugeTargets(limit: nat)
    requires UINT64 <= 3 * limit + 3 && limit < UINT64 - 1
    ensures Upper(limit) < Lower(limit) < INT64
  {
  }

  lemma WrappedPick(max: nat, min: nat)
    requires max < min < INT64
    ensures var (quota, panics) := Pick(max, min, UINT64 - 1 - min); panics || quota == UINT64 - 1
  {
    if min > max + 1 {
      Negative(max - min + 1);
      var width := max - min + 1 + UINT64;
      Small(UINT64 - 1 - min, width);
      Small(UINT64 - 1, UINT64);
    }
  }

  /** The average rule votes the largest amount that can be voted a whole window long. */
  lemma AverageFits(limit: nat, acc: nat, oldest: nat, height: nat, size: nat, random: nat)
    requires limit < UINT64 && acc < UINT64 && oldest < UINT64 && size > 0
    ensures var (quota, panics) := Vote(AverageVote, limit, acc, oldest, height, size, random);
      !panics && size * quota <= limit < size * (quota + 1)
  {
    assert limit == size * (limit / size) + limit % size;
  }

  // ------------------------------------------------ the window

  class Window {
    var qcQuotas: seq<nat>
    var qcAcc: nat
    var voteQuotas: seq<nat>
    var voteAcc: nat
    var height: nat
    const limit: nat
    const size: nat
    const strategy: Strategy

    /** The running totals are the sums of what is in the window, in 64-bit arithmetic. */
    ghost predicate Valid()
      reads this
    {
      && size >= 1 && |qcQuotas| == size && |voteQuotas| == size && limit < UINT64
      && (forall i :: 0 <= i < size ==> qcQuotas[i] < UINT64 && voteQuotas[i] < UINT64)
      && qcAcc == Sum(qcQuotas) % UINT64 && voteAcc == Sum(voteQuotas) % UINT64
    }

    /** The object is this replica's window. */
    ghost predicate Shows(r: Replica)
      reads this
    {
      qcQuotas == r.qcWindow && voteQuotas == r.voteWindow && height == r.height
    }

    /**
     * The window read back from the chain of certificates, newest first: the last `size` of them, zeros
     * where the chain is shorter.
     */
    constructor (size: nat, limit: nat, strategy: Strategy, height: nat, certs: seq<Cert>, me: nat)
      requires size >= 1 && limit < UINT64
      ensures Valid() && this.limit == limit && this.size == size && this.strategy == strategy
      ensures Shows(Restored(certs, size, height, me))
    {
      this.size, this.limit, this.strategy, this.height := size, limit, strategy, height;
      qcQuotas, voteQuotas := seq(size, i => 0), seq(size, i => 0);
      qcAcc, voteAcc := 0, 0;
      new;
      SumZeros(size);
      Restore(certs, me);
    }

    /** Fills an empty window from the newest certificate backwards. */
    method Restore(certs: seq<Cert>, me: nat)
      requires Valid()
      requires forall j :: 0 <= j < size ==> qcQuotas[j] == 0 && voteQuotas[j] == 0
      modifies this`qcQuotas, this`qcAcc, this`voteQuotas, this`voteAcc
      ensures Valid() && qcQuotas == Totals(Newest(certs, size)) && voteQuotas == Own(Newest(certs, size), me)
    {
      hide Sum, Total, QuotaOf;
      var i, k := size, 0;
      while i > 0 && k < |certs|
        invariant 0 <= i <= size && k == size - i <= |certs| && Valid()
        invariant forall j :: 0 <= j < i ==> qcQuotas[j] == 0 && voteQuotas[j] == 0
        invariant forall j :: i <= j < size ==> qcQuotas[j] == Total(certs[size - 1 - j].votes)
        invariant forall j :: i <= j < size ==> voteQuotas[j] == QuotaOf(certs[size - 1 - j].votes, me)
      {
        i := i - 1;
        PutOne(i, certs[k].votes, me);
        k := k + 1;
      }
      NothingVoted(me);
      assert qcQuotas == Totals(Newest(certs, size));
      assert voteQuotas == Own(Newest(certs, size), me);
    }

    method PutOne(i: nat, votes: seq<Ballot>, me: nat)
      requires Valid() && i < size && qcQuotas[i] == 0 && voteQuotas[i] == 0
      modifies this`qcQuotas, this`qcAcc, this`voteQuotas, this`voteAcc
      ensures Valid() && qcQuotas == old(qcQuotas)[i := Total(votes)]
      ensures voteQuotas == old(voteQuotas)[i := QuotaOf(votes, me)]
    {
      hide Sum, QuotaOf;
      var total := AddUp(votes);
      var own := FindVote(votes, me);
      SumOneChanged(qcQuotas, i, total);
      SumOneChanged(voteQuotas, i, own);
      ModAdd(Sum(qcQuotas), total);
      ModAdd(Sum(voteQuotas), own);
      qcQuotas, voteQuotas := qcQuotas[i := total], voteQuotas[i := own];
      qcAcc, voteAcc := (qcAcc + total) % UINT64, (voteAcc + own) % UINT64;
    }

    /** Moves the window on by one certificate; one not higher than the last is ignored. */
    method Update(qc: nat, vote: nat, height: nat)
      requires Valid() && qc < UINT64 && vote < UINT64
      modifies this
      ensures Valid()
      ensures height > old(this.height) ==> qcQuotas == Shift(old(qcQuotas), qc) && this.height == height
      ensures height > old(this.height) ==> voteQuotas == Shift(old(voteQuotas), vote)
      ensures height <= old(this.height) ==> unchanged(this)
    {
      hide Sum;
      if height > this.height {
        ShiftedSum(qcQuotas, qc, qcAcc);
        ShiftedSum(voteQuotas, vote, voteAcc);
        qcAcc := (qcAcc - qcQuotas[0]) % UINT64;
        qcQuotas := qcQuotas[1..];
        qcQuotas := qcQuotas + [qc];
        qcAcc := (qcAcc + qc) % UINT64;

        voteAcc := (voteAcc - voteQuotas[0]) % UINT64;
        voteQuotas := voteQuotas[1..];
        voteQuotas := voteQuotas + [vote];
        voteAcc := (voteAcc + vote) % UINT64;

        this.height := height;
      }
    }

    /** Adopting a certificate moves the window by its total and by the validator's own vote in it. */
    method Adopt(cert: Cert, me: nat)
      requires Valid()
      modifies this
      ensures Valid()
      ensures forall r: Replica :: old(Shows(r)) ==> r.history == [] || Shows(Adopted(r, me, cert))
    {
      hide Sum, QuotaOf;
      var total := AddUp(cert.votes);
      var own := FindVote(cert.votes, me);
      Update(total, own, cert.height);
    }

    /** The vote for the next block; random votes keep the window between half the limit and the limit. */
    method NextVote(random: nat) returns (quota: nat, panics: bool)
      requires Valid()
      ensures strategy == RandomVote && InRange(limit, height) && Sum(voteQuotas) <= limit ==>
        !panics && Allowed(limit, Sum(voteQuotas[1..]), quota)
      ensures strategy == AverageVote ==> !panics && size * quota <= limit < size * (quota + 1)
      ensures strategy == RandomVote ==> forall r: Replica :: Shows(r) ==> quota == Quota(r, limit, random)
    {
      hide Vote;
      AverageFits(limit, voteAcc, voteQuotas[0], height, size, random);
      Small(voteQuotas[0], UINT64);
      var r := Vote(strategy, limit, voteAcc, voteQuotas[0], height, size, random);
      quota, panics := r.0, r.1;
      if strategy == RandomVote && InRange(limit, height) && Sum(voteQuotas) <= limit {
        Small(Sum(voteQuotas), UINT64);
        RandomVoteAllowed(limit, Sum(voteQuotas[1..]), voteQuotas[0], height, size, random);
      }
    }

    /** What a leader compares with the majority: the votes at hand and the window without its oldest entry. */
    method QuotaCount(votes: nat) returns (r: nat)
      requires Valid()
      ensures r == (votes + Sum(qcQuotas[1..])) % UINT64
    {
      r := (votes + qcAcc - qcQuotas[0]) % UINT64;
      ModSub(votes, Sum(qcQuotas), qcQuotas[0]);
    }
  }

  lemma {:induction false} SumZeros(n: nat)
    ensures Sum(seq(n, i => 0)) == 0
  {
    if n > 0 {
      assert seq(n, i => 0)[1..] == seq(n - 1, i => 0);
      SumZeros(n - 1);
    }
  }

  lemma ModSub(a: nat, total: nat, x: nat)
    requires x <= total
    ensures (a + total % UINT64 - x) % UINT64 == (a + total - x) % UINT64
  {
    var q := total / UINT64;
    assert total == q * UINT64 + total % UINT64;
    AddMultiple(a + total % UINT64 - x, q);
  }

  lemma AddMultiple(a: int, q: nat)
    ensures (a + q * UINT64) % UINT64 == a % UINT64
  {
    if q > 0 {
      AddMultiple(a, q - 1);
      AddOne(a + (q - 1) * UINT64);
    }
  }

  lemma AddOne(a: int)
    ensures (a + UINT64) % UINT64 == a % UINT64
  {
  }

  lemma ModAdd(a: int, b: nat)
    ensures (a % UINT64 + b) % UINT64 == (a + b) % UINT64
  {
  }

  /** Subtracting the oldest entry and adding the new one gives the sum of the shifted window. */
  lemma ShiftedSum(s: seq<nat>, x: nat, acc: nat)
    requires s != [] && acc == Sum(s) % UINT64
    ensures ((acc - s[0]) % UINT64 + x) % UINT64 == Sum(Shift(s, x)) % UINT64
  {
    SumAppend(s[1..], x);
    ModSub(0, Sum(s), s[0]);
    ModAdd(acc - s[0], x);
    ModAdd(Sum(s) - s[0], x);
  }

  // ------------------------------------------------ certificates

  type Amount = n: nat | n < UINT64

  datatype Ballot = Ballot(voter: nat, quota: Amount)

  /** A certificate for a block, with the votes in it. */
  datatype Cert = Cert(block: nat, height: nat, votes: seq<Ballot>)

  /** An empty place in a window. */
  const NO_CERT: Cert := Cert(0, 0, [])

  /** The last certificates of a chain given newest first, oldest first. */
  function Newest(certs: seq<Cert>, size: nat): seq<Cert> {
    seq(size, i requires 0 <= i < size => if size - 1 - i < |certs| then certs[size - 1 - i] else NO_CERT)
  }

  /** What each certificate counts in total, and what a validator finds of its own in each. */
  function Totals(history: seq<Cert>): seq<nat> {
    seq(|history|, i requires 0 <= i < |history| => Total(history[i].votes))
  }

  function Own(history: seq<Cert>, v: nat): seq<nat> {
    seq(|history|, i requires 0 <= i < |history| => QuotaOf(history[i].votes, v))
  }

  lemma NothingVoted(v: nat)
    ensures Total(NO_CERT.votes) == 0 && QuotaOf(NO_CERT.votes, v) == 0
  {
  }

  function SumQuota(votes: seq<Ballot>): nat {
    if votes == [] then 0 else votes[0].quota + SumQuota(votes[1..])
  }

  /** A certificate's total, in 64-bit arithmetic. */
  function Total(votes: seq<Ballot>): nat { SumQuota(votes) % UINT64 }

  method AddUp(votes: seq<Ballot>) returns (r: nat)
    ensures r == Total(votes)
  {
    r := 0;
    for i := 0 to |votes|
      invariant (r + SumQuota(votes[i..])) % UINT64 == Total(votes) && r < UINT64
    {
      assert votes[i..][1..] == votes[i + 1..];
      ModAdd(r + votes[i].quota, SumQuota(votes[i + 1..]));
      r := (r + votes[i].quota) % UINT64;
    }
    Small(r, UINT64);
  }

  /** The quota a signer voted with; none counts as zero. */
  method FindVote(votes: seq<Ballot>, signer: nat) returns (r: nat)
    ensures r == QuotaOf(votes, signer)
  {
    for i := 0 to |votes|
      invariant QuotaOf(votes[i..], signer) == QuotaOf(votes, signer)
    {
      if votes[i].voter == signer {
        return votes[i].quota;
      }
    }
    return 0;
  }

  function QuotaOf(votes: seq<Ballot>, signer: nat): Amount {
    if votes == [] then 0 else if votes[0].voter == signer then votes[0].quota else QuotaOf(votes[1..], signer)
  }

  ghost predicate OneEach(votes: seq<Ballot>, n: nat) {
    && (forall i :: 0 <= i < |votes| ==> votes[i].voter < n)
    && (forall i, j :: 0 <= i < j < |votes| ==> votes[i].voter != votes[j].voter)
  }

  /** Each validator's own vote, validator by validator. */
  function Shares(votes: seq<Ballot>, n: nat): seq<nat> {
    seq(n, i requires 0 <= i => QuotaOf(votes, i))
  }

  lemma {:induction false} SumOneChanged(s: seq<nat>, i: nat, x: nat)
    requires i < |s| && s[i] == 0
    ensures Sum(s[i := x]) == Sum(s) + x
  {
    if i == 0 {
      assert s[0 := x][1..] == s[1..];
    } else {
      SumOneChanged(s[1..], i - 1, x);
      assert s[i := x][1..] == s[1..][i - 1 := x];
    }
  }

  /** A certificate's total is the sum of what each validator finds of its own in it. */
  lemma {:induction false} TotalIsShares(votes: seq<Ballot>, n: nat)
    requires OneEach(votes, n)
    ensures SumQuota(votes) == Sum(Shares(votes, n))
  {
    if votes == [] {
      assert Shares([], n) == seq(n, i => 0);
      SumZeros(n);
    } else {
      var v, rest := votes[0], votes[1..];
      assert forall i :: 0 <= i < |rest| ==> rest[i] == votes[i + 1];
      TotalIsShares(rest, n);
      NotFound(rest, v.voter);
      assert Shares(votes, n) == Shares(rest, n)[v.voter := v.quota];
      SumOneChanged(Shares(rest, n), v.voter, v.quota);
    }
  }

  lemma {:induction false} NotFound(votes: seq<Ballot>, signer: nat)
    requires forall i :: 0 <= i < |votes| ==> votes[i].voter != signer
    ensures QuotaOf(votes, signer) == 0
  {
    if votes != [] { NotFound(votes[1..], signer); }
  }

  // ------------------------------------------------ one replica

  /** One replica's windows, the height they stand at, and the certificates that moved them. */
  datatype Replica = Replica(qcWindow: seq<nat>, voteWindow: seq<nat>, height: nat, history: seq<Cert>)

  /** What a replica reads back from a chain of certificates, newest first. */
  function Restored(certs: seq<Cert>, size: nat, height: nat, me: nat): Replica {
    var h := Newest(certs, size);
    Replica(Totals(h), Own(h, me), height, h)
  }

  /** A certificate moves the windows if it is higher than what they stand at. */
  function Adopted(r: Replica, v: nat, cert: Cert): Replica
    requires r.qcWindow != [] && r.voteWindow != [] && r.history != []
  {
    if cert.height > r.height then
      Replica(Shift(r.qcWindow, Total(cert.votes)), Shift(r.voteWindow, QuotaOf(cert.votes, v)),
              cert.height, r.history[1..] + [cert])
    else r
  }

  /** The vote by the random rule, with the running total the replica keeps. */
  function Quota(r: Replica, limit: nat, random: nat): nat
    requires r.voteWindow != [] && limit < UINT64
  {
    Vote(RandomVote, limit, Sum(r.voteWindow) % UINT64, r.voteWindow[0] % UINT64, r.height, |r.voteWindow|, random).0
  }

  lemma SumTail(s: seq<nat>)
    requires s != []
    ensures Sum(s) == s[0] + Sum(s[1..])
  {
  }

  lemma QuotaAllowed(r: Replica, limit: nat, random: nat)
    requires r.voteWindow != [] && Sum(r.voteWindow) <= limit < UINT64 && InRange(limit, r.height)
    ensures Allowed(limit, Sum(r.voteWindow[1..]), Quota(r, limit, random))
  {
    hide Vote;
    SumTail(r.voteWindow);
    Small(Sum(r.voteWindow), UINT64);
    Small(r.voteWindow[0], UINT64);
    RandomVoteAllowed(limit, Sum(r.voteWindow[1..]), r.voteWindow[0], r.height, |r.voteWindow|, random);
  }

  /** The least the random rule can vote, whatever the random number. */
  function Least(limit: nat, pre: nat, height: nat): nat {
    var target := if height > 50 then limit else (limit + 1) / 2;
    if target > pre then target - pre else 0
  }

  /** The rule never votes less, and with the random number 0 it votes just that. */
  lemma LeastVote(r: Replica, limit: nat, random: nat)
    requires r.voteWindow != [] && Sum(r.voteWindow) <= limit < UINT64 && InRange(limit, r.height)
    ensures Least(limit, Sum(r.voteWindow[1..]), r.height) <= Quota(r, limit, random)
    ensures Least(limit, Sum(r.voteWindow[1..]), r.height) == Quota(r, limit, 0)
  {
    hide Pick, Floored, Upper, Lower, Sum;
    SumTail(r.voteWindow);
    Small(Sum(r.voteWindow), UINT64);
    Small(r.voteWindow[0], UINT64);
    var pre := Sum(r.voteWindow[1..]);
    if r.height > 50 {
      Small(limit - pre, UINT64);
    } else {
      Targets(limit);
      Small(pre, UINT64);
      FlooredIs(Upper(limit), pre);
      FlooredIs(Lower(limit), pre);
      PickIs(Floored(Upper(limit), pre), Floored(Lower(limit), pre), random);
      PickIs(Floored(Upper(limit), pre), Floored(Lower(limit), pre), 0);
    }
  }

  // ------------------------------------------------ sums over replicas

  function Add(a: seq<nat>, b: seq<nat>): seq<nat>
    requires |a| == |b|
  {
    seq(|a|, i requires 0 <= i < |a| => a[i] + b[i])
  }

  lemma {:induction false} SumAdd(a: seq<nat>, b: seq<nat>)
    requires |a| == |b|
    ensures Sum(Add(a, b)) == Sum(a) + Sum(b)
  {
    if a != [] {
      assert Add(a, b)[1..] == Add(a[1..], b[1..]);
      SumAdd(a[1..], b[1..]);
    }
  }

  function Halves(limits: seq<nat>): (r: seq<nat>)
    ensures |r| == |limits| && forall i :: 0 <= i < |limits| ==> r[i] == (limits[i] + 1) / 2
  {
    seq(|limits|, i requires 0 <= i < |limits| => (limits[i] + 1) / 2)
  }

  lemma {:induction false} HalvesReach(limits: seq<nat>)
    ensures Sum(Halves(limits)) >= (Sum(limits) + 1) / 2
  {
    if limits != [] {
      HalvesReach(limits[1..]);
      assert Halves(limits)[1..] == Halves(limits[1..]);
    }
  }

  lemma {:induction false} SumBetween(a: seq<nat>, b: seq<nat>)
    requires |a| == |b| && forall i :: 0 <= i < |a| ==> a[i] <= b[i]
    ensures Sum(a) <= Sum(b)
  {
    if a != [] { SumBetween(a[1..], b[1..]); }
  }

  lemma SumThree(a: nat, b: nat, c: nat)
    ensures Sum([a, b, c]) == a + b + c
  {
    assert [a, b, c][1..] == [b, c] && [b, c][1..] == [c] && [c][1..] == [];
    assert Sum([c]) == c && Sum([b, c]) == b + c;
  }

  /** The random rule for a stake of 8 at low heights: from 4 to 6 in all. */
  lemma SmallVote(pre: nat, oldest: nat, height: nat, random: nat)
    requires pre + oldest <= 8 && height <= 50
    ensures var most, least := if pre > 6 then 0 else 6 - pre, if pre > 4 then 0 else 4 - pre;
      Vote(RandomVote, 8, pre + oldest, oldest, height, 3, random) == (random % (most - least + 1) + least, false)
  {
    hide Pick, Floored, Upper, Lower;
    StakeOfEight();
    Small(pre, UINT64);
    FlooredIs(6, pre);
    FlooredIs(4, pre);
    PickIs(Floored(6, pre), Floored(4, pre), random);
  }

  lemma StakeOfEight()
    ensures Upper(8) == 6 && Lower(8) == 4
  {
  }
}
