// Validator quorums: the size of a majority, the check a receiver makes on the
// signature list of a quorum certificate, and why two majorities always share
// an honest member.
module Quorum {
  import opened Common
  type Validator = nat

  /** ceil((2n + 1) / 3), the number of signatures a certificate needs. */
  function MajorityCount(n: nat): (m: nat)
    ensures n >= 1 ==> m == n - (n - 1) / 3
  {
    (2 * n + 3) / 3
  }

  predicate IsMajority(n: nat, signers: set<Validator>) {
    && (forall v :: v in signers ==> v < n)
    && |signers| >= MajorityCount(n)
  }

  function Validators(n: nat): (vs: set<Validator>)
    ensures |vs| == n
    ensures forall v: Validator :: v in vs <==> v < n
  {
    if n == 0 then {} else Validators(n - 1) + {n - 1}
  }

  /** Two majorities share a validator outside any set of at most n - MajorityCount(n) faulty ones. */
  lemma HonestIntersection(n: nat, a: set<Validator>, b: set<Validator>, faulty: set<Validator>)
    returns (v: Validator)
    requires IsMajority(n, a) && IsMajority(n, b)
    requires |faulty| <= n - MajorityCount(n)
    ensures v in a && v in b && v !in faulty
  {
    SubsetCount(a + b, Validators(n));
    assert |a + b| + |a * b| == |a| + |b|;
    if a * b <= faulty {
      SubsetCount(a * b, faulty);
      assert false;
    }
    v :| v in a * b && v !in faulty;
  }

  datatype Sig = Sig(signer: Validator, genuine: bool)

  /** `Panics`: a signature without a quota beside it is an index out of range. */
  datatype CheckResult = Accepted | NilQC | NotEnoughSig | DuplicateSig | InvalidValidator | InvalidSig | Panics

  predicate NoDuplicates(sigs: seq<Sig>) {
    forall i, j :: 0 <= i < j < |sigs| ==> sigs[i].signer != sigs[j].signer
  }

  function Signers(sigs: seq<Sig>): (s: set<Validator>)
  {
    set i | 0 <= i < |sigs| :: sigs[i].signer
  }

  /** How many signatures are asked for: one fewer while the grace counter is positive. */
  function Threshold(n: nat, grace: nat): int
  {
    if grace > 0 then MajorityCount(n) - 1 else MajorityCount(n)
  }

  predicate WellSigned(n: nat, sigs: seq<Sig>) {
    forall i :: 0 <= i < |sigs| ==> sigs[i].signer < n && sigs[i].genuine
  }

  /** The first place where the list goes wrong, and how; everything before it is in order. */
  ghost predicate WrongAt(n: nat, quotas: nat, sigs: seq<Sig>, r: CheckResult, i: nat)
    requires i < |sigs|
  {
    && NoDuplicates(sigs[..i]) && WellSigned(n, sigs[..i]) && i <= quotas
    && var known := exists j :: 0 <= j < i && sigs[j].signer == sigs[i].signer;
       match r
       case DuplicateSig => known
       case InvalidValidator => !known && sigs[i].signer >= n
       case Panics => !known && sigs[i].signer < n && i == quotas
       case InvalidSig => !known && sigs[i].signer < n && i < quotas && !sigs[i].genuine
       case _ => false
  }

  /** The signatures of a certificate and how many quotas stand beside them. */
  datatype SignatureList = SignatureList(sigs: seq<Sig>, quotas: nat)

  /** The receiver's check of a certificate, which may be missing. */
  method Validate(n: nat, grace: nat, qc: Option<SignatureList>) returns (r: CheckResult)
    ensures r == NilQC <==> qc.None?
    ensures r == Accepted <==> qc.Some? && Acceptable(n, grace, qc.value.sigs, qc.value.quotas)
    ensures r == NotEnoughSig <==> qc.Some? && |qc.value.sigs| < Threshold(n, grace)
    ensures n >= 1 && r == Accepted ==> |qc.value.sigs| >= n - (n - 1) / 3 - if grace > 0 then 1 else 0
    ensures n >= 1 && r == NotEnoughSig ==> |qc.value.sigs| < n - (n - 1) / 3 - if grace > 0 then 1 else 0
    ensures r !in {Accepted, NilQC, NotEnoughSig} ==>
      exists i :: 0 <= i < |qc.value.sigs| && WrongAt(n, qc.value.quotas, qc.value.sigs, r, i)
    ensures r == Accepted && grace == 0 ==> IsMajority(n, Signers(qc.value.sigs))
  {
    if qc.None? {
      return NilQC;
    }
    r := ValidateSignatures(n, grace, qc.value.sigs, qc.value.quotas);
  }

  predicate Acceptable(n: nat, grace: nat, sigs: seq<Sig>, quotas: nat) {
    |sigs| >= Threshold(n, grace) && NoDuplicates(sigs) && WellSigned(n, sigs) && |sigs| <= quotas
  }

  /**
   * The receiver's check of the signature list, with the number of quotas beside it. Acceptance means
   * exactly that the list is long enough, repeats nobody, is made of genuine validator signatures and has
   * a quota for each; without a grace period the signers are then a majority. Every other answer names the
   * first thing that is wrong.
   */
  method ValidateSignatures(n: nat, grace: nat, sigs: seq<Sig>, quotas: nat) returns (r: CheckResult)
    ensures r == Accepted <==> Acceptable(n, grace, sigs, quotas)
    ensures r != NilQC
    ensures r == NotEnoughSig <==> |sigs| < Threshold(n, grace)
    ensures r != Accepted && r != NotEnoughSig ==> exists i :: 0 <= i < |sigs| && WrongAt(n, quotas, sigs, r, i)
    ensures r == Accepted && grace == 0 ==> IsMajority(n, Signers(sigs))
  {
    hide WrongAt;
    if |sigs| < Threshold(n, grace) {
      return NotEnoughSig;
    }
    r := CheckSignatureList(n, sigs, quotas);
    if r == Accepted {
      SignerCount(sigs);
    }
  }

  lemma {:induction false} SignerCount(sigs: seq<Sig>)
    requires NoDuplicates(sigs)
    ensures |Signers(sigs)| == |sigs|
  {
    if sigs == [] {
      assert Signers(sigs) == {};
    } else {
      var k := |sigs| - 1;
      SignerCount(sigs[..k]);
      SignersAppend(sigs[..k], sigs[k]);
      assert sigs[..k] + [sigs[k]] == sigs;
      assert sigs[k].signer !in Signers(sigs[..k]);
    }
  }

  lemma SignersAppend(sigs: seq<Sig>, x: Sig)
    ensures Signers(sigs + [x]) == Signers(sigs) + {x.signer}
  {
    var all := sigs + [x];
    assert all[|sigs|] == x;
    forall v | v in Signers(sigs) ensures v in Signers(all) {
      var i :| 0 <= i < |sigs| && sigs[i].signer == v;
      assert all[i].signer == v;
    }
  }

  method CheckSignatureList(n: nat, sigs: seq<Sig>, quotas: nat) returns (r: CheckResult)
    ensures r != NilQC && r != NotEnoughSig
    ensures r == Accepted <==> NoDuplicates(sigs) && WellSigned(n, sigs) && |sigs| <= quotas
    ensures r != Accepted ==> exists i :: 0 <= i < |sigs| && WrongAt(n, quotas, sigs, r, i)
  {
    var seen: set<Validator> := {};
    for i := 0 to |sigs|
      invariant i <= quotas
      invariant forall j :: 0 <= j < i ==> sigs[j].signer in seen
      invariant forall v :: v in seen ==> exists j :: 0 <= j < i && sigs[j].signer == v
      invariant NoDuplicates(sigs[..i]) && WellSigned(n, sigs[..i])
    {
      var key := sigs[i].signer;
      r := if key in seen then DuplicateSig else if key >= n then InvalidValidator
           else if i >= quotas then Panics else if !sigs[i].genuine then InvalidSig else Accepted;
      if r != Accepted {
        assert WrongAt(n, quotas, sigs, r, i);
        return;
      }
      seen := seen + {key};
    }
    assert sigs[..|sigs|] == sigs;
    return Accepted;
  }
}
