// Byte strings and the order bytes.Compare gives them.
module ByteStrings {
  newtype Byte = x: int | 0 <= x < 256

  type Bytes = seq<Byte>

  predicate Less(a: Bytes, b: Bytes) {
    if b == [] then false
    else if a == [] then true
    else a[0] < b[0] || (a[0] == b[0] && Less(a[1..], b[1..]))
  }

  predicate AtMost(a: Bytes, b: Bytes) {
    a == b || Less(a, b)
  }

  /** The three-way comparison used by every ordered structure. */
  function Compare(a: Bytes, b: Bytes): (c: int)
    ensures c == -1 || c == 0 || c == 1
    ensures c == 0 <==> a == b
    ensures c < 0 <==> Less(a, b)
    ensures c > 0 <==> Less(b, a)
  {
    if a == b then
      LessIrreflexive(a);
      0
    else
      LessTotal(a, b);
      LessAsymmetric(a, b);
      if Less(a, b) then -1 else 1
  }

  lemma {:induction false} LessIrreflexive(a: Bytes)
    ensures !Less(a, a)
  {
    if a != [] { LessIrreflexive(a[1..]); }
  }

  lemma {:induction false} LessAsymmetric(a: Bytes, b: Bytes)
    ensures !(Less(a, b) && Less(b, a))
  {
    if a != [] && b != [] { LessAsymmetric(a[1..], b[1..]); }
  }

  lemma {:induction false} LessTotal(a: Bytes, b: Bytes)
    requires a != b
    ensures Less(a, b) || Less(b, a)
  {
    if a != [] && b != [] && a[0] == b[0] {
      assert a == [a[0]] + a[1..] && b == [b[0]] + b[1..];
      LessTotal(a[1..], b[1..]);
    }
  }

  lemma {:induction false} LessTransitive(a: Bytes, b: Bytes, c: Bytes)
    requires Less(a, b) && Less(b, c)
    ensures Less(a, c)
  {
    if a != [] && b[0] == a[0] && b[0] == c[0] { LessTransitive(a[1..], b[1..], c[1..]); }
  }

  /** The order of bytes.Compare: the first difference decides, and a string comes before its extensions. */
  lemma {:induction false} LessMeans(a: Bytes, b: Bytes)
    ensures Less(a, b) <==> exists k: nat :: FirstDifference(a, b, k)
  {
    if a == [] || b == [] {
      if a == [] && b != [] { assert FirstDifference(a, b, 0); }
    } else if a[0] != b[0] {
      if a[0] < b[0] { assert FirstDifference(a, b, 0); }
      if exists k: nat :: FirstDifference(a, b, k) {
        var k: nat :| FirstDifference(a, b, k);
        assert k > 0 ==> a[..k][0] == b[..k][0];
      }
    } else {
      LessMeans(a[1..], b[1..]);
      if Less(a, b) {
        var k: nat :| FirstDifference(a[1..], b[1..], k);
        assert a[..k + 1] == [a[0]] + a[1..][..k] && b[..k + 1] == [b[0]] + b[1..][..k];
        assert FirstDifference(a, b, k + 1);
      }
      if exists k: nat :: FirstDifference(a, b, k) {
        var k: nat :| FirstDifference(a, b, k);
        assert a[1..][..k - 1] == a[..k][1..] && b[1..][..k - 1] == b[..k][1..];
        assert FirstDifference(a[1..], b[1..], k - 1);
      }
    }
  }

  /** The strings agree up to here; then the first ends, or has the smaller byte. */
  predicate FirstDifference(a: Bytes, b: Bytes, k: nat) {
    k <= |a| && k < |b| && a[..k] == b[..k] && (k == |a| || a[k] < b[k])
  }

  ghost predicate StrictlySorted(s: seq<Bytes>) {
    forall i, j :: 0 <= i < j < |s| ==> Less(s[i], s[j])
  }

  predicate HasPrefix(k: Bytes, p: Bytes) {
    |p| <= |k| && k[..|p|] == p
  }

  datatype Limit = Unlimited | Upto(limit: Bytes)

  /** The first key after all those with this prefix: the last byte that can grow, grown, and the rest cut off. */
  function PrefixLimit(p: Bytes): Limit {
    if p == [] then Unlimited
    else
      match PrefixLimit(p[1..])
      case Upto(l) => Upto([p[0]] + l)
      case Unlimited => if p[0] < 255 then Upto([p[0] + 1]) else Unlimited
  }

  predicate BelowLimit(k: Bytes, l: Limit) {
    l.Unlimited? || Less(k, l.limit)
  }

  /** A range scan from the prefix to its limit sees exactly the keys with the prefix. */
  lemma {:induction false} PrefixRange(p: Bytes, k: Bytes)
    ensures HasPrefix(k, p) <==> !Less(k, p) && BelowLimit(k, PrefixLimit(p))
  {
    if p != [] && k != [] {
      PrefixRange(p[1..], k[1..]);
      PrefixTail(p, k);
      var l := PrefixLimit(p[1..]);
      if l.Upto? {
        var lim := [p[0]] + l.limit;
        assert PrefixLimit(p) == Upto(lim) && lim[1..] == l.limit;
        assert Less(k, lim) <==> k[0] < p[0] || (k[0] == p[0] && Less(k[1..], l.limit));
      } else if p[0] < 255 {
        var lim := [p[0] + 1];
        assert PrefixLimit(p) == Upto(lim) && lim[1..] == [];
        assert Less(k, lim) <==> k[0] <= p[0];
      }
    }
  }

  lemma PrefixTail(p: Bytes, k: Bytes)
    requires p != [] && k != []
    ensures HasPrefix(k, p) <==> k[0] == p[0] && HasPrefix(k[1..], p[1..])
  {
    if |p| <= |k| {
      assert k[..|p|] == [k[0]] + k[1..][..|p| - 1];
      assert p == [p[0]] + p[1..];
    }
  }

  method Least(s: set<Bytes>) returns (k: Bytes)
    requires s != {}
    ensures k in s && forall x :: x in s && x != k ==> Less(k, x)
  {
    hide Less;
    k :| k in s;
    var todo := s - {k};
    while todo != {}
      invariant todo <= s && k in s && k !in todo
      invariant forall x :: x in s && x !in todo && x != k ==> Less(k, x)
      decreases todo
    {
      var x :| x in todo;
      todo := todo - {x};
      LessTotal(x, k);
      if Compare(x, k) < 0 {
        forall y | y in s && y !in todo && y != x ensures Less(x, y) {
          if y != k { LessTransitive(x, k, y); }
        }
        k := x;
      }
    }
  }
}
