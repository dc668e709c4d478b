// The tree a sequence of leaves stands for: rows of hashes, each over groups of the row below.
module MerkleSpec {
  import opened ByteStrings

  type Hash = Bytes -> Bytes

  // ------------------------------------------------ group arithmetic

  function GroupCount(b: nat, n: nat): nat
    requires b >= 2
  {
    n / b + if n % b > 0 then 1 else 0
  }

  function GroupOf(b: nat, i: nat): nat
    requires b >= 2
  {
    i / b
  }

  lemma GroupRange(b: nat, i: nat, g: nat)
    requires b >= 2
    ensures GroupOf(b, i) == g <==> g * b <= i < g * b + b
  {
    if g * b <= i < g * b + b {
      DivUnique(i, b, g, i - g * b);
    }
  }

  lemma DivUnique(i: nat, b: nat, q: nat, r: nat)
    requires b >= 2 && i == q * b + r && r < b
    ensures i / b == q && i % b == r
  {
    var q', r' := i / b, i % b;
    assert i == q' * b + r';
    if q' < q { TimesOrder(q', q, b); }
    if q < q' { TimesOrder(q, q', b); }
  }

  lemma TimesOrder(x: nat, y: nat, b: nat)
    requires x < y
    ensures x * b + b <= y * b
  {
    assert y * b == x * b + (y - x) * b;
    assert (y - x) * b == b + (y - x - 1) * b;
  }

  /** Groups cover exactly the row: a group exists iff its first node does. */
  lemma GroupExists(b: nat, n: nat, g: nat)
    requires b >= 2
    ensures g < GroupCount(b, n) <==> g * b < n
  {
    var q, r := n / b, n % b;
    assert n == q * b + r;
    if g < q { TimesOrder(g, q, b); }
    if g > q { TimesOrder(q, g, b); }
  }

  lemma GroupOfInside(b: nat, n: nat, i: nat)
    requires b >= 2 && i < n
    ensures GroupOf(b, i) < GroupCount(b, n)
  {
    GroupRange(b, i, GroupOf(b, i));
    GroupExists(b, n, GroupOf(b, i));
  }

  lemma GroupCountMonotone(b: nat, n: nat, m: nat)
    requires b >= 2 && n <= m
    ensures GroupCount(b, n) <= GroupCount(b, m)
  {
    if GroupCount(b, n) > GroupCount(b, m) {
      GroupExists(b, n, GroupCount(b, m));
      GroupExists(b, m, GroupCount(b, m));
    }
  }

  lemma GroupCountShrinks(b: nat, n: nat)
    requires b >= 2
    ensures n > 1 ==> 1 <= GroupCount(b, n) < n
    ensures n == 1 ==> GroupCount(b, n) == 1
    ensures n == 0 ==> GroupCount(b, n) == 0
  {
    if n > 0 {
      GroupExists(b, n, 0);
      if n > 1 {
        GroupExists(b, n, n - 1);
        assert (n - 1) * b >= (n - 1) * 2;
      }
      if n == 1 { GroupExists(b, 1, 1); }
    }
  }

  // ------------------------------------------------ rows

  /** The nodes of a row that group g has. */
  function Slice(row: seq<Bytes>, b: nat, g: nat): seq<Bytes> {
    var lo := g * b;
    if lo >= |row| then [] else row[lo..if lo + b <= |row| then lo + b else |row|]
  }

  function Concat(parts: seq<Bytes>): Bytes {
    if parts == [] then [] else parts[0] + Concat(parts[1..])
  }

  /** What is hashed for group g. */
  function Preimage(row: seq<Bytes>, b: nat, g: nat): Bytes {
    Concat(Slice(row, b, g))
  }

  function NextRow(h: Hash, b: nat, row: seq<Bytes>): (next: seq<Bytes>)
    requires b >= 2
    ensures |next| == GroupCount(b, |row|)
    ensures forall g :: 0 <= g < |next| ==> next[g] == h(Preimage(row, b, g))
  {
    seq(GroupCount(b, |row|), g requires 0 <= g => h(Preimage(row, b, g)))
  }

  /** The row at a level, the leaves being level 0. */
  function Row(h: Hash, b: nat, leaves: seq<Bytes>, level: nat): seq<Bytes>
    requires b >= 2
  {
    if level == 0 then leaves else NextRow(h, b, Row(h, b, leaves, level - 1))
  }

  function Height(b: nat, n: nat): (r: nat)
    requires b >= 2
    ensures r >= 1
    decreases n
  {
    GroupCountShrinks(b, n);
    if n > 1 then 1 + Height(b, GroupCount(b, n)) else 1
  }

  /** Size of the row at a level. */
  function RowSize(b: nat, n: nat, level: nat): nat
    requires b >= 2
  {
    if level == 0 then n else GroupCount(b, RowSize(b, n, level - 1))
  }

  lemma {:induction false} RowHasSize(h: Hash, b: nat, leaves: seq<Bytes>, level: nat)
    requires b >= 2
    ensures |Row(h, b, leaves, level)| == RowSize(b, |leaves|, level)
  {
    if level > 0 { RowHasSize(h, b, leaves, level - 1); }
  }

  lemma {:induction false} SizesFromAbove(b: nat, n: nat, level: nat)
    requires b >= 2
    ensures RowSize(b, n, level + 1) == RowSize(b, GroupCount(b, n), level)
  {
    if level > 0 { SizesFromAbove(b, n, level - 1); }
  }

  /** The height is the first level at which one node is left. */
  lemma {:induction false} HeightIsFirst(b: nat, n: nat, level: nat)
    requires b >= 2 && n >= 1
    ensures level + 1 < Height(b, n) ==> RowSize(b, n, level) > 1
    ensures level + 1 >= Height(b, n) ==> RowSize(b, n, level) == 1
    decreases level
  {
    GroupCountShrinks(b, n);
    if level > 0 {
      if n > 1 {
        HeightIsFirst(b, GroupCount(b, n), level - 1);
        SizesFromAbove(b, n, level - 1);
      } else {
        HeightIsFirst(b, n, level - 1);
      }
    }
  }

  lemma {:induction false} SizesMonotone(b: nat, n: nat, m: nat, level: nat)
    requires b >= 2 && n <= m
    ensures RowSize(b, n, level) <= RowSize(b, m, level)
  {
    if level > 0 {
      SizesMonotone(b, n, m, level - 1);
      GroupCountMonotone(b, RowSize(b, n, level - 1), RowSize(b, m, level - 1));
    }
  }

  /** The root computed from the whole leaf sequence. */
  function RootOf(h: Hash, b: nat, leaves: seq<Bytes>): Bytes
    requires b >= 2 && leaves != []
  {
    TopIsSingle(h, b, leaves);
    Row(h, b, leaves, Height(b, |leaves|) - 1)[0]
  }

  lemma TopIsSingle(h: Hash, b: nat, leaves: seq<Bytes>)
    requires b >= 2 && leaves != []
    ensures |Row(h, b, leaves, Height(b, |leaves|) - 1)| == 1
  {
    RowHasSize(h, b, leaves, Height(b, |leaves|) - 1);
    HeightIsFirst(b, |leaves|, Height(b, |leaves|) - 1);
  }

  // ------------------------------------------------ what is hashed

  lemma {:induction false} ConcatBoth(a: seq<Bytes>, c: seq<Bytes>)
    ensures Concat(a + c) == Concat(a) + Concat(c)
  {
    if a == [] {
      assert a + c == c;
    } else {
      ConcatBoth(a[1..], c);
      assert (a + c)[1..] == a[1..] + c && (a + c)[0] == a[0];
      assert Concat(a + c) == a[0] + (Concat(a[1..]) + Concat(c));
    }
  }

  /** What is hashed for the first groups, in their order. */
  function Hashed(row: seq<Bytes>, b: nat, groups: nat): seq<Bytes> {
    seq(groups, g requires 0 <= g => Preimage(row, b, g))
  }

  /** The strings hashed for the groups of a row, one after another, are the row one after another. */
  lemma GroupsInOrder(row: seq<Bytes>, b: nat)
    requires b >= 2
    ensures Concat(Hashed(row, b, GroupCount(b, |row|))) == Concat(row)
  {
    var n := GroupCount(b, |row|);
    GroupExists(b, |row|, n);
    FirstGroups(row, b, n);
    assert UpTo(row, n * b) == row;
  }

  /** The part of the row before an index. */
  function UpTo(row: seq<Bytes>, i: nat): seq<Bytes> { row[..if i <= |row| then i else |row|] }

  lemma {:induction false} FirstGroups(row: seq<Bytes>, b: nat, n: nat)
    requires b >= 2
    ensures Concat(Hashed(row, b, n)) == Concat(UpTo(row, n * b))
  {
    hide Concat, Preimage;
    if n == 0 {
      assert UpTo(row, 0 * b) == [] && Hashed(row, b, 0) == [];
    } else {
      var lo, last := (n - 1) * b, Preimage(row, b, n - 1);
      FirstGroups(row, b, n - 1);
      assert Hashed(row, b, n) == Hashed(row, b, n - 1) + [last];
      ConcatBoth(Hashed(row, b, n - 1), [last]);
      ConcatOne(last);
      TakeSlice(row, b, n - 1, lo);
      assert n * b == lo + b;
    }
  }

  lemma ConcatOne(x: Bytes)
    ensures Concat([x]) == x
  {
    assert Concat([x]) == x + Concat([]);
  }

  lemma TakeSlice(row: seq<Bytes>, b: nat, g: nat, lo: nat)
    requires lo == g * b
    ensures Concat(UpTo(row, lo + b)) == Concat(UpTo(row, lo)) + Preimage(row, b, g)
  {
    hide Concat;
    assert UpTo(row, lo + b) == UpTo(row, lo) + Slice(row, b, g);
    ConcatBoth(UpTo(row, lo), Slice(row, b, g));
  }

  /** Pieces of one length make a string of as many pieces. */
  lemma {:induction false} ConcatLength(parts: seq<Bytes>, d: nat)
    requires AllOfLength(parts, d)
    ensures |Concat(parts)| == d * |parts|
  {
    if parts != [] {
      ConcatLength(parts[1..], d);
      assert d * |parts| == d + d * (|parts| - 1);
    }
  }

  lemma PreimageLength(row: seq<Bytes>, b: nat, g: nat, d: nat)
    requires AllOfLength(row, d)
    ensures |Preimage(row, b, g)| == d * |Slice(row, b, g)|
  {
    hide Slice, Concat;
    SliceLengths(row, row, b, g, d);
    ConcatLength(Slice(row, b, g), d);
  }

  /** The root of a tree of one group is the hash of its leaves in order. */
  lemma RootOfOneGroup(h: Hash, b: nat, leaves: seq<Bytes>)
    requires 2 <= |leaves| <= b
    ensures RootOf(h, b, leaves) == h(Concat(leaves))
  {
    hide Concat;
    var n := |leaves|;
    GroupExists(b, n, 0);
    GroupExists(b, n, 1);
    GroupCountShrinks(b, n);
    assert Height(b, n) == 2;
    assert Slice(leaves, b, 0) == leaves[0..n] == leaves;
    assert Row(h, b, leaves, 1) == NextRow(h, b, Row(h, b, leaves, 0));
  }

  lemma RootOfTwo(h: Hash, b: nat, x: Bytes, y: Bytes)
    requires b >= 2
    ensures RootOf(h, b, [x, y]) == h(x + y)
  {
    RootOfOneGroup(h, b, [x, y]);
    assert [x, y][1..] == [y];
    ConcatOne(y);
  }

  // ------------------------------------------------ what the root binds

  /** Two different strings with one hash, both of them hashed for group g of the rows at a level. */
  ghost predicate CollisionAt(h: Hash, b: nat, a: seq<Bytes>, c: seq<Bytes>, level: nat, g: nat)
    requires b >= 2
  {
    var x, y := Preimage(Row(h, b, a, level), b, g), Preimage(Row(h, b, c, level), b, g);
    x != y && h(x) == h(y)
  }

  ghost predicate Colliding(h: Hash, b: nat, a: seq<Bytes>, c: seq<Bytes>)
    requires b >= 2
  {
    exists level, g :: CollisionAt(h, b, a, c, level, g)
  }

  ghost predicate AllOfLength(row: seq<Bytes>, d: nat) {
    forall i :: 0 <= i < |row| ==> |row[i]| == d
  }

  /** Pieces of one length can be told apart in their concatenation. */
  lemma {:induction false} ConcatInjective(a: seq<Bytes>, c: seq<Bytes>, d: nat)
    requires |a| == |c| && AllOfLength(a, d) && AllOfLength(c, d) && Concat(a) == Concat(c)
    ensures a == c
  {
    if a != [] {
      var ra, rc := Concat(a[1..]), Concat(c[1..]);
      assert (a[0] + ra)[..d] == a[0] && (c[0] + rc)[..d] == c[0];
      assert (a[0] + ra)[d..] == ra && (c[0] + rc)[d..] == rc;
      ConcatInjective(a[1..], c[1..], d);
      assert a == [a[0]] + a[1..] && c == [c[0]] + c[1..];
    }
  }

  /** Rows of one length with the same slices are the same row. */
  lemma SlicesDetermineRow(a: seq<Bytes>, c: seq<Bytes>, b: nat)
    requires b >= 2 && |a| == |c|
    requires forall g :: 0 <= g < GroupCount(b, |a|) ==> Slice(a, b, g) == Slice(c, b, g)
    ensures a == c
  {
    forall i | 0 <= i < |a| ensures a[i] == c[i] {
      var g := GroupOf(b, i);
      GroupRange(b, i, g);
      GroupOfInside(b, |a|, i);
      assert Slice(a, b, g)[i - g * b] == a[i];
      assert Slice(c, b, g)[i - g * b] == c[i];
    }
  }

  /** One level down: equal rows of hashes come from equal rows, or from a collision. */
  lemma RowBelowBound(h: Hash, b: nat, a: seq<Bytes>, c: seq<Bytes>, d: nat, level: nat)
    requires b >= 2 && |Row(h, b, a, level)| == |Row(h, b, c, level)|
    requires AllOfLength(Row(h, b, a, level), d) && AllOfLength(Row(h, b, c, level), d)
    requires Row(h, b, a, level + 1) == Row(h, b, c, level + 1)
    ensures Row(h, b, a, level) == Row(h, b, c, level) || Colliding(h, b, a, c)
  {
    hide Slice, Concat, GroupCount;
    var ra, rc := Row(h, b, a, level), Row(h, b, c, level);
    if !Colliding(h, b, a, c) {
      forall g | 0 <= g < GroupCount(b, |ra|) ensures Slice(ra, b, g) == Slice(rc, b, g) {
        assert h(Preimage(ra, b, g)) == NextRow(h, b, ra)[g] == NextRow(h, b, rc)[g] == h(Preimage(rc, b, g));
        assert !CollisionAt(h, b, a, c, level, g);
        SliceLengths(ra, rc, b, g, d);
        ConcatInjective(Slice(ra, b, g), Slice(rc, b, g), d);
      }
      SlicesDetermineRow(ra, rc, b);
    }
  }

  lemma SliceLengths(a: seq<Bytes>, c: seq<Bytes>, b: nat, g: nat, d: nat)
    requires |a| == |c| && AllOfLength(a, d) && AllOfLength(c, d)
    ensures |Slice(a, b, g)| == |Slice(c, b, g)|
    ensures AllOfLength(Slice(a, b, g), d) && AllOfLength(Slice(c, b, g), d)
  {
  }

  lemma RowOfDigests(h: Hash, b: nat, leaves: seq<Bytes>, d: nat, level: nat)
    requires b >= 2 && AllOfLength(leaves, d) && forall x :: |h(x)| == d
    ensures AllOfLength(Row(h, b, leaves, level), d)
  {
    hide GroupCount, Preimage;
    if level > 0 {
      var below := Row(h, b, leaves, level - 1);
      assert forall g :: 0 <= g < |NextRow(h, b, below)| ==> NextRow(h, b, below)[g] == h(Preimage(below, b, g));
    }
  }

  lemma {:induction false} RowsBound(h: Hash, b: nat, a: seq<Bytes>, c: seq<Bytes>, d: nat, level: nat)
    requires b >= 2 && |a| == |c| && AllOfLength(a, d) && AllOfLength(c, d)
    requires forall x :: |h(x)| == d
    requires Row(h, b, a, level) == Row(h, b, c, level)
    ensures a == c || Colliding(h, b, a, c)
  {
    hide GroupCount, Slice, Colliding, RowSize, Preimage;
    if level > 0 {
      RowHasSize(h, b, a, level - 1);
      RowHasSize(h, b, c, level - 1);
      RowOfDigests(h, b, a, d, level - 1);
      RowOfDigests(h, b, c, d, level - 1);
      RowBelowBound(h, b, a, c, d, level - 1);
      if !Colliding(h, b, a, c) { RowsBound(h, b, a, c, d, level - 1); }
    }
  }

  /** Equal roots over equally many leaves: the leaves are equal, or two hashed strings collide. */
  lemma RootBinds(h: Hash, b: nat, a: seq<Bytes>, c: seq<Bytes>, d: nat)
    requires b >= 2 && |a| == |c| && a != [] && AllOfLength(a, d) && AllOfLength(c, d)
    requires forall x :: |h(x)| == d
    requires RootOf(h, b, a) == RootOf(h, b, c)
    ensures a == c || Colliding(h, b, a, c)
  {
    TopIsSingle(h, b, a);
    TopIsSingle(h, b, c);
    var top := Height(b, |a|) - 1;
    assert Row(h, b, a, top) == [RootOf(h, b, a)] == Row(h, b, c, top);
    RowsBound(h, b, a, c, d, top);
  }

  // ------------------------------------------------ positions

  /** The big-endian bytes of a number, none for zero. */
  function BigEndian(n: nat): Bytes {
    if n == 0 then [] else BigEndian(n / 256) + [(n % 256) as Byte]
  }

  function FromBigEndian(s: Bytes): nat {
    if s == [] then 0 else FromBigEndian(s[..|s| - 1]) * 256 + s[|s| - 1] as nat
  }

  function EncodePosition(level: Byte, index: nat): Bytes {
    [level] + if index == 0 then [0] else BigEndian(index)
  }

  function DecodePosition(s: Bytes): (Byte, nat)
    requires s != []
  {
    (s[0], FromBigEndian(s[1..]))
  }

  lemma {:induction false} BigEndianRoundTrip(n: nat)
    ensures FromBigEndian(BigEndian(n)) == n
  {
    if n != 0 {
      BigEndianRoundTrip(n / 256);
      var s := BigEndian(n);
      assert s[..|s| - 1] == BigEndian(n / 256);
    }
  }

  /** The bytes are the digits of the number to base 256, the most significant first. */
  lemma {:induction false} MostSignificantFirst(x: Byte, s: Bytes)
    ensures FromBigEndian([x] + s) == x as nat * Power256(|s|) + FromBigEndian(s)
  {
    if s == [] {
      assert [x] + s == [x] && [x][..0] == [];
    } else {
      var n := |s| - 1;
      MostSignificantFirst(x, s[..n]);
      assert ([x] + s)[..|s|] == [x] + s[..n];
      assert x as nat * Power256(|s|) == x as nat * Power256(n) * 256;
    }
  }

  function Power256(k: nat): nat { if k == 0 then 1 else 256 * Power256(k - 1) }

  /** Without leading zeros, and none at all for zero. */
  lemma {:induction false} NoLeadingZeros(n: nat)
    ensures BigEndian(n) == [] <==> n == 0
    ensures n > 0 ==> BigEndian(n)[0] != 0
  {
    if n >= 256 { NoLeadingZeros(n / 256); }
  }

  /** A position is recovered from its bytes, so no two share a key in the store. */
  lemma PositionRoundTrip(level: Byte, index: nat)
    ensures DecodePosition(EncodePosition(level, index)) == (level, index)
  {
    var s := EncodePosition(level, index);
    BigEndianRoundTrip(index);
    if index == 0 {
      assert s[1..] == [0];
      assert FromBigEndian([0]) == FromBigEndian([]) * 256 + 0;
    } else {
      assert s[1..] == BigEndian(index);
    }
  }
}
