// Which bytes of a program are instructions and which are pushed data.
module JumpAnalysis {
  import opened Common
  import opened ByteStrings

  const PUSH1: Byte := 0x60
  const PUSH32: Byte := 0x7f
  const JUMPDEST: Byte := 0x5b

  // ------------------------------------------------ the linear scan

  /** Where the instruction after the one at pc begins. */
  function Next(code: Bytes, pc: nat): (r: nat)
    ensures pc < r <= pc + 33
  {
    if pc < |code| && PUSH1 <= code[pc] <= PUSH32 then pc + 1 + (code[pc] - PUSH1 + 1) as int else pc + 1
  }

  /** Reading instructions one after another from `from`, one begins at p. */
  predicate Reached(code: Bytes, from: nat, p: nat)
    decreases if p > from then p - from else 0
  {
    from == p || (from < p && Reached(code, Next(code, from), p))
  }

  /** From a position that is reached, the scan goes on the same way. */
  lemma {:induction false} ReachedFrom(code: Bytes, from: nat, mid: nat, p: nat)
    requires Reached(code, from, mid) && p >= mid
    ensures Reached(code, from, p) <==> Reached(code, mid, p)
    decreases mid - from
  {
    if from < mid { ReachedFrom(code, Next(code, from), mid, p); }
  }

  /** Nothing is reached strictly inside an instruction, and the next one is. */
  lemma InsideNotReached(code: Bytes, pc: nat)
    requires Reached(code, 0, pc)
    ensures forall p :: pc < p < Next(code, pc) ==> !Reached(code, 0, p)
    ensures Reached(code, 0, Next(code, pc))
  {
    forall p | pc < p < Next(code, pc) ensures !Reached(code, 0, p) {
      ReachedFrom(code, 0, pc, p);
    }
    ReachedFrom(code, 0, pc, Next(code, pc));
  }

  // ------------------------------------------------ the bit vector

  function Mask(s: nat): bv8
    requires s < 8
  {
    0x80 >> s
  }

  function Tail(s: nat): bv8
    requires s < 8
  {
    0xFF >> s
  }

  predicate Hit(b: bv8, t: nat)
    requires t < 8
  {
    b & Mask(t) != 0
  }

  predicate Bit(bits: seq<bv8>, p: nat)
    requires p / 8 < |bits|
  {
    Hit(bits[p / 8], p % 8)
  }

  lemma OrMask(b: bv8, s: nat, t: nat)
    requires s < 8 && t < 8
    ensures Hit(b | Mask(s), t) <==> t == s || Hit(b, t)
  {
    Masks(b, Mask(s), Mask(t));
    MaskBits(s, t);
  }

  lemma OrTail(b: bv8, s: nat, t: nat)
    requires s < 8 && t < 8
    ensures Hit(b | Tail(s), t) <==> t >= s || Hit(b, t)
    ensures Hit(b | !Tail(s), t) <==> t < s || Hit(b, t)
  {
    Masks(b, Tail(s), Mask(t));
    Masks(b, !Tail(s), Mask(t));
    TailBits(s, t);
  }

  lemma Masks(b: bv8, x: bv8, m: bv8)
    ensures (b | x) & m == (b & m) | (x & m)
    ensures (b | x) & m != 0 <==> b & m != 0 || x & m != 0
  {
  }

  lemma MaskBits(s: nat, t: nat)
    requires s < 8 && t < 8
    ensures Mask(s) & Mask(t) != 0 <==> s == t
  {
    MaskIs(s);
    MaskIs(t);
  }

  lemma TailBits(s: nat, t: nat)
    requires s < 8 && t < 8
    ensures Tail(s) & Mask(t) != 0 <==> t >= s
    ensures !Tail(s) & Mask(t) != 0 <==> t < s
  {
    TailIs(s);
    MaskIs(t);
  }

  lemma MaskIs(s: nat)
    requires s < 8
    ensures Mask(s) == [0x80, 0x40, 0x20, 0x10, 0x08, 0x04, 0x02, 0x01][s]
  {
    match s case 0 => case 1 => case 2 => case 3 => case 4 => case 5 => case 6 => case _ =>
  }

  lemma TailIs(s: nat)
    requires s < 8
    ensures Tail(s) == [0xFF, 0x7F, 0x3F, 0x1F, 0x0F, 0x07, 0x03, 0x01][s]
  {
    match s case 0 => case 1 => case 2 => case 3 => case 4 => case 5 => case 6 => case _ =>
  }

  method Set(bits: array<bv8>, pos: nat)
    requires pos / 8 < bits.Length
    modifies bits
    ensures forall p :: 0 <= p < 8 * bits.Length ==> (Bit(bits[..], p) <==> old(Bit(bits[..], p)) || p == pos)
  {
    hide Mask, Hit;
    bits[pos / 8] := bits[pos / 8] | Mask(pos % 8);
    forall p | 0 <= p < 8 * bits.Length ensures Bit(bits[..], p) <==> old(Bit(bits[..], p)) || p == pos {
      OrMask(old(bits[pos / 8]), pos % 8, p % 8);
    }
  }

  /** Eight bits at once, over the border of two bytes. */
  method Set8(bits: array<bv8>, pos: nat)
    requires pos / 8 + 1 < bits.Length
    modifies bits
    ensures forall p :: 0 <= p < 8 * bits.Length ==>
      (Bit(bits[..], p) <==> old(Bit(bits[..], p)) || pos <= p < pos + 8)
  {
    hide Tail, Hit, Bit;
    ghost var was := bits[..];
    var q, s := pos / 8, pos % 8;
    bits[q] := bits[q] | Tail(s);
    bits[q + 1] := bits[q + 1] | !Tail(s);
    forall i, t | 0 <= i < bits.Length && 0 <= t < 8
      ensures Hit(bits[i], t) <==> Hit(was[i], t) || (i == q && t >= s) || (i == q + 1 && t < s)
    {
      OrTail(was[i], s, t);
    }
    EightBits(was, bits[..], pos);
  }

  lemma EightBits(was: seq<bv8>, bits: seq<bv8>, pos: nat)
    requires |was| == |bits|
    requires forall i, t :: 0 <= i < |bits| && 0 <= t < 8 ==>
      (Hit(bits[i], t) <==> Hit(was[i], t) || (i == pos / 8 && t >= pos % 8) || (i == pos / 8 + 1 && t < pos % 8))
    ensures forall p :: 0 <= p < 8 * |bits| ==> (Bit(bits, p) <==> Bit(was, p) || pos <= p < pos + 8)
  {
    hide Hit;
    forall p | 0 <= p < 8 * |bits| ensures Bit(bits, p) <==> Bit(was, p) || pos <= p < pos + 8 {
      Border(pos, p);
    }
  }

  lemma Border(pos: nat, p: nat)
    ensures pos <= p < pos + 8 <==>
      (p / 8 == pos / 8 && p % 8 >= pos % 8) || (p / 8 == pos / 8 + 1 && p % 8 < pos % 8)
  {
  }

  /** The bits below pc are right and none above is set. */
  ghost predicate Marked(code: Bytes, bits: seq<bv8>, pc: nat) {
    forall p: nat :: p < 8 * |bits| ==> (Bit(bits, p) <==> p < pc && !Reached(code, 0, p))
  }

  ghost predicate IsBitmap(code: Bytes, bits: seq<bv8>) {
    |bits| == |code| / 8 + 5 && forall p: nat :: p < |code| ==> (Bit(bits, p) <==> !Reached(code, 0, p))
  }

  /** The bitmap marks exactly the bytes a linear scan passes over; no write leaves it. */
  method CodeBitmap(code: Bytes) returns (bits: array<bv8>)
    ensures fresh(bits) && IsBitmap(code, bits[..])
  {
    hide Bit, Reached;
    bits := new bv8[|code| / 8 + 1 + 4](i => 0);
    AllClear(code, bits[..]);
    var pc := 0;
    while pc < |code|
      invariant Marked(code, bits[..], pc) && Reached(code, 0, pc)
      decreases |code| - pc
    {
      var op := code[pc];
      InsideNotReached(code, pc);
      if op >= PUSH1 && op <= PUSH32 {
        var next := MarkPushed(code, bits, pc, op);
        pc := next;
      } else {
        pc := pc + 1;
      }
    }
  }

  lemma AllClear(code: Bytes, bits: seq<bv8>)
    requires forall i :: 0 <= i < |bits| ==> bits[i] == 0
    ensures Marked(code, bits, 0) && Reached(code, 0, 0)
  {
  }

  /** Marks the bytes a push instruction carries, by eights and then singly. */
  method MarkPushed(code: Bytes, bits: array<bv8>, at: nat, op: Byte) returns (pc: nat)
    requires at < |code| && op == code[at] && PUSH1 <= op <= PUSH32 && bits.Length == |code| / 8 + 5
    requires Marked(code, bits[..], at) && Reached(code, 0, at)
    requires forall p :: at < p < Next(code, at) ==> !Reached(code, 0, p)
    modifies bits
    ensures pc == Next(code, at) && Marked(code, bits[..], pc)
  {
    hide Bit, Reached;
    var numbits := op - PUSH1 + 1;
    pc := at + 1;
    while numbits >= 8
      invariant 0 <= numbits <= 32 && pc + numbits as int == Next(code, at) && at < pc
      invariant Marked(code, bits[..], pc)
    {
      Set8(bits, pc);
      pc := pc + 8;
      numbits := numbits - 8;
    }
    while numbits > 0
      invariant 0 <= numbits < 8 && pc + numbits as int == Next(code, at) && at < pc
      invariant Marked(code, bits[..], pc)
    {
      Set(bits, pc);
      pc := pc + 1;
      numbits := numbits - 1;
    }
  }

  // ------------------------------------------------ the analysis kept with a contract

  /** Analyses by code hash, shared by a contract and its callees. */
  class Jumpdests {
    var known: map<Bytes, seq<bv8>>

    constructor ()
      ensures known == map[]
    {
      known := map[];
    }
  }

  /** No two programs share a hash. */
  ghost predicate Injective(hash: Bytes -> Bytes) {
    forall a, b :: hash(a) == hash(b) ==> a == b
  }

  class Contract {
    const code: Bytes
    const codeHash: Option<Bytes>
    const jumpdests: Jumpdests
    var analysis: Option<seq<bv8>>

    /** Whatever is kept is the bitmap of the code it is kept for. */
    ghost predicate Valid(hash: Bytes -> Bytes)
      reads this, jumpdests
    {
      && (codeHash.Some? ==> codeHash.value == hash(code))
      && (analysis.Some? ==> IsBitmap(code, analysis.value))
      && forall c :: hash(c) in jumpdests.known ==> IsBitmap(c, jumpdests.known[hash(c)])
    }

    constructor (code: Bytes, codeHash: Option<Bytes>, jumpdests: Jumpdests)
      ensures this.code == code && this.codeHash == codeHash && this.jumpdests == jumpdests && analysis == None
    {
      this.code, this.codeHash, this.jumpdests, analysis := code, codeHash, jumpdests, None;
    }

    /** From the kept analysis, the shared one or a fresh one, the answer is the same. */
    method IsCode(dest: nat, ghost hash: Bytes -> Bytes) returns (r: bool)
      requires Valid(hash) && Injective(hash) && dest < |code|
      modifies this`analysis, jumpdests
      ensures Valid(hash)
      ensures r <==> Reached(code, 0, dest)
    {
      hide Reached;
      if analysis.Some? {
        return CodeSegment(analysis.value, dest);
      }
      if codeHash.Some? {
        if codeHash.value !in jumpdests.known {
          var bits := CodeBitmap(code);
          jumpdests.known := jumpdests.known[codeHash.value := bits[..]];
        }
        assert codeHash.value == hash(code);
        analysis := Some(jumpdests.known[codeHash.value]);
        assert IsBitmap(code, analysis.value);
        return CodeSegment(analysis.value, dest);
      }
      var bits := CodeBitmap(code);
      analysis := Some(bits[..]);
      return CodeSegment(analysis.value, dest);
    }

    method ValidJumpdest(dest: nat, ghost hash: Bytes -> Bytes) returns (r: bool)
      requires Valid(hash) && Injective(hash)
      modifies this`analysis, jumpdests
      ensures Valid(hash)
      ensures r <==> dest < |code| && code[dest] == JUMPDEST && Reached(code, 0, dest)
    {
      hide Reached;
      if dest >= |code| || code[dest] != JUMPDEST {
        return false;
      }
      r := IsCode(dest, hash);
    }
  }

  predicate CodeSegment(bits: seq<bv8>, p: nat)
    requires p / 8 < |bits|
  {
    bits[p / 8] & (0x80 >> (p % 8)) == 0
  }
}
