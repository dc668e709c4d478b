// A frame's memory: how much an instruction needs, what growing costs, and the accesses themselves.
module EvmMemory {
  import opened Common
  import opened ByteStrings

  const MAX_MEMORY: nat := 0x1F_FFFF_FFE0

  /** A 256-bit stack value. */
  type Word = x: int | 0 <= x < 0x1_0000000000000000_0000000000000000_0000000000000000_0000000000000000

  // ------------------------------------------------ sizes

  /** Bytes rounded up to words, without overflowing 64 bits. */
  function ToWordSize(size: nat): (r: nat)
    requires size < UINT64
    ensures size <= 32 * r < size + 32
  {
    if size > UINT64 - 1 - 31 then (UINT64 - 1) / 32 + 1 else (size + 31) / 32
  }

  datatype Size = Fits(n: nat) | Overflows

  /** How far memory must reach for `length` bytes at `off`, in 64-bit arithmetic. */
  function CalcMemSizeWithUint(off: Word, length: nat): (r: Size)
    requires length < UINT64
    ensures r.Fits? ==> r.n < UINT64 && r.n == if length == 0 then 0 else off + length
    ensures r.Overflows? <==> length != 0 && off + length >= UINT64
  {
    if length == 0 then Fits(0)
    else if off >= UINT64 then Overflows
    else
      var val := (off + length) % UINT64;
      if val < off then Overflows else Fits(val)
  }

  function CalcMemSize(off: Word, length: Word): (r: Size)
    ensures r.Fits? ==> Reaches(r.n, off, length) && r.n < UINT64
  {
    if length >= UINT64 then Overflows else CalcMemSizeWithUint(off, length)
  }

  /** A memory of n bytes holds the region; an empty region is held anywhere. */
  predicate Reaches(n: nat, off: Word, length: Word) {
    length == 0 || off + length <= n
  }

  function Larger(x: Size, y: Size): Size {
    if x.Overflows? || y.Overflows? then Overflows else if x.n > y.n then x else y
  }

  // ------------------------------------------------ the fee

  /** The price of a memory of w words: linear plus a quadratic part. */
  function Fee(w: nat): nat { 3 * w + Square(w) / 512 }

  function Square(w: nat): nat { w * w }

  lemma FeeMonotone(v: nat, w: nat)
    requires v <= w
    ensures Fee(v) <= Fee(w)
  {
    Squares(v, w);
  }

  /** The same in 64-bit arithmetic, step by step. */
  function Fee64(w: nat): (r: nat)
    ensures r < UINT64
  {
    var square := Square(w) % UINT64;
    var linCoef := w * 3 % UINT64;
    (linCoef + square / 512) % UINT64
  }

  /** For a permitted size no step of it wraps. */
  lemma FeeExact(w: nat)
    requires 32 * w <= MAX_MEMORY
    ensures Fee64(w) == Fee(w) == 3 * w + w * w / 512
  {
    assert Square(w) == w * w;
    hide Square;
    SquareSmall(w);
    Small(Square(w));
    Small(w * 3);
    Small(w * 3 + Square(w) / 512);
  }

  lemma SquareSmall(w: nat)
    requires w <= 0xFFFF_FFFF
    ensures Square(w) < UINT64
  {
    Squares(w, 0xFFFF_FFFF);
  }

  lemma Small(x: nat)
    requires x < UINT64
    ensures x % UINT64 == x
  {
  }

  lemma Squares(v: nat, w: nat)
    requires v <= w
    ensures Square(v) <= Square(w)
  {
  }

  function Max(a: nat, b: nat): nat { if a > b then a else b }

  class Memory {
    var store: Bytes
    var lastGasCost: nat

    /** Whole words only, and the fee on record is the fee of what is there. */
    ghost predicate Metered()
      reads this
    {
      |store| % 32 == 0 && |store| <= MAX_MEMORY && lastGasCost == Fee(|store| / 32)
    }

    constructor ()
      ensures Metered() && store == []
    {
      store, lastGasCost := [], 0;
    }

    /**
     * The fee for reaching newMemSize, and the record that it is paid. What is charged is exactly the
     * difference of the two totals, and every 64-bit step is exact.
     */
    method GasCost(newMemSize: nat) returns (ok: bool, fee: nat)
      requires Metered() && newMemSize < UINT64
      modifies this`lastGasCost
      ensures ok <==> newMemSize <= MAX_MEMORY
      ensures ok ==> lastGasCost == Fee(Max(ToWordSize(newMemSize), |store| / 32))
      ensures ok ==> fee == lastGasCost - old(lastGasCost)
      ensures fee < UINT64
    {
      hide Fee, Fee64, ToWordSize;
      ZeroFee();
      if newMemSize == 0 {
        return true, 0;
      }
      if newMemSize > MAX_MEMORY {
        return false, 0;
      }
      var words := ToWordSize(newMemSize);
      if words * 32 > |store| {
        FeeExact(words);
        FeeMonotone(|store| / 32, words);
        var newTotalFee := Fee64(words);
        fee := (newTotalFee - lastGasCost) % UINT64;
        lastGasCost := newTotalFee;
        return true, fee;
      }
      return true, 0;
    }

    method Resize(size: nat)
      modifies this`store
      ensures |store| == Max(|old(store)|, size) && old(store) <= store
      ensures forall i :: |old(store)| <= i < |store| ==> store[i] == 0
    {
      if |store| < size {
        store := store + seq(size - |store|, i => 0);
      }
    }

    /** Copies into the region as much as there is to copy; the rest of the memory stays. */
    method Set(offset: nat, size: nat, value: Bytes)
      requires size > 0 ==> offset + size <= |store|
      modifies this`store
      ensures |store| == |old(store)|
      ensures forall i :: 0 <= i < |store| && !(offset <= i < offset + size) ==> store[i] == old(store)[i]
      ensures forall i :: offset <= i < offset + size && i - offset < |value| ==> store[i] == value[i - offset]
    {
      if size > 0 {
        var n := if |value| < size then |value| else size;
        store := store[..offset] + value[..n] + store[offset + n..];
      }
    }

    /** The region's bytes; nothing for an empty region or one that begins past the end. */
    method GetPtr(offset: int, size: int) returns (r: Bytes)
      requires size != 0 ==> 0 <= offset && (offset < |store| ==> 0 < size && offset + size <= |store|)
      ensures if size != 0 && offset < |store| then r == store[offset..offset + size] else r == []
    {
      if size == 0 {
        return [];
      }
      if |store| > offset {
        return store[offset..offset + size];
      }
      return [];
    }
  }

  lemma ZeroFee()
    ensures Fee(0) == 0 && ToWordSize(0) == 0
  {
  }
}
