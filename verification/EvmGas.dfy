// Instruction costs: the table of the Istanbul rules and the metered parts.
module EvmGas {
  import opened Common
  import opened ByteStrings
  import opened EvmMemory
  import Refund

  const CALL_VALUE_TRANSFER: nat := 9000
  const CALL_NEW_ACCOUNT: nat := 25000
  const CALL_STIPEND: nat := 2300
  const STACK_LIMIT: nat := 1024

  const EXP: nat := 0x0a
  const SHA3: nat := 0x20
  const CALLDATACOPY: nat := 0x37
  const CODECOPY: nat := 0x39
  const EXTCODECOPY: nat := 0x3c
  const RETURNDATACOPY: nat := 0x3e
  const MLOAD: nat := 0x51
  const MSTORE: nat := 0x52
  const MSTORE8: nat := 0x53
  const SSTORE: nat := 0x55
  const LOG0: nat := 0xa0
  const CREATE: nat := 0xf0
  const CALL: nat := 0xf1
  const CALLCODE: nat := 0xf2
  const RETURN: nat := 0xf3
  const DELEGATECALL: nat := 0xf4
  const CREATE2: nat := 0xf5
  const STATICCALL: nat := 0xfa
  const REVERT: nat := 0xfd
  const SELFDESTRUCT: nat := 0xff

  // ------------------------------------------------ the table

  datatype End = Goes | Halts | Reverts

  datatype Operation = Invalid | Operation(gas: nat, pops: nat, pushes: nat, end: End, writes: bool)

  function Pure(gas: nat, pops: nat, pushes: nat): Operation { Operation(gas, pops, pushes, Goes, false) }

  /** Constant cost, stack use and flags of every opcode. */
  function Istanbul(op: nat): Operation {
    if op == 0x00 then Operation(0, 0, 0, Halts, false)
    else if op in {0x01, 0x03} then Pure(3, 2, 1)
    else if op in {0x02, 0x04, 0x05, 0x06, 0x07, 0x0b} then Pure(5, 2, 1)
    else if op in {0x08, 0x09} then Pure(8, 3, 1)
    else if op == EXP then Pure(0, 2, 1)
    else if op in {0x15, 0x19} then Pure(3, 1, 1)
    else if 0x10 <= op <= 0x1d then Pure(3, 2, 1)
    else if op == SHA3 then Pure(30, 2, 1)
    else if op in {0x30, 0x32, 0x33, 0x34, 0x36, 0x38, 0x3a, 0x3d} then Pure(2, 0, 1)
    else if op in {0x31, 0x3b, 0x3f} then Pure(700, 1, 1)
    else if op == 0x35 then Pure(3, 1, 1)
    else if op in {CALLDATACOPY, CODECOPY, RETURNDATACOPY} then Pure(3, 3, 0)
    else if op == EXTCODECOPY then Pure(700, 4, 0)
    else if op == 0x40 then Pure(20, 1, 1)
    else if 0x41 <= op <= 0x46 then Pure(2, 0, 1)
    else if op == 0x47 then Pure(5, 0, 1)
    else if op == 0x50 then Pure(2, 1, 0)
    else if op == MLOAD then Pure(3, 1, 1)
    else if op in {MSTORE, MSTORE8} then Pure(3, 2, 0)
    else if op == 0x54 then Pure(800, 1, 1)
    else if op == SSTORE then Operation(0, 2, 0, Goes, true)
    else if op == 0x56 then Pure(8, 1, 0)
    else if op == 0x57 then Pure(10, 2, 0)
    else if 0x58 <= op <= 0x5a then Pure(2, 0, 1)
    else if op == 0x5b then Pure(1, 0, 0)
    else if 0x60 <= op <= 0x7f then Pure(3, 0, 1)
    else if 0x80 <= op <= 0x8f then Pure(3, op - 0x7f, op - 0x7f + 1)
    else if 0x90 <= op <= 0x9f then Pure(3, op - 0x8e, op - 0x8e)
    else if LOG0 <= op <= LOG0 + 4 then Operation(0, op - LOG0 + 2, 0, Goes, true)
    else if op == CREATE then Operation(32000, 3, 1, Goes, true)
    else if op in {CALL, CALLCODE} then Pure(700, 7, 1)
    else if op == RETURN then Operation(0, 2, 0, Halts, false)
    else if op in {DELEGATECALL, STATICCALL} then Pure(700, 6, 1)
    else if op == CREATE2 then Operation(32000, 4, 1, Goes, true)
    else if op == REVERT then Operation(0, 2, 0, Reverts, false)
    else if op == SELFDESTRUCT then Operation(0, 1, 0, Halts, true)
    else Invalid
  }

  // ------------------------------------------------ memory needed and memory touched

  predicate IsLog(op: nat) { LOG0 <= op <= LOG0 + 4 }

  predicate UsesMemory(op: nat) {
    || op in {SHA3, CALLDATACOPY, CODECOPY, RETURNDATACOPY, EXTCODECOPY, MLOAD, MSTORE, MSTORE8,
              CREATE, CREATE2, CALL, CALLCODE, DELEGATECALL, STATICCALL, RETURN, REVERT}
    || IsLog(op)
  }

  predicate Enough(op: nat, stack: seq<Word>) {
    Istanbul(op).Operation? && Istanbul(op).pops <= |stack|
  }

  /** The size table: how far memory must reach before the instruction runs. The top of the stack is first. */
  function MemorySize(op: nat, stack: seq<Word>): Size
    requires UsesMemory(op) && Enough(op, stack)
  {
    if op in {CALLDATACOPY, CODECOPY, RETURNDATACOPY} then CalcMemSize(stack[0], stack[2])
    else if op == EXTCODECOPY then CalcMemSize(stack[1], stack[3])
    else if op in {MLOAD, MSTORE} then CalcMemSizeWithUint(stack[0], 32)
    else if op == MSTORE8 then CalcMemSizeWithUint(stack[0], 1)
    else if op in {CREATE, CREATE2} then CalcMemSize(stack[1], stack[2])
    else if op in {CALL, CALLCODE} then Larger(CalcMemSize(stack[5], stack[6]), CalcMemSize(stack[3], stack[4]))
    else if op in {DELEGATECALL, STATICCALL} then
      Larger(CalcMemSize(stack[4], stack[5]), CalcMemSize(stack[2], stack[3]))
    else CalcMemSize(stack[0], stack[1])
  }

  /** The regions the instruction itself reads, then those it writes. */
  function Reads(op: nat, stack: seq<Word>): (Word, Word)
    requires UsesMemory(op) && Enough(op, stack)
  {
    if op in {SHA3, RETURN, REVERT} || IsLog(op) then (stack[0], stack[1])
    else if op == MLOAD then (stack[0], 32)
    else if op in {CREATE, CREATE2} then (stack[1], stack[2])
    else if op in {CALL, CALLCODE} then (stack[3], stack[4])
    else if op in {DELEGATECALL, STATICCALL} then (stack[2], stack[3])
    else (0, 0)
  }

  function Writes(op: nat, stack: seq<Word>): (Word, Word)
    requires UsesMemory(op) && Enough(op, stack)
  {
    if op in {CALLDATACOPY, CODECOPY, RETURNDATACOPY} then (stack[0], stack[2])
    else if op == EXTCODECOPY then (stack[1], stack[3])
    else if op == MSTORE then (stack[0], 32)
    else if op == MSTORE8 then (stack[0], 1)
    else if op in {CALL, CALLCODE} then (stack[5], stack[6])
    else if op in {DELEGATECALL, STATICCALL} then (stack[4], stack[5])
    else (0, 0)
  }

  /** The size table reaches everything the instruction touches. */
  lemma SizesSuffice(op: nat, stack: seq<Word>)
    requires UsesMemory(op) && Enough(op, stack) && MemorySize(op, stack).Fits?
    ensures var n := MemorySize(op, stack).n;
      && n < UINT64
      && Reaches(n, Reads(op, stack).0, Reads(op, stack).1)
      && Reaches(n, Writes(op, stack).0, Writes(op, stack).1)
  {
  }

  /** It asks for no more: a memory reaches both regions exactly when it has at least that size. */
  lemma SizesLeast(op: nat, stack: seq<Word>, n: nat)
    requires UsesMemory(op) && Enough(op, stack) && n < UINT64
    ensures MemorySize(op, stack).Fits? && MemorySize(op, stack).n <= n <==>
      Reaches(n, Reads(op, stack).0, Reads(op, stack).1) && Reaches(n, Writes(op, stack).0, Writes(op, stack).1)
  {
  }

  /** A region reached by a small memory keeps its place when cut to 64 bits, or is empty. */
  lemma CutExact(n: nat, off: Word, length: Word)
    requires Reaches(n, off, length) && n <= MAX_MEMORY
    ensures length % UINT64 == length
    ensures length != 0 ==> off % UINT64 == off && off + length <= n
  {
  }

  // ------------------------------------------------ gas for calls

  /** 64-bit addition that notices overflow. */
  function SafeAdd(a: nat, b: nat): Size { if a + b < UINT64 then Fits(a + b) else Overflows }

  function SafeMul(a: nat, b: nat): Size { if a * b < UINT64 then Fits(a * b) else Overflows }

  /** What a call may pass on: all but one 64th of what is left, or what was asked for. The subtraction wraps. */
  function CallGas(isEip150: bool, available: nat, base: nat, asked: Word): Size
    requires available < UINT64 && base < UINT64
  {
    var left := (available - base) % UINT64;
    var most := left - left / 64;
    if isEip150 && (asked >= UINT64 || most < asked) then Fits(most)
    else if asked >= UINT64 then Overflows
    else Fits(asked)
  }

  /** The wrapped case never goes through: with the base price above what is there, the total is too. */
  lemma WrappedCallCannotBePaid(isEip150: bool, available: nat, base: nat, asked: Word)
    requires available < base < UINT64
    ensures var g := CallGas(isEip150, available, base, asked);
      g.Overflows? || SafeAdd(base, g.n).Overflows? || SafeAdd(base, g.n).n > available
  {
  }

  /** Otherwise the call is always affordable and a 64th of the rest stays behind. */
  lemma CallLeavesASixtyFourth(available: nat, base: nat, asked: Word)
    requires base <= available < UINT64
    ensures var g, most := CallGas(true, available, base, asked), available - base - (available - base) / 64;
      && g == Fits(if asked <= most then asked else most)
      && SafeAdd(base, g.n).Fits? && SafeAdd(base, g.n).n <= available
  {
    SmallDifference(available, base);
  }

  lemma SmallDifference(available: nat, base: nat)
    requires base <= available < UINT64
    ensures (available - base) % UINT64 == available - base
  {
    Small(available - base);
  }

  // ------------------------------------------------ the metered parts

  /** What the instruction finds around it: operands, storage, accounts. */
  datatype Scene = Scene(stack: seq<Word>, original: Bytes, current: Bytes, value: Bytes,
                         targetEmpty: bool, hasBalance: bool)

  function ByteLength(x: nat): nat { if x == 0 then 0 else 1 + ByteLength(x / 256) }

  function PerWord(size: Word, price: nat): Size {
    if size >= UINT64 then Overflows else SafeMul(ToWordSize(size), price)
  }

  function Plus(gas: nat, more: Size): Size { if more.Overflows? then Overflows else SafeAdd(gas, more.n) }

  /** What a call costs besides memory and the gas it passes on. */
  function CallExtra(op: nat, sc: Scene): (r: nat)
    requires Enough(op, sc.stack)
    ensures r <= CALL_NEW_ACCOUNT + CALL_VALUE_TRANSFER
  {
    if op == CALL then
      (if sc.stack[2] != 0 && sc.targetEmpty then CALL_NEW_ACCOUNT else 0)
      + (if sc.stack[2] != 0 then CALL_VALUE_TRANSFER else 0)
    else if op == CALLCODE then (if sc.stack[2] != 0 then CALL_VALUE_TRANSFER else 0)
    else 0
  }

  predicate IsCall(op: nat) { op in {CALL, CALLCODE, DELEGATECALL, STATICCALL} }

  /** The metered part given the fee for memory; for calls, the gas to pass on comes second. */
  function DynamicGas(op: nat, sc: Scene, gas: nat, fee: nat): (Size, nat)
    requires Enough(op, sc.stack) && gas < UINT64 && fee < UINT64
  {
    if op == EXP then (SafeAdd(50 * ByteLength(sc.stack[1]), 10), 0)
    else if op == SHA3 then (Plus(fee, PerWord(sc.stack[1], 6)), 0)
    else if op in {CALLDATACOPY, CODECOPY, RETURNDATACOPY} then (Plus(fee, PerWord(sc.stack[2], 3)), 0)
    else if op == EXTCODECOPY then (Plus(fee, PerWord(sc.stack[3], 3)), 0)
    else if op == CREATE2 then (Plus(fee, PerWord(sc.stack[2], 6)), 0)
    else if IsLog(op) then (LogGas(op - LOG0, sc.stack[1], fee), 0)
    else if op == SSTORE then
      if gas <= Refund.SENTRY then (Overflows, 0)
      else (Fits(Refund.Metered(Refund.NetEip2200, sc.original, sc.current, sc.value).cost), 0)
    else if IsCall(op) then CallCost(op, sc, gas, fee)
    else if op == SELFDESTRUCT then
      (Fits(5000 + if sc.targetEmpty && sc.hasBalance then CALL_NEW_ACCOUNT else 0), 0)
    else (Fits(fee), 0)
  }

  function LogGas(topics: nat, size: Word, fee: nat): Size {
    if size >= UINT64 then Overflows
    else
      var g := SafeAdd(fee, 375);
      if g.Overflows? then Overflows
      else
        var g := SafeAdd(g.n, topics * 375);
        if g.Overflows? then Overflows else Plus(g.n, SafeMul(size, 8))
  }

  function CallCost(op: nat, sc: Scene, gas: nat, fee: nat): (Size, nat)
    requires IsCall(op) && Enough(op, sc.stack) && gas < UINT64 && fee < UINT64
  {
    var base := SafeAdd(CallExtra(op, sc), fee);
    if base.Overflows? then (Overflows, 0)
    else
      var temp := CallGas(true, gas, base.n, sc.stack[0]);
      if temp.Overflows? then (Overflows, 0) else (SafeAdd(base.n, temp.n), temp.n)
  }

  /** The gas handed to the callee, with the stipend a value transfer brings. */
  function Handed(op: nat, sc: Scene, temp: nat): nat
    requires Enough(op, sc.stack)
  {
    if op in {CALL, CALLCODE} && sc.stack[2] != 0 then temp + CALL_STIPEND else temp
  }

  /** Bytes in words, rounded up. */
  function Words(size: nat): nat { (size + 31) / 32 }

  /**
   * The metered part as a number without bounds: the fee for memory and, per word hashed or copied, per
   * topic and byte logged, per byte of an exponent, or for what a call or a self-destruct sets off.
   */
  function Price(op: nat, sc: Scene, fee: nat, passed: nat): nat
    requires Enough(op, sc.stack)
  {
    if op == EXP then 10 + 50 * ByteLength(sc.stack[1])
    else if op == SHA3 then fee + 6 * Words(sc.stack[1])
    else if op in {CALLDATACOPY, CODECOPY, RETURNDATACOPY} then fee + 3 * Words(sc.stack[2])
    else if op == EXTCODECOPY then fee + 3 * Words(sc.stack[3])
    else if op == CREATE2 then fee + 6 * Words(sc.stack[2])
    else if IsLog(op) then fee + 375 + 375 * (op - LOG0) + (sc.stack[1] as nat) * 8
    else if op == SSTORE then Refund.Metered(Refund.NetEip2200, sc.original, sc.current, sc.value).cost
    else if op in {CALL, CALLCODE} && sc.stack[2] != 0 then
      fee + passed + 9000 + if op == CALL && sc.targetEmpty then 25000 else 0
    else if IsCall(op) then fee + passed
    else if op == SELFDESTRUCT then 5000 + if sc.targetEmpty && sc.hasBalance then 25000 else 0
    else fee
  }

  /** The length a price per word is taken of. */
  function Length(op: nat, sc: Scene): nat
    requires Enough(op, sc.stack)
  {
    if op == SHA3 then sc.stack[1]
    else if op in {CALLDATACOPY, CODECOPY, RETURNDATACOPY, CREATE2} then sc.stack[2]
    else if op == EXTCODECOPY then sc.stack[3]
    else 0
  }

  /** In 64 bits the price is charged exactly, or refused exactly when it or the length does not fit. */
  lemma PriceExact(op: nat, sc: Scene, gas: nat, fee: nat)
    requires Enough(op, sc.stack) && gas < UINT64 && fee < UINT64 && (op == SSTORE ==> gas > 2300)
    ensures var (cost, passed) := DynamicGas(op, sc, gas, fee);
      && (cost.Fits? ==> cost.n == Price(op, sc, fee, passed))
      && (cost.Fits? <==> Price(op, sc, fee, passed) < UINT64 && Length(op, sc) < UINT64)
  {
    hide ByteLength, ToWordSize, Words, CallCost, LogGas;
    if op == SSTORE { StoreCosts(sc.original, sc.current, sc.value); }
    if Length(op, sc) < UINT64 { WordsAre(Length(op, sc)); }
    if op == EXP { ExponentSmall(sc.stack[1]); }
    if IsCall(op) { CallPrice(op, sc, gas, fee); }
    if IsLog(op) { LogPrice(op - LOG0, sc.stack[1], fee); }
  }

  lemma LogPrice(topics: nat, size: Word, fee: nat)
    requires fee < UINT64 && topics <= 4
    ensures var price := fee + 375 + 375 * topics + (size as nat) * 8;
      LogGas(topics, size, fee) == if price < UINT64 then Fits(price) else Overflows
  {
  }

  lemma CallPrice(op: nat, sc: Scene, gas: nat, fee: nat)
    requires IsCall(op) && Enough(op, sc.stack) && gas < UINT64 && fee < UINT64
    ensures var (cost, passed) := CallCost(op, sc, gas, fee);
      var price := CallExtra(op, sc) + fee + passed;
      cost == if price < UINT64 then Fits(price) else Overflows
  {
    hide Istanbul;
  }

  lemma WordsAre(size: nat)
    requires size < UINT64
    ensures ToWordSize(size) == Words(size)
  {
  }

  lemma ExponentSmall(x: Word)
    ensures ByteLength(x) <= 32
  {
    assert Power256(2) == 0x1_0000;
    hide Power256, ByteLength;
    PowerDoubles(2);
    PowerDoubles(4);
    assert Power256(8) == 0x1_0000000000000000;
    PowerDoubles(8);
    PowerDoubles(16);
    BytesBound(x, 32);
  }

  function Power256(k: nat): (r: nat)
    ensures r >= 1
  {
    if k == 0 then 1 else 256 * Power256(k - 1)
  }

  lemma PowerDoubles(k: nat)
    ensures Power256(2 * k) == Power256(k) * Power256(k)
  {
    PowerAdds(k, k);
  }

  lemma {:induction false} PowerAdds(j: nat, k: nat)
    ensures Power256(j + k) == Power256(j) * Power256(k)
  {
    if j > 0 {
      PowerAdds(j - 1, k);
      assert Power256(j) * Power256(k) == 256 * (Power256(j - 1) * Power256(k));
    }
  }

  /** A number below 256^k has at most k bytes, and one not below has more. */
  lemma {:induction false} BytesBound(x: nat, k: nat)
    ensures ByteLength(x) <= k <==> x < Power256(k)
  {
    if k > 0 && x > 0 {
      BytesBound(x / 256, k - 1);
      assert x / 256 < Power256(k - 1) <==> x < 256 * Power256(k - 1);
    }
  }

  /** Instructions that go on cost something, whatever they find. */
  lemma EveryStepCosts(op: nat, sc: Scene, gas: nat, fee: nat)
    requires Enough(op, sc.stack) && gas < UINT64 && fee < UINT64
    requires Istanbul(op).end == Goes && DynamicGas(op, sc, gas, fee).0.Fits?
    ensures Istanbul(op).gas + DynamicGas(op, sc, gas, fee).0.n >= 1
    ensures DynamicGas(op, sc, gas, fee).0.n >= if UsesMemory(op) then fee else 0
    ensures op in {CREATE, CREATE2} ==> Istanbul(op).gas + DynamicGas(op, sc, gas, fee).0.n >= 32000 + fee
  {
    hide PerWord;
    if op == SSTORE { StoreCosts(sc.original, sc.current, sc.value); }
  }

  lemma StoreCosts(original: Bytes, current: Bytes, value: Bytes)
    ensures Refund.Metered(Refund.NetEip2200, original, current, value).cost >= 800
  {
  }

  /** A call that can be paid costs more than it hands over, stipend included. */
  lemma CallsHandLess(op: nat, sc: Scene, gas: nat, fee: nat)
    requires IsCall(op) && Enough(op, sc.stack) && gas < UINT64 && fee < UINT64
    requires var (cost, _) := DynamicGas(op, sc, gas, fee); cost.Fits? && cost.n <= gas
    ensures var (cost, temp) := DynamicGas(op, sc, gas, fee);
      && Handed(op, sc, temp) + 700 + fee <= Istanbul(op).gas + cost.n
      && Handed(op, sc, temp) == temp + if op in {CALL, CALLCODE} && sc.stack[2] != 0 then 2300 else 0
  {
    hide PerWord;
  }

  /** A halting instruction pays for its memory too. */
  lemma MemoryIsPaid(op: nat, sc: Scene, gas: nat, fee: nat)
    requires UsesMemory(op) && Enough(op, sc.stack) && gas < UINT64 && fee < UINT64
    requires DynamicGas(op, sc, gas, fee).0.Fits?
    ensures DynamicGas(op, sc, gas, fee).0.n >= fee
  {
    hide PerWord;
  }
}
