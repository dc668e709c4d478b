// The interpreter loop and nested calls: gas as the measure of everything.
module Interpreter {
  import opened Common
  import opened ByteStrings
  import opened EvmMemory
  import opened EvmGas
  import opened EvmLedger

  /** A 64-bit value read as signed. */
  function Int64(x: nat): int { if x % UINT64 < UINT64 / 2 then x % UINT64 else x % UINT64 - UINT64 }

  method ReadRegion(mem: Memory, off: Word, length: Word) returns (r: Bytes)
    requires mem.Metered() && Reaches(|mem.store|, off, length)
    ensures if length == 0 then r == [] else off + length <= |mem.store| && r == mem.store[off..off + length]
  {
    CutExact(|mem.store|, off, length);
    r := mem.GetPtr(Int64(off), Int64(length));
  }

  method WriteRegion(mem: Memory, off: Word, length: Word, data: Bytes)
    requires mem.Metered() && Reaches(|mem.store|, off, length)
    modifies mem`store
    ensures mem.Metered() && |mem.store| == |old(mem.store)|
    ensures length > 0 ==> off + length <= |mem.store|
    ensures forall i :: 0 <= i < length && i < |data| ==> mem.store[off + i] == data[i]
    ensures forall i :: 0 <= i < |mem.store| && !(off <= i < off + length) ==> mem.store[i] == old(mem.store)[i]
  {
    CutExact(|mem.store|, off, length);
    mem.Set(off % UINT64, length % UINT64, data);
  }

  /**
   * Charges one instruction and grows memory for it, exactly when the gas suffices. Memory then reaches
   * everything the instruction touches.
   */
  method Pay(mem: Memory, op: nat, sc: Scene, gas: nat) returns (ok: bool, left: nat, temp: nat, ghost fee: nat)
    requires mem.Metered() && Enough(op, sc.stack) && gas < UINT64
    modifies mem
    ensures ok <==> CanPay(op, sc, gas, |old(mem.store)| / 32)
    ensures left <= gas && (!ok ==> mem.store == old(mem.store))
    ensures ok ==> mem.Metered() && old(mem.store) <= mem.store
    ensures ok ==> PaidFor(op, sc, gas, |old(mem.store)| / 32, fee, |mem.store| / 32, left, temp)
    ensures ok && UsesMemory(op) ==> Reaches(|mem.store|, Reads(op, sc.stack).0, Reads(op, sc.stack).1)
    ensures ok && UsesMemory(op) ==> Reaches(|mem.store|, Writes(op, sc.stack).0, Writes(op, sc.stack).1)
  {
    hide Istanbul, EvmGas.Reads, EvmGas.Writes, DynamicGas, Fee, UsesMemory, NeededWords, ToWordSize;
    fee, temp, left := 0, 0, gas;
    ghost var words := |mem.store| / 32;
    var constant := Istanbul(op).gas;
    if gas < constant {
      return false, left, temp, 0;
    }
    left := gas - constant;
    var sized, needed := RequiredMemory(op, sc.stack);
    if !sized {
      return false, left, temp, 0;
    }
    var memorySize := 32 * needed;
    NoNeed(op, sc.stack);
    WholeWords(needed);
    var feeOk, price := true, 0;
    if UsesMemory(op) {
      feeOk, price := mem.GasCost(memorySize);
    }
    if !feeOk {
      return false, left, temp, 0;
    }
    assert price == Growth(words, Max(needed, words));
    var (cost, pass) := DynamicGas(op, sc, left, price);
    temp := pass;
    if cost.Overflows? || left < cost.n {
      return false, left, temp, 0;
    }
    left := left - cost.n;
    fee := price;
    if memorySize > 0 {
      mem.Resize(memorySize);
    }
    return true, left, temp, fee;
  }

  lemma NoNeed(op: nat, stack: seq<Word>)
    requires Enough(op, stack)
    ensures !UsesMemory(op) ==> NeededWords(op, stack) == Fits(0)
  {
  }

  lemma WholeWords(n: nat)
    requires 32 * n < UINT64
    ensures ToWordSize(32 * n) == n
  {
  }

  /** The memory the instruction needs, in words; overflow exactly when it leaves 64 bits. */
  method RequiredMemory(op: nat, stack: seq<Word>) returns (ok: bool, words: nat)
    requires Enough(op, stack)
    ensures ok <==> NeededWords(op, stack).Fits?
    ensures ok ==> words == NeededWords(op, stack).n && 32 * words < UINT64
    ensures ok && UsesMemory(op) ==>
      forall n: nat :: n >= 32 * words ==> Reaches(n, Reads(op, stack).0, Reads(op, stack).1)
    ensures ok && UsesMemory(op) ==>
      forall n: nat :: n >= 32 * words ==> Reaches(n, Writes(op, stack).0, Writes(op, stack).1)
  {
    hide Istanbul, MemorySize, EvmGas.Reads, EvmGas.Writes, UsesMemory;
    if !UsesMemory(op) {
      return true, 0;
    }
    var needed := MemorySize(op, stack);
    if needed.Overflows? {
      return false, 0;
    }
    SizesSuffice(op, stack);
    var rounded := SafeMul(ToWordSize(needed.n), 32);
    if rounded.Overflows? {
      return false, 0;
    }
    return true, ToWordSize(needed.n);
  }

  lemma CreateGoes(op: nat)
    ensures IsCreate(op) || IsCall(op) ==> UsesMemory(op) && Istanbul(op).Operation? && Istanbul(op).end == Goes
  {
  }

  /** What a paid instruction leaves: less than before unless it ends the frame, and enough apart for calls. */
  lemma PaidLeaves(op: nat, sc: Scene, gas: nat, words: nat, fee: nat, grown: nat, left: nat, temp: nat)
    requires Enough(op, sc.stack) && gas < UINT64 && PaidFor(op, sc, gas, words, fee, grown, left, temp)
    ensures left + fee <= gas
    ensures Istanbul(op).end == Goes ==> left + fee <= gas && left < gas
    ensures IsCall(op) ==> Handed(op, sc, temp) + 700 + left + fee <= gas
    ensures IsCreate(op) ==> left + 32000 + fee <= gas
  {
    hide DynamicGas, Fee, NeededWords, Handed, Istanbul, UsesMemory;
    var constant := Istanbul(op).gas;
    var g := gas - constant;
    var price := DynamicGas(op, sc, g, fee).0.n;
    assert left + price == g;
    if Istanbul(op).end == Goes { EveryStepCosts(op, sc, g, fee); }
    if UsesMemory(op) {
      MemoryIsPaid(op, sc, g, fee);
    } else {
      NoNeed(op, sc.stack);
      assert grown == words && fee == 0;
    }
    if IsCall(op) { CallsHandLess(op, sc, g, fee); }
    CreateGoes(op);
  }

  /** The line of the account for an instruction that was paid for. */
  ghost function Line(tick: nat, next: nat, gas: nat, words: nat, grown: nat, fee: nat, left: nat, temp: nat,
                      taken: nat, returned: nat, below: Option<Frame>): Entry
    requires left + fee <= gas
  {
    Entry(tick, next, gas, words, grown, fee, gas - fee - left, temp, taken, returned, below)
  }

  /** The frame that ran below, if any: opened with the gas handed to it, its account right, done at `tick`. */
  ghost predicate Ran(tape: nat -> Cell, below: Option<Frame>, handed: nat, depth: nat, readOnly: bool, tick0: nat,
                      tick: nat)
  {
    match below
    case None => tick == tick0
    case Some(f) =>
      && f.given == handed && f.tick == tick0 && f.depth == depth + 1 && f.readOnly == readOnly
      && IsLedger(tape, f) && Ends(tape, f) && tick == EndTick(tape, f)
  }

  /** What a call or a creation comes to, entered into its line. */
  lemma SettledBelow(tape: nat -> Cell, c: Cell, depth: nat, readOnly: bool, e: Entry, left: nat)
    requires Enough(c.op, c.scene.stack) && (IsCall(c.op) || IsCreate(c.op))
    requires IsCall(c.op) ==>
      && e.taken == 0 && CallReturns(c.target, Handed(c.op, c.scene, e.passed), depth, e.below, e.returned)
      && Ran(tape, e.below, Handed(c.op, c.scene, e.passed), depth, readOnly || c.op == STATICCALL, e.tick + 1, e.next)
    requires IsCreate(c.op) ==>
      && e.taken == left - left / 64
      && CreateReturns(tape, c.target, Reads(c.op, c.scene.stack).1, e.taken, depth, e.below, e.returned)
      && Ran(tape, e.below, e.taken, depth, readOnly, e.tick + 1, e.next)
    ensures Settled(tape, c, depth, readOnly, e, left) && (e.below.Some? ==> IsLedger(tape, e.below.value))
  {
    hide IsLedger, Ends, EndTick, CallReturns, CreateReturns, EvmGas.Reads, Handed;
    CallsAreNotCreates(c.op);
  }

  lemma CallsAreNotCreates(op: nat)
    ensures !(IsCall(op) && IsCreate(op))
  {
  }

  /**
   * Runs one frame to its end. Its account is right, line by line, and says how it ended; the memory it
   * leaves is as large as the account says. So what it paid for memory is the fee of that size, and every
   * bit of gas is accounted for. It never returns more gas than it got, and all frames below it together
   * take at most twice the gas in instructions, never nested deeper than 1025.
   */
  method Run(tape: nat -> Cell, given: nat, depth: nat, readOnly: bool, tick0: nat)
    returns (left: nat, outcome: Outcome, ret: Bytes, tick: nat, mem: Memory, ghost f: Frame)
    requires given < UINT64 && depth <= MAX_DEPTH + 1
    ensures left <= given && tick >= tick0 && tick - tick0 + 2 * left <= 2 * given + 1
    ensures fresh(mem) && (outcome != Failed ==> mem.Metered()) && |ret| <= MAX_MEMORY
    ensures f == Frame(given, tick0, depth, readOnly, outcome, f.ledger)
    ensures IsLedger(tape, f) && Ends(tape, f) && tick == EndTick(tape, f)
    ensures |mem.store| == 32 * WordsAfter(f)
    ensures if outcome == Failed then left <= GasAfter(f) else left == GasAfter(f) && |ret| == ReturnSize(tape, f)
    ensures FeeSum(f.ledger) == Fee(|mem.store| / 32)
    ensures given - GasAfter(f) == FeeSum(f.ledger) + RestSum(f.ledger)
    decreases given, 2
  {
    hide IsLedger, Ends, Fee, GasAfter, WordsAfter, TickAfter, Right, GoesOn, Admitted, Istanbul, RestSum, FeeSum,
      CanPay, PaidFor, EvmGas.Reads, EvmGas.Writes, UsesMemory, Handed, Reaches, Open, Settled, EndTick, ReturnSize,
      CallReturns, CreateReturns, Ran, LinesRight;
    mem := new Memory();
    var steps := 0;
    left, tick, ret, outcome, f := given, tick0, [], Fine, Frame(given, tick0, depth, readOnly, Fine, []);
    EmptyLedger(tape, f);
    while true
      invariant left <= given && tick >= tick0 && tick - tick0 + 2 * left <= 2 * given
      invariant fresh(mem) && mem.Metered() && ret == []
      invariant f == Frame(given, tick0, depth, readOnly, Fine, f.ledger) && IsLedger(tape, f) && Open(tape, f)
      invariant left == GasAfter(f) && |mem.store| == 32 * WordsAfter(f)
      invariant tick == TickAfter(f) && steps == |f.ledger|
      modifies mem
      decreases left
    {
      var c := tape(tick);
      steps := steps + 1;
      if steps % 1000 == 0 && c.cancelled {
        EndsCancelled(tape, f);
        break;
      }
      var before, at := left, tick;
      ghost var words := |mem.store| / 32;
      tick := tick + 1;
      if !Admitted(c, readOnly) {
        EndsRefused(tape, f);
        outcome := Failed;
        f := f.(outcome := Failed);
        break;
      }
      var ok, temp;
      ghost var fee;
      ok, left, temp, fee := Pay(mem, c.op, c.scene, left);
      if !ok {
        EndsRefused(tape, f);
        outcome := Failed;
        f := f.(outcome := Failed);
        break;
      }
      ghost var paid := left;
      ghost var e: Entry;
      left, tick, ret, e := Perform(tape, mem, c, temp, left, depth, readOnly, at, before, words, fee);
      ghost var f0 := f;
      f := Longer(f, e);
      TakeDown(tape, f0, c, e, paid);
      if GoesOn(c) {
        ret := [];
      } else {
        outcome := if c.fails then Failed else if Istanbul(c.op).end == Reverts then Reverted else Fine;
        EndsHere(tape, f, c, outcome);
        f := f.(outcome := outcome);
        break;
      }
    }
    Telescope(tape, f);
  }

  lemma Telescope(tape: nat -> Cell, f: Frame)
    requires IsLedger(tape, f)
    ensures FeeSum(f.ledger) == Fee(WordsAfter(f))
    ensures f.given - GasAfter(f) == FeeSum(f.ledger) + RestSum(f.ledger)
  {
    FeesTelescope(tape, f);
    GasTelescopes(tape, f);
  }

  /** Executes an instruction that was paid for, and makes out its line. */
  method Perform(tape: nat -> Cell, mem: Memory, c: Cell, temp: nat, gas: nat, depth: nat, readOnly: bool, at: nat,
                 before: nat, ghost words: nat, ghost fee: nat)
    returns (left: nat, tick: nat, ret: Bytes, ghost e: Entry)
    requires Enough(c.op, c.scene.stack) && mem.Metered() && before < UINT64 && depth <= MAX_DEPTH + 1
    requires PaidFor(c.op, c.scene, before, words, fee, |mem.store| / 32, gas, temp)
    requires UsesMemory(c.op) ==> Reaches(|mem.store|, Reads(c.op, c.scene.stack).0, Reads(c.op, c.scene.stack).1)
    requires UsesMemory(c.op) ==> Reaches(|mem.store|, Writes(c.op, c.scene.stack).0, Writes(c.op, c.scene.stack).1)
    modifies mem`store
    ensures mem.Metered() && |mem.store| == |old(mem.store)| && |ret| <= MAX_MEMORY
    ensures !IsCall(c.op) && !IsCreate(c.op) ==>
      |ret| == if UsesMemory(c.op) then Reads(c.op, c.scene.stack).1 else 0
    ensures e.tick == at && e.next == tick && e.gas == before && e.words == words && e.grown == |mem.store| / 32
    ensures e.fee == fee && e.fee + e.rest + gas == before && e.passed == temp && e.taken <= gas
    ensures left == gas - e.taken + e.returned && Settled(tape, c, depth, readOnly, e, gas)
    ensures e.below.Some? ==> IsLedger(tape, e.below.value)
    ensures tick > at && left <= before && tick - at + 2 * left <= 2 * before + 1
    ensures Istanbul(c.op).end == Goes ==> left < before && tick - at + 2 * left <= 2 * before
    decreases before, 1
  {
    hide IsLedger, Ends, Fee, Istanbul, PaidFor, EvmGas.Reads, EvmGas.Writes, UsesMemory, Handed, Reaches, EndTick,
      CallReturns, CreateReturns, Ran, GasAfter;
    PaidLeaves(c.op, c.scene, before, words, fee, |mem.store| / 32, gas, temp);
    CreateGoes(c.op);
    CallsAreNotCreates(c.op);
    ret := [];
    ghost var taken, returned, below := 0, 0, None;
    if IsCall(c.op) {
      var handed := Handed(c.op, c.scene, temp);
      left, tick, returned, below := ExecuteCall(tape, mem, c, handed, gas, depth, readOnly, at + 1, before);
    } else if IsCreate(c.op) {
      taken := gas - gas / 64;
      left, tick, returned, below := ExecuteCreate(tape, mem, c, gas, depth, readOnly, at + 1, before);
    } else {
      ret := Execute(mem, c);
      left, tick := gas, at + 1;
    }
    e := Line(at, tick, before, words, |mem.store| / 32, fee, gas, temp, taken, returned, below);
    if IsCall(c.op) || IsCreate(c.op) {
      SettledBelow(tape, c, depth, readOnly, e, gas);
    }
  }

  /** The last line, if any, is of an instruction after which execution goes on. */
  ghost predicate Open(tape: nat -> Cell, f: Frame) {
    f.ledger != [] ==> GoesOn(tape(f.ledger[|f.ledger| - 1].tick))
  }

  lemma EmptyLedger(tape: nat -> Cell, f: Frame)
    requires f.ledger == []
    ensures IsLedger(tape, f) && Open(tape, f)
    ensures GasAfter(f) == f.given && WordsAfter(f) == 0 && TickAfter(f) == f.tick
  {
  }

  lemma EndsCancelled(tape: nat -> Cell, f: Frame)
    requires Open(tape, f) && f.outcome == Fine && tape(TickAfter(f)).cancelled && (|f.ledger| + 1) % 1000 == 0
    ensures Ends(tape, f) && EndTick(tape, f) == TickAfter(f) && ReturnSize(tape, f) == 0
  {
    hide GoesOn;
  }

  lemma EndsRefused(tape: nat -> Cell, f: Frame)
    requires IsLedger(tape, f) && Open(tape, f) && 0 <= GasAfter(f) < UINT64
    requires var c := tape(TickAfter(f));
      Admitted(c, f.readOnly) ==> !CanPay(c.op, c.scene, GasAfter(f), WordsAfter(f))
    ensures var f' := f.(outcome := Failed);
      && IsLedger(tape, f') && Ends(tape, f') && EndTick(tape, f') == TickAfter(f) + 1
      && GasAfter(f') == GasAfter(f) && WordsAfter(f') == WordsAfter(f)
  {
    hide GoesOn, CanPay, Admitted, Right, LinesRight;
    SameLines(tape, f, Failed);
  }

  /** The account does not depend on how the frame is said to have ended. */
  lemma SameLines(tape: nat -> Cell, f: Frame, outcome: Outcome)
    requires IsLedger(tape, f)
    ensures IsLedger(tape, f.(outcome := outcome))
  {
    hide Takes, Admitted, Joined;
    var f' := f.(outcome := outcome);
    forall i | 0 <= i < |f'.ledger| ensures Right(tape, f', f'.ledger[i]) {
      assert Right(tape, f, f.ledger[i]);
    }
  }

  lemma EndsHere(tape: nat -> Cell, f: Frame, c: Cell, outcome: Outcome)
    requires IsLedger(tape, f)
    requires f.ledger != [] && c == tape(f.ledger[|f.ledger| - 1].tick) && !GoesOn(c) && Istanbul(c.op).Operation?
    requires outcome == if c.fails then Failed else if Istanbul(c.op).end == Reverts then Reverted else Fine
    ensures var f' := f.(outcome := outcome);
      && IsLedger(tape, f') && Ends(tape, f') && EndTick(tape, f') == TickAfter(f)
      && GasAfter(f') == GasAfter(f) && WordsAfter(f') == WordsAfter(f)
      && (Enough(c.op, c.scene.stack) ==>
           ReturnSize(tape, f') == if UsesMemory(c.op) then Reads(c.op, c.scene.stack).1 else 0)
  {
    hide Istanbul, CanPay, Admitted, Right, LinesRight, EvmGas.Reads, UsesMemory;
    SameLines(tape, f, outcome);
  }

  /** Enters the line into the account. */
  lemma TakeDown(tape: nat -> Cell, f: Frame, c: Cell, e: Entry, paid: nat)
    requires IsLedger(tape, f) && Open(tape, f) && (e.below.Some? ==> IsLedger(tape, e.below.value))
    requires e.tick == TickAfter(f) && e.gas == GasAfter(f) && e.words == WordsAfter(f)
    requires c == tape(e.tick) && Admitted(c, f.readOnly) && e.fee + e.rest <= e.gas && paid == e.gas - e.fee - e.rest
    requires PaidFor(c.op, c.scene, e.gas, e.words, e.fee, e.grown, paid, e.passed)
    requires Settled(tape, c, f.depth, f.readOnly, e, paid) && e.taken <= paid
    ensures IsLedger(tape, Longer(f, e))
    ensures GasAfter(Longer(f, e)) == paid - e.taken + e.returned && WordsAfter(Longer(f, e)) == e.grown
    ensures TickAfter(Longer(f, e)) == e.next && Istanbul(c.op).Operation?
    ensures GoesOn(c) ==> Open(tape, Longer(f, e))
    ensures GoesOn(c) ==> Istanbul(c.op).end == Goes
    ensures !GoesOn(c) && !c.fails ==> !IsCall(c.op) && !IsCreate(c.op)
  {
    hide PaidFor, Settled, Istanbul, IsLedger;
    AdmittedKnown(c, f.readOnly);
    CreateGoes(c.op);
    LedgerGrows(tape, f, e);
  }

  lemma AdmittedKnown(c: Cell, readOnly: bool)
    requires Admitted(c, readOnly)
    ensures Istanbul(c.op).Operation?
  {
  }

  /** The instruction's data went where it writes, and nowhere else. */
  ghost predicate Wrote(c: Cell, before: Bytes, after: Bytes)
    requires Enough(c.op, c.scene.stack) && UsesMemory(c.op)
  {
    var (off, length) := Writes(c.op, c.scene.stack);
    && |after| == |before|
    && (forall i :: 0 <= i < length && i < |c.data| ==> off + i < |after| && after[off + i] == c.data[i])
    && (forall i :: 0 <= i < |after| && !(off <= i < off + length) ==> after[i] == before[i])
  }

  /** All other instructions: what they read of memory, and what they write there unless they fail. */
  method Execute(mem: Memory, c: Cell) returns (res: Bytes)
    requires Enough(c.op, c.scene.stack) && mem.Metered()
    requires UsesMemory(c.op) ==> Reaches(|mem.store|, Reads(c.op, c.scene.stack).0, Reads(c.op, c.scene.stack).1)
    requires UsesMemory(c.op) ==> Reaches(|mem.store|, Writes(c.op, c.scene.stack).0, Writes(c.op, c.scene.stack).1)
    modifies mem`store
    ensures mem.Metered() && |mem.store| == |old(mem.store)| && |res| <= MAX_MEMORY
    ensures |res| == if UsesMemory(c.op) then Reads(c.op, c.scene.stack).1 else 0
    ensures res != [] ==> var off := Reads(c.op, c.scene.stack).0;
      off + |res| <= |mem.store| && res == old(mem.store)[off..off + |res|]
    ensures if UsesMemory(c.op) && !c.fails then Wrote(c, old(mem.store), mem.store) else mem.store == old(mem.store)
  {
    hide Istanbul, EvmGas.Reads, EvmGas.Writes, UsesMemory;
    res := [];
    if UsesMemory(c.op) {
      var (roff, rlen) := Reads(c.op, c.scene.stack);
      res := ReadRegion(mem, roff, rlen);
      CutExact(|mem.store|, roff, rlen);
      if !c.fails {
        var (woff, wlen) := Writes(c.op, c.scene.stack);
        WriteRegion(mem, woff, wlen, c.data);
      }
    }
  }

  /** The call instructions: read the arguments, run the target, put back the answer and the gas left. */
  method ExecuteCall(tape: nat -> Cell, mem: Memory, c: Cell, handed: nat, gas: nat, depth: nat, readOnly: bool,
                     tick0: nat, before: nat)
    returns (left: nat, tick: nat, ghost returned: nat, ghost below: Option<Frame>)
    requires IsCall(c.op) && Enough(c.op, c.scene.stack) && UsesMemory(c.op) && mem.Metered()
    requires Reaches(|mem.store|, Reads(c.op, c.scene.stack).0, Reads(c.op, c.scene.stack).1)
    requires Reaches(|mem.store|, Writes(c.op, c.scene.stack).0, Writes(c.op, c.scene.stack).1)
    requires handed + 700 + gas <= before < UINT64 && depth <= MAX_DEPTH + 1
    modifies mem`store
    ensures mem.Metered() && |mem.store| == |old(mem.store)|
    ensures below.Some? && below.value.outcome != Failed ==> Wrote(c, old(mem.store), mem.store)
    ensures below.Some? && below.value.outcome == Failed ==> mem.store == old(mem.store)
    ensures returned <= handed && left == gas + returned && tick >= tick0
    ensures CallReturns(c.target, handed, depth, below, returned)
    ensures Ran(tape, below, handed, depth, readOnly || c.op == STATICCALL, tick0, tick)
    ensures tick - tick0 + 2 * left + 2 <= 2 * before
    decreases before, 0
  {
    hide Istanbul, EvmGas.Reads, EvmGas.Writes, UsesMemory, Reaches, CallReturns, Ran;
    var (roff, rlen) := Reads(c.op, c.scene.stack);
    var _ := ReadRegion(mem, roff, rlen);
    var unused, outcome, t, f := Call(tape, handed, depth, c.target, readOnly || c.op == STATICCALL, tick0);
    tick, returned, below := t, unused, f;
    if outcome != Failed {
      var (woff, wlen) := Writes(c.op, c.scene.stack);
      WriteRegion(mem, woff, wlen, c.data);
    }
    left := gas + unused;
  }

  method ExecuteCreate(tape: nat -> Cell, mem: Memory, c: Cell, gas: nat, depth: nat, readOnly: bool,
                       tick0: nat, before: nat)
    returns (left: nat, tick: nat, ghost returned: nat, ghost below: Option<Frame>)
    requires c.op in {CREATE, CREATE2} && Enough(c.op, c.scene.stack) && UsesMemory(c.op) && mem.Metered()
    requires Reaches(|mem.store|, Reads(c.op, c.scene.stack).0, Reads(c.op, c.scene.stack).1)
    requires gas + 32000 <= before < UINT64 && depth <= MAX_DEPTH + 1
    ensures returned <= gas - gas / 64 && left == gas / 64 + returned && tick >= tick0
    ensures CreateReturns(tape, c.target, Reads(c.op, c.scene.stack).1, gas - gas / 64, depth, below, returned)
    ensures Ran(tape, below, gas - gas / 64, depth, readOnly, tick0, tick)
    ensures tick - tick0 + 2 * left + 2 <= 2 * before
    decreases before, 0
  {
    hide Istanbul, EvmGas.Reads, UsesMemory, Reaches, CreateReturns, Ran;
    var (roff, rlen) := Reads(c.op, c.scene.stack);
    var code := ReadRegion(mem, roff, rlen);
    var handed := gas - gas / 64;
    var unused, _, t, _, f := Create(tape, handed, depth, c.target, code, readOnly, tick0);
    tick, returned, below := t, unused, f;
    left := gas - handed + unused;
  }

  /** Calls of all four kinds: what the callee has left comes back, nothing after a failure. */
  method Call(tape: nat -> Cell, gas: nat, depth: nat, target: Target, readOnly: bool, tick0: nat)
    returns (left: nat, outcome: Outcome, tick: nat, ghost below: Option<Frame>)
    requires gas < UINT64 && depth <= MAX_DEPTH + 1
    ensures left <= gas && tick >= tick0 && tick - tick0 + 2 * left <= 2 * gas + 1
    ensures CallReturns(target, gas, depth, below, left) && Ran(tape, below, gas, depth, readOnly, tick0, tick)
    ensures below.Some? ==> outcome == below.value.outcome
    ensures depth <= MAX_DEPTH && target in {Absent, NoCode} ==> outcome == Fine
    ensures depth <= MAX_DEPTH && target.Precompiled? ==> (outcome == Fine <==> target.works && target.cost <= gas)
    ensures depth > MAX_DEPTH || target == Refused ==> outcome == Failed
    ensures outcome == Failed && target != Refused && depth <= MAX_DEPTH ==> left == 0
    decreases gas, 3
  {
    hide IsLedger, Ends, Fee, FeeSum, RestSum, GasAfter, WordsAfter, EndTick, ReturnSize;
    below := None;
    if depth > MAX_DEPTH || target == Refused {
      return gas, Failed, tick0, None;
    }
    left, outcome, tick := gas, Fine, tick0;
    if target.Precompiled? {
      if gas < target.cost {
        left, outcome := 0, Failed;
      } else {
        left := gas - target.cost;
        outcome := if target.works then Fine else Failed;
      }
    } else if target == HasCode {
      var l, o, _, t, _, f := Run(tape, gas, depth + 1, readOnly, tick0);
      left, outcome, tick, below := l, o, t, Some(f);
    }
    if outcome == Failed {
      left := 0;
    }
  }

  /** Contract creation: the code it leaves is small enough and paid for by the byte, or everything is lost. */
  method Create(tape: nat -> Cell, gas: nat, depth: nat, target: Target, code: Bytes, readOnly: bool, tick0: nat)
    returns (left: nat, outcome: Outcome, tick: nat, ret: Bytes, ghost below: Option<Frame>)
    requires gas < UINT64 && depth <= MAX_DEPTH + 1
    ensures left <= gas && tick >= tick0 && tick - tick0 + 2 * left <= 2 * gas + 1
    ensures CreateReturns(tape, target, |code|, gas, depth, below, left)
    ensures Ran(tape, below, gas, depth, readOnly, tick0, tick)
    ensures outcome == Fine ==> |ret| <= MAX_CODE_SIZE && left + CREATE_DATA_GAS * |ret| <= gas
    ensures outcome == Failed && target != Refused && depth <= MAX_DEPTH ==> left == 0
    ensures depth > MAX_DEPTH || target == Refused ==> outcome == Failed && left == gas
    ensures depth <= MAX_DEPTH && target == Collides ==> outcome == Failed
    ensures depth <= MAX_DEPTH && target !in {Refused, Collides} && code == [] ==> outcome == Fine && left == gas
    decreases gas, 3
  {
    hide IsLedger, Ends, Fee, FeeSum, RestSum, GasAfter, WordsAfter, EndTick, ReturnSize;
    ret, below := [], None;
    if depth > MAX_DEPTH || target == Refused {
      return gas, Failed, tick0, ret, None;
    }
    if target == Collides {
      return 0, Failed, tick0, ret, None;
    }
    left, outcome, tick := gas, Fine, tick0;
    if code != [] {
      var l, o, r, t, _, f := Run(tape, gas, depth + 1, readOnly, tick0);
      left, outcome, ret, tick, below := l, o, r, t, Some(f);
    }
    left, outcome := KeepCode(left, outcome, ret);
  }

  /** Settles a finished creation: the code is stored at its price, or the gas is gone. */
  method KeepCode(gas: nat, ended: Outcome, ret: Bytes) returns (left: nat, outcome: Outcome)
    ensures outcome == Fine <==> ended == Fine && |ret| <= MAX_CODE_SIZE && CREATE_DATA_GAS * |ret| <= gas
    ensures outcome == Fine ==> left + CREATE_DATA_GAS * |ret| == gas
    ensures outcome == Reverted <==> ended == Reverted
    ensures outcome == Reverted ==> left == gas
    ensures outcome == Failed ==> left == 0
  {
    left, outcome := gas, ended;
    var tooLarge := |ret| > MAX_CODE_SIZE;
    if outcome == Fine && !tooLarge {
      Small(|ret| * CREATE_DATA_GAS);
      var dataGas := |ret| * CREATE_DATA_GAS % UINT64;
      if left >= dataGas {
        left := left - dataGas;
      } else {
        outcome := Failed;
      }
    }
    if tooLarge || outcome != Fine {
      if outcome != Reverted {
        left := 0;
      }
      if outcome == Fine {
        outcome := Failed;
      }
    }
  }
}
