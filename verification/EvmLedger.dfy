// The account of one frame: which instructions it took, what each was charged, and for what.
module EvmLedger {
  import opened Common
  import opened ByteStrings
  import opened EvmMemory
  import opened EvmGas

  const MAX_DEPTH: nat := 1024
  const MAX_CODE_SIZE: nat := 24576
  const CREATE_DATA_GAS: nat := 200

  datatype Outcome = Fine | Reverted | Failed

  /** What a call meets at its target. */
  datatype Target = Refused | Absent | Collides | NoCode | Precompiled(cost: nat, works: bool) | HasCode

  /**
   * One instruction as it is met at run time: opcode, surroundings, whether executing it fails, and the
   * bytes it puts into memory. Any execution of any program is a sequence of these.
   */
  datatype Cell = Cell(op: nat, scene: Scene, fails: bool, cancelled: bool, target: Target, data: Bytes)

  /** A known opcode with a stack that suits it, and no write where writing is forbidden. */
  predicate Admitted(c: Cell, readOnly: bool)
    ensures Admitted(c, readOnly) ==> Enough(c.op, c.scene.stack)
  {
    var o := Istanbul(c.op);
    && o.Operation?
    && o.pops <= |c.scene.stack| && |c.scene.stack| + o.pushes <= STACK_LIMIT + o.pops
    && !(readOnly && (o.writes || (c.op == CALL && c.scene.stack[2] != 0)))
  }

  predicate IsCreate(op: nat) { op in {CREATE, CREATE2} }

  // ------------------------------------------------ one instruction

  /** The words of memory an instruction needs, none if it uses no memory. */
  function NeededWords(op: nat, stack: seq<Word>): Size
    requires Enough(op, stack)
  {
    if !UsesMemory(op) then Fits(0)
    else
      var needed := MemorySize(op, stack);
      if needed.Overflows? || needed.n >= UINT64 || SafeMul(ToWordSize(needed.n), 32).Overflows? then Overflows
      else Fits(ToWordSize(needed.n))
  }

  /** What reaching from `words` to `grown` words costs. */
  ghost function Growth(words: nat, grown: nat): int { Fee(grown) - Fee(words) }

  ghost function Grown(op: nat, stack: seq<Word>, words: nat): nat
    requires Enough(op, stack) && NeededWords(op, stack).Fits?
  {
    Max(NeededWords(op, stack).n, words)
  }

  /** The gas suffices for the instruction, its memory included. */
  ghost predicate CanPay(op: nat, sc: Scene, gas: nat, words: nat)
    requires Enough(op, sc.stack) && gas < UINT64
  {
    && Istanbul(op).gas <= gas
    && NeededWords(op, sc.stack).Fits? && 32 * NeededWords(op, sc.stack).n <= MAX_MEMORY
    && var fee := Growth(words, Grown(op, sc.stack, words));
       0 <= fee < UINT64 && Affordable(op, sc, gas - Istanbul(op).gas, fee)
  }

  ghost predicate Affordable(op: nat, sc: Scene, gas: nat, fee: nat)
    requires Enough(op, sc.stack) && gas < UINT64 && fee < UINT64
  {
    var cost := DynamicGas(op, sc, gas, fee).0; cost.Fits? && cost.n <= gas
  }

  /** Exactly the metered part was taken, and for calls this much is to be passed on. */
  ghost predicate Charged(op: nat, sc: Scene, gas: nat, fee: nat, left: nat, temp: nat)
    requires Enough(op, sc.stack)
  {
    && gas < UINT64 && fee < UINT64
    && var (cost, pass) := DynamicGas(op, sc, gas, fee);
       cost.Fits? && left + cost.n == gas && temp == pass
  }

  /** The instruction was paid for: memory grew to what it needs, and its growth is part of the price. */
  ghost predicate PaidFor(op: nat, sc: Scene, gas: nat, words: nat, fee: nat, grown: nat, left: nat, temp: nat)
    requires Enough(op, sc.stack)
  {
    && NeededWords(op, sc.stack).Fits? && grown == Grown(op, sc.stack, words) && 32 * grown <= MAX_MEMORY
    && fee == Growth(words, grown)
    && Istanbul(op).gas <= gas && Charged(op, sc, gas - Istanbul(op).gas, fee, left, temp)
  }

  // ------------------------------------------------ lines and frames

  /**
   * One line of the account: where the tape stood before and after, gas and memory before, memory after,
   * the fee for memory, everything else charged, what of that a call passes on, the gas a creation takes
   * along, the gas that came back, and the frame that ran in between, if any.
   */
  datatype Entry = Entry(tick: nat, next: nat, gas: nat, words: nat, grown: nat, fee: nat, rest: nat,
                         passed: nat, taken: nat, returned: nat, below: Option<Frame>)

  /** A frame: what it was given, where it began on the tape, how deep it is, how it ended, and its account. */
  datatype Frame = Frame(given: nat, tick: nat, depth: nat, readOnly: bool, outcome: Outcome, ledger: seq<Entry>)

  function After(e: Entry): int { e.gas - e.fee - e.rest - e.taken + e.returned }

  function GasAfter(f: Frame): int {
    if f.ledger == [] then f.given else After(f.ledger[|f.ledger| - 1])
  }

  function WordsAfter(f: Frame): nat {
    if f.ledger == [] then 0 else f.ledger[|f.ledger| - 1].grown
  }

  function TickAfter(f: Frame): nat {
    if f.ledger == [] then f.tick else f.ledger[|f.ledger| - 1].next
  }

  /** Execution goes on after the instruction. */
  predicate GoesOn(c: Cell) {
    var o := Istanbul(c.op);
    o.Operation? && o.end == Goes && (c.fails ==> IsCall(c.op) || IsCreate(c.op))
  }

  /** The frame's last line is of an instruction that ends it. */
  predicate Over(tape: nat -> Cell, f: Frame) {
    f.ledger != [] && !GoesOn(tape(f.ledger[|f.ledger| - 1].tick))
  }

  /** The frame ended the way it says, for a reason the tape gives. */
  ghost predicate Ends(tape: nat -> Cell, f: Frame) {
    var gas, c := GasAfter(f), tape(TickAfter(f));
    match f.outcome
    case Fine =>
      if Over(tape, f) then LastEnds(tape, f, Halts) else c.cancelled && (|f.ledger| + 1) % 1000 == 0
    case Reverted => Over(tape, f) && LastEnds(tape, f, Reverts)
    case Failed =>
      if Over(tape, f) then tape(f.ledger[|f.ledger| - 1].tick).fails
      else 0 <= gas < UINT64 && (Admitted(c, f.readOnly) ==> !CanPay(c.op, c.scene, gas, WordsAfter(f)))
  }

  ghost predicate LastEnds(tape: nat -> Cell, f: Frame, end: End)
    requires f.ledger != []
  {
    var c := tape(f.ledger[|f.ledger| - 1].tick);
    !c.fails && Istanbul(c.op).Operation? && Istanbul(c.op).end == end
  }

  /** Where the tape stands when the frame is done: an instruction that could not be paid was taken off it. */
  ghost function EndTick(tape: nat -> Cell, f: Frame): nat {
    if f.outcome == Failed && !Over(tape, f) then TickAfter(f) + 1 else TickAfter(f)
  }

  /** How much the frame returns: what its last instruction reads from memory. */
  ghost function ReturnSize(tape: nat -> Cell, f: Frame): nat {
    if !Over(tape, f) then 0
    else
      var c := tape(f.ledger[|f.ledger| - 1].tick);
      if UsesMemory(c.op) && Enough(c.op, c.scene.stack) then Reads(c.op, c.scene.stack).1 else 0
  }

  // ------------------------------------------------ what comes back

  /** The gas a call gets back: all of it from nobody, what is left of it otherwise, nothing after a failure. */
  ghost predicate CallReturns(target: Target, handed: nat, depth: nat, below: Option<Frame>, returned: nat) {
    if depth > MAX_DEPTH || target in {Refused, Absent, NoCode, Collides} then below == None && returned == handed
    else if target.Precompiled? then
      below == None && returned == if target.works && target.cost <= handed then handed - target.cost else 0
    else
      below.Some? && returned == if below.value.outcome == Failed then 0 else GasAfter(below.value)
  }

  /** The gas a creation gets back: what is left once the code it leaves is paid for by the byte. */
  ghost predicate CreateReturns(tape: nat -> Cell, target: Target, size: nat, taken: nat, depth: nat,
                                below: Option<Frame>, returned: nat)
  {
    if depth > MAX_DEPTH || target == Refused then below == None && returned == taken
    else if target == Collides then below == None && returned == 0
    else if size == 0 then below == None && returned == taken
    else
      && below.Some?
      && var f := below.value;
         var price := CREATE_DATA_GAS * ReturnSize(tape, f);
         returned ==
           if f.outcome == Reverted then GasAfter(f)
           else if f.outcome == Fine && ReturnSize(tape, f) <= MAX_CODE_SIZE && price <= GasAfter(f) then
             GasAfter(f) - price
           else 0
  }

  /** A frame that runs for an instruction begins right behind it, one deeper, with what it was handed. */
  predicate Opened(f: Frame, e: Entry, handed: nat, depth: nat, readOnly: bool) {
    f.given == handed && f.tick == e.tick + 1 && f.depth == depth + 1 && f.readOnly == readOnly
  }

  ghost predicate BelowRight(tape: nat -> Cell, e: Entry, handed: nat, depth: nat, readOnly: bool) {
    match e.below
    case None => e.next == e.tick + 1
    case Some(f) => Opened(f, e, handed, depth, readOnly) && Ends(tape, f) && e.next == EndTick(tape, f)
  }

  /** Gas that is passed on is taken first; what comes back is what the frame below has left. */
  ghost predicate Settled(tape: nat -> Cell, c: Cell, depth: nat, readOnly: bool, e: Entry, left: nat)
    requires Enough(c.op, c.scene.stack)
  {
    if IsCall(c.op) then
      var handed := Handed(c.op, c.scene, e.passed);
      && e.taken == 0 && CallReturns(c.target, handed, depth, e.below, e.returned)
      && BelowRight(tape, e, handed, depth, readOnly || c.op == STATICCALL)
    else if IsCreate(c.op) then
      && e.taken == left - left / 64
      && CreateReturns(tape, c.target, Reads(c.op, c.scene.stack).1, e.taken, depth, e.below, e.returned)
      && BelowRight(tape, e, e.taken, depth, readOnly)
    else e.taken == 0 && e.returned == 0 && e.next == e.tick + 1 && e.below == None
  }

  /** The line is right for the instruction. */
  ghost predicate Takes(tape: nat -> Cell, depth: nat, readOnly: bool, c: Cell, e: Entry) {
    && Enough(c.op, c.scene.stack) && e.fee + e.rest <= e.gas && 0 <= After(e)
    && PaidFor(c.op, c.scene, e.gas, e.words, e.fee, e.grown, e.gas - e.fee - e.rest, e.passed)
    && Settled(tape, c, depth, readOnly, e, e.gas - e.fee - e.rest)
  }

  // ------------------------------------------------ the account of a frame

  ghost predicate Right(tape: nat -> Cell, f: Frame, e: Entry) {
    Admitted(tape(e.tick), f.readOnly) && Takes(tape, f.depth, f.readOnly, tape(e.tick), e)
  }

  ghost predicate Follows(a: Entry, b: Entry) {
    b.tick == a.next && b.gas == After(a) && b.words == a.grown
  }

  ghost predicate Joined(tape: nat -> Cell, ledger: seq<Entry>, i: nat)
    requires 0 < i < |ledger|
  {
    Follows(ledger[i - 1], ledger[i]) && GoesOn(tape(ledger[i - 1].tick))
  }

  /** Every line right, each starting from where the one before ended; the first from a fresh frame. */
  ghost predicate LinesRight(tape: nat -> Cell, f: Frame) {
    var ledger := f.ledger;
    && (forall i :: 0 <= i < |ledger| ==> Right(tape, f, ledger[i]))
    && (ledger != [] ==> ledger[0].tick == f.tick && ledger[0].gas == f.given && ledger[0].words == 0)
    && (forall i :: 0 < i < |ledger| ==> Joined(tape, ledger, i))
  }

  /** The account is right, and so are the accounts of all frames below. */
  ghost predicate IsLedger(tape: nat -> Cell, f: Frame)
    decreases f
  {
    && LinesRight(tape, f)
    && forall i :: 0 <= i < |f.ledger| && f.ledger[i].below.Some? ==> IsLedger(tape, f.ledger[i].below.value)
  }

  function FeeSum(ledger: seq<Entry>): nat {
    if ledger == [] then 0 else FeeSum(ledger[..|ledger| - 1]) + ledger[|ledger| - 1].fee
  }

  /** All else the frame parted with: instruction prices and the gas passed on, less what came back. */
  function RestSum(ledger: seq<Entry>): int {
    if ledger == [] then 0
    else
      var e := ledger[|ledger| - 1];
      RestSum(ledger[..|ledger| - 1]) + e.rest + e.taken - e.returned
  }

  /** The frame before its last line. */
  ghost function Shorter(f: Frame): Frame
    requires f.ledger != []
  {
    f.(ledger := f.ledger[..|f.ledger| - 1])
  }

  lemma PrefixLedger(tape: nat -> Cell, f: Frame)
    requires LinesRight(tape, f) && f.ledger != []
    ensures LinesRight(tape, Shorter(f))
  {
    hide Takes, Follows, GoesOn, Admitted;
    var l := Shorter(f).ledger;
    forall i | 0 <= i < |l| ensures Right(tape, Shorter(f), l[i]) {
      assert Right(tape, f, f.ledger[i]);
    }
    forall i | 0 < i < |l| ensures Joined(tape, l, i) {
      assert Joined(tape, f.ledger, i);
    }
  }

  /** What a frame pays for memory, step by step, is in all the fee of the size it ends with. */
  lemma {:induction false} FeesTelescope(tape: nat -> Cell, f: Frame)
    requires LinesRight(tape, f)
    ensures FeeSum(f.ledger) == Fee(WordsAfter(f))
    decreases |f.ledger|
  {
    hide Fee, NeededWords, Charged, Settled;
    ZeroFee();
    if f.ledger != [] {
      var n := |f.ledger| - 1;
      PrefixLedger(tape, f);
      FeesTelescope(tape, Shorter(f));
      assert Right(tape, f, f.ledger[n]);
      if n > 0 { assert Joined(tape, f.ledger, n); }
    }
  }

  /** No gas is lost track of: what is missing at the end is what was charged for memory and all else. */
  lemma {:induction false} GasTelescopes(tape: nat -> Cell, f: Frame)
    requires LinesRight(tape, f)
    ensures f.given - GasAfter(f) == FeeSum(f.ledger) + RestSum(f.ledger)
    decreases |f.ledger|
  {
    hide Right;
    if f.ledger != [] {
      var n := |f.ledger| - 1;
      PrefixLedger(tape, f);
      GasTelescopes(tape, Shorter(f));
      if n > 0 { assert Joined(tape, f.ledger, n); }
    }
  }

  /** The frame with one more line. */
  ghost function Longer(f: Frame, e: Entry): Frame { f.(ledger := f.ledger + [e]) }

  lemma LedgerGrows(tape: nat -> Cell, f: Frame, e: Entry)
    requires IsLedger(tape, f) && Right(tape, f, e) && (e.below.Some? ==> IsLedger(tape, e.below.value))
    requires f.ledger != [] ==> GoesOn(tape(f.ledger[|f.ledger| - 1].tick))
    requires e.tick == TickAfter(f) && e.gas == GasAfter(f) && e.words == WordsAfter(f)
    ensures IsLedger(tape, Longer(f, e))
    ensures GasAfter(Longer(f, e)) == After(e) && WordsAfter(Longer(f, e)) == e.grown
    ensures TickAfter(Longer(f, e)) == e.next
  {
    hide LinesRight, Right;
    LinesGrow(tape, f, e);
    var l := Longer(f, e).ledger;
    forall i | 0 <= i < |l| && l[i].below.Some? ensures IsLedger(tape, l[i].below.value) {
      assert i < |f.ledger| ==> l[i] == f.ledger[i];
    }
  }

  lemma LinesGrow(tape: nat -> Cell, f: Frame, e: Entry)
    requires LinesRight(tape, f) && Right(tape, f, e)
    requires f.ledger != [] ==> GoesOn(tape(f.ledger[|f.ledger| - 1].tick))
    requires e.tick == TickAfter(f) && e.gas == GasAfter(f) && e.words == WordsAfter(f)
    ensures LinesRight(tape, Longer(f, e))
  {
    hide Takes, GoesOn, Admitted;
    var l := f.ledger + [e];
    forall i | 0 <= i < |l| ensures Right(tape, Longer(f, e), l[i]) {
      assert i < |f.ledger| ==> Right(tape, f, f.ledger[i]);
    }
    forall i | 0 < i < |l| ensures Joined(tape, l, i) {
      if i < |f.ledger| { assert Joined(tape, f.ledger, i); }
    }
  }
}
