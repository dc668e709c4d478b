// Refunds for clearing storage: the counter always covers what may still be taken back.
module Refund {
  import opened Common
  import opened ByteStrings
  import opened Iterators
  import opened JoinIterator
  import opened MemDBStore
  import opened CacheStore
  import opened StateStore

  const CLEARS: nat := 15000
  const SELFDESTRUCT: nat := 24000
  const SENTRY: nat := 2300

  /** The metering rules a chain may be under. */
  datatype Rules = Legacy | NetEip1283 | NetEip2200

  /** What one SSTORE costs and what it takes from, then adds to, the refund counter. */
  datatype Charge = Charge(cost: nat, sub: nat, add: nat)

  function ZeroWord(): Bytes { seq(WORD, i => 0) }

  function Metered(rules: Rules, original: Bytes, current: Bytes, value: Bytes): Charge {
    var zero := ZeroWord();
    match rules
    case Legacy =>
      if current == zero && value != zero then Charge(20000, 0, 0)
      else if current != zero && value == zero then Charge(5000, 0, CLEARS)
      else Charge(5000, 0, 0)
    case NetEip1283 => Net(original, current, value, 200)
    case NetEip2200 => Net(original, current, value, 800)
  }

  /** Net metering with the given price for a slot already touched. */
  function Net(original: Bytes, current: Bytes, value: Bytes, dirty: nat): Charge
    requires dirty <= 5000
  {
    var zero := ZeroWord();
    if current == value then Charge(dirty, 0, 0)
    else if original == current then
      if original == zero then Charge(20000, 0, 0)
      else Charge(5000, 0, if value == zero then CLEARS else 0)
    else
      var reset := if original != value then 0 else if original == zero then 20000 - dirty else 5000 - dirty;
      if original == zero then Charge(dirty, 0, reset)
      else if current == zero then Charge(dirty, CLEARS, reset)
      else if value == zero then Charge(dirty, 0, CLEARS + reset)
      else Charge(dirty, 0, reset)
  }

  // ------------------------------------------------ net metering

  /** What a slot that was already changed has been promised back: for being clear, and for being as it was. */
  function Promised(original: Bytes, current: Bytes, dirty: nat): int {
    var zero := ZeroWord();
    (if original != zero && current == zero then CLEARS else 0)
    + (if current != original then 0 else if original == zero then 20000 - dirty else 5000 - dirty)
  }

  /**
   * How a store is charged: nothing changes for the touching price; a slot still as it was pays to be set
   * or changed, and is paid back only for being cleared; one already changed pays the touching price, and
   * the counter moves by what the slot is promised after and before.
   */
  lemma NetSplit(original: Bytes, current: Bytes, value: Bytes, dirty: nat)
    requires dirty <= 5000
    ensures var c, zero := Net(original, current, value, dirty), ZeroWord();
      && (current == value ==> c == Charge(dirty, 0, 0))
      && (current != value && current == original ==>
           && c.cost == (if original == zero then 20000 else 5000)
           && c.sub == 0 && c.add == if original != zero && value == zero then 15000 else 0)
      && (current != value && current != original ==>
           && c.cost == dirty
           && c.add - c.sub == Promised(original, value, dirty) - Promised(original, current, dirty)
           && c.sub == if original != zero && current == zero then 15000 else 0)
  {
    hide ZeroWord;
  }

  /** The older rules: setting a clear slot costs more, clearing a set one is paid back. */
  lemma LegacySplit(original: Bytes, current: Bytes, value: Bytes)
    ensures var c, zero := Metered(Legacy, original, current, value), ZeroWord();
      && (c.cost == 20000 <==> current == zero && value != zero) && (c.cost != 20000 ==> c.cost == 5000)
      && c.sub == 0 && (c.add == 15000 <==> current != zero && value == zero) && (c.add != 15000 ==> c.add == 0)
  {
    hide ZeroWord;
  }

  /** What a slot's state is worth, beyond the price of touching it. */
  function Worth(original: Bytes, current: Bytes, dirty: nat): int {
    if current == original then 0
    else if original == ZeroWord() then 20000 - dirty
    else if current == ZeroWord() then 5000 - dirty - CLEARS
    else 5000 - dirty
  }

  /** Gas charged less refunds granted over a sequence of stores to one slot. */
  function NetCost(original: Bytes, current: Bytes, values: seq<Bytes>, dirty: nat): int
    requires dirty <= 5000
    decreases |values|
  {
    if values == [] then 0
    else
      var c := Net(original, current, values[0], dirty);
      c.cost + c.sub - c.add + NetCost(original, values[0], values[1..], dirty)
  }

  /**
   * The metering is net: however often a slot is written within a transaction, what the stores cost
   * together is the price of touching it that often plus what its final value is worth.
   */
  lemma {:induction false} MeteringIsNet(original: Bytes, current: Bytes, values: seq<Bytes>, dirty: nat)
    requires dirty <= 5000
    ensures NetCost(original, current, values, dirty) ==
      dirty * |values| + Worth(original, Final(current, values), dirty) - Worth(original, current, dirty)
    decreases |values|
  {
    hide Worth, Net;
    if values != [] {
      OneStoreIsNet(original, current, values[0], dirty);
      MeteringIsNet(original, values[0], values[1..], dirty);
      assert dirty * |values| == dirty + dirty * |values[1..]|;
    }
  }

  lemma OneStoreIsNet(original: Bytes, current: Bytes, value: Bytes, dirty: nat)
    requires dirty <= 5000
    ensures var c := Net(original, current, value, dirty);
      c.cost + c.sub - c.add == dirty + Worth(original, value, dirty) - Worth(original, current, dirty)
  {
    hide ZeroWord;
  }

  function Final(current: Bytes, values: seq<Bytes>): Bytes {
    if values == [] then current else values[|values| - 1]
  }

  // ------------------------------------------------ slots

  predicate IsSlot(k: Bytes) { k != [] && k[0] == STORAGE }

  ghost function Original(b: Store, k: Bytes): Bytes { ToHash(View(map[], b, k)) }

  ghost function Current(m: Store, b: Store, k: Bytes): Bytes { ToHash(View(m, b, k)) }

  /** The slots that were non-zero at the last commit and are zero now. */
  ghost function Cleared(m: Store, b: Store): set<Bytes> {
    set k | k in b.Keys && IsSlot(k) && Original(b, k) != ZeroWord() && Current(m, b, k) == ZeroWord()
  }

  ghost predicate Solvent(s: Saved, b: Store) {
    s.refund >= CLEARS * |Cleared(s.contents, b)|
  }

  lemma OriginalNonzero(b: Store, k: Bytes)
    requires Original(b, k) != ZeroWord()
    ensures k in b
  {
  }

  /** Writing one slot changes the cleared slots by that slot at most, and says how. */
  lemma ClearedAfterWrite(m: Store, b: Store, k: Bytes, value: Bytes)
    requires IsSlot(k) && |value| == WORD
    ensures var was, after := Cleared(m, b), Cleared(m[k := value], b);
      if Original(b, k) == ZeroWord() then after == was
      else if value == ZeroWord() then after == was + {k} && (k in was <==> Current(m, b, k) == ZeroWord())
      else after == was - {k} && (k in was <==> Current(m, b, k) == ZeroWord())
  {
    hide ToHash;
    var m' := m[k := value];
    assert forall x :: x != k ==> Current(m', b, x) == Current(m, b, x);
    assert Current(m', b, k) == value;
    if Original(b, k) != ZeroWord() { OriginalNonzero(b, k); }
  }

  lemma ClearedCount(m: Store, b: Store, k: Bytes, value: Bytes)
    requires IsSlot(k) && |value| == WORD
    ensures var was, after := |Cleared(m, b)|, |Cleared(m[k := value], b)|;
      && (Original(b, k) == ZeroWord() ==> after == was)
      && (Original(b, k) != ZeroWord() && value == ZeroWord() ==>
          after == if Current(m, b, k) == ZeroWord() then was else was + 1)
      && (Original(b, k) != ZeroWord() && value != ZeroWord() ==>
          after == if Current(m, b, k) == ZeroWord() then was - 1 else was)
  {
    hide Cleared, Original, Current, ZeroWord;
    ClearedAfterWrite(m, b, k, value);
    var was, after := Cleared(m, b), Cleared(m[k := value], b);
    if Original(b, k) != ZeroWord() {
      if value == ZeroWord() {
        if k in was { assert was + {k} == was; }
      } else {
        if k !in was { assert was - {k} == was; }
      }
    }
  }

  lemma OtherKeysDoNotMatter(m: Store, b: Store, k: Bytes, v: Bytes)
    requires !IsSlot(k)
    ensures Cleared(m[k := v], b) == Cleared(m, b)
  {
  }

  lemma NothingClearedAfterCommit(b: Store)
    ensures Cleared(map[], b) == {}
  {
  }

  // ------------------------------------------------ one metered store

  ghost function ChargeFor(rules: Rules, m: Store, b: Store, k: Bytes, value: Bytes): Charge {
    Metered(rules, Original(b, k), Current(m, b, k), value)
  }

  /** The counter can always pay what is taken back, and still covers the cleared slots after the write. */
  lemma StoreStaysSolvent(rules: Rules, s: Saved, b: Store, k: Bytes, value: Bytes)
    requires Solvent(s, b) && IsSlot(k) && |value| == WORD
    ensures var c := ChargeFor(rules, s.contents, b, k, value);
      && c.sub <= s.refund
      && s.refund - c.sub + c.add >= CLEARS * |Cleared(s.contents[k := value], b)|
  {
    hide Cleared, Original, Current, ZeroWord;
    ClearedCount(s.contents, b, k, value);
  }

  /** Charged by the rules, with the counter good for the write that is to follow. */
  ghost predicate MeteredStore(rules: Rules, before: Saved, after: Saved, b: Store, k: Bytes, value: Bytes, cost: nat) {
    var c := ChargeFor(rules, before.contents, b, k, value);
    && cost == c.cost && c.sub <= before.refund && after == before.(refund := before.refund - c.sub + c.add)
    && Solvent(after.(contents := after.contents[k := value]), b)
  }

  /** The metering step as the interpreter takes it: refund first, gas afterwards. */
  method GasSStore(db: StateDB, rules: Rules, contract: Bytes, key: Bytes, value: Bytes)
    returns (cost: nat, panics: bool)
    requires db.Valid() && |value| == WORD
    requires Solvent(db.Now(), db.cacheDB.backend) && db.refund + SELFDESTRUCT < UINT64
    modifies db`refund, db.cacheDB.memdb`prevNode
    ensures db.Valid() && !panics
    ensures db.cacheDB.backend == old(db.cacheDB.backend) && db.saved == old(db.saved)
    ensures MeteredStore(rules, old(db.Now()), db.Now(), db.cacheDB.backend, SlotKey(contract, key), value, cost)
  {
    hide Cleared, MemDB.Valid, View, ToHash, Metered, ZeroWord, StateDB.Valid;
    ghost var now, b := db.Now(), db.cacheDB.backend;
    var current := db.GetState(contract, key);
    var original := db.GetCommittedState(contract, key);
    var c := Metered(rules, original, current, value);
    StoreStaysSolvent(rules, now, b, SlotKey(contract, key), value);
    ChargeSmall(rules, original, current, value);
    cost := c.cost;
    panics := Settle(db, c);
  }

  /** Takes back first, adds afterwards; panics when there is too little to take. */
  method Settle(db: StateDB, c: Charge) returns (panics: bool)
    requires db.Valid() && db.refund + c.add < UINT64
    modifies db`refund
    ensures db.Valid() && (panics <==> c.sub > old(db.refund))
    ensures db.saved == old(db.saved)
    ensures !panics ==> db.Now() == old(db.Now()).(refund := old(db.refund) - c.sub + c.add)
  {
    hide MemDB.Valid, StateDB.Valid;
    if c.sub > 0 {
      var ok := db.SubRefund(c.sub);
      if !ok {
        return true;
      }
    }
    if c.add > 0 {
      db.AddRefund(c.add);
    }
    return false;
  }

  lemma ChargeSmall(rules: Rules, original: Bytes, current: Bytes, value: Bytes)
    ensures Metered(rules, original, current, value).add <= SELFDESTRUCT
  {
  }

  // ------------------------------------------------ whole runs

  /** Everything a run of transactions does that the counter could notice. */
  datatype Step =
    | Sstore(rules: Rules, k: Bytes, value: Bytes, gas: nat)
    | Selfdestruct
    | Account(k: Bytes, v: Bytes)
    | TakeSnapshot
    | RevertTo(idx: nat)
    | CommitAll(backend: Store)

  /** `unwinding`: an instruction failed and the frame's snapshot is about to be restored. */
  datatype World = World(now: Saved, saved: seq<Saved>, backend: Store, unwinding: bool, panicked: bool)

  ghost predicate Enabled(w: World, s: Step) {
    && !w.panicked
    && (w.unwinding ==> s.RevertTo?)
    && match s
       case Sstore(_, k, value, gas) => IsSlot(k) && |value| == WORD
       case Account(k, _) => !IsSlot(k)
       case RevertTo(i) => i < |w.saved|
       case _ => true
  }

  ghost function Apply(w: World, s: Step): World
    requires Enabled(w, s)
  {
    match s
    case Sstore(rules, k, value, gas) =>
      if rules == NetEip2200 && gas <= SENTRY then w.(unwinding := true)
      else
        var c := ChargeFor(rules, w.now.contents, w.backend, k, value);
        if c.sub > w.now.refund then w.(panicked := true)
        else
          var metered := w.now.(refund := (w.now.refund - c.sub + c.add) % UINT64);
          if gas < c.cost then w.(now := metered, unwinding := true)
          else w.(now := metered.(contents := metered.contents[k := value]))
    case Selfdestruct => w.(now := w.now.(refund := (w.now.refund + SELFDESTRUCT) % UINT64))
    case Account(k, v) => w.(now := w.now.(contents := w.now.contents[k := v]))
    case TakeSnapshot => w.(saved := w.saved + [w.now])
    case RevertTo(i) => w.(now := w.saved[i], saved := w.saved[..i], unwinding := false)
    case CommitAll(b) => World(w.now.(contents := map[]), [], b, false, false)
  }

  /** The steps do to the state and its snapshots what the state does: take, revert to, or write one slot. */
  lemma StepsAreStates(w: World, s: Step)
    requires Enabled(w, s)
    ensures var before, after := Stack(w.now, w.saved), Stack(Apply(w, s).now, Apply(w, s).saved);
      match s
      case TakeSnapshot => after == Do(before, Take)
      case RevertTo(i) => after == Do(before, Revert(i))
      case Account(k, v) => after == Do(before, Write(w.now.(contents := w.now.contents[k := v])))
      case Selfdestruct => after == Do(before, Write(w.now.(refund := (w.now.refund + 24000) % UINT64)))
      case Sstore(rules, k, value, gas) =>
        && after.saved == before.saved && after.now.suicided == before.now.suicided && after.now.logs == before.now.logs
        && (after.now.contents == before.now.contents || after.now.contents == before.now.contents[k := value])
        && (!Apply(w, s).unwinding && !Apply(w, s).panicked ==> after.now.contents == before.now.contents[k := value])
      case CommitAll(b) => after == Stack(w.now.(contents := map[]), [])
  {
    hide ChargeFor;
  }

  ghost predicate Inv(w: World, steps: nat) {
    && !w.panicked
    && (!w.unwinding ==> Solvent(w.now, w.backend)) && w.now.refund <= SELFDESTRUCT * steps
    && forall i :: 0 <= i < |w.saved| ==> Solvent(w.saved[i], w.backend) && w.saved[i].refund <= SELFDESTRUCT * steps
  }

  lemma StepInv(w: World, s: Step, steps: nat)
    requires Inv(w, steps) && Enabled(w, s) && SELFDESTRUCT * (steps + 1) < UINT64
    ensures Inv(Apply(w, s), steps + 1)
  {
    hide Cleared, Original, Current, ZeroWord, Metered;
    match s
    case Sstore(rules, k, value, gas) =>
      StoreStaysSolvent(rules, w.now, w.backend, k, value);
      ChargeSmall(rules, Original(w.backend, k), Current(w.now.contents, w.backend, k), value);
    case Account(k, v) => OtherKeysDoNotMatter(w.now.contents, w.backend, k, v);
    case CommitAll(b) => NothingClearedAfterCommit(b);
    case _ =>
  }

  ghost predicate StepAt(run: seq<World>, steps: seq<Step>, i: nat)
    requires i + 1 < |run| && i < |steps|
  {
    Enabled(run[i], steps[i]) && run[i + 1] == Apply(run[i], steps[i])
  }

  ghost predicate IsRun(run: seq<World>, steps: seq<Step>) {
    && |run| == |steps| + 1
    && run[0] == World(Saved(map[], {}, [], 0), [], run[0].backend, false, false)
    && forall i :: 0 <= i < |steps| ==> StepAt(run, steps, i)
  }

  lemma {:induction false} RunInv(run: seq<World>, steps: seq<Step>, i: nat)
    requires IsRun(run, steps) && i < |run| && SELFDESTRUCT * |steps| < UINT64
    ensures Inv(run[i], i)
  {
    if i == 0 {
      NothingClearedAfterCommit(run[0].backend);
    } else {
      RunInv(run, steps, i - 1);
      assert StepAt(run, steps, i - 1);
      StepInv(run[i - 1], steps[i - 1], i - 1);
    }
  }

  /**
   * Over every run of stores, self-destructs, snapshots, reverts and commits, under any mix of the
   * rules, the counter never goes below zero and outside a failing frame covers 15000 for every slot
   * that was set at the last commit and is clear now.
   */
  lemma RefundNeverNegative(run: seq<World>, steps: seq<Step>)
    requires IsRun(run, steps) && SELFDESTRUCT * |steps| < UINT64
    ensures forall i :: 0 <= i < |run| ==> !run[i].panicked
    ensures forall i :: 0 <= i < |run| && !run[i].unwinding ==> Solvent(run[i].now, run[i].backend)
  {
    forall i | 0 <= i < |run| ensures Inv(run[i], i) {
      RunInv(run, steps, i);
    }
  }

  // ------------------------------------------------ clearing suicided storage without committing

  /** The slots of suicided addresses that were set at the last commit. */
  ghost function DeadSlots(b: Store, gone: set<Bytes>): set<Bytes> {
    set k | k in b.Keys && IsSlot(k) && Dead(k, gone) && Original(b, k) != ZeroWord()
  }

  /** Emptying suicided addresses adds exactly their set slots to the cleared ones. */
  lemma CleaningClears(m: Store, m': Store, b: Store, gone: set<Bytes>)
    requires Cleaned(m, m', b, gone)
    ensures Cleared(m', b) == Cleared(m, b) + DeadSlots(b, gone)
  {
    hide Dead, View;
    assert ToHash([]) == ZeroWord();
    forall k ensures k in Cleared(m', b) <==> k in Cleared(m, b) + DeadSlots(b, gone) {
      assert View(m', b, k) == if Dead(k, gone) then [] else View(m, b, k);
    }
  }

  /**
   * Suicided addresses may be emptied without committing exactly when the counter also covers their set
   * slots. The commit that always follows makes that unnecessary.
   */
  lemma CleaningAloneSolvent(s: Saved, m': Store, b: Store, gone: set<Bytes>)
    requires Cleaned(s.contents, m', b, gone)
    ensures Solvent(s.(contents := m'), b) <==>
      s.refund >= CLEARS * |Cleared(s.contents, b) + DeadSlots(b, gone)|
  {
    hide Cleared, DeadSlots;
    CleaningClears(s.contents, m', b, gone);
  }

  /** Setting a slot that was set at the last commit and is clear now takes 15000 off the counter. */
  lemma SetAgain(w: World, k: Bytes, v: Bytes, x: Bytes)
    requires IsSlot(k) && |v| == |x| == WORD && v != ZeroWord() && x != ZeroWord() && x != v
    requires !w.panicked && !w.unwinding && w.now.refund < UINT64
    requires k in w.backend && w.backend[k] == v && View(w.now.contents, w.backend, k) == []
    ensures var s := Sstore(NetEip2200, k, x, 5000);
      && Enabled(w, s)
      && Apply(w, s) == if w.now.refund < CLEARS then w.(panicked := true)
                        else w.(now := w.now.(refund := w.now.refund - CLEARS, contents := w.now.contents[k := x]))
  {
    hide ChargeFor, ZeroWord, View;
    SetAgainCharge(w.now.contents, w.backend, k, v, x);
  }

  lemma SetAgainCharge(m: Store, b: Store, k: Bytes, v: Bytes, x: Bytes)
    requires |v| == |x| == WORD && v != ZeroWord() && x != ZeroWord() && x != v
    requires k in b && b[k] == v && View(m, b, k) == []
    ensures ChargeFor(NetEip2200, m, b, k, x) == Charge(800, CLEARS, 0)
  {
    SlotWas(m, b, k, v);
    hide Original, Current, ZeroWord, View;
  }

  lemma SlotWas(m: Store, b: Store, k: Bytes, v: Bytes)
    requires |v| == WORD && k in b && b[k] == v && View(m, b, k) == []
    ensures Original(b, k) == v && Current(m, b, k) == ZeroWord()
  {
    EmptyIsZero();
  }

  /** It can fail: two set slots, one self-destruct, and setting both again panics. */
  lemma CleaningAloneCanPanic(contract: Bytes, key1: Bytes, key2: Bytes, v: Bytes, x: Bytes, m': Store)
    requires key1 != key2 && |v| == |x| == WORD && v != ZeroWord() && x != ZeroWord() && x != v
    requires Cleaned(map[], m', map[SlotKey(contract, key1) := v, SlotKey(contract, key2) := v], {contract})
    ensures var k1, k2 := SlotKey(contract, key1), SlotKey(contract, key2);
      var w := World(Saved(m', {}, [], SELFDESTRUCT), [], map[k1 := v, k2 := v], false, false);
      var first, second := Sstore(NetEip2200, k1, x, 5000), Sstore(NetEip2200, k2, x, 5000);
      && Enabled(w, first) && !Apply(w, first).panicked
      && Enabled(Apply(w, first), second) && Apply(Apply(w, first), second).panicked
  {
    hide ZeroWord, Apply, Enabled, Dead;
    var k1, k2 := SlotKey(contract, key1), SlotKey(contract, key2);
    assert k1 != k2 by {
      assert k1[1 + |contract|..] == key1 && k2[1 + |contract|..] == key2;
    }
    var b := map[k1 := v, k2 := v];
    DeadKey(contract, key1);
    DeadKey(contract, key2);
    assert View(m', b, k1) == [] && View(m', b, k2) == [];
    assert View(m'[k1 := x], b, k2) == View(m', b, k2);
    hide View;
    var w := World(Saved(m', {}, [], SELFDESTRUCT), [], b, false, false);
    SetAgain(w, k1, v, x);
    SetAgain(Apply(w, Sstore(NetEip2200, k1, x, 5000)), k2, v, x);
  }

  lemma EmptyIsZero()
    ensures ToHash([]) == ZeroWord()
  {
  }

  lemma DeadKey(contract: Bytes, key: Bytes)
    ensures Dead(SlotKey(contract, key), {contract})
  {
    var k := SlotKey(contract, key);
    assert k == ([STORAGE] + contract) + key;
    assert HasPrefix(k, [STORAGE] + contract);
  }
}
