// The overlay read on top of the backend, key by key.
module JoinIterator {
  import opened Common
  import opened ByteStrings
  import opened MemDBStore
  import opened Iterators

  type Store = map<Bytes, Bytes>

  /** What a read through the overlay gives; empty stands for absent and for deleted. */
  function View(m: Store, b: Store, k: Bytes): Bytes {
    if k in m then m[k] else if k in b then b[k] else []
  }

  datatype Origin = FromMem | FromBack | FromBoth

  /** `k` is the first key of either side beyond the mark. */
  ghost predicate IsFirst(m: Store, b: Store, prefix: Bytes, a: Mark, k: Bytes) {
    && (k in m || k in b) && HasPrefix(k, prefix) && Above(a, k)
    && forall k' :: (k' in m || k' in b) && HasPrefix(k', prefix) && Above(a, k') ==> AtMost(k, k')
  }

  /** Nothing visible lies after the first mark up to the second. */
  ghost predicate NothingBetween(m: Store, b: Store, prefix: Bytes, a: Mark, c: Mark) {
    forall k :: HasPrefix(k, prefix) && Above(a, k) && !Above(c, k) ==> View(m, b, k) == []
  }

  /** `k` is the first visible key beyond the mark. */
  ghost predicate IsFirstVisible(m: Store, b: Store, prefix: Bytes, a: Mark, k: Bytes) {
    && HasPrefix(k, prefix) && Above(a, k) && View(m, b, k) != []
    && forall k' :: HasPrefix(k', prefix) && Above(a, k') && View(m, b, k') != [] ==> AtMost(k, k')
  }

  ghost predicate NothingVisible(m: Store, b: Store, prefix: Bytes, a: Mark) {
    forall k :: HasPrefix(k, prefix) && Above(a, k) ==> View(m, b, k) == []
  }

  function Remaining(m: Store, b: Store, a: Mark): set<Bytes> {
    set k | k in m.Keys + b.Keys && Above(a, k)
  }

  lemma FirstShrinks(m: Store, b: Store, prefix: Bytes, a: Mark, k: Bytes)
    requires IsFirst(m, b, prefix, a, k)
    ensures |Remaining(m, b, At(k))| < |Remaining(m, b, a)|
  {
    LessIrreflexive(k);
    var r, r' := Remaining(m, b, a), Remaining(m, b, At(k));
    forall x | x in r' ensures x in r {
      if a.At? { LessTransitive(a.key, k, x); }
    }
    assert k in r && k !in r';
    assert r' <= r - {k};
    SubsetCount(r', r - {k});
  }

  /** The first key of either side is the smaller of the two first keys. */
  lemma ChooseFirst(m: Store, b: Store, prefix: Bytes, a: Mark, k: Bytes)
    requires (IsNext(m, prefix, a, k) && forall k' :: IsNext(b, prefix, a, k') ==> AtMost(k, k')) ||
             (IsNext(b, prefix, a, k) && forall k' :: IsNext(m, prefix, a, k') ==> AtMost(k, k'))
    requires (exists k' :: IsNext(m, prefix, a, k')) || NoneAbove(m, prefix, a)
    requires (exists k' :: IsNext(b, prefix, a, k')) || NoneAbove(b, prefix, a)
    ensures IsFirst(m, b, prefix, a, k)
  {
    hide Less, HasPrefix;
    forall x | (x in m || x in b) && HasPrefix(x, prefix) && Above(a, x) ensures AtMost(k, x) {
      if x in m && !NoneAbove(m, prefix, a) {
        var k' :| IsNext(m, prefix, a, k');
        AtMostVia(k, k', x);
      }
      if x in b && !NoneAbove(b, prefix, a) {
        var k' :| IsNext(b, prefix, a, k');
        AtMostVia(k, k', x);
      }
    }
  }

  lemma AtMostVia(k: Bytes, k': Bytes, x: Bytes)
    ensures AtMost(k, k') && AtMost(k', x) ==> AtMost(k, x)
  {
    if Less(k, k') && Less(k', x) { LessTransitive(k, k', x); }
  }

  /** Two keys of one side can not both come first. */
  lemma NextUnique(m: Store, prefix: Bytes, a: Mark, k: Bytes, k': Bytes)
    requires IsNext(m, prefix, a, k) && IsNext(m, prefix, a, k')
    ensures k == k'
  {
    LessAsymmetric(k, k');
  }

  lemma SkipOver(m: Store, b: Store, prefix: Bytes, a: Mark, c: Mark, k: Bytes)
    requires NothingBetween(m, b, prefix, a, c) && IsFirst(m, b, prefix, c, k)
    ensures View(m, b, k) == [] ==> NothingBetween(m, b, prefix, a, At(k))
    ensures View(m, b, k) != [] && (a == c || Above(a, k)) ==> IsFirstVisible(m, b, prefix, a, k)
  {
    hide Less, HasPrefix;
    forall x | HasPrefix(x, prefix) && Above(a, x) && View(m, b, x) != [] ensures AtMost(k, x) {
      assert Above(c, x);
    }
    if View(m, b, k) == [] {
      forall x | HasPrefix(x, prefix) && Above(a, x) && !Above(At(k), x) ensures View(m, b, x) == [] {
      }
    }
  }

  /** The second mark is not behind the first. */
  predicate NotBehind(a: Mark, c: Mark) {
    a == c || (c.At? && Above(a, c.key))
  }

  lemma NotBehindAbove(a: Mark, c: Mark, k: Bytes)
    requires NotBehind(a, c) && Above(c, k)
    ensures Above(a, k)
  {
    if a != c && a.At? { LessTransitive(a.key, c.key, k); }
  }

  /** What the iterator knows: the heads of the two cursors, the entry shown, where it is from, and the ends seen. */
  datatype Join = Join(
    memHas: bool, mkey: Bytes, mval: Bytes,
    backHas: bool, bkey: Bytes, bval: Bytes,
    key: Bytes, value: Bytes, origin: Origin, memEnd: bool, backEnd: bool)
  {
    /** Shows the smaller of the two heads; false when both sides have ended. */
    function Select(): (Join, bool) {
      if backEnd && memEnd then (this.(key := [], value := []), false)
      else if backEnd then (this.(key := mkey, value := mval, origin := FromMem), true)
      else if memEnd then (this.(key := bkey, value := bval, origin := FromBack), true)
      else
        var cmp := Compare(mkey, bkey);
        if cmp == -1 then (this.(key := mkey, value := mval, origin := FromMem), true)
        else if cmp == 0 then (this.(key := mkey, value := mval, origin := FromBoth), true)
        else (this.(key := bkey, value := bval, origin := FromBack), true)
    }

    /** The smaller of the two heads, before any end is recorded. */
    function Placed(): Join {
      if backHas && (!memHas || Compare(mkey, bkey) == 1) then this.(key := bkey, value := bval, origin := FromBack)
      else this.(key := mkey, value := mval,
                 origin := if backHas && Compare(mkey, bkey) == 0 then FromBoth else FromMem)
    }

    /** A turn of a side that was empty from the start and never recorded as ended. */
    predicate Phantom() {
      if origin == FromBack then !backHas && !backEnd else !memHas && !memEnd
    }

    predicate Sound() {
      && (memEnd ==> !memHas) && (backEnd ==> !backHas)
      && (!memHas ==> mkey == [] && mval == []) && (!backHas ==> bkey == [] && bval == [])
      && !(!memHas && !memEnd && !backHas && !backEnd)
    }

    ghost predicate MemAhead(m: Store, prefix: Bytes, a: Mark) {
      if memHas then IsNext(m, prefix, a, mkey) && mval == m[mkey] else NoneAbove(m, prefix, a)
    }

    ghost predicate BackAhead(b: Store, prefix: Bytes, a: Mark) {
      if backHas then IsNext(b, prefix, a, bkey) && bval == b[bkey] else NoneAbove(b, prefix, a)
    }

    /** Where the cursors are relative to the entry shown, `last` being the last key that came up. */
    ghost predicate Shown(m: Store, b: Store, prefix: Bytes, last: Mark) {
      && Sound() && prefix != []
      && (Phantom() ==>
          && key == [] && value == [] && MemAhead(m, prefix, last) && BackAhead(b, prefix, last)
          && origin != FromBoth && (if origin == FromMem then !memEnd else !backEnd))
      && (!Phantom() ==>
          && last == At(key) && HasPrefix(key, prefix)
          && (if origin == FromBack || memEnd then MemAhead(m, prefix, last) else mkey == key)
          && (if origin == FromMem || backEnd then BackAhead(b, prefix, last) else backHas && bkey == key))
    }
  }

  lemma MemFirst(j: Join, m: Store, b: Store, prefix: Bytes, a: Mark)
    requires j.MemAhead(m, prefix, a) && j.BackAhead(b, prefix, a) && j.memHas
    requires j.backHas ==> AtMost(j.mkey, j.bkey)
    ensures IsFirst(m, b, prefix, a, j.mkey)
  {
    hide Less, HasPrefix, IsFirst;
    forall k' | IsNext(b, prefix, a, k') ensures AtMost(j.mkey, k') {
      if j.backHas { NextUnique(b, prefix, a, j.bkey, k'); }
    }
    ChooseFirst(m, b, prefix, a, j.mkey);
  }

  lemma BackFirstOf(j: Join, m: Store, b: Store, prefix: Bytes, a: Mark)
    requires j.MemAhead(m, prefix, a) && j.BackAhead(b, prefix, a) && j.backHas
    requires j.memHas ==> Less(j.bkey, j.mkey)
    ensures IsFirst(m, b, prefix, a, j.bkey) && j.bkey !in m
  {
    hide Less, HasPrefix, IsFirst;
    forall k' | IsNext(m, prefix, a, k') ensures AtMost(j.bkey, k') {
      if j.memHas { NextUnique(m, prefix, a, j.mkey, k'); }
    }
    ChooseFirst(m, b, prefix, a, j.bkey);
    if j.memHas { LessAsymmetric(j.bkey, j.mkey); LessIrreflexive(j.bkey); }
  }

  /** The head of a side that is behind the entry shown is still the first beyond it. */
  lemma StillAhead(s: Store, prefix: Bytes, a: Mark, k: Bytes, c: Bytes)
    requires IsNext(s, prefix, a, k) && Less(c, k) && Above(a, c)
    ensures IsNext(s, prefix, At(c), k)
  {
    forall k' | k' in s && HasPrefix(k', prefix) && Less(c, k') ensures AtMost(k, k') {
      if a.At? { LessTransitive(a.key, c, k'); }
    }
  }

  lemma StillNone(s: Store, prefix: Bytes, a: Mark, c: Bytes)
    requires NoneAbove(s, prefix, a) && Above(a, c)
    ensures NoneAbove(s, prefix, At(c))
  {
    forall k | k in s && HasPrefix(k, prefix) ensures !Less(c, k) {
      if a.At? && Less(c, k) { LessTransitive(a.key, c, k); }
    }
  }

  lemma ShownAfterMem(j: Join, m: Store, b: Store, prefix: Bytes, a: Mark, both: bool)
    requires j.Sound() && prefix != [] && j.MemAhead(m, prefix, a) && j.BackAhead(b, prefix, a) && j.memHas
    requires j.backHas ==> AtMost(j.mkey, j.bkey)
    requires both <==> j.backHas && j.mkey == j.bkey
    ensures j.(key := j.mkey, value := j.mval, origin := if both then FromBoth else FromMem)
      .Shown(m, b, prefix, At(j.mkey))
  {
    hide HasPrefix, Less;
    if !both {
      if j.backHas { StillAhead(b, prefix, a, j.bkey, j.mkey); } else { StillNone(b, prefix, a, j.mkey); }
    }
  }

  lemma ShownAfterBack(j: Join, m: Store, b: Store, prefix: Bytes, a: Mark)
    requires j.Sound() && prefix != [] && j.MemAhead(m, prefix, a) && j.BackAhead(b, prefix, a) && j.backHas
    requires j.memHas ==> Less(j.bkey, j.mkey)
    ensures j.(key := j.bkey, value := j.bval, origin := FromBack).Shown(m, b, prefix, At(j.bkey))
  {
    hide HasPrefix, Less;
    if j.memHas { StillAhead(m, prefix, a, j.mkey, j.bkey); } else { StillNone(m, prefix, a, j.bkey); }
  }

  /** With both heads beyond the mark, the entry shown is the first of either side, a phantom, or nothing is left. */
  lemma SelectRight(j: Join, m: Store, b: Store, prefix: Bytes, a: Mark)
    requires j.Sound() && prefix != [] && j.MemAhead(m, prefix, a) && j.BackAhead(b, prefix, a)
    ensures var (j', ok) := j.Select();
      && (ok && j'.Phantom() ==> j'.Shown(m, b, prefix, a))
      && (ok && !j'.Phantom() ==>
          && j'.Shown(m, b, prefix, At(j'.key)) && IsFirst(m, b, prefix, a, j'.key)
          && j'.value == View(m, b, j'.key))
      && (!ok ==> NoneAbove(m, prefix, a) && NoneAbove(b, prefix, a))
  {
    hide IsFirst, Less;
    var (j', ok) := j.Select();
    if ok && !j'.Phantom() {
      if j'.origin == FromBack {
        BackFirstOf(j, m, b, prefix, a);
        ShownAfterBack(j, m, b, prefix, a);
      } else {
        MemFirst(j, m, b, prefix, a);
        ShownAfterMem(j, m, b, prefix, a, j'.origin == FromBoth);
      }
    }
    HeadsNonEmpty(j, m, b, prefix, a);
  }

  lemma HeadsNonEmpty(j: Join, m: Store, b: Store, prefix: Bytes, a: Mark)
    requires prefix != [] && j.MemAhead(m, prefix, a) && j.BackAhead(b, prefix, a)
    ensures j.memHas ==> j.mkey != [] && Less([], j.mkey)
    ensures j.backHas ==> j.bkey != [] && Less([], j.bkey)
  {
  }

  /** Which sides count as ended from the start, and the first key, which is shown all the same. */
  datatype Cut = Cut(mem: bool, back: bool, head: Bytes)

  /** What is left of a side that counts as ended: its entry at the first key. */
  ghost function Kept(s: Store, ended: bool, head: Bytes): Store {
    if ended then map k | k in s && k == head :: s[k] else s
  }

  class JoinIter {
    const backend: BackIter
    const memdb: DbIter
    const prefix: Bytes
    ghost const b: Store
    var key: Bytes
    var value: Bytes
    var keyOrigin: Origin
    var nextMemEnd: bool
    var nextBackEnd: bool

    /** The last key that came up, visible or not. */
    ghost var last: Mark

    /** The ends that were still recorded when the iteration began. */
    ghost var cut: Cut

    /** The overlay and the backend as this iteration gets to see them. */
    ghost function Mem(): Store
      reads this, memdb, memdb.p
    {
      Kept(memdb.p.contents, cut.mem, cut.head)
    }

    ghost function Back(): Store
      reads this
    {
      Kept(b, cut.back, cut.head)
    }

    ghost function State(): Join
      reads this, backend, memdb
    {
      Join(memdb.node != 0 && !cut.mem, if cut.mem then [] else memdb.key, if cut.mem then [] else memdb.value,
           backend.pos < |backend.entries| && !cut.back,
           if cut.back then [] else backend.Key(), if cut.back then [] else backend.Value(),
           key, value, keyOrigin, nextMemEnd, nextBackEnd)
    }

    ghost predicate Wired()
      reads this, backend, memdb, memdb.p
    {
      && memdb.Valid() && backend.Valid() && memdb.prefix == prefix && prefix != []
      && IsSnapshot(backend.entries, b, prefix)
    }

    ghost predicate Valid()
      reads this, backend, memdb, memdb.p
    {
      && Wired() && State().Shown(Mem(), Back(), prefix, last)
      && (cut.mem ==> nextMemEnd) && (cut.back ==> nextBackEnd)
    }

    constructor (memdb: DbIter, backend: BackIter, prefix: Bytes, ghost b: Store)
      requires memdb.Valid() && backend.Valid() && memdb.prefix == prefix && prefix != []
      requires IsSnapshot(backend.entries, b, prefix)
      ensures this.memdb == memdb && this.backend == backend && this.prefix == prefix && this.b == b
      ensures Wired() && !nextMemEnd && !nextBackEnd
    {
      this.memdb, this.backend, this.prefix, this.b := memdb, backend, prefix, b;
      key, value, keyOrigin, nextMemEnd, nextBackEnd := [], [], FromMem, false, false;
      last, cut := Start, Cut(false, false, []);
    }

    ghost predicate MemIsAhead()
      reads this, memdb, memdb.p
    {
      if memdb.node != 0 && !cut.mem then
        IsNext(memdb.p.contents, prefix, last, memdb.key) && memdb.value == memdb.p.contents[memdb.key]
      else NoneAbove(Mem(), prefix, last)
    }

    ghost predicate BackIsAhead()
      reads this, backend
    {
      if cut.back then NoneAbove(Back(), prefix, last) else BackAhead(backend.entries, b, prefix, last, backend.pos)
    }

    /** Puts both cursors on their first entry. */
    method Rewind() returns (back: bool, mem: bool)
      requires Wired() && last == Start && !cut.mem && !cut.back
      modifies backend, memdb, memdb.p`prevNode
      ensures Wired() && MemIsAhead() && BackIsAhead()
      ensures back == (backend.pos < |backend.entries|) && mem == (memdb.node != 0)
    {
      hide IsSnapshot, IsNext, NoneAbove, HasPrefix, Less;
      BackFirst(backend.entries, b, prefix);
      back := backend.First();
      mem := memdb.First();
    }

    lemma HeadsAhead()
      requires Wired() && MemIsAhead() && BackIsAhead()
      ensures State().MemAhead(Mem(), prefix, last) && State().BackAhead(Back(), prefix, last)
      ensures memdb.node == 0 ==> memdb.key == [] && memdb.value == []
      ensures backend.pos == |backend.entries| ==> backend.Key() == [] && backend.Value() == []
    {
    }

    /**
     * Shows the smaller of the two first entries. A side that is empty is not recorded as ended, and an end
     * recorded before stays recorded: of such a side nothing but the first key is left.
     */
    method PositionFirst() returns (ok: bool)
      requires Wired()
      modifies this, backend, memdb, memdb.p`prevNode
      ensures Wired() && nextMemEnd == old(nextMemEnd) && nextBackEnd == old(nextBackEnd)
      ensures ok ==> Valid() && IsFirst(memdb.p.contents, b, prefix, Start, key) && last == At(key)
      ensures ok ==> cut == Cut(nextMemEnd, nextBackEnd, key) && value == View(memdb.p.contents, b, key)
      ensures !ok ==> NoneAbove(memdb.p.contents, prefix, Start) && NoneAbove(b, prefix, Start)
    {
      hide IsSnapshot, IsNext, NoneAbove, IsFirst, HasPrefix, Less, DbIter.Valid, MemDB.Valid, Join.Shown,
        Join.Placed, View;
      last, cut := Start, Cut(false, false, []);
      var back, mem := Rewind();
      HeadsAhead();
      if !back && !mem {
        return false;
      }
      ghost var j := State();
      Place(back, mem);
      PlacedRight(j, memdb.p.contents, b, prefix);
      last, cut := At(key), Cut(nextMemEnd, nextBackEnd, key);
      Landing(j, memdb.p.contents, b, prefix, State(), cut);
      return true;
    }

    method Place(back: bool, mem: bool)
      requires back == (backend.pos < |backend.entries|) && mem == (memdb.node != 0) && !cut.mem && !cut.back
      modifies this`key, this`value, this`keyOrigin
      ensures State() == old(State()).Placed()
    {
      if back && (!mem || Compare(memdb.key, backend.Key()) == 1) {
        key, value, keyOrigin := backend.Key(), backend.Value(), FromBack;
      } else {
        key, value := memdb.key, memdb.value;
        keyOrigin := if back && Compare(memdb.key, backend.Key()) == 0 then FromBoth else FromMem;
      }
    }

    method AdvanceMem()
      requires memdb.Valid() && memdb.prefix == prefix && (cut.mem ==> nextMemEnd)
      requires nextMemEnd ==> memdb.node == 0 || cut.mem
      requires keyOrigin == FromBack || memdb.node == 0 || cut.mem ==> MemIsAhead()
      requires keyOrigin != FromBack && memdb.node != 0 && !cut.mem ==> last == At(memdb.key)
      modifies this`nextMemEnd, memdb
      ensures memdb.Valid() && MemIsAhead()
      ensures if keyOrigin == FromBack then nextMemEnd == old(nextMemEnd)
              else nextMemEnd == (memdb.node == 0 || cut.mem)
      ensures keyOrigin == FromBack || cut.mem ==> memdb.node == old(memdb.node)
      ensures old(nextMemEnd) ==> nextMemEnd
      ensures old(memdb.node) == 0 ==> memdb.node == 0
    {
      hide IsNext, NoneAbove, HasPrefix, Less, DbIter.Valid;
      if (keyOrigin == FromMem || keyOrigin == FromBoth) && !nextMemEnd {
        MoveMem();
      }
    }

    /** Moves the overlay's cursor, recording its end. */
    method MoveMem()
      requires memdb.Valid() && memdb.prefix == prefix && !nextMemEnd && !cut.mem
      requires memdb.node == 0 ==> MemIsAhead()
      requires memdb.node != 0 ==> last == At(memdb.key)
      modifies this`nextMemEnd, memdb
      ensures memdb.Valid() && MemIsAhead() && nextMemEnd == (memdb.node == 0)
      ensures old(memdb.node) == 0 ==> memdb.node == 0
    {
      hide IsNext, NoneAbove, HasPrefix, Less, DbIter.Valid;
      var ok := memdb.Next();
      nextMemEnd := !ok;
    }

    method AdvanceBack()
      requires backend.Valid() && IsSnapshot(backend.entries, b, prefix) && (cut.back ==> nextBackEnd)
      requires nextBackEnd ==> backend.pos == |backend.entries| || cut.back
      requires keyOrigin == FromMem || backend.pos == |backend.entries| || cut.back ==> BackIsAhead()
      requires keyOrigin != FromMem && backend.pos < |backend.entries| && !cut.back ==>
        last == At(backend.entries[backend.pos].0)
      modifies this`nextBackEnd, backend
      ensures backend.Valid() && BackIsAhead()
      ensures if keyOrigin == FromMem then nextBackEnd == old(nextBackEnd)
              else nextBackEnd == (backend.pos == |backend.entries| || cut.back)
      ensures keyOrigin == FromMem || cut.back ==> backend.pos == old(backend.pos)
      ensures old(nextBackEnd) ==> nextBackEnd
      ensures old(backend.pos) == |backend.entries| ==> backend.pos == |backend.entries|
    {
      hide IsNext, NoneAbove, IsSnapshot, Less;
      if (keyOrigin == FromBack || keyOrigin == FromBoth) && !nextBackEnd {
        if backend.pos < |backend.entries| {
          BackNext(backend.entries, b, prefix, backend.pos);
        }
        var ok := backend.Next();
        nextBackEnd := !ok;
      }
    }

    /** Where the cursors stand between two calls, cursor by cursor. */
    lemma Standing()
      requires Valid()
      ensures nextMemEnd ==> memdb.node == 0 || cut.mem
      ensures keyOrigin == FromBack || memdb.node == 0 || cut.mem ==> MemIsAhead()
      ensures keyOrigin != FromBack && memdb.node != 0 && !cut.mem ==> last == At(memdb.key)
      ensures nextBackEnd ==> backend.pos == |backend.entries| || cut.back
      ensures keyOrigin == FromMem || backend.pos == |backend.entries| || cut.back ==> BackIsAhead()
      ensures keyOrigin != FromMem && backend.pos < |backend.entries| && !cut.back ==>
        last == At(backend.entries[backend.pos].0)
      ensures !(memdb.node == 0 && !nextMemEnd && backend.pos == |backend.entries| && !nextBackEnd)
      ensures State().Phantom() ==>
        if keyOrigin == FromMem then memdb.node == 0 && !nextMemEnd else
          keyOrigin == FromBack && backend.pos == |backend.entries| && !nextBackEnd
    {
      hide IsNext, NoneAbove, IsSnapshot, Less, HasPrefix, DbIter.Valid;
    }

    /** Moves the cursors the entry shown came from; afterwards both heads lie beyond the last key. */
    method Advance()
      requires Valid()
      modifies this`nextMemEnd, this`nextBackEnd, backend, memdb
      ensures Wired() && State().Sound() && (cut.mem ==> nextMemEnd) && (cut.back ==> nextBackEnd)
      ensures State().MemAhead(Mem(), prefix, last) && State().BackAhead(Back(), prefix, last)
      ensures old(State().Phantom()) ==> EndsSeen() > old(EndsSeen())
      ensures EndsSeen() >= old(EndsSeen())
    {
      hide IsNext, NoneAbove, IsSnapshot, Less, HasPrefix, DbIter.Valid, Join.Shown;
      Standing();
      AdvanceMem();
      AdvanceBack();
      HeadsAhead();
    }

    ghost function EndsSeen(): nat
      reads this
    {
      (if nextMemEnd then 1 else 0) + (if nextBackEnd then 1 else 0)
    }

    /** One step: the first key of either side beyond the last one, a phantom turn, or the end. */
    method Step() returns (ok: bool)
      requires Valid()
      modifies this, backend, memdb
      ensures Wired()
      ensures ok ==> Valid()
      ensures ok && State().Phantom() ==> last == old(last)
      ensures ok && !State().Phantom() ==> IsFirst(Mem(), Back(), prefix, old(last), key) && last == At(key)
      ensures ok && !State().Phantom() ==> value == View(Mem(), Back(), key)
      ensures !ok ==> NoneAbove(Mem(), prefix, old(last)) && NoneAbove(Back(), prefix, old(last))
      ensures !ok ==> nextMemEnd && nextBackEnd
      ensures cut == old(cut) && Mem() == old(Mem())
      ensures old(State().Phantom()) ==> EndsSeen() > old(EndsSeen())
      ensures EndsSeen() >= old(EndsSeen())
    {
      hide IsSnapshot, IsNext, NoneAbove, IsFirst, HasPrefix, Less, DbIter.Valid, Join.Shown, Join.MemAhead,
        Join.BackAhead, Join.Sound, View;
      Advance();
      ghost var j := State();
      SelectRight(j, Mem(), Back(), prefix, last);
      ok := Show();
      if ok && !State().Phantom() {
        last := At(key);
      }
    }

    /** Shows the smaller head of the sides that have not ended. */
    method Show() returns (ok: bool)
      requires (cut.mem ==> nextMemEnd) && (cut.back ==> nextBackEnd)
      modifies this`key, this`value, this`keyOrigin
      ensures (State(), ok) == old(State()).Select()
    {
      if nextBackEnd {
        if nextMemEnd {
          key, value := [], [];
          return false;
        }
        key, value, keyOrigin := memdb.key, memdb.value, FromMem;
      } else if nextMemEnd {
        key, value, keyOrigin := backend.Key(), backend.Value(), FromBack;
      } else {
        var bkey, mkey := backend.Key(), memdb.key;
        var cmp := Compare(mkey, bkey);
        if cmp == -1 {
          key, value, keyOrigin := mkey, memdb.value, FromMem;
        } else if cmp == 0 {
          key, value, keyOrigin := mkey, memdb.value, FromBoth;
        } else {
          key, value, keyOrigin := bkey, backend.Value(), FromBack;
        }
      }
      return true;
    }

    /**
     * The next visible key: exactly the first one beyond the last key whose value over the backend is
     * not empty. Hidden entries and phantom turns are passed over, and the passing over ends.
     */
    method Next() returns (ok: bool)
      requires Valid()
      modifies this, backend, memdb
      ensures Wired() && cut == old(cut) && Mem() == old(Mem())
      ensures ok ==> Valid() && last == At(key) && IsFirstVisible(Mem(), Back(), prefix, old(last), key)
      ensures ok ==> value == View(Mem(), Back(), key)
      ensures !ok ==> NothingVisible(Mem(), Back(), prefix, old(last)) && nextMemEnd && nextBackEnd
    {
      hide IsSnapshot, IsNext, NoneAbove, IsFirst, HasPrefix, Less, DbIter.Valid, Join.Shown, View, NothingBetween,
        IsFirstVisible, NothingVisible, Above;
      ghost var m, b, from := Mem(), Back(), last;
      NothingYet(m, b, prefix, from);
      ghost var before := last;
      ok := Step();
      if !ok {
        NothingLeft(m, b, prefix, from, from);
        return;
      }
      if !State().Phantom() {
        SkipOver(m, b, prefix, from, before, key);
        FirstNotBehind(m, b, prefix, from, before, key);
      }
      PhantomEmpty();
      while |value| == 0
        invariant Valid() && Mem() == m && cut == old(cut)
        invariant NotBehind(from, last)
        invariant value == [] ==> NothingBetween(m, b, prefix, from, last)
        invariant value != [] ==> last == At(key) && IsFirstVisible(m, b, prefix, from, key)
        invariant value != [] ==> value == View(m, b, key)
        decreases |Remaining(m, b, last)|, 2 - EndsSeen(), if State().Phantom() then 0 else 1
      {
        before := last;
        ghost var ph := State().Phantom();
        var more := Step();
        if !more {
          NothingLeft(m, b, prefix, from, before);
          return false;
        }
        if !State().Phantom() {
          FirstShrinks(m, b, prefix, before, key);
          SkipOver(m, b, prefix, from, before, key);
          FirstNotBehind(m, b, prefix, from, before, key);
        }
        PhantomEmpty();
      }
      return true;
    }

    lemma PhantomEmpty()
      requires Valid()
      ensures State().Phantom() ==> value == []
      ensures !State().Phantom() ==> last == At(key)
    {
    }

    /**
     * Starts over: the first visible key of all. On an iterator that has recorded an end it is the first
     * visible key of what is then left of the two sides.
     */
    method First() returns (ok: bool)
      requires Wired()
      modifies this, backend, memdb, memdb.p`prevNode
      ensures Wired() && IsCut(cut, memdb.p.contents, b, prefix, old(nextMemEnd), old(nextBackEnd))
      ensures ok ==> Valid() && last == At(key) && IsFirstVisible(Mem(), Back(), prefix, Start, key)
      ensures ok ==> value == View(Mem(), Back(), key)
      ensures !ok ==> NothingVisible(Mem(), Back(), prefix, Start)
      ensures !ok ==> (nextMemEnd && nextBackEnd) || Nothing(memdb.p.contents, b, prefix)
    {
      hide IsSnapshot, IsNext, NoneAbove, IsFirst, HasPrefix, Less, DbIter.Valid, Join.Shown, View, NothingBetween,
        IsFirstVisible, NothingVisible, Above, Kept;
      ghost var m := memdb.p.contents;
      NothingYet(m, b, prefix, Start);
      ok := PositionFirst();
      if !ok {
        cut := Cut(nextMemEnd, nextBackEnd, []);
        NothingAtAll(m, b, prefix, cut);
        return;
      }
      FirstKept(m, b, prefix, cut);
      NothingYet(Mem(), Back(), prefix, Start);
      SkipOver(Mem(), Back(), prefix, Start, Start, key);
      if |value| == 0 {
        ghost var k := key;
        ok := Next();
        FirstAfterHidden(Mem(), Back(), prefix, k);
      }
    }
  }

  ghost predicate Nothing(m: Store, b: Store, prefix: Bytes) {
    NoneAbove(m, prefix, Start) && NoneAbove(b, prefix, Start)
  }

  /** The cut an iteration works under that begins with these ends recorded. */
  ghost predicate IsCut(cut: Cut, m: Store, b: Store, prefix: Bytes, memEnd: bool, backEnd: bool) {
    && cut.mem == memEnd && cut.back == backEnd
    && (IsFirst(m, b, prefix, Start, cut.head) || Nothing(m, b, prefix))
  }

  /** The first key is first of what is left, too, and reads the same. */
  lemma FirstKept(m: Store, b: Store, prefix: Bytes, cut: Cut)
    requires IsFirst(m, b, prefix, Start, cut.head)
    ensures var m', b' := Kept(m, cut.mem, cut.head), Kept(b, cut.back, cut.head);
      IsFirst(m', b', prefix, Start, cut.head) && View(m', b', cut.head) == View(m, b, cut.head)
  {
    hide HasPrefix, Less;
  }

  lemma NothingAtAll(m: Store, b: Store, prefix: Bytes, cut: Cut)
    requires NoneAbove(m, prefix, Start) && NoneAbove(b, prefix, Start)
    ensures NothingVisible(Kept(m, cut.mem, cut.head), Kept(b, cut.back, cut.head), prefix, Start)
  {
    hide HasPrefix;
  }

  /** The first of the two heads is the first key of all, and its value what a read gives. */
  lemma PlacedRight(j: Join, m: Store, b: Store, prefix: Bytes)
    requires j.MemAhead(m, prefix, Start) && j.BackAhead(b, prefix, Start) && (j.memHas || j.backHas)
    ensures IsFirst(m, b, prefix, Start, j.Placed().key) && j.Placed().value == View(m, b, j.Placed().key)
  {
    hide IsFirst, Less, HasPrefix;
    if j.Placed().origin == FromBack {
      BackFirstOf(j, m, b, prefix, Start);
    } else {
      MemFirst(j, m, b, prefix, Start);
    }
    InView(m, b, prefix, j);
  }

  /** Put on the first key of either side, the iterator stands in order on what is left of them. */
  lemma Landing(j: Join, m: Store, b: Store, prefix: Bytes, j': Join, cut: Cut)
    requires j.MemAhead(m, prefix, Start) && j.BackAhead(b, prefix, Start) && prefix != [] && (j.memHas || j.backHas)
    requires !j.memHas ==> j.mkey == [] && j.mval == []
    requires !j.backHas ==> j.bkey == [] && j.bval == []
    requires cut == Cut(j'.memEnd, j'.backEnd, j'.key)
    requires j'.memHas == (j.memHas && !cut.mem) && j'.backHas == (j.backHas && !cut.back)
    requires j'.mkey == (if cut.mem then [] else j.mkey) && j'.mval == (if cut.mem then [] else j.mval)
    requires j'.bkey == (if cut.back then [] else j.bkey) && j'.bval == (if cut.back then [] else j.bval)
    requires var p := j.Placed(); j'.key == p.key && j'.origin == p.origin
    ensures j'.Shown(Kept(m, cut.mem, cut.head), Kept(b, cut.back, cut.head), prefix, At(j'.key))
  {
    hide HasPrefix, Less;
    var k := j'.key;
    LessIrreflexive(k);
    if !cut.mem && j'.origin == FromBack {
      if j.memHas { StillAhead(m, prefix, Start, j.mkey, k); } else { StillNone(m, prefix, Start, k); }
    }
    if !cut.back && j'.origin == FromMem {
      if j.backHas { StillAhead(b, prefix, Start, j.bkey, k); } else { StillNone(b, prefix, Start, k); }
    }
  }

  lemma InView(m: Store, b: Store, prefix: Bytes, j: Join)
    requires j.MemAhead(m, prefix, Start) && j.BackAhead(b, prefix, Start)
    ensures j.memHas ==> j.mval == View(m, b, j.mkey)
    ensures j.backHas && j.bkey !in m ==> j.bval == View(m, b, j.bkey)
  {
  }

  lemma NothingYet(m: Store, b: Store, prefix: Bytes, a: Mark)
    ensures NothingBetween(m, b, prefix, a, a)
  {
  }

  lemma NothingLeft(m: Store, b: Store, prefix: Bytes, a: Mark, c: Mark)
    requires NothingBetween(m, b, prefix, a, c)
    requires NoneAbove(m, prefix, c) && NoneAbove(b, prefix, c)
    ensures NothingVisible(m, b, prefix, a)
  {
  }

  lemma FirstNotBehind(m: Store, b: Store, prefix: Bytes, a: Mark, c: Mark, k: Bytes)
    requires NotBehind(a, c) && IsFirst(m, b, prefix, c, k)
    ensures NotBehind(a, At(k)) && Above(a, k)
  {
    NotBehindAbove(a, c, k);
  }

  /** When nothing visible lies up to k, what comes first after k comes first of all. */
  lemma FirstAfterHidden(m: Store, b: Store, prefix: Bytes, k: Bytes)
    requires NothingBetween(m, b, prefix, Start, At(k))
    ensures forall x :: IsFirstVisible(m, b, prefix, At(k), x) ==> IsFirstVisible(m, b, prefix, Start, x)
    ensures NothingVisible(m, b, prefix, At(k)) ==> NothingVisible(m, b, prefix, Start)
  {
  }

  /** Everything visible under the prefix, once each, in ascending order, with its value. */
  ghost predicate IsListing(m: Store, b: Store, prefix: Bytes, out: seq<(Bytes, Bytes)>) {
    && (forall i, j :: 0 <= i < j < |out| ==> Less(out[i].0, out[j].0))
    && (forall i :: 0 <= i < |out| ==> IsEntry(m, b, prefix, out[i]))
    && (forall k :: HasPrefix(k, prefix) && View(m, b, k) != [] ==> exists i :: 0 <= i < |out| && out[i].0 == k)
  }

  predicate IsEntry(m: Store, b: Store, prefix: Bytes, e: (Bytes, Bytes)) {
    HasPrefix(e.0, prefix) && e.1 == View(m, b, e.0) && e.1 != []
  }

  /** A listing as far as the mark. */
  ghost predicate ListedUpTo(m: Store, b: Store, prefix: Bytes, out: seq<(Bytes, Bytes)>, c: Mark) {
    && (forall i, j :: 0 <= i < j < |out| ==> Less(out[i].0, out[j].0))
    && (forall i :: 0 <= i < |out| ==> IsEntry(m, b, prefix, out[i]) && !Above(c, out[i].0))
    && (forall k :: HasPrefix(k, prefix) && View(m, b, k) != [] && !Above(c, k) ==>
         exists i :: 0 <= i < |out| && out[i].0 == k)
  }

  lemma ListOne(m: Store, b: Store, prefix: Bytes, out: seq<(Bytes, Bytes)>, c: Mark, k: Bytes)
    requires ListedUpTo(m, b, prefix, out, c) && IsFirstVisible(m, b, prefix, c, k)
    ensures ListedUpTo(m, b, prefix, out + [(k, View(m, b, k))], At(k))
  {
    hide Less, HasPrefix;
    var more := out + [(k, View(m, b, k))];
    forall i | 0 <= i < |out| ensures Less(out[i].0, k) && !Less(k, out[i].0) {
      ListedBelow(c, out[i].0, k);
    }
    forall x | HasPrefix(x, prefix) && View(m, b, x) != [] && !Above(At(k), x)
      ensures exists i :: 0 <= i < |more| && more[i].0 == x
    {
      if x == k {
        assert more[|out|].0 == x;
      } else {
        LessTotal(k, x);
        var i :| 0 <= i < |out| && out[i].0 == x;
        assert more[i].0 == x;
      }
    }
    LessIrreflexive(k);
  }

  lemma ListedBelow(c: Mark, x: Bytes, k: Bytes)
    requires !Above(c, x) && Above(c, k)
    ensures Less(x, k) && !Less(k, x)
  {
    if x != c.key {
      LessTotal(c.key, x);
      LessTransitive(x, c.key, k);
    }
    LessAsymmetric(x, k);
  }

  lemma ListNone(m: Store, b: Store, prefix: Bytes)
    ensures ListedUpTo(m, b, prefix, [], Start)
  {
  }

  lemma ListAll(m: Store, b: Store, prefix: Bytes, out: seq<(Bytes, Bytes)>, c: Mark)
    requires ListedUpTo(m, b, prefix, out, c) && NothingVisible(m, b, prefix, c)
    ensures IsListing(m, b, prefix, out)
  {
    hide Less, HasPrefix, View;
  }

  /**
   * A whole walk through the iterator: it ends, and lists exactly what is visible, of the whole overlay
   * over the whole backend on an iterator that has recorded no end, of what is left of them otherwise.
   */
  method Walk(iter: JoinIter) returns (out: seq<(Bytes, Bytes)>, ghost cut: Cut)
    requires iter.Wired()
    modifies iter, iter.backend, iter.memdb, iter.memdb.p`prevNode
    ensures iter.Wired()
    ensures (iter.nextMemEnd && iter.nextBackEnd) || Nothing(iter.memdb.p.contents, iter.b, iter.prefix)
    ensures IsCut(cut, iter.memdb.p.contents, iter.b, iter.prefix, old(iter.nextMemEnd), old(iter.nextBackEnd))
    ensures var m, b := Kept(iter.memdb.p.contents, cut.mem, cut.head), Kept(iter.b, cut.back, cut.head);
      IsListing(m, b, iter.prefix, out)
    ensures !old(iter.nextMemEnd) && !old(iter.nextBackEnd) ==>
      IsListing(iter.memdb.p.contents, iter.b, iter.prefix, out)
  {
    hide JoinIter.Valid, JoinIter.Wired, IsFirstVisible, NothingVisible, View, ListedUpTo, IsListing, IsFirst,
      NoneAbove, Nothing;
    out := [];
    var has := iter.First();
    cut := iter.cut;
    ghost var m, b, prefix := iter.Mem(), iter.Back(), iter.prefix;
    ListNone(m, b, prefix);
    ghost var from := Start;
    while has
      invariant iter.Mem() == m && iter.cut == cut && ListedUpTo(m, b, prefix, out, from)
      invariant has ==> iter.Valid() && iter.last == At(iter.key) && IsFirstVisible(m, b, prefix, from, iter.key)
      invariant has ==> iter.value == View(m, b, iter.key)
      invariant !has ==> NothingVisible(m, b, prefix, from)
      invariant iter.Wired()
      invariant !has ==> (iter.nextMemEnd && iter.nextBackEnd) || Nothing(iter.memdb.p.contents, iter.b, prefix)
      modifies iter, iter.backend, iter.memdb
      decreases |Remaining(m, b, from)|, has
    {
      ListOne(m, b, prefix, out, from, iter.key);
      VisibleShrinks(m, b, prefix, from, iter.key);
      out := out + [(iter.key, iter.value)];
      from := iter.last;
      has := iter.Next();
    }
    ListAll(m, b, prefix, out, from);
  }

  /** Beyond the first key an ended side makes no difference. */
  ghost predicate Harmless(cut: Cut, m: Store, b: Store, prefix: Bytes) {
    forall k :: HasPrefix(k, prefix) && k != cut.head ==>
      View(if cut.mem then map[] else m, if cut.back then map[] else b, k) == View(m, b, k)
  }

  /** A walk that began with ends recorded is right exactly when, beyond the first key, they make no difference. */
  lemma SecondWalkExact(cut: Cut, m: Store, b: Store, prefix: Bytes, out: seq<(Bytes, Bytes)>)
    requires IsListing(Kept(m, cut.mem, cut.head), Kept(b, cut.back, cut.head), prefix, out)
    ensures IsListing(m, b, prefix, out) <==> Harmless(cut, m, b, prefix)
  {
    hide HasPrefix, Less, View, Kept, IsListing;
    var m', b' := Kept(m, cut.mem, cut.head), Kept(b, cut.back, cut.head);
    KeptView(cut, m, b);
    if IsListing(m, b, prefix, out) {
      forall k | HasPrefix(k, prefix) ensures View(m', b', k) == View(m, b, k) {
        ListingValue(m, b, prefix, out, k);
        ListingValue(m', b', prefix, out, k);
      }
    } else if Harmless(cut, m, b, prefix) {
      SameListing(m', b', m, b, prefix, out);
    }
  }

  ghost function SplitView(m: Store, b: Store, cut: Cut, k: Bytes): Bytes {
    if k == cut.head then View(m, b, k) else View(if cut.mem then map[] else m, if cut.back then map[] else b, k)
  }

  lemma KeptView(cut: Cut, m: Store, b: Store)
    ensures var m', b' := Kept(m, cut.mem, cut.head), Kept(b, cut.back, cut.head);
      forall k :: View(m', b', k) == SplitView(m, b, cut, k)
  {
  }

  lemma SameListing(m: Store, b: Store, m': Store, b': Store, prefix: Bytes, out: seq<(Bytes, Bytes)>)
    requires IsListing(m, b, prefix, out)
    requires forall k :: HasPrefix(k, prefix) ==> View(m, b, k) == View(m', b', k)
    ensures IsListing(m', b', prefix, out)
  {
    hide HasPrefix, Less, View;
  }

  ghost function ListedValue(out: seq<(Bytes, Bytes)>, k: Bytes): set<Bytes> {
    set i | 0 <= i < |out| && out[i].0 == k :: out[i].1
  }

  /** A listing determines every value. */
  lemma ListingValue(m: Store, b: Store, prefix: Bytes, out: seq<(Bytes, Bytes)>, k: Bytes)
    requires IsListing(m, b, prefix, out) && HasPrefix(k, prefix)
    ensures ListedValue(out, k) == if View(m, b, k) == [] then {} else {View(m, b, k)}
  {
    hide HasPrefix, Less, View;
    if View(m, b, k) != [] {
      var i :| 0 <= i < |out| && out[i].0 == k;
      assert out[i].1 in ListedValue(out, k);
    }
  }

  /**
   * Two walks through one iterator. The first is right. It leaves both ends recorded, so the second lists
   * the first key at most, and is right exactly when nothing else is visible.
   */
  method WalkTwice(iter: JoinIter) returns (first: seq<(Bytes, Bytes)>, second: seq<(Bytes, Bytes)>)
    requires iter.Wired() && !iter.nextMemEnd && !iter.nextBackEnd
    modifies iter, iter.backend, iter.memdb, iter.memdb.p`prevNode
    ensures IsListing(iter.memdb.p.contents, iter.b, iter.prefix, first)
    ensures IsListing(iter.memdb.p.contents, iter.b, iter.prefix, second) <==>
      first == [] || (|first| == 1 && IsFirst(iter.memdb.p.contents, iter.b, iter.prefix, Start, first[0].0))
  {
    hide JoinIter.Valid, JoinIter.Wired, View, IsListing, IsFirst, Nothing, Harmless;
    ghost var cut;
    first, cut := Walk(iter);
    second, cut := Walk(iter);
    SecondWalkExact(cut, iter.memdb.p.contents, iter.b, iter.prefix, second);
    HarmlessMeans(cut, iter.memdb.p.contents, iter.b, iter.prefix, first);
  }

  lemma HarmlessMeans(cut: Cut, m: Store, b: Store, prefix: Bytes, out: seq<(Bytes, Bytes)>)
    requires IsListing(m, b, prefix, out) && IsCut(cut, m, b, prefix, cut.mem, cut.back)
    requires (cut.mem && cut.back) || Nothing(m, b, prefix)
    ensures Harmless(cut, m, b, prefix) <==> out == [] || (|out| == 1 && IsFirst(m, b, prefix, Start, out[0].0))
  {
    hide HasPrefix, Less;
    if Nothing(m, b, prefix) {
      NothingListed(m, b, prefix, out);
    } else {
      if Harmless(cut, m, b, prefix) {
        forall i | 0 <= i < |out| ensures out[i].0 == cut.head {
          assert View(map[], map[], out[i].0) == [];
        }
        OnlyOne(out, cut.head);
      } else {
        var k :| HasPrefix(k, prefix) && k != cut.head && View(m, b, k) != [];
        var i :| 0 <= i < |out| && out[i].0 == k;
        if |out| == 1 && IsFirst(m, b, prefix, Start, k) { OneFirst(m, b, prefix, k, cut.head); }
      }
    }
  }

  lemma OnlyOne(out: seq<(Bytes, Bytes)>, k: Bytes)
    requires forall i, j :: 0 <= i < j < |out| ==> Less(out[i].0, out[j].0)
    requires forall i :: 0 <= i < |out| ==> out[i].0 == k
    ensures |out| <= 1
  {
    hide Less;
    assert |out| <= 1 || Less(out[0].0, out[1].0);
    LessIrreflexive(k);
  }

  lemma NothingListed(m: Store, b: Store, prefix: Bytes, out: seq<(Bytes, Bytes)>)
    requires IsListing(m, b, prefix, out) && Nothing(m, b, prefix)
    ensures out == [] && forall k :: HasPrefix(k, prefix) ==> View(m, b, k) == []
    ensures forall cut :: Harmless(cut, m, b, prefix)
  {
    hide HasPrefix, Less;
    assert out != [] ==> IsEntry(m, b, prefix, out[0]);
  }

  lemma OneFirst(m: Store, b: Store, prefix: Bytes, k: Bytes, k': Bytes)
    requires IsFirst(m, b, prefix, Start, k) && IsFirst(m, b, prefix, Start, k')
    ensures k == k'
  {
    LessAsymmetric(k, k');
  }

  lemma VisibleShrinks(m: Store, b: Store, prefix: Bytes, a: Mark, k: Bytes)
    requires IsFirstVisible(m, b, prefix, a, k)
    ensures |Remaining(m, b, At(k))| < |Remaining(m, b, a)|
  {
    var r, r' := Remaining(m, b, a), Remaining(m, b, At(k));
    assert k in r && k !in r' by { LessIrreflexive(k); }
    forall x | x in r' ensures x in r {
      if a.At? { LessTransitive(a.key, k, x); }
    }
    SubsetCount(r', r - {k});
  }
}
