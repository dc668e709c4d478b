// The state a contract execution sees: storage overlay, suicides, refund, logs, and nested snapshots.
module StateStore {
  import opened Common
  import opened ByteStrings
  import opened Iterators
  import opened JoinIterator
  import opened MemDBStore
  import opened CacheStore

  const ETH_ACCOUNT: Byte := 20
  const WORD: nat := 32

  /** Everything a snapshot is to bring back. */
  datatype Saved = Saved(contents: Store, suicided: set<Bytes>, logs: seq<Bytes>, refund: nat)

  datatype SnapshotRecord = SnapshotRecord(changes: MemDB, suicided: set<Bytes>, logsSize: nat, refund: nat)

  // ------------------------------------------------ the stack of saved states

  /** What callers do between taking a snapshot and reverting to it. */
  datatype Act = Write(after: Saved) | Take | Revert(idx: nat)

  datatype Stack = Stack(now: Saved, saved: seq<Saved>)

  function Do(s: Stack, a: Act): Stack {
    match a
    case Write(after) => s.(now := after)
    case Take => s.(saved := s.saved + [s.now])
    case Revert(i) => if i < |s.saved| then Stack(s.saved[i], s.saved[..i]) else s
  }

  function DoAll(s: Stack, acts: seq<Act>): Stack
    decreases |acts|
  {
    if acts == [] then s else DoAll(Do(s, acts[0]), acts[1..])
  }

  /** Whatever is written, saved and reverted inside, the outer snapshots stay as they were taken. */
  lemma {:induction false} OuterSnapshotsKept(s: Stack, acts: seq<Act>, depth: nat)
    requires depth <= |s.saved|
    requires forall i :: 0 <= i < |acts| && acts[i].Revert? ==> acts[i].idx >= depth
    ensures |DoAll(s, acts).saved| >= depth
    ensures DoAll(s, acts).saved[..depth] == s.saved[..depth]
    decreases |acts|
  {
    if acts != [] {
      var s' := Do(s, acts[0]);
      assert s'.saved[..depth] == s.saved[..depth];
      assert forall i :: 0 <= i < |acts| - 1 ==> acts[1..][i] == acts[i + 1];
      OuterSnapshotsKept(s', acts[1..], depth);
    }
  }

  /**
   * Reverting to a snapshot undoes everything done since it was taken, inner snapshots and reverts
   * included, and leaves the outer snapshots.
   */
  lemma RevertRestores(s: Stack, acts: seq<Act>)
    requires forall i :: 0 <= i < |acts| && acts[i].Revert? ==> acts[i].idx > |s.saved|
    ensures Do(DoAll(Do(s, Take), acts), Revert(|s.saved|)) == s
  {
    var taken := Do(s, Take);
    var id := |s.saved|;
    OuterSnapshotsKept(taken, acts, id + 1);
    var after := DoAll(taken, acts);
    assert after.saved[id] == after.saved[..id + 1][id] == s.now;
    assert after.saved[..id] == after.saved[..id + 1][..id] == s.saved;
  }

  // ------------------------------------------------ words

  /** A byte string as a 32-byte word: the tail of a long one, a short one padded on the left. */
  function ToHash(v: Bytes): (r: Bytes)
    ensures |r| == WORD && (|v| == WORD ==> r == v)
    ensures |v| > WORD ==> r == v[|v| - WORD..]
    ensures |v| <= WORD ==> r[WORD - |v|..] == v && forall i :: 0 <= i < WORD - |v| ==> r[i] == 0
  {
    if |v| > WORD then v[|v| - WORD..] else seq(WORD - |v|, i => 0) + v
  }

  function SlotKey(contract: Bytes, key: Bytes): Bytes {
    [STORAGE] + (contract + key)
  }

  /** Neither nonce (8 bytes) nor code hash (32 bytes), or no complete record. */
  predicate AccountEmpty(account: Bytes) {
    |account| < 8 + WORD || forall i :: 0 <= i < 8 + WORD ==> account[i] == 0
  }

  /** A snapshot describes the state it was taken in. */
  ghost predicate Holds(sn: SnapshotRecord, logs: seq<Bytes>, was: Saved)
    reads sn.changes
  {
    && sn.changes.Valid() && sn.changes.contents == was.contents
    && sn.suicided == was.suicided && sn.refund == was.refund
    && sn.logsSize <= |logs| && logs[..sn.logsSize] == was.logs
  }

  class StateDB {
    const cacheDB: CacheDB
    var suicided: set<Bytes>
    var logs: seq<Bytes>
    var refund: nat
    var snapshots: seq<SnapshotRecord>

    /** The states the snapshots stand for. */
    ghost var saved: seq<Saved>

    ghost function Now(): Saved
      reads this, cacheDB, cacheDB.memdb
    {
      Saved(cacheDB.memdb.contents, suicided, logs, refund)
    }

    ghost function Abstract(): Stack
      reads this, cacheDB, cacheDB.memdb
    {
      Stack(Now(), saved)
    }

    /** No store is shared: not between two snapshots, not between a snapshot and the live overlay. */
    ghost predicate NoAliasing()
      reads this, cacheDB
    {
      && (forall i :: 0 <= i < |snapshots| ==> snapshots[i].changes != cacheDB.memdb)
      && (forall i, j :: 0 <= i < j < |snapshots| ==> snapshots[i].changes != snapshots[j].changes)
    }

    ghost predicate Valid()
      reads this, cacheDB, cacheDB.memdb, set i | 0 <= i < |snapshots| :: snapshots[i].changes
    {
      && cacheDB.Valid() && |saved| == |snapshots| && NoAliasing()
      && (forall i :: 0 <= i < |snapshots| ==> Holds(snapshots[i], logs, saved[i]))
      && (forall i, j :: 0 <= i < j < |snapshots| ==> snapshots[i].logsSize <= snapshots[j].logsSize)
    }

    constructor (cacheDB: CacheDB)
      requires cacheDB.Valid()
      ensures Valid() && this.cacheDB == cacheDB && saved == []
      ensures Now() == Saved(cacheDB.memdb.contents, {}, [], 0)
    {
      this.cacheDB := cacheDB;
      suicided, logs, refund, snapshots, saved := {}, [], 0, [], [];
    }

    method SetState(contract: Bytes, key: Bytes, value: Bytes)
      requires Valid()
      modifies cacheDB.memdb
      ensures Valid()
      ensures Abstract() == Do(old(Abstract()),
        Write(old(Now()).(contents := old(cacheDB.memdb.contents)[SlotKey(contract, key) := value])))
      ensures cacheDB.Reads(SlotKey(contract, key)) == value
      ensures forall k :: k != SlotKey(contract, key) ==> cacheDB.Reads(k) == old(cacheDB.Reads(k))
      ensures suicided == old(suicided) && logs == old(logs) && refund == old(refund) && saved == old(saved)
    {
      hide MemDB.Valid, SameKeys;
      cacheDB.Put(STORAGE, contract + key, value);
    }

    method GetState(contract: Bytes, key: Bytes) returns (r: Bytes)
      requires Valid()
      modifies cacheDB.memdb`prevNode
      ensures Valid() && Abstract() == old(Abstract())
      ensures r == ToHash(cacheDB.Reads(SlotKey(contract, key)))
    {
      hide MemDB.Valid;
      var _, v := cacheDB.Get(STORAGE, contract + key);
      r := ToHash(v);
    }

    method GetCommittedState(contract: Bytes, key: Bytes) returns (r: Bytes)
      requires Valid()
      ensures Valid() && r == ToHash(View(map[], cacheDB.backend, SlotKey(contract, key)))
    {
      var k := [STORAGE] + contract + key;
      assert k == SlotKey(contract, key);
      r := ToHash(if k in cacheDB.backend then cacheDB.backend[k] else []);
    }

    method AddLog(log: Bytes)
      requires Valid()
      modifies this`logs
      ensures Valid() && Abstract() == Do(old(Abstract()), Write(old(Now()).(logs := old(logs) + [log])))
      ensures logs == old(logs) + [log]
    {
      hide MemDB.Valid;
      logs := logs + [log];
      assert forall i :: 0 <= i < |snapshots| ==>
        logs[..snapshots[i].logsSize] == old(logs)[..snapshots[i].logsSize];
    }

    /** Only an account that holds a nonce or code can be marked. */
    method Suicide(addr: Bytes) returns (ok: bool)
      requires Valid()
      modifies this`suicided, cacheDB.memdb`prevNode
      ensures Valid()
      ensures var account := cacheDB.Reads([ETH_ACCOUNT] + addr);
        ok <==> |account| >= 40 && exists i :: 0 <= i < 40 && account[i] != 0
      ensures ok ==> Abstract() == Do(old(Abstract()), Write(old(Now()).(suicided := old(suicided) + {addr})))
      ensures suicided == (if ok then old(suicided) + {addr} else old(suicided))
      ensures !ok ==> Abstract() == old(Abstract())
    {
      hide MemDB.Valid, View;
      var _, account := cacheDB.Get(ETH_ACCOUNT, addr);
      if AccountEmpty(account) {
        return false;
      }
      suicided := suicided + {addr};
      return true;
    }

    /** The counter is a 64-bit one and wraps. */
    method AddRefund(gas: nat)
      requires Valid()
      modifies this`refund
      ensures Valid() && Abstract() == Do(old(Abstract()), Write(old(Now()).(refund := (old(refund) + gas) % UINT64)))
      ensures refund == (old(refund) + gas) % UINT64
    {
      hide MemDB.Valid;
      refund := (refund + gas) % UINT64;
    }

    /** `ok` is false where the counter would go below zero. */
    method SubRefund(gas: nat) returns (ok: bool)
      requires Valid()
      modifies this`refund
      ensures Valid() && (ok <==> gas <= old(refund))
      ensures ok ==> Abstract() == Do(old(Abstract()), Write(old(Now()).(refund := old(refund) - gas)))
      ensures refund == if ok then old(refund) - gas else old(refund)
      ensures !ok ==> Abstract() == old(Abstract())
    {
      hide MemDB.Valid;
      if gas > refund {
        return false;
      }
      refund := refund - gas;
      return true;
    }

    /** Saves the whole state, in a store of its own, and returns the snapshot's number. */
    method Snapshot() returns (id: nat)
      requires Valid()
      modifies this`snapshots, this`saved
      ensures Valid() && id == |old(snapshots)|
      ensures Abstract() == Do(old(Abstract()), Take)
      ensures Now() == old(Now()) && saved == old(saved) + [old(Now())]
      ensures fresh(snapshots[id].changes)
    {
      hide MemDB.Valid;
      var changes := cacheDB.memdb.DeepClone();
      id := |snapshots|;
      snapshots := snapshots + [SnapshotRecord(changes, suicided, |logs|, refund)];
      saved := saved + [Now()];
      assert logs[..|logs|] == logs;
    }

    /** Brings the saved state back and drops it with every later one; `ok` is false for no such snapshot. */
    method RevertToSnapshot(idx: nat) returns (ok: bool)
      requires Valid()
      modifies this, cacheDB`memdb
      ensures Valid() && (ok <==> idx < |old(snapshots)|)
      ensures Abstract() == Do(old(Abstract()), Revert(idx))
      ensures ok ==> Now() == old(saved)[idx] && saved == old(saved)[..idx]
      ensures !ok ==> Now() == old(Now()) && saved == old(saved)
    {
      hide MemDB.Valid;
      if idx + 1 > |snapshots| {
        return false;
      }
      var sn := snapshots[idx];
      assert Holds(sn, logs, saved[idx]);
      snapshots := snapshots[..idx];
      saved := saved[..idx];
      cacheDB.memdb := sn.changes;
      suicided, refund, logs := sn.suicided, sn.refund, logs[..sn.logsSize];
      forall i | 0 <= i < idx ensures Holds(snapshots[i], logs, saved[i]) {
        assert old(Holds(snapshots[i], logs, saved[i]));
        assert logs[..snapshots[i].logsSize] == old(logs)[..snapshots[i].logsSize];
      }
      return true;
    }

    /**
     * Empties the account and the storage of every suicided address, in any order, and drops the
     * snapshots: exactly those keys read as nothing, all others as before.
     */
    method CommitToCacheDB()
      requires Valid()
      modifies this`suicided, this`snapshots, this`saved, cacheDB.memdb
      ensures Valid() && Now() == Saved(cacheDB.memdb.contents, {}, old(logs), old(refund)) && saved == []
      ensures forall k :: cacheDB.Reads(k) == if Dead(k, old(suicided)) then [] else old(cacheDB.Reads(k))
    {
      hide MemDB.Valid, HasPrefix, View, SameKeys;
      var todo := suicided;
      ghost var done: set<Bytes> := {};
      while todo != {}
        invariant cacheDB.Valid() && done + todo == suicided
        invariant Cleaned(old(cacheDB.memdb.contents), cacheDB.memdb.contents, cacheDB.backend, done)
        modifies cacheDB.memdb
        decreases todo
      {
        var addr :| addr in todo;
        todo := todo - {addr};
        ghost var m := cacheDB.memdb.contents;
        cacheDB.Put(ETH_ACCOUNT, addr, []);
        ghost var m1 := cacheDB.memdb.contents;
        cacheDB.CleanContractStorageData(addr);
        CleanOne(old(cacheDB.memdb.contents), m, m1, cacheDB.memdb.contents, cacheDB.backend, done, addr);
        done := done + {addr};
      }
      suicided, snapshots, saved := {}, [], [];
      CleanedMeans(old(cacheDB.memdb.contents), cacheDB.memdb.contents, cacheDB.backend, done);
    }

    /** The whole commit: afterwards committed and current state are the same everywhere. */
    method Commit()
      requires Valid()
      modifies this`suicided, this`snapshots, this`saved, cacheDB.memdb, cacheDB`backend
      ensures Valid() && Now() == Saved(map[], {}, old(logs), old(refund)) && saved == []
      ensures forall k :: cacheDB.Reads(k) == if Dead(k, old(suicided)) then [] else old(cacheDB.Reads(k))
      ensures forall k :: View(map[], cacheDB.backend, k) == cacheDB.Reads(k)
    {
      hide MemDB.Valid, HasPrefix, View, Dead, Flushed;
      CommitToCacheDB();
      cacheDB.Commit();
    }
  }

  /** The keys of suicided addresses: their account and everything in their storage. */
  ghost predicate Dead(k: Bytes, gone: set<Bytes>) {
    exists a :: a in gone && (k == [ETH_ACCOUNT] + a || HasPrefix(k, [STORAGE] + a))
  }

  ghost predicate Cleaned(m0: Store, m: Store, b: Store, done: set<Bytes>) {
    forall k :: View(m, b, k) == if Dead(k, done) then [] else View(m0, b, k)
  }

  lemma CleanedMeans(m0: Store, m: Store, b: Store, done: set<Bytes>)
    requires Cleaned(m0, m, b, done)
    ensures forall k :: View(m, b, k) == if Dead(k, done) then [] else View(m0, b, k)
  {
  }

  lemma CleanOne(m0: Store, m: Store, m1: Store, m2: Store, b: Store, done: set<Bytes>, addr: Bytes)
    requires Cleaned(m0, m, b, done) && m1 == m[[ETH_ACCOUNT] + addr := []]
    requires forall k :: HasPrefix(k, [STORAGE] + addr) ==> View(m2, b, k) == []
    requires OnlyUnder(m1, m2, [STORAGE] + addr)
    ensures Cleaned(m0, m2, b, done + {addr})
  {
    hide HasPrefix;
    var prefix := [STORAGE] + addr;
    forall k ensures View(m2, b, k) == if Dead(k, done + {addr}) then [] else View(m0, b, k) {
      DeadGrows(k, done, addr);
      if HasPrefix(k, prefix) {
        assert View(m2, b, k) == [];
      } else {
        assert View(m2, b, k) == View(m1, b, k);
        assert View(m, b, k) == if Dead(k, done) then [] else View(m0, b, k);
      }
    }
  }

  lemma DeadGrows(k: Bytes, done: set<Bytes>, addr: Bytes)
    ensures Dead(k, done + {addr}) <==> Dead(k, done) || k == [ETH_ACCOUNT] + addr || HasPrefix(k, [STORAGE] + addr)
  {
    hide HasPrefix;
    if k == [ETH_ACCOUNT] + addr || HasPrefix(k, [STORAGE] + addr) {
      assert addr in done + {addr};
    }
    if Dead(k, done) {
      var a :| a in done && (k == [ETH_ACCOUNT] + a || HasPrefix(k, [STORAGE] + a));
      assert a in done + {addr};
    }
  }
}
