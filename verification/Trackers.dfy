// State trackers: a transaction's private view of the state, with the keys it
// has read and the values it has written.
module Trackers {
  import opened Common
  import opened ByteStrings

  /** The recorded reads and the writes of one tracker; keys carry the tracker's prefix already. */
  datatype Trk = Trk(prefix: Bytes, deps: set<Bytes>, changes: map<Bytes, Bytes>)

  function Fresh(prefix: Bytes): Trk {
    Trk(prefix, {}, map[])
  }

  function Lookup(store: map<Bytes, Bytes>, key: Bytes): Bytes {
    if key in store then store[key] else []
  }

  /** What the block's root tracker answers: its own changes first, the stored state otherwise. */
  function RootValue(base: map<Bytes, Bytes>, changes: map<Bytes, Bytes>, key: Bytes): Bytes {
    if key in changes then changes[key] else Lookup(base, key)
  }

  function Note(t: Trk, key: Bytes): Trk {
    t.(deps := t.deps + {t.prefix + key})
  }

  function Write(t: Trk, key: Bytes, value: Bytes): Trk {
    t.(changes := t.changes[t.prefix + key := value])
  }

  /** Every change of the child written through the parent; the order cannot matter. */
  function Merged(t: Trk, child: Trk): Trk {
    t.(changes := t.changes + Prefixed(t.prefix, child.changes))
  }

  function Prefixed(prefix: Bytes, m: map<Bytes, Bytes>): (r: map<Bytes, Bytes>)
    ensures forall k :: k in m ==> prefix + k in r && r[prefix + k] == m[k]
    ensures forall k :: k in r ==> HasPrefix(k, prefix) && k[|prefix|..] in m
  {
    assert forall k, k' :: prefix + k == prefix + k' ==> k == k' by {
      forall k, k': Bytes | prefix + k == prefix + k' ensures k == k' {
        assert (prefix + k)[|prefix|..] == k && (prefix + k')[|prefix|..] == k';
      }
    }
    assert forall k :: k in m ==> (prefix + k)[|prefix|..] == k;
    map k | k in m :: prefix + k := m[k]
  }

  lemma PrefixedRemove(prefix: Bytes, m: map<Bytes, Bytes>, key: Bytes)
    requires key in m
    ensures Prefixed(prefix, m) == Prefixed(prefix, m - {key})[prefix + key := m[key]]
    ensures prefix + key !in Prefixed(prefix, m - {key})
    ensures |m - {key}| < |m|
  {
    var r, r' := Prefixed(prefix, m), Prefixed(prefix, m - {key})[prefix + key := m[key]];
    assert (prefix + key)[|prefix|..] == key;
    forall k | k in r || k in r' ensures k in r && k in r' && r[k] == r'[k] {
      assert HasPrefix(k, prefix);
      assert k == prefix + k[|prefix|..];
    }
    assert (m - {key}).Keys == m.Keys - {key};
    assert |m.Keys - {key}| == |m.Keys| - 1;
  }

  lemma MergeOne(changes: map<Bytes, Bytes>, prefix: Bytes, m: map<Bytes, Bytes>, key: Bytes)
    requires key in m
    ensures changes + Prefixed(prefix, m) == changes[prefix + key := m[key]] + Prefixed(prefix, m - {key})
    ensures |m - {key}| < |m|
  {
    PrefixedRemove(prefix, m, key);
    MoveEntry(changes, Prefixed(prefix, m - {key}), prefix + key, m[key]);
  }

  lemma MoveEntry<K, V>(a: map<K, V>, b: map<K, V>, k: K, v: V)
    requires k !in b
    ensures a + b[k := v] == a[k := v] + b
  {
  }

  lemma NothingToMerge(changes: map<Bytes, Bytes>, prefix: Bytes)
    ensures changes + Prefixed(prefix, map[]) == changes
  {
    assert Prefixed(prefix, map[]) == map[];
  }

  lemma SamePrefix(prefix: Bytes, k: Bytes, k': Bytes)
    ensures prefix + k == prefix + k' <==> k == k'
  {
    assert (prefix + k)[|prefix|..] == k && (prefix + k')[|prefix|..] == k';
  }

  lemma PrefixedAt(prefix: Bytes, m: map<Bytes, Bytes>, k: Bytes)
    ensures prefix + k in Prefixed(prefix, m) <==> k in m
    ensures k in m ==> Prefixed(prefix, m)[prefix + k] == m[k]
  {
    assert (prefix + k)[|prefix|..] == k;
  }

  function Over(m: map<Bytes, Bytes>, k: Bytes, below: Bytes): Bytes {
    if k in m then m[k] else below
  }

  lemma MergedOver(was: map<Bytes, Bytes>, prefix: Bytes, m: map<Bytes, Bytes>, k: Bytes, below: Bytes)
    ensures Over(was + Prefixed(prefix, m), prefix + k, below) == Over(m, k, Over(was, prefix + k, below))
  {
    PrefixedAt(prefix, m, k);
  }

  predicate DependencyChanged(changes: map<Bytes, Bytes>, deps: set<Bytes>) {
    exists k :: k in deps && k in changes
  }

  // ------------------------------------------------ the tracker as an object

  class StateTracker {
    const keyPrefix: Bytes
    const parent: StateTracker?
    const store: map<Bytes, Bytes>
    const trackDep: bool
    ghost const depth: nat
    var dependencies: set<Bytes>
    var changes: map<Bytes, Bytes>

    ghost predicate Valid()
      decreases depth
    {
      parent != null ==> parent.depth < depth && parent.Valid()
    }

    /** This tracker and the ones it reads through. */
    ghost function Line(): (s: set<StateTracker>)
      requires Valid()
      ensures this in s && forall t :: t in s ==> t.depth <= depth
      decreases depth
    {
      {this} + (if parent == null then {} else parent.Line())
    }

    function State(): Trk
      reads this
    {
      Trk(keyPrefix, dependencies, changes)
    }

    ghost function Value(key: Bytes): Bytes
      requires Valid()
      reads Line()
      decreases depth
    {
      var k := keyPrefix + key;
      if k in changes then changes[k]
      else if parent == null then Lookup(store, k)
      else parent.Value(k)
    }

    /** The keys a read of `key` leaves behind in tracker `t` of the line. */
    ghost function Touched(key: Bytes, t: StateTracker): set<Bytes>
      requires Valid()
      reads Line()
      decreases depth
    {
      var k := keyPrefix + key;
      if t == this then (if trackDep then {k} else {})
      else if k in changes || parent == null then {}
      else parent.Touched(k, t)
    }

    constructor Root(store: map<Bytes, Bytes>)
      ensures Valid() && parent == null && this.store == store && !trackDep
      ensures State() == Fresh([])
    {
      keyPrefix, parent, this.store, trackDep, depth := [], null, store, false, 0;
      dependencies, changes := {}, map[];
    }

    constructor Spawn(base: StateTracker, prefix: Bytes)
      requires base.Valid()
      ensures Valid() && parent == base && trackDep
      ensures State() == Fresh(prefix)
      ensures forall k :: Value(k) == base.Value(prefix + k)
    {
      keyPrefix, parent, store, trackDep, depth := prefix, base, map[], true, base.depth + 1;
      dependencies, changes := {}, map[];
    }

    /** A read answers from the nearest tracker of the line that has written the key, and leaves the
        key in the dependencies of exactly the trackers it went through. */
    method GetState(key: Bytes) returns (v: Bytes)
      requires Valid()
      modifies Line()`dependencies
      ensures v == old(Value(key))
      ensures forall t :: t in Line() && old(allocated(t)) ==>
        t.dependencies == old(t.dependencies) + old(Touched(key, t))
      decreases depth
    {
      var k := keyPrefix + key;
      if trackDep {
        dependencies := dependencies + {k};
      }
      if k in changes {
        return changes[k];
      }
      if parent == null {
        return Lookup(store, k);
      }
      assert this !in parent.Line();
      v := parent.GetState(k);
    }

    method SetState(key: Bytes, value: Bytes)
      modifies this`changes
      ensures State() == Write(old(State()), key, value)
      ensures Valid() ==> Value(key) == value && forall k :: k != key ==> Value(k) == old(Value(k))
    {
      changes := changes[keyPrefix + key := value];
      if Valid() {
        forall k: Bytes | k != key ensures Value(k) == old(Value(k)) {
          SamePrefix(keyPrefix, k, key);
          assert parent != null ==> this !in parent.Line();
        }
      }
    }

    /** What lies below this tracker, under the whole key. */
    ghost function Below(k: Bytes): Bytes
      requires Valid()
      reads if parent == null then {} else parent.Line()
    {
      if parent == null then Lookup(store, k) else parent.Value(k)
    }

    lemma LineAllocated()
      requires Valid()
      ensures forall t :: t in Line() ==> allocated(t)
      decreases depth
    {
      if parent != null { parent.LineAllocated(); }
    }

    lemma ValueIs(key: Bytes)
      requires Valid()
      ensures Value(key) == Over(changes, keyPrefix + key, Below(keyPrefix + key))
    {
    }

    /** Writes the changes of a child: afterwards it reads what the child has written. */
    method Merge(child: StateTracker)
      requires child != this
      modifies this`changes
      ensures State() == Merged(old(State()), child.State())
      ensures Valid() ==> forall k :: Value(k) == Over(child.changes, k, old(Value(k)))
      ensures Valid() && child.Valid() && child.parent == this ==>
        forall k :: Value(child.keyPrefix + k) == old(child.Value(k))
    {
      hide Prefixed, Over, Value;
      if Valid() {
        if parent != null { parent.LineAllocated(); }
        forall k ensures Value(k) == Over(changes, keyPrefix + k, Below(keyPrefix + k)) { ValueIs(k); }
        assert parent != null ==> this !in parent.Line();
      }
      if Valid() && child.Valid() && child.parent == this {
        forall k ensures child.Value(k) == Over(child.changes, child.keyPrefix + k, Value(child.keyPrefix + k)) {
          child.ValueIs(k);
          child.BelowIs(child.keyPrefix + k);
        }
      }
      MergeChanges(child);
      if Valid() {
        forall k ensures Value(k) == Over(child.changes, k, old(Value(k))) {
          ValueIs(k);
          MergedOver(old(changes), keyPrefix, child.changes, k, Below(keyPrefix + k));
          assert parent != null ==> this !in parent.Line();
          assert Below(keyPrefix + k) == old(Below(keyPrefix + k));
        }
      }
    }

    lemma BelowIs(k: Bytes)
      requires Valid() && parent != null
      ensures Below(k) == parent.Value(k)
    {
    }

    method MergeChanges(child: StateTracker)
      requires child != this
      modifies this`changes
      ensures changes == old(changes) + Prefixed(keyPrefix, child.changes)
    {
      var todo := child.changes;
      ghost var before := changes;
      while todo != map[]
        invariant changes + Prefixed(keyPrefix, todo) == before + Prefixed(keyPrefix, child.changes)
        decreases |todo|
      {
        var key :| key in todo;
        MergeOne(changes, keyPrefix, todo, key);
        changes := changes[keyPrefix + key := todo[key]];
        todo := todo - {key};
      }
      NothingToMerge(changes, keyPrefix);
    }

    method HasDependencyChanges(child: StateTracker) returns (changed: bool)
      ensures changed <==> exists k :: k in child.dependencies && keyPrefix + k in changes
      ensures keyPrefix == [] ==> (changed <==> DependencyChanged(changes, child.dependencies))
    {
      var todo := child.dependencies;
      while todo != {}
        invariant todo <= child.dependencies
        invariant forall k :: k in child.dependencies - todo ==> keyPrefix + k !in changes
        decreases todo
      {
        var key :| key in todo;
        if keyPrefix + key in changes {
          assert [] + key == key;
          return true;
        }
        todo := todo - {key};
      }
      assert forall k: Bytes :: [] + k == k;
      return false;
    }
  }
}
