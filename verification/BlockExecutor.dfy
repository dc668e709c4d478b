// Optimistic parallel execution of a block: transactions run speculatively on a
// moving state, are merged in index order, and run again when something they
// read has changed. Every interleaving gives what running them one by one gives.
module BlockExecutor {
  import opened Common
  import opened ByteStrings
  import opened Trackers

  type Store = map<Bytes, Bytes>

  /**
   * What chaincode can ask of its trackers. Tracker 0 is the transaction's own tracker,
   * tracker i + 1 the i-th one spawned from it.
   */
  datatype Op =
    | Spawn(prefix: Bytes)
    | Get(trk: nat, key: Bytes)
    | Put(trk: nat, key: Bytes, value: Bytes)
    | MergeKid(kid: nat)
    | Finish(error: Bytes)

  /** Deterministic chaincode: the answers received so far decide the next request. */
  type Code = seq<Bytes> -> Op

  /** `error` is empty for success, as in a transaction commit record. */
  datatype Local = Local(txTrk: Trk, kids: seq<Trk>, answers: seq<Bytes>, error: Option<Bytes>)

  function Begin(): Local {
    Local(Fresh([]), [], [], None)
  }

  /** A read through the transaction tracker down to the root. */
  function ReadTx(l: Local, base: Store, root: Store, key: Bytes): (Local, Bytes) {
    var k := l.txTrk.prefix + key;
    (l.(txTrk := Note(l.txTrk, key)),
     if k in l.txTrk.changes then l.txTrk.changes[k] else RootValue(base, root, k))
  }

  function ReadKid(l: Local, base: Store, root: Store, kid: nat, key: Bytes): (Local, Bytes)
    requires kid < |l.kids|
  {
    var t := l.kids[kid];
    var l1 := l.(kids := l.kids[kid := Note(t, key)]);
    var k := t.prefix + key;
    if k in t.changes then (l1, t.changes[k]) else ReadTx(l1, base, root, k)
  }

  /** A transaction's tracker object, spawned from the block's root tracker over the stored state. */
  ghost predicate OnRoot(tx: StateTracker, base: Store, root: Store)
    reads tx, if tx.parent == null then {} else {tx.parent}
  {
    && tx.Valid() && tx.trackDep && tx.parent != null && tx.parent.parent == null
    && !tx.parent.trackDep && tx.parent.keyPrefix == [] && tx.parent.store == base && tx.parent.changes == root
  }

  /** What a read notes in a tracker. */
  function Noted(t: Trk, touched: set<Bytes>): Trk { t.(deps := t.deps + touched) }

  /** Reading as a function is reading through the tracker objects: same answer, same notes, none in the root. */
  lemma ReadTxIsTracker(tx: StateTracker, l: Local, base: Store, root: Store, key: Bytes)
    requires OnRoot(tx, base, root) && l.txTrk == tx.State()
    ensures ReadTx(l, base, root, key).1 == tx.Value(key)
    ensures ReadTx(l, base, root, key).0 == l.(txTrk := Noted(tx.State(), tx.Touched(key, tx)))
    ensures tx.Touched(key, tx.parent) == {}
  {
    var k := tx.keyPrefix + key;
    assert tx.parent.keyPrefix + k == k;
  }

  lemma ReadKidIsTracker(child: StateTracker, l: Local, base: Store, root: Store, kid: nat, key: Bytes)
    requires child.Valid() && child.trackDep && child.parent != null && OnRoot(child.parent, base, root)
    requires kid < |l.kids| && l.kids[kid] == child.State() && l.txTrk == child.parent.State()
    ensures ReadKid(l, base, root, kid, key).1 == child.Value(key)
    ensures ReadKid(l, base, root, kid, key).0 == l.(
      kids := l.kids[kid := Noted(child.State(), child.Touched(key, child))],
      txTrk := Noted(l.txTrk, child.Touched(key, child.parent)))
  {
    var k := child.keyPrefix + key;
    if k in child.changes {
      assert l.txTrk.deps + {} == l.txTrk.deps;
    } else {
      ReadTxIsTracker(child.parent, l.(kids := l.kids[kid := Note(l.kids[kid], key)]), base, root, k);
    }
  }

  function Answer(l: Local, a: Bytes): Local {
    l.(answers := l.answers + [a])
  }

  /** One request of the chaincode, answered against the root changes of this moment. */
  function StepLocal(code: Code, l: Local, base: Store, root: Store): Local {
    if l.error.Some? then l
    else
      match code(l.answers)
      case Spawn(prefix) => Answer(l.(kids := l.kids + [Fresh(prefix)]), [])
      case Get(trk, key) =>
        if trk == 0 then var r := ReadTx(l, base, root, key); Answer(r.0, r.1)
        else if trk <= |l.kids| then var r := ReadKid(l, base, root, trk - 1, key); Answer(r.0, r.1)
        else Answer(l, [])
      case Put(trk, key, value) =>
        if trk == 0 then Answer(l.(txTrk := Write(l.txTrk, key, value)), [])
        else if trk <= |l.kids| then
          Answer(l.(kids := l.kids[trk - 1 := Write(l.kids[trk - 1], key, value)]), [])
        else Answer(l, [])
      case MergeKid(kid) =>
        if kid < |l.kids| then Answer(l.(txTrk := Merged(l.txTrk, l.kids[kid])), []) else Answer(l, [])
      case Finish(error) => l.(error := Some(error))
  }

  // ------------------------------------------------------- what a request does, seen through reads

  /** What a read of a tracker would answer now. */
  function See(l: Local, base: Store, root: Store, trk: nat, key: Bytes): Bytes
    requires trk <= |l.kids|
  {
    if trk == 0 then ReadTx(l, base, root, key).1 else ReadKid(l, base, root, trk - 1, key).1
  }

  /** Every tracker of the first reads in the second what it read before. */
  ghost predicate SameReads(l: Local, l': Local, base: Store, root: Store) {
    |l.kids| <= |l'.kids| &&
    forall trk: nat, key :: trk <= |l.kids| ==> See(l', base, root, trk, key) == See(l, base, root, trk, key)
  }

  predicate Asks(code: Code, l: Local, op: Op) { l.error.None? && code(l.answers) == op }

  /** A tracker spawned from the transaction's reads what that reads under the prefix. */
  lemma SpawnMeans(code: Code, l: Local, base: Store, root: Store, prefix: Bytes)
    requires Asks(code, l, Spawn(prefix))
    ensures var l' := StepLocal(code, l, base, root);
      && l'.answers == l.answers + [[]] && l'.error == None && |l'.kids| == |l.kids| + 1
      && SameReads(l, l', base, root)
      && forall key :: See(l', base, root, |l'.kids|, key) == See(l, base, root, 0, prefix + key)
  {
  }

  /** A read is answered, and changes no reads. */
  lemma GetMeans(code: Code, l: Local, base: Store, root: Store, trk: nat, key: Bytes)
    requires Asks(code, l, Get(trk, key)) && trk <= |l.kids|
    ensures var l' := StepLocal(code, l, base, root);
      && l'.answers == l.answers + [See(l, base, root, trk, key)] && l'.error == None
      && SameReads(l, l', base, root) && |l'.kids| == |l.kids|
  {
    hide SameReads;
    NotesDoNotMatter(l, StepLocal(code, l, base, root), base, root);
  }

  predicate SameWrites(t: Trk, t': Trk) { t.prefix == t'.prefix && t.changes == t'.changes }

  /** What trackers have noted makes no difference to what they read. */
  lemma NotesDoNotMatter(l: Local, l': Local, base: Store, root: Store)
    requires SameWrites(l.txTrk, l'.txTrk) && |l.kids| == |l'.kids|
    requires forall i :: 0 <= i < |l.kids| ==> SameWrites(l.kids[i], l'.kids[i])
    ensures SameReads(l, l', base, root)
  {
    forall trk: nat, key | trk <= |l.kids| ensures See(l', base, root, trk, key) == See(l, base, root, trk, key) {
      assert trk > 0 ==> SameWrites(l.kids[trk - 1], l'.kids[trk - 1]);
    }
  }

  /** A write is what that tracker reads from then on; its other keys and what others wrote themselves stay. */
  lemma PutMeans(code: Code, l: Local, base: Store, root: Store, trk: nat, key: Bytes, value: Bytes)
    requires Asks(code, l, Put(trk, key, value)) && trk <= |l.kids|
    ensures var l' := StepLocal(code, l, base, root);
      && l'.answers == l.answers + [[]] && l'.error == None && |l'.kids| == |l.kids|
      && See(l', base, root, trk, key) == value
      && (forall k :: k != key ==> See(l', base, root, trk, k) == See(l, base, root, trk, k))
      && (forall t: nat, k :: t <= |l.kids| && t != trk ==>
           See(l', base, root, t, k) == if ThroughTx(l, trk, key, t, k) then value else See(l, base, root, t, k))
  {
    forall k | k != key ensures See(StepLocal(code, l, base, root), base, root, trk, k) == See(l, base, root, trk, k) {
      SamePrefix(if trk == 0 then l.txTrk.prefix else l.kids[trk - 1].prefix, k, key);
    }
    forall t: nat, k | t <= |l.kids| && t != trk
      ensures See(StepLocal(code, l, base, root), base, root, t, k)
        == if ThroughTx(l, trk, key, t, k) then value else See(l, base, root, t, k)
    {
      if trk == 0 { SamePrefix(l.txTrk.prefix, l.kids[t - 1].prefix + k, key); }
    }
  }

  /** A spawned tracker that has not written the key itself reads it through the transaction's. */
  predicate ThroughTx(l: Local, trk: nat, key: Bytes, t: nat, k: Bytes) {
    trk == 0 < t <= |l.kids| && l.kids[t - 1].prefix + k == key && key !in l.kids[t - 1].changes
  }

  /** Merging makes the transaction read what the merged tracker read, and touches nothing that one did not write. */
  lemma MergeMeans(code: Code, l: Local, base: Store, root: Store, kid: nat)
    requires Asks(code, l, MergeKid(kid)) && kid < |l.kids|
    ensures var l' := StepLocal(code, l, base, root);
      && l'.answers == l.answers + [[]] && l'.error == None && l'.kids == l.kids
      && (forall key :: See(l', base, root, 0, l.kids[kid].prefix + key) == See(l, base, root, kid + 1, key))
      && (forall k :: k !in l.kids[kid].changes ==> See(l', base, root, 0, k) == See(l, base, root, 0, k))
  {
    hide Prefixed;
    var t := l.kids[kid];
    forall k ensures See(StepLocal(code, l, base, root), base, root, 0, k) ==
      if k in t.changes then t.changes[k] else See(l, base, root, 0, k)
    {
      PrefixedAt(l.txTrk.prefix, t.changes, k);
    }
  }

  /** Finishing ends the transaction with that error; after that nothing happens. */
  lemma FinishMeans(code: Code, l: Local, base: Store, root: Store, error: Bytes)
    requires Asks(code, l, Finish(error))
    ensures var l' := StepLocal(code, l, base, root);
      l' == l.(error := Some(error)) && StepLocal(code, l', base, root) == l'
  {
  }

  /** The transaction after n requests on a state that stands still. */
  function StepN(code: Code, base: Store, root: Store, n: nat): Local {
    if n == 0 then Begin() else StepLocal(code, StepN(code, base, root, n - 1), base, root)
  }

  // ------------------------------------------------------- one by one

  function Absorb(root: Store, l: Local): Store
    requires l.error.Some?
  {
    if l.error.value == [] then root + l.txTrk.changes else root
  }

  /** Running one transaction alone on `root` finishes, with this error and these changes. */
  ghost predicate SerialTx(code: Code, base: Store, root: Store, root': Store, error: Bytes) {
    exists n :: (var l := StepN(code, base, root, n);
                 l.error == Some(error) && root' == Absorb(root, l))
  }

  /** After a transaction that succeeded the state reads as the transaction read it; one that failed changed nothing. */
  lemma SerialTxMeans(code: Code, base: Store, root: Store, root': Store, error: Bytes)
    requires SerialTx(code, base, root, root', error)
    ensures error != [] ==> root' == root
    ensures error == [] ==> exists n :: (var l := StepN(code, base, root, n);
      l.error == Some([]) && forall k :: RootValue(base, root', k) == See(l, base, root, 0, k))
  {
    var n :| var l := StepN(code, base, root, n); l.error == Some(error) && root' == Absorb(root, l);
    PrefixStays(code, base, root, n);
    var l := StepN(code, base, root, n);
    assert forall k: Bytes :: l.txTrk.prefix + k == k;
  }

  lemma {:induction false} PrefixStays(code: Code, base: Store, root: Store, n: nat)
    ensures StepN(code, base, root, n).txTrk.prefix == []
  {
    if n > 0 {
      PrefixStays(code, base, root, n - 1);
      StepKeepsDeps(code, StepN(code, base, root, n - 1), base, root);
    }
  }

  ghost predicate SerialRun(codes: seq<Code>, base: Store, roots: seq<Store>, errors: seq<Bytes>) {
    && |roots| == |errors| + 1 && |errors| <= |codes|
    && roots[0] == map[]
    && forall i :: 0 <= i < |errors| ==> SerialTx(codes[i], base, roots[i], roots[i + 1], errors[i])
  }

  // ------------------------------------------------------- interleaved

  /** `steps` counts requests and serves only to name the state a transaction is in. */
  datatype Job =
    | Idle
    | Speculating(l: Local, steps: nat)
    | Rerunning(l: Local, steps: nat)
    | Ready(l: Local, steps: nat)
    | Done

  datatype Exec = Exec(root: Store, mergeIdx: nat, jobs: seq<Job>, commits: seq<Option<Bytes>>)

  datatype Step = Start(i: nat) | Work(i: nat) | Check(i: nat) | Merge(i: nat)

  ghost predicate Init(codes: seq<Code>, s: Exec) {
    && s.root == map[] && s.mergeIdx == 0
    && |s.jobs| == |codes| && |s.commits| == |codes|
    && (forall i :: 0 <= i < |codes| ==> s.jobs[i] == Idle)
  }

  predicate Enabled(s: Exec, step: Step) {
    step.i < |s.jobs| && step.i < |s.commits| &&
    match step
    case Start(i) => s.jobs[i].Idle?
    case Work(i) => (s.jobs[i].Speculating? || s.jobs[i].Rerunning?) && s.jobs[i].l.error.None?
    case Check(i) => s.jobs[i].Speculating? && s.jobs[i].l.error.Some? && s.mergeIdx == i
    case Merge(i) => s.jobs[i].Ready? || (s.jobs[i].Rerunning? && s.jobs[i].l.error.Some?)
  }

  /** The commit record of a transaction is written when an execution of it finishes. */
  function Record(commits: seq<Option<Bytes>>, i: nat, l: Local): seq<Option<Bytes>>
    requires i < |commits|
  {
    if l.error.Some? then commits[i := l.error] else commits
  }

  /** Only a transaction whose recorded error is empty is merged. */
  function Apply(codes: seq<Code>, base: Store, s: Exec, step: Step): Exec
    requires |s.jobs| == |codes| && Enabled(s, step)
  {
    var i := step.i;
    match step
    case Start(_) => s.(jobs := s.jobs[i := Speculating(Begin(), 0)])
    case Work(_) =>
      var l := StepLocal(codes[i], s.jobs[i].l, base, s.root);
      var n := s.jobs[i].steps + 1;
      s.(jobs := s.jobs[i := if s.jobs[i].Speculating? then Speculating(l, n) else Rerunning(l, n)],
         commits := Record(s.commits, i, l))
    case Check(_) =>
      s.(jobs := s.jobs[i := if DependencyChanged(s.root, s.jobs[i].l.txTrk.deps)
                             then Rerunning(Begin(), 0)
                             else Ready(s.jobs[i].l, s.jobs[i].steps)])
    case Merge(_) =>
      s.(jobs := s.jobs[i := Done], mergeIdx := s.mergeIdx + 1,
         root := if s.commits[i] == Some([]) then s.root + s.jobs[i].l.txTrk.changes else s.root)
  }

  ghost predicate Next(codes: seq<Code>, base: Store, s: Exec, s': Exec) {
    |s.jobs| == |codes| && exists step :: Enabled(s, step) && s' == Apply(codes, base, s, step)
  }

  ghost predicate StepAt(codes: seq<Code>, base: Store, run: seq<Exec>, k: nat)
    requires k + 1 < |run|
  {
    Next(codes, base, run[k], run[k + 1])
  }

  ghost predicate IsRun(codes: seq<Code>, base: Store, run: seq<Exec>) {
    && |run| > 0 && Init(codes, run[0])
    && forall k: nat :: k + 1 < |run| ==> StepAt(codes, base, run, k)
  }

  // ------------------------------------------------------- invariant

  /** The execution so far is what any root state that leaves the recorded reads alone would give. */
  ghost predicate Faithful(code: Code, base: Store, l: Local, n: nat) {
    forall root: Store :: root.Keys !! l.txTrk.deps ==> StepN(code, base, root, n) == l
  }

  ghost predicate JobOk(code: Code, base: Store, s: Exec, i: nat)
    requires i < |s.jobs| && i < |s.commits|
  {
    var job := s.jobs[i];
    match job
    case Idle => true
    case Speculating(l, n) =>
      && (!DependencyChanged(s.root, l.txTrk.deps) ==> Faithful(code, base, l, n))
      && (l.error.Some? ==> s.commits[i] == l.error)
    case Rerunning(l, n) =>
      i == s.mergeIdx && l == StepN(code, base, s.root, n) && (l.error.Some? ==> s.commits[i] == l.error)
    case Ready(l, n) =>
      i == s.mergeIdx && l == StepN(code, base, s.root, n) && l.error.Some? && s.commits[i] == l.error
    case Done => i < s.mergeIdx && s.commits[i].Some?
  }

  ghost predicate Inv(codes: seq<Code>, base: Store, s: Exec, roots: seq<Store>, errors: seq<Bytes>) {
    && |s.jobs| == |codes| && |s.commits| == |codes| && s.mergeIdx <= |codes|
    && (forall i :: 0 <= i < |codes| ==> JobOk(codes[i], base, s, i))
    && (forall i :: 0 <= i < s.mergeIdx ==> s.jobs[i].Done?)
    && SerialRun(codes, base, roots, errors)
    && |errors| == s.mergeIdx && roots[|errors|] == s.root
    && (forall i :: 0 <= i < |errors| ==> s.commits[i] == Some(errors[i]))
  }

  lemma StepKeepsDeps(code: Code, l: Local, base: Store, root: Store)
    ensures l.txTrk.deps <= StepLocal(code, l, base, root).txTrk.deps
    ensures l.txTrk.prefix == StepLocal(code, l, base, root).txTrk.prefix
  {
  }

  /** Two root states that both leave a step's reads alone give the same step. */
  lemma StepAgrees(code: Code, l: Local, base: Store, root: Store, root': Store)
    requires StepLocal(code, l, base, root).txTrk.deps !! root.Keys
    requires StepLocal(code, l, base, root).txTrk.deps !! root'.Keys
    ensures StepLocal(code, l, base, root') == StepLocal(code, l, base, root)
  {
    if l.error.None? && code(l.answers).Get? {
      var op := code(l.answers);
      if op.trk == 0 {
        assert l.txTrk.prefix + op.key in StepLocal(code, l, base, root).txTrk.deps;
      } else if op.trk <= |l.kids| {
        var t := l.kids[op.trk - 1];
        var k := t.prefix + op.key;
        if k !in t.changes {
          assert l.txTrk.prefix + k in StepLocal(code, l, base, root).txTrk.deps;
        }
      }
    }
  }

  /** A speculative request keeps the execution faithful unless it just read something already changed. */
  lemma SpeculateFaithful(code: Code, base: Store, root: Store, l: Local, n: nat)
    requires !DependencyChanged(root, l.txTrk.deps) ==> Faithful(code, base, l, n)
    requires !DependencyChanged(root, StepLocal(code, l, base, root).txTrk.deps)
    ensures Faithful(code, base, StepLocal(code, l, base, root), n + 1)
  {
    var l' := StepLocal(code, l, base, root);
    StepKeepsDeps(code, l, base, root);
    forall root': Store | root'.Keys !! l'.txTrk.deps ensures StepN(code, base, root', n + 1) == l' {
      assert StepN(code, base, root', n) == l;
      StepAgrees(code, l, base, root, root');
    }
  }

  /** A finished execution stays finished, so its outcome does not depend on how long one looks. */
  lemma {:induction false} FinishedIsStable(code: Code, base: Store, root: Store, n: nat, m: nat)
    requires n <= m && StepN(code, base, root, n).error.Some?
    ensures StepN(code, base, root, m) == StepN(code, base, root, n)
    decreases m
  {
    if n < m { FinishedIsStable(code, base, root, n, m - 1); }
  }

  lemma SerialTxUnique(code: Code, base: Store, root: Store, r1: Store, e1: Bytes, r2: Store, e2: Bytes)
    requires SerialTx(code, base, root, r1, e1) && SerialTx(code, base, root, r2, e2)
    ensures r1 == r2 && e1 == e2
  {
    var n :| var l := StepN(code, base, root, n); l.error == Some(e1) && r1 == Absorb(root, l);
    var m :| var l := StepN(code, base, root, m); l.error == Some(e2) && r2 == Absorb(root, l);
    if n <= m {
      FinishedIsStable(code, base, root, n, m);
    } else {
      FinishedIsStable(code, base, root, m, n);
    }
  }

  lemma {:induction false} SerialRunUnique(codes: seq<Code>, base: Store,
      roots: seq<Store>, errors: seq<Bytes>, roots': seq<Store>, errors': seq<Bytes>, k: nat)
    requires SerialRun(codes, base, roots, errors) && SerialRun(codes, base, roots', errors')
    requires k <= |errors| && k <= |errors'|
    ensures roots[k] == roots'[k] && errors[..k] == errors'[..k]
  {
    if k > 0 {
      SerialRunUnique(codes, base, roots, errors, roots', errors', k - 1);
      SerialTxUnique(codes[k - 1], base, roots[k - 1],
        roots[k - 1 + 1], errors[k - 1], roots'[k - 1 + 1], errors'[k - 1]);
      assert errors[..k] == errors[..k - 1] + [errors[k - 1]];
      assert errors'[..k] == errors'[..k - 1] + [errors'[k - 1]];
    }
  }

  // ------------------------------------------------------- preservation

  lemma WorkJobOk(codes: seq<Code>, base: Store, s: Exec, i: nat)
    requires |s.jobs| == |codes| && |s.commits| == |codes|
    requires Enabled(s, Work(i)) && JobOk(codes[i], base, s, i)
    ensures JobOk(codes[i], base, Apply(codes, base, s, Work(i)), i)
  {
    hide StepLocal, Faithful, DependencyChanged;
    var l := s.jobs[i].l;
    if s.jobs[i].Speculating? && !DependencyChanged(s.root, StepLocal(codes[i], l, base, s.root).txTrk.deps) {
      SpeculateFaithful(codes[i], base, s.root, l, s.jobs[i].steps);
    }
  }

  lemma WorkOk(codes: seq<Code>, base: Store, s: Exec, i: nat, roots: seq<Store>, errors: seq<Bytes>)
    requires Inv(codes, base, s, roots, errors) && Enabled(s, Work(i))
    ensures Inv(codes, base, Apply(codes, base, s, Work(i)), roots, errors)
  {
    hide StepLocal, SerialRun, Faithful, DependencyChanged, StepN;
    var s' := Apply(codes, base, s, Work(i));
    assert JobOk(codes[i], base, s, i);
    forall j | 0 <= j < |codes| ensures JobOk(codes[j], base, s', j) {
      if j != i {
        assert JobOk(codes[j], base, s, j);
      } else {
        WorkJobOk(codes, base, s, i);
      }
    }
  }

  lemma CheckOk(codes: seq<Code>, base: Store, s: Exec, i: nat, roots: seq<Store>, errors: seq<Bytes>)
    requires Inv(codes, base, s, roots, errors) && Enabled(s, Check(i))
    ensures Inv(codes, base, Apply(codes, base, s, Check(i)), roots, errors)
  {
    var s' := Apply(codes, base, s, Check(i));
    assert JobOk(codes[i], base, s, i);
    forall j | 0 <= j < |codes| ensures JobOk(codes[j], base, s', j) {
      if j != i {
        assert JobOk(codes[j], base, s, j);
      }
    }
  }

  /** A merge turns the next transaction's execution into the next link of the serial run. */
  lemma MergeOk(codes: seq<Code>, base: Store, s: Exec, i: nat, roots: seq<Store>, errors: seq<Bytes>)
    requires Inv(codes, base, s, roots, errors) && Enabled(s, Merge(i))
    ensures s.jobs[i].l.error.Some?
    ensures var s' := Apply(codes, base, s, Merge(i));
      Inv(codes, base, s', roots + [s'.root], errors + [s.jobs[i].l.error.value])
  {
    var s' := Apply(codes, base, s, Merge(i));
    var l, n := s.jobs[i].l, s.jobs[i].steps;
    assert JobOk(codes[i], base, s, i);
    assert s'.root == Absorb(s.root, l);
    forall j | 0 <= j < |codes| ensures JobOk(codes[j], base, s', j) {
      assert JobOk(codes[j], base, s, j);
      if j != i && s.jobs[j].Speculating? && DependencyChanged(s.root, s.jobs[j].l.txTrk.deps) {
        var k :| k in s.jobs[j].l.txTrk.deps && k in s.root;
        assert k in s'.root;
      }
    }
    var roots', errors' := roots + [s'.root], errors + [l.error.value];
    forall j | 0 <= j < |errors'| ensures SerialTx(codes[j], base, roots'[j], roots'[j + 1], errors'[j]) {
      if j < |errors| {
        assert SerialTx(codes[j], base, roots[j], roots[j + 1], errors[j]);
      } else {
        assert StepN(codes[i], base, roots'[j], n).error == Some(errors'[j]);
      }
    }
  }

  lemma StartOk(codes: seq<Code>, base: Store, s: Exec, i: nat, roots: seq<Store>, errors: seq<Bytes>)
    requires Inv(codes, base, s, roots, errors) && Enabled(s, Start(i))
    ensures Inv(codes, base, Apply(codes, base, s, Start(i)), roots, errors)
  {
    var s' := Apply(codes, base, s, Start(i));
    forall j | 0 <= j < |codes| ensures JobOk(codes[j], base, s', j) {
      assert JobOk(codes[j], base, s, j);
    }
  }

  ghost predicate SerialSoFar(codes: seq<Code>, base: Store, s: Exec) {
    exists roots, errors :: Inv(codes, base, s, roots, errors)
  }

  lemma NextKeeps(codes: seq<Code>, base: Store, s: Exec, s': Exec)
    requires SerialSoFar(codes, base, s) && Next(codes, base, s, s')
    ensures SerialSoFar(codes, base, s')
  {
    hide Inv, Apply;
    var roots, errors :| Inv(codes, base, s, roots, errors);
    var step :| Enabled(s, step) && s' == Apply(codes, base, s, step);
    match step
    case Start(i) => StartOk(codes, base, s, i, roots, errors);
    case Work(i) => WorkOk(codes, base, s, i, roots, errors);
    case Check(i) => CheckOk(codes, base, s, i, roots, errors);
    case Merge(i) => MergeOk(codes, base, s, i, roots, errors);
  }

  lemma {:induction false} RunKeeps(codes: seq<Code>, base: Store, run: seq<Exec>, k: nat)
    requires IsRun(codes, base, run) && k < |run|
    ensures SerialSoFar(codes, base, run[k])
  {
    hide Next, SerialTx;
    if k == 0 {
      assert Inv(codes, base, run[0], [map[]], []);
    } else {
      RunKeeps(codes, base, run, k - 1);
      assert StepAt(codes, base, run, k - 1);
      NextKeeps(codes, base, run[k - 1], run[k]);
    }
  }

  /**
   * Serial equivalence: at every moment of every interleaving, the block's changes and the recorded
   * outcomes of the merged transactions are those of the one-by-one run of the same transactions.
   */
  lemma SerialEquivalence(codes: seq<Code>, base: Store, run: seq<Exec>, k: nat)
    returns (roots: seq<Store>, errors: seq<Bytes>)
    requires IsRun(codes, base, run) && k < |run|
    ensures SerialRun(codes, base, roots, errors)
    ensures |errors| == run[k].mergeIdx <= |codes| == |run[k].commits|
    ensures run[k].root == roots[|errors|]
    ensures forall i :: 0 <= i < |errors| ==> run[k].commits[i] == Some(errors[i])
  {
    RunKeeps(codes, base, run, k);
    roots, errors :| Inv(codes, base, run[k], roots, errors);
  }

  /** Two replicas that finish the same block from the same state hold the same changes and outcomes. */
  lemma InterleavingIsIrrelevant(codes: seq<Code>, base: Store, run: seq<Exec>, run': seq<Exec>)
    requires IsRun(codes, base, run) && IsRun(codes, base, run')
    requires run[|run| - 1].mergeIdx == |codes| == run'[|run'| - 1].mergeIdx
    ensures run[|run| - 1].root == run'[|run'| - 1].root
    ensures run[|run| - 1].commits == run'[|run'| - 1].commits
  {
    var roots, errors := SerialEquivalence(codes, base, run, |run| - 1);
    var roots', errors' := SerialEquivalence(codes, base, run', |run'| - 1);
    SerialRunUnique(codes, base, roots, errors, roots', errors', |codes|);
    assert errors == errors[..|codes|] == errors'[..|codes|] == errors';
  }
}
