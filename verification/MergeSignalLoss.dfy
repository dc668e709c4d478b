// With 22 workers or more and 22 transactions or more a full subscription can drop
// the one event its worker waits for, and the executor never returns.
module MergeSignalLoss {
  import opened MergeSignal

  ghost predicate Reachable(n: nat, l: nat, s: State) {
    exists run :: IsRun(n, l, run) && run[|run| - 1] == s
  }

  lemma Reach(n: nat, l: nat, s: State, step: Step)
    requires Reachable(n, l, s) && Enabled(n, s, step)
    ensures Reachable(n, l, Apply(n, s, step))
  {
    hide Enabled, Apply;
    var run :| IsRun(n, l, run) && run[|run| - 1] == s;
    var run' := run + [Apply(n, s, step)];
    forall k: nat | k + 1 < |run'| ensures StepAt(n, run', k) {
      if k + 1 < |run| { assert StepAt(n, run, k); }
    }
    assert IsRun(n, l, run') && run'[|run'| - 1] == Apply(n, s, step);
  }

  /** The first transactions, and also the workers that take them. */
  const N: nat := CAPACITY + 2
  const LAST: nat := CAPACITY + 1

  function Below(k: nat): (r: set<nat>)
    ensures forall i: nat :: i in r <==> i < k
  {
    if k == 0 then {} else Below(k - 1) + {k - 1}
  }

  function Events(k: nat): (r: set<nat>)
    ensures forall i: nat :: i in r <==> 0 < i <= k
  {
    if k == 0 then {} else Events(k - 1) + {k}
  }

  /** 1, 2, ..., k */
  function UpTo(k: nat): (r: seq<nat>)
    ensures |r| == k && forall i :: 0 <= i < k ==> r[i] == i + 1
  {
    seq(k, i => i + 1)
  }

  function Order(k: nat): (r: seq<nat>)
    ensures |r| == k && forall i :: 0 <= i < k ==> r[i] == i
  {
    seq(k, i => i)
  }

  /** Workers below k have each taken the transaction of their number. */
  ghost function Taking(l: nat, k: nat): (ws: seq<Worker>)
    ensures |ws| == l
  {
    seq(l, w requires w >= 0 => if w < k then Executing(w, Below(w)) else Free)
  }

  lemma {:induction false} SendAll(n: nat, l: nat, k: nat)
    requires n >= N && l >= N && k <= N
    ensures Reachable(n, l, State(k, 0, 0, [], Taking(l, 0), Listening(Sub([], {}))))
  {
    if k == 0 {
      var s := State(0, 0, 0, [], seq(l, _ => Free), Listening(Sub([], {})));
      assert IsRun(n, l, [s]);
      assert seq(l, _ => Free) == Taking(l, 0);
    } else {
      SendAll(n, l, k - 1);
      Reach(n, l, State(k - 1, 0, 0, [], Taking(l, 0), Listening(Sub([], {}))), Send);
    }
  }

  lemma {:induction false} HeldWhileTaking(l: nat, k: nat)
    requires k <= l
    ensures HeldTxs(Taking(l, k)) == Below(k)
  {
    forall i: nat ensures i in HeldTxs(Taking(l, k)) <==> i < k {
      HeldTxsMembers(Taking(l, k), i);
      if i < k { assert Holds(Taking(l, k)[i], i); }
    }
  }

  lemma {:induction false} TakeAll(n: nat, l: nat, k: nat)
    requires n >= N && l >= N && k <= N
    ensures Reachable(n, l, State(N, k, 0, [], Taking(l, k), Listening(Sub([], {}))))
  {
    hide Reachable, HeldTxs;
    if k == 0 {
      SendAll(n, l, N);
    } else {
      TakeAll(n, l, k - 1);
      var s := State(N, k - 1, 0, [], Taking(l, k - 1), Listening(Sub([], {})));
      Reach(n, l, s, Take(k - 1));
      HeldWhileTaking(l, k - 1);
      assert Taking(l, k - 1)[k - 1 := Executing(k - 1, Below(k - 1))] == Taking(l, k);
    }
  }

  /** The channel of the last worker after c events: the first CAPACITY of them. */
  ghost function LastSub(c: nat): Sub {
    Sub(UpTo(if c < CAPACITY then c else CAPACITY), Events(c))
  }

  /** Workers below c are through, the last one waits, the rest have yet to subscribe. */
  ghost function Cycled(l: nat, c: nat): (ws: seq<Worker>)
    requires c <= LAST && l >= N
    ensures |ws| == l
  {
    seq(l, w requires w >= 0 =>
      if c <= w < LAST then Executing(w, Below(w))
      else if w == LAST then Waiting(LAST, Below(LAST), LastSub(c))
      else Free)
  }

  ghost function After(l: nat, c: nat): State
    requires c <= LAST && l >= N
  {
    State(N, N, c, Order(c), Cycled(l, c), Listening(Sub(UpTo(c), Events(c))))
  }

  lemma FirstSubscribes(n: nat, l: nat)
    requires n >= N && l >= N
    ensures Reachable(n, l, After(l, 0))
  {
    TakeAll(n, l, N);
    var s0 := State(N, N, 0, [], Taking(l, N), Listening(Sub([], {})));
    Reach(n, l, s0, Subscribe(LAST));
    var s1 := Set(s0, LAST, Subscribed(LAST, Below(LAST), Sub([], {})));
    Reach(n, l, s1, CheckIdx(LAST));
    var s2 := Set(s1, LAST, Waiting(LAST, Below(LAST), Sub([], {})));
    assert s2.ws == Cycled(l, 0);
    assert s2 == After(l, 0);
  }

  /** Worker c finds its turn has come, merges, and is about to emit c + 1. */
  lemma MergesNext(n: nat, l: nat, c: nat)
    requires n >= N && l >= N && c < LAST && Reachable(n, l, After(l, c))
    ensures Reachable(n, l, Merged(l, c))
  {
    hide Reachable;
    var s0 := After(l, c);
    Reach(n, l, s0, Subscribe(c));
    var s1 := Set(s0, c, Subscribed(c, Below(c), Sub([], {})));
    Reach(n, l, s1, CheckIdx(c));
    var s2 := Set(s0, c, Leaving(c, Below(c), Sub([], {})));
    assert Set(s1, c, s2.ws[c]) == s2;
    Reach(n, l, s2, Unsubscribe(c));
    var s3 := Set(s0, c, Merging(c));
    assert Set(s2, c, s3.ws[c]) == s3;
    Reach(n, l, s3, Increment(c));
    assert s3.ws[c := Pending(c + 1)] == s0.ws[c := Pending(c + 1)];
    assert Order(c) + [c] == Order(c + 1);
  }

  ghost function Merged(l: nat, c: nat): State
    requires l >= N && c < LAST
  {
    Set(After(l, c), c, Pending(c + 1)).(mergeIdx := c + 1, merged := Order(c + 1))
  }

  ghost function HalfServed(l: nat, c: nat): State
    requires l >= N && c < LAST
  {
    Merged(l, c).(
      ws := Merged(l, c).ws[c := Emitting(c + 1, {ToMain})][LAST := Waiting(LAST, Below(LAST), LastSub(c + 1))])
  }

  /** ... and emits it to the last worker, whose channel may be full, */
  lemma EmitsToLast(n: nat, l: nat, c: nat)
    requires n >= N && l >= N && c < LAST && Reachable(n, l, After(l, c))
    ensures Reachable(n, l, HalfServed(l, c))
  {
    hide Reachable;
    MergesNext(n, l, c);
    var s0 := Merged(l, c);
    var both := {ToWorker(LAST), ToMain};
    assert Subscriptions(s0) == both by {
      assert HasSub(s0.ws[LAST]);
      assert ToWorker(LAST) in Subscriptions(s0);
    }
    Reach(n, l, s0, BeginEmit(c));
    var s1 := Set(s0, c, Emitting(c + 1, both));
    Reach(n, l, s1, Deliver(c, ToWorker(LAST)));
    DeliveredToLast(n, l, c, s1, both);
    assert s1.ws[c := Emitting(c + 1, {ToMain})] == s0.ws[c := Emitting(c + 1, {ToMain})];
  }

  /** ... and to the dispatcher. */
  lemma EmitsNext(n: nat, l: nat, c: nat)
    requires n >= N && l >= N && c < LAST && Reachable(n, l, After(l, c))
    ensures Reachable(n, l, After(l, c + 1))
  {
    hide Reachable;
    EmitsToLast(n, l, c);
    var s2 := HalfServed(l, c);
    Reach(n, l, s2, Deliver(c, ToMain));
    assert UpTo(c) + [c + 1] == UpTo(c + 1);
    assert {ToMain} - {ToMain} == {};
    var s3 := s2.(ws := s2.ws[c := Emitting(c + 1, {})], main := Listening(Sub(UpTo(c + 1), Events(c + 1))));
    Reach(n, l, s3, EndEmit(c));
    assert s3.ws[c := Free] == Cycled(l, c + 1);
  }

  lemma DeliveredToLast(n: nat, l: nat, c: nat, s: State, both: set<Target>)
    requires n >= N && l >= N && c < LAST && both == {ToWorker(LAST), ToMain}
    requires |s.ws| == l && s.ws[c] == Emitting(c + 1, both) && s.ws[LAST] == Waiting(LAST, Below(LAST), LastSub(c))
    ensures Apply(n, s, Deliver(c, ToWorker(LAST))) ==
      s.(ws := s.ws[c := Emitting(c + 1, {ToMain})][LAST := Waiting(LAST, Below(LAST), LastSub(c + 1))])
  {
    hide LastSub, Push, Below;
    assert both - {ToWorker(LAST)} == {ToMain};
    PushToLast(c);
  }

  /** Up to CAPACITY events go in; the next one, the one the last worker needs, is dropped. */
  lemma PushToLast(c: nat)
    requires c < LAST
    ensures Push(LastSub(c), CAPACITY, c + 1) == LastSub(c + 1)
  {
    if c < CAPACITY { assert UpTo(c) + [c + 1] == UpTo(c + 1); }
  }

  lemma {:induction false} AllCycle(n: nat, l: nat, c: nat)
    requires n >= N && l >= N && c <= LAST
    ensures Reachable(n, l, After(l, c))
  {
    if c == 0 {
      FirstSubscribes(n, l);
    } else {
      AllCycle(n, l, c - 1);
      EmitsNext(n, l, c - 1);
    }
  }

  /** The last worker reads its full channel and finds nothing for it. */
  ghost function Drained(l: nat, i: nat): State
    requires l >= N && i <= CAPACITY
  {
    After(l, LAST).(
      ws := Cycled(l, LAST)[LAST := Waiting(LAST, Below(LAST), Sub(UpTo(CAPACITY)[i..], Events(LAST)))])
  }

  lemma {:induction false} Drain(n: nat, l: nat, i: nat)
    requires n >= N && l >= N && i <= CAPACITY
    ensures Reachable(n, l, Drained(l, i))
  {
    if i > 0 {
      Drain(n, l, i - 1);
      var s := Drained(l, i - 1);
      Reach(n, l, s, Recv(LAST));
      assert UpTo(CAPACITY)[i - 1..][1..] == UpTo(CAPACITY)[i..];
      assert Apply(n, s, Recv(LAST)).ws == Drained(l, i).ws;
    } else {
      AllCycle(n, l, LAST);
      assert UpTo(CAPACITY)[0..] == UpTo(CAPACITY);
      assert Drained(l, 0).ws == Cycled(l, LAST);
    }
  }

  // ------------------------------------------------ no way back

  /** A worker that can do no more than take a later transaction and wait for its turn. */
  predicate Behind(x: Worker) {
    x.Free? || ((x.Executing? || x.Subscribed? || x.Waiting?) && x.tx > LAST && (HasSub(x) ==> x.sub.queue == []))
  }

  /** The last of the first transactions waits with an empty channel, and nobody has anything to send. */
  ghost predicate Lost(n: nat, s: State) {
    && LAST < |s.ws| && s.mergeIdx == LAST < s.taken <= s.sent <= n
    && s.ws[LAST].Waiting? && s.ws[LAST].tx == LAST && s.ws[LAST].sub.queue == []
    && (forall w :: 0 <= w < |s.ws| && w != LAST ==> Behind(s.ws[w]))
    && s.main.Listening? && forall i :: 0 <= i < |s.main.sub.queue| ==> s.main.sub.queue[i] <= LAST
  }

  lemma StaysLost(n: nat, s: State, step: Step)
    requires Lost(n, s) && Enabled(n, s, step)
    ensures Lost(n, Apply(n, s, step))
  {
    hide HeldTxs;
  }

  /** Whatever is still done, it ends with nobody able to move. */
  lemma {:induction false} RunDry(n: nat, l: nat, s: State) returns (end: State)
    requires Reachable(n, l, s) && Lost(n, s)
    ensures Reachable(n, l, end) && Lost(n, end) && forall step :: !Enabled(n, end, step)
    decreases Measure(n, s)
  {
    hide Reachable, Lost, Apply, Measure, Enabled;
    if step :| Enabled(n, s, step) {
      Reach(n, l, s, step);
      StaysLost(n, s, step);
      LostCounts(n, s);
      MeasureDrops(n, s, step);
      LostCounts(n, Apply(n, s, step));
      MeasureNonNegative(n, Apply(n, s, step));
      end := RunDry(n, l, Apply(n, s, step));
    } else {
      end := s;
    }
  }

  lemma LostCounts(n: nat, s: State)
    requires Lost(n, s)
    ensures s.taken <= s.sent <= n && s.mergeIdx < n && !s.main.Returned?
  {
  }

  /**
   * The bound is exact: with 22 workers or more and 22 transactions or more the executor can reach a state
   * in which nothing can move, a transaction is still unmerged and the dispatcher has not returned.
   */
  lemma LostWakeUp(n: nat, l: nat) returns (s: State)
    requires !Few(n, l)
    ensures Reachable(n, l, s)
    ensures !s.main.Returned? && s.mergeIdx < n
    ensures forall step :: !Enabled(n, s, step)
  {
    hide Reachable;
    Drain(n, l, CAPACITY);
    var d := Drained(l, CAPACITY);
    assert UpTo(CAPACITY)[CAPACITY..] == [];
    assert Lost(n, d);
    s := RunDry(n, l, d);
    LostCounts(n, s);
  }
}
