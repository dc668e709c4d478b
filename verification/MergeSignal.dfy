// How the executor's workers take turns: a job channel, an atomic merge index,
// and an emitter whose bounded subscriptions drop events when full. With at
// most 21 workers or transactions nothing a worker waits for is ever dropped,
// whatever the interleaving, and every run merges all in order and returns.
module MergeSignal {
  import opened Common
  /** Buffer of a worker's subscription. */
  const CAPACITY: nat := 20

  /** Whose subscription an event goes to. */
  datatype Target = ToMain | ToWorker(w: nat)

  /** A subscription's channel; `got` remembers every event ever delivered to it. */
  datatype Sub = Sub(queue: seq<nat>, got: set<nat>)

  /**
   * Where a worker is. `rivals` remembers which transactions the other workers held when this one
   * was taken. Emitting holds the emitter's read lock; `todo` are the subscriptions still to serve.
   */
  datatype Worker =
    | Free
    | Executing(tx: nat, rivals: set<nat>)
    | Subscribed(tx: nat, rivals: set<nat>, sub: Sub)
    | Waiting(tx: nat, rivals: set<nat>, sub: Sub)
    | Leaving(tx: nat, rivals: set<nat>, sub: Sub)
    | Merging(tx: nat)
    | Pending(event: nat)
    | Emitting(event: nat, todo: set<Target>)

  datatype Dispatcher = Listening(sub: Sub) | Quitting(sub: Sub) | Returned

  datatype State = State(
    sent: nat,
    taken: nat,
    mergeIdx: nat,
    merged: seq<nat>,
    ws: seq<Worker>,
    main: Dispatcher)

  datatype Step =
    | Send
    | Take(w: nat)
    | Subscribe(w: nat)
    | CheckIdx(w: nat)
    | Recv(w: nat)
    | Unsubscribe(w: nat)
    | Increment(w: nat)
    | BeginEmit(w: nat)
    | Deliver(w: nat, target: Target)
    | EndEmit(w: nat)
    | MainRecv
    | MainQuit

  predicate HasSub(w: Worker) {
    w.Subscribed? || w.Waiting? || w.Leaving?
  }

  predicate BeforeMerge(w: Worker) {
    w.Executing? || HasSub(w) || w.Merging?
  }

  /** The transaction a worker is busy with, up to the end of its emission. */
  predicate Holds(w: Worker, tx: nat) {
    || (BeforeMerge(w) && w.tx == tx)
    || ((w.Pending? || w.Emitting?) && w.event == tx + 1)
  }

  function TxOf(w: Worker): set<nat> {
    if BeforeMerge(w) then {w.tx}
    else if (w.Pending? || w.Emitting?) && w.event > 0 then {w.event - 1}
    else {}
  }

  /** The transactions the workers are busy with. */
  function HeldTxs(ws: seq<Worker>): set<nat> {
    if ws == [] then {} else HeldTxs(ws[..|ws| - 1]) + TxOf(ws[|ws| - 1])
  }

  ghost function Subscriptions(s: State): set<Target> {
    (set w | 0 <= w < |s.ws| && HasSub(s.ws[w]) :: ToWorker(w)) + (if s.main.Returned? then {} else {ToMain})
  }

  ghost predicate Unlocked(s: State) {
    forall w :: 0 <= w < |s.ws| ==> !s.ws[w].Emitting?
  }

  ghost predicate Init(l: nat, s: State) {
    s == State(0, 0, 0, [], seq(l, _ => Free), Listening(Sub([], {})))
  }

  ghost predicate Enabled(n: nat, s: State, step: Step) {
    match step
    case Send => s.main.Listening? && s.sent < n && s.sent - s.taken < |s.ws|
    case Take(w) => w < |s.ws| && s.ws[w].Free? && s.taken < s.sent
    case Subscribe(w) => w < |s.ws| && s.ws[w].Executing? && Unlocked(s)
    case CheckIdx(w) => w < |s.ws| && s.ws[w].Subscribed?
    case Recv(w) => w < |s.ws| && s.ws[w].Waiting? && s.ws[w].sub.queue != []
    case Unsubscribe(w) => w < |s.ws| && s.ws[w].Leaving? && Unlocked(s)
    case Increment(w) => w < |s.ws| && s.ws[w].Merging?
    case BeginEmit(w) => w < |s.ws| && s.ws[w].Pending?
    case Deliver(w, t) => w < |s.ws| && s.ws[w].Emitting? && t in s.ws[w].todo
    case EndEmit(w) => w < |s.ws| && s.ws[w].Emitting? && s.ws[w].todo == {}
    case MainRecv => s.main.Listening? && s.sent == n && s.main.sub.queue != []
    case MainQuit => s.main.Quitting? && Unlocked(s)
  }

  /** A send on a full channel is skipped. */
  function Push(sub: Sub, capacity: nat, event: nat): Sub {
    Sub(if |sub.queue| < capacity then sub.queue + [event] else sub.queue, sub.got + {event})
  }

  function Pop(sub: Sub): Sub
    requires sub.queue != []
  {
    sub.(queue := sub.queue[1..])
  }

  ghost function Served(n: nat, s: State, target: Target, event: nat): State {
    if target == ToMain then
      match s.main
      case Listening(sub) => s.(main := Listening(Push(sub, n, event)))
      case Quitting(sub) => s.(main := Quitting(Push(sub, n, event)))
      case Returned => s
    else if target.w < |s.ws| && HasSub(s.ws[target.w]) then
      var w := s.ws[target.w];
      s.(ws := s.ws[target.w := w.(sub := Push(w.sub, CAPACITY, event))])
    else s
  }

  ghost function Set(s: State, w: nat, x: Worker): State
    requires w < |s.ws|
  {
    s.(ws := s.ws[w := x])
  }

  ghost function Apply(n: nat, s: State, step: Step): State
    requires Enabled(n, s, step)
  {
    match step
    case Send => s.(sent := s.sent + 1)
    case Take(w) => Set(s, w, Executing(s.taken, HeldTxs(s.ws))).(taken := s.taken + 1)
    case Subscribe(w) => Set(s, w, Subscribed(s.ws[w].tx, s.ws[w].rivals, Sub([], {})))
    case CheckIdx(w) =>
      var x := s.ws[w];
      Set(s, w, if s.mergeIdx == x.tx then Leaving(x.tx, x.rivals, x.sub) else Waiting(x.tx, x.rivals, x.sub))
    case Recv(w) =>
      var x := s.ws[w];
      Set(s, w, if x.sub.queue[0] == x.tx then Leaving(x.tx, x.rivals, Pop(x.sub))
                else Waiting(x.tx, x.rivals, Pop(x.sub)))
    case Unsubscribe(w) => Set(s, w, Merging(s.ws[w].tx))
    case Increment(w) =>
      Set(s, w, Pending(s.mergeIdx + 1)).(mergeIdx := s.mergeIdx + 1, merged := s.merged + [s.ws[w].tx])
    case BeginEmit(w) => Set(s, w, Emitting(s.ws[w].event, Subscriptions(s)))
    case Deliver(w, t) =>
      Served(n, Set(s, w, Emitting(s.ws[w].event, s.ws[w].todo - {t})), t, s.ws[w].event)
    case EndEmit(w) => Set(s, w, Free)
    case MainRecv =>
      s.(main := if s.main.sub.queue[0] == n then Quitting(Pop(s.main.sub)) else Listening(Pop(s.main.sub)))
    case MainQuit => s.(main := Returned)
  }

  ghost predicate Next(n: nat, s: State, s': State) {
    exists step :: Enabled(n, s, step) && s' == Apply(n, s, step)
  }

  // ------------------------------------------------------- invariant

  predicate Distinct(q: seq<nat>) {
    forall i, j :: 0 <= i < j < |q| ==> q[i] != q[j]
  }

  predicate SubOk(sub: Sub) {
    Distinct(sub.queue) && forall i :: 0 <= i < |sub.queue| ==> sub.queue[i] in sub.got
  }

  /** Each transaction is with at most one worker. */
  ghost predicate OneHolder(ws: seq<Worker>) {
    forall v, w, i: nat :: 0 <= v < |ws| && 0 <= w < |ws| && Holds(ws[v], i) && Holds(ws[w], i) ==> v == w
  }

  predicate WorkerOk(x: Worker, mergeIdx: nat, taken: nat) {
    && (BeforeMerge(x) ==> mergeIdx <= x.tx < taken)
    && (x.Leaving? || x.Merging? ==> x.tx == mergeIdx)
    && (x.Pending? || x.Emitting? ==> 0 < x.event <= mergeIdx)
  }

  /** An emission serves only subscriptions that are still registered. */
  ghost predicate TargetsOk(s: State, x: Worker) {
    x.Emitting? ==> forall t :: t in x.todo ==> t in Subscriptions(s)
  }

  /** Whatever the other workers still hold below this transaction, they held already when it was taken. */
  ghost predicate RivalsOk(ws: seq<Worker>, x: Worker) {
    x.Executing? || HasSub(x) ==>
      && |x.rivals| + 1 <= |ws|
      && (forall w, i: nat :: 0 <= w < |ws| && Holds(ws[w], i) && i < x.tx ==> i in x.rivals)
  }

  /** The event is on its way from this worker to the target. */
  predicate OnWay(x: Worker, target: Target, event: nat) {
    x == Pending(event) || (x.Emitting? && x.event == event && target in x.todo)
  }

  ghost predicate Undelivered(ws: seq<Worker>, target: Target, event: nat) {
    exists w :: 0 <= w < |ws| && OnWay(ws[w], target, event)
  }

  /** A subscription has only seen events of its rivals, none twice, and none still on its way. */
  ghost predicate SubscriberOk(ws: seq<Worker>, mergeIdx: nat, w: nat)
    requires w < |ws|
  {
    var x := ws[w];
    HasSub(x) ==>
      && SubOk(x.sub)
      && (forall e :: e in x.sub.got ==> 0 < e <= mergeIdx && e - 1 in x.rivals)
      && (forall u, e :: 0 <= u < |ws| && e in x.sub.got ==> !OnWay(ws[u], ToWorker(w), e))
  }

  /** The signal a waiting worker needs is in its channel, still on its way, or not yet due. */
  ghost predicate SignalOk(ws: seq<Worker>, mergeIdx: nat, w: nat)
    requires w < |ws|
  {
    ws[w].Waiting? && ws[w].tx == mergeIdx ==>
      ws[w].tx in ws[w].sub.queue || Undelivered(ws, ToWorker(w), ws[w].tx)
  }

  ghost predicate MainOk(n: nat, ws: seq<Worker>, mergeIdx: nat, main: Dispatcher) {
    && (main.Returned? || main.Quitting? ==> mergeIdx == n)
    && (main.Listening? ==>
        && SubOk(main.sub)
        && (forall e :: e in main.sub.got ==> 0 < e <= mergeIdx)
        && (forall u, e :: 0 <= u < |ws| && e in main.sub.got ==> !OnWay(ws[u], ToMain, e))
        && (mergeIdx == n > 0 ==> n in main.sub.queue || Undelivered(ws, ToMain, n)))
  }

  ghost predicate Unmerged(ws: seq<Worker>, i: nat) {
    exists w :: 0 <= w < |ws| && BeforeMerge(ws[w]) && ws[w].tx == i
  }

  ghost predicate CountsOk(n: nat, s: State) {
    && s.mergeIdx <= s.taken <= s.sent <= n
    && |s.merged| == s.mergeIdx
    && (forall i :: 0 <= i < |s.merged| ==> s.merged[i] == i)
    && (forall i: nat :: s.mergeIdx <= i < s.taken ==> Unmerged(s.ws, i))
  }

  ghost predicate Inv(n: nat, s: State) {
    && CountsOk(n, s)
    && OneHolder(s.ws)
    && (forall w :: 0 <= w < |s.ws| ==> WorkerOk(s.ws[w], s.mergeIdx, s.taken))
    && (forall w :: 0 <= w < |s.ws| ==> TargetsOk(s, s.ws[w]))
    && (forall w :: 0 <= w < |s.ws| ==> RivalsOk(s.ws, s.ws[w]))
    && (forall w :: 0 <= w < |s.ws| ==> SubscriberOk(s.ws, s.mergeIdx, w))
    && (forall w :: 0 <= w < |s.ws| ==> SignalOk(s.ws, s.mergeIdx, w))
    && MainOk(n, s.ws, s.mergeIdx, s.main)
  }

  // ------------------------------------------------------- counting

  lemma {:induction false} HeldTxsMembers(ws: seq<Worker>, i: nat)
    ensures i in HeldTxs(ws) <==> exists w :: 0 <= w < |ws| && Holds(ws[w], i)
  {
    if ws != [] {
      var k := |ws| - 1;
      HeldTxsMembers(ws[..k], i);
      assert i in TxOf(ws[k]) <==> Holds(ws[k], i);
      if i in HeldTxs(ws[..k]) {
        var w :| 0 <= w < k && Holds(ws[..k][w], i);
        assert Holds(ws[w], i);
      }
      if w :| 0 <= w < |ws| && Holds(ws[w], i) {
        assert w < k ==> Holds(ws[..k][w], i);
      }
    }
  }

  lemma {:induction false} HeldTxsCount(ws: seq<Worker>)
    ensures |HeldTxs(ws)| <= |ws|
    ensures (exists w :: 0 <= w < |ws| && ws[w].Free?) ==> |HeldTxs(ws)| + 1 <= |ws|
  {
    if ws != [] {
      var k := |ws| - 1;
      HeldTxsCount(ws[..k]);
      if w :| 0 <= w < |ws| && ws[w].Free? {
        assert w < k ==> ws[..k][w].Free?;
      }
    }
  }

  /** A channel holds no more than what was delivered. */
  lemma {:induction false} QueueWithin(q: seq<nat>, got: set<nat>)
    requires Distinct(q) && forall i :: 0 <= i < |q| ==> q[i] in got
    ensures |q| <= |got|
  {
    if q != [] {
      var k := |q| - 1;
      QueueWithin(q[..k], got - {q[k]});
    }
  }

  lemma {:induction false} EventsWithin(got: set<nat>, rivals: set<nat>)
    requires forall e :: e in got ==> e > 0 && e - 1 in rivals
    ensures |got| <= |rivals|
  {
    if got != {} {
      var e :| e in got;
      EventsWithin(got - {e}, rivals - {e - 1});
    }
  }

  lemma {:induction false} EventsUpTo(got: set<nat>, n: nat)
    requires forall e :: e in got ==> 0 < e <= n
    ensures |got| <= n
  {
    if n == 0 {
      assert got == {};
    } else {
      EventsUpTo(got - {n}, n - 1);
      if n in got { assert |got - {n}| == |got| - 1; } else { assert got - {n} == got; }
    }
  }

  /** So few workers, or so few transactions, that a subscription can take every event sent to it. */
  predicate Few(n: nat, l: nat) { l <= CAPACITY + 1 || n <= CAPACITY + 1 }

  /** Then a delivery to a worker always finds room. */
  lemma RoomForWorker(n: nat, s: State, v: nat, w: nat, event: nat)
    requires Inv(n, s) && Few(n, |s.ws|)
    requires v < |s.ws| && w < |s.ws| && HasSub(s.ws[w]) && OnWay(s.ws[v], ToWorker(w), event)
    ensures |s.ws[w].sub.queue| < CAPACITY
    ensures event !in s.ws[w].sub.got && 0 < event <= s.mergeIdx && event - 1 in s.ws[w].rivals
  {
    var x := s.ws[w];
    assert SubscriberOk(s.ws, s.mergeIdx, w) && RivalsOk(s.ws, x) && WorkerOk(x, s.mergeIdx, s.taken);
    assert WorkerOk(s.ws[v], s.mergeIdx, s.taken) && Holds(s.ws[v], event - 1);
    QueueWithin(x.sub.queue, x.sub.got);
    EventsWithin(x.sub.got + {event}, x.rivals);
    EventsUpTo(x.sub.got + {event}, s.mergeIdx);
    assert |x.sub.got + {event}| == |x.sub.got| + 1;
  }

  lemma RoomForMain(n: nat, s: State, v: nat, event: nat)
    requires Inv(n, s) && s.main.Listening? && v < |s.ws| && OnWay(s.ws[v], ToMain, event)
    ensures |s.main.sub.queue| < n && event !in s.main.sub.got && 0 < event <= s.mergeIdx
  {
    assert WorkerOk(s.ws[v], s.mergeIdx, s.taken);
    QueueWithin(s.main.sub.queue, s.main.sub.got);
    EventsUpTo(s.main.sub.got + {event}, n);
  }

  lemma InitInv(n: nat, l: nat, s: State)
    requires Init(l, s)
    ensures Inv(n, s)
  {
  }

  lemma UnmergedSet(ws: seq<Worker>, w: nat, x: Worker, i: nat)
    requires w < |ws| && Unmerged(ws, i)
    requires BeforeMerge(ws[w]) && ws[w].tx == i ==> BeforeMerge(x) && x.tx == i
    ensures Unmerged(ws[w := x], i)
  {
    var v :| 0 <= v < |ws| && BeforeMerge(ws[v]) && ws[v].tx == i;
    assert BeforeMerge(ws[w := x][v]);
  }

  lemma UndeliveredSet(ws: seq<Worker>, w: nat, x: Worker, target: Target, event: nat)
    requires w < |ws| && Undelivered(ws, target, event)
    requires OnWay(ws[w], target, event) ==> OnWay(x, target, event)
    ensures Undelivered(ws[w := x], target, event)
  {
    var v :| 0 <= v < |ws| && OnWay(ws[v], target, event);
    assert OnWay(ws[w := x][v], target, event);
  }

  /** A worker that takes up no new transaction leaves the holders in order. */
  lemma HoldersKeep(n: nat, s: State, w: nat, x: Worker, ws: seq<Worker>)
    requires Inv(n, s) && w < |s.ws| && ws == s.ws[w := x]
    requires forall i :: Holds(x, i) ==> Holds(s.ws[w], i)
    ensures OneHolder(ws)
    ensures forall v :: 0 <= v < |ws| && v != w ==> RivalsOk(ws, ws[v])
  {
    assert forall v, i: nat :: 0 <= v < |ws| && Holds(ws[v], i) ==> Holds(s.ws[v], i);
    forall v | 0 <= v < |ws| && v != w ensures RivalsOk(ws, ws[v]) {
      assert RivalsOk(s.ws, s.ws[v]);
    }
  }

  /** A worker that neither emits nor withholds anything new leaves the other subscriptions alone. */
  lemma SignalsKeep(n: nat, s: State, w: nat, x: Worker, ws: seq<Worker>)
    requires Inv(n, s) && w < |s.ws| && ws == s.ws[w := x]
    requires forall t, e :: OnWay(x, t, e) ==> OnWay(s.ws[w], t, e)
    requires forall t, e :: OnWay(s.ws[w], t, e) && t in Subscriptions(s) ==> OnWay(x, t, e)
    ensures forall v :: 0 <= v < |ws| && v != w ==> SubscriberOk(ws, s.mergeIdx, v)
    ensures forall v :: 0 <= v < |ws| && v != w ==> SignalOk(ws, s.mergeIdx, v)
    ensures MainOk(n, ws, s.mergeIdx, s.main)
  {
    assert forall v, t, e :: 0 <= v < |ws| && OnWay(ws[v], t, e) ==> OnWay(s.ws[v], t, e);
    forall v | 0 <= v < |ws| && v != w ensures SubscriberOk(ws, s.mergeIdx, v) {
      assert SubscriberOk(s.ws, s.mergeIdx, v);
    }
    forall v | 0 <= v < |ws| && v != w ensures SignalOk(ws, s.mergeIdx, v) {
      assert SignalOk(s.ws, s.mergeIdx, v);
      if s.ws[v].Waiting? && s.ws[v].tx == s.mergeIdx && s.ws[v].tx !in s.ws[v].sub.queue {
        assert ToWorker(v) in Subscriptions(s);
        UndeliveredSet(s.ws, w, x, ToWorker(v), s.ws[v].tx);
      }
    }
    if s.main.Listening? && s.mergeIdx == n > 0 && n !in s.main.sub.queue {
      UndeliveredSet(s.ws, w, x, ToMain, n);
    }
  }

  /** A worker that moves on with its transaction, not yet merged, keeps the invariant. */
  lemma MoveInv(n: nat, s: State, w: nat, x: Worker)
    requires Inv(n, s) && w < |s.ws|
    requires BeforeMerge(s.ws[w]) && BeforeMerge(x) && x.tx == s.ws[w].tx
    requires WorkerOk(x, s.mergeIdx, s.taken)
    requires HasSub(x) ==> (s.ws[w].Executing? || HasSub(s.ws[w])) && x.rivals == s.ws[w].rivals && SubOk(x.sub)
    requires HasSub(x) ==> x.sub.got == (if HasSub(s.ws[w]) then s.ws[w].sub.got else {})
    requires x.Waiting? && x.tx == s.mergeIdx ==> x.tx in x.sub.queue || Undelivered(s.ws, ToWorker(w), x.tx)
    requires !x.Executing?
    requires Unlocked(s) || HasSub(x) == HasSub(s.ws[w])
    ensures Inv(n, Set(s, w, x))
  {
    var s' := Set(s, w, x);
    HoldersKeep(n, s, w, x, s'.ws);
    SignalsKeep(n, s, w, x, s'.ws);
    forall i: nat | s.mergeIdx <= i < s.taken ensures Unmerged(s'.ws, i) {
      UnmergedSet(s.ws, w, x, i);
    }
    assert RivalsOk(s.ws, s.ws[w]) && SubscriberOk(s.ws, s.mergeIdx, w);
    assert RivalsOk(s'.ws, x);
    assert SubscriberOk(s'.ws, s.mergeIdx, w);
    if x.Waiting? && x.tx == s.mergeIdx && x.tx !in x.sub.queue {
      UndeliveredSet(s.ws, w, x, ToWorker(w), x.tx);
    }
    forall v | 0 <= v < |s'.ws| ensures TargetsOk(s', s'.ws[v]) {
      assert TargetsOk(s, s.ws[v]);
    }
  }

  lemma SendInv(n: nat, s: State)
    requires Inv(n, s) && Enabled(n, s, Send)
    ensures Inv(n, Apply(n, s, Send))
  {
    assert Subscriptions(Apply(n, s, Send)) == Subscriptions(s);
  }

  lemma RecvInv(n: nat, s: State, w: nat)
    requires Inv(n, s) && Enabled(n, s, Recv(w))
    ensures Inv(n, Apply(n, s, Recv(w)))
  {
    var x := s.ws[w];
    assert SubscriberOk(s.ws, s.mergeIdx, w) && SignalOk(s.ws, s.mergeIdx, w) && WorkerOk(x, s.mergeIdx, s.taken);
    assert x.sub.queue == [x.sub.queue[0]] + x.sub.queue[1..];
    MoveInv(n, s, w, Apply(n, s, Recv(w)).ws[w]);
  }

  lemma SimpleMovesInv(n: nat, s: State, step: Step)
    requires Inv(n, s) && Enabled(n, s, step)
    requires step.Subscribe? || step.CheckIdx? || step.Unsubscribe?
    ensures Inv(n, Apply(n, s, step))
  {
    var w := step.w;
    assert SubscriberOk(s.ws, s.mergeIdx, w) && WorkerOk(s.ws[w], s.mergeIdx, s.taken);
    MoveInv(n, s, w, Apply(n, s, step).ws[w]);
  }

  /** The transaction just taken is new, and its rivals are all that is held. */
  lemma TakeHolders(n: nat, s: State, w: nat, s': State)
    requires Inv(n, s) && Enabled(n, s, Take(w)) && s' == Apply(n, s, Take(w))
    ensures OneHolder(s'.ws)
    ensures forall v :: 0 <= v < |s'.ws| ==> RivalsOk(s'.ws, s'.ws[v])
  {
    hide SubscriberOk, SignalOk, MainOk, TargetsOk, Unmerged;
    HeldTxsCount(s.ws);
    forall v, i: nat | 0 <= v < |s'.ws| && Holds(s'.ws[v], i)
      ensures if v == w then i == s.taken else i < s.taken && i in HeldTxs(s.ws) && Holds(s.ws[v], i)
    {
      if v != w {
        assert WorkerOk(s.ws[v], s.mergeIdx, s.taken) && Holds(s.ws[v], i);
        HeldTxsMembers(s.ws, i);
      }
    }
    forall v | 0 <= v < |s'.ws| ensures RivalsOk(s'.ws, s'.ws[v]) {
      assert RivalsOk(s.ws, s.ws[v]) && WorkerOk(s.ws[v], s.mergeIdx, s.taken);
    }
  }

  lemma TakeInv(n: nat, s: State, w: nat)
    requires Inv(n, s) && Enabled(n, s, Take(w))
    ensures Inv(n, Apply(n, s, Take(w)))
  {
    hide OneHolder, RivalsOk, MainOk, SubscriberOk, SignalOk, HeldTxs;
    var s' := Apply(n, s, Take(w));
    var x := s'.ws[w];
    forall i: nat | s.mergeIdx <= i < s'.taken ensures Unmerged(s'.ws, i) {
      if i < s.taken { UnmergedSet(s.ws, w, x, i); } else { assert BeforeMerge(s'.ws[w]) && s'.ws[w].tx == i; }
    }
    TakeHolders(n, s, w, s');
    SignalsKeep(n, s, w, x, s'.ws);
    FreshWorker(s'.ws, s.mergeIdx, w);
    forall v | 0 <= v < |s'.ws| ensures TargetsOk(s', s'.ws[v]) {
      assert TargetsOk(s, s.ws[v]);
    }
  }

  lemma FreshWorker(ws: seq<Worker>, mergeIdx: nat, w: nat)
    requires w < |ws| && !HasSub(ws[w])
    ensures SubscriberOk(ws, mergeIdx, w) && SignalOk(ws, mergeIdx, w)
  {
  }

  /** Merging makes the next transaction due, and its signal is then on the way to everyone. */
  lemma IncrementSignals(n: nat, s: State, w: nat, s': State)
    requires Inv(n, s) && Enabled(n, s, Increment(w)) && s' == Apply(n, s, Increment(w))
    ensures forall v :: 0 <= v < |s'.ws| ==> SubscriberOk(s'.ws, s'.mergeIdx, v)
    ensures forall v :: 0 <= v < |s'.ws| ==> SignalOk(s'.ws, s'.mergeIdx, v)
    ensures MainOk(n, s'.ws, s'.mergeIdx, s'.main)
  {
    hide OneHolder, RivalsOk, TargetsOk, Unmerged;
    assert OnWay(s'.ws[w], ToMain, s'.mergeIdx);
    forall v | 0 <= v < |s'.ws| ensures SubscriberOk(s'.ws, s'.mergeIdx, v) {
      assert SubscriberOk(s.ws, s.mergeIdx, v);
    }
    forall v | 0 <= v < |s'.ws| ensures SignalOk(s'.ws, s'.mergeIdx, v) {
      assert OnWay(s'.ws[w], ToWorker(v), s'.mergeIdx);
    }
    assert WorkerOk(s.ws[w], s.mergeIdx, s.taken);
  }

  lemma IncrementInv(n: nat, s: State, w: nat)
    requires Inv(n, s) && Enabled(n, s, Increment(w))
    ensures Inv(n, Apply(n, s, Increment(w)))
  {
    hide OneHolder, RivalsOk, MainOk, SubscriberOk, SignalOk;
    var s' := Apply(n, s, Increment(w));
    assert WorkerOk(s.ws[w], s.mergeIdx, s.taken);
    forall i: nat | s'.mergeIdx <= i < s.taken ensures Unmerged(s'.ws, i) {
      UnmergedSet(s.ws, w, s'.ws[w], i);
    }
    HoldersKeep(n, s, w, s'.ws[w], s'.ws);
    IncrementSignals(n, s, w, s');
    forall v | 0 <= v < |s'.ws| ensures TargetsOk(s', s'.ws[v]) && WorkerOk(s'.ws[v], s'.mergeIdx, s'.taken) {
      assert TargetsOk(s, s.ws[v]) && WorkerOk(s.ws[v], s.mergeIdx, s.taken);
      OtherTx(s, v, w);
    }
    NoRivals(s'.ws, s'.ws[w]);
  }

  lemma NoRivals(ws: seq<Worker>, x: Worker)
    requires !x.Executing? && !HasSub(x)
    ensures RivalsOk(ws, x)
  {
  }

  lemma OtherTx(s: State, v: nat, w: nat)
    requires OneHolder(s.ws) && v < |s.ws| && w < |s.ws| && BeforeMerge(s.ws[w])
    ensures BeforeMerge(s.ws[v]) && s.ws[v].tx == s.ws[w].tx ==> v == w
  {
    if BeforeMerge(s.ws[v]) && s.ws[v].tx == s.ws[w].tx {
      assert Holds(s.ws[v], s.ws[w].tx) && Holds(s.ws[w], s.ws[w].tx);
    }
  }

  lemma EmitEndsInv(n: nat, s: State, step: Step)
    requires Inv(n, s) && Enabled(n, s, step) && (step.BeginEmit? || step.EndEmit?)
    ensures Inv(n, Apply(n, s, step))
  {
    hide OneHolder, RivalsOk, MainOk, SubscriberOk, SignalOk;
    var w := step.w;
    var s' := Apply(n, s, step);
    assert WorkerOk(s.ws[w], s.mergeIdx, s.taken);
    forall i: nat | s.mergeIdx <= i < s.taken ensures Unmerged(s'.ws, i) {
      UnmergedSet(s.ws, w, s'.ws[w], i);
    }
    HoldersKeep(n, s, w, s'.ws[w], s'.ws);
    SignalsKeep(n, s, w, s'.ws[w], s'.ws);
    FreshWorker(s'.ws, s.mergeIdx, w);
    NoRivals(s'.ws, s'.ws[w]);
    assert Subscriptions(s') == Subscriptions(s);
    forall v | 0 <= v < |s'.ws| ensures TargetsOk(s', s'.ws[v]) {
      assert TargetsOk(s, s.ws[v]);
    }
  }

  lemma MainInv(n: nat, s: State, step: Step)
    requires Inv(n, s) && Enabled(n, s, step) && (step.MainRecv? || step.MainQuit?)
    ensures Inv(n, Apply(n, s, step))
  {
    var s' := Apply(n, s, step);
    if step.MainRecv? {
      var q := s.main.sub.queue;
      assert q == [q[0]] + q[1..];
      assert q[0] in s.main.sub.got;
      assert Subscriptions(s') == Subscriptions(s);
    }
    forall v | 0 <= v < |s'.ws| ensures TargetsOk(s', s'.ws[v]) {
      assert TargetsOk(s, s.ws[v]);
    }
  }

  // ---- delivery

  lemma DeliverMainInv(n: nat, s: State, w: nat)
    requires Inv(n, s) && Enabled(n, s, Deliver(w, ToMain))
    ensures Inv(n, Apply(n, s, Deliver(w, ToMain)))
  {
    hide OneHolder, RivalsOk, SubscriberOk, SignalOk;
    var s' := Apply(n, s, Deliver(w, ToMain));
    var x, e := s'.ws[w], s.ws[w].event;
    assert WorkerOk(s.ws[w], s.mergeIdx, s.taken);
    forall i: nat | s.mergeIdx <= i < s.taken ensures Unmerged(s'.ws, i) {
      UnmergedSet(s.ws, w, x, i);
    }
    HoldersKeep(n, s, w, x, s'.ws);
    NoRivals(s'.ws, x);
    FreshWorker(s'.ws, s.mergeIdx, w);
    OthersAfterDelivery(n, s, w, ToMain, s'.ws);
    assert Subscriptions(s') == Subscriptions(s);
    forall v | 0 <= v < |s'.ws| ensures TargetsOk(s', s'.ws[v]) {
      assert TargetsOk(s, s.ws[v]);
    }
    DeliveredMain(n, s, w, s');
  }

  lemma OnlyEmitter(n: nat, s: State, w: nat, v: nat, target: Target)
    requires Inv(n, s) && w < |s.ws| && v < |s.ws|
    requires s.ws[w].Emitting? && OnWay(s.ws[v], target, s.ws[w].event)
    ensures v == w
  {
    var e := s.ws[w].event;
    assert WorkerOk(s.ws[w], s.mergeIdx, s.taken);
    assert Holds(s.ws[v], e - 1) && Holds(s.ws[w], e - 1);
  }

  lemma DeliveredMain(n: nat, s: State, w: nat, s': State)
    requires Inv(n, s) && Enabled(n, s, Deliver(w, ToMain)) && s' == Apply(n, s, Deliver(w, ToMain))
    ensures MainOk(n, s'.ws, s'.mergeIdx, s'.main)
  {
    hide OneHolder, RivalsOk, SubscriberOk, SignalOk, TargetsOk, CountsOk;
    var e := s.ws[w].event;
    if s.main.Listening? {
      RoomForMain(n, s, w, e);
      var q, q' := s.main.sub.queue, s'.main.sub.queue;
      assert q' == q + [e];
      forall u, f | 0 <= u < |s'.ws| && f in s'.main.sub.got ensures !OnWay(s'.ws[u], ToMain, f) {
        assert OnWay(s'.ws[u], ToMain, f) ==> OnWay(s.ws[u], ToMain, f);
        if f == e && OnWay(s.ws[u], ToMain, f) { OnlyEmitter(n, s, w, u, ToMain); }
      }
      if s.mergeIdx == n > 0 && n != e && n !in q {
        UndeliveredSet(s.ws, w, s'.ws[w], ToMain, n);
      }
    }
  }

  /** Serving one subscription changes nothing for the other workers' subscriptions. */
  lemma OthersAfterDelivery(n: nat, s: State, w: nat, target: Target, ws: seq<Worker>)
    requires Inv(n, s) && Enabled(n, s, Deliver(w, target))
    requires ws == s.ws[w := Emitting(s.ws[w].event, s.ws[w].todo - {target})]
    ensures forall v :: 0 <= v < |ws| && v != w && ToWorker(v) != target ==> SubscriberOk(ws, s.mergeIdx, v)
    ensures forall v :: 0 <= v < |ws| && v != w && ToWorker(v) != target ==> SignalOk(ws, s.mergeIdx, v)
  {
    hide OneHolder, RivalsOk, TargetsOk, CountsOk, MainOk;
    assert forall v, t, e :: 0 <= v < |ws| && OnWay(ws[v], t, e) ==> OnWay(s.ws[v], t, e);
    forall v | 0 <= v < |ws| && v != w && ToWorker(v) != target ensures SubscriberOk(ws, s.mergeIdx, v) {
      assert SubscriberOk(s.ws, s.mergeIdx, v);
    }
    forall v | 0 <= v < |ws| && v != w && ToWorker(v) != target ensures SignalOk(ws, s.mergeIdx, v) {
      assert SignalOk(s.ws, s.mergeIdx, v);
      if s.ws[v].Waiting? && s.ws[v].tx == s.mergeIdx && s.ws[v].tx !in s.ws[v].sub.queue {
        UndeliveredSet(s.ws, w, ws[w], ToWorker(v), s.ws[v].tx);
      }
    }
  }

  lemma DeliverOneHolder(s: State, w: nat, t: nat, ws: seq<Worker>)
    requires OneHolder(s.ws) && w < |s.ws| && t < |s.ws| && |ws| == |s.ws|
    requires forall v, i: nat :: 0 <= v < |ws| && Holds(ws[v], i) ==> Holds(s.ws[v], i)
    requires forall v :: 0 <= v < |s.ws| ==> RivalsOk(s.ws, s.ws[v])
    requires forall v :: 0 <= v < |ws| && (ws[v].Executing? || HasSub(ws[v])) ==>
      (s.ws[v].Executing? || HasSub(s.ws[v])) && ws[v].tx == s.ws[v].tx && ws[v].rivals == s.ws[v].rivals
    ensures OneHolder(ws)
    ensures forall v :: 0 <= v < |ws| ==> RivalsOk(ws, ws[v])
  {
    forall v | 0 <= v < |ws| ensures RivalsOk(ws, ws[v]) {
      assert RivalsOk(s.ws, s.ws[v]);
    }
  }

  /** The served worker itself: the event is now in its channel and no longer on its way. */
  lemma DeliveredWorker(n: nat, s: State, w: nat, t: nat, s': State)
    requires Inv(n, s) && Few(n, |s.ws|)
    requires Enabled(n, s, Deliver(w, ToWorker(t))) && t < |s.ws| && s' == Apply(n, s, Deliver(w, ToWorker(t)))
    requires HasSub(s.ws[t]) && t != w
    ensures SubscriberOk(s'.ws, s'.mergeIdx, t) && SignalOk(s'.ws, s'.mergeIdx, t)
  {
    hide OneHolder, TargetsOk, CountsOk, MainOk;
    var e := s.ws[w].event;
    RoomForWorker(n, s, w, t, e);
    assert SubscriberOk(s.ws, s.mergeIdx, t) && SignalOk(s.ws, s.mergeIdx, t);
    var q, q' := s.ws[t].sub.queue, s'.ws[t].sub.queue;
    assert q' == q + [e];
    forall u, f | 0 <= u < |s'.ws| && f in s'.ws[t].sub.got ensures !OnWay(s'.ws[u], ToWorker(t), f) {
      assert OnWay(s'.ws[u], ToWorker(t), f) ==> OnWay(s.ws[u], ToWorker(t), f);
      if f == e && OnWay(s.ws[u], ToWorker(t), f) { OnlyEmitter(n, s, w, u, ToWorker(t)); }
    }
    var tx := s.ws[t].tx;
    if s.ws[t].Waiting? && tx == s.mergeIdx && tx != e && tx !in q {
      var v :| 0 <= v < |s.ws| && OnWay(s.ws[v], ToWorker(t), tx);
      assert OnWay(s'.ws[v], ToWorker(t), tx);
    }
  }

  lemma OthersUnaffected(n: nat, s: State, w: nat, t: nat, s': State)
    requires Inv(n, s) && Enabled(n, s, Deliver(w, ToWorker(t)))
    requires t < |s.ws| && s' == Apply(n, s, Deliver(w, ToWorker(t)))
    requires HasSub(s.ws[t]) && t != w
    ensures forall v :: 0 <= v < |s'.ws| && v != t ==> SubscriberOk(s'.ws, s'.mergeIdx, v)
    ensures forall v :: 0 <= v < |s'.ws| && v != t ==> SignalOk(s'.ws, s'.mergeIdx, v)
    ensures MainOk(n, s'.ws, s'.mergeIdx, s'.main)
  {
    hide OneHolder, RivalsOk, TargetsOk, CountsOk;
    assert forall v, u, e :: 0 <= v < |s'.ws| && OnWay(s'.ws[v], u, e) ==> OnWay(s.ws[v], u, e);
    forall v | 0 <= v < |s'.ws| && v != t ensures SubscriberOk(s'.ws, s'.mergeIdx, v) {
      assert SubscriberOk(s.ws, s.mergeIdx, v);
    }
    forall v | 0 <= v < |s'.ws| && v != t ensures SignalOk(s'.ws, s'.mergeIdx, v) {
      assert SignalOk(s.ws, s.mergeIdx, v);
      if v != w && s.ws[v].Waiting? && s.ws[v].tx == s.mergeIdx && s.ws[v].tx !in s.ws[v].sub.queue {
        var u :| 0 <= u < |s.ws| && OnWay(s.ws[u], ToWorker(v), s.ws[v].tx);
        assert OnWay(s'.ws[u], ToWorker(v), s.ws[v].tx);
      }
    }
    if s.main.Listening? && s.mergeIdx == n > 0 && n !in s.main.sub.queue {
      var u :| 0 <= u < |s.ws| && OnWay(s.ws[u], ToMain, n);
      assert OnWay(s'.ws[u], ToMain, n);
    }
  }

  lemma DeliverWorkerInv(n: nat, s: State, w: nat, t: nat)
    requires Inv(n, s) && Few(n, |s.ws|) && Enabled(n, s, Deliver(w, ToWorker(t))) && t < |s.ws|
    ensures Inv(n, Apply(n, s, Deliver(w, ToWorker(t))))
  {
    hide OneHolder, RivalsOk, SubscriberOk, SignalOk, MainOk, Unmerged;
    var s' := Apply(n, s, Deliver(w, ToWorker(t)));
    assert TargetsOk(s, s.ws[w]);
    assert HasSub(s.ws[t]) && t != w;
    assert WorkerOk(s.ws[w], s.mergeIdx, s.taken) && WorkerOk(s.ws[t], s.mergeIdx, s.taken);
    assert s'.ws == s.ws[w := s'.ws[w]][t := s'.ws[t]];
    forall i: nat | s.mergeIdx <= i < s.taken ensures Unmerged(s'.ws, i) {
      UnmergedSet(s.ws, w, s'.ws[w], i);
      UnmergedSet(s.ws[w := s'.ws[w]], t, s'.ws[t], i);
    }
    DeliverOneHolder(s, w, t, s'.ws);
    DeliveredWorker(n, s, w, t, s');
    OthersUnaffected(n, s, w, t, s');
    assert Subscriptions(s') == Subscriptions(s);
    forall v | 0 <= v < |s'.ws| ensures TargetsOk(s', s'.ws[v]) {
      assert TargetsOk(s, s.ws[v]);
    }
  }

  /** Every step of every worker keeps the invariant, with few enough workers or transactions. */
  lemma StepInv(n: nat, s: State, step: Step)
    requires Inv(n, s) && Few(n, |s.ws|) && Enabled(n, s, step)
    ensures Inv(n, Apply(n, s, step)) && |Apply(n, s, step).ws| == |s.ws|
  {
    hide Inv;
    match step
    case Send => SendInv(n, s);
    case Take(w) => TakeInv(n, s, w);
    case Recv(w) => RecvInv(n, s, w);
    case Increment(w) => IncrementInv(n, s, w);
    case Deliver(w, t) =>
      TargetIsLive(n, s, w, t);
      if t == ToMain { DeliverMainInv(n, s, w); } else { DeliverWorkerInv(n, s, w, t.w); }
    case BeginEmit(w) => EmitEndsInv(n, s, step);
    case EndEmit(w) => EmitEndsInv(n, s, step);
    case MainRecv => MainInv(n, s, step);
    case MainQuit => MainInv(n, s, step);
    case _ => SimpleMovesInv(n, s, step);
  }

  /** An event is only ever sent to a subscription that is still registered, hence not closed. */
  lemma TargetIsLive(n: nat, s: State, w: nat, target: Target)
    requires Inv(n, s) && Enabled(n, s, Deliver(w, target))
    ensures target in Subscriptions(s)
    ensures if target == ToMain then !s.main.Returned? else target.w < |s.ws| && HasSub(s.ws[target.w])
  {
    assert TargetsOk(s, s.ws[w]);
  }

  // ------------------------------------------------------- progress

  /** A worker that is not free and not waiting can always take its next step. */
  lemma BusyWorkerMoves(n: nat, s: State, w: nat) returns (step: Step)
    requires w < |s.ws| && !s.ws[w].Free?
    requires s.ws[w].Waiting? ==> s.ws[w].sub.queue != []
    requires Unlocked(s) || s.ws[w].Emitting?
    ensures Enabled(n, s, step)
  {
    match s.ws[w]
    case Executing(_, _) => step := Subscribe(w);
    case Subscribed(_, _, _) => step := CheckIdx(w);
    case Waiting(_, _, _) => step := Recv(w);
    case Leaving(_, _, _) => step := Unsubscribe(w);
    case Merging(_) => step := Increment(w);
    case Pending(_) => step := BeginEmit(w);
    case Emitting(_, todo) =>
      if todo == {} { step := EndEmit(w); } else { var t :| t in todo; step := Deliver(w, t); }
  }

  /** While a taken transaction is unmerged, some worker is neither free nor asleep. */
  lemma SomebodyAwake(n: nat, s: State) returns (u: nat)
    requires Inv(n, s) && s.mergeIdx < s.taken
    ensures u < |s.ws| && !s.ws[u].Free? && (s.ws[u].Waiting? ==> s.ws[u].sub.queue != [])
  {
    assert Unmerged(s.ws, s.mergeIdx);
    var w :| 0 <= w < |s.ws| && BeforeMerge(s.ws[w]) && s.ws[w].tx == s.mergeIdx;
    u := w;
    if s.ws[w].Waiting? && s.ws[w].sub.queue == [] {
      assert SignalOk(s.ws, s.mergeIdx, w);
      u :| 0 <= u < |s.ws| && OnWay(s.ws[u], ToWorker(w), s.mergeIdx);
    }
  }

  /** When everybody is free or waits on an empty channel, all transactions taken so far are merged. */
  lemma QuietMeansMerged(n: nat, s: State)
    requires Inv(n, s)
    requires forall w :: 0 <= w < |s.ws| ==> s.ws[w].Free? || (s.ws[w].Waiting? && s.ws[w].sub.queue == [])
    ensures s.mergeIdx == s.taken
    ensures forall w :: 0 <= w < |s.ws| ==> s.ws[w].Free?
  {
    if s.mergeIdx < s.taken {
      var u := SomebodyAwake(n, s);
    }
    forall w | 0 <= w < |s.ws| ensures s.ws[w].Free? {
      assert WorkerOk(s.ws[w], s.mergeIdx, s.taken);
    }
  }

  /** No lost wake-up: until the dispatcher has returned, somebody can move. */
  lemma NeverStuck(n: nat, s: State) returns (step: Step)
    requires n > 0 && Inv(n, s) && |s.ws| > 0 && !s.main.Returned?
    ensures Enabled(n, s, step)
  {
    if w :| 0 <= w < |s.ws| && s.ws[w].Emitting? {
      step := BusyWorkerMoves(n, s, w);
    } else if w :| 0 <= w < |s.ws| && !s.ws[w].Free? && (s.ws[w].Waiting? ==> s.ws[w].sub.queue != []) {
      step := BusyWorkerMoves(n, s, w);
    } else {
      QuietMeansMerged(n, s);
      if s.main.Quitting? {
        step := MainQuit;
      } else if s.taken < s.sent {
        step := Take(0);
      } else if s.sent < n {
        step := Send;
      } else {
        step := MainRecv;
      }
    }
  }

  // ------------------------------------------------------- termination

  /** What a worker still has to do; `l` is the number of workers. */
  function Weight(l: nat, x: Worker): nat {
    match x
    case Free => 0
    case Executing(_, _) => 2 * l + 9
    case Subscribed(_, _, sub) => 2 * l + 8 + |sub.queue|
    case Waiting(_, _, sub) => 2 * l + 7 + |sub.queue|
    case Leaving(_, _, sub) => 2 * l + 6 + |sub.queue|
    case Merging(_) => 2 * l + 5
    case Pending(_) => 2 * l + 4
    case Emitting(_, todo) => 2 * |todo| + 1
  }

  function Total(l: nat, ws: seq<Worker>): nat {
    if ws == [] then 0 else Total(l, ws[..|ws| - 1]) + Weight(l, ws[|ws| - 1])
  }

  function MainWeight(main: Dispatcher): nat {
    match main
    case Listening(sub) => 2 + |sub.queue|
    case Quitting(sub) => 1 + |sub.queue|
    case Returned => 0
  }

  function Measure(n: nat, s: State): int {
    (n - s.sent) + (n - s.taken) * (2 * |s.ws| + 10) + Total(|s.ws|, s.ws) + MainWeight(s.main)
  }

  lemma {:induction false} TotalSet(l: nat, ws: seq<Worker>, w: nat, x: Worker)
    requires w < |ws|
    ensures Total(l, ws[w := x]) == Total(l, ws) - Weight(l, ws[w]) + Weight(l, x)
  {
    var k := |ws| - 1;
    if w == k {
      assert ws[w := x][..k] == ws[..k];
    } else {
      TotalSet(l, ws[..k], w, x);
      assert ws[w := x][..k] == ws[..k][w := x];
    }
  }

  lemma SubscriptionCount(s: State)
    ensures |Subscriptions(s)| <= |s.ws| + 1
  {
    var ws := AllTargets(|s.ws|);
    assert Subscriptions(s) <= ws + {ToMain};
    SubsetCount(Subscriptions(s), ws + {ToMain});
  }

  function AllTargets(k: nat): (ts: set<Target>)
    ensures |ts| == k
    ensures forall t :: t in ts <==> t.ToWorker? && t.w < k
  {
    if k == 0 then {} else AllTargets(k - 1) + {ToWorker(k - 1)}
  }

  lemma ServeWeight(n: nat, s: State, target: Target, event: nat)
    ensures |Served(n, s, target, event).ws| == |s.ws|
    ensures Total(|s.ws|, Served(n, s, target, event).ws) + MainWeight(Served(n, s, target, event).main)
      <= Total(|s.ws|, s.ws) + MainWeight(s.main) + 1
  {
    if target.ToWorker? && target.w < |s.ws| && HasSub(s.ws[target.w]) {
      var w := s.ws[target.w];
      TotalSet(|s.ws|, s.ws, target.w, w.(sub := Push(w.sub, CAPACITY, event)));
    }
  }

  /** The part of the measure that a worker's own move changes. */
  lemma MoveWeight(n: nat, s: State, step: Step)
    requires Enabled(n, s, step) && !step.Send? && !step.MainRecv? && !step.MainQuit? && !step.Deliver?
    ensures var s' := Apply(n, s, step);
      && |s'.ws| == |s.ws| && s'.main == s.main && s'.sent == s.sent
      && Total(|s.ws|, s'.ws) < Total(|s.ws|, s.ws) + (if step.Take? then 2 * |s.ws| + 10 else 0)
  {
    hide Total, HeldTxs, Subscriptions, Unlocked;
    var s' := Apply(n, s, step);
    TotalSet(|s.ws|, s.ws, step.w, s'.ws[step.w]);
    if step.BeginEmit? { SubscriptionCount(s); }
  }

  lemma DeliverWeight(n: nat, s: State, w: nat, target: Target)
    requires Enabled(n, s, Deliver(w, target))
    ensures var s' := Apply(n, s, Deliver(w, target));
      && |s'.ws| == |s.ws| && s'.sent == s.sent && s'.taken == s.taken
      && Total(|s.ws|, s'.ws) + MainWeight(s'.main) < Total(|s.ws|, s.ws) + MainWeight(s.main)
  {
    hide Total;
    var x := Emitting(s.ws[w].event, s.ws[w].todo - {target});
    TotalSet(|s.ws|, s.ws, w, x);
    ServeWeight(n, Set(s, w, x), target, s.ws[w].event);
  }

  /** Every step brings the end nearer. */
  lemma MeasureDrops(n: nat, s: State, step: Step)
    requires Enabled(n, s, step) && s.taken <= s.sent <= n
    ensures Measure(n, Apply(n, s, step)) < Measure(n, s)
  {
    hide Total;
    if step.Deliver? {
      DeliverWeight(n, s, step.w, step.target);
    } else if !step.Send? && !step.MainRecv? && !step.MainQuit? {
      MoveWeight(n, s, step);
      var c := 2 * |s.ws| + 10;
      assert (n - (s.taken + 1)) * c == (n - s.taken) * c - c;
    }
  }

  lemma InvCounts(n: nat, s: State)
    requires Inv(n, s)
    ensures s.mergeIdx <= s.taken <= s.sent <= n
  {
  }

  // ------------------------------------------------------- whole runs

  ghost predicate StepAt(n: nat, run: seq<State>, k: nat)
    requires k + 1 < |run|
  {
    Next(n, run[k], run[k + 1])
  }

  ghost predicate IsRun(n: nat, l: nat, run: seq<State>) {
    && |run| > 0 && Init(l, run[0])
    && forall k: nat :: k + 1 < |run| ==> StepAt(n, run, k)
  }

  lemma {:induction false} RunInv(n: nat, l: nat, run: seq<State>, k: nat)
    requires IsRun(n, l, run) && Few(n, l) && k < |run|
    ensures Inv(n, run[k]) && |run[k].ws| == l
    ensures Measure(n, run[k]) + k <= Measure(n, run[0])
  {
    hide Inv, Enabled, Apply, Measure;
    if k == 0 {
      InitInv(n, l, run[0]);
    } else {
      RunInv(n, l, run, k - 1);
      assert StepAt(n, run, k - 1);
      var step :| Enabled(n, run[k - 1], step) && run[k] == Apply(n, run[k - 1], step);
      StepInv(n, run[k - 1], step);
      InvCounts(n, run[k - 1]);
      MeasureDrops(n, run[k - 1], step);
    }
  }

  /**
   * With at most 21 workers or at most 21 transactions every run is finite, and one that cannot be
   * continued has returned with all transactions merged exactly once, in index order.
   */
  lemma AllMergedInOrder(n: nat, l: nat, run: seq<State>)
    requires n > 0 && l > 0 && Few(n, l) && IsRun(n, l, run)
    ensures |run| <= n + n * (2 * l + 10) + 3
    ensures var s := run[|run| - 1];
      && |s.merged| == s.mergeIdx <= n
      && (forall i :: 0 <= i < |s.merged| ==> s.merged[i] == i)
      && (s.main.Returned? ==> s.mergeIdx == n)
      && ((forall step :: !Enabled(n, s, step)) ==> s.main.Returned?)
  {
    var k := |run| - 1;
    RunInv(n, l, run, k);
    InitialMeasure(n, l, run[0]);
    InvCounts(n, run[k]);
    MeasureNonNegative(n, run[k]);
    if !run[k].main.Returned? {
      var step := NeverStuck(n, run[k]);
    }
  }

  lemma MeasureNonNegative(n: nat, s: State)
    requires s.taken <= s.sent <= n
    ensures Measure(n, s) >= 0
  {
    hide Total, MainWeight;
  }

  lemma {:induction false} AllFree(l: nat, ws: seq<Worker>)
    requires forall w :: 0 <= w < |ws| ==> ws[w].Free?
    ensures Total(l, ws) == 0
  {
    if ws != [] { AllFree(l, ws[..|ws| - 1]); }
  }

  lemma InitialMeasure(n: nat, l: nat, s: State)
    requires Init(l, s)
    ensures Measure(n, s) == n + n * (2 * l + 10) + 2
  {
    AllFree(l, s.ws);
  }
}
