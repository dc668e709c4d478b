// The transaction store: a heap by time of arrival whose items know their place in it.
module TxQueue {
  import opened ByteStrings

  // ------------------------------------------------ heap order

  function Parent(i: nat): nat { if i == 0 then 0 else (i - 1) / 2 }

  /** The item is not earlier than its parent. */
  predicate Right(q: seq<Bytes>, t: map<Bytes, int>, i: nat)
    requires Timed(q, t) && i < |q|
  {
    t[q[Parent(i)]] <= t[q[i]]
  }

  predicate Timed(q: seq<Bytes>, t: map<Bytes, int>) {
    forall i :: 0 <= i < |q| ==> q[i] in t
  }

  /** Heap order among the first n. */
  ghost predicate Heap(q: seq<Bytes>, t: map<Bytes, int>, n: nat)
    requires Timed(q, t) && n <= |q|
  {
    forall i :: 0 < i < n ==> Right(q, t, i)
  }

  /** Heap order except around `hole`; its children are right for its parent. */
  ghost predicate HoleBelow(q: seq<Bytes>, t: map<Bytes, int>, n: nat, hole: nat)
    requires Timed(q, t) && hole < n <= |q|
  {
    && (forall i :: 0 < i < n && Parent(i) != hole && i != hole ==> Right(q, t, i))
    && (hole > 0 ==> forall i :: 0 < i < n && Parent(i) == hole ==> t[q[Parent(hole)]] <= t[q[i]])
  }

  /** Heap order except at `hole` itself. */
  ghost predicate HoleAbove(q: seq<Bytes>, t: map<Bytes, int>, n: nat, hole: nat)
    requires Timed(q, t) && hole < n <= |q|
  {
    && (forall i :: 0 < i < n && i != hole ==> Right(q, t, i))
    && (hole > 0 ==> forall i :: 0 < i < n && Parent(i) == hole ==> t[q[Parent(hole)]] <= t[q[i]])
  }

  function Swapped(q: seq<Bytes>, i: nat, j: nat): seq<Bytes>
    requires i < |q| && j < |q|
  {
    q[i := q[j]][j := q[i]]
  }

  /** The root of a heap is the earliest item. */
  lemma {:induction false} RootEarliest(q: seq<Bytes>, t: map<Bytes, int>, n: nat, i: nat)
    requires Timed(q, t) && i < n <= |q| && Heap(q, t, n)
    ensures t[q[0]] <= t[q[i]]
  {
    if i > 0 {
      RootEarliest(q, t, n, Parent(i));
      assert Right(q, t, i);
    }
  }

  lemma ParentBelow(i: nat)
    ensures Parent(i) <= i && (i > 0 ==> Parent(i) < i) && (i == 0 ==> Parent(i) == 0)
  {
  }

  lemma SiftUp(q: seq<Bytes>, t: map<Bytes, int>, n: nat, j: nat)
    requires Timed(q, t) && 0 < j < n <= |q| && HoleAbove(q, t, n, j) && Parent(j) < |q| && t[q[j]] < t[q[Parent(j)]]
    ensures Timed(Swapped(q, Parent(j), j), t) && HoleAbove(Swapped(q, Parent(j), j), t, n, Parent(j))
  {
    hide Parent;
    ParentBelow(j);
    var p := Parent(j);
    ParentBelow(p);
    var s := Swapped(q, p, j);
    forall i | 0 < i < n && i != p ensures Right(s, t, i) {
      ParentBelow(i);
      assert i != j ==> Right(q, t, i);
    }
    forall i | p > 0 && 0 < i < n && Parent(i) == p ensures t[s[Parent(p)]] <= t[s[i]] {
      ParentBelow(i);
      assert Right(q, t, p);
      if i != j { assert Right(q, t, i); }
    }
  }

  lemma SiftDown(q: seq<Bytes>, t: map<Bytes, int>, n: nat, hole: nat, j: nat)
    requires Timed(q, t) && hole < n <= |q| && HoleBelow(q, t, n, hole)
    requires 0 < j < n && Parent(j) == hole && t[q[j]] < t[q[hole]]
    requires forall i :: 0 < i < n && Parent(i) == hole ==> t[q[j]] <= t[q[i]]
    ensures Timed(Swapped(q, hole, j), t) && HoleBelow(Swapped(q, hole, j), t, n, j)
    ensures Right(Swapped(q, hole, j), t, j)
  {
    hide Parent;
    ParentBelow(j);
    ParentBelow(hole);
    var s := Swapped(q, hole, j);
    forall i | 0 < i < n && Parent(i) != j && i != j ensures Right(s, t, i) {
      ParentBelow(i);
      if Parent(i) != hole && i != hole { assert Right(q, t, i); }
    }
    forall i | 0 < i < n && Parent(i) == j ensures t[s[Parent(j)]] <= t[s[i]] {
      ParentBelow(i);
      assert Right(q, t, i);
    }
  }

  // ------------------------------------------------ the store

  /** Earliest first, none twice. */
  ghost predicate InOrder(ret: seq<Bytes>, t: map<Bytes, int>) {
    Timed(ret, t) && forall i, j :: 0 <= i < j < |ret| ==> ret[i] != ret[j] && t[ret[i]] <= t[ret[j]]
  }

  ghost predicate NotLater(t: map<Bytes, int>, x: Bytes, rest: set<Bytes>) {
    x in t && forall h :: h in rest ==> h in t && t[x] <= t[h]
  }

  ghost predicate BeforeAll(ret: seq<Bytes>, t: map<Bytes, int>, rest: set<Bytes>) {
    forall i :: 0 <= i < |ret| ==> NotLater(t, ret[i], rest) && ret[i] !in rest
  }

  lemma NoneTaken(t: map<Bytes, int>, rest: set<Bytes>)
    ensures InOrder([], t) && BeforeAll([], t, rest)
  {
  }

  lemma OneMoreTaken(ret: seq<Bytes>, t: map<Bytes, int>, rest: set<Bytes>, h: Bytes)
    requires InOrder(ret, t) && BeforeAll(ret, t, rest) && h in rest && NotLater(t, h, rest)
    ensures InOrder(ret + [h], t) && BeforeAll(ret + [h], t, rest - {h})
  {
    forall i | 0 <= i < |ret| ensures ret[i] != h && t[ret[i]] <= t[h] {
      assert NotLater(t, ret[i], rest);
    }
  }

  ghost function Elements(q: seq<Bytes>): set<Bytes> { set i | 0 <= i < |q| :: q[i] }

  /** Items known by hash: when each arrived and its place in the queue, -1 for none. */
  class TxStore {
    var queue: seq<Bytes>
    var time: map<Bytes, int>
    var index: map<Bytes, int>

    /** Every queued item is known, and every known item knows its place. */
    ghost predicate Placed()
      reads this
    {
      && time.Keys == index.Keys && Timed(queue, time)
      && (forall i :: 0 <= i < |queue| ==> queue[i] in index && index[queue[i]] == i)
      && (forall h :: h in index ==> index[h] == -1 || (0 <= index[h] < |queue| && queue[index[h]] == h))
    }

    ghost predicate Valid()
      reads this
    {
      Placed() && Heap(queue, time, |queue|)
    }

    constructor ()
      ensures Valid() && queue == [] && time == map[]
    {
      queue, time, index := [], map[], map[];
    }

    method Swap(i: nat, j: nat)
      requires Placed() && i < |queue| && j < |queue|
      modifies this`queue, this`index
      ensures Placed() && queue == Swapped(old(queue), i, j) && Elements(queue) == old(Elements(queue))
    {
      queue := Swapped(queue, i, j);
      index := index[queue[i] := i];
      index := index[queue[j] := j];
      SwappedElements(old(queue), i, j);
    }

    /** Lets an item that is too early for its place rise among the first n. */
    method Up(j0: nat, ghost n: nat)
      requires Placed() && j0 < n <= |queue| && HoleAbove(queue, time, n, j0)
      modifies this`queue, this`index
      ensures Placed() && |queue| == |old(queue)| && Elements(queue) == old(Elements(queue))
      ensures queue[n..] == old(queue)[n..] && Heap(queue, time, n)
    {
      hide Parent, Elements;
      var j: nat := j0;
      while true
        invariant Placed() && j < n <= |queue| == |old(queue)| && HoleAbove(queue, time, n, j)
        invariant Elements(queue) == old(Elements(queue)) && queue[n..] == old(queue)[n..]
        decreases j
      {
        var i := Parent(j);
        ParentBelow(j);
        if i == j || time[queue[j]] >= time[queue[i]] {
          break;
        }
        SiftUp(queue, time, n, j);
        Swap(i, j);
        j := i;
      }
      assert j > 0 ==> Right(queue, time, j);
    }

    /** Lets an item that is too late for its place sink among the first n. */
    method Down(i0: nat, n: nat) returns (moved: bool)
      requires Placed() && i0 < n <= |queue| && HoleBelow(queue, time, n, i0)
      modifies this`queue, this`index
      ensures Placed() && |queue| == |old(queue)| && Elements(queue) == old(Elements(queue))
      ensures queue[n..] == old(queue)[n..]
      ensures moved ==> Heap(queue, time, n)
      ensures !moved ==> HoleAbove(queue, time, n, i0)
    {
      hide Parent, Elements, HoleBelow, HoleAbove, Heap, Right;
      var i: nat := i0;
      while true
        invariant Placed() && i0 <= i < n <= |queue| == |old(queue)| && HoleBelow(queue, time, n, i)
        invariant i > i0 ==> Right(queue, time, i)
        invariant Elements(queue) == old(Elements(queue)) && queue[n..] == old(queue)[n..]
        decreases n - i
      {
        Children(i);
        var j := 2 * i + 1;
        if j >= n {
          break;
        }
        if j + 1 < n && time[queue[j + 1]] < time[queue[j]] {
          j := j + 1;
        }
        EarlierChild(queue, time, n, i, j);
        if time[queue[j]] >= time[queue[i]] {
          break;
        }
        SiftDown(queue, time, n, i, j);
        Swap(i, j);
        i := j;
      }
      SunkRight(queue, time, n, i);
      return i > i0;
    }

    /** Takes the last item off. */
    method DropLast() returns (h: Bytes)
      requires Placed() && queue != [] && Heap(queue, time, |queue| - 1)
      modifies this`queue, this`index
      ensures Valid() && h == old(queue[|queue| - 1]) && queue == old(queue[..|queue| - 1])
      ensures Elements(queue) == old(Elements(queue)) - {h} && h in old(Elements(queue))
      ensures index == old(index)[h := -1]
    {
      hide Parent;
      var n := |queue| - 1;
      h := queue[n];
      index := index[h := -1];
      queue := queue[..n];
      CutElements(old(queue));
      CutHeap(old(queue), time, n);
    }

    /** A known item that is not queued joins the queue at the end and rises. */
    method Enqueue(h: Bytes)
      requires Valid() && h in index && index[h] == -1
      modifies this`queue, this`index
      ensures Valid() && Elements(queue) == old(Elements(queue)) + {h} && index.Keys == old(index.Keys)
    {
      hide Parent;
      index := index[h := |queue|];
      queue := queue + [h];
      Appended(old(queue), h, time);
      Up(|queue| - 1, |queue|);
    }

    /** Takes the earliest item. */
    method Dequeue() returns (h: Bytes)
      requires Valid() && queue != []
      modifies this`queue, this`index
      ensures Valid() && Elements(queue) == old(Elements(queue)) - {h} && h in old(Elements(queue))
      ensures NotLater(time, h, old(Elements(queue)))
      ensures index.Keys == old(index.Keys) && index[h] == -1
    {
      hide Parent;
      var n := |queue| - 1;
      AllLater(queue, time);
      RemoveHole(queue, time, n, 0);
      Swap(0, n);
      if n > 0 {
        var moved := Down(0, n);
        assert queue[n] == queue[n..][0] == old(queue)[0];
      }
      h := DropLast();
    }

    /** Takes out the item at a place: the last one fills it and moves to where it belongs. */
    method RemoveAt(i: nat) returns (h: Bytes)
      requires Valid() && i < |queue|
      modifies this`queue, this`index
      ensures Valid() && h == old(queue[i]) && Elements(queue) == old(Elements(queue)) - {h}
      ensures index.Keys == old(index.Keys) && index[h] == -1
    {
      hide Parent;
      var n := |queue| - 1;
      RemoveHole(queue, time, n, i);
      if n != i {
        Swap(i, n);
        var moved := Down(i, n);
        if !moved {
          Up(i, n);
        }
        assert queue[n] == queue[n..][0] == old(queue)[i];
      }
      h := DropLast();
    }

    /** A new transaction is queued; a known one is left alone. */
    method AddNewTx(h: Bytes, receivedTime: int)
      requires Valid()
      modifies this
      ensures Valid()
      ensures h in old(time) ==> unchanged(this)
      ensures h !in old(time) ==> time == old(time)[h := receivedTime] && Elements(queue) == old(Elements(queue)) + {h}
    {
      hide Parent, Elements;
      if h in time {
        return;
      }
      KnownStaysTimed(queue, time, h, receivedTime);
      time := time[h := receivedTime];
      index := index[h := -1];
      Enqueue(h);
    }

    /** The earliest transactions in the queue, earliest first, put-back ones among them. */
    method PopTxsFromQueue(max: nat) returns (ret: seq<Bytes>)
      requires Valid()
      modifies this`queue, this`index
      ensures Valid()
      ensures |ret| == if |old(queue)| < max then |old(queue)| else max
      ensures InOrder(ret, time) && BeforeAll(ret, time, Elements(queue))
      ensures Elements(ret) <= old(Elements(queue)) && Elements(queue) == old(Elements(queue)) - Elements(ret)
    {
      hide Parent, Elements, Heap, InOrder, BeforeAll, Placed;
      var count := if |queue| < max then |queue| else max;
      ret := [];
      NoElements();
      QueueSize();
      NoneTaken(time, Elements(queue));
      while |ret| < count
        invariant Valid() && |ret| <= count && |queue| == |old(queue)| - |ret|
        invariant Elements(queue) == old(Elements(queue)) - Elements(ret) && Elements(ret) <= old(Elements(queue))
        invariant InOrder(ret, time) && BeforeAll(ret, time, Elements(queue))
      {
        QueueSize();
        ghost var rest := Elements(queue);
        var h := Dequeue();
        QueueSize();
        AppendElement(ret, h);
        OneMoreTaken(ret, time, rest, h);
        ret := ret + [h];
      }
    }

    lemma QueueSize()
      requires Placed()
      ensures |Elements(queue)| == |queue|
    {
      DistinctSize(queue);
    }

    /** Puts back what is known and not queued. */
    method PutTxsToQueue(hashes: seq<Bytes>)
      requires Valid()
      modifies this`queue, this`index
      ensures Valid()
      ensures Elements(queue) == old(Elements(queue)) + (Elements(hashes) * time.Keys)
    {
      hide Parent, Elements, Heap;
      NoElements();
      assert hashes[..0] == [];
      for k := 0 to |hashes|
        invariant Valid() && Elements(queue) == old(Elements(queue)) + (Elements(hashes[..k]) * time.Keys)
      {
        AppendElement(hashes[..k], hashes[k]);
        assert hashes[..k + 1] == hashes[..k] + [hashes[k]];
        QueuedIs(hashes[k]);
        if hashes[k] in index {
          if index[hashes[k]] == -1 {
            Enqueue(hashes[k]);
          }
        }
      }
      assert hashes[..|hashes|] == hashes;
    }

    /** A known item has a place exactly when it is queued. */
    lemma QueuedIs(h: Bytes)
      requires Placed()
      ensures h in Elements(queue) <==> h in index && index[h] != -1
    {
    }

    /** Takes the given transactions out of the queue; they stay known. */
    method SetTxsPending(hashes: seq<Bytes>)
      requires Valid()
      modifies this`queue, this`index
      ensures Valid() && Elements(queue) == old(Elements(queue)) - Elements(hashes)
    {
      hide Parent, Elements, Heap;
      NoElements();
      assert hashes[..0] == [];
      for k := 0 to |hashes|
        invariant Valid() && Elements(queue) == old(Elements(queue)) - Elements(hashes[..k])
      {
        AppendElement(hashes[..k], hashes[k]);
        assert hashes[..k + 1] == hashes[..k] + [hashes[k]];
        QueuedIs(hashes[k]);
        if hashes[k] in index {
          if index[hashes[k]] != -1 {
            var _ := RemoveAt(index[hashes[k]]);
          }
        }
      }
      assert hashes[..|hashes|] == hashes;
    }

    /** Forgets the given transactions altogether. */
    method RemoveTxs(hashes: seq<Bytes>)
      requires Valid()
      modifies this
      ensures Valid() && Elements(queue) == old(Elements(queue)) - Elements(hashes)
      ensures time == old(time) - Elements(hashes)
    {
      hide Parent, Elements, Heap, Valid;
      NoElements();
      assert hashes[..0] == [];
      for k := 0 to |hashes|
        invariant Valid() && Elements(queue) == old(Elements(queue)) - Elements(hashes[..k])
        invariant time == old(time) - Elements(hashes[..k])
      {
        AppendElement(hashes[..k], hashes[k]);
        assert hashes[..k + 1] == hashes[..k] + [hashes[k]];
        RemoveTx(hashes[k]);
      }
      assert hashes[..|hashes|] == hashes;
    }

    method RemoveTx(h: Bytes)
      requires Valid()
      modifies this
      ensures Valid() && Elements(queue) == old(Elements(queue)) - {h} && time == old(time) - {h}
    {
      hide Parent, Elements, Heap;
      QueuedIs(h);
      if h in index {
        if index[h] != -1 {
          var _ := RemoveAt(index[h]);
        }
        Forget(h);
      }
    }

    method Forget(h: Bytes)
      requires Valid() && h in index && index[h] == -1
      modifies this`time, this`index
      ensures Valid() && time == old(time) - {h} && index == old(index) - {h}
    {
      hide Parent;
      QueuedIs(h);
      ForgetHeap(queue, time, h);
      time := time - {h};
      index := index - {h};
    }
  }

  // ------------------------------------------------ about sequences

  lemma SwappedElements(q: seq<Bytes>, i: nat, j: nat)
    requires i < |q| && j < |q|
    ensures Elements(Swapped(q, i, j)) == Elements(q)
  {
    var s := Swapped(q, i, j);
    forall x | x in Elements(q) ensures x in Elements(s) {
      var k :| 0 <= k < |q| && q[k] == x;
      assert s[if k == i then j else if k == j then i else k] == x;
    }
  }

  lemma Children(i: nat)
    ensures forall k :: k > 0 && Parent(k) == i <==> k == 2 * i + 1 || k == 2 * i + 2
  {
  }

  lemma EarlierChild(q: seq<Bytes>, t: map<Bytes, int>, n: nat, i: nat, j: nat)
    requires Timed(q, t) && n <= |q| && j < n && (j == 2 * i + 1 || j == 2 * i + 2)
    requires 2 * i + 1 < n && t[q[j]] <= t[q[2 * i + 1]]
    requires 2 * i + 2 < n ==> t[q[j]] <= t[q[2 * i + 2]]
    ensures 0 < j && Parent(j) == i && forall k :: 0 < k < n && Parent(k) == i ==> t[q[j]] <= t[q[k]]
  {
    Children(i);
  }

  lemma SunkRight(q: seq<Bytes>, t: map<Bytes, int>, n: nat, i: nat)
    requires Timed(q, t) && i < n <= |q| && HoleBelow(q, t, n, i)
    requires forall k :: 0 < k < n && Parent(k) == i ==> t[q[k]] >= t[q[i]]
    ensures HoleAbove(q, t, n, i) && (i == 0 || Right(q, t, i) ==> Heap(q, t, n))
  {
    hide Parent;
    forall k | 0 < k < n && k != i ensures Right(q, t, k) {
    }
  }

  lemma Appended(q: seq<Bytes>, h: Bytes, t: map<Bytes, int>)
    requires Timed(q, t) && h in t && Heap(q, t, |q|)
    ensures Timed(q + [h], t) && HoleAbove(q + [h], t, |q| + 1, |q|) && Elements(q + [h]) == Elements(q) + {h}
  {
    hide Parent;
    var s := q + [h];
    forall i | 0 < i < |s| && i != |q| ensures Right(s, t, i) {
      ParentBelow(i);
      assert Right(q, t, i);
    }
    forall i | 0 < i < |s| ensures Parent(i) != |q| {
      ParentBelow(i);
    }
    AppendElement(q, h);
  }

  lemma AppendElement(q: seq<Bytes>, h: Bytes)
    ensures Elements(q + [h]) == Elements(q) + {h}
  {
    var s := q + [h];
    assert s[|q|] == h;
    forall x | x in Elements(q) ensures x in Elements(s) {
      var k :| 0 <= k < |q| && q[k] == x;
      assert s[k] == x;
    }
  }

  lemma NoElements()
    ensures Elements([]) == {}
  {
  }

  lemma AllLater(q: seq<Bytes>, t: map<Bytes, int>)
    requires Timed(q, t) && q != [] && Heap(q, t, |q|)
    ensures forall x :: x in Elements(q) ==> x in t && t[q[0]] <= t[x]
  {
    forall x | x in Elements(q) ensures x in t && t[q[0]] <= t[x] {
      var k :| 0 <= k < |q| && q[k] == x;
      RootEarliest(q, t, |q|, k);
    }
  }

  /** With the last item in place of the one at i, only that place can be wrong. */
  lemma RemoveHole(q: seq<Bytes>, t: map<Bytes, int>, n: nat, i: nat)
    requires Timed(q, t) && |q| == n + 1 && i <= n && Heap(q, t, n + 1)
    ensures Heap(q, t, n) && Timed(Swapped(q, i, n), t)
    ensures i < n ==> HoleBelow(Swapped(q, i, n), t, n, i)
  {
    hide Parent;
    var s := Swapped(q, i, n);
    if i < n {
      ParentBelow(i);
      forall k | 0 < k < n && Parent(k) != i && k != i ensures Right(s, t, k) {
        ParentBelow(k);
        assert Right(q, t, k);
      }
      forall k | i > 0 && 0 < k < n && Parent(k) == i ensures t[s[Parent(i)]] <= t[s[k]] {
        ParentBelow(k);
        assert Right(q, t, k) && Right(q, t, i);
      }
    }
  }

  lemma CutElements(q: seq<Bytes>)
    requires q != [] && forall i, j :: 0 <= i < j < |q| ==> q[i] != q[j]
    ensures Elements(q[..|q| - 1]) == Elements(q) - {q[|q| - 1]} && q[|q| - 1] in Elements(q)
  {
    var n := |q| - 1;
    assert q == q[..n] + [q[n]];
    AppendElement(q[..n], q[n]);
    forall k | 0 <= k < n ensures q[..n][k] != q[n] {
    }
  }

  lemma CutHeap(q: seq<Bytes>, t: map<Bytes, int>, n: nat)
    requires Timed(q, t) && n <= |q| && Heap(q, t, n)
    ensures Timed(q[..n], t) && Heap(q[..n], t, n)
  {
    hide Parent;
    forall i | 0 < i < n ensures Right(q[..n], t, i) {
      ParentBelow(i);
      assert Right(q, t, i);
    }
  }

  lemma {:induction false} DistinctSize(q: seq<Bytes>)
    requires forall i, j :: 0 <= i < j < |q| ==> q[i] != q[j]
    ensures |Elements(q)| == |q|
  {
    if q == [] {
      NoElements();
    } else {
      CutElements(q);
      DistinctSize(q[..|q| - 1]);
    }
  }

  lemma KnownStaysTimed(q: seq<Bytes>, t: map<Bytes, int>, h: Bytes, time: int)
    requires Timed(q, t) && h !in t && Heap(q, t, |q|)
    ensures Timed(q, t[h := time]) && Heap(q, t[h := time], |q|)
  {
    hide Parent;
    var t' := t[h := time];
    forall i | 0 < i < |q| ensures Right(q, t', i) {
      ParentBelow(i);
      assert Right(q, t, i);
    }
  }

  lemma ForgetHeap(q: seq<Bytes>, t: map<Bytes, int>, h: Bytes)
    requires Timed(q, t) && h !in Elements(q) && Heap(q, t, |q|)
    ensures Timed(q, t - {h}) && Heap(q, t - {h}, |q|)
  {
    hide Parent;
    forall i | 0 <= i < |q| ensures q[i] in t - {h} {
      assert q[i] in Elements(q);
    }
    forall i | 0 < i < |q| ensures Right(q, t - {h}, i) {
      ParentBelow(i);
      assert Right(q, t, i);
    }
  }
}
