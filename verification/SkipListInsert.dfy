// Inserting a node into the flat skip list keeps it a skip list.
module SkipListInsert {
  import opened ByteStrings
  import opened SkipList

  /** An insertion: the arrays before, the new entry, its height, its place r and where it hangs in per level. */
  datatype Ins = Ins(
    kv: Bytes, nd: seq<int>, nodes: seq<int>, maxHeight: int,
    key: Bytes, value: Bytes, h: nat, at: seq<nat>, r: nat)
  {
    ghost predicate Ok() {
      && Shape(kv, nd, nodes, maxHeight)
      && 1 <= h <= MAX_HEIGHT && |at| == h
      && Separates(kv, nd, nodes, key, r)
      && (r < |nodes| ==> Key(kv, nd, nodes[r]) != key)
      && (forall j :: 0 <= j < h ==> HangsAt(kv, nd, nodes, key, j, at[j]))
    }

    ghost function Prev(): (p: seq<int>)
      requires Ok()
      ensures |p| == h
    {
      seq(h, j requires 0 <= j < h => nodes[at[j]])
    }

    ghost function Node(): nat { |nd| }

    ghost function Kv(): Bytes { kv + key + value }

    ghost function WithHeader(): seq<int> {
      nd + [|kv|, |key|, |value|, h]
    }

    ghost function Nd(): seq<int>
      requires Ok()
    {
      SlotsFit(this);
      Thread(WithHeader(), Node(), Prev(), 0, h)
    }

    ghost function Nodes(): seq<int>
      requires Ok()
    {
      nodes[..r] + [Node()] + nodes[r..]
    }

    ghost function MaxHeight(): int {
      if h > maxHeight then h else maxHeight
    }
  }

  lemma NodesApart(n: Ins, a: nat, b: nat)
    requires n.Ok() && a < |n.nodes| && b < |n.nodes|
    ensures a == b || Apart(n.nd, n.nodes[a], n.nodes[b])
  {
    if a < b {
      assert Apart(n.nd, n.nodes[a], n.nodes[b]);
    } else if b < a {
      assert Apart(n.nd, n.nodes[b], n.nodes[a]);
    }
  }

  lemma SlotsFit(n: Ins)
    requires n.Ok()
    ensures SlotsIn(n.nd, n.Prev(), 0, n.h) && SlotsIn(n.WithHeader(), n.Prev(), 0, n.h)
    ensures SlotsApart(n.Prev(), 0, n.h)
  {
    forall j, k | 0 <= j < k < n.h ensures n.Prev()[j] + j != n.Prev()[k] + k {
      assert HangsAt(n.kv, n.nd, n.nodes, n.key, j, n.at[j]) && HangsAt(n.kv, n.nd, n.nodes, n.key, k, n.at[k]);
      NodesApart(n, n.at[j], n.at[k]);
    }
    forall j | 0 <= j < n.h
      ensures 0 <= n.Prev()[j] && n.Prev()[j] + NEXT + j < |n.nd|
    {
      assert HangsAt(n.kv, n.nd, n.nodes, n.key, j, n.at[j]);
    }
  }

  /** A position inside an old node is rewritten only if it is the link where the new node hangs in. */
  lemma SlotOwner(n: Ins, i: nat, c: nat)
    requires n.Ok() && i < |n.nodes| && c < NEXT + NodeHeight(n.nd, n.nodes[i])
    requires IsSlot(n.Prev(), 0, n.h, n.nodes[i] + c)
    ensures c >= NEXT && c - NEXT < n.h && n.at[c - NEXT] == i
  {
    var j :| 0 <= j < n.h && n.nodes[i] + c == n.Prev()[j] + NEXT + j;
    assert HangsAt(n.kv, n.nd, n.nodes, n.key, j, n.at[j]);
    NodesApart(n, n.at[j], i);
  }

  lemma OldPosition(n: Ins, i: nat, c: nat)
    requires n.Ok() && i < |n.nodes| && c < NEXT + NodeHeight(n.nd, n.nodes[i])
    requires !(c >= NEXT && c - NEXT < n.h && n.at[c - NEXT] == i)
    ensures |n.Nd()| == |n.nd| + NEXT + n.h
    ensures 0 <= n.nodes[i] + c < |n.nd| && n.Nd()[n.nodes[i] + c] == n.nd[n.nodes[i] + c]
  {
    SlotsFit(n);
    var x := n.nodes[i] + c;
    if IsSlot(n.Prev(), 0, n.h, x) {
      SlotOwner(n, i, c);
    }
    ThreadFrame(n.WithHeader(), n.Node(), n.Prev(), 0, n.h, x);
  }

  /** Old nodes keep their place, height, key and value. */
  lemma OldNode(n: Ins, i: nat)
    requires n.Ok() && i < |n.nodes|
    ensures NodeOk(n.Kv(), n.Nd(), n.nodes[i])
    ensures NodeHeight(n.Nd(), n.nodes[i]) == NodeHeight(n.nd, n.nodes[i])
    ensures Key(n.Kv(), n.Nd(), n.nodes[i]) == Key(n.kv, n.nd, n.nodes[i])
    ensures Val(n.Kv(), n.Nd(), n.nodes[i]) == Val(n.kv, n.nd, n.nodes[i])
  {
    hide Shape, Separates, HangsAt, Thread;
    OldOk(n, i);
    OldHeader(n, i);
  }

  lemma OldOk(n: Ins, i: nat)
    requires n.Ok() && i < |n.nodes|
    ensures NodeOk(n.kv, n.nd, n.nodes[i])
  {
  }

  lemma OldHeader(n: Ins, i: nat)
    requires n.Ok() && i < |n.nodes|
    ensures |n.Nd()| == |n.nd| + NEXT + n.h && 0 <= n.nodes[i] && n.nodes[i] + NEXT <= |n.nd|
    ensures n.Nd()[n.nodes[i]] == n.nd[n.nodes[i]]
    ensures n.Nd()[n.nodes[i] + KEY_LEN] == n.nd[n.nodes[i] + KEY_LEN]
    ensures n.Nd()[n.nodes[i] + VAL_LEN] == n.nd[n.nodes[i] + VAL_LEN]
    ensures n.Nd()[n.nodes[i] + HEIGHT] == n.nd[n.nodes[i] + HEIGHT]
  {
    hide Separates, HangsAt, Thread, KeysSorted, LinksOk;
    OldOk(n, i);
    OldPosition(n, i, 0);
    OldPosition(n, i, KEY_LEN);
    OldPosition(n, i, VAL_LEN);
    OldPosition(n, i, HEIGHT);
  }

  lemma NewPosition(n: Ins, c: nat)
    requires n.Ok() && c < NEXT
    ensures |n.Nd()| == |n.nd| + NEXT + n.h
    ensures n.Nd()[n.Node() + c] == n.WithHeader()[n.Node() + c]
  {
    hide Shape, Separates, HangsAt, Thread, Ins.Prev;
    SlotsFit(n);
    var x := n.Node() + c;
    assert !IsSlot(n.Prev(), 0, n.h, x);
    ThreadFrame(n.WithHeader(), n.Node(), n.Prev(), 0, n.h, x);
  }

  lemma NewNode(n: Ins)
    requires n.Ok()
    ensures NodeOk(n.Kv(), n.Nd(), n.Node())
    ensures NodeHeight(n.Nd(), n.Node()) == n.h
    ensures Key(n.Kv(), n.Nd(), n.Node()) == n.key
    ensures Val(n.Kv(), n.Nd(), n.Node()) == n.value
  {
    hide Shape, Separates, HangsAt, Thread, Ins.Nd;
    NewPosition(n, 0);
    NewPosition(n, KEY_LEN);
    NewPosition(n, VAL_LEN);
    NewPosition(n, HEIGHT);
  }

  lemma NodesAt(n: Ins, i: nat)
    requires n.Ok() && i <= |n.nodes|
    ensures |n.Nodes()| == |n.nodes| + 1
    ensures n.Nodes()[i] == if i < n.r then n.nodes[i] else if i == n.r then n.Node() else n.nodes[i - 1]
  {
  }

  /** Every node of the new list is an old one or the new one. */
  lemma AnyHeight(n: Ins, i: nat)
    requires n.Ok() && i <= |n.nodes|
    ensures |n.Nodes()| == |n.nodes| + 1
    ensures NodeOk(n.Kv(), n.Nd(), n.Nodes()[i])
    ensures NodeHeight(n.Nd(), n.Nodes()[i]) ==
      if i < n.r then NodeHeight(n.nd, n.nodes[i]) else if i == n.r then n.h else NodeHeight(n.nd, n.nodes[i - 1])
  {
    hide Shape, Separates, HangsAt, Thread, NodeHeight, NodeOk, Ins.Nd, Ins.Nodes;
    Split(n);
    NodesAt(n, i);
    NewNode(n);
    if i < n.r { OldNode(n, i); }
    if i > n.r { OldNode(n, i - 1); }
  }

  lemma AnyEntry(n: Ins, i: nat)
    requires n.Ok() && i <= |n.nodes|
    ensures |n.Nodes()| == |n.nodes| + 1 && NodeOk(n.Kv(), n.Nd(), n.Nodes()[i])
    ensures Key(n.Kv(), n.Nd(), n.Nodes()[i]) ==
      if i < n.r then Key(n.kv, n.nd, n.nodes[i]) else if i == n.r then n.key else Key(n.kv, n.nd, n.nodes[i - 1])
    ensures Val(n.Kv(), n.Nd(), n.Nodes()[i]) ==
      if i < n.r then Val(n.kv, n.nd, n.nodes[i]) else if i == n.r then n.value else Val(n.kv, n.nd, n.nodes[i - 1])
  {
    hide Separates, HangsAt, Thread, NodeHeight, Key, Val, Ins.Nd, Ins.Nodes, KeysSorted, LinksOk;
    Split(n);
    NodesAt(n, i);
    NewNode(n);
    if i < n.r { OldNode(n, i); }
    if i > n.r { OldNode(n, i - 1); }
  }

  lemma PlacedAfter(n: Ins)
    requires n.Ok()
    ensures Placed(n.Kv(), n.Nd(), n.Nodes(), n.MaxHeight())
  {
    hide HangsAt, Thread, NodeHeight, NodeOk, Ins.Nd, Ins.Nodes, KeysSorted, LinksOk, Apart;
    var nodes' := n.Nodes();
    NodesAt(n, 0);
    AnyHeight(n, 0);
    forall i | 0 <= i < |nodes'| ensures NodeOk(n.Kv(), n.Nd(), nodes'[i]) {
      AnyHeight(n, i);
    }
    forall i | 1 <= i < |nodes'| ensures NodeHeight(n.Nd(), nodes'[i]) <= n.MaxHeight() {
      AnyHeight(n, i);
    }
    forall i, j | 0 <= i < j < |nodes'| ensures Apart(n.Nd(), nodes'[i], nodes'[j]) {
      ApartAfter(n, i, j);
    }
  }

  lemma ApartAfter(n: Ins, i: nat, j: nat)
    requires n.Ok() && i < j <= |n.nodes|
    ensures |n.Nodes()| == |n.nodes| + 1 && Apart(n.Nd(), n.Nodes()[i], n.Nodes()[j])
  {
    hide HangsAt, Thread, Ins.Nd, Ins.Nodes, KeysSorted, LinksOk, Separates;
    Split(n);
    AnyHeight(n, i);
    AnyHeight(n, j);
    NodesAt(n, i);
    NodesAt(n, j);
    if i != n.r && j != n.r {
      var a, b := if i < n.r then i else i - 1, if j < n.r then j else j - 1;
      assert Apart(n.nd, n.nodes[a], n.nodes[b]);
    } else {
      var o := if i == n.r then (if j < n.r then j else j - 1) else (if i < n.r then i else i - 1);
      assert NodeOk(n.kv, n.nd, n.nodes[o]);
    }
  }

  lemma PairSorted(n: Ins, i: nat, j: nat)
    requires n.Ok() && 1 <= i < j <= |n.nodes|
    ensures |n.Nodes()| == |n.nodes| + 1
    ensures NodeOk(n.Kv(), n.Nd(), n.Nodes()[i]) && NodeOk(n.Kv(), n.Nd(), n.Nodes()[j])
    ensures Less(Key(n.Kv(), n.Nd(), n.Nodes()[i]), Key(n.Kv(), n.Nd(), n.Nodes()[j]))
  {
    hide HangsAt, Thread, Ins.Nd, Ins.Nodes, Shape, Separates, Key, NodeHeight, Less, NodeOk;
    Split(n);
    AnyEntry(n, i);
    AnyEntry(n, j);
    if i == n.r {
      NewBelow(n, j - 1);
    } else if j == n.r {
      OldBelow(n, i);
    } else {
      OldSorted(n, if i < n.r then i else i - 1, if j < n.r then j else j - 1);
    }
  }

  lemma OldBelow(n: Ins, i: nat)
    requires n.Ok() && 1 <= i < n.r
    ensures i < |n.nodes| && Less(Key(n.kv, n.nd, n.nodes[i]), n.key)
  {
  }

  lemma OldSorted(n: Ins, i: nat, j: nat)
    requires n.Ok() && 1 <= i < j < |n.nodes|
    ensures Less(Key(n.kv, n.nd, n.nodes[i]), Key(n.kv, n.nd, n.nodes[j]))
  {
  }

  lemma SortedAfter(n: Ins)
    requires n.Ok()
    requires forall i :: 0 <= i < |n.Nodes()| ==> NodeOk(n.Kv(), n.Nd(), n.Nodes()[i])
    ensures KeysSorted(n.Kv(), n.Nd(), n.Nodes())
  {
    hide HangsAt, Thread, Ins.Nd, Ins.Nodes, Shape, Key, NodeHeight, Less, Separates;
    NodesAt(n, 0);
    forall i, j | 1 <= i < j < |n.Nodes()|
      ensures Less(Key(n.Kv(), n.Nd(), n.Nodes()[i]), Key(n.Kv(), n.Nd(), n.Nodes()[j]))
    {
      PairSorted(n, i, j);
    }
  }

  lemma NewBelow(n: Ins, j: nat)
    requires n.Ok() && n.r <= j < |n.nodes|
    ensures Less(n.key, Key(n.kv, n.nd, n.nodes[j]))
  {
    var k := Key(n.kv, n.nd, n.nodes[n.r]);
    LessTotal(n.key, k);
    if j > n.r { LessTransitive(n.key, k, Key(n.kv, n.nd, n.nodes[j])); }
  }

  // ------------------------------------------------------- links

  lemma {:induction false} SuccUnique(nd: seq<int>, nodes: seq<int>, q: nat, g: int, r: nat)
    requires q <= r <= |nodes|
    requires r < |nodes| ==> NodeHeight(nd, nodes[r]) > g
    requires forall i :: q <= i < r ==> NodeHeight(nd, nodes[i]) <= g
    ensures Succ(nd, nodes, q, g) == r
  {
    hide NodeHeight;
    var s := Succ(nd, nodes, q, g);
  }

  lemma SuccBefore(n: Ins, q: nat, g: nat)
    requires n.Ok() && q <= n.r
    ensures |n.Nodes()| == |n.nodes| + 1
    ensures var s := Succ(n.nd, n.nodes, q, g);
      Succ(n.Nd(), n.Nodes(), q, g) == if s < n.r then s else if g < n.h then n.r else s + 1
  {
    hide HangsAt, Thread, Ins.Nd, Ins.Nodes, NodeHeight, Shape;
    var s := Succ(n.nd, n.nodes, q, g);
    var s' := if s < n.r then s else if g < n.h then n.r else s + 1;
    NodesAt(n, 0);
    forall i | q <= i < s' ensures NodeHeight(n.Nd(), n.Nodes()[i]) <= g {
      AnyHeight(n, i);
    }
    if s' < |n.Nodes()| { AnyHeight(n, s'); }
    SuccUnique(n.Nd(), n.Nodes(), q, g, s');
  }

  lemma SuccAfter(n: Ins, q: nat, g: nat)
    requires n.Ok() && n.r <= q <= |n.nodes|
    ensures |n.Nodes()| == |n.nodes| + 1
    ensures Succ(n.Nd(), n.Nodes(), q + 1, g) == Succ(n.nd, n.nodes, q, g) + 1
  {
    hide HangsAt, Thread, Ins.Nd, Ins.Nodes, NodeHeight, Shape, Separates;
    var s := Succ(n.nd, n.nodes, q, g);
    NodesAt(n, 0);
    forall i | q + 1 <= i < s + 1 ensures NodeHeight(n.Nd(), n.Nodes()[i]) <= g {
      AnyHeight(n, i);
    }
    if s + 1 < |n.Nodes()| { AnyHeight(n, s + 1); }
    SuccUnique(n.Nd(), n.Nodes(), q + 1, g, s + 1);
  }

  /** The hanging point of a level is the only tall enough node before the split with none behind it. */
  lemma HangingPoint(n: Ins, p: nat, g: nat)
    requires n.Ok() && p < n.r && g < n.h && g < NodeHeight(n.nd, n.nodes[p])
    ensures Succ(n.nd, n.nodes, p + 1, g) >= n.r <==> n.at[g] == p
    ensures n.at[g] < n.r
  {
    var q := n.at[g];
    assert HangsAt(n.kv, n.nd, n.nodes, n.key, g, q);
    HangsBeforeSplit(n.kv, n.nd, n.nodes, n.key, g, q, n.r);
  }

  /** What the arrays said about a link before. */
  lemma OldLink(n: Ins, p: nat, g: nat)
    requires n.Ok() && p < |n.nodes| && g < NodeHeight(n.nd, n.nodes[p])
    ensures LinkOk(n.nd, n.nodes, p, g)
  {
  }

  lemma Split(n: Ins)
    requires n.Ok()
    ensures 1 <= n.r <= |n.nodes|
  {
  }

  /** A link that leads past the split at a level the new node reaches now leads to it. */
  lemma RedirectedLink(n: Ins, p: nat, g: nat)
    requires n.Ok() && p < n.r && g < NodeHeight(n.nd, n.nodes[p]) && g < n.h
    requires Succ(n.nd, n.nodes, p + 1, g) >= n.r
    ensures |n.Nd()| == |n.nd| + NEXT + n.h && 0 <= n.nodes[p] && n.nodes[p] + NEXT + g < |n.nd|
    ensures n.Nd()[n.nodes[p] + NEXT + g] == n.Node()
  {
    hide Thread, NodeHeight, Shape, Separates, HangsAt, LinkTo;
    OldLink(n, p, g);
    HangingPoint(n, p, g);
    HangsLow(n, g);
    SlotsFit(n);
    ThreadSlot(n.WithHeader(), n.Node(), n.Prev(), 0, n.h, g);
  }

  lemma LinkBefore(n: Ins, p: nat, g: nat)
    requires n.Ok() && p < n.r && g < NodeHeight(n.nd, n.nodes[p])
    ensures |n.Nodes()| == |n.nodes| + 1 && LinkOk(n.Nd(), n.Nodes(), p, g)
  {
    hide HangsAt, Thread, Ins.Nd, Ins.Nodes, NodeHeight, Shape, Separates;
    Split(n);
    NodesAt(n, p);
    SuccBefore(n, p + 1, g);
    var s := Succ(n.nd, n.nodes, p + 1, g);
    OldLink(n, p, g);
    if s >= n.r && g < n.h {
      RedirectedLink(n, p, g);
      NodesAt(n, n.r);
    } else {
      if g < n.h { HangingPoint(n, p, g); }
      OldPosition(n, p, NEXT + g);
      if s < n.r { NodesAt(n, s); } else if s < |n.nodes| { NodesAt(n, s + 1); }
    }
  }

  lemma LinkAfter(n: Ins, p: nat, g: nat)
    requires n.Ok() && n.r <= p < |n.nodes| && g < NodeHeight(n.nd, n.nodes[p])
    ensures |n.Nodes()| == |n.nodes| + 1 && LinkOk(n.Nd(), n.Nodes(), p + 1, g)
  {
    hide Thread, Ins.Nd, Ins.Nodes, NodeHeight, Shape, Separates, HangsAt;
    Split(n);
    NodesAt(n, p + 1);
    SuccAfter(n, p + 1, g);
    OldLink(n, p, g);
    if g < n.h { HangsLow(n, g); }
    OldPosition(n, p, NEXT + g);
    var s := Succ(n.nd, n.nodes, p + 1, g);
    if s < |n.nodes| { NodesAt(n, s + 1); }
  }

  lemma HangsLow(n: Ins, g: nat)
    requires n.Ok() && g < n.h
    ensures n.at[g] < n.r <= |n.nodes| && g < NodeHeight(n.nd, n.nodes[n.at[g]])
    ensures Succ(n.nd, n.nodes, n.at[g] + 1, g) >= n.r
    ensures n.Prev()[g] == n.nodes[n.at[g]]
  {
    var q := n.at[g];
    assert HangsAt(n.kv, n.nd, n.nodes, n.key, g, q);
    HangsBeforeSplit(n.kv, n.nd, n.nodes, n.key, g, q, n.r);
  }

  lemma LinkNew(n: Ins, g: nat)
    requires n.Ok() && g < n.h
    ensures |n.Nodes()| == |n.nodes| + 1 && LinkOk(n.Nd(), n.Nodes(), n.r, g)
  {
    hide Thread, Ins.Nodes, NodeHeight, Shape, Separates, HangsAt;
    Split(n);
    NodesAt(n, n.r);
    SuccAfter(n, n.r, g);
    SlotsFit(n);
    ThreadNew(n.WithHeader(), n.Node(), n.Prev(), 0, n.h, g);
    HangsLow(n, g);
    var q := n.at[g];
    OldLink(n, q, g);
    var s := Succ(n.nd, n.nodes, q + 1, g);
    SuccUnique(n.nd, n.nodes, n.r, g, s);
    if s < |n.nodes| { NodesAt(n, s + 1); }
  }

  lemma LinksAfter(n: Ins)
    requires n.Ok()
    requires forall i :: 0 <= i < |n.Nodes()| ==> NodeOk(n.Kv(), n.Nd(), n.Nodes()[i])
    ensures LinksOk(n.Kv(), n.Nd(), n.Nodes())
  {
    hide Thread, Ins.Nodes, Ins.Nd, NodeHeight, Shape, Separates, HangsAt, LinkOk;
    NodesAt(n, 0);
    forall p: nat, g: nat | p < |n.Nodes()| && g < NodeHeight(n.Nd(), n.Nodes()[p])
      ensures LinkOk(n.Nd(), n.Nodes(), p, g)
    {
      AnyHeight(n, p);
      if p < n.r { LinkBefore(n, p, g); } else if p == n.r { LinkNew(n, g); } else { LinkAfter(n, p - 1, g); }
    }
  }

  /** The new arrays form a skip list again and stand for the map with the entry added. */
  lemma InsertKeepsShape(n: Ins, m: map<Bytes, Bytes>)
    requires n.Ok() && Represents(n.kv, n.nd, n.nodes, m)
    ensures Shape(n.Kv(), n.Nd(), n.Nodes(), n.MaxHeight())
    ensures Represents(n.Kv(), n.Nd(), n.Nodes(), m[n.key := n.value])
    ensures |n.Nodes()| == |n.nodes| + 1 && n.key !in m
  {
    hide Thread, Ins.Nodes, Ins.Nd, NodeHeight, Separates, HangsAt, LinksOk, KeysSorted, Represents;
    PlacedAfter(n);
    SortedAfter(n);
    LinksAfter(n);
    NodesAt(n, 0);
    KeyIsNew(n, m);
    RepresentsAfter(n, m);
  }

  lemma KeyIsNew(n: Ins, m: map<Bytes, Bytes>)
    requires n.Ok() && Represents(n.kv, n.nd, n.nodes, m)
    ensures n.key !in m
    ensures forall i :: 1 <= i < |n.nodes| ==> Key(n.kv, n.nd, n.nodes[i]) != n.key
  {
    LessIrreflexive(n.key);
    forall i | 1 <= i < |n.nodes| ensures Key(n.kv, n.nd, n.nodes[i]) != n.key {
      if i >= n.r { NewBelow(n, i); }
    }
  }

  lemma EntriesAfter(n: Ins, m: map<Bytes, Bytes>, i: nat)
    requires n.Ok() && Represents(n.kv, n.nd, n.nodes, m) && 1 <= i <= |n.nodes|
    requires forall j :: 1 <= j < |n.nodes| ==> Key(n.kv, n.nd, n.nodes[j]) != n.key
    ensures |n.Nodes()| == |n.nodes| + 1 && NodeOk(n.Kv(), n.Nd(), n.Nodes()[i])
    ensures Key(n.Kv(), n.Nd(), n.Nodes()[i]) in m[n.key := n.value]
    ensures m[n.key := n.value][Key(n.Kv(), n.Nd(), n.Nodes()[i])] == Val(n.Kv(), n.Nd(), n.Nodes()[i])
  {
    hide Thread, Ins.Nodes, Ins.Nd, NodeHeight, Key, Val, HangsAt, LinksOk, KeysSorted, Separates;
    Split(n);
    AnyEntry(n, i);
  }

  lemma OldEntry(n: Ins, m: map<Bytes, Bytes>, k: Bytes) returns (j: nat)
    requires n.Ok() && Represents(n.kv, n.nd, n.nodes, m) && k in m
    ensures 1 <= j < |n.nodes| && Key(n.kv, n.nd, n.nodes[j]) == k
  {
    j :| 1 <= j < |n.nodes| && Key(n.kv, n.nd, n.nodes[j]) == k;
  }

  lemma KeyHasEntry(n: Ins, m: map<Bytes, Bytes>, k: Bytes) returns (i: nat)
    requires n.Ok() && Represents(n.kv, n.nd, n.nodes, m) && k in m[n.key := n.value]
    ensures 1 <= i <= |n.nodes| && |n.Nodes()| == |n.nodes| + 1 && NodeOk(n.Kv(), n.Nd(), n.Nodes()[i])
    ensures Key(n.Kv(), n.Nd(), n.Nodes()[i]) == k
  {
    hide Represents, Thread, Ins.Nodes, Ins.Nd, NodeHeight, Key, Val, HangsAt, LinksOk, KeysSorted, Separates;
    Split(n);
    i := n.r;
    if k != n.key {
      var j := OldEntry(n, m, k);
      i := if j < n.r then j else j + 1;
    }
    AnyEntry(n, i);
  }

  lemma RepresentsAfter(n: Ins, m: map<Bytes, Bytes>)
    requires n.Ok() && Represents(n.kv, n.nd, n.nodes, m)
    requires forall i :: 0 <= i < |n.Nodes()| ==> NodeOk(n.Kv(), n.Nd(), n.Nodes()[i])
    requires forall i :: 1 <= i < |n.nodes| ==> Key(n.kv, n.nd, n.nodes[i]) != n.key
    ensures Represents(n.Kv(), n.Nd(), n.Nodes(), m[n.key := n.value])
  {
    hide Thread, Ins.Nodes, Ins.Nd, NodeHeight, Key, Val, HangsAt, LinksOk, KeysSorted, Separates, Shape;
    NodesAt(n, 0);
    var m' := m[n.key := n.value];
    forall i | 1 <= i < |n.Nodes()|
      ensures Key(n.Kv(), n.Nd(), n.Nodes()[i]) in m' &&
        m'[Key(n.Kv(), n.Nd(), n.Nodes()[i])] == Val(n.Kv(), n.Nd(), n.Nodes()[i])
    {
      EntriesAfter(n, m, i);
    }
    forall k | k in m' ensures exists i :: 1 <= i < |n.Nodes()| && Key(n.Kv(), n.Nd(), n.Nodes()[i]) == k {
      var i := KeyHasEntry(n, m, k);
    }
  }
}
