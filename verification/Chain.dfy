// Blocks and the tree they form. A block hash covers the view, the height, the
// parent hash, the view and block of the carried certificate and the rest of
// the header; with a collision-free hash a block is therefore the same thing as
// the finite tree of what its hash covers.
module Chain {
  /** `payload` stands for the header fields the commit rule never looks at. */
  datatype Block =
    | Genesis
    | Block(parent: Block, height: nat, view: nat, qcRef: Block, qcView: nat, payload: nat)

  function Height(b: Block): nat {
    if b.Genesis? then 0 else b.height
  }

  function View(b: Block): nat {
    if b.Genesis? then 0 else b.view
  }

  /** `a` is `b` or one of its ancestors. */
  predicate Extends(b: Block, a: Block) {
    b == a || (b.Block? && Extends(b.parent, a))
  }

  predicate OnOneChain(a: Block, b: Block) {
    Extends(a, b) || Extends(b, a)
  }

  /** The block's parent is the block its certificate is for, one height below. */
  predicate WellLinked(b: Block) {
    b.Block? ==> b.parent == b.qcRef && b.height == Height(b.parent) + 1
  }

  predicate ChainLinked(b: Block) {
    b.Block? ==> WellLinked(b) && ChainLinked(b.parent)
  }

  /** The chain from just above genesis up to `b`. */
  function Path(b: Block): seq<Block> {
    if b.Genesis? then [] else Path(b.parent) + [b]
  }

  lemma {:induction false} ExtendsHeight(b: Block, a: Block)
    requires ChainLinked(b) && Extends(b, a)
    ensures ChainLinked(a)
    ensures Height(a) <= Height(b)
    ensures Height(a) == Height(b) ==> a == b
  {
    if b != a {
      ExtendsHeight(b.parent, a);
    }
  }

  lemma {:induction false} ExtendsPath(b: Block, a: Block)
    requires Extends(b, a)
    ensures Path(a) <= Path(b)
  {
    if b != a {
      ExtendsPath(b.parent, a);
    }
  }

  lemma {:induction false} ExtendsGenesis(b: Block)
    ensures Extends(b, Genesis)
  {
    if b.Block? {
      ExtendsGenesis(b.parent);
    }
  }

  /** On a linked chain the k-th block of the path has height k + 1. */
  lemma {:induction false} PathHeights(b: Block)
    requires ChainLinked(b)
    ensures |Path(b)| == Height(b)
    ensures forall k :: 0 <= k < |Path(b)| ==> Height(Path(b)[k]) == k + 1
  {
    if b.Block? {
      PathHeights(b.parent);
    }
  }

  /** Two ancestors of one block are on one chain. */
  lemma {:induction false} AncestorsOnOneChain(c: Block, a: Block, b: Block)
    requires Extends(c, a) && Extends(c, b)
    ensures OnOneChain(a, b)
  {
    if c != a && c != b {
      AncestorsOnOneChain(c.parent, a, b);
    }
  }
}
