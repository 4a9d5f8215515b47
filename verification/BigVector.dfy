/** One side of the book as the cursor sees it: a linked list of leaves, each a sorted run of orders. */
module BigVector {
  import opened MoveTypes

  datatype Order = Order(id: u128, quantity: u64, expireTimestamp: u64)

  /** A slice reference with an offset into that slice; `Null` is the `NO_SLICE` sentinel. */
  datatype Cursor = Null | At(leaf: nat, offset: nat)

  function Flat(leaves: seq<seq<Order>>): seq<Order> {
    if leaves == [] then [] else leaves[0] + Flat(leaves[1..])
  }

  predicate Ascending(s: seq<Order>) { forall i, j :: 0 <= i < j < |s| ==> s[i].id < s[j].id }

  /** An interior node: partition keys between its children, which end at leaves, named by their position. */
  datatype Node = LeafRef(leaf: nat) | Branch(keys: seq<u128>, children: seq<Node>)

  /** The key separates the leaves `lo..mid`, below it, from the leaves `mid..hi`, at or above it. */
  ghost predicate Separates(leaves: seq<seq<Order>>, lo: nat, mid: nat, hi: nat, key: u128) {
    && (forall l, i :: lo <= l < mid && l < |leaves| && 0 <= i < |leaves[l]| ==> leaves[l][i].id < key)
    && (forall l, i :: mid <= l < hi && l < |leaves| && 0 <= i < |leaves[l]| ==> key <= leaves[l][i].id)
  }

  /** The node, `depth` levels above the leaves, reaches the leaves `lo..hi` and sorts them by its keys. */
  ghost predicate Indexes(leaves: seq<seq<Order>>, node: Node, depth: nat, lo: nat, hi: nat)
    decreases depth, 1
  {
    lo < hi <= |leaves| &&
    match node
    case LeafRef(leaf) => depth == 0 && leaf == lo && hi == lo + 1
    case Branch(keys, children) =>
      depth > 0 && exists cuts: seq<nat> :: Partitions(leaves, keys, children, depth, lo, hi, cuts)
  }

  /** `cuts` says where the leaves of one child end and those of the next begin. */
  ghost predicate Partitions(
    leaves: seq<seq<Order>>, keys: seq<u128>, children: seq<Node>, depth: nat, lo: nat, hi: nat, cuts: seq<nat>)
    requires depth > 0
    decreases depth, 0
  {
    && |children| == |keys| + 1 && |cuts| == |children| + 1 && cuts[0] == lo && cuts[|children|] == hi
    && (forall i, j :: 0 <= i < j < |keys| ==> keys[i] < keys[j])
    && (forall j :: 0 <= j < |children| ==> Indexes(leaves, children[j], depth - 1, cuts[j], cuts[j + 1]))
    && (forall j :: 0 <= j < |keys| ==> Separates(leaves, lo, cuts[j + 1], hi, keys[j]))
  }

  /** The leaves as they are linked, and the tree above them; the tree of an empty side is not looked at. */
  datatype Side = Side(leaves: seq<seq<Order>>, root: Node, depth: nat) {
    /** The linked leaves: none is empty, and together they are sorted. */
    ghost predicate Linked() {
      && (forall l :: 0 <= l < |leaves| ==> leaves[l] != [])
      && Ascending(Flat(leaves))
    }

    ghost predicate Valid() { Linked() && (leaves != [] ==> Indexes(leaves, root, depth, 0, |leaves|)) }

    function Orders(): seq<Order> { Flat(leaves) }

    ghost predicate Points(c: Cursor) { c.At? && c.leaf < |leaves| && c.offset < |leaves[c.leaf]| }

    /** How many orders lie before the cursor. */
    ghost function Rank(c: Cursor): nat
      requires Points(c)
    {
      |Flat(leaves[..c.leaf])| + c.offset
    }

    function NextSlice(c: Cursor): Cursor
      requires Points(c)
    {
      if c.offset + 1 < |leaves[c.leaf]| then At(c.leaf, c.offset + 1)
      else if c.leaf + 1 < |leaves| then At(c.leaf + 1, 0)
      else Null
    }

    function PrevSlice(c: Cursor): Cursor
      requires Linked() && Points(c)
    {
      if c.offset > 0 then At(c.leaf, c.offset - 1)
      else if c.leaf > 0 then At(c.leaf - 1, |leaves[c.leaf - 1]| - 1)
      else Null
    }

    function Get(c: Cursor): Order
      requires Points(c)
    {
      leaves[c.leaf][c.offset]
    }

    lemma CursorReadsRank(c: Cursor)
      requires Points(c)
      ensures Rank(c) < |Orders()| && Orders()[Rank(c)] == Get(c)
    {
      FlatSplits(leaves, c.leaf);
    }

    /** Stepping across leaves is stepping by one order. */
    lemma NextSliceSteps(c: Cursor)
      requires Linked() && Points(c)
      ensures NextSlice(c) == Null <==> Rank(c) + 1 == |Orders()|
      ensures NextSlice(c) != Null ==> Points(NextSlice(c)) && Rank(NextSlice(c)) == Rank(c) + 1
    {
      FlatSplits(leaves, c.leaf);
      if c.leaf + 1 < |leaves| {
        FlatSplits(leaves, c.leaf + 1);
        FlatTake(leaves, c.leaf);
      } else {
        assert leaves[c.leaf + 1..] == [];
      }
    }

    lemma PrevSliceSteps(c: Cursor)
      requires Linked() && Points(c)
      ensures PrevSlice(c) == Null <==> Rank(c) == 0
      ensures PrevSlice(c) != Null ==> Points(PrevSlice(c)) && Rank(PrevSlice(c)) == Rank(c) - 1
    {
      if c.leaf > 0 { FlatTake(leaves, c.leaf - 1); }
    }

    /** Where a descent by partition keys ends: earlier leaves lie below the key, later ones above it. */
    ghost predicate LeafFor(key: u128, l: nat) { l < |leaves| && OnlyIn(key, l, l + 1) }

    /** The leaves before `lo` lie below the key and those from `hi` on above it. */
    ghost predicate OnlyIn(key: u128, lo: nat, hi: nat) {
      && (forall k, i :: 0 <= k < lo && k < |leaves| && 0 <= i < |leaves[k]| ==> leaves[k][i].id < key)
      && (forall k, i :: hi <= k < |leaves| && 0 <= i < |leaves[k]| ==> key < leaves[k][i].id)
    }

    lemma ChildNarrows(
      key: u128, keys: seq<u128>, children: seq<Node>, level: nat, lo: nat, hi: nat, cuts: seq<nat>, child: nat)
      requires level > 0 && Partitions(leaves, keys, children, level, lo, hi, cuts) && OnlyIn(key, lo, hi)
      requires child < |children| && hi <= |leaves|
      requires forall i :: 0 <= i < child ==> keys[i] <= key
      requires forall i :: child <= i < |keys| ==> key < keys[i]
      ensures OnlyIn(key, cuts[child], cuts[child + 1])
    {
      if child > 0 { assert Separates(leaves, lo, cuts[child], hi, keys[child - 1]); }
      if child < |keys| { assert Separates(leaves, lo, cuts[child + 1], hi, keys[child]); }
    }

    /** Binary search among partition keys for the child to descend to. */
    static method BisectRight(keys: seq<u128>, key: u128) returns (lo: nat)
      requires forall i, j :: 0 <= i < j < |keys| ==> keys[i] < keys[j]
      ensures lo <= |keys|
      ensures forall i :: 0 <= i < lo ==> keys[i] <= key
      ensures forall i :: lo <= i < |keys| ==> key < keys[i]
    {
      lo := 0;
      var hi := |keys|;
      while lo < hi
        invariant lo <= hi <= |keys|
        invariant forall i :: 0 <= i < lo ==> keys[i] <= key
        invariant forall i :: hi <= i < |keys| ==> key < keys[i]
      {
        var mid := (hi - lo) / 2 + lo;
        if key < keys[mid] {
          hi := mid;
        } else {
          lo := mid + 1;
        }
      }
    }

    /** Level by level from the root to the one leaf that may hold the key. */
    method Descend(key: u128) returns (leaf: nat)
      requires Valid() && leaves != []
      ensures LeafFor(key, leaf)
    {
      var node, level := root, depth;
      ghost var from: nat, upto: nat := 0, |leaves|;
      while level > 0
        invariant Indexes(leaves, node, level, from, upto) && OnlyIn(key, from, upto)
      {
        ghost var cuts: seq<nat> :| Partitions(leaves, node.keys, node.children, level, from, upto, cuts);
        var child := BisectRight(node.keys, key);
        ChildNarrows(key, node.keys, node.children, level, from, upto, cuts, child);
        assert Indexes(leaves, node.children[child], level - 1, cuts[child], cuts[child + 1]);
        from, upto := cuts[child], cuts[child + 1];
        node, level := node.children[child], level - 1;
      }
      leaf := node.leaf;
    }

    /** Binary search within a leaf for the first order at or after the key. */
    static method BisectLeft(leaf: seq<Order>, key: u128) returns (lo: nat)
      requires Ascending(leaf)
      ensures lo <= |leaf|
      ensures forall i :: 0 <= i < lo ==> leaf[i].id < key
      ensures forall i :: lo <= i < |leaf| ==> key <= leaf[i].id
    {
      lo := 0;
      var hi := |leaf|;
      while lo < hi
        invariant lo <= hi <= |leaf|
        invariant forall i :: 0 <= i < lo ==> leaf[i].id < key
        invariant forall i :: hi <= i < |leaf| ==> key <= leaf[i].id
      {
        var mid := (hi - lo) / 2 + lo;
        if key <= leaf[mid].id {
          hi := mid;
        } else {
          lo := mid + 1;
        }
      }
    }

    ghost predicate Straddles(key: u128, rank: int) {
      && -1 <= rank < |Orders()|
      && (forall k :: 0 <= k <= rank ==> Orders()[k].id < key)
      && (forall k :: rank < k < |Orders()| ==> key <= Orders()[k].id)
    }

    method FindLeaf(key: u128) returns (leaf: nat, offset: nat)
      requires Valid() && leaves != []
      ensures leaf < |leaves| && offset <= |leaves[leaf]|
      ensures Straddles(key, |Flat(leaves[..leaf])| + offset - 1)
    {
      leaf := Descend(key);
      forall i, j | 0 <= i < j < |leaves[leaf]| ensures leaves[leaf][i].id < leaves[leaf][j].id {
        CursorReadsRank(At(leaf, i));
        CursorReadsRank(At(leaf, j));
      }
      offset := BisectLeft(leaves[leaf], key);
      LeafStraddles(key, leaf, offset);
    }

    lemma LeafStraddles(key: u128, leaf: nat, offset: nat)
      requires Linked() && LeafFor(key, leaf) && offset <= |leaves[leaf]|
      requires forall i :: 0 <= i < offset ==> leaves[leaf][i].id < key
      requires forall i :: offset <= i < |leaves[leaf]| ==> key <= leaves[leaf][i].id
      ensures Straddles(key, |Flat(leaves[..leaf])| + offset - 1)
    {
      FlatSplits(leaves, leaf);
      var split := |Flat(leaves[..leaf])| + offset;
      forall k | 0 <= k < |Orders()| ensures k < split <==> Orders()[k].id < key {
        var c := CursorAt(leaves, k);
        assert Points(c) && Rank(c) == k;
        CursorReadsRank(c);
        if c.leaf < leaf {
          FlatGrows(leaves, c.leaf, leaf);
        } else if leaf < c.leaf {
          FlatGrows(leaves, leaf, c.leaf);
        }
      }
    }

    /** The last order below the key. */
    method SliceBefore(key: u128) returns (c: Cursor)
      requires Valid()
      ensures c == Null ==> Straddles(key, -1)
      ensures c != Null ==> Points(c) && Straddles(key, Rank(c))
    {
      if leaves == [] { return Null; }
      var leaf, offset := FindLeaf(key);
      if offset == 0 {
        if leaf == 0 { return Null; }
        FlatTake(leaves, leaf - 1);
        return At(leaf - 1, |leaves[leaf - 1]| - 1);
      }
      return At(leaf, offset - 1);
    }

    /** The first order at or above the key. */
    method SliceFollowing(key: u128) returns (c: Cursor)
      requires Valid()
      ensures c == Null ==> Straddles(key, |Orders()| - 1)
      ensures c != Null ==> Points(c) && Straddles(key, Rank(c) - 1)
    {
      if leaves == [] { return Null; }
      var leaf, offset := FindLeaf(key);
      FlatSplits(leaves, leaf);
      if offset >= |leaves[leaf]| {
        if leaf + 1 == |leaves| {
          assert leaves[leaf + 1..] == [];
          return Null;
        }
        FlatTake(leaves, leaf);
        return At(leaf + 1, 0);
      }
      return At(leaf, offset);
    }
  }

  lemma {:induction false} FlatConcat(a: seq<seq<Order>>, b: seq<seq<Order>>)
    ensures Flat(a + b) == Flat(a) + Flat(b)
  {
    if a == [] {
      assert a + b == b;
    } else {
      assert (a + b)[1..] == a[1..] + b;
      FlatConcat(a[1..], b);
    }
  }

  lemma FlatSplits(leaves: seq<seq<Order>>, l: nat)
    requires l < |leaves|
    ensures Flat(leaves) == Flat(leaves[..l]) + leaves[l] + Flat(leaves[l + 1..])
  {
    assert leaves == leaves[..l] + leaves[l..];
    FlatConcat(leaves[..l], leaves[l..]);
    assert leaves[l..][1..] == leaves[l + 1..];
  }

  lemma FlatTake(leaves: seq<seq<Order>>, l: nat)
    requires l < |leaves|
    ensures Flat(leaves[..l + 1]) == Flat(leaves[..l]) + leaves[l]
  {
    assert leaves[..l + 1] == leaves[..l] + [leaves[l]];
    FlatConcat(leaves[..l], [leaves[l]]);
    assert Flat([leaves[l]]) == leaves[l] + Flat([]);
  }

  lemma {:induction false} FlatGrows(leaves: seq<seq<Order>>, k: nat, l: nat)
    requires k < l <= |leaves|
    ensures |Flat(leaves[..k])| + |leaves[k]| <= |Flat(leaves[..l])|
  {
    FlatTake(leaves, l - 1);
    if k + 1 < l { FlatGrows(leaves, k, l - 1); }
  }

  /** The cursor with a given rank. */
  ghost function CursorAt(leaves: seq<seq<Order>>, k: nat): (c: Cursor)
    requires k < |Flat(leaves)|
    ensures c.At? && c.leaf < |leaves| && c.offset < |leaves[c.leaf]| && |Flat(leaves[..c.leaf])| + c.offset == k
  {
    if k < |leaves[0]| then At(0, k)
    else
      var c := CursorAt(leaves[1..], k - |leaves[0]|);
      assert leaves[..c.leaf + 1] == [leaves[0]] + leaves[1..][..c.leaf];
      FlatConcat([leaves[0]], leaves[1..][..c.leaf]);
      assert Flat([leaves[0]]) == leaves[0] + Flat([]);
      At(c.leaf + 1, c.offset)
  }
}
