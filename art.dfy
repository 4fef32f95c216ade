/**
 * The adaptive radix tree of src/lib/art/art.c as it runs: the node arena is
 * the state of a Tree object, `insert` walks it with a loop and changes it in
 * place, and every step is proved to do what the state functions of ArtSpec
 * describe. Validity and "found after insert" then follow from the lemmas of
 * ArtValid and ArtFound.
 */
module Art {
  import opened Options
  import opened Bytes
  import opened ArtNode
  import opened ArtSpec
  import ArtValid
  import ArtFound

  /**
   * struct stream: the key and the position `insert` advances once per edge
   * it follows. The key is read at absolute offsets, never through `pos`.
   */
  class KeyStream {
    const data: seq<Byte>
    var pos: nat

    constructor (data: seq<Byte>)
      ensures this.data == data && pos == 0
    {
      this.data := data;
      pos := 0;
    }
  }

  /**
   * find_child: shapes 4 and 16 scan their used keys in order, shape 48 goes
   * through its byte index and shape 256 indexes its slots by the byte.
   */
  method FindChildScan(n: Node, b: Byte) returns (r: Option<nat>)
    requires WfNode(n) && n.flags != Leaf
    ensures r == FindChild(n, b)
  {
    match n.flags
    case Inner48 =>
      if n.key[b] == EMPTY {
        return None;
      }
      return Some(n.key[b]);
    case Inner256 =>
      return Some(b);
    case Inner4 | Inner16 =>
      var i := 0;
      while i < n.keyLen
        invariant i <= n.keyLen && b !in n.key[..i]
      {
        if n.key[i] == b {
          assert b in n.key[..n.keyLen];
          return Some(i);
        }
        assert n.key[..i + 1] == n.key[..i] + [n.key[i]];
        i := i + 1;
      }
      return None;
  }

  /**
   * check_prefix: when the first min(prefix_len, size - depth) bytes of the
   * prefix equal the key's bytes from `depth` on (the memcmp), that bound;
   * otherwise the count of leading bytes that agree.
   */
  method CheckPrefix(n: Node, data: seq<Byte>, depth: nat) returns (m: nat)
    requires WfNode(n) && depth <= |data|
    ensures m == PrefixMatch(n, data, depth)
  {
    var minLen := Min(n.prefixLen, |data| - depth);
    if n.prefix[..minLen] == data[depth..depth + minLen] {
      m := minLen;
    } else {
      m := 0;
      while m < minLen && n.prefix[m] == data[depth + m]
        invariant m <= minLen && n.prefix[..m] == data[depth..depth + m]
      {
        assert n.prefix[..m + 1] == n.prefix[..m] + [n.prefix[m]];
        assert data[depth..depth + m + 1] == data[depth..depth + m] + [data[depth + m]];
        m := m + 1;
      }
    }
    PrefixMatchUnique(n, data, depth, m);
  }

  /**
   * The node grow fills in: a zeroed node of the next shape takes the full
   * node's edges (a 16-node copies the keys and slots of a 4-node, a 48-node
   * indexes the slots of a 16-node by byte, a 256-node spreads the slots of
   * a 48-node by byte) and its key_len becomes the old capacity.
   */
  method GrowBuild(n: Node) returns (g: Node)
    requires WfNode(n) && n.flags != Leaf && IsFull(n)
    ensures g == GrowNode(n)
  {
    g := AllocNode(NextShape(n.flags));
    var key := g.key;
    var arr := g.arr;
    if n.flags == Inner4 {
      key := n.key + key[4..];
      arr := n.arr + arr[4..];
      assert key == Grow4(n).key && arr == Grow4(n).arr;
    } else if n.flags == Inner16 {
      var i := 0;
      while i < 16
        invariant i <= 16 && |key| == 256 && |arr| == 48
        invariant forall c :: 0 <= c < 256 ==>
          key[c] == match FirstIndex(n.key, i, c) case None => EMPTY case Some(j) => j
        invariant forall j :: 0 <= j < 48 ==> arr[j] == if j < i then n.arr[j] else NULL
      {
        key := key[n.key[i] := i];
        arr := arr[i := n.arr[i]];
        i := i + 1;
      }
      assert key == Index48(n.key) && arr == n.arr + Nulls(32);
    } else {
      var c := 0;
      while c < 256
        invariant c <= 256 && |arr| == 256
        invariant forall x :: 0 <= x < 256 ==> arr[x] == if x < c then Direct256(n)[x] else NULL
      {
        if n.key[c] != EMPTY {
          arr := arr[c := n.arr[n.key[c]]];
        }
        c := c + 1;
      }
      assert arr == Direct256(n);
    }
    g := g.(key := key, arr := arr, keyLen := NodeSize(n.flags));
  }

  /**
   * The new node of a prefix-mismatch split, built in insert's order: a
   * zeroed 4-node gets the new leaf `l` under the key's byte, then the old
   * node `p` under the prefix byte where the key left it, then the `m`
   * shared bytes as its prefix.
   */
  method MismatchBuild(n: Node, p: Ptr, data: seq<Byte>, depth: nat, m: nat, l: Ptr) returns (node: Node)
    requires SplitsAt(n, data, depth, m)
    requires p != NULL && l != NULL && p != l
    ensures node == MismatchNode(n, p, data, depth, m, l)
  {
    MismatchIsAdds(n, p, data, depth, m, l);
    node := AllocNode(Inner4);
    node := AddChild(node, data[depth + m], l);
    node := AddChild(node, n.prefix[m], p);
    node := CopyPrefix(node, n.prefix[..m]);
  }

  /** Two keys that agree on [from, j) and at j agree on [from, j + 1). */
  lemma AgreeOneMore(a: seq<Byte>, b: seq<Byte>, from: nat, j: nat)
    requires from <= j < |a| && j < |b| && a[from..j] == b[from..j] && a[j] == b[j]
    ensures a[from..j + 1] == b[from..j + 1]
  {
    assert a[from..j + 1] == a[from..j] + [a[j]];
    assert b[from..j + 1] == b[from..j] + [b[j]];
  }

  /**
   * do_leaf's match loop: from `depth` on, walk the leaf's key and the
   * stream's key while both go on and agree.
   */
  method KeyMatch(n: Node, data: seq<Byte>, depth: nat) returns (j: nat)
    requires WfNode(n) && n.flags == Leaf && depth <= n.keyLen && depth <= |data|
    ensures j == MatchEnd(n, data, depth)
  {
    j := depth;
    while j < n.keyLen && j < |data| && n.key[j] == data[j]
      invariant depth <= j <= n.keyLen && j <= |data|
      invariant n.key[depth..j] == data[depth..j]
    {
      AgreeOneMore(n.key, data, depth, j);
      j := j + 1;
    }
    FirstDifferenceUnique(n.key, data, depth, Min(n.keyLen, |data|), j);
  }

  /**
   * add_child on a node that is not full and has no child for `b`: shapes 4
   * and 16 append the byte and the child, shape 48 records the next free
   * slot in its byte index, shape 256 stores the child at `b` and leaves
   * key_len as it is.
   */
  method AddChild(n: Node, b: Byte, child: Ptr) returns (r: Node)
    requires WfNode(n) && n.flags != Leaf && !IsFull(n)
    requires Child(n, b) == NULL && child != NULL
    ensures r == AddChildNode(n, b, child)
  {
    match n.flags
    case Inner4 | Inner16 =>
      r := n.(key := n.key[n.keyLen := b], arr := n.arr[n.keyLen := child], keyLen := n.keyLen + 1);
    case Inner48 =>
      r := n.(key := n.key[b := n.keyLen], arr := n.arr[n.keyLen := child], keyLen := n.keyLen + 1);
    case Inner256 =>
      r := n.(arr := n.arr[b := child]);
  }

  /**
   * The nodes reachable from the caller's root variable. Allocation hands out
   * `next` and bumps it; nodes that are no longer referenced stay in the
   * arena, as replace never frees them.
   */
  class Tree {
    var heap: Heap
    var root: Ptr
    var next: Ptr

    function State(): ArtState
      reads this
    {
      ArtState(heap, root, next)
    }

    ghost predicate Valid()
      reads this
    {
      ValidArt(State())
    }

    /** An empty tree: the root variable is NULL. */
    constructor ()
      ensures State() == ArtState(map[], NULL, 1) && Valid()
    {
      heap := map[];
      root := NULL;
      next := 1;
      assert Ranked(map[], map[]);
    }

    /** alloc_node: a zeroed node of shape `f` at the next free address. */
    method NewNode(f: Flags) returns (q: Ptr)
      modifies this
      ensures q == old(next) && State() == Alloc(old(State()), AllocNode(f))
    {
      q := next;
      heap := heap[q := AllocNode(f)];
      next := next + 1;
    }

    /** make_leaf: a leaf holding the stream's whole key, at the next free address. */
    method MakeLeaf(stream: KeyStream) returns (q: Ptr)
      modifies this
      ensures q == old(next) && heap == old(heap)[q := MakeLeafNode(stream.data)]
      ensures State() == Alloc(old(State()), MakeLeafNode(stream.data))
    {
      q := NewNode(Leaf);
      heap := heap[q := heap[q].(keyLen := |stream.data|, key := stream.data)];
    }

    /** replace: store `q` in the slot. */
    method Replace(slot: Slot, q: Ptr)
      requires SlotOk(State(), slot)
      modifies this
      ensures State() == SetSlot(old(State()), slot, q)
    {
      match slot
      case RootSlot => root := q;
      case InArr(o, i) => heap := heap[o := heap[o].(arr := heap[o].arr[i := q])];
    }

    /**
     * Allocate `n` and, when there is one, a leaf right after it, then point
     * the slot at `n`: the alloc_node, make_leaf and replace that end each
     * of insert's splits.
     */
    method Link(slot: Slot, n: Node, leaf: Option<Node>) returns (q: Ptr)
      requires Fresh(State()) && SlotOk(State(), slot)
      modifies this
      ensures q == old(next) && q in heap && heap[q] == n
      ensures State() == Interpose(old(State()), slot, n, leaf)
    {
      q := next;
      var h: Heap := heap[q := n];
      var top: Ptr := q + 1;
      if leaf.Some? {
        h := h[top := leaf.value];
        top := top + 1;
      }
      match slot
      case RootSlot => heap, next, root := h, top, q;
      case InArr(o, i) => heap, next := h[o := heap[o].(arr := heap[o].arr[i := q])], top;
    }

    /** `count += 1` on the node at `p`: one more insert of its key. */
    method Count(p: Ptr)
      requires p in heap
      modifies this
      ensures State() == Bump(old(State()), p)
    {
      var h: Heap := heap[p := heap[p].(count := heap[p].count + 1)];
      heap := h;
    }

    /** add_child on the node at `p`, in place. */
    method AddChildAt(p: Ptr, b: Byte, child: Ptr)
      requires p in heap && WfNode(heap[p]) && heap[p].flags != Leaf && !IsFull(heap[p])
      requires Child(heap[p], b) == NULL && child != NULL
      modifies this
      ensures State() == SetNode(old(State()), p, AddChildNode(old(heap[p]), b, child))
    {
      var r := AddChild(heap[p], b, child);
      heap := heap[p := r];
    }

    /**
     * insert with the root slot: an empty tree gets a leaf for the key;
     * otherwise the loop follows the key down, one edge and one step of the
     * stream's `pos` at a time, and ends with the one change it makes where
     * it stops (see Terminal).
     */
    method Insert(stream: KeyStream, depth: nat)
      requires HeapOk(heap) && Fresh(State()) && (root == NULL || root in heap)
      requires depth <= |stream.data| && InsertSupported(State(), stream.data, depth)
      modifies this, stream
      ensures State() == InsertResult(old(State()), stream.data, depth)
      ensures stream.pos == old(stream.pos) + Descents(old(State()), stream.data, depth)
      ensures old(Valid()) ==> Valid()
      ensures old(Valid()) && ArtFound.Faithful(old(State()), stream.data, depth) ==>
        Search(heap, root, stream.data, depth) != NULL
    {
      ghost var s := State();
      if ValidArt(s) {
        ArtValid.InsertPreservesValid(s, stream.data, depth);
        if ArtFound.Faithful(s, stream.data, depth) {
          ArtFound.InsertThenFound(s, stream.data, depth);
        }
      }
      if root == NULL {
        var l := MakeLeaf(stream);
        Replace(RootSlot, l);
        return;
      }
      var slot, p, d, m, k := Locate(stream, depth);
      Finish(slot, p, stream, d, m, k);
    }

    /**
     * insert's loop up to the node where it makes its change: while the
     * node is inner, its whole prefix matches (check_prefix gives `m`), the
     * key goes on past it and find_child has a child for the next byte, the
     * loop moves to that child, one byte further and one step of `pos` on.
     */
    method Locate(stream: KeyStream, depth: nat) returns (slot: Slot, p: Ptr, d: nat, m: nat, ghost k: nat)
      requires HeapOk(heap) && root in heap && depth <= |stream.data|
      modifies stream
      ensures Walk(heap, RootSlot, root, stream.data, depth, 0) == Position(slot, p, d, k)
      ensures heap[p].flags != Leaf ==> m == PrefixMatch(heap[p], stream.data, d)
      ensures stream.pos == old(stream.pos) + k
    {
      var h: Heap := heap;
      ghost var target := Walk(h, RootSlot, root, stream.data, depth, 0);
      var data := stream.data;
      slot, p, d, k := RootSlot, root, depth, 0;
      while true
        invariant stream.pos == old(stream.pos) + k
        invariant p in h && d <= |data|
        invariant Walk(h, slot, p, data, d, k) == target
        decreases |data| - d
      {
        var stop, slot1, p1, d1;
        stop, m, slot1, p1, d1 := Advance(h, slot, p, data, d, k);
        if stop {
          break;
        }
        stream.pos := stream.pos + 1;
        slot, p, d, k := slot1, p1, d1, k + 1;
      }
    }

    /**
     * The change insert's loop makes at the node `p` where it stopped, in
     * the loop's order: at a leaf do_leaf; at an inner node whose prefix the
     * key leaves (check_prefix gave `m`) a split; when the key ends inside
     * the node `count += 1`; otherwise, with no child for the key's next
     * byte, a new leaf is added.
     */
    method Finish(slot: Slot, p: Ptr, stream: KeyStream, d: nat, m: nat, ghost k: nat)
      requires StepOk(State(), slot, p) && SlotValue(State(), slot) == p && d <= |stream.data|
      requires !Descends(heap[p], stream.data, d) && Supported(heap, Position(slot, p, d, k), stream.data)
      requires heap[p].flags != Leaf ==> m == PrefixMatch(heap[p], stream.data, d)
      modifies this
      ensures State() == Terminal(old(State()), Position(slot, p, d, k), stream.data)
    {
      if heap[p].flags == Leaf {
        DoLeaf(slot, stream, d);
      } else {
        FinishInner(slot, p, stream, d, m, k);
      }
    }

    /** Finish at an inner node. */
    method FinishInner(slot: Slot, p: Ptr, stream: KeyStream, d: nat, m: nat, ghost k: nat)
      requires StepOk(State(), slot, p) && SlotValue(State(), slot) == p && d <= |stream.data|
      requires !Descends(heap[p], stream.data, d) && Supported(heap, Position(slot, p, d, k), stream.data)
      requires heap[p].flags != Leaf && m == PrefixMatch(heap[p], stream.data, d)
      modifies this
      ensures State() == Terminal(old(State()), Position(slot, p, d, k), stream.data)
    {
      var n := heap[p];
      ghost var pos := Position(slot, p, d, k);
      if m != n.prefixLen {
        TerminalSplits(State(), pos, stream.data);
        Split(slot, p, stream, d, m);
      } else if d + n.prefixLen >= |stream.data| {
        TerminalBumps(State(), pos, stream.data);
        Count(p);
      } else {
        TerminalAdds(State(), pos, stream.data);
        AddLeaf(slot, p, stream, d + n.prefixLen);
      }
    }

    /**
     * The end of insert's loop at an inner node whose prefix the key leaves
     * at byte `m`: a new 4-node with the shared bytes as its prefix takes
     * the old node and a new leaf for the key as children, the old node
     * loses the first `m + 1` bytes of its prefix, and the new node takes
     * its slot.
     */
    method Split(slot: Slot, p: Ptr, stream: KeyStream, depth: nat, m: nat)
      requires StepOk(State(), slot, p) && SplitsAt(heap[p], stream.data, depth, m)
      modifies this
      ensures State() == SplitResult(old(State()), slot, p, stream.data, depth, m)
    {
      ghost var s := State();
      var node := MismatchBuild(heap[p], p, stream.data, depth, m, next + 1);
      CutPrefix(p, m);
      var q := Link(slot, node, Some(MakeLeafNode(stream.data)));
      ArtValid.SplitUnfolds(s, slot, p, stream.data, depth, m);
    }

    /**
     * `prefix_len -= m + 1` and the memmove that slides the rest of the
     * prefix to the front of the buffer.
     */
    method CutPrefix(p: Ptr, m: nat)
      requires p in heap && WfNode(heap[p]) && m < heap[p].prefixLen
      modifies this
      ensures State() == SetNode(old(State()), p, ShiftPrefix(old(heap[p]), m))
    {
      var h: Heap := heap[p := ShiftPrefix(heap[p], m)];
      heap := h;
    }

    /**
     * The end of insert's loop at an inner node `p` with no child for the
     * key's byte `d`: a full node is grown first, then a new leaf for the
     * key is added under that byte.
     */
    method AddLeaf(slot: Slot, p: Ptr, stream: KeyStream, d: nat)
      requires StepOk(State(), slot, p) && heap[p].flags != Leaf && d < |stream.data|
      requires Child(heap[p], stream.data[d]) == NULL
      modifies this
      ensures State() == AddResult(old(State()), slot, p, stream.data, d)
    {
      ghost var s := State();
      var q := p;
      if IsFull(heap[p]) {
        q := Grow(slot, p);
      }
      var l := MakeLeaf(stream);
      AddChildAt(q, stream.data[d], l);
      if IsFull(s.heap[p]) {
        GrowThenAdd(s, slot, GrowNode(s.heap[p]), MakeLeafNode(stream.data),
                    AddChildNode(GrowNode(s.heap[p]), stream.data[d], s.next + 1));
      }
      ArtValid.AddUnfolds(s, slot, p, stream.data, d);
    }

    /** grow: the node of the next shape replaces the full node `p` in its slot. */
    method Grow(slot: Slot, p: Ptr) returns (q: Ptr)
      requires StepOk(State(), slot, p) && heap[p].flags != Leaf && IsFull(heap[p])
      modifies this
      ensures q == old(next) && q in heap && heap[q] == GrowNode(old(heap[p]))
      ensures State() == GrowResult(old(State()), slot, p)
    {
      var g := GrowBuild(heap[p]);
      q := Link(slot, g, None);
    }

    /**
     * do_leaf at the leaf stored in `slot`: the match loop finds where the
     * leaf's key and the stream's key part from `depth` on. Equal keys bump
     * the leaf's count. Otherwise a 4-node takes the shared run as its
     * prefix and, as children, the old leaf and then a new leaf for the
     * stream, each only if its key goes on past the run, and replaces the
     * old leaf in its slot.
     */
    method DoLeaf(slot: Slot, stream: KeyStream, depth: nat)
      requires SlotOk(State(), slot) && StepOk(State(), slot, SlotValue(State(), slot))
      requires heap[SlotValue(State(), slot)].flags == Leaf && depth <= |stream.data|
      requires Supported(heap, Position(slot, SlotValue(State(), slot), depth, 0), stream.data)
      modifies this
      ensures State() == DoLeafResult(old(State()), slot, old(SlotValue(State(), slot)), stream.data, depth)
    {
      var p := SlotValue(State(), slot);
      var j := KeyMatch(heap[p], stream.data, depth);
      if j == |stream.data| && j == heap[p].keyLen {
        Count(p);
        return;
      }
      LeafSplit(slot, p, stream, depth, j);
    }

    /**
     * The second half of do_leaf, once the match loop has stopped at `j`
     * short of the end of one of the two keys.
     */
    method LeafSplit(slot: Slot, p: Ptr, stream: KeyStream, depth: nat, j: nat)
      requires StepOk(State(), slot, p) && SlotValue(State(), slot) == p && heap[p].flags == Leaf
      requires depth <= heap[p].keyLen && depth <= |stream.data|
      requires j == MatchEnd(heap[p], stream.data, depth) && j - depth <= PREFIX_SIZE
      requires !(j == |stream.data| && j == heap[p].keyLen)
      modifies this
      ensures State() == Interpose(old(State()), slot, LeafSplitNode(old(heap[p]), p, stream.data, depth, old(next) + 1),
                                   if j < |stream.data| then Some(MakeLeafNode(stream.data)) else None)
    {
      var data := stream.data;
      var node := LeafSplitBuild(heap[p], p, data, depth, j, next + 1);
      var q := Link(slot, node, if j < |data| then Some(MakeLeafNode(data)) else None);
    }
  }

  /**
   * The node do_leaf builds into the freshly allocated 4-node: the shared run
   * as its prefix (copied only when it is not empty), then the old leaf `p`
   * and the new leaf `l` as children, each only if its key goes on past the
   * run.
   */
  method LeafSplitBuild(n: Node, p: Ptr, data: seq<Byte>, depth: nat, j: nat, l: Ptr) returns (node: Node)
    requires WfNode(n) && n.flags == Leaf && depth <= n.keyLen && depth <= |data|
    requires j == MatchEnd(n, data, depth) && j - depth <= PREFIX_SIZE && p != NULL && l != NULL
    ensures node == LeafSplitNode(n, p, data, depth, l)
  {
    LeafSplitSteps(n, p, data, depth, j, l);
    node := AllocNode(Inner4);
    if j - depth > 0 {
      node := CopyPrefix(node, data[depth..j]);
    }
    if j < n.keyLen {
      node := AddChild(node, n.key[j], p);
    }
    if j < |data| {
      node := AddChild(node, data[j], l);
    }
  }

  /** The node of a leaf split, built the way do_leaf builds it, with each add_child allowed. */
  lemma LeafSplitSteps(n: Node, p: Ptr, data: seq<Byte>, depth: nat, j: nat, l: Ptr)
    requires WfNode(n) && n.flags == Leaf && depth <= n.keyLen && depth <= |data|
    requires j == MatchEnd(n, data, depth) && j - depth <= PREFIX_SIZE && p != NULL && l != NULL
    ensures var a := RunNode(data[depth..j]);
      !IsFull(a) && (j < n.keyLen ==> Child(a, n.key[j]) == NULL) &&
      var b := AddChildIf(a, j < n.keyLen, if j < n.keyLen then n.key[j] else 0, p);
      (j < |data| ==> !IsFull(b) && Child(b, data[j]) == NULL) &&
      LeafSplitNode(n, p, data, depth, l) == AddChildIf(b, j < |data|, if j < |data| then data[j] else 0, l)
  {
  }

  /**
   * One turn of insert's loop at node `p`, entered at `depth` after `k`
   * edges: it stops at a leaf, where check_prefix (giving `m`) falls short
   * of the node's prefix, where the key ends, or where find_child has no
   * child for the next byte; otherwise it moves to that child, one byte on.
   */
  method Advance(h: Heap, slot: Slot, p: Ptr, data: seq<Byte>, depth: nat, ghost k: nat)
      returns (stop: bool, m: nat, slot': Slot, p': Ptr, d': nat)
    requires HeapOk(h) && p in h && depth <= |data|
    ensures stop ==> Walk(h, slot, p, data, depth, k) == Position(slot, p, depth, k)
    ensures stop && h[p].flags != Leaf ==> m == PrefixMatch(h[p], data, depth)
    ensures !stop ==> p' in h && depth < d' <= |data|
    ensures !stop ==> Walk(h, slot, p, data, depth, k) == Walk(h, slot', p', data, d', k + 1)
  {
    var n := h[p];
    assert NodeOk(h, p);
    stop, m, slot', p', d' := true, 0, slot, p, depth;
    if n.flags != Leaf {
      m := CheckPrefix(n, data, depth);
      if m == n.prefixLen && depth + n.prefixLen < |data| {
        var c := FindChildScan(n, data[depth + n.prefixLen]);
        if c.Some? && n.arr[c.value] != NULL {
          stop, slot', p', d' := false, InArr(p, c.value), n.arr[c.value], depth + n.prefixLen + 1;
          WalkNext(h, slot, p, data, depth, k, c.value, p', d');
          return;
        }
      }
    }
    WalkStops(h, slot, p, data, depth, k);
  }

  /** One turn of insert's loop: following the edge for the key's byte moves the walk one node down. */
  lemma WalkNext(h: Heap, slot: Slot, p: Ptr, data: seq<Byte>, depth: nat, k: nat, i: nat, c: Ptr, d: nat)
    requires HeapOk(h) && p in h && NodeOk(h, p) && depth <= |data| && h[p].flags != Leaf
    requires PrefixMatch(h[p], data, depth) == h[p].prefixLen && depth + h[p].prefixLen < |data|
    requires FindChild(h[p], data[depth + h[p].prefixLen]) == Some(i) && i < |h[p].arr| && h[p].arr[i] == c != NULL
    requires d == depth + h[p].prefixLen + 1
    ensures Walk(h, slot, p, data, depth, k) == Walk(h, InArr(p, i), c, data, d, k + 1)
  {
    WalkDescends(h, slot, p, data, depth, k);
  }

  /**
   * grow, then make_leaf, then add_child on the grown node comes to the same
   * state as allocating the finished node and the leaf and linking the node.
   */
  lemma GrowThenAdd(s: ArtState, slot: Slot, g: Node, leaf: Node, x: Node)
    requires Fresh(s) && SlotOk(s, slot)
    ensures SetNode(Alloc(Interpose(s, slot, g, None), leaf), s.next, x) == Interpose(s, slot, x, Some(leaf))
  {
    var q := s.next;
    match slot
    case RootSlot =>
      assert Interpose(s, slot, g, None) == ArtState(s.heap[q := g], q, q + 1);
      assert Interpose(s, slot, x, Some(leaf)) == ArtState(s.heap[q := x][q + 1 := leaf], q, q + 2);
      assert s.heap[q := g][q + 1 := leaf][q := x] == s.heap[q := x][q + 1 := leaf];
    case InArr(o, i) =>
      assert o != q && o != q + 1;
      var e := s.heap[o].(arr := s.heap[o].arr[i := q]);
      assert Interpose(s, slot, g, None) == ArtState(s.heap[q := g][o := e], s.root, q + 1);
      assert Interpose(s, slot, x, Some(leaf)) == ArtState(s.heap[q := x][q + 1 := leaf][o := e], s.root, q + 2);
      assert s.heap[q := g][o := e][q + 1 := leaf][q := x] == s.heap[q := x][q + 1 := leaf][o := e];
  }
}
