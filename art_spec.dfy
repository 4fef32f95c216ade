/**
 * The node arena of the adaptive radix tree and what insert and search of
 * src/lib/art/art.c do to it, as functions on a state value. A C pointer is an
 * address in the arena; a `struct radix_tree_node **` is a Slot. The class
 * Art.Tree performs the same steps in place and is proved against these
 * functions.
 */
module ArtSpec {
  import opened Options
  import opened Bytes
  import opened ArtNode

  type Heap = map<Ptr, Node>

  /** Where a node pointer is stored: the caller's root variable, or entry `index` of a parent's `arr`. */
  datatype Slot = RootSlot | InArr(parent: Ptr, index: nat)

  /** The arena, the root variable, and the address the next allocation returns. */
  datatype ArtState = ArtState(heap: Heap, root: Ptr, next: Ptr)

  /** Every child pointer of `n` is NULL or a node of the arena. */
  predicate Closed(h: Heap, n: Node)
  {
    forall c :: c in n.arr && c != NULL ==> c in h
  }

  /** Every node is well formed and points only into the arena. */
  predicate HeapOk(h: Heap)
  {
    NULL !in h && forall p {:trigger NodeOk(h, p)} :: p in h ==> NodeOk(h, p)
  }

  /**
   * The node at `p` is well formed and points only into the arena. HeapOk
   * yields this only where a proof asks for it, which keeps the solver from
   * unfolding every node it can reach.
   */
  predicate NodeOk(h: Heap, p: Ptr)
    requires p in h
  {
    WfNode(h[p]) && Closed(h, h[p])
  }

  /** Addresses handed out so far lie below `next`; NULL is never handed out. */
  predicate Fresh(s: ArtState)
  {
    0 < s.next && NULL !in s.heap && forall p :: p in s.heap ==> p < s.next
  }

  /** Node `p` ranks below each of its children. */
  predicate RankedAt(lv: map<Ptr, real>, p: Ptr, n: Node)
  {
    p in lv && forall c :: c in n.arr && c != NULL ==> c in lv && lv[p] < lv[c]
  }

  /** A ranking that grows along every edge: the pointers form no cycle. */
  predicate Ranked(h: Heap, lv: map<Ptr, real>)
  {
    forall p {:trigger h[p]} :: p in h ==> RankedAt(lv, p, h[p])
  }

  /** The invariant every insert keeps. */
  ghost predicate ValidArt(s: ArtState)
  {
    HeapOk(s.heap) && Fresh(s) && (s.root == NULL || s.root in s.heap) &&
    exists lv :: Ranked(s.heap, lv)
  }

  predicate SlotOk(s: ArtState, slot: Slot)
  {
    slot.InArr? ==> slot.parent in s.heap && slot.index < |s.heap[slot.parent].arr|
  }

  /** The pointer stored in a slot (`*_node`). */
  function SlotValue(s: ArtState, slot: Slot): Ptr
    requires SlotOk(s, slot)
  {
    match slot
    case RootSlot => s.root
    case InArr(p, i) => s.heap[p].arr[i]
  }

  /** The nodes whose fields a write through the slot changes. */
  function Owners(slot: Slot): set<Ptr>
  {
    if slot.InArr? then {slot.parent} else {}
  }

  /** replace: store `q` in the slot. */
  function SetSlot(s: ArtState, slot: Slot, q: Ptr): (r: ArtState)
    requires SlotOk(s, slot)
    ensures SlotOk(r, slot) && SlotValue(r, slot) == q
    ensures r.next == s.next && r.heap.Keys == s.heap.Keys
    ensures slot.InArr? ==> r.root == s.root
  {
    match slot
    case RootSlot => s.(root := q)
    case InArr(p, i) => s.(heap := s.heap[p := s.heap[p].(arr := s.heap[p].arr[i := q])])
  }

  /** alloc_node followed by the caller's stores: a node at the next free address. */
  function Alloc(s: ArtState, n: Node): ArtState
  {
    s.(heap := s.heap[s.next := n], next := s.next + 1)
  }

  /** Overwrite the fields of node `p`. */
  function SetNode(s: ArtState, p: Ptr, n: Node): ArtState
  {
    s.(heap := s.heap[p := n])
  }

  /** `node->count++`: nothing is allocated and the root stays; the node's count grows by one. */
  function Bump(s: ArtState, p: Ptr): (r: ArtState)
    requires p in s.heap
    ensures r.root == s.root && r.next == s.next && r.heap.Keys == s.heap.Keys
    ensures r.heap[p].count == s.heap[p].count + 1
  {
    SetNode(s, p, s.heap[p].(count := s.heap[p].count + 1))
  }

  /**
   * search: follow the key from node `p`, which was entered after `depth`
   * bytes. A leaf is returned when its whole key is the key; an inner node
   * when the key ends right after its prefix; NULL on a prefix mismatch or a
   * missing child. Each step consumes at least one byte, which bounds the
   * recursion.
   */
  function Search(h: Heap, p: Ptr, data: seq<Byte>, depth: nat): (r: Ptr)
    requires HeapOk(h) && (p == NULL || p in h) && depth <= |data|
    ensures r == NULL || r in h
    decreases |data| - depth
  {
    if p == NULL then NULL
    else
      assert NodeOk(h, p);
      if h[p].flags == Leaf then
        if LeafMatches(h[p], data) then p else NULL
      else if PrefixMatch(h[p], data, depth) != h[p].prefixLen then NULL
      else if depth + h[p].prefixLen == |data| then p
      else Search(h, Child(h[p], data[depth + h[p].prefixLen]), data, depth + h[p].prefixLen + 1)
  }

  /** Where insert's loop stops: the slot it came through, the node, its depth and how many edges it followed. */
  datatype Position = Position(slot: Slot, node: Ptr, depth: nat, descents: nat)

  /** insert's loop moves on from `n`: an inner node whose whole prefix matches and that has a child for the next byte. */
  predicate Descends(n: Node, data: seq<Byte>, depth: nat)
    requires WfNode(n) && depth <= |data|
  {
    n.flags != Leaf && PrefixMatch(n, data, depth) == n.prefixLen &&
    depth + n.prefixLen < |data| && Child(n, data[depth + n.prefixLen]) != NULL
  }

  /**
   * The read-only part of insert's loop: from node `p`, stored in `slot` and
   * entered at `depth` after `k` edges, follow the key down to the node
   * where the loop makes its change.
   */
  function Walk(h: Heap, slot: Slot, p: Ptr, data: seq<Byte>, depth: nat, k: nat): (pos: Position)
    requires HeapOk(h) && p in h && depth <= |data|
    ensures pos.node in h && NodeOk(h, pos.node) && pos.depth <= |data| && k <= pos.descents
    ensures !Descends(h[pos.node], data, pos.depth)
    ensures pos.descents == k ==> pos == Position(slot, p, depth, k)
    ensures pos.descents > k ==>
      pos.slot.InArr? && pos.slot.parent in h && h[pos.slot.parent].flags != Leaf &&
      pos.slot.index < |h[pos.slot.parent].arr| && h[pos.slot.parent].arr[pos.slot.index] == pos.node
    decreases |data| - depth
  {
    var n := h[p];
    assert NodeOk(h, p);
    if Descends(n, data, depth) then
      var d := depth + n.prefixLen;
      var i := FindChild(n, data[d]).value;
      Walk(h, InArr(p, i), n.arr[i], data, d + 1, k + 1)
    else Position(slot, p, depth, k)
  }

  /**
   * The cases in which the C code is defined and inside this model at the
   * node where insert's loop stops: a leaf is not entered past the end of
   * its key (the unsigned `key_len - depth` would wrap), a split shares at
   * most one prefix buffer of bytes (longer runs are chained, which is not
   * modelled), and a prefix mismatch is not caused by the key running out
   * (the split would read the byte after its end).
   */
  predicate Supported(h: Heap, pos: Position, data: seq<Byte>)
    requires pos.node in h && WfNode(h[pos.node]) && pos.depth <= |data|
  {
    var n := h[pos.node];
    if n.flags == Leaf then
      pos.depth <= n.keyLen &&
      var j := MatchEnd(n, data, pos.depth);
      (j == |data| && j == n.keyLen) || j - pos.depth <= PREFIX_SIZE
    else
      var m := PrefixMatch(n, data, pos.depth);
      m != n.prefixLen ==> pos.depth + m < |data|
  }

  /** The state on which a step may allocate and write. */
  predicate StepOk(s: ArtState, slot: Slot, p: Ptr)
  {
    Fresh(s) && p in s.heap && WfNode(s.heap[p]) && SlotOk(s, slot)
  }

  /** A zeroed shape-4 node whose prefix is `run` (the memcpy is skipped for an empty run). */
  function RunNode(run: seq<Byte>): (r: Node)
    requires |run| <= PREFIX_SIZE
    ensures WfNode(r) && r.flags == Inner4 && r.count == 0 && r.keyLen == 0
    ensures r.prefixLen == |run| && r.prefix[..|run|] == run
    ensures forall c :: c in r.arr ==> c == NULL
    ensures forall c :: Child(r, c) == NULL
  {
    if |run| > 0 then CopyPrefix(AllocNode(Inner4), run) else AllocNode(Inner4)
  }

  /** add_child on a shape-4 node when `cond` holds; the node unchanged otherwise. */
  function AddChildIf(n: Node, cond: bool, b: Byte, child: Ptr): (r: Node)
    requires WfNode(n) && n.flags == Inner4
    requires cond ==> !IsFull(n) && Child(n, b) == NULL && child != NULL
    ensures WfNode(r) && r.flags == Inner4
    ensures r.count == n.count && r.prefixLen == n.prefixLen && r.prefix == n.prefix
    ensures r.keyLen == n.keyLen + (if cond then 1 else 0)
    ensures r.key[..r.keyLen] == n.key[..n.keyLen] + (if cond then [b] else [])
    ensures r.arr[..r.keyLen] == n.arr[..n.keyLen] + (if cond then [child] else [])
    ensures forall c :: c in r.arr ==> c in n.arr || (cond && c == child)
    ensures forall c :: Child(r, c) == if cond && c == b then child else Child(n, c)
  {
    if cond then
      var r := AddChildNode(n, b, child);
      assert r.key[..r.keyLen] == n.key[..n.keyLen] + [b];
      assert r.arr[..r.keyLen] == n.arr[..n.keyLen] + [child];
      r
    else n
  }

  /**
   * The node do_leaf builds when the keys differ: a zeroed shape-4 node given
   * the shared run as its prefix, then the old leaf `p` and then the new leaf
   * `l` as children, each only if its key goes on past the run.
   */
  function LeafSplitNode(n: Node, p: Ptr, data: seq<Byte>, depth: nat, l: Ptr): (r: Node)
    requires WfNode(n) && n.flags == Leaf && depth <= n.keyLen && depth <= |data|
    requires MatchEnd(n, data, depth) - depth <= PREFIX_SIZE && p != NULL && l != NULL
    ensures WfNode(r) && r.flags == Inner4 && r.count == 0 && r.prefixLen == MatchEnd(n, data, depth) - depth
  {
    var j := MatchEnd(n, data, depth);
    var a := RunNode(data[depth..j]);
    var b := AddChildIf(a, j < n.keyLen, if j < n.keyLen then n.key[j] else 0, p);
    AddChildIf(b, j < |data|, if j < |data| then data[j] else 0, l)
  }

  /**
   * The node of a leaf split: its prefix is the shared run, its keys are
   * the old key's byte after the run and then the new key's, each present
   * only if that key goes on past the run, and the edges lead to the old
   * leaf and the new one.
   */
  lemma LeafSplitShape(n: Node, p: Ptr, data: seq<Byte>, depth: nat, l: Ptr)
    requires WfNode(n) && n.flags == Leaf && depth <= n.keyLen && depth <= |data|
    requires MatchEnd(n, data, depth) - depth <= PREFIX_SIZE && p != NULL && l != NULL
    ensures var j := MatchEnd(n, data, depth); var r := LeafSplitNode(n, p, data, depth, l);
      WfNode(r) && r.flags == Inner4 && r.count == 0 &&
      r.prefixLen == j - depth && r.prefix[..j - depth] == data[depth..j] &&
      r.key[..r.keyLen] == (if j < n.keyLen then [n.key[j]] else []) + (if j < |data| then [data[j]] else []) &&
      r.arr[..r.keyLen] == (if j < n.keyLen then [p] else []) + (if j < |data| then [l] else []) &&
      (forall c :: c in r.arr ==> c == NULL || (j < n.keyLen && c == p) || (j < |data| && c == l)) &&
      (forall c :: Child(r, c) == if j < n.keyLen && c == n.key[j] then p else if j < |data| && c == data[j] then l else NULL)
  {
  }

  /**
   * The common end of a split, a grow-then-add and an insert into an empty
   * slot: `n` is allocated at the next free address, then the leaf, if
   * there is one, at the address after it, and `n` is stored in the slot.
   */
  function Interpose(s: ArtState, slot: Slot, n: Node, leaf: Option<Node>): (r: ArtState)
    requires Fresh(s) && SlotOk(s, slot)
    ensures r.next == s.next + (if leaf.Some? then 2 else 1)
    ensures s.heap.Keys <= r.heap.Keys && SlotOk(r, slot) && SlotValue(r, slot) == s.next
    ensures s.next in r.heap && r.heap[s.next] == n
    ensures leaf.Some? ==> s.next + 1 in r.heap && r.heap[s.next + 1] == leaf.value
    ensures slot.InArr? ==> r.root == s.root
  {
    var s1 := Alloc(s, n);
    var s2 := if leaf.Some? then Alloc(s1, leaf.value) else s1;
    SetSlot(s2, slot, s.next)
  }

  /**
   * do_leaf at the leaf `p`: a key equal to the leaf's only bumps its count;
   * otherwise the node LeafSplitNode describes is allocated, then the new
   * leaf if the key goes on past the shared run, and the node replaces the
   * old leaf in its slot.
   */
  function DoLeafResult(s: ArtState, slot: Slot, p: Ptr, data: seq<Byte>, depth: nat): (r: ArtState)
    requires StepOk(s, slot, p) && s.heap[p].flags == Leaf && depth <= |data|
    requires Supported(s.heap, Position(slot, p, depth, 0), data)
    ensures s.heap.Keys <= r.heap.Keys && s.next <= r.next <= s.next + 2
    ensures r.next == s.next <==> MatchEnd(s.heap[p], data, depth) == |data| == s.heap[p].keyLen
  {
    var n := s.heap[p];
    var j := MatchEnd(n, data, depth);
    if j == |data| && j == n.keyLen then Bump(s, p)
    else
      Interpose(s, slot, LeafSplitNode(n, p, data, depth, s.next + 1),
                if j < |data| then Some(MakeLeafNode(data)) else None)
  }

  /**
   * The node a prefix-mismatch split builds: a shape-4 node whose keys are
   * the key's byte at `depth + m`, leading to the new leaf `l`, then the
   * old prefix's byte `m`, leading to the old node `p`; its prefix is the
   * `m` shared bytes, the rest of its buffer still zero.
   */
  function MismatchNode(n: Node, p: Ptr, data: seq<Byte>, depth: nat, m: nat, l: Ptr): (r: Node)
    requires SplitsAt(n, data, depth, m)
    requires p != NULL && l != NULL && p != l
    ensures WfNode(r) && r.flags == Inner4 && r.count == 0 && r.prefixLen == m && r.keyLen == 2
  {
    Node(Inner4, 2, [data[depth + m], n.prefix[m], 0, 0], [l, p, NULL, NULL], 0, m,
         n.prefix[..m] + Zeros(PREFIX_SIZE - m))
  }

  /**
   * MismatchNode is what the C code builds: alloc_node(NODE4), add_child
   * for the new leaf, add_child for the old node, then the memcpy of the
   * shared bytes into the prefix.
   */
  lemma MismatchIsAdds(n: Node, p: Ptr, data: seq<Byte>, depth: nat, m: nat, l: Ptr)
    requires SplitsAt(n, data, depth, m)
    requires p != NULL && l != NULL && p != l
    ensures var a := AddChildNode(AllocNode(Inner4), data[depth + m], l);
      Child(a, n.prefix[m]) == NULL && !IsFull(a) &&
      MismatchNode(n, p, data, depth, m, l) == CopyPrefix(AddChildNode(a, n.prefix[m], p), n.prefix[..m])
  {
    var a := AddChildNode(AllocNode(Inner4), data[depth + m], l);
    assert a.key == [data[depth + m], 0, 0, 0] && a.arr == [l, NULL, NULL, NULL];
    var b := AddChildNode(a, n.prefix[m], p);
    assert b.key == [data[depth + m], n.prefix[m], 0, 0] && b.arr == [l, p, NULL, NULL];
    assert CopyPrefix(b, n.prefix[..m]).prefix == n.prefix[..m] + Zeros(PREFIX_SIZE - m);
  }

  /**
   * The node of a prefix-mismatch split: its prefix is the `m` shared bytes,
   * its keys are the key's byte at `depth + m` and then the old prefix's
   * byte `m`, leading to the new leaf and to the old node.
   */
  lemma MismatchShape(n: Node, p: Ptr, data: seq<Byte>, depth: nat, m: nat, l: Ptr)
    requires SplitsAt(n, data, depth, m)
    requires p != NULL && l != NULL && p != l
    ensures var r := MismatchNode(n, p, data, depth, m, l);
      WfNode(r) && r.flags == Inner4 && r.count == 0 &&
      r.prefixLen == m && r.prefix[..m] == n.prefix[..m] &&
      r.key[..r.keyLen] == [data[depth + m], n.prefix[m]] && r.arr[..r.keyLen] == [l, p] &&
      (forall c :: c in r.arr ==> c == NULL || c == p || c == l) &&
      (forall c :: Child(r, c) == if c == data[depth + m] then l else if c == n.prefix[m] then p else NULL)
  {
    var r := MismatchNode(n, p, data, depth, m, l);
    assert r.prefix[..m] == n.prefix[..m];
    forall c: Byte
      ensures Child(r, c) == if c == data[depth + m] then l else if c == n.prefix[m] then p else NULL
    {
      assert r.key[..r.keyLen] == [data[depth + m], n.prefix[m]];
    }
  }

  /**
   * The prefix-mismatch split at the inner node `p`, whose prefix agrees
   * with the key on its first `m` bytes only: `p` loses the first `m + 1`
   * bytes of its prefix, and the node MismatchNode describes, followed by the
   * new leaf, is allocated and takes `p`'s slot.
   */
  function SplitResult(s: ArtState, slot: Slot, p: Ptr, data: seq<Byte>, depth: nat, m: nat): (r: ArtState)
    requires StepOk(s, slot, p) && SplitsAt(s.heap[p], data, depth, m)
    ensures r.next == s.next + 2 && s.heap.Keys <= r.heap.Keys
    ensures SlotOk(r, slot) && SlotValue(r, slot) == s.next
    ensures s.next + 1 in r.heap && r.heap[s.next + 1] == MakeLeafNode(data)
  {
    var n := s.heap[p];
    Interpose(SetNode(s, p, ShiftPrefix(n, m)), slot, MismatchNode(n, p, data, depth, m, s.next + 1),
              Some(MakeLeafNode(data)))
  }

  /** grow: a node of the next shape holding the same children is allocated and takes the slot. */
  function GrowResult(s: ArtState, slot: Slot, p: Ptr): (r: ArtState)
    requires StepOk(s, slot, p) && s.heap[p].flags != Leaf && IsFull(s.heap[p])
    ensures r.next == s.next + 1 && s.heap.Keys <= r.heap.Keys
    ensures SlotOk(r, slot) && SlotValue(r, slot) == s.next
    ensures s.next in r.heap && WfNode(r.heap[s.next]) && r.heap[s.next].flags == NextShape(s.heap[p].flags)
    ensures forall b :: Child(r.heap[s.next], b) == Child(s.heap[p], b)
  {
    Interpose(s, slot, GrowNode(s.heap[p]), None)
  }

  /**
   * The end of insert's loop at an inner node `p` with no child for the key
   * byte at `d`: a new leaf for the key is added to `p`, or, when `p` is
   * full, to the grown node that replaces it in its slot.
   */
  function AddResult(s: ArtState, slot: Slot, p: Ptr, data: seq<Byte>, d: nat): (r: ArtState)
    requires StepOk(s, slot, p) && s.heap[p].flags != Leaf && d < |data|
    requires Child(s.heap[p], data[d]) == NULL
    ensures s.heap.Keys <= r.heap.Keys
    ensures var l := if IsFull(s.heap[p]) then s.next + 1 else s.next;
      l !in s.heap && l in r.heap && r.heap[l] == MakeLeafNode(data) && r.next == l + 1
  {
    var n := s.heap[p];
    if IsFull(n) then
      Interpose(s, slot, AddChildNode(GrowNode(n), data[d], s.next + 1), Some(MakeLeafNode(data)))
    else
      SetNode(Alloc(s, MakeLeafNode(data)), p, AddChildNode(n, data[d], s.next))
  }

  /** The change insert's loop makes at the node where it stops. */
  function Terminal(s: ArtState, pos: Position, data: seq<Byte>): (r: ArtState)
    requires StepOk(s, pos.slot, pos.node) && pos.depth <= |data|
    requires !Descends(s.heap[pos.node], data, pos.depth)
    requires Supported(s.heap, pos, data)
    ensures s.heap.Keys <= r.heap.Keys && s.next <= r.next <= s.next + 2
    ensures r.root == s.root || (pos.slot.RootSlot? && r.root == s.next && s.next in r.heap)
  {
    var n := s.heap[pos.node];
    if n.flags == Leaf then DoLeafResult(s, pos.slot, pos.node, data, pos.depth)
    else
      var m := PrefixMatch(n, data, pos.depth);
      if m != n.prefixLen then SplitResult(s, pos.slot, pos.node, data, pos.depth, m)
      else if pos.depth + m >= |data| then Bump(s, pos.node)
      else AddResult(s, pos.slot, pos.node, data, pos.depth + m)
  }

  /** Terminal at an inner node whose prefix differs from the key: a split. */
  lemma TerminalSplits(s: ArtState, pos: Position, data: seq<Byte>)
    requires StepOk(s, pos.slot, pos.node) && pos.depth <= |data| && s.heap[pos.node].flags != Leaf
    requires !Descends(s.heap[pos.node], data, pos.depth) && Supported(s.heap, pos, data)
    requires PrefixMatch(s.heap[pos.node], data, pos.depth) != s.heap[pos.node].prefixLen
    ensures var m := PrefixMatch(s.heap[pos.node], data, pos.depth);
      SplitsAt(s.heap[pos.node], data, pos.depth, m) &&
      Terminal(s, pos, data) == SplitResult(s, pos.slot, pos.node, data, pos.depth, m)
  {
    PrefixSplits(s.heap[pos.node], data, pos.depth);
  }

  /** Terminal at an inner node whose prefix matches and where the key ends: a bump. */
  lemma TerminalBumps(s: ArtState, pos: Position, data: seq<Byte>)
    requires StepOk(s, pos.slot, pos.node) && pos.depth <= |data| && s.heap[pos.node].flags != Leaf
    requires !Descends(s.heap[pos.node], data, pos.depth) && Supported(s.heap, pos, data)
    requires PrefixMatch(s.heap[pos.node], data, pos.depth) == s.heap[pos.node].prefixLen
    requires pos.depth + s.heap[pos.node].prefixLen >= |data|
    ensures Terminal(s, pos, data) == Bump(s, pos.node)
  {
  }

  /** Terminal at an inner node whose prefix matches and which has no child for the next byte: an added leaf. */
  lemma TerminalAdds(s: ArtState, pos: Position, data: seq<Byte>)
    requires StepOk(s, pos.slot, pos.node) && pos.depth <= |data| && s.heap[pos.node].flags != Leaf
    requires !Descends(s.heap[pos.node], data, pos.depth) && Supported(s.heap, pos, data)
    requires PrefixMatch(s.heap[pos.node], data, pos.depth) == s.heap[pos.node].prefixLen
    requires pos.depth + s.heap[pos.node].prefixLen < |data|
    ensures var d := pos.depth + s.heap[pos.node].prefixLen;
      Child(s.heap[pos.node], data[d]) == NULL && Terminal(s, pos, data) == AddResult(s, pos.slot, pos.node, data, d)
  {
  }

  /** Where insert's loop stops for the key, entered at the root at `depth`. */
  function InsertPosition(s: ArtState, data: seq<Byte>, depth: nat): Position
    requires HeapOk(s.heap) && s.root in s.heap && depth <= |data|
  {
    Walk(s.heap, RootSlot, s.root, data, depth, 0)
  }

  /** The key is one for which insert is defined and modelled (see Supported). */
  predicate InsertSupported(s: ArtState, data: seq<Byte>, depth: nat)
    requires HeapOk(s.heap) && (s.root == NULL || s.root in s.heap) && depth <= |data|
  {
    s.root != NULL ==> Supported(s.heap, InsertPosition(s, data, depth), data)
  }

  /**
   * insert with the root slot: an empty tree gets a leaf holding the key;
   * otherwise the loop walks down and makes its one change.
   */
  function InsertResult(s: ArtState, data: seq<Byte>, depth: nat): (r: ArtState)
    requires HeapOk(s.heap) && Fresh(s) && (s.root == NULL || s.root in s.heap) && depth <= |data|
    requires InsertSupported(s, data, depth)
    ensures r.root != NULL && r.root in r.heap
    ensures s.heap.Keys <= r.heap.Keys && s.next <= r.next <= s.next + 2
  {
    if s.root == NULL then Interpose(s, RootSlot, MakeLeafNode(data), None)
    else Terminal(s, InsertPosition(s, data, depth), data)
  }

  /** How far insert advances the stream's `pos`: one per edge followed. */
  function Descents(s: ArtState, data: seq<Byte>, depth: nat): nat
    requires HeapOk(s.heap) && (s.root == NULL || s.root in s.heap) && depth <= |data|
  {
    if s.root == NULL then 0 else InsertPosition(s, data, depth).descents
  }

  /** The node search returns for the key when entered at `depth`. */
  predicate Found(n: Node, data: seq<Byte>, depth: nat)
    requires WfNode(n) && depth <= |data|
    ensures n.flags == Leaf ==> (Found(n, data, depth) <==> n.key == data)
    ensures n.flags != Leaf && Found(n, data, depth) ==> n.prefix[..n.prefixLen] == data[depth..]
  {
    if n.flags == Leaf then LeafMatches(n, data)
    else PrefixMatch(n, data, depth) == n.prefixLen && depth + n.prefixLen == |data|
  }

  /** The slot index of the child insert's loop and search move to from a node that descends. */
  function NextIndex(n: Node, data: seq<Byte>, depth: nat): (i: nat)
    requires WfNode(n) && depth <= |data| && Descends(n, data, depth)
    ensures i < |n.arr| && n.arr[i] == Child(n, data[depth + n.prefixLen]) != NULL
  {
    FindChild(n, data[depth + n.prefixLen]).value
  }

  lemma WalkDescends(h: Heap, slot: Slot, p: Ptr, data: seq<Byte>, depth: nat, k: nat)
    requires HeapOk(h) && p in h && NodeOk(h, p) && depth <= |data| && Descends(h[p], data, depth)
    ensures var i := NextIndex(h[p], data, depth);
      Walk(h, slot, p, data, depth, k) == Walk(h, InArr(p, i), h[p].arr[i], data, depth + h[p].prefixLen + 1, k + 1)
  {
  }

  /** A walk that follows an edge from `p` does so because the loop descends at `p`. */
  lemma WalkLeaves(h: Heap, slot: Slot, p: Ptr, data: seq<Byte>, depth: nat, k: nat)
    requires HeapOk(h) && p in h && depth <= |data| && Walk(h, slot, p, data, depth, k).descents > k
    ensures NodeOk(h, p) && Descends(h[p], data, depth)
  {
  }

  /** From a node that descends, insert's loop and search both go on from the child for the key's next byte. */
  lemma StepFrom(h: Heap, slot: Slot, p: Ptr, data: seq<Byte>, depth: nat, k: nat) returns (i: nat, c: Ptr, d: nat)
    requires HeapOk(h) && p in h && NodeOk(h, p) && depth <= |data| && Descends(h[p], data, depth)
    ensures i == NextIndex(h[p], data, depth)
    ensures i < |h[p].arr| && c == h[p].arr[i] && c != NULL && c in h
    ensures d == depth + h[p].prefixLen + 1 && d <= |data|
    ensures Walk(h, slot, p, data, depth, k) == Walk(h, InArr(p, i), c, data, d, k + 1)
    ensures Search(h, p, data, depth) == Search(h, c, data, d)
  {
    i := NextIndex(h[p], data, depth);
    c := h[p].arr[i];
    d := depth + h[p].prefixLen + 1;
    assert c in h[p].arr;
    WalkDescends(h, slot, p, data, depth, k);
    SearchDescends(h, p, data, depth);
  }

  /** A walk that follows an edge from `p` goes on from the child for the key's next byte. */
  lemma WalkStep(h: Heap, slot: Slot, p: Ptr, data: seq<Byte>, depth: nat, k: nat) returns (i: nat, c: Ptr, d: nat)
    requires HeapOk(h) && p in h && depth <= |data| && Walk(h, slot, p, data, depth, k).descents > k
    ensures NodeOk(h, p) && Descends(h[p], data, depth) && i == NextIndex(h[p], data, depth)
    ensures i < |h[p].arr| && c == h[p].arr[i] && c != NULL && c in h
    ensures d == depth + h[p].prefixLen + 1 && d <= |data|
    ensures Walk(h, slot, p, data, depth, k) == Walk(h, InArr(p, i), c, data, d, k + 1)
    ensures Walk(h, slot, p, data, depth, k).descents == k + 1 ==>
      Walk(h, slot, p, data, depth, k) == Position(InArr(p, i), c, d, k + 1)
  {
    WalkLeaves(h, slot, p, data, depth, k);
    i, c, d := StepFrom(h, slot, p, data, depth, k);
  }

  /** At a node that does not descend, insert's loop stops. */
  lemma WalkStops(h: Heap, slot: Slot, p: Ptr, data: seq<Byte>, depth: nat, k: nat)
    requires HeapOk(h) && p in h && NodeOk(h, p) && depth <= |data| && !Descends(h[p], data, depth)
    ensures Walk(h, slot, p, data, depth, k) == Position(slot, p, depth, k)
  {
  }

  lemma SearchDescends(h: Heap, p: Ptr, data: seq<Byte>, depth: nat)
    requires HeapOk(h) && p in h && NodeOk(h, p) && depth <= |data| && Descends(h[p], data, depth)
    ensures Search(h, p, data, depth) == Search(h, h[p].arr[NextIndex(h[p], data, depth)], data, depth + h[p].prefixLen + 1)
  {
  }

  /** Where insert's loop stops, search returns the node it stops at or NULL. */
  lemma SearchAtStop(h: Heap, p: Ptr, data: seq<Byte>, depth: nat)
    requires HeapOk(h) && p in h && NodeOk(h, p) && depth <= |data| && !Descends(h[p], data, depth)
    ensures Search(h, p, data, depth) == if Found(h[p], data, depth) then p else NULL
  {
  }

  /** search and insert's loop take the same path: a node search finds is where the loop stops. */
  lemma {:induction false} SearchEndsWalk(h: Heap, slot: Slot, p: Ptr, data: seq<Byte>, depth: nat, k: nat)
    requires HeapOk(h) && p in h && depth <= |data|
    requires Search(h, p, data, depth) != NULL
    ensures Walk(h, slot, p, data, depth, k).node == Search(h, p, data, depth)
    ensures NodeOk(h, Search(h, p, data, depth))
    ensures Found(h[Search(h, p, data, depth)], data, Walk(h, slot, p, data, depth, k).depth)
    decreases |data| - depth
  {
    assert NodeOk(h, p);
    if Descends(h[p], data, depth) {
      var i, c, d := StepFrom(h, slot, p, data, depth, k);
      SearchEndsWalk(h, InArr(p, i), c, data, d, k + 1);
    } else {
      WalkStops(h, slot, p, data, depth, k);
      SearchAtStop(h, p, data, depth);
    }
  }

  /**
   * Inserting a key that search already finds changes nothing but the
   * found node's count: no node is allocated and the root stays.
   */
  lemma ReinsertOnlyCounts(s: ArtState, data: seq<Byte>, depth: nat)
    requires HeapOk(s.heap) && Fresh(s) && (s.root == NULL || s.root in s.heap) && depth <= |data|
    requires Search(s.heap, s.root, data, depth) != NULL
    ensures InsertSupported(s, data, depth)
    ensures InsertResult(s, data, depth) == Bump(s, Search(s.heap, s.root, data, depth))
  {
    SearchEndsWalk(s.heap, RootSlot, s.root, data, depth, 0);
  }

  /** Bumping a count keeps every node well formed and in the arena. */
  lemma BumpHeapOk(s: ArtState, x: Ptr)
    requires HeapOk(s.heap) && x in s.heap
    ensures HeapOk(Bump(s, x).heap)
  {
    var h' := Bump(s, x).heap;
    forall p | p in h' ensures NodeOk(h', p)
    {
      assert NodeOk(s.heap, p);
      assert h'[p].arr == s.heap[p].arr;
    }
  }

  /** What search and insert's loop read of a node does not include its count. */
  lemma CountBlind(n: Node, c: nat, data: seq<Byte>, depth: nat)
    requires WfNode(n) && depth <= |data|
    ensures WfNode(n.(count := c))
    ensures Descends(n.(count := c), data, depth) == Descends(n, data, depth)
    ensures Found(n.(count := c), data, depth) == Found(n, data, depth)
    ensures Descends(n, data, depth) ==> NextIndex(n.(count := c), data, depth) == NextIndex(n, data, depth)
  {
    var n' := n.(count := c);
    if n.flags != Leaf {
      assert PrefixMatch(n', data, depth) == PrefixMatch(n, data, depth);
      if depth + n.prefixLen < |data| {
        assert FindChild(n', data[depth + n.prefixLen]) == FindChild(n, data[depth + n.prefixLen]);
      }
    }
  }

  /** search reads no count: changing one leaves what it returns unchanged. */
  lemma {:induction false} SearchIgnoresCount(h: Heap, x: Ptr, c: nat, p: Ptr, data: seq<Byte>, depth: nat)
    requires HeapOk(h) && x in h && HeapOk(h[x := h[x].(count := c)])
    requires (p == NULL || p in h) && depth <= |data|
    ensures Search(h[x := h[x].(count := c)], p, data, depth) == Search(h, p, data, depth)
    decreases |data| - depth
  {
    var h' := h[x := h[x].(count := c)];
    if p != NULL {
      var n, n' := h[p], h'[p];
      assert NodeOk(h, p) && NodeOk(h', p);
      CountBlind(n, n'.count, data, depth);
      assert n' == n.(count := n'.count);
      if Descends(n, data, depth) {
        SearchDescends(h, p, data, depth);
        SearchDescends(h', p, data, depth);
        var i, d := NextIndex(n, data, depth), depth + n.prefixLen + 1;
        assert Search(h, p, data, depth) == Search(h, n.arr[i], data, d);
        assert NextIndex(n', data, depth) == i && n'.prefixLen == n.prefixLen && n'.arr[i] == n.arr[i];
        assert Search(h', p, data, depth) == Search(h', n.arr[i], data, d);
        assert n.arr[i] in n.arr;
        SearchIgnoresCount(h, x, c, n.arr[i], data, d);
      } else {
        SearchAtStop(h, p, data, depth);
        SearchAtStop(h', p, data, depth);
        assert Found(n', data, depth) == Found(n, data, depth);
      }
    }
  }

  /**
   * After a re-insert, search still finds the same node, now with its count
   * one higher, so the next insert of the key bumps it again.
   */
  lemma ReinsertAgain(s: ArtState, data: seq<Byte>, depth: nat)
    requires HeapOk(s.heap) && Fresh(s) && (s.root == NULL || s.root in s.heap) && depth <= |data|
    requires Search(s.heap, s.root, data, depth) != NULL
    ensures InsertSupported(s, data, depth)
    ensures var x, r := Search(s.heap, s.root, data, depth), InsertResult(s, data, depth);
      HeapOk(r.heap) && Fresh(r) && r.root == s.root && r.next == s.next && r.heap.Keys == s.heap.Keys &&
      Search(r.heap, r.root, data, depth) == x && r.heap[x] == s.heap[x].(count := s.heap[x].count + 1) &&
      forall q :: q in s.heap && q != x ==> r.heap[q] == s.heap[q]
  {
    ReinsertOnlyCounts(s, data, depth);
    BumpFinds(s, data, depth);
  }

  /** A bumped count leaves every node in place, and search finds the same node. */
  lemma BumpFinds(s: ArtState, data: seq<Byte>, depth: nat)
    requires HeapOk(s.heap) && Fresh(s) && (s.root == NULL || s.root in s.heap) && depth <= |data|
    requires Search(s.heap, s.root, data, depth) != NULL
    ensures var x := Search(s.heap, s.root, data, depth); var r := Bump(s, x);
      HeapOk(r.heap) && Fresh(r) && r.root == s.root && r.next == s.next && r.heap.Keys == s.heap.Keys &&
      Search(r.heap, r.root, data, depth) == x && r.heap[x] == s.heap[x].(count := s.heap[x].count + 1) &&
      forall q :: q in s.heap && q != x ==> r.heap[q] == s.heap[q]
  {
    var x := Search(s.heap, s.root, data, depth);
    BumpHeapOk(s, x);
    SearchIgnoresCount(s.heap, x, s.heap[x].count + 1, s.root, data, depth);
  }

  /**
   * `n` more inserts of a key that search already finds: the arena keeps
   * its addresses and its root, search still finds the same node, whose
   * count has grown by exactly `n`, and no other node changes.
   */
  function Reinserts(s: ArtState, data: seq<Byte>, depth: nat, n: nat): (r: ArtState)
    requires HeapOk(s.heap) && Fresh(s) && (s.root == NULL || s.root in s.heap) && depth <= |data|
    requires Search(s.heap, s.root, data, depth) != NULL
    ensures HeapOk(r.heap) && Fresh(r) && r.root == s.root && r.next == s.next && r.heap.Keys == s.heap.Keys
    ensures Search(r.heap, r.root, data, depth) == Search(s.heap, s.root, data, depth)
    ensures var x := Search(s.heap, s.root, data, depth); r.heap[x] == s.heap[x].(count := s.heap[x].count + n)
    ensures forall q :: q in s.heap && q != Search(s.heap, s.root, data, depth) ==> r.heap[q] == s.heap[q]
    decreases n
  {
    if n == 0 then s
    else
      ReinsertAgain(s, data, depth);
      Reinserts(InsertResult(s, data, depth), data, depth, n - 1)
  }

  /**
   * A key inserted `n + 1` times into an empty tree is held by a leaf at the
   * root that search finds, with count `n`: the first insert creates it
   * with count 0 and every later one adds one.
   */
  lemma RepeatedInsertCount(data: seq<Byte>, n: nat)
    ensures var s1 := InsertResult(ArtState(map[], NULL, 1), data, 0);
      HeapOk(s1.heap) && Fresh(s1) && s1.root in s1.heap &&
      Search(s1.heap, s1.root, data, 0) == s1.root &&
      var r := Reinserts(s1, data, 0, n);
      r.heap.Keys == {s1.root} && r.heap[r.root].flags == Leaf && r.heap[r.root].count == n
  {
    var s1 := InsertResult(ArtState(map[], NULL, 1), data, 0);
    assert s1 == ArtState(map[1 := MakeLeafNode(data)], 1, 2);
    assert NodeOk(s1.heap, 1);
    assert Search(s1.heap, s1.root, data, 0) == 1;
  }
}
