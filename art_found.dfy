/**
 * search finds a key right after insert stores it: search follows the path
 * insert's loop took, and the one change at the end of that path leaves a
 * node that search returns for the key.
 */
module ArtFound {
  import opened Options
  import opened Bytes
  import opened ArtNode
  import opened ArtSpec
  import opened ArtValid

  /** Ranks grow along the path insert's loop follows, up to the slot's owner and the node it stops at. */
  lemma {:induction false} WalkRanks(h: Heap, lv: map<Ptr, real>, slot: Slot, p: Ptr, data: seq<Byte>, depth: nat, k: nat)
    requires HeapOk(h) && Ranked(h, lv) && p in h && depth <= |data|
    ensures var pos := Walk(h, slot, p, data, depth, k);
      pos.descents > k ==> lv[p] <= lv[pos.slot.parent] < lv[pos.node]
    decreases |data| - depth
  {
    var pos := Walk(h, slot, p, data, depth, k);
    if pos.descents > k {
      var i, c, d := WalkStep(h, slot, p, data, depth, k);
      assert RankedAt(lv, p, h[p]) && c in h[p].arr;
      WalkRanks(h, lv, InArr(p, i), c, data, d, k + 1);
    }
  }

  /** Equal keys and shape give equal child lookup, whatever the `arr` entries hold. */
  lemma FindChildKeys(n: Node, n': Node, b: Byte)
    requires WfNode(n) && WfNode(n') && n.flags != Leaf
    requires n'.flags == n.flags && n'.key == n.key && n'.keyLen == n.keyLen
    ensures FindChild(n', b) == FindChild(n, b)
  {
  }

  /** One step of search through the owner whose entry `i` on the path now holds `t`. */
  lemma SearchThroughOwner(h: Heap, h': Heap, o: Ptr, i: nat, data: seq<Byte>, depth: nat, d: nat, t: Ptr)
    requires HeapOk(h) && HeapOk(h') && o in h && NodeOk(h, o) && o in h' && NodeOk(h', o)
    requires depth <= |data| && Descends(h[o], data, depth)
    requires i == NextIndex(h[o], data, depth) && d == depth + h[o].prefixLen + 1
    requires h'[o] == h[o].(arr := h[o].arr[i := t])
    requires t == NULL || t in h'
    ensures Search(h', o, data, depth) == Search(h', t, data, d)
  {
    OwnerEntry(h[o], h'[o], data, depth, t);
    SearchStep(h', o, data, depth);
  }

  /** The owner with its entry on the path replaced matches as before and leads to `t`. */
  lemma OwnerEntry(n: Node, n': Node, data: seq<Byte>, depth: nat, t: Ptr)
    requires WfNode(n) && WfNode(n') && depth <= |data| && Descends(n, data, depth)
    requires n' == n.(arr := n.arr[NextIndex(n, data, depth) := t])
    ensures n'.flags != Leaf && n'.prefixLen == n.prefixLen
    ensures PrefixMatch(n', data, depth) == n.prefixLen && depth + n.prefixLen < |data|
    ensures Child(n', data[depth + n.prefixLen]) == t
  {
    FindChildKeys(n, n', data[depth + n.prefixLen]);
  }

  /** search moves from an inner node whose whole prefix matches to its child for the next byte. */
  lemma SearchStep(h: Heap, p: Ptr, data: seq<Byte>, depth: nat)
    requires HeapOk(h) && p in h && NodeOk(h, p) && depth <= |data| && h[p].flags != Leaf
    requires PrefixMatch(h[p], data, depth) == h[p].prefixLen && depth + h[p].prefixLen < |data|
    ensures Search(h, p, data, depth) ==
      Search(h, Child(h[p], data[depth + h[p].prefixLen]), data, depth + h[p].prefixLen + 1)
  {
  }

  /** One step of search through a node on the path that the change did not touch. */
  lemma SearchThroughSame(h: Heap, h': Heap, x: Ptr, data: seq<Byte>, depth: nat)
    requires HeapOk(h) && HeapOk(h') && x in h && NodeOk(h, x) && x in h' && NodeOk(h', x) && h'[x] == h[x]
    requires depth <= |data| && Descends(h[x], data, depth)
    ensures var i := NextIndex(h[x], data, depth);
      Search(h', x, data, depth) == Search(h', h[x].arr[i], data, depth + h[x].prefixLen + 1)
  {
    SearchDescends(h', x, data, depth);
  }

  /**
   * The change below the stop node `pos`: nodes ranked below it, other than
   * the slot's owner, are untouched, and the owner's entry on the path now
   * holds `t`.
   */
  predicate ChangedBelow(h: Heap, h': Heap, lv: map<Ptr, real>, pos: Position, t: Ptr)
  {
    pos.slot.InArr? && pos.node in lv && pos.slot.parent in h && pos.slot.parent in h' &&
    pos.slot.index < |h[pos.slot.parent].arr| &&
    h'[pos.slot.parent] == h[pos.slot.parent].(arr := h[pos.slot.parent].arr[pos.slot.index := t]) &&
    (forall x :: x in h && x in lv && lv[x] < lv[pos.node] && x != pos.slot.parent ==> x in h' && h'[x] == h[x])
  }

  /**
   * search in the changed arena follows the old path: search from an
   * ancestor of the stop node `pos` is search from `t`, the owner's new
   * entry, at the depth where the loop stopped.
   */
  lemma {:induction false} SearchFollowsWalk(h: Heap, h': Heap, lv: map<Ptr, real>, slot: Slot, p: Ptr,
                                             data: seq<Byte>, depth: nat, k: nat, t: Ptr, pos: Position)
    requires HeapOk(h) && HeapOk(h') && Ranked(h, lv) && p in h && p in h' && depth <= |data|
    requires pos == Walk(h, slot, p, data, depth, k) && pos.descents > k
    requires ChangedBelow(h, h', lv, pos, t) && (t == NULL || t in h')
    ensures Search(h', p, data, depth) == Search(h', t, data, pos.depth)
    decreases |data| - depth
  {
    var i, c, d := WalkStep(h, slot, p, data, depth, k);
    if pos.descents == k + 1 {
      SearchThroughOwner(h, h', p, i, data, depth, d, t);
    } else {
      InnerEdge(h, h', lv, p, i, c, data, depth, d, k, t, pos);
      SearchFollowsWalk(h, h', lv, InArr(p, i), c, data, d, k + 1, t, pos);
    }
  }

  /** An edge above the owner leaves a node the change did not touch, for a child it did not touch either. */
  lemma InnerEdge(h: Heap, h': Heap, lv: map<Ptr, real>, p: Ptr, i: nat, c: Ptr,
                  data: seq<Byte>, depth: nat, d: nat, k: nat, t: Ptr, pos: Position)
    requires HeapOk(h) && HeapOk(h') && Ranked(h, lv) && p in h && NodeOk(h, p) && p in h' && depth <= |data|
    requires Descends(h[p], data, depth) && i == NextIndex(h[p], data, depth)
    requires i < |h[p].arr| && c == h[p].arr[i] && c != NULL && c in h
    requires d == depth + h[p].prefixLen + 1 && d <= |data|
    requires pos == Walk(h, InArr(p, i), c, data, d, k + 1) && pos.descents > k + 1
    requires ChangedBelow(h, h', lv, pos, t)
    ensures c in h' && Search(h', p, data, depth) == Search(h', c, data, d)
  {
    WalkRanks(h, lv, InArr(p, i), c, data, d, k + 1);
    FollowStep(h, h', lv, p, i, pos, t);
    SearchThroughSame(h, h', p, data, depth);
  }

  /** A node ranked below the owner on the path is one the change left alone, and so is its child. */
  lemma FollowStep(h: Heap, h': Heap, lv: map<Ptr, real>, p: Ptr, i: nat, pos: Position, t: Ptr)
    requires HeapOk(h) && Ranked(h, lv) && p in h && i < |h[p].arr| && h[p].arr[i] != NULL
    requires ChangedBelow(h, h', lv, pos, t) && pos.node in h && h[pos.slot.parent].arr[pos.slot.index] == pos.node
    requires h[p].arr[i] in lv && lv[h[p].arr[i]] <= lv[pos.slot.parent]
    ensures h[p].arr[i] in h' && p in h' && h'[p] == h[p]
  {
    assert NodeOk(h, p);
    assert RankedAt(lv, p, h[p]) && h[p].arr[i] in h[p].arr;
    var o := pos.slot.parent;
    assert RankedAt(lv, o, h[o]) && pos.node in h[o].arr;
  }

  /** A prefix that agrees with the key on its whole length is matched in full. */
  lemma PrefixMatchFull(n: Node, data: seq<Byte>, depth: nat)
    requires WfNode(n) && depth + n.prefixLen <= |data|
    requires n.prefix[..n.prefixLen] == data[depth..depth + n.prefixLen]
    ensures PrefixMatch(n, data, depth) == n.prefixLen
  {
  }

  /** search returns a leaf whose whole key is the key. */
  lemma SearchAtLeaf(h: Heap, x: Ptr, data: seq<Byte>, depth: nat)
    requires HeapOk(h) && x in h && depth <= |data| && h[x].flags == Leaf && h[x].key == data
    ensures Search(h, x, data, depth) == x
  {
    assert NodeOk(h, x);
  }

  /** search returns an inner node when the key ends right after its prefix. */
  lemma SearchAtInner(h: Heap, x: Ptr, data: seq<Byte>, depth: nat)
    requires HeapOk(h) && x in h && NodeOk(h, x) && h[x].flags != Leaf && depth + h[x].prefixLen == |data|
    requires h[x].prefix[..h[x].prefixLen] == data[depth..depth + h[x].prefixLen]
    ensures Search(h, x, data, depth) == x
  {
    PrefixMatchFull(h[x], data, depth);
  }

  /** search goes from an inner node whose prefix matches to the leaf for the key. */
  lemma SearchToLeaf(h: Heap, x: Ptr, l: Ptr, data: seq<Byte>, depth: nat)
    requires HeapOk(h) && x in h && NodeOk(h, x) && h[x].flags != Leaf && depth + h[x].prefixLen < |data|
    requires h[x].prefix[..h[x].prefixLen] == data[depth..depth + h[x].prefixLen]
    requires Child(h[x], data[depth + h[x].prefixLen]) == l && l in h
    requires h[l].flags == Leaf && h[l].key == data
    ensures Search(h, x, data, depth) == l
  {
    PrefixMatchFull(h[x], data, depth);
    SearchAtLeaf(h, l, data, depth + h[x].prefixLen + 1);
  }

  /**
   * `r` agrees with `s` on every node but `p` and the slot's owner; the
   * owner differs only in the slot's entry, which holds `t`, and so does
   * the root variable when the slot is the root.
   */
  predicate RewiredAt(s: ArtState, r: ArtState, slot: Slot, p: Ptr, t: Ptr)
    requires SlotOk(s, slot)
  {
    (forall x :: x in s.heap && x != p && x !in Owners(slot) ==> x in r.heap && r.heap[x] == s.heap[x]) &&
    (slot.InArr? ==>
       slot.parent in r.heap && r.root == s.root &&
       r.heap[slot.parent] == s.heap[slot.parent].(arr := s.heap[slot.parent].arr[slot.index := t])) &&
    (slot.RootSlot? ==> r.root == t)
  }

  /**
   * An assumption about insert's stopping point, taken as a hypothesis and
   * not proved of the trees insert builds: a leaf reached at `depth` shares
   * the key's first `depth` bytes, and a full node about to be grown for the
   * key has no prefix (grow does not copy the prefix).
   */
  predicate Faithful(s: ArtState, data: seq<Byte>, depth: nat)
    requires HeapOk(s.heap) && (s.root == NULL || s.root in s.heap) && depth <= |data|
  {
    s.root != NULL ==>
      var pos := InsertPosition(s, data, depth);
      var n := s.heap[pos.node];
      (n.flags == Leaf ==> pos.depth <= |n.key| && n.key[..pos.depth] == data[..pos.depth]) &&
      (n.flags != Leaf && IsFull(n) && PrefixMatch(n, data, pos.depth) == n.prefixLen &&
         pos.depth + n.prefixLen < |data|
       ==> n.prefixLen == 0)
  }

  /** Interpose rewires only the slot. */
  lemma InterposeRewired(s: ArtState, slot: Slot, p: Ptr, n: Node, leaf: Option<Node>)
    requires Fresh(s) && SlotOk(s, slot)
    ensures var r := Interpose(s, slot, n, leaf);
      s.next in r.heap && r.heap[s.next] == n && (leaf.Some? ==> s.next + 1 in r.heap && r.heap[s.next + 1] == leaf.value) &&
      RewiredAt(s, r, slot, p, s.next)
  {
    InterposeNodes(s, slot, n, leaf);
  }

  /**
   * search from a split node: its prefix is the key's bytes from `depth` to
   * `j`, and unless the key ends there its child over the key's byte `j`
   * is a leaf holding the key.
   */
  lemma SplitNodeFinds(h: Heap, q: Ptr, l: Ptr, data: seq<Byte>, depth: nat, j: nat)
    requires HeapOk(h) && LeadsToKey(h, q, l, data, depth, j)
    ensures Search(h, q, data, depth) != NULL
  {
    if j == |data| {
      SearchAtInner(h, q, data, depth);
    } else {
      SearchToLeaf(h, q, l, data, depth);
    }
  }

  /**
   * The node a split or a grow puts in the slot, as search sees it: the
   * key's bytes from `depth` up to `j` form its prefix, and unless the key
   * ends there its child over the key's byte `j` is `l`.
   */
  predicate NodeLeads(n: Node, l: Ptr, data: seq<Byte>, depth: nat, j: nat)
  {
    WfNode(n) && n.flags != Leaf && depth <= j <= |data| &&
    n.prefixLen == j - depth && n.prefix[..j - depth] == data[depth..j] &&
    (j < |data| ==> Child(n, data[j]) == l)
  }

  /** The same in the arena, with `l` a leaf holding the key. */
  predicate LeadsToKey(h: Heap, q: Ptr, l: Ptr, data: seq<Byte>, depth: nat, j: nat)
  {
    q in h && NodeLeads(h[q], l, data, depth, j) &&
    (j < |data| ==> l in h && h[l].flags == Leaf && h[l].key == data)
  }

  /**
   * A change that rewired only the slot, to a node from which search
   * reaches the key, is one after which search finds the key through the
   * slot.
   */
  lemma FoundVia(s: ArtState, r: ArtState, slot: Slot, p: Ptr, t: Ptr, l: Ptr, data: seq<Byte>, depth: nat, j: nat)
    requires SlotOk(s, slot) && HeapOk(r.heap)
    requires RewiredAt(s, r, slot, p, t) && LeadsToKey(r.heap, t, l, data, depth, j)
    ensures exists t :: RewiredAt(s, r, slot, p, t) && t in r.heap && Search(r.heap, t, data, depth) != NULL
  {
    SplitNodeFinds(r.heap, t, l, data, depth, j);
  }

  /** The node of a leaf split leads to the new leaf. */
  lemma LeafSplitLeads(n: Node, p: Ptr, data: seq<Byte>, depth: nat, l: Ptr)
    requires WfNode(n) && n.flags == Leaf && depth <= n.keyLen && depth <= |data|
    requires MatchEnd(n, data, depth) - depth <= PREFIX_SIZE && p != NULL && l != NULL
    ensures NodeLeads(LeafSplitNode(n, p, data, depth, l), l, data, depth, MatchEnd(n, data, depth))
  {
    LeafSplitShape(n, p, data, depth, l);
  }

  /** The node of a prefix-mismatch split leads to the new leaf. */
  lemma MismatchLeads(n: Node, p: Ptr, data: seq<Byte>, depth: nat, m: nat, l: Ptr)
    requires SplitsAt(n, data, depth, m)
    requires p != NULL && l != NULL && p != l
    ensures NodeLeads(MismatchNode(n, p, data, depth, m, l), l, data, depth, depth + m)
  {
    MismatchShape(n, p, data, depth, m, l);
  }

  /** A grown node has no prefix, so after the add it leads over the key's byte `d` to the new leaf. */
  lemma GrowAddLeads(n: Node, data: seq<Byte>, d: nat, l: Ptr)
    requires WfNode(n) && n.flags != Leaf && IsFull(n) && d < |data|
    requires Child(n, data[d]) == NULL && l != NULL
    ensures NodeLeads(AddChildNode(GrowNode(n), data[d], l), l, data, d, d)
  {
  }

  /**
   * Interpose with a node that leads to the next address, and a leaf for
   * the key there unless the key ends at `j`, leaves the node leading to the
   * key.
   */
  lemma InterposeLeads(s: ArtState, slot: Slot, n: Node, leaf: Option<Node>, data: seq<Byte>, depth: nat, j: nat)
    requires Fresh(s) && SlotOk(s, slot) && NodeLeads(n, s.next + 1, data, depth, j)
    requires leaf == if j < |data| then Some(MakeLeafNode(data)) else None
    ensures LeadsToKey(Interpose(s, slot, n, leaf).heap, s.next, s.next + 1, data, depth, j)
  {
    InterposeNodes(s, slot, n, leaf);
  }

  /** Search from the interposed node reaches the key. */
  lemma InterposeFinds(s: ArtState, slot: Slot, n: Node, leaf: Option<Node>, r: ArtState,
                       data: seq<Byte>, depth: nat, j: nat)
    requires Fresh(s) && SlotOk(s, slot) && NodeLeads(n, s.next + 1, data, depth, j)
    requires leaf == if j < |data| then Some(MakeLeafNode(data)) else None
    requires r == Interpose(s, slot, n, leaf) && HeapOk(r.heap)
    ensures s.next in r.heap && Search(r.heap, s.next, data, depth) != NULL
  {
    InterposeLeads(s, slot, n, leaf, data, depth, j);
    SplitNodeFinds(r.heap, s.next, s.next + 1, data, depth, j);
  }

  /** A leaf split rewires only the leaf's slot, to the new node. */
  lemma LeafSplitRewired(s: ArtState, slot: Slot, p: Ptr, data: seq<Byte>, depth: nat)
    requires StepOk(s, slot, p) && s.heap[p].flags == Leaf && depth <= |data|
    requires Supported(s.heap, Position(slot, p, depth, 0), data)
    requires var j := MatchEnd(s.heap[p], data, depth); !(j == |data| && j == s.heap[p].keyLen)
    ensures RewiredAt(s, DoLeafResult(s, slot, p, data, depth), slot, p, s.next)
  {
    var n := s.heap[p];
    DoLeafSplits(s, slot, p, data, depth);
    InterposeRewired(s, slot, p, LeafSplitNode(n, p, data, depth, s.next + 1),
                     if MatchEnd(n, data, depth) < |data| then Some(MakeLeafNode(data)) else None);
  }

  /** A leaf split leaves in the slot a node from which search reaches the key. */
  lemma LeafSplitLeaves(s: ArtState, slot: Slot, p: Ptr, data: seq<Byte>, depth: nat)
    requires StepOk(s, slot, p) && s.heap[p].flags == Leaf && depth <= |data|
    requires Supported(s.heap, Position(slot, p, depth, 0), data)
    requires var j := MatchEnd(s.heap[p], data, depth); !(j == |data| && j == s.heap[p].keyLen)
    ensures LeadsToKey(DoLeafResult(s, slot, p, data, depth).heap, s.next, s.next + 1, data, depth,
                       MatchEnd(s.heap[p], data, depth))
  {
    var n := s.heap[p];
    DoLeafSplits(s, slot, p, data, depth);
    LeafSplitLeads(n, p, data, depth, s.next + 1);
    InterposeLeads(s, slot, LeafSplitNode(n, p, data, depth, s.next + 1),
                   if MatchEnd(n, data, depth) < |data| then Some(MakeLeafNode(data)) else None,
                   data, depth, MatchEnd(n, data, depth));
  }

  /** A leaf whose key agrees with the key before `depth` and from `depth` to its end holds the key. */
  lemma LeafKeyIs(n: Node, data: seq<Byte>, depth: nat)
    requires WfNode(n) && n.flags == Leaf && depth <= n.keyLen && depth <= |data|
    requires n.key[..depth] == data[..depth]
    requires MatchEnd(n, data, depth) == |data| == n.keyLen
    ensures n.key == data
  {
    var j := MatchEnd(n, data, depth);
    assert n.key[depth..j] == data[depth..j];
    forall i | 0 <= i < |data| ensures n.key[i] == data[i] {
      if i < depth {
        assert n.key[..depth][i] == data[..depth][i];
      } else {
        assert n.key[depth..j][i - depth] == data[depth..j][i - depth];
      }
    }
  }

  /** Counting a key again rewires nothing. */
  lemma BumpRewired(s: ArtState, slot: Slot, p: Ptr)
    requires SlotOk(s, slot) && p in s.heap && SlotValue(s, slot) == p
    requires slot.InArr? ==> slot.parent != p
    ensures RewiredAt(s, Bump(s, p), slot, p, p)
  {
    if slot.InArr? {
      var o := s.heap[slot.parent];
      assert o.arr[slot.index := p] == o.arr;
    }
  }

  /** Rewiring after a change to `p` alone is rewiring of the state before it. */
  lemma RewiredFromSetNode(s: ArtState, p: Ptr, x: Node, r: ArtState, slot: Slot, t: Ptr)
    requires SlotOk(s, slot) && p in s.heap && (slot.InArr? ==> slot.parent != p)
    requires RewiredAt(SetNode(s, p, x), r, slot, p, t)
    ensures RewiredAt(s, r, slot, p, t)
  {
  }

  /**
   * `r` is a change `x` to node `p` followed by Interpose of a node `q` that
   * leads, through the new leaf, to the key's bytes from `depth` up to `j`.
   */
  predicate SetInterposed(s: ArtState, p: Ptr, x: Node, slot: Slot, q: Node, r: ArtState,
                          data: seq<Byte>, depth: nat, j: nat)
  {
    SlotOk(s, slot) && p in s.heap && (slot.InArr? ==> slot.parent != p) &&
    Fresh(SetNode(s, p, x)) && SlotOk(SetNode(s, p, x), slot) &&
    NodeLeads(q, s.next + 1, data, depth, j) && j < |data| &&
    r == Interpose(SetNode(s, p, x), slot, q, Some(MakeLeafNode(data)))
  }

  /** Such a change rewires only the slot, to the interposed node, which leads to the key. */
  lemma SetInterposeLeads(s: ArtState, p: Ptr, x: Node, slot: Slot, q: Node, r: ArtState,
                          data: seq<Byte>, depth: nat, j: nat)
    requires SetInterposed(s, p, x, slot, q, r, data, depth, j)
    ensures RewiredAt(s, r, slot, p, s.next) && LeadsToKey(r.heap, s.next, s.next + 1, data, depth, j)
  {
    var leaf := Some(MakeLeafNode(data));
    InterposeRewired(SetNode(s, p, x), slot, p, q, leaf);
    RewiredFromSetNode(s, p, x, r, slot, s.next);
    InterposeLeads(SetNode(s, p, x), slot, q, leaf, data, depth, j);
  }

  /** Growing then adding rewires only the slot, to the grown node. */
  lemma GrowAddRewired(s: ArtState, slot: Slot, p: Ptr, data: seq<Byte>, d: nat)
    requires StepOk(s, slot, p) && s.heap[p].flags != Leaf && d < |data|
    requires Child(s.heap[p], data[d]) == NULL && IsFull(s.heap[p])
    ensures RewiredAt(s, AddResult(s, slot, p, data, d), slot, p, s.next)
  {
    var n := s.heap[p];
    AddUnfolds(s, slot, p, data, d);
    InterposeRewired(s, slot, p, AddChildNode(GrowNode(n), data[d], s.next + 1), Some(MakeLeafNode(data)));
  }

  /** The grown node, with no prefix, leads over the key's byte `d` to the new leaf. */
  lemma GrowAddLeaves(s: ArtState, slot: Slot, p: Ptr, data: seq<Byte>, d: nat)
    requires StepOk(s, slot, p) && s.heap[p].flags != Leaf && d < |data|
    requires Child(s.heap[p], data[d]) == NULL && IsFull(s.heap[p])
    ensures LeadsToKey(AddResult(s, slot, p, data, d).heap, s.next, s.next + 1, data, d, d)
  {
    var n := s.heap[p];
    AddUnfolds(s, slot, p, data, d);
    GrowAddLeads(n, data, d, s.next + 1);
    InterposeLeads(s, slot, AddChildNode(GrowNode(n), data[d], s.next + 1), Some(MakeLeafNode(data)), data, d, d);
  }

  /** Adding to a node with room rewires nothing. */
  lemma AddRewired(s: ArtState, slot: Slot, p: Ptr, data: seq<Byte>, d: nat)
    requires StepOk(s, slot, p) && s.heap[p].flags != Leaf && d < |data|
    requires Child(s.heap[p], data[d]) == NULL && !IsFull(s.heap[p])
    requires SlotValue(s, slot) == p && (slot.InArr? ==> slot.parent != p)
    ensures RewiredAt(s, AddResult(s, slot, p, data, d), slot, p, p)
  {
    AddUnfolds(s, slot, p, data, d);
    if slot.InArr? {
      var o := s.heap[slot.parent];
      assert o.arr[slot.index := p] == o.arr;
    }
  }

  /** The node with room now leads over the key's byte `d` to the new leaf. */
  lemma AddLeaves(s: ArtState, slot: Slot, p: Ptr, data: seq<Byte>, depth: nat)
    requires StepOk(s, slot, p) && s.heap[p].flags != Leaf && depth <= |data|
    requires PrefixMatch(s.heap[p], data, depth) == s.heap[p].prefixLen
    requires depth + s.heap[p].prefixLen < |data|
    requires Child(s.heap[p], data[depth + s.heap[p].prefixLen]) == NULL && !IsFull(s.heap[p])
    ensures var d := depth + s.heap[p].prefixLen;
      LeadsToKey(AddResult(s, slot, p, data, d).heap, p, s.next, data, depth, d)
  {
    AddUnfolds(s, slot, p, data, depth + s.heap[p].prefixLen);
  }

  /** do_leaf leaves in the slot a node from which search reaches the key. */
  lemma DoLeafFound(s: ArtState, slot: Slot, p: Ptr, data: seq<Byte>, depth: nat)
    requires StepOk(s, slot, p) && s.heap[p].flags == Leaf && depth <= |data|
    requires Supported(s.heap, Position(slot, p, depth, 0), data)
    requires SlotValue(s, slot) == p && (slot.InArr? ==> slot.parent != p)
    requires s.heap[p].key[..depth] == data[..depth]
    requires HeapOk(DoLeafResult(s, slot, p, data, depth).heap)
    ensures var r := DoLeafResult(s, slot, p, data, depth);
      exists t :: RewiredAt(s, r, slot, p, t) && t in r.heap && Search(r.heap, t, data, depth) != NULL
  {
    var n := s.heap[p];
    var j := MatchEnd(n, data, depth);
    var r := DoLeafResult(s, slot, p, data, depth);
    if j == |data| && j == n.keyLen {
      BumpRewired(s, slot, p);
      LeafKeyIs(n, data, depth);
      SearchAtLeaf(r.heap, p, data, depth);
      assert RewiredAt(s, r, slot, p, p);
    } else {
      LeafSplitRewired(s, slot, p, data, depth);
      LeafSplitLeaves(s, slot, p, data, depth);
      FoundVia(s, r, slot, p, s.next, s.next + 1, data, depth, j);
    }
  }

  /** The prefix-mismatch split rewires only the slot, to a node that leads to the key. */
  lemma SplitLeads(s: ArtState, slot: Slot, p: Ptr, data: seq<Byte>, depth: nat, m: nat, r: ArtState)
    requires StepOk(s, slot, p) && SplitsAt(s.heap[p], data, depth, m)
    requires slot.InArr? ==> slot.parent != p
    requires r == SplitResult(s, slot, p, data, depth, m)
    ensures RewiredAt(s, r, slot, p, s.next) && LeadsToKey(r.heap, s.next, s.next + 1, data, depth, depth + m)
  {
    var n := s.heap[p];
    MismatchLeads(n, p, data, depth, m, s.next + 1);
    SetInterposeLeads(s, p, ShiftPrefix(n, m), slot, MismatchNode(n, p, data, depth, m, s.next + 1), r, data, depth, depth + m);
  }

  /** The prefix-mismatch split leaves in the slot a node from which search reaches the key. */
  lemma SplitFound(s: ArtState, slot: Slot, p: Ptr, data: seq<Byte>, depth: nat, m: nat, r: ArtState)
    requires StepOk(s, slot, p) && SplitsAt(s.heap[p], data, depth, m)
    requires slot.InArr? ==> slot.parent != p
    requires r == SplitResult(s, slot, p, data, depth, m) && HeapOk(r.heap)
    ensures exists t :: RewiredAt(s, r, slot, p, t) && t in r.heap && Search(r.heap, t, data, depth) != NULL
  {
    SplitLeads(s, slot, p, data, depth, m, r);
    FoundVia(s, r, slot, p, s.next, s.next + 1, data, depth, depth + m);
  }

  /** A key that ends right after an inner node's prefix is counted there and found there. */
  lemma InnerBumpFound(s: ArtState, slot: Slot, p: Ptr, data: seq<Byte>, depth: nat, r: ArtState)
    requires StepOk(s, slot, p) && s.heap[p].flags != Leaf && depth <= |data|
    requires PrefixMatch(s.heap[p], data, depth) == s.heap[p].prefixLen && depth + s.heap[p].prefixLen >= |data|
    requires SlotValue(s, slot) == p && (slot.InArr? ==> slot.parent != p)
    requires r == Bump(s, p) && HeapOk(r.heap)
    ensures exists t :: RewiredAt(s, r, slot, p, t) && t in r.heap && Search(r.heap, t, data, depth) != NULL
  {
    BumpRewired(s, slot, p);
    SearchAtInner(r.heap, p, data, depth);
    assert RewiredAt(s, r, slot, p, p);
  }

  /** Adding the new leaf, after growing a full node without a prefix, leaves a node that reaches it. */
  lemma AddFound(s: ArtState, slot: Slot, p: Ptr, data: seq<Byte>, depth: nat, r: ArtState)
    requires StepOk(s, slot, p) && s.heap[p].flags != Leaf && depth <= |data|
    requires PrefixMatch(s.heap[p], data, depth) == s.heap[p].prefixLen
    requires depth + s.heap[p].prefixLen < |data| && Child(s.heap[p], data[depth + s.heap[p].prefixLen]) == NULL
    requires IsFull(s.heap[p]) ==> s.heap[p].prefixLen == 0
    requires SlotValue(s, slot) == p && (slot.InArr? ==> slot.parent != p)
    requires r == AddResult(s, slot, p, data, depth + s.heap[p].prefixLen) && HeapOk(r.heap)
    ensures exists t :: RewiredAt(s, r, slot, p, t) && t in r.heap && Search(r.heap, t, data, depth) != NULL
  {
    var d := depth + s.heap[p].prefixLen;
    if IsFull(s.heap[p]) {
      GrowAddRewired(s, slot, p, data, d);
      GrowAddLeaves(s, slot, p, data, d);
      FoundVia(s, r, slot, p, s.next, s.next + 1, data, depth, depth);
    } else {
      AddRewired(s, slot, p, data, d);
      AddLeaves(s, slot, p, data, depth);
      FoundVia(s, r, slot, p, p, s.next, data, depth, d);
    }
  }

  /** The changes at an inner node leave in the slot a node from which search reaches the key. */
  lemma InnerFound(s: ArtState, pos: Position, data: seq<Byte>)
    requires StepOk(s, pos.slot, pos.node) && s.heap[pos.node].flags != Leaf && pos.depth <= |data|
    requires !Descends(s.heap[pos.node], data, pos.depth) && Supported(s.heap, pos, data)
    requires SlotValue(s, pos.slot) == pos.node && (pos.slot.InArr? ==> pos.slot.parent != pos.node)
    requires var n := s.heap[pos.node];
      IsFull(n) && PrefixMatch(n, data, pos.depth) == n.prefixLen && pos.depth + n.prefixLen < |data| ==> n.prefixLen == 0
    requires HeapOk(Terminal(s, pos, data).heap)
    ensures var r := Terminal(s, pos, data);
      exists t :: RewiredAt(s, r, pos.slot, pos.node, t) && t in r.heap && Search(r.heap, t, data, pos.depth) != NULL
  {
    var n := s.heap[pos.node];
    var m := PrefixMatch(n, data, pos.depth);
    if m != n.prefixLen {
      TerminalSplits(s, pos, data);
      SplitFound(s, pos.slot, pos.node, data, pos.depth, m, Terminal(s, pos, data));
    } else if pos.depth + m >= |data| {
      TerminalBumps(s, pos, data);
      InnerBumpFound(s, pos.slot, pos.node, data, pos.depth, Terminal(s, pos, data));
    } else {
      AddedFound(s, pos, data);
    }
  }

  /** InnerFound where the whole prefix matches and the node has no child for the key's next byte. */
  lemma AddedFound(s: ArtState, pos: Position, data: seq<Byte>)
    requires StepOk(s, pos.slot, pos.node) && s.heap[pos.node].flags != Leaf && pos.depth <= |data|
    requires !Descends(s.heap[pos.node], data, pos.depth) && Supported(s.heap, pos, data)
    requires SlotValue(s, pos.slot) == pos.node && (pos.slot.InArr? ==> pos.slot.parent != pos.node)
    requires var n := s.heap[pos.node];
      PrefixMatch(n, data, pos.depth) == n.prefixLen && pos.depth + n.prefixLen < |data| && (IsFull(n) ==> n.prefixLen == 0)
    requires HeapOk(Terminal(s, pos, data).heap)
    ensures var r := Terminal(s, pos, data);
      exists t :: RewiredAt(s, r, pos.slot, pos.node, t) && t in r.heap && Search(r.heap, t, data, pos.depth) != NULL
  {
    TerminalAdds(s, pos, data);
    AddFound(s, pos.slot, pos.node, data, pos.depth, Terminal(s, pos, data));
  }

  /** The change where insert's loop stops leaves in the slot a node from which search reaches the key. */
  lemma TerminalFound(s: ArtState, pos: Position, data: seq<Byte>)
    requires StepOk(s, pos.slot, pos.node) && pos.depth <= |data|
    requires !Descends(s.heap[pos.node], data, pos.depth) && Supported(s.heap, pos, data)
    requires SlotValue(s, pos.slot) == pos.node && (pos.slot.InArr? ==> pos.slot.parent != pos.node)
    requires var n := s.heap[pos.node];
      (n.flags == Leaf ==> pos.depth <= |n.key| && n.key[..pos.depth] == data[..pos.depth]) &&
      (n.flags != Leaf && IsFull(n) && PrefixMatch(n, data, pos.depth) == n.prefixLen &&
         pos.depth + n.prefixLen < |data|
       ==> n.prefixLen == 0)
    requires HeapOk(Terminal(s, pos, data).heap)
    ensures var r := Terminal(s, pos, data);
      exists t :: RewiredAt(s, r, pos.slot, pos.node, t) && t in r.heap && Search(r.heap, t, data, pos.depth) != NULL
  {
    if s.heap[pos.node].flags == Leaf {
      DoLeafFound(s, pos.slot, pos.node, data, pos.depth);
    } else {
      InnerFound(s, pos, data);
    }
  }

  /**
   * After a change that only rewired the slot where insert's loop stopped,
   * search from the root reaches whatever the slot now holds at the depth
   * where the loop stopped.
   */
  lemma FollowToSlot(s: ArtState, r: ArtState, lv: map<Ptr, real>, data: seq<Byte>, depth: nat, t: Ptr)
    requires ValidWith(s, lv) && s.root != NULL && depth <= |data| && HeapOk(r.heap) && t in r.heap
    requires r.root == NULL || r.root in r.heap
    requires var pos := InsertPosition(s, data, depth); SlotOk(s, pos.slot) && RewiredAt(s, r, pos.slot, pos.node, t)
    ensures Search(r.heap, r.root, data, depth) == Search(r.heap, t, data, InsertPosition(s, data, depth).depth)
  {
    var pos := InsertPosition(s, data, depth);
    if pos.descents > 0 {
      WalkRanks(s.heap, lv, RootSlot, s.root, data, depth, 0);
      RewiredBelow(s, r, lv, pos, t);
      SearchFollowsWalk(s.heap, r.heap, lv, RootSlot, s.root, data, depth, 0, t, pos);
    }
  }

  /** A change that rewired only the slot of a node below the root changed only what is below that node. */
  lemma RewiredBelow(s: ArtState, r: ArtState, lv: map<Ptr, real>, pos: Position, t: Ptr)
    requires HeapOk(s.heap) && Ranked(s.heap, lv) && pos.node in s.heap && pos.slot.InArr?
    requires SlotOk(s, pos.slot) && s.root in s.heap && lv[s.root] <= lv[pos.slot.parent] < lv[pos.node]
    requires RewiredAt(s, r, pos.slot, pos.node, t)
    ensures ChangedBelow(s.heap, r.heap, lv, pos, t) && r.root == s.root && s.root in r.heap
  {
  }

  /** Where insert's loop stops, the node is in its slot and the slot's owner is another node. */
  lemma StopOwner(s: ArtState, lv: map<Ptr, real>, data: seq<Byte>, depth: nat)
    requires ValidWith(s, lv) && s.root != NULL && depth <= |data|
    ensures var pos := InsertPosition(s, data, depth);
      SlotOk(s, pos.slot) && SlotValue(s, pos.slot) == pos.node &&
      (pos.slot.InArr? ==> pos.slot.parent != pos.node)
  {
    var pos := InsertPosition(s, data, depth);
    PositionSlot(s, data, depth);
    if pos.slot.InArr? {
      assert RankedAt(lv, pos.slot.parent, s.heap[pos.slot.parent]);
      assert pos.node in s.heap[pos.slot.parent].arr;
    }
  }

  /**
   * search finds a key right after insert stores it, in a tree where the
   * key's path meets neither of the two kinds of node grow and the full-key
   * leaves make unreachable (see Faithful).
   */
  lemma InsertThenFound(s: ArtState, data: seq<Byte>, depth: nat)
    requires ValidArt(s) && depth <= |data| && InsertSupported(s, data, depth) && Faithful(s, data, depth)
    ensures var r := InsertResult(s, data, depth);
      ValidArt(r) && Search(r.heap, r.root, data, depth) != NULL
  {
    InsertPreservesValid(s, data, depth);
    var r := InsertResult(s, data, depth);
    if s.root == NULL {
      InterposeNodes(s, RootSlot, MakeLeafNode(data), None);
      SearchAtLeaf(r.heap, s.next, data, depth);
    } else {
      var lv :| Ranked(s.heap, lv);
      var pos := InsertPosition(s, data, depth);
      StopOwner(s, lv, data, depth);
      TerminalFound(s, pos, data);
      var t :| RewiredAt(s, r, pos.slot, pos.node, t) && t in r.heap && Search(r.heap, t, data, pos.depth) != NULL;
      FollowToSlot(s, r, lv, data, depth, t);
    }
  }

  /** The split by "AB" of the lone leaf "A" that has count 1. */
  lemma SplitDropsCount(a: seq<Byte>, ab: seq<Byte>)
    requires a == [65] && ab == [65, 66]
    ensures var s2 := ArtState(map[1 := MakeLeafNode(a).(count := 1)], 1, 2);
      HeapOk(s2.heap) && Fresh(s2) && InsertSupported(s2, ab, 0) &&
      var s3 := InsertResult(s2, ab, 0);
      HeapOk(s3.heap) && s3.root in s3.heap && Search(s3.heap, s3.root, a, 0) == s3.root &&
      s3.heap[s3.root].count == 0
  {
    var leaf1 := MakeLeafNode(a).(count := 1);
    var s2 := ArtState(map[1 := leaf1], 1, 2);
    assert NodeOk(s2.heap, 1);
    WalkStops(s2.heap, RootSlot, 1, ab, 0, 0);
    assert MatchEnd(leaf1, ab, 0) == 1;
    var t := LeafSplitNode(leaf1, 1, ab, 0, 3);
    LeafSplitShape(leaf1, 1, ab, 0, 3);
    var s3 := InsertResult(s2, ab, 0);
    assert s3 == ArtState(map[1 := leaf1, 2 := t, 3 := MakeLeafNode(ab)], 2, 4);
    assert NodeOk(s3.heap, 1) && NodeOk(s3.heap, 2) && NodeOk(s3.heap, 3);
    assert t.prefix[..t.prefixLen] == a[0..1];
    SearchAtInner(s3.heap, 2, a, 0);
  }

  /**
   * A count is lost when a longer key splits the leaf that held it: "A" is
   * inserted twice, so its leaf has count 1; inserting "AB" then replaces
   * that leaf by a node whose prefix is "A" and which keeps only the edge
   * for "B", and search for "A" returns this new node, whose count is 0.
   */
  lemma CountReset()
    ensures var a, ab := [65], [65, 66];
      var s1 := InsertResult(ArtState(map[], NULL, 1), a, 0);
      HeapOk(s1.heap) && Fresh(s1) && s1.root in s1.heap && Search(s1.heap, s1.root, a, 0) != NULL &&
      var s2 := Reinserts(s1, a, 0, 1);
      s2.heap[Search(s2.heap, s2.root, a, 0)].count == 1 &&
      InsertSupported(s2, ab, 0) &&
      var s3 := InsertResult(s2, ab, 0);
      HeapOk(s3.heap) && s3.root in s3.heap && Search(s3.heap, s3.root, a, 0) != NULL &&
      s3.heap[Search(s3.heap, s3.root, a, 0)].count == 0
  {
    var a: seq<Byte>, ab: seq<Byte> := [65], [65, 66];
    RepeatedInsertCount(a, 1);
    var s1 := InsertResult(ArtState(map[], NULL, 1), a, 0);
    assert s1 == ArtState(map[1 := MakeLeafNode(a)], 1, 2);
    var s2 := Reinserts(s1, a, 0, 1);
    assert s2 == ArtState(map[1 := MakeLeafNode(a).(count := 1)], 1, 2);
    SplitDropsCount(a, ab);
  }
}
