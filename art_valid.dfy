/**
 * Every insert keeps the arena well formed: each node satisfies the per-node
 * invariant, points only at nodes of the arena, and the pointers form no
 * cycle (witnessed by a ranking that grows along every edge).
 */
module ArtValid {
  import opened Options
  import opened Bytes
  import opened ArtNode
  import opened ArtSpec

  /** ValidArt with its ranking named. */
  predicate ValidWith(s: ArtState, lv: map<Ptr, real>)
  {
    HeapOk(s.heap) && Fresh(s) && (s.root == NULL || s.root in s.heap) && Ranked(s.heap, lv)
  }

  /** Where insert's loop stops, the slot it came through holds the node. */
  lemma PositionSlot(s: ArtState, data: seq<Byte>, depth: nat)
    requires HeapOk(s.heap) && s.root in s.heap && depth <= |data|
    ensures var pos := InsertPosition(s, data, depth);
      SlotOk(s, pos.slot) && SlotValue(s, pos.slot) == pos.node
  {
  }

  /**
   * Writing a node whose edges are those of the node it overwrites keeps
   * the arena valid under the same ranking.
   */
  lemma SameEdgesValid(s: ArtState, p: Ptr, n: Node, lv: map<Ptr, real>)
    requires ValidWith(s, lv) && p in s.heap && WfNode(n) && n.arr == s.heap[p].arr
    ensures ValidWith(SetNode(s, p, n), lv)
  {
    var h' := SetNode(s, p, n).heap;
    forall x | x in h' ensures NodeOk(h', x) {
      assert NodeOk(s.heap, x);
    }
  }

  /** What Interpose leaves in the arena, node by node. */
  lemma InterposeNodes(s: ArtState, slot: Slot, n: Node, leaf: Option<Node>)
    requires Fresh(s) && SlotOk(s, slot)
    ensures var r := Interpose(s, slot, n, leaf);
      r.heap.Keys == s.heap.Keys + {s.next} + (if leaf.Some? then {s.next + 1} else {}) &&
      r.heap[s.next] == n && (leaf.Some? ==> r.heap[s.next + 1] == leaf.value) &&
      (slot.InArr? ==>
         r.heap[slot.parent] == s.heap[slot.parent].(arr := s.heap[slot.parent].arr[slot.index := s.next])) &&
      (forall x :: x in s.heap && x !in Owners(slot) ==> r.heap[x] == s.heap[x]) &&
      r.root == (if slot.RootSlot? then s.next else s.root)
  {
  }

  /** A node of the old arena that the change did not touch keeps its invariant. */
  lemma OldNodeInv(h: Heap, lv: map<Ptr, real>, h': Heap, lv': map<Ptr, real>, x: Ptr)
    requires HeapOk(h) && Ranked(h, lv) && x in h
    requires h.Keys <= h'.Keys && x in h' && h'[x] == h[x]
    requires forall y :: y in h ==> y in lv' && lv'[y] == lv[y]
    ensures WfNode(h'[x]) && Closed(h', h'[x]) && RankedAt(lv', x, h'[x])
  {
    assert NodeOk(h, x);
    assert RankedAt(lv, x, h[x]) && Closed(h, h[x]);
  }

  /** The parent whose edge was redirected from `p` to the new node `q`. */
  lemma RewiredOk(h: Heap, lv: map<Ptr, real>, h': Heap, lv': map<Ptr, real>, o: Ptr, i: nat, q: Ptr)
    requires HeapOk(h) && Ranked(h, lv) && o in h && i < |h[o].arr| && h[o].arr[i] != NULL
    requires h.Keys <= h'.Keys && o in h' && q in h' && q != NULL
    requires h'[o] == h[o].(arr := h[o].arr[i := q])
    requires forall y :: y in h ==> y in lv' && lv'[y] == lv[y]
    requires q in lv' && lv'[o] < lv'[q]
    ensures WfNode(h'[o]) && Closed(h', h'[o]) && RankedAt(lv', o, h'[o])
  {
    var n := h[o];
    assert NodeOk(h, o);
    assert RankedAt(lv, o, n) && Closed(h, n);
    forall c | c in h'[o].arr && c != NULL
      ensures c in h' && c in lv' && lv'[o] < lv'[c]
    {
      if c != q {
        assert c in n.arr;
      }
    }
  }

  /**
   * Storing a new node in a slot whose old node is `p`: the new node's
   * children are NULL, the leaf allocated after it, or nodes that rank no
   * lower than `p`.
   */
  lemma InterposeValid(s: ArtState, slot: Slot, p: Ptr, n: Node, leaf: Option<Node>, lv: map<Ptr, real>)
    requires ValidWith(s, lv) && SlotOk(s, slot) && p in s.heap && SlotValue(s, slot) == p
    requires WfNode(n)
    requires forall c :: c in n.arr && c != NULL ==>
      (leaf.Some? && c == s.next + 1) || (c in s.heap && lv[p] <= lv[c])
    requires leaf.Some? ==> WfNode(leaf.value) && leaf.value.arr == []
    ensures ValidArt(Interpose(s, slot, n, leaf))
  {
    InterposeNodes(s, slot, n, leaf);
    InterposedValid(s, Interpose(s, slot, n, leaf), slot, p, n, leaf, lv);
  }

  /** The invariant at one node of the arena. */
  predicate NodeInv(h: Heap, lv: map<Ptr, real>, x: Ptr)
  {
    x in h && WfNode(h[x]) && Closed(h, h[x]) && RankedAt(lv, x, h[x])
  }

  lemma InterposedValid(s: ArtState, r: ArtState, slot: Slot, p: Ptr, n: Node, leaf: Option<Node>, lv: map<Ptr, real>)
    requires ValidWith(s, lv) && SlotOk(s, slot) && p in s.heap && SlotValue(s, slot) == p
    requires WfNode(n)
    requires forall c :: c in n.arr && c != NULL ==>
      (leaf.Some? && c == s.next + 1) || (c in s.heap && lv[p] <= lv[c])
    requires leaf.Some? ==> WfNode(leaf.value) && leaf.value.arr == []
    requires r.next == s.next + (if leaf.Some? then 2 else 1)
    requires r.heap.Keys == s.heap.Keys + {s.next} + (if leaf.Some? then {s.next + 1} else {})
    requires r.heap[s.next] == n && (leaf.Some? ==> r.heap[s.next + 1] == leaf.value)
    requires slot.InArr? ==>
      r.heap[slot.parent] == s.heap[slot.parent].(arr := s.heap[slot.parent].arr[slot.index := s.next])
    requires forall x :: x in s.heap && x !in Owners(slot) ==> r.heap[x] == s.heap[x]
    requires r.root == (if slot.RootSlot? then s.next else s.root)
    ensures ValidArt(r)
  {
    var q := s.next;
    var lo := if slot.InArr? then lv[slot.parent] else lv[p] - 2.0;
    var lv' := lv[q := (lo + lv[p]) / 2.0][q + 1 := lv[p] + 1.0];
    RanksKept(s.heap, lv, q, (lo + lv[p]) / 2.0, lv[p] + 1.0);
    if slot.InArr? {
      assert RankedAt(lv, slot.parent, s.heap[slot.parent]);
      assert p in s.heap[slot.parent].arr;
    }
    forall x | x in r.heap
      ensures NodeInv(r.heap, lv', x)
    {
      NodeAfterInterpose(s.heap, lv, r.heap, lv', slot, p, q, leaf.Some?, x);
    }
    InterposedFresh(s, r, leaf.Some?, slot.RootSlot?);
    AllNodesOk(r, lv');
  }

  /** Ranks given to the two new addresses leave the ranks of the old nodes alone. */
  lemma RanksKept(h: Heap, lv: map<Ptr, real>, q: Ptr, a: real, b: real)
    requires (forall y :: y in h ==> y in lv) && q !in h && q + 1 !in h
    ensures var lv' := lv[q := a][q + 1 := b];
      forall y :: y in h ==> y in lv && y in lv' && lv'[y] == lv[y]
  {
  }

  /** Interpose allocates above every address in use. */
  lemma InterposedFresh(s: ArtState, r: ArtState, hasLeaf: bool, atRoot: bool)
    requires Fresh(s) && (s.root == NULL || s.root in s.heap)
    requires r.next == s.next + (if hasLeaf then 2 else 1)
    requires r.heap.Keys == s.heap.Keys + {s.next} + (if hasLeaf then {s.next + 1} else {})
    requires r.root == (if atRoot then s.next else s.root)
    ensures Fresh(r) && (r.root == NULL || r.root in r.heap)
  {
  }

  /** Each node after Interpose: the new node, the new leaf, the rewired owner, or an untouched node. */
  lemma NodeAfterInterpose(h: Heap, lv: map<Ptr, real>, h': Heap, lv': map<Ptr, real>,
                           slot: Slot, p: Ptr, q: Ptr, hasLeaf: bool, x: Ptr)
    requires HeapOk(h) && Ranked(h, lv) && p in h && q !in h && q + 1 !in h && q != NULL
    requires h'.Keys == h.Keys + {q} + (if hasLeaf then {q + 1} else {})
    requires WfNode(h'[q]) && forall c :: c in h'[q].arr && c != NULL ==>
      (hasLeaf && c == q + 1) || (c in h && lv[p] <= lv[c])
    requires hasLeaf ==> WfNode(h'[q + 1]) && h'[q + 1].arr == []
    requires slot.InArr? ==>
      slot.parent in h && slot.index < |h[slot.parent].arr| && h[slot.parent].arr[slot.index] == p && h'[slot.parent] == h[slot.parent].(arr := h[slot.parent].arr[slot.index := q])
    requires forall y :: y in h && y !in Owners(slot) ==> h'[y] == h[y]
    requires forall y :: y in h ==> y in lv' && lv'[y] == lv[y]
    requires q in lv' && q + 1 in lv' && lv'[q] < lv[p] && lv'[q] < lv'[q + 1]
    requires slot.InArr? ==> lv[slot.parent] < lv'[q]
    requires x in h'
    ensures NodeInv(h', lv', x)
  {
    if x == q {
      NewNodeInv(h, lv, h', lv', p, q, hasLeaf);
    } else if hasLeaf && x == q + 1 {
    } else if slot.InArr? && x == slot.parent {
      RewiredOk(h, lv, h', lv', x, slot.index, q);
    } else {
      OldNodeInv(h, lv, h', lv', x);
    }
  }

  /** The interposed node ranks between the slot's owner and the node it displaced. */
  lemma NewNodeInv(h: Heap, lv: map<Ptr, real>, h': Heap, lv': map<Ptr, real>, p: Ptr, q: Ptr, hasLeaf: bool)
    requires p in lv && q in h' && WfNode(h'[q]) && h.Keys <= h'.Keys
    requires forall c :: c in h'[q].arr && c != NULL ==>
      (hasLeaf && c == q + 1) || (c in h && c in lv && lv[p] <= lv[c])
    requires forall y :: y in h ==> y in lv && y in lv' && lv'[y] == lv[y]
    requires hasLeaf ==> q + 1 in h'
    requires q in lv' && q + 1 in lv' && lv'[q] < lv[p] && lv'[q] < lv'[q + 1]
    ensures NodeInv(h', lv', q)
  {
  }

  lemma AllNodesOk(r: ArtState, lv: map<Ptr, real>)
    requires forall x :: x in r.heap ==> NodeInv(r.heap, lv, x)
    requires Fresh(r) && (r.root == NULL || r.root in r.heap)
    ensures ValidArt(r)
  {
    assert Ranked(r.heap, lv);
  }

  /** An inner node that is not full gains an edge to a newly allocated leaf. */
  lemma AddLeafValid(s: ArtState, p: Ptr, data: seq<Byte>, d: nat, lv: map<Ptr, real>)
    requires ValidWith(s, lv) && p in s.heap && NodeOk(s.heap, p) && s.heap[p].flags != Leaf && !IsFull(s.heap[p])
    requires d < |data| && Child(s.heap[p], data[d]) == NULL
    ensures ValidArt(SetNode(Alloc(s, MakeLeafNode(data)), p, AddChildNode(s.heap[p], data[d], s.next)))
  {
    var n := s.heap[p];
    var l := s.next;
    var r := SetNode(Alloc(s, MakeLeafNode(data)), p, AddChildNode(n, data[d], l));
    var lv' := lv[l := lv[p] + 1.0];
    assert RankedAt(lv, p, n) && Closed(s.heap, n);
    assert forall y :: y in s.heap ==> y in lv' && lv'[y] == lv[y];
    forall x | x in r.heap
      ensures NodeInv(r.heap, lv', x)
    {
      if x == l {
      } else if x == p {
        forall c | c in r.heap[p].arr && c != NULL
          ensures c in r.heap && c in lv' && lv'[p] < lv'[c]
        {
          if c != l {
            assert c in n.arr;
          }
        }
      } else {
        OldNodeInv(s.heap, lv, r.heap, lv', x);
      }
    }
    AllNodesOk(r, lv');
  }

  /** The intermediate state of a prefix-mismatch split, with the old node's prefix shortened. */
  lemma ShiftedValid(s: ArtState, slot: Slot, p: Ptr, m: nat, lv: map<Ptr, real>)
    requires ValidWith(s, lv) && SlotOk(s, slot) && p in s.heap && NodeOk(s.heap, p) && SlotValue(s, slot) == p
    requires m < s.heap[p].prefixLen
    ensures var s1 := SetNode(s, p, ShiftPrefix(s.heap[p], m));
      ValidWith(s1, lv) && SlotOk(s1, slot) && SlotValue(s1, slot) == p &&
      s1.heap[p].arr == s.heap[p].arr && s1.next == s.next
  {
    SameEdgesValid(s, p, ShiftPrefix(s.heap[p], m), lv);
    if slot.InArr? {
      assert RankedAt(lv, slot.parent, s.heap[slot.parent]);
      assert p in s.heap[slot.parent].arr;
    }
  }

  /** Counting a key again keeps the arena valid. */
  lemma BumpValid(s: ArtState, p: Ptr, lv: map<Ptr, real>)
    requires ValidWith(s, lv) && p in s.heap
    ensures ValidArt(Bump(s, p))
  {
    assert NodeOk(s.heap, p);
    SameEdgesValid(s, p, s.heap[p].(count := s.heap[p].count + 1), lv);
  }

  lemma DoLeafSplits(s: ArtState, slot: Slot, p: Ptr, data: seq<Byte>, depth: nat)
    requires StepOk(s, slot, p) && s.heap[p].flags == Leaf && depth <= |data|
    requires Supported(s.heap, Position(slot, p, depth, 0), data)
    requires var j := MatchEnd(s.heap[p], data, depth); !(j == |data| && j == s.heap[p].keyLen)
    ensures var n := s.heap[p]; var j := MatchEnd(n, data, depth);
      DoLeafResult(s, slot, p, data, depth) ==
      Interpose(s, slot, LeafSplitNode(n, p, data, depth, s.next + 1), if j < |data| then Some(MakeLeafNode(data)) else None)
  {
  }

  lemma SplitUnfolds(s: ArtState, slot: Slot, p: Ptr, data: seq<Byte>, depth: nat, m: nat)
    requires StepOk(s, slot, p) && SplitsAt(s.heap[p], data, depth, m)
    ensures var n := s.heap[p];
      SplitResult(s, slot, p, data, depth, m) ==
      Interpose(SetNode(s, p, ShiftPrefix(n, m)), slot, MismatchNode(n, p, data, depth, m, s.next + 1), Some(MakeLeafNode(data)))
  {
  }

  lemma AddUnfolds(s: ArtState, slot: Slot, p: Ptr, data: seq<Byte>, d: nat)
    requires StepOk(s, slot, p) && s.heap[p].flags != Leaf && d < |data|
    requires Child(s.heap[p], data[d]) == NULL
    ensures var n := s.heap[p];
      AddResult(s, slot, p, data, d) ==
      if IsFull(n) then
        Interpose(s, slot, AddChildNode(GrowNode(n), data[d], s.next + 1), Some(MakeLeafNode(data)))
      else
        SetNode(Alloc(s, MakeLeafNode(data)), p, AddChildNode(n, data[d], s.next))
  {
  }

  /** do_leaf keeps the arena valid. */
  lemma DoLeafValid(s: ArtState, slot: Slot, p: Ptr, data: seq<Byte>, depth: nat, lv: map<Ptr, real>)
    requires ValidWith(s, lv) && StepOk(s, slot, p) && SlotValue(s, slot) == p
    requires s.heap[p].flags == Leaf && depth <= |data|
    requires Supported(s.heap, Position(slot, p, depth, 0), data)
    ensures ValidArt(DoLeafResult(s, slot, p, data, depth))
  {
    var n := s.heap[p];
    var j := MatchEnd(n, data, depth);
    if j == |data| && j == n.keyLen {
      BumpValid(s, p, lv);
    } else {
      DoLeafSplits(s, slot, p, data, depth);
      LeafSplitValid(s, slot, p, data, depth, lv);
    }
  }

  /** The split at a leaf whose key differs from the new one keeps the arena valid. */
  lemma LeafSplitValid(s: ArtState, slot: Slot, p: Ptr, data: seq<Byte>, depth: nat, lv: map<Ptr, real>)
    requires ValidWith(s, lv) && StepOk(s, slot, p) && SlotValue(s, slot) == p
    requires s.heap[p].flags == Leaf && depth <= |data|
    requires Supported(s.heap, Position(slot, p, depth, 0), data)
    requires var j := MatchEnd(s.heap[p], data, depth); !(j == |data| && j == s.heap[p].keyLen)
    ensures var n := s.heap[p]; var j := MatchEnd(n, data, depth);
      ValidArt(Interpose(s, slot, LeafSplitNode(n, p, data, depth, s.next + 1), if j < |data| then Some(MakeLeafNode(data)) else None))
  {
    var n := s.heap[p];
    var j := MatchEnd(n, data, depth);
    var leaf := if j < |data| then Some(MakeLeafNode(data)) else None;
    var t := LeafSplitNode(n, p, data, depth, s.next + 1);
    LeafSplitShape(n, p, data, depth, s.next + 1);
    forall c | c in t.arr && c != NULL
      ensures (leaf.Some? && c == s.next + 1) || (c in s.heap && lv[p] <= lv[c])
    {
    }
    InterposeValid(s, slot, p, t, leaf, lv);
  }

  /** The prefix-mismatch split keeps the arena valid. */
  lemma SplitValid(s: ArtState, slot: Slot, p: Ptr, data: seq<Byte>, depth: nat, m: nat, lv: map<Ptr, real>)
    requires ValidWith(s, lv) && StepOk(s, slot, p) && SlotValue(s, slot) == p
    requires SplitsAt(s.heap[p], data, depth, m)
    ensures ValidArt(SplitResult(s, slot, p, data, depth, m))
  {
    var n := s.heap[p];
    var s1 := SetNode(s, p, ShiftPrefix(n, m));
    SplitUnfolds(s, slot, p, data, depth, m);
    ShiftedValid(s, slot, p, m, lv);
    MismatchShape(n, p, data, depth, m, s.next + 1);
    InterposeValid(s1, slot, p, MismatchNode(n, p, data, depth, m, s.next + 1), Some(MakeLeafNode(data)), lv);
  }

  /** Adding the new leaf, after growing a full node, keeps the arena valid. */
  lemma AddValid(s: ArtState, slot: Slot, p: Ptr, data: seq<Byte>, d: nat, lv: map<Ptr, real>)
    requires ValidWith(s, lv) && StepOk(s, slot, p) && SlotValue(s, slot) == p
    requires s.heap[p].flags != Leaf && d < |data| && Child(s.heap[p], data[d]) == NULL
    ensures ValidArt(AddResult(s, slot, p, data, d))
  {
    var n := s.heap[p];
    assert NodeOk(s.heap, p);
    if IsFull(n) {
      assert RankedAt(lv, p, n) && Closed(s.heap, n);
      var g := AddChildNode(GrowNode(n), data[d], s.next + 1);
      forall c | c in g.arr && c != NULL
        ensures c == s.next + 1 || (c in s.heap && lv[p] <= lv[c])
      {
        if c != s.next + 1 {
          assert c in n.arr;
        }
      }
      AddUnfolds(s, slot, p, data, d);
      InterposeValid(s, slot, p, g, Some(MakeLeafNode(data)), lv);
    } else {
      AddUnfolds(s, slot, p, data, d);
      AddLeafValid(s, p, data, d, lv);
    }
  }

  /** The change at the node where insert's loop stops keeps the arena valid. */
  lemma TerminalValid(s: ArtState, pos: Position, data: seq<Byte>, lv: map<Ptr, real>)
    requires ValidWith(s, lv) && StepOk(s, pos.slot, pos.node) && pos.depth <= |data|
    requires SlotValue(s, pos.slot) == pos.node
    requires !Descends(s.heap[pos.node], data, pos.depth) && Supported(s.heap, pos, data)
    ensures ValidArt(Terminal(s, pos, data))
  {
    if s.heap[pos.node].flags == Leaf {
      DoLeafValid(s, pos.slot, pos.node, data, pos.depth, lv);
    } else {
      InnerTerminalValid(s, pos, data, lv);
    }
  }

  /** TerminalValid at an inner node: a split, a bump or an added leaf. */
  lemma InnerTerminalValid(s: ArtState, pos: Position, data: seq<Byte>, lv: map<Ptr, real>)
    requires ValidWith(s, lv) && StepOk(s, pos.slot, pos.node) && pos.depth <= |data|
    requires SlotValue(s, pos.slot) == pos.node && s.heap[pos.node].flags != Leaf
    requires !Descends(s.heap[pos.node], data, pos.depth) && Supported(s.heap, pos, data)
    ensures ValidArt(Terminal(s, pos, data))
  {
    var p := pos.node;
    var n := s.heap[p];
    var m := PrefixMatch(n, data, pos.depth);
    if m != n.prefixLen {
      PrefixSplits(n, data, pos.depth);
      SplitValid(s, pos.slot, p, data, pos.depth, m, lv);
    } else if pos.depth + m >= |data| {
      BumpValid(s, p, lv);
    } else {
      AddValid(s, pos.slot, p, data, pos.depth + m, lv);
    }
  }

  /**
   * insert keeps the arena valid: every node well formed, every pointer
   * into the arena, no cycle.
   */
  lemma InsertPreservesValid(s: ArtState, data: seq<Byte>, depth: nat)
    requires ValidArt(s) && depth <= |data| && InsertSupported(s, data, depth)
    ensures ValidArt(InsertResult(s, data, depth))
  {
    var lv :| Ranked(s.heap, lv);
    if s.root == NULL {
      var r := InsertResult(s, data, depth);
      var lv' := lv[s.next := 0.0];
      assert forall y :: y in s.heap ==> y in lv' && lv'[y] == lv[y];
      forall x | x in r.heap
        ensures NodeInv(r.heap, lv', x)
      {
        if x != s.next {
          OldNodeInv(s.heap, lv, r.heap, lv', x);
        }
      }
      AllNodesOk(r, lv');
    } else {
      PositionSlot(s, data, depth);
      TerminalValid(s, InsertPosition(s, data, depth), data, lv);
    }
  }
}
