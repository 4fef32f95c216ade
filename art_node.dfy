/**
 * One node of the adaptive radix tree of src/lib/art: its shapes, the per-shape
 * child lookup, adding a child, promoting a full node to the next shape and
 * comparing a node's prefix with a key. A node is a value here; the arena that
 * links nodes by pointer is in the modules ArtSpec and Art.
 */
module ArtNode {
  import opened Options
  import opened Bytes

  /** A node pointer: an address in the node arena; 0 is NULL. */
  type Ptr = nat
  const NULL: Ptr := 0

  /** Marks an unused byte in the 256-entry index of a 48-node. */
  const EMPTY: Byte := 0xff

  /** Length of the inline prefix buffer of every node. */
  const PREFIX_SIZE: nat := 128

  /** The node shapes (the NODE_FLAGS_* values). */
  datatype Flags = Leaf | Inner4 | Inner16 | Inner48 | Inner256

  /**
   * The fields of struct radix_tree_node. For a leaf, `key` is the whole key
   * and `keyLen` its length. For shapes 4 and 16, `key[i]` is the byte of the
   * child `arr[i]`; for shape 48, `key` is the 256-entry byte-to-slot index
   * into `arr`; for shape 256, `arr` is indexed by the byte itself.
   */
  datatype Node = Node(flags: Flags, keyLen: nat, key: seq<Byte>, arr: seq<Ptr>,
                       count: nat, prefixLen: nat, prefix: seq<Byte>)

  /** Capacity of an inner shape (node_size); a leaf has none. */
  function NodeSize(f: Flags): (r: nat)
    requires f != Leaf
    ensures r == |AllocNode(f).arr|
  {
    match f
    case Inner4 => 4
    case Inner16 => 16
    case Inner48 => 48
    case Inner256 => 256
  }

  /** The shape `grow` promotes a full node to. */
  function NextShape(f: Flags): Flags
    requires f == Inner4 || f == Inner16 || f == Inner48
  {
    match f
    case Inner4 => Inner16
    case Inner16 => Inner48
    case Inner48 => Inner256
  }

  function Zeros(n: nat): (s: seq<Byte>)
    ensures |s| == n && forall i :: 0 <= i < n ==> s[i] == 0
  {
    seq(n, _ => 0)
  }

  function Nulls(n: nat): (s: seq<Ptr>)
    ensures |s| == n && forall i :: 0 <= i < n ==> s[i] == NULL
  {
    seq(n, _ => NULL)
  }

  /** No byte occurs twice among the first `len` entries of `key`. */
  predicate Distinct(key: seq<Byte>, len: nat)
    requires len <= |key|
  {
    forall i, j :: 0 <= i < j < len ==> key[i] != key[j]
  }

  /** Exactly the first `len` entries of `arr` hold a child. */
  predicate LiveExactly(arr: seq<Ptr>, len: nat)
  {
    forall i :: 0 <= i < |arr| ==> (arr[i] != NULL <==> i < len)
  }

  predicate WfCompact(n: Node, cap: nat)
  {
    |n.key| == cap && |n.arr| == cap && n.keyLen <= cap &&
    Distinct(n.key, n.keyLen) && LiveExactly(n.arr, n.keyLen)
  }

  predicate WfIndex48(n: Node)
  {
    |n.key| == 256 && |n.arr| == 48 && n.keyLen <= 48 &&
    (forall b :: 0 <= b < 256 ==> n.key[b] == EMPTY || n.key[b] < n.keyLen) &&
    (forall b, c :: 0 <= b < c < 256 && n.key[b] != EMPTY ==> n.key[b] != n.key[c]) &&
    LiveExactly(n.arr, n.keyLen)
  }

  /**
   * The per-node invariant: buffers have their allocated sizes, `keyLen`
   * never exceeds the shape's capacity, the discriminating bytes are unique,
   * and exactly the used slots hold a child. A 256-node is never full: its
   * `keyLen` is not bumped by add_child.
   */
  predicate WfNode(n: Node)
  {
    |n.prefix| == PREFIX_SIZE && n.prefixLen <= PREFIX_SIZE &&
    match n.flags
    case Leaf => n.keyLen == |n.key| && n.arr == []
    case Inner4 => WfCompact(n, 4)
    case Inner16 => WfCompact(n, 16)
    case Inner48 => WfIndex48(n)
    case Inner256 => n.key == [] && |n.arr| == 256 && n.keyLen < 256
  }

  /**
   * is_full: a leaf counts as full; an inner node of shape 4, 16 or 48 when
   * its last child slot is used (the used slots come first); a 256-node never.
   */
  predicate IsFull(n: Node)
    ensures WfNode(n) && (n.flags == Inner4 || n.flags == Inner16 || n.flags == Inner48) ==>
      (IsFull(n) <==> n.arr[|n.arr| - 1] != NULL)
    ensures WfNode(n) && n.flags == Inner256 ==> !IsFull(n)
  {
    n.flags == Leaf || n.keyLen == NodeSize(n.flags)
  }

  /** A node of shape 4, 16 or 48 is full exactly when every child slot holds a child. */
  lemma FullIffNoFreeSlot(n: Node)
    requires WfNode(n) && (n.flags == Inner4 || n.flags == Inner16 || n.flags == Inner48)
    ensures IsFull(n) <==> forall i :: 0 <= i < |n.arr| ==> n.arr[i] != NULL
  {
    if forall i :: 0 <= i < |n.arr| ==> n.arr[i] != NULL {
      assert n.arr[|n.arr| - 1] != NULL;
    }
  }

  /** A zeroed node of the given shape, as alloc_node returns it. */
  function AllocNode(f: Flags): (r: Node)
    ensures WfNode(r) && r.flags == f
    ensures r.keyLen == 0 && r.count == 0 && r.prefixLen == 0
    ensures f != Leaf ==> forall b :: Child(r, b) == NULL
    ensures forall c :: c in r.arr ==> c == NULL
  {
    match f
    case Leaf => Node(Leaf, 0, [], [], 0, 0, Zeros(PREFIX_SIZE))
    case Inner4 => Node(Inner4, 0, Zeros(4), Nulls(4), 0, 0, Zeros(PREFIX_SIZE))
    case Inner16 => Node(Inner16, 0, Zeros(16), Nulls(16), 0, 0, Zeros(PREFIX_SIZE))
    case Inner48 => Node(Inner48, 0, seq(256, _ => EMPTY), Nulls(48), 0, 0, Zeros(PREFIX_SIZE))
    case Inner256 => Node(Inner256, 0, [], Nulls(256), 0, 0, Zeros(PREFIX_SIZE))
  }

  /** The first of the `len` leading entries of `key` equal to `b`, if any. */
  function FirstIndex(key: seq<Byte>, len: nat, b: Byte): (r: Option<nat>)
    requires len <= |key|
    ensures r.Some? ==> r.value < len && key[r.value] == b && b !in key[..r.value]
    ensures r.None? ==> b !in key[..len]
  {
    if len == 0 then None
    else match FirstIndex(key, len - 1, b)
      case Some(i) => Some(i)
      case None =>
        assert key[..len] == key[..len - 1] + [key[len - 1]];
        if key[len - 1] == b then Some(len - 1) else None
  }

  /**
   * find_child: the index into `arr` of the slot for byte `b`, or None where
   * the C code returns NULL. Shapes 4 and 16 scan the used keys; shape 48
   * goes through its byte index; shape 256 always has a slot.
   */
  function FindChild(n: Node, b: Byte): (r: Option<nat>)
    requires WfNode(n) && n.flags != Leaf
    ensures r.Some? ==> r.value < |n.arr|
    ensures (n.flags == Inner4 || n.flags == Inner16) ==>
      (r.Some? <==> b in n.key[..n.keyLen]) &&
      (r.Some? ==> n.key[r.value] == b && r.value < n.keyLen)
    ensures n.flags == Inner48 ==> (r.None? <==> n.key[b] == EMPTY)
    ensures n.flags == Inner256 ==> r == Some(b)
  {
    match n.flags
    case Inner4 => FirstIndex(n.key, n.keyLen, b)
    case Inner16 => FirstIndex(n.key, n.keyLen, b)
    case Inner48 => if n.key[b] == EMPTY then None else Some(n.key[b])
    case Inner256 => Some(b)
  }

  /**
   * The child reached over byte `b`, NULL when there is none: shapes 4 and
   * 16 have one exactly for their used keys, shape 48 for the bytes its
   * index maps, and shape 256 reads the slot for `b` itself.
   */
  function Child(n: Node, b: Byte): (r: Ptr)
    requires WfNode(n) && n.flags != Leaf
    ensures r == NULL || r in n.arr
    ensures (n.flags == Inner4 || n.flags == Inner16) ==> (r != NULL <==> b in n.key[..n.keyLen])
    ensures n.flags == Inner48 ==> (r != NULL <==> n.key[b] != EMPTY)
    ensures n.flags == Inner256 ==> r == n.arr[b]
  {
    match FindChild(n, b)
    case None => NULL
    case Some(i) => n.arr[i]
  }

  /**
   * add_child on a node that is not full and has no child for `b`: the edge
   * over `b` now leads to `child` and every other edge is as before. Shapes 4,
   * 16 and 48 write the next free slot and bump `keyLen` by one, leaving the
   * slots already used as they were; shape 256 does not bump `keyLen`.
   */
  function AddChildNode(n: Node, b: Byte, child: Ptr): (r: Node)
    requires WfNode(n) && n.flags != Leaf && !IsFull(n)
    requires Child(n, b) == NULL && child != NULL
    ensures WfNode(r) && r.flags == n.flags
    ensures forall c :: Child(r, c) == if c == b then child else Child(n, c)
    ensures r.keyLen == if n.flags == Inner256 then n.keyLen else n.keyLen + 1
    ensures n.flags != Inner256 ==>
      r.arr[..n.keyLen] == n.arr[..n.keyLen] && r.arr[n.keyLen] == child
    ensures (n.flags == Inner4 || n.flags == Inner16) ==>
      r.key[..n.keyLen] == n.key[..n.keyLen] && r.key[n.keyLen] == b
    ensures r.count == n.count && r.prefixLen == n.prefixLen && r.prefix == n.prefix
    ensures forall c :: c in r.arr ==> c in n.arr || c == child
  {
    match n.flags
    case Inner4 => AddCompact(n, b, child)
    case Inner16 => AddCompact(n, b, child)
    case Inner48 => Add48(n, b, child)
    case Inner256 => n.(arr := n.arr[b := child])
  }

  function AddCompact(n: Node, b: Byte, child: Ptr): (r: Node)
    requires WfNode(n) && (n.flags == Inner4 || n.flags == Inner16) && !IsFull(n)
    requires Child(n, b) == NULL && child != NULL
    ensures WfNode(r) && r.flags == n.flags && r.keyLen == n.keyLen + 1
    ensures forall c :: Child(r, c) == if c == b then child else Child(n, c)
    ensures r.arr[..n.keyLen] == n.arr[..n.keyLen] && r.arr[n.keyLen] == child
    ensures r.key[..n.keyLen] == n.key[..n.keyLen] && r.key[n.keyLen] == b
    ensures r.count == n.count && r.prefixLen == n.prefixLen && r.prefix == n.prefix
  {
    var r := n.(key := n.key[n.keyLen := b], arr := n.arr[n.keyLen := child], keyLen := n.keyLen + 1);
    assert FirstIndex(n.key, n.keyLen, b) == None;
    assert r.key[..n.keyLen] == n.key[..n.keyLen];
    assert WfCompact(r, NodeSize(n.flags));
    forall c: Byte
      ensures Child(r, c) == if c == b then child else Child(n, c)
    {
      FirstIndexExtend(n.key, r.key, n.keyLen, c);
    }
    r
  }

  /** Appending one key leaves the scan for every other byte unchanged. */
  lemma {:induction false} FirstIndexExtend(key: seq<Byte>, key': seq<Byte>, len: nat, c: Byte)
    requires len < |key| == |key'| && key'[..len] == key[..len]
    ensures FirstIndex(key', len + 1, c) ==
      match FirstIndex(key, len, c)
      case Some(i) => Some(i)
      case None => if key'[len] == c then Some(len) else None
  {
    FirstIndexPrefix(key, key', len, c);
  }

  /** The scan depends only on the entries it looks at. */
  lemma {:induction false} FirstIndexPrefix(key: seq<Byte>, key': seq<Byte>, len: nat, c: Byte)
    requires len <= |key| && len <= |key'| && key'[..len] == key[..len]
    ensures FirstIndex(key', len, c) == FirstIndex(key, len, c)
  {
    if len > 0 {
      assert key'[..len - 1] == key[..len - 1] by {
        assert key'[..len - 1] == key'[..len][..len - 1];
        assert key[..len - 1] == key[..len][..len - 1];
      }
      FirstIndexPrefix(key, key', len - 1, c);
      assert key'[len - 1] == key'[..len][len - 1];
      assert key[len - 1] == key[..len][len - 1];
    }
  }

  function Add48(n: Node, b: Byte, child: Ptr): (r: Node)
    requires WfNode(n) && n.flags == Inner48 && !IsFull(n)
    requires Child(n, b) == NULL && child != NULL
    ensures WfNode(r) && r.flags == n.flags && r.keyLen == n.keyLen + 1
    ensures forall c :: Child(r, c) == if c == b then child else Child(n, c)
    ensures r.arr[..n.keyLen] == n.arr[..n.keyLen] && r.arr[n.keyLen] == child
    ensures r.count == n.count && r.prefixLen == n.prefixLen && r.prefix == n.prefix
  {
    var r := n.(key := n.key[b := n.keyLen], arr := n.arr[n.keyLen := child], keyLen := n.keyLen + 1);
    Add48Wf(n, b, child, r);
    Add48Edges(n, b, child, r);
    r
  }

  lemma Add48Wf(n: Node, b: Byte, child: Ptr, r: Node)
    requires WfNode(n) && n.flags == Inner48 && !IsFull(n)
    requires Child(n, b) == NULL && child != NULL
    requires r == n.(key := n.key[b := n.keyLen], arr := n.arr[n.keyLen := child], keyLen := n.keyLen + 1)
    ensures WfNode(r) && n.key[b] == EMPTY
  {
    assert n.key[b] == EMPTY;
    forall c, d | 0 <= c < d < 256 && r.key[c] != EMPTY
      ensures r.key[c] != r.key[d]
    {
      if c != b && d != b {
        assert r.key[c] == n.key[c] && r.key[d] == n.key[d];
      }
    }
    assert WfIndex48(r);
  }

  lemma Add48Edges(n: Node, b: Byte, child: Ptr, r: Node)
    requires WfNode(n) && n.flags == Inner48 && !IsFull(n)
    requires Child(n, b) == NULL && child != NULL && n.key[b] == EMPTY
    requires r == n.(key := n.key[b := n.keyLen], arr := n.arr[n.keyLen := child], keyLen := n.keyLen + 1)
    requires WfNode(r)
    ensures forall c :: Child(r, c) == if c == b then child else Child(n, c)
  {
    forall c: Byte
      ensures Child(r, c) == if c == b then child else Child(n, c)
    {
      if c != b {
        assert r.key[c] == n.key[c];
      }
    }
  }

  /**
   * grow: the node of the next shape holding the same edges, with `keyLen`
   * equal to the old capacity. It starts from a freshly zeroed node, so the
   * prefix, its length and the count are not carried over.
   */
  function GrowNode(n: Node): (r: Node)
    requires WfNode(n) && (n.flags == Inner4 || n.flags == Inner16 || n.flags == Inner48)
    requires IsFull(n)
    ensures WfNode(r) && r.flags == NextShape(n.flags) && r.keyLen == NodeSize(n.flags)
    ensures !IsFull(r)
    ensures forall b :: Child(r, b) == Child(n, b)
    ensures r.count == 0 && r.prefixLen == 0
    ensures forall c :: c in r.arr ==> c in n.arr || c == NULL
  {
    match n.flags
    case Inner4 => Grow4(n)
    case Inner16 => Grow16(n)
    case Inner48 => Grow48(n)
  }

  function Grow4(n: Node): (r: Node)
    requires WfNode(n) && n.flags == Inner4 && IsFull(n)
    ensures WfNode(r) && r.flags == Inner16 && r.keyLen == 4
    ensures forall b :: Child(r, b) == Child(n, b)
    ensures r.count == 0 && r.prefixLen == 0
  {
    var r := Node(Inner16, 4, n.key + Zeros(12), n.arr + Nulls(12), 0, 0, Zeros(PREFIX_SIZE));
    assert r.key[..4] == n.key[..4];
    forall b: Byte ensures Child(r, b) == Child(n, b) {
      FirstIndexPrefix(n.key, r.key, 4, b);
    }
    r
  }

  /** The 256-entry index a 16-node's keys become in a 48-node. */
  function Index48(key: seq<Byte>): (idx: seq<Byte>)
    requires |key| == 16
    ensures |idx| == 256
  {
    seq(256, (c: int) requires 0 <= c < 256 =>
      match FirstIndex(key, 16, c)
      case None => EMPTY
      case Some(i) => i)
  }

  function Grow16(n: Node): (r: Node)
    requires WfNode(n) && n.flags == Inner16 && IsFull(n)
    ensures WfNode(r) && r.flags == Inner48 && r.keyLen == 16
    ensures forall b :: Child(r, b) == Child(n, b)
    ensures r.count == 0 && r.prefixLen == 0
  {
    var r := Node(Inner48, 16, Index48(n.key), n.arr + Nulls(32), 0, 0, Zeros(PREFIX_SIZE));
    Index48Wf(n.key);
    assert WfIndex48(r);
    r
  }

  lemma Index48Wf(key: seq<Byte>)
    requires |key| == 16
    ensures forall c :: 0 <= c < 256 ==> Index48(key)[c] == EMPTY || Index48(key)[c] < 16
    ensures forall c, d :: 0 <= c < d < 256 && Index48(key)[c] != EMPTY ==> Index48(key)[c] != Index48(key)[d]
  {
    var idx := Index48(key);
    forall c, d | 0 <= c < d < 256 && idx[c] != EMPTY
      ensures idx[c] != idx[d]
    {
      var fc := FirstIndex(key, 16, c);
      var fd := FirstIndex(key, 16, d);
      assert fc.Some?;
      if fd.Some? {
        assert key[fc.value] == c && key[fd.value] == d;
      }
    }
  }

  /** The 256 direct slots a 48-node's children become in a 256-node. */
  function Direct256(n: Node): (arr: seq<Ptr>)
    requires WfNode(n) && n.flags == Inner48
    ensures |arr| == 256
  {
    seq(256, (c: int) requires 0 <= c < 256 =>
      if n.key[c] == EMPTY then NULL else n.arr[n.key[c]])
  }

  function Grow48(n: Node): (r: Node)
    requires WfNode(n) && n.flags == Inner48 && IsFull(n)
    ensures WfNode(r) && r.flags == Inner256 && r.keyLen == 48
    ensures forall b :: Child(r, b) == Child(n, b)
    ensures r.count == 0 && r.prefixLen == 0
  {
    Node(Inner256, 48, [], Direct256(n), 0, 0, Zeros(PREFIX_SIZE))
  }

  function Min(a: nat, b: nat): nat
  {
    if a <= b then a else b
  }

  /**
   * The first position in [from, bound] where `a` and `b` differ, or `bound`
   * when they agree on the whole range.
   */
  function FirstDifference(a: seq<Byte>, b: seq<Byte>, from: nat, bound: nat): (j: nat)
    requires from <= bound <= |a| && bound <= |b|
    ensures from <= j <= bound
    ensures a[from..j] == b[from..j]
    ensures j == bound || a[j] != b[j]
    decreases bound - from
  {
    if from == bound || a[from] != b[from] then from
    else
      var j := FirstDifference(a, b, from + 1, bound);
      assert a[from..j] == [a[from]] + a[from + 1..j];
      assert b[from..j] == [b[from]] + b[from + 1..j];
      j
  }

  /** Any position with the two properties of FirstDifference is the one it returns. */
  lemma {:induction false} FirstDifferenceUnique(a: seq<Byte>, b: seq<Byte>, from: nat, bound: nat, j: nat)
    requires from <= j <= bound <= |a| && bound <= |b|
    requires a[from..j] == b[from..j]
    requires j == bound || a[j] != b[j]
    ensures FirstDifference(a, b, from, bound) == j
    decreases bound - from
  {
    if from < j {
      assert a[from] == a[from..j][0] && b[from] == b[from..j][0];
      assert a[from + 1..j] == a[from..j][1..] && b[from + 1..j] == b[from..j][1..];
      FirstDifferenceUnique(a, b, from + 1, bound, j);
    }
  }

  /**
   * check_prefix: how many leading bytes of the node's prefix agree with the
   * key from `depth` on, comparing at most min(prefixLen, |data| - depth).
   */
  function PrefixMatch(n: Node, data: seq<Byte>, depth: nat): (m: nat)
    requires WfNode(n) && depth <= |data|
    ensures m <= n.prefixLen && depth + m <= |data|
    ensures n.prefix[..m] == data[depth..depth + m]
    ensures m == Min(n.prefixLen, |data| - depth) || n.prefix[m] != data[depth + m]
  {
    var m := FirstDifference(n.prefix, data[depth..], 0, Min(n.prefixLen, |data| - depth));
    assert n.prefix[..m] == n.prefix[0..m];
    assert data[depth..depth + m] == data[depth..][0..m];
    assert m < Min(n.prefixLen, |data| - depth) ==> data[depth..][m] == data[depth + m];
    m
  }

  /** Any count with the three properties of PrefixMatch is the one it returns. */
  lemma PrefixMatchUnique(n: Node, data: seq<Byte>, depth: nat, m: nat)
    requires WfNode(n) && depth <= |data|
    requires m <= Min(n.prefixLen, |data| - depth)
    requires n.prefix[..m] == data[depth..depth + m]
    requires m == Min(n.prefixLen, |data| - depth) || n.prefix[m] != data[depth + m]
    ensures PrefixMatch(n, data, depth) == m
  {
    var rest := data[depth..];
    assert n.prefix[0..m] == rest[0..m];
    FirstDifferenceUnique(n.prefix, rest, 0, Min(n.prefixLen, |data| - depth), m);
  }

  /**
   * The key leaves the inner node's prefix at the prefix's byte `m`: the
   * first `m` bytes agree with the key from `depth` on, byte `m` differs.
   */
  predicate SplitsAt(n: Node, data: seq<Byte>, depth: nat, m: nat)
  {
    WfNode(n) && n.flags != Leaf && m < n.prefixLen && depth + m < |data| &&
    n.prefix[..m] == data[depth..depth + m] && n.prefix[m] != data[depth + m]
  }

  /** check_prefix stopping short of the prefix, before the key ends, finds where the key leaves it. */
  lemma PrefixSplits(n: Node, data: seq<Byte>, depth: nat)
    requires WfNode(n) && n.flags != Leaf && depth <= |data|
    requires PrefixMatch(n, data, depth) != n.prefixLen && depth + PrefixMatch(n, data, depth) < |data|
    ensures SplitsAt(n, data, depth, PrefixMatch(n, data, depth))
  {
  }

  /**
   * The memcpy that gives a node the prefix `bytes`: the first |bytes| bytes
   * of the buffer are overwritten and `prefixLen` becomes |bytes|.
   */
  function CopyPrefix(n: Node, bytes: seq<Byte>): (r: Node)
    requires WfNode(n) && |bytes| <= PREFIX_SIZE
    ensures WfNode(r) && r.prefixLen == |bytes| && r.prefix[..|bytes|] == bytes
    ensures r.prefix[|bytes|..] == n.prefix[|bytes|..]
    ensures r == n.(prefix := r.prefix, prefixLen := r.prefixLen)
  {
    n.(prefix := bytes + n.prefix[|bytes|..], prefixLen := |bytes|)
  }

  /**
   * What a prefix-mismatch split leaves in the old node: `m + 1` bytes (the
   * shared part and the discriminating byte) are cut from the front of its
   * prefix and the rest is moved down with memmove; the bytes of the buffer
   * past the new length keep their old values.
   */
  function ShiftPrefix(n: Node, m: nat): (r: Node)
    requires WfNode(n) && m < n.prefixLen
    ensures WfNode(r) && r.prefixLen == n.prefixLen - (m + 1)
    ensures r.prefix[..r.prefixLen] == n.prefix[m + 1..n.prefixLen]
    ensures r.prefix[r.prefixLen..] == n.prefix[r.prefixLen..]
    ensures r == n.(prefix := r.prefix, prefixLen := r.prefixLen)
  {
    var len := n.prefixLen - (m + 1);
    n.(prefix := n.prefix[m + 1..n.prefixLen] + n.prefix[len..], prefixLen := len)
  }

  /**
   * The match loop of do_leaf: the end of the run, starting at `depth`, on
   * which the leaf's key and the new key agree.
   */
  function MatchEnd(n: Node, data: seq<Byte>, depth: nat): (j: nat)
    requires WfNode(n) && n.flags == Leaf && depth <= n.keyLen && depth <= |data|
    ensures depth <= j <= n.keyLen && j <= |data|
    ensures n.key[depth..j] == data[depth..j]
    ensures j == n.keyLen || j == |data| || n.key[j] != data[j]
  {
    FirstDifference(n.key, data, depth, Min(n.keyLen, |data|))
  }

  /** make_leaf: a leaf holding the whole key (not a suffix) with count 0. */
  function MakeLeafNode(data: seq<Byte>): (r: Node)
    ensures WfNode(r) && r.flags == Leaf && r.key == data && r.keyLen == |data|
    ensures r.count == 0
  {
    AllocNode(Leaf).(keyLen := |data|, key := data)
  }

  /** leaf_matches: the leaf's whole key equals the key searched for. */
  predicate LeafMatches(n: Node, data: seq<Byte>)
    requires WfNode(n) && n.flags == Leaf
    ensures LeafMatches(n, data) <==> n.key == data
  {
    n.keyLen == |data| && n.key[..n.keyLen] == data
  }
}
