/**
 * The plain 256-way trie of src/lib/art/ops.c as values: every node is an
 * array of 256 child pointers, a C pointer is an address in an arena, and
 * the root node (embedded in the tree's private data) sits at address ROOT.
 * InsertPath is what the recursive `insert` does to the arena; the class
 * Trie.Tree performs the same steps in place and is proved against it.
 */
module TrieSpec {
  import opened Bytes

  type Ref = nat

  const NULL: Ref := 0
  /** The address of the root node embedded in the tree's private data. */
  const ROOT: Ref := 1
  /** Children per node: one for every byte value. */
  const FANOUT: nat := 256

  /** The arena and the address the next allocation returns. */
  datatype Store = Store(nodes: map<Ref, seq<Ref>>, next: Ref)

  /** The children of a freshly allocated node: calloc leaves every pointer NULL. */
  function Zeroed(): (z: seq<Ref>)
    ensures |z| == FANOUT
    ensures forall b :: 0 <= b < FANOUT ==> z[b] == NULL
  {
    seq(FANOUT, _ => NULL)
  }

  /**
   * The root is present, NULL is never a node, every node has 256 children
   * that are NULL or nodes of the arena, and addresses handed out so far lie
   * below `next`.
   */
  ghost predicate Wf(s: Store)
  {
    && ROOT in s.nodes
    && NULL !in s.nodes
    && (forall p :: p in s.nodes ==> p < s.next && |s.nodes[p]| == FANOUT)
    && (forall p, b :: p in s.nodes && 0 <= b < |s.nodes[p]| && s.nodes[p][b] != NULL ==> s.nodes[p][b] in s.nodes)
  }

  /** A new tree: only the zeroed root. */
  function Empty(): (s: Store)
    ensures Wf(s)
  {
    Store(map[ROOT := Zeroed()], ROOT + 1)
  }

  /** A zeroed node allocated at `s.next` and stored in child `b` of node `p`. */
  function AddNode(s: Store, p: Ref, b: Byte): (t: Store)
    requires Wf(s) && p in s.nodes
    ensures Wf(t)
  {
    var n := s.nodes[s.next := Zeroed()];
    Store(n[p := n[p][b := s.next]], s.next + 1)
  }

  /**
   * What `insert(r, stream)` does when the unread bytes of the stream are
   * `key`: take one byte, follow the child it names, allocating a zeroed node
   * there when the child is NULL, and continue with the rest.
   */
  function InsertPath(s: Store, r: Ref, key: seq<Byte>): (t: Store)
    requires Wf(s) && r in s.nodes
    ensures Wf(t)
    ensures s.next <= t.next && forall p :: p in s.nodes ==> p in t.nodes
    decreases |key|
  {
    if key == [] then s
    else if s.nodes[r][key[0]] != NULL then InsertPath(s, s.nodes[r][key[0]], key[1..])
    else InsertPath(AddNode(s, r, key[0]), s.next, key[1..])
  }

  /**
   * The node reached from `r` by following the children named by `key`, or
   * NULL where a child is missing; in a well-formed store the path ends at a
   * node of the store.
   */
  function Follow(s: Store, r: Ref, key: seq<Byte>): (f: Ref)
    ensures Wf(s) && r in s.nodes ==> f == NULL || f in s.nodes
    decreases |key|
  {
    if key == [] then r
    else if r in s.nodes && key[0] < |s.nodes[r]| && s.nodes[r][key[0]] != NULL then Follow(s, s.nodes[r][key[0]], key[1..])
    else NULL
  }

  /**
   * How many leading bytes of `key` already have a path from `r`: the path
   * for that many bytes exists and the next byte's child is missing.
   */
  function Found(s: Store, r: Ref, key: seq<Byte>): (f: nat)
    requires Wf(s) && r in s.nodes
    ensures f <= |key|
    ensures Follow(s, r, key[..f]) != NULL
    ensures f < |key| ==> Follow(s, r, key[..f + 1]) == NULL
    decreases |key|
  {
    if key == [] then 0
    else if s.nodes[r][key[0]] != NULL then
      var f := 1 + Found(s, s.nodes[r][key[0]], key[1..]);
      assert key[..f][1..] == key[1..][..f - 1];
      assert f < |key| ==> key[..f + 1][1..] == key[1..][..f];
      f
    else
      assert key[..1][1..] == [];
      0
  }

  /**
   * `t` grows `s`: no node disappears, a non-NULL child is never overwritten,
   * a NULL child that changes now points at a node allocated after `s`, and
   * new nodes have addresses from `s.next` up to `t.next`.
   */
  ghost predicate Extends(s: Store, t: Store)
  {
    && s.next <= t.next
    && (forall p :: p in s.nodes ==> p in t.nodes)
    && (forall p :: p in t.nodes && p !in s.nodes ==> s.next <= p)
    && (forall p, b :: p in s.nodes && 0 <= b < |s.nodes[p]| && s.nodes[p][b] != NULL && p in t.nodes && b < |t.nodes[p]|
          ==> t.nodes[p][b] == s.nodes[p][b])
    && (forall p, b :: p in s.nodes && 0 <= b < |s.nodes[p]| && p in t.nodes && b < |t.nodes[p]| && t.nodes[p][b] != s.nodes[p][b]
          ==> s.nodes[p][b] == NULL && s.next <= t.nodes[p][b])
  }

  lemma ExtendsTrans(s: Store, t: Store, u: Store)
    requires Wf(s) && Wf(t) && Wf(u)
    requires Extends(s, t) && Extends(t, u)
    ensures Extends(s, u)
  {
    forall p, b | p in s.nodes && 0 <= b < |s.nodes[p]| && p in u.nodes && b < |u.nodes[p]| && u.nodes[p][b] != s.nodes[p][b]
      ensures s.nodes[p][b] == NULL && s.next <= u.nodes[p][b]
    {
      if t.nodes[p][b] != s.nodes[p][b] {
        assert s.nodes[p][b] == NULL && s.next <= t.nodes[p][b];
      }
    }
  }

  /** Inserting never removes a node, never overwrites a child, and links only fresh nodes into NULL children. */
  lemma {:induction false} InsertExtends(s: Store, r: Ref, key: seq<Byte>)
    requires Wf(s) && r in s.nodes
    ensures Extends(s, InsertPath(s, r, key))
    decreases |key|
  {
    if key != [] {
      var c := s.nodes[r][key[0]];
      if c != NULL {
        InsertExtends(s, c, key[1..]);
      } else {
        var s1 := AddNode(s, r, key[0]);
        assert Extends(s, s1);
        InsertExtends(s1, s.next, key[1..]);
        ExtendsTrans(s, s1, InsertPath(s1, s.next, key[1..]));
      }
    }
  }

  /** A path that exists keeps leading to the same node in any extension. */
  lemma {:induction false} FollowExtends(s: Store, t: Store, r: Ref, key: seq<Byte>)
    requires Wf(s) && Wf(t) && Extends(s, t)
    requires Follow(s, r, key) != NULL
    ensures Follow(t, r, key) == Follow(s, r, key)
    decreases |key|
  {
    if key != [] {
      FollowExtends(s, t, s.nodes[r][key[0]], key[1..]);
    }
  }

  /** Every prefix of a path that exists exists. */
  lemma {:induction false} FollowPrefix(s: Store, r: Ref, key: seq<Byte>, i: nat)
    requires r != NULL && i <= |key| && Follow(s, r, key) != NULL
    ensures Follow(s, r, key[..i]) != NULL
    decreases i
  {
    if i > 0 {
      assert key[..i][0] == key[0] && key[..i][1..] == key[1..][..i - 1];
      FollowPrefix(s, s.nodes[r][key[0]], key[1..], i - 1);
    }
  }

  /** After inserting `key` from `r`, the node for every prefix of `key` is present. */
  lemma {:induction false} InsertReaches(s: Store, r: Ref, key: seq<Byte>)
    requires Wf(s) && r in s.nodes
    ensures Follow(InsertPath(s, r, key), r, key) != NULL
    ensures forall i :: 0 <= i <= |key| ==> Follow(InsertPath(s, r, key), r, key[..i]) != NULL
    decreases |key|
  {
    var t := InsertPath(s, r, key);
    if key != [] {
      var c := s.nodes[r][key[0]];
      var s1 := if c != NULL then s else AddNode(s, r, key[0]);
      var c1 := if c != NULL then c else s.next;
      assert s1.nodes[r][key[0]] == c1;
      InsertReaches(s1, c1, key[1..]);
      InsertExtends(s1, c1, key[1..]);
      assert t.nodes[r][key[0]] == c1;
    }
    forall i | 0 <= i <= |key|
      ensures Follow(t, r, key[..i]) != NULL
    {
      FollowPrefix(t, r, key, i);
    }
  }

  /** Re-inserting a key whose path exists changes nothing: every child is found and nothing is allocated. */
  lemma {:induction false} ReinsertUnchanged(s: Store, r: Ref, key: seq<Byte>)
    requires Wf(s) && r in s.nodes
    requires Follow(s, r, key) != NULL
    ensures InsertPath(s, r, key) == s
    decreases |key|
  {
    if key != [] {
      ReinsertUnchanged(s, s.nodes[r][key[0]], key[1..]);
    }
  }

  /** Inserting the same key twice is the same as inserting it once. */
  lemma InsertIdempotent(s: Store, r: Ref, key: seq<Byte>)
    requires Wf(s) && r in s.nodes
    ensures r in InsertPath(s, r, key).nodes
    ensures InsertPath(InsertPath(s, r, key), r, key) == InsertPath(s, r, key)
  {
    InsertExtends(s, r, key);
    InsertReaches(s, r, key);
    ReinsertUnchanged(InsertPath(s, r, key), r, key);
  }

  /**
   * One node is allocated for every byte of `key` past the part whose path
   * already exists.
   */
  lemma {:induction false} InsertAllocates(s: Store, r: Ref, key: seq<Byte>)
    requires Wf(s) && r in s.nodes
    ensures InsertPath(s, r, key).next == s.next + |key| - Found(s, r, key)
    decreases |key|
  {
    if key != [] {
      var c := s.nodes[r][key[0]];
      if c != NULL {
        InsertAllocates(s, c, key[1..]);
      } else {
        var s1 := AddNode(s, r, key[0]);
        InsertAllocates(s1, s.next, key[1..]);
        FoundNothingBelowNew(s, r, key[0], key[1..]);
      }
    }
  }

  /** Below a node just added, no byte has a child yet. */
  lemma FoundNothingBelowNew(s: Store, p: Ref, b: Byte, rest: seq<Byte>)
    requires Wf(s) && p in s.nodes
    ensures Found(AddNode(s, p, b), s.next, rest) == 0
  {
    var s1 := AddNode(s, p, b);
    if rest != [] {
      assert s1.nodes[s.next][rest[0]] == NULL;
    }
  }

  /**
   * Of the children of nodes of `s`, only child `b` of node `q` differs in
   * `t`, and it holds `v`.
   */
  ghost predicate ChangesOnly(s: Store, t: Store, q: Ref, b: Byte, v: Ref)
  {
    && q in t.nodes && b < |t.nodes[q]| && t.nodes[q][b] == v
    && forall p, i :: p in s.nodes && p in t.nodes && 0 <= i < |s.nodes[p]| && i < |t.nodes[p]| && t.nodes[p][i] != s.nodes[p][i]
         ==> p == q && i == b
  }

  /** A change confined to a node outside `s` does not add to the changes of `s`'s nodes. */
  lemma ChangesOnlyThenFresh(s: Store, s1: Store, t: Store, q: Ref, b: Byte, v: Ref, q1: Ref, b1: Byte, v1: Ref)
    requires ChangesOnly(s, s1, q, b, v) && ChangesOnly(s1, t, q1, b1, v1)
    requires Wf(s) && Wf(s1) && Wf(t) && q1 !in s.nodes && q != q1
    requires (forall p :: p in s.nodes ==> p in s1.nodes) && (forall p :: p in s1.nodes ==> p in t.nodes)
    ensures ChangesOnly(s, t, q, b, v)
  {
  }

  /**
   * When some byte of `key` has no child yet, inserting changes exactly one
   * child of the nodes already present: child `key[f]` of the deepest node
   * on the existing path, where `f` bytes were found. It then points at the
   * first node allocated; every other child of every old node keeps its
   * value.
   */
  lemma {:induction false} InsertChangesOneChild(s: Store, r: Ref, key: seq<Byte>)
    requires Wf(s) && r in s.nodes && Found(s, r, key) < |key|
    ensures var f := Found(s, r, key);
      ChangesOnly(s, InsertPath(s, r, key), Follow(s, r, key[..f]), key[f], s.next)
    decreases |key|
  {
    var t, f := InsertPath(s, r, key), Found(s, r, key);
    var c := s.nodes[r][key[0]];
    if c != NULL {
      InsertChangesOneChild(s, c, key[1..]);
      assert key[..f][0] == key[0] && key[..f][1..] == key[1..][..f - 1];
    } else {
      var s1 := AddNode(s, r, key[0]);
      assert ChangesOnly(s, s1, r, key[0], s.next);
      FoundNothingBelowNew(s, r, key[0], key[1..]);
      if |key| > 1 {
        InsertChangesOneChild(s1, s.next, key[1..]);
        assert key[1..][..0] == [];
        ChangesOnlyThenFresh(s, s1, t, r, key[0], s.next, s.next, key[1], s.next + 1);
      }
      assert key[..0] == [];
    }
  }
}
