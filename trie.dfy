/**
 * The trie backend of src/lib/art/ops.c in place: the static byte stream,
 * the tree whose 256-way nodes `insert` extends one byte at a time, and the
 * set-up in `art_tree_insert` that turns a call stack into the stream.
 */
module Trie {
  import opened Bytes
  import opened TrieSpec

  /** Entries in a recorded call stack (src/include/data/data.h). */
  const MAX_STACK_ENTRIES: nat := 256
  /** Bytes in one `struct callstack_entry`: two 8-byte unsigned longs. */
  const ENTRY_BYTES: nat := 16
  /** Bytes in a whole recorded call stack. */
  const STACK_BYTES: nat := MAX_STACK_ENTRIES * ENTRY_BYTES

  type ULong = x: int | 0 <= x < 0x1_0000_0000_0000_0000

  /** One frame: the instruction pointer and the address of its map. A zero `ip` ends the stack. */
  datatype Entry = Entry(ip: ULong, mapAddr: ULong)

  function Pow256(n: nat): (r: nat)
    ensures r > 0
  {
    if n == 0 then 1 else 256 * Pow256(n - 1)
  }

  /** The `n` low bytes of `x`, least significant first, as they lie in memory on a little-endian machine. */
  function LittleEndian(x: nat, n: nat): (bs: seq<Byte>)
    ensures |bs| == n
  {
    if n == 0 then [] else [x % 256] + LittleEndian(x / 256, n - 1)
  }

  /** The number whose little-endian bytes are `bs`. */
  function FromLittleEndian(bs: seq<Byte>): nat
  {
    if bs == [] then 0 else bs[0] + 256 * FromLittleEndian(bs[1..])
  }

  /** Reading back the bytes of a number that fits gives the number. */
  lemma {:induction false} LittleEndianRoundTrip(x: nat, n: nat)
    requires x < Pow256(n)
    ensures FromLittleEndian(LittleEndian(x, n)) == x
  {
    if n > 0 {
      assert x / 256 < Pow256(n - 1);
      LittleEndianRoundTrip(x / 256, n - 1);
      assert LittleEndian(x, n)[1..] == LittleEndian(x / 256, n - 1);
    }
  }

  /** The 16 bytes of an entry: `ip`, then `map`. */
  function EntryBytes(e: Entry): (bs: seq<Byte>)
    ensures |bs| == ENTRY_BYTES
  {
    LittleEndian(e.ip, 8) + LittleEndian(e.mapAddr, 8)
  }

  /** The memory of a stack of entries, read as bytes. */
  function StackBytes(stack: seq<Entry>): (bs: seq<Byte>)
    ensures |bs| == ENTRY_BYTES * |stack|
  {
    if stack == [] then [] else EntryBytes(stack[0]) + StackBytes(stack[1..])
  }

  /** The entries whose memory is `bs`, 16 bytes each. */
  function StackOf(bs: seq<Byte>): seq<Entry>
    decreases |bs|
  {
    if |bs| < ENTRY_BYTES then []
    else
      var ip, m := FromLittleEndian(bs[..8]), FromLittleEndian(bs[8..ENTRY_BYTES]);
      if ip < 0x1_0000_0000_0000_0000 && m < 0x1_0000_0000_0000_0000 then [Entry(ip, m)] + StackOf(bs[ENTRY_BYTES..])
      else []
  }

  /** The bytes of a stack determine the stack: different call stacks are different keys. */
  lemma {:induction false} StackBytesRoundTrip(stack: seq<Entry>)
    ensures StackOf(StackBytes(stack)) == stack
  {
    if stack != [] {
      var e, bs := stack[0], StackBytes(stack);
      assert Pow256(8) == 0x1_0000_0000_0000_0000;
      LittleEndianRoundTrip(e.ip, 8);
      LittleEndianRoundTrip(e.mapAddr, 8);
      assert bs[..8] == LittleEndian(e.ip, 8);
      assert bs[8..ENTRY_BYTES] == LittleEndian(e.mapAddr, 8);
      assert bs[ENTRY_BYTES..] == StackBytes(stack[1..]);
      StackBytesRoundTrip(stack[1..]);
    }
  }

  /** The bytes of the first `i` entries start the bytes of the stack. */
  lemma {:induction false} StackBytesPrefix(stack: seq<Entry>, i: nat)
    requires i <= |stack|
    ensures StackBytes(stack)[..ENTRY_BYTES * i] == StackBytes(stack[..i])
  {
    if i > 0 {
      StackBytesPrefix(stack[1..], i - 1);
      assert stack[..i][1..] == stack[1..][..i - 1];
    }
  }

  /** The index of the first entry whose `ip` is 0, or the stack's length when there is none. */
  function Depth(stack: seq<Entry>): (n: nat)
    ensures n <= |stack|
    ensures forall j :: 0 <= j < n ==> stack[j].ip != 0
    ensures n < |stack| ==> stack[n].ip == 0
  {
    if stack == [] || stack[0].ip == 0 then 0 else 1 + Depth(stack[1..])
  }

  /**
   * The static stream: the bytes it reads, the offset of its `end` pointer
   * from `data`, and the current position.
   */
  class Stream {
    var data: seq<Byte>
    var end: nat
    var pos: nat

    /** The zero-initialised static stream: no data, `end` equal to `data`, position 0. */
    constructor ()
      ensures data == [] && end == 0 && pos == 0
    {
      data, end, pos := [], 0, 0;
    }

    /** `end` lies within the data. */
    ghost predicate Valid()
      reads this
    {
      end <= |data|
    }

    /** The bytes not read yet. */
    function Rest(): seq<Byte>
      reads this
      requires Valid()
    {
      if pos <= end then data[pos..end] else []
    }

    /** `stream_end`: the position has reached `end`, so no byte is left to read. */
    function AtEnd(): (r: bool)
      reads this
      requires Valid()
      ensures r <==> Rest() == []
    {
      pos >= end
    }

    /** `stream_next`: the byte at the position, which then advances by one. */
    method Next() returns (b: Byte)
      requires pos < |data|
      modifies this
      ensures b == old(data[pos])
      ensures data == old(data) && end == old(end) && pos == old(pos) + 1
      ensures old(Valid()) && old(pos) < end ==> Valid() && old(Rest()) == [b] + Rest()
    {
      b := data[pos];
      pos := pos + 1;
    }
  }

  /** The nodes of one tree: the root embedded in its private data, and the nodes `insert` allocated. */
  class Tree {
    var nodes: map<Ref, seq<Ref>>
    var next: Ref

    function State(): Store
      reads this
    {
      Store(nodes, next)
    }

    ghost predicate Valid()
      reads this
    {
      Wf(State())
    }

    /** `art_tree_new`: the private data is zeroed, so the root has no children. */
    constructor ()
      ensures State() == Empty()
    {
      nodes := map[ROOT := Zeroed()];
      next := ROOT + 1;
    }

    /** `alloc_node`: a node with every child NULL, at an address not in use. */
    method AllocNode() returns (q: Ref)
      requires Valid()
      modifies this
      ensures q == old(next) && q != NULL && q !in old(nodes)
      ensures nodes == old(nodes)[q := Zeroed()] && next == old(next) + 1
    {
      q := next;
      nodes := nodes[q := Zeroed()];
      next := next + 1;
    }

    /**
     * `insert`: read the stream to its end, following from `r` the child each
     * byte names and allocating a zeroed child where there is none.
     */
    method Insert(r: Ref, stream: Stream)
      requires Valid() && r in nodes && stream.Valid()
      modifies this, stream
      ensures Valid() && State() == InsertPath(old(State()), r, old(stream.Rest()))
      ensures stream.data == old(stream.data) && stream.end == old(stream.end)
      ensures stream.pos == if old(stream.pos) <= stream.end then stream.end else old(stream.pos)
      decreases |stream.Rest()|
    {
      if stream.AtEnd() {
        return;
      }
      ghost var s, key := State(), stream.Rest();
      var b := stream.Next();
      assert key[0] == b && key[1..] == stream.Rest();
      var child := nodes[r][b];
      if child != NULL {
        Insert(child, stream);
        return;
      }
      var q := AllocNode();
      nodes := nodes[r := nodes[r][b := q]];
      assert State() == AddNode(s, r, b);
      Insert(q, stream);
    }

    /**
     * `art_tree_insert`: point the stream at the stack's bytes, end it at the
     * first entry whose `ip` is 0, and insert from the root. A stack with no
     * such entry leaves `end` as the previous call set it.
     */
    method InsertStack(stack: seq<Entry>, stream: Stream)
      requires Valid() && stream.Valid() && |stack| == MAX_STACK_ENTRIES && stream.end <= STACK_BYTES
      modifies this, stream
      ensures stream.data == StackBytes(stack) && stream.pos == stream.end
      ensures stream.end == if Depth(stack) < |stack| then ENTRY_BYTES * Depth(stack) else old(stream.end)
      ensures Valid() && State() == InsertPath(old(State()), ROOT, stream.data[..stream.end])
      ensures Depth(stack) < |stack| ==> State() == InsertPath(old(State()), ROOT, StackBytes(stack[..Depth(stack)]))
      ensures Follow(State(), ROOT, stream.data[..stream.end]) != NULL
    {
      var i := 0;
      while i < MAX_STACK_ENTRIES
        invariant i <= MAX_STACK_ENTRIES && stream.end == old(stream.end)
        invariant forall j :: 0 <= j < i ==> stack[j].ip != 0
      {
        if stack[i].ip == 0 {
          stream.end := ENTRY_BYTES * i;
          break;
        }
        i := i + 1;
      }
      stream.pos := 0;
      stream.data := StackBytes(stack);
      ghost var s, key := State(), stream.data[..stream.end];
      Insert(ROOT, stream);
      InsertReaches(s, ROOT, key);
      if Depth(stack) < |stack| {
        StackBytesPrefix(stack, Depth(stack));
      }
    }
  }
}
