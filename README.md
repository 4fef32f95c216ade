# callstack-count indexes in Dafny

A model of the three in-memory indexes that callstack-count uses to count call stacks.

- **The adaptive radix tree** (`src/lib/art/art.c`). Nodes are leaves or inner nodes of shape 4, 16, 48 or 256. Each node has a prefix buffer of 128 bytes and a count. The model covers child lookup, adding a child, growing a full node, prefix comparison, `insert` (with `do_leaf`) and `search`.
- **The plain 256-way trie** (`src/lib/art/ops.c`). This is the backend registered as `art_ops`. `insert` reads one byte of a static stream per level and allocates a zeroed node where a child is missing. `art_tree_insert` points the stream at the bytes of a call stack.
- **The counting hash table** (`src/lib/hashtable/hashtable.c`). Up to three distinct keys live in inline buckets. The fourth distinct key switches the table to a map of 65536 slots indexed by a 16-bit hash. `basic_hash` is the rolling hash its test uses.

Each C file is modelled twice: as values, and as imperative Dafny proved against those values.

- Pure functions describe what each operation does to a value of the whole structure: `ArtSpec.InsertResult`, `TrieSpec.InsertPath`, `HashSpec.InsertResult`.
- Classes hold the same state in fields and arrays: `Art.Tree`, `Trie.Tree`, `HashTable.Hashtable`. Each method's postcondition proves it equal to the pure function of the old state. The loops and the per-shape writes of the C code are kept as loops and array writes. In `Art.Tree`, the new nodes of a split and the node `grow` makes are built as values (`Art.LeafSplitBuild`, `Art.MismatchBuild`, `Art.GrowBuild`) and stored by one write, and the body of `insert`'s loop is the separate method `Art.Advance`.
- Lemmas about the pure functions state what the source promises. They cover:
  - well-formedness kept by insert;
  - a key is found after it is inserted;
  - counts grow by one;
  - nothing else changes;
  - re-inserting allocates nothing;
  - the serialised call stack round-trips.

Pointers are addresses in an arena (`map` from address to node). NULL is 0, and fresh addresses come from a counter. Keys are sequences of the integer subtype `Byte` (0..255).

Modules:

| module | file |
|---|---|
| `Options`, `Bytes` | `common.dfy` |
| `ArtNode` | `art_node.dfy` |
| `ArtSpec` | `art_spec.dfy` |
| `ArtValid` | `art_valid.dfy` |
| `ArtFound` | `art_found.dfy` |
| `Art` | `art.dfy` |
| `TrieSpec` | `trie_spec.dfy` |
| `Trie` | `trie.dfy` |
| `HashSpec` | `hash_spec.dfy` |
| `HashProps` | `hash_props.dfy` |
| `HashTable` | `hashtable.dfy` |

Behaviours of the C code that the model keeps and proves as they are:

- **ART.**
  - A leaf stores the whole key.
  - `add_child` on a 256-node does not bump `key_len`.
  - `grow` starts from a zeroed node, so it drops the prefix and the count.
  - A leaf split drops a key that ends at the split point.
  - A split can reset a count. After "A" is inserted twice its leaf has count 1. Inserting "AB" then splits that leaf. The inner node that now stands for "A" starts at count 0, and the old leaf is no longer reachable (`ArtFound.CountReset`).
  - A key that ends right after an inner node's prefix is counted on that inner node.
- **Hash table.**
  - On the switch to the map, the three inline keys are inserted afresh. When the four keys hash to four distinct slots, each inline key ends with count 1, whatever it had, and is counted as unique again (`HashProps.PromotionRestartsCounts`). When two of them share a slot, that slot's bucket ends with count 2 if the keys agree on the new key's length, and otherwise the assertion in `__hash_insert` aborts (src/lib/hashtable/hashtable.c:73-78).
  - In the map phase, lookup reads whatever bucket is in the key's slot.
  - Lookup of an empty slot dereferences NULL.

## Model

| member | source | states |
|---|---|---|
| ArtNode.AllocNode | src/lib/art/art.c:99-149 | the node `alloc_node` returns is well formed, of the requested shape, with zero key length, count and prefix length, and every edge NULL |
| ArtNode.NodeSize | src/lib/art/art.c:80-97 | `node_size` gives the number of child slots that `alloc_node` gives the shape |
| ArtNode.IsFull | src/lib/art/art.c:180-190 | a well-formed node of shape 4, 16 or 48 is full exactly when its last child slot is in use; a 256-node is never full |
| ArtNode.FullIffNoFreeSlot | src/lib/art/art.c:174-190 | a node of shape 4, 16 or 48 is full exactly when no child slot is NULL |
| ArtNode.Child | src/lib/art/art.c:221-253 | the child `*find_child` yields is NULL or one of the node's edges; for shapes 4 and 16 it is non-NULL exactly when the byte is among the used key bytes, for 48 exactly when the index entry is not EMPTY, and for 256 it is slot `b` |
| ArtNode.FirstIndex | src/lib/art/art.c:196-199 | the linear scan finds the first of the used key bytes equal to `b`, and finds none exactly when `b` is not among them |
| ArtNode.FindChild | src/lib/art/art.c:221-253 | `find_child` per shape: 4 and 16 give the first used slot holding the byte or none; 48 gives none exactly when the index entry is EMPTY; 256 always gives slot `b` |
| ArtNode.AddChildNode | src/lib/art/art.c:272-312 | `add_child` on a non-full node without that byte: the edge over `b` now leads to the child and every other edge is unchanged; `key_len` grows by one except on shape 256; earlier slots are untouched; count and prefix are kept |
| ArtNode.AddCompact | src/lib/art/art.c:295-300 | shapes 4 and 16 append the byte and the child at index `key_len` and keep the earlier entries |
| ArtNode.Add48 | src/lib/art/art.c:301-305 | shape 48 writes the child at slot `key_len`, records it in the byte index, and keeps the earlier slots |
| ArtNode.FirstIndexExtend | src/lib/art/art.c:196-199 | appending one key byte leaves the scan for every other byte unchanged |
| ArtNode.GrowNode | src/lib/art/art.c:345-404 | `grow`: the next shape, with the same edges, `key_len` equal to the old capacity, room for one more child, and zero count and prefix length |
| ArtNode.Grow4 | src/lib/art/art.c:375-378 | a full 4-node becomes a 16-node with the same edges and `key_len` 4 |
| ArtNode.Grow16 | src/lib/art/art.c:379-385 | a full 16-node becomes a 48-node whose byte index reaches the same children, with `key_len` 16 |
| ArtNode.Grow48 | src/lib/art/art.c:386-395 | a full 48-node becomes a 256-node with the same edges and `key_len` 48 |
| ArtNode.Index48Wf | src/lib/art/art.c:379-385 | the byte index built from 16 distinct keys holds EMPTY or a slot below 16, and no slot twice |
| ArtNode.FirstDifference | src/lib/art/art.c:432-435 | the first position in a range where two keys differ: they agree before it, and it is the bound or a real difference |
| ArtNode.FirstDifferenceUnique | src/lib/art/art.c:432-435 | any position with those two properties is the one FirstDifference returns |
| ArtNode.PrefixMatch | src/lib/art/art.c:317-340 | `check_prefix` returns m ≤ min(`prefix_len`, size − depth) with the first m prefix bytes equal to the key's; m is the bound or the next bytes differ |
| ArtNode.PrefixMatchUnique | src/lib/art/art.c:317-340 | any count with the three properties of check_prefix is the one it returns |
| ArtNode.PrefixSplits | src/lib/art/art.c:513-519 | helper: a check_prefix result short of the prefix, with key bytes left, is a real split point |
| ArtNode.CopyPrefix | src/lib/art/art.c:471-474 | the memcpy into the prefix overwrites its first bytes and sets `prefix_len`, leaving the rest of the node alone |
| ArtNode.ShiftPrefix | src/lib/art/art.c:524-526 | `prefix_len -= m + 1` and the memmove: the remaining prefix is the old one from byte m + 1 on; the tail of the buffer and the rest of the node are unchanged |
| ArtNode.MatchEnd | src/lib/art/art.c:432-435 | `do_leaf`'s match loop stops where the leaf's key and the new key part, or where either ends |
| ArtNode.MakeLeafNode | src/lib/art/art.c:406-412 | `make_leaf` holds the whole key, `key_len` is the stream size, and the count is 0 |
| ArtNode.LeafMatches | src/lib/art/art.c:561-568 | `leaf_matches` holds exactly when the leaf's key is the whole key |
| ArtSpec.SetSlot | src/lib/art/art.c:255-265 | `replace` stores the pointer in the slot and changes neither the set of nodes nor the next free address |
| ArtSpec.Bump | src/lib/art/art.c:532-536 | `count++` adds one to that node's count and changes neither the root, the set of nodes nor the next free address (the leaf's `count++` at line 439 is the same change) |
| ArtSpec.Search | src/lib/art/art.c:561-602 | `search` returns NULL or a node of the tree |
| ArtSpec.Walk | src/lib/art/art.c:507-555 | `insert`'s loop stops at a node it cannot descend from, reached over a real edge of its parent |
| ArtSpec.RunNode | src/lib/art/art.c:444-474 | the zeroed 4-node with the shared run as its prefix has no children |
| ArtSpec.AddChildIf | src/lib/art/art.c:476-484 | the conditional `add_child` of a leaf split appends the edge when its condition holds, and otherwise leaves the node unchanged |
| ArtSpec.LeafSplitShape | src/lib/art/art.c:444-486 | a leaf split builds a 4-node whose prefix is the shared run, with the old leaf's byte first and the new key's byte second, each only if that key goes on past the run |
| ArtSpec.LeafSplitNode | src/lib/art/art.c:444-484 | the node `do_leaf` builds is a well-formed 4-node with count 0 whose prefix length is the length of the run the two keys share |
| ArtSpec.DoLeafResult | src/lib/art/art.c:414-487 | `do_leaf` keeps every node and allocates at most two; it allocates nothing exactly when the match loop reaches the end of both keys |
| ArtSpec.Interpose | src/lib/art/art.c:501-505 | allocating the new node (and leaf) advances the next free address by one or two, keeps every old node, puts the node at the old next address and the leaf after it, and stores the node's address in the slot |
| ArtSpec.MismatchIsAdds | src/lib/art/art.c:514-523 | the mismatch node equals `alloc_node`, then `add_child` of the new leaf, then `add_child` of the old node, then the memcpy of the shared bytes, each step allowed |
| ArtSpec.MismatchShape | src/lib/art/art.c:514-528 | a prefix-mismatch split makes a 4-node with prefix `old[0..m)`, keys `data[depth+m]` then `prefix[m]`, and edges to the new leaf then the old node |
| ArtSpec.MismatchNode | src/lib/art/art.c:514-523 | the mismatch node is a well-formed 4-node with two children, count 0 and prefix length m |
| ArtSpec.SplitResult | src/lib/art/art.c:514-528 | the prefix-mismatch split allocates exactly the new node and the leaf, keeps every old node, stores the new node in the slot, and the leaf holds the whole key |
| ArtSpec.GrowResult | src/lib/art/art.c:547-551 | `grow` allocates one node, of the next shape, stores it in the slot, and gives it the same child for every byte as the old node |
| ArtSpec.AddResult | src/lib/art/art.c:547-554 | adding to an inner node allocates the leaf (after the grown node when the node was full), the leaf holds the whole key, and every old node is kept |
| ArtSpec.Terminal | src/lib/art/art.c:508-555 | the change where the loop stops keeps every node, allocates at most two, and changes the root only when it replaces the root, which then is the node just allocated |
| ArtSpec.InsertResult | src/lib/art/art.c:491-559 | after `insert` the root is a node of the tree; every old node is kept and at most two are allocated |
| ArtSpec.Found | src/lib/art/art.c:578-599 | where `search` stops: a leaf is found exactly when its key is the key; an inner node only when its prefix is the rest of the key |
| ArtSpec.NextIndex | src/lib/art/art.c:539-545 | the slot `insert` and `search` move to holds the child for the key's next byte, and that child is not NULL |
| ArtSpec.WalkDescends | src/lib/art/art.c:539-545 | one turn of the loop: from a node that descends, the walk goes on from that child, one byte deeper |
| ArtSpec.WalkStops | src/lib/art/art.c:508-537 | at a node that does not descend, the loop stops there |
| ArtSpec.SearchAtStop | src/lib/art/art.c:578-599 | where the loop stops, `search` returns that node exactly when its key or prefix matches, and NULL otherwise |
| ArtSpec.SearchEndsWalk | src/lib/art/art.c:574-602 | `search` and `insert`'s loop follow the same path: a node `search` finds is where the loop stops, and it matches there |
| ArtSpec.ReinsertOnlyCounts | src/lib/art/art.c:437-441 | inserting a key `search` already finds changes only the found node's count: no node is allocated and the root stays |
| ArtSpec.BumpHeapOk | src/lib/art/art.c:439 | bumping a count keeps every node well formed |
| ArtSpec.CountBlind | src/lib/art/art.c:578-599 | a node's count does not change whether it is well formed, whether the walk descends from it, whether it matches, or which child comes next |
| ArtSpec.SearchIgnoresCount | src/lib/art/art.c:573-602 | `search` returns the same node after any node's count changes |
| ArtSpec.BumpFinds | src/lib/art/art.c:437-441 | after bumping the count of the node `search` finds, the tree stays valid, `search` finds the same node, and only that node's count has changed |
| ArtSpec.ReinsertAgain | src/lib/art/art.c:437-441 | inserting a key `search` already finds adds one to that node's count, keeps the root and next address, and leaves every other node unchanged |
| ArtSpec.Reinserts | src/lib/art/test.c:413-445 | n further inserts of a key `search` finds add exactly n to that node's count and change nothing else |
| ArtSpec.RepeatedInsertCount | src/lib/art/test.c:413-445 | into an empty tree, one insert and then n more leave one leaf, which `search` finds, with count n |
| ArtValid.BumpValid | src/lib/art/art.c:439 | counting a key again keeps the tree valid |
| ArtValid.DoLeafValid | src/lib/art/art.c:414-487 | `do_leaf` keeps the tree valid (every node well formed, every pointer into the arena, no cycle) |
| ArtValid.LeafSplitValid | src/lib/art/art.c:444-487 | the split `do_leaf` makes for a key that differs from the leaf's keeps the tree valid |
| ArtValid.SplitValid | src/lib/art/art.c:514-528 | the prefix-mismatch split keeps the tree valid |
| ArtValid.AddValid | src/lib/art/art.c:547-554 | grow-then-add keeps the tree valid |
| ArtValid.TerminalValid | src/lib/art/art.c:508-555 | whichever change the loop makes where it stops keeps the tree valid |
| ArtValid.InnerTerminalValid | src/lib/art/art.c:513-554 | at an inner node, the split, the `count++` or the added leaf keeps the tree valid |
| ArtValid.InsertPreservesValid | src/lib/art/art.c:491-559 | `insert` keeps the tree valid |
| ArtFound.DoLeafFound | src/lib/art/art.c:414-487 | after `do_leaf`, `search` from the node in the leaf's slot reaches the key |
| ArtFound.SplitFound | src/lib/art/art.c:514-528 | after a prefix-mismatch split, `search` from the new node reaches the key |
| ArtFound.InnerBumpFound | src/lib/art/art.c:532-536 | a key that ends right after an inner node's prefix is counted there and found there |
| ArtFound.AddFound | src/lib/art/art.c:547-554 | after adding the leaf (growing a full prefix-less node first), `search` reaches the key |
| ArtFound.AddedFound | src/lib/art/art.c:539-554 | when the next byte has no child, the leaf added at the stop node is reached by `search` |
| ArtFound.TerminalFound | src/lib/art/art.c:508-555 | the change where the loop stops leaves in its slot a node from which `search` reaches the key |
| ArtFound.SearchFollowsWalk | src/lib/art/art.c:574-602 | after the change, `search` from any ancestor of the stop node follows the old path down to the rewired slot |
| ArtFound.InsertThenFound | src/lib/art/art.c:491-602 | right after `insert` stores a key, `search` finds it and the tree is valid (under Faithful, see Left out) |
| ArtFound.Faithful | src/lib/art/art.c:414-441 | assumption taken by the found lemmas, not proved of the trees insert builds: a leaf where insert stops shares the key's first `depth` bytes, and a full node about to be grown for the key (lines 549-551) has no prefix |
| ArtFound.SplitDropsCount | src/lib/art/art.c:476-486 | inserting "AB" over a leaf "A" with count 1 gives well-formed nodes, and `search` for "A" then finds the new inner node, with count 0 |
| ArtFound.CountReset | src/lib/art/art.c:578-599 | inserting "A", "A" and then "AB" leaves "A" found with count 0: the count of 1 is lost |
| Art.KeyStream.constructor | src/lib/art/art.c:25-29 | `stream_init`: the key and position 0 |
| Art.FindChildScan | src/lib/art/art.c:192-253 | the per-shape lookup loop returns exactly FindChild |
| Art.CheckPrefix | src/lib/art/art.c:317-340 | the memcmp fast path and the counting loop return exactly PrefixMatch |
| Art.GrowBuild | src/lib/art/art.c:371-400 | the copy loops of `grow` build exactly GrowNode |
| Art.MismatchBuild | src/lib/art/art.c:516-523 | the mismatch node built in `insert`'s order is MismatchNode |
| Art.KeyMatch | src/lib/art/art.c:432-435 | `do_leaf`'s match loop stops at MatchEnd |
| Art.AddChild | src/lib/art/art.c:272-312 | the per-shape `add_child` writes give exactly AddChildNode |
| Art.LeafSplitBuild | src/lib/art/art.c:444-484 | the node `do_leaf` fills in is LeafSplitNode |
| Art.LeafSplitSteps | src/lib/art/art.c:476-484 | each conditional `add_child` of the leaf split meets `add_child`'s asserts |
| Art.WalkNext | src/lib/art/art.c:539-545 | following the edge for the next byte moves the walk one node down |
| Art.Advance | src/lib/art/art.c:508-545 | one turn of the loop either stops exactly where Walk stops, with `m` the prefix match at an inner node, or moves one edge deeper to a node of the arena without changing where Walk ends |
| Art.GrowThenAdd | src/lib/art/art.c:549-553 | grow, make_leaf, then add_child on the grown node give the same tree as linking the finished node |
| Art.Tree.constructor | src/lib/art/art.c:501 | an empty tree: the root is NULL |
| Art.Tree.NewNode | src/lib/art/art.c:99-149 | `alloc_node` puts a zeroed node at the next free address |
| Art.Tree.MakeLeaf | src/lib/art/art.c:406-412 | `make_leaf` allocates a leaf holding the whole key |
| Art.Tree.Replace | src/lib/art/art.c:255-265 | `replace` writes the slot |
| Art.Tree.Link | src/lib/art/art.c:444-486 | allocating the node and leaf and replacing the slot is Interpose |
| Art.Tree.Count | src/lib/art/art.c:535 | `count++` on one node |
| Art.Tree.AddChildAt | src/lib/art/art.c:272-312 | `add_child` in place changes only that node |
| Art.Tree.Insert | src/lib/art/art.c:491-559 | `insert` moves the tree to InsertResult, advances `pos` by one per edge followed, keeps the tree valid, and leaves the key findable under Faithful |
| Art.Tree.Locate | src/lib/art/art.c:507-545 | the `while (1)` loop stops where Walk says, with `pos` advanced once per edge |
| Art.Tree.Finish | src/lib/art/art.c:508-554 | the change at the stop node is Terminal |
| Art.Tree.FinishInner | src/lib/art/art.c:513-554 | at an inner node, the split, the `count++` or the added leaf is the change Terminal gives |
| Art.Tree.Split | src/lib/art/art.c:514-528 | the prefix-mismatch split in place is SplitResult |
| Art.Tree.CutPrefix | src/lib/art/art.c:524-526 | shortening and shifting the old node's prefix in place is ShiftPrefix |
| Art.Tree.AddLeaf | src/lib/art/art.c:547-554 | grow-then-add in place is AddResult |
| Art.Tree.Grow | src/lib/art/art.c:345-404 | `grow` in place: the slot holds the new node, which is GrowNode of the old one |
| Art.Tree.DoLeaf | src/lib/art/art.c:414-487 | `do_leaf` in place is DoLeafResult |
| Art.Tree.LeafSplit | src/lib/art/art.c:444-486 | the split half of `do_leaf` in place links LeafSplitNode and the new leaf |
| TrieSpec.Zeroed | src/lib/art/ops.c:81-90 | `alloc_node`'s node has 256 children, all NULL |
| TrieSpec.Follow | src/lib/art/ops.c:105-111 | following `children[key[i]]` from a node of a well-formed tree ends at NULL or at a node of the tree |
| TrieSpec.Empty | src/lib/art/ops.c:142-159 | the zeroed private data is a well-formed tree |
| TrieSpec.AddNode | src/lib/art/ops.c:112-114 | linking a fresh zeroed node under `children[b]` keeps the tree well formed |
| TrieSpec.InsertPath | src/lib/art/ops.c:96-117 | `insert` keeps the tree well formed, never frees, and never lowers the next address |
| TrieSpec.Found | src/lib/art/ops.c:105-111 | how many leading bytes of a key already have a path: that prefix reaches a node, and one more byte does not |
| TrieSpec.ExtendsTrans | src/lib/art/ops.c:108-116 | a tree that only gains nodes and fills NULL children, done twice, is done once |
| TrieSpec.InsertExtends | src/lib/art/ops.c:108-116 | `insert` never overwrites a non-NULL child: the old tree is kept and only NULL children are filled |
| TrieSpec.FollowExtends | src/lib/art/ops.c:108-111 | a path that exists stays the same path after more inserts |
| TrieSpec.FollowPrefix | src/lib/art/ops.c:105-116 | a path that reaches a node passes through nodes for every shorter prefix |
| TrieSpec.InsertReaches | src/lib/art/ops.c:105-116 | after `insert`, following `children[key[i]]` from the start for every prefix of the consumed bytes reaches a node |
| TrieSpec.ReinsertUnchanged | src/lib/art/ops.c:108-111 | inserting bytes whose path already exists changes nothing |
| TrieSpec.InsertIdempotent | src/lib/art/ops.c:108-111 | inserting the same bytes twice is the same as once: the second insert allocates nothing |
| TrieSpec.InsertAllocates | src/lib/art/ops.c:112-115 | `insert` allocates one node per byte past the longest existing path, and none otherwise |
| TrieSpec.FoundNothingBelowNew | src/lib/art/ops.c:81-90 | below a freshly zeroed node no byte has a path |
| TrieSpec.ChangesOnlyThenFresh | src/lib/art/ops.c:112-115 | the writes made inside a freshly allocated node do not count as changes to the old tree |
| TrieSpec.InsertChangesOneChild | src/lib/art/ops.c:112-115 | of all the old nodes' children, `insert` changes exactly one: the NULL child where the path first ends, which now holds the first new node |
| Trie.LittleEndian | src/include/callstack.h:6-9 | the n low bytes of a number, least significant first |
| Trie.LittleEndianRoundTrip | src/include/callstack.h:6-9 | reading back those bytes gives the number |
| Trie.EntryBytes | src/include/callstack.h:6-9 | a `callstack_entry` is 16 bytes: `ip`, then `map` |
| Trie.StackBytes | src/lib/art/ops.c:138 | a stack of entries is 16 bytes per entry |
| Trie.StackBytesRoundTrip | src/lib/art/ops.c:133-138 | the bytes of a stack give back the stack, so different stacks are different keys |
| Trie.StackBytesPrefix | src/lib/art/ops.c:133-138 | the bytes up to the first `ip == 0` entry are the bytes of the entries before it |
| Trie.Depth | src/lib/art/ops.c:130-136 | the index of the first entry whose `ip` is 0, or the stack's length |
| Trie.Stream.constructor | src/lib/art/ops.c:34 | the static stream starts zeroed |
| Trie.Stream.AtEnd | src/lib/art/ops.c:36-40 | `stream_end` is true exactly when no byte is left to read |
| Trie.Stream.Next | src/lib/art/ops.c:42-45 | `stream_next` returns `data[pos]` and advances `pos` by exactly one; the byte read is the head of what was left |
| Trie.Tree.constructor | src/lib/art/ops.c:142-159 | `art_tree_new`: the root has no children |
| Trie.Tree.AllocNode | src/lib/art/ops.c:81-90 | `alloc_node`: a zeroed node at an address not in use |
| Trie.Tree.Insert | src/lib/art/ops.c:96-117 | `insert` moves the tree to InsertPath of what the stream had left, keeps it well formed, and leaves the stream at its end |
| Trie.Tree.InsertStack | src/lib/art/ops.c:119-140 | `art_tree_insert`: the stream reads the stack's bytes from 0, ends at the first entry whose `ip` is 0, and those bytes are inserted from the root and reach a node |
| HashSpec.BasicHash | src/lib/hashtable/hashtable.c:14-28 | `basic_hash` is below 2^16, so it always indexes the map |
| HashSpec.JenkinsHash | src/lib/hashtable/hashtable.c:30-34 | `jenkins_hash` is below 2^16, so it always indexes the map |
| HashSpec.RollStep | src/lib/hashtable/hashtable.c:21-24 | one turn of the rolling-hash loop leaves the hash an unsigned long (below 2^64) and the power below m |
| HashSpec.RollOn | src/lib/hashtable/hashtable.c:21-24 | after at least one byte the hash is an unsigned long and the power is below m |
| HashSpec.Int32 | src/lib/hashtable/hashtable.c:151 | the count returned as an `int` is in the int range and equals the count when that fits |
| HashSpec.EmptyTable | src/lib/hashtable/hashtable.c:46-51 | the zeroed table is well formed |
| HashSpec.ScanFrom | src/lib/hashtable/hashtable.c:89-111 | the inline scan returns the first bucket in use whose key has the same length and bytes, or none when no bucket holds the key |
| HashSpec.FindInternal | src/lib/hashtable/hashtable.c:89-111 | the scan from bucket 0 returns the first inline bucket that holds the key, or none when no bucket does |
| HashSpec.Agrees | src/lib/hashtable/hashtable.c:75-76 | the memcmp of the new key's length passes only when the stored key is at least as long and starts with the new key; for keys of equal length it passes exactly when they are equal |
| HashSpec.SlowInsertResult | src/lib/hashtable/hashtable.c:61-79 | `__hash_insert` fails only on an occupied slot; otherwise it keeps the map's size and the inline buckets, adds one to `unique` + `hits`, and the slot's count is its old count (0 when empty) plus one |
| HashSpec.SlowInsertAll | src/lib/hashtable/hashtable.c:128-131 | the re-insert loop keeps the inline buckets and adds the number of keys to `unique` + `hits` |
| HashSpec.InsertResult | src/lib/hashtable/hashtable.c:81-137 | `hash_insert` fails only once the inline buckets are all taken (on the switch or in the map phase); it never lowers `num_internal`, and adds one to `unique` + `hits`, or four on the switch to the map (three re-inserts and the key) |
| HashSpec.LookupAnswer | src/lib/hashtable/hashtable.c:143-170 | `hash_lookup` dereferences NULL exactly in the map phase for a key whose slot is empty; otherwise it returns -1 when the bucket lookup reads holds no count of the key, and that count cut to an `int` when it does |
| HashProps.StepNoWrap | src/lib/hashtable/hashtable.c:21-24 | a step of the rolling hash does not wrap while the hash is below 2^64 − 256·m, and it adds less than m |
| HashProps.RollNeverWraps | src/lib/hashtable/hashtable.c:14-28 | the unsigned long arithmetic of `basic_hash` equals unbounded arithmetic for any key shorter than about 2^34 bytes |
| HashProps.RollingHashSeparates | src/lib/hashtable/test.c:10-20 | `basic_hash` gives "foobar" 821 and "fubar" 57008, so they differ |
| HashProps.SlowInsertCounts | src/lib/hashtable/hashtable.c:61-79 | `__hash_insert` aborts exactly when the slot holds a key that disagrees; otherwise the slot's count grows by one, `unique` grows for an empty slot and `hits` otherwise, and no other slot changes |
| HashProps.SlowInsertAllWf | src/lib/hashtable/hashtable.c:128-136 | a run of `__hash_insert`s keeps the table well formed and in the map phase |
| HashProps.SlowInsertAllAborts | src/lib/hashtable/hashtable.c:128-131 | once a re-insert aborts, the whole switch aborts |
| HashProps.InsertCounts | src/lib/hashtable/hashtable.c:81-137 | after `hash_insert`: the table is well formed, `num_internal` ≤ 4, lookup gives the key's positive count, `num_internal` grows only for a new key, and except on the switch the count grows by one with `unique` or `hits` accounted |
| HashProps.InsertInline | src/lib/hashtable/hashtable.c:86-121 | in the inline phase the bucket holding the key, or else `_bucket[num_internal]`, holds the key with one more count; no other bucket or slot changes |
| HashProps.InsertKeepsOthers | src/lib/hashtable/hashtable.c:81-170 | inserting a key leaves lookup of any other key unchanged, unless they share a map slot or the insert is the switch |
| HashProps.PromotionRestartsCounts | src/lib/hashtable/hashtable.c:123-136 | the switch with four distinct hashes: `num_internal` is 4, each of the four keys has count 1 in its slot whatever its inline count was, `unique` grows by 4, and `hits` is unchanged |
| HashProps.InsertThenLookupOne | src/lib/hashtable/test.c:22-31 | insert into a new table and then lookup gives 1 |
| HashTable.BasicHashLoop | src/lib/hashtable/hashtable.c:14-28 | the loop computes BasicHash |
| HashTable.Max | src/lib/hashtable/hashtable.c:55-59 | the larger of two counts |
| HashTable.Stats.constructor | src/lib/hashtable/hashtable.c:53 | `num_unique_entries` starts at 0 |
| HashTable.Stats.UpdateUnique | src/lib/hashtable/hashtable.c:55-59 | `update_unique` keeps the running maximum |
| HashTable.Hashtable.constructor | src/lib/hashtable/hashtable.c:46-51 | `alloc_table` gives a zeroed table with a fresh zeroed map |
| HashTable.Hashtable.Find | src/lib/hashtable/hashtable.c:89-111 | the scan of the inline buckets returns FindInternal; its NULL-key branch is unreachable |
| HashTable.Hashtable.SlowInsert | src/lib/hashtable/hashtable.c:61-79 | `__hash_insert` in place moves the table to SlowInsertResult and keeps `num_unique_entries` at the running maximum; it fails exactly where the assertion aborts |
| HashTable.Hashtable.Promote | src/lib/hashtable/hashtable.c:128-131 | the re-insert loop is SlowInsertAll of the three inline keys |
| HashTable.Hashtable.Insert | src/lib/hashtable/hashtable.c:81-137 | `hash_insert` in place moves the table to InsertResult and keeps it well formed; it fails exactly where an assertion aborts |
| HashTable.Hashtable.Lookup | src/lib/hashtable/hashtable.c:143-170 | `hash_lookup` returns LookupAnswer: the map slot's count, a NULL dereference, the inline bucket's count, or -1 |

## Left out

- Memory management: `free_node`, `cfree`/`ccalloc` and the leaked nodes of `replace` are not modelled. Retired nodes stay in the arena; nothing points to them.
- Allocation failure (`die`, `exit`) is not modelled. Every allocation succeeds.
- Prefix chaining in `do_leaf` for shared runs longer than 128 bytes (src/lib/art/art.c:450-469) is not modelled. It is excluded by the precondition `ArtSpec.Supported`.
- The prefix-mismatch split reads `data[depth+m]`. The key is required to have a byte there (`Supported`), since otherwise the read is out of range.
- A leaf entered past the end of its key would make `key_len - depth` wrap. `Supported` excludes it.
- The no-op guard `if (stream_size <= 0)` (art.c:421) compares a function pointer and is never true, so it is left out.
- The memcmp at art.c:438 may read past the keys. It is modelled as the equality the match loop has already established.
- The disabled SSE branch of `find_child_16` is left out, and so are the unused atomics.
- ArtFound.InsertThenFound: weaker than "every inserted key is found". It assumes `Faithful`: the leaf where insert stops shares the key's first `depth` bytes, and a full node about to grow has no prefix. `grow` drops the prefix and leaves store whole keys, so trees outside `Faithful` can lose keys.
- Art.Tree.Insert: its "found" clause has the same `Faithful` hypothesis.
- The ART key is a sequence of bytes. The `pos` field only counts edges, because `stream_get` reads absolute offsets.
- Trie.Tree.InsertStack: the byte layout of `struct callstack_entry` is taken to be two 8-byte little-endian unsigned longs. That is platform-dependent.
- Trie.Tree.InsertStack: a stack with no zero `ip` leaves the static stream's `end` where the previous call put it. The model keeps `end` as an offset and requires it to lie within the stack's 4096 bytes. A stale pointer outside that range is not modelled.
- Trie.Stream.Next: `pos` is an unbounded natural number. The source's `unsigned int` would wrap after 2^32 bytes, and no stream here is that long.
- `jhash` (jenkins.c) is not part of this model. It is a function parameter, and `jenkins_hash` cuts its result to 16 bits.
- Buckets hold their key by value, not through a pointer to the caller's `struct stream`. The only caller, `insert` in src/lib/hashtable/callstack.c:9-27, passes a `struct stream` that lives on its own stack. So in the source every stored key pointer dangles once that call returns. Later lookups and the re-inserts of the switch then read memory that is no longer the key. The model keeps each key as it was when it was inserted, so it describes the table as if the streams stayed alive.
- HashTable.Hashtable.Insert: when an assertion aborts, the program would stop. The model returns `false` and says nothing about the state.
- HashTable.Hashtable.SlowInsert: the memcmp over a stored key shorter than the new key reads out of bounds. It is treated as a failed assertion (`Agrees`).
- HashTable.Hashtable.Insert: the `unique` and `hits` counters and bucket counts are unbounded naturals. Their unsigned long wrap after 2^64 inserts is not modelled.
- HashTable.Hashtable.Lookup: a bucket count is converted to the `int` result by keeping its low 32 bits. That is modular conversion, so counts of 2^31 and above come back negative.
- Test drivers, printing, `src/main.c`, the Linux perf backend and the `hot` stubs are not part of this model.
