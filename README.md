# Lower-case trie

A model of the prefix tree in `trie/Trie.c`, a trie over the 26 letters
`'a'..'z'`. Each node holds 26 child slots, one per letter, and an
end-of-word mark. A key is stored by walking down one slot per letter from
the root and marking the node reached. The C code offers three operations:
`insert`, `search` and `deleteFromTrie`.

The project has three files:

- `alphabet.dfy` (module `Alphabet`): `CHAR_TO_INDEX` and its inverse, and
  what a valid key is.
- `trie_spec.dfy` (module `TrieSpec`): the abstract state of a trie. It is
  the set of paths that have a node plus the subset of paths whose node is
  marked. The module gives the effect of `insert` and `deleteFromTrie` on
  that state and proves lemmas about it.
- `trie.dfy` (module `Trie`): the pointer structure. Class `Node` is
  `TrieNode` and its constructor is `getNode`. Class `Trie` holds the root
  node, and its methods are the C loops. Each method is proved to change
  the abstract state exactly as the matching `TrieSpec` function says.
  `Search` is proved to answer whether the key is a stored word.

The C code has no trie object: `main` keeps the root pointer returned by
`getNode` and passes it to every call. The `Trie` class plays that caller.
Its ghost fields map each path to its node (`At`), record the marked paths
(`Words`) and collect every allocated node (`Nodes`). `Valid` ties them to
the nodes, which makes the structure a tree: each node has exactly one path
and exactly one parent slot.

`deleteFromTrie` is modelled as the code is written. The comment at
`trie/Trie.c:104` speaks of deleting parents recursively, but the code does
not. After it empties the parent's slot, it calls itself on the same key.
That call walks down again, meets the slot it just emptied and returns.
So at most one node is unlinked: the key's own node, and only when it is
unmarked, childless and not the root. `TrieSpec.DeleteRestartIsNoOp` proves
that the second call changes nothing. `TrieSpec.DeleteLeavesChildlessAncestor`
shows, for the single word "ab", that its parent "a" stays in the trie even
though "a" is left unmarked and childless.

## Model

| member | source | states |
|---|---|---|
| `Alphabet.CharToIndex` | trie/Trie.c:9 | A lower-case letter maps to a slot in 0..25, and the slot's letter is that letter again |
| `Alphabet.IndexRoundTrip` | trie/Trie.c:8-9 | Going from a slot to its letter and back gives the same slot, so slots and letters correspond one to one |
| `Alphabet.IndexToChar` | trie/Trie.c:8-9 | Every slot 0..25 stands for a lower-case letter |
| `Alphabet.IndexToCharInjective` | trie/Trie.c:8-9 | Two slots stand for the same letter iff they are the same slot, so distinct slots lead to distinct paths |
| `Trie.Node.constructor` | trie/Trie.c:18-30 | getNode: a fresh node, not marked, with all 26 child slots empty |
| `Trie.Trie.constructor` | trie/Trie.c:115 | The root from getNode is a valid trie whose abstract state is `TrieSpec.Empty`: only the root exists and no word is stored; the root and every node of the trie are newly allocated |
| `TrieSpec.Empty` | trie/Trie.c:115 | The trie holding only a root is well formed and stores no key |
| `Trie.Trie.Insert` | trie/Trie.c:34-52 | Keeps the trie valid; the new abstract state is `TrieSpec.Insert` of the old one; the new nodes are fresh; the root and the node of every existing path stay the same; if the key's node already existed, no node is created and no path changes |
| `Trie.Trie.MakePath` | trie/Trie.c:40-48 | The loop of insert: the paths that have a node become the old ones plus every prefix of the key; every existing path keeps its node; no mark changes; the node returned is the key's node; nothing is allocated if the key's node existed |
| `Trie.Trie.Descend` | trie/Trie.c:43-47 | One loop step: the result is the node one letter further down; at most that one path is added, and none if it was already there; every existing path keeps its node |
| `Trie.Trie.AddChild` | trie/Trie.c:44-46 | Fills an empty slot with a fresh node from getNode; exactly that one path is added; the trie stays valid |
| `Trie.Trie.SetMark` | trie/Trie.c:51 | Setting or clearing one node's mark adds or removes exactly that path from the stored words; no node changes place |
| `TrieSpec.Insert` | trie/Trie.c:34-52 | After insert the key is stored and has a node; every other key is stored exactly when it was before |
| `TrieSpec.PrefixesUpTo` | trie/Trie.c:42-48 | The paths visited by the first n steps of the walk are exactly the prefixes of the key of length 0..n |
| `TrieSpec.InsertWellFormed` | trie/Trie.c:42-51 | Insert preserves the trie shape: root present, lower-case paths, prefix-closed, marks only on nodes |
| `TrieSpec.InsertExistingCreatesNothing` | trie/Trie.c:44-47 | Inserting a key whose node exists creates no node |
| `TrieSpec.InsertIdempotent` | trie/Trie.c:44-51 | A second insert of the same key leaves the abstract state unchanged |
| `Trie.Trie.Search` | trie/Trie.c:55-71 | Changes nothing and returns true exactly when the key is a stored word |
| `Trie.Trie.Delete` | trie/Trie.c:73-109 | Keeps the trie valid, allocates nothing, and the new abstract state is `TrieSpec.Delete` of the old one; the root and the node of every remaining path stay the same |
| `Trie.Trie.Unlink` | trie/Trie.c:105-106 | Emptying the parent's slot of an unmarked childless node removes exactly that path; the trie stays valid |
| `TrieSpec.Delete` | trie/Trie.c:73-109 | A key without a node leaves the trie unchanged. Otherwise the key stops being a word, and its node is removed exactly when it is childless and not the root. No other path is removed |
| `TrieSpec.DeleteRestartIsNoOp` | trie/Trie.c:105-107 | After the unlink, the parent of the key's node is still there and the key's node is not; the restarted call returns at once and changes nothing |
| `TrieSpec.DeleteWellFormed` | trie/Trie.c:95-107 | Delete preserves the trie shape, including the root |
| `TrieSpec.DeleteKeepsOtherNodes` | trie/Trie.c:104-107 | Delete never removes a node other than the key's own: prefixes, extensions and the root all stay |
| `TrieSpec.DeleteIdempotent` | trie/Trie.c:94-107 | A second delete of the same key changes nothing |
| `TrieSpec.InsertThenDelete` | trie/Trie.c:94-107 | After insert the key is found; after a following delete it is not; every other key keeps the status it had before both |
| `TrieSpec.DeleteLeavesChildlessAncestor` | trie/Trie.c:104-107 | Deleting the only word "ab" removes "ab" but keeps "a", which is then unmarked and childless: ancestors are not pruned |

## Left out

- `main` and its `printf` output (`trie/Trie.c:113-144`), and the commented-out driver code after it, are not modelled. They only print to the console.
- Allocation failure is not modelled. `getNode` returns NULL when `malloc` fails, and `insert` would then dereference it. In the model, allocation always succeeds.
- Freeing memory is not modelled. The C code never frees the unlinked node; in the model it just becomes unreachable. It stays in the ghost set `Nodes`.
- Keys must contain only `'a'..'z'`; this is a precondition (`ValidKey`). For any other character `CHAR_TO_INDEX` gives an index outside the 26 slots, e.g. the space in `"the world"` at line 118. That is undefined behaviour in C.
- C strings are not modelled: there is no NUL terminator and no `strlen`. A key is a `seq<char>`, and its length is `|key|`.
- The 26-slot array lives inside the C struct, so the model holds it as a 26-element sequence field of `Node`. Each slot is written by assigning that field, so no separate array object can be shared between nodes.
- The cascading pruning described by the comment at line 104 is not modelled, because the code does not do it. The model follows the code, and the lemma above shows the difference.
