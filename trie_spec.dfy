/** The abstract state of a trie and the effect of its operations on it.

    Every node of a trie is named by its path, the key spelled by the slots
    taken from the root to reach it; the root is the empty path. A trie is
    then described by the set of paths that have a node and the set of paths
    whose node carries the end-of-word mark. */
module TrieSpec {
  import opened Alphabet

  datatype TrieState = TrieState(paths: set<string>, words: set<string>)

  /** Every prefix of a path with a node has a node: nodes are only reached
      from their parent's slot. */
  predicate PrefixClosed(paths: set<string>) {
    forall p, j :: p in paths && 0 <= j <= |p| ==> p[..j] in paths
  }

  /** The shapes a trie can take: there is a root, every path is spelled in
      lower-case letters, and only existing nodes carry the end-of-word mark. */
  predicate WellFormed(s: TrieState) {
    [] in s.paths &&
    (forall p :: p in s.paths ==> ValidKey(p)) &&
    PrefixClosed(s.paths) &&
    s.words <= s.paths
  }

  /** The node at `key` has at least one non-empty child slot. */
  predicate HasChild(paths: set<string>, key: string) {
    exists i :: 0 <= i < AlphabetSize && key + [IndexToChar(i)] in paths
  }

  /** Taking one more slot extends the path by that slot's letter. */
  lemma PrefixStep(key: string, n: int)
    requires ValidKey(key) && 0 <= n < |key|
    ensures key[..n] + [IndexToChar(CharToIndex(key[n]))] == key[..n + 1]
  {
  }

  /** A trie holding only a fresh root node. */
  function Empty(): (r: TrieState)
    ensures WellFormed(r)
    ensures forall key :: key !in r.words
  {
    TrieState({[]}, {})
  }

  /** The first `n + 1` prefixes of `key`, from the empty one to `key[..n]`. */
  function PrefixesUpTo(key: string, n: nat): (r: set<string>)
    requires n <= |key|
    ensures forall p :: p in r <==> exists j :: 0 <= j <= n && p == key[..j]
  {
    if n == 0 then assert key[..0] == []; {[]} else PrefixesUpTo(key, n - 1) + {key[..n]}
  }

  /** insert: the walk gives every prefix of `key` a node and the last node
      the end-of-word mark. */
  function Insert(s: TrieState, key: string): (r: TrieState)
    requires ValidKey(key)
    ensures key in r.words && key in r.paths
    ensures forall j :: j != key ==> (j in r.words <==> j in s.words)
  {
    TrieState(s.paths + PrefixesUpTo(key, |key|), s.words + {key})
  }

  /** deleteFromTrie as written. A missing slot on the path ends it with no
      change; otherwise the mark is cleared, and a childless non-root node is
      unlinked from its parent, after which the operation starts over on the
      same key. */
  function Delete(s: TrieState, key: string): (r: TrieState)
    ensures r.words == if key in s.paths then s.words - {key} else s.words
    ensures r.paths == if key in s.paths && key != [] && !HasChild(s.paths, key)
                       then s.paths - {key} else s.paths
    decreases |s.paths|
  {
    if key !in s.paths then s
    else if HasChild(s.paths, key) || key == [] then TrieState(s.paths, s.words - {key})
    else Delete(TrieState(s.paths - {key}, s.words - {key}), key)
  }

  /** The restart after an unlink finds the slot it needs empty and returns
      at once: it changes nothing. */
  lemma DeleteRestartIsNoOp(s: TrieState, key: string)
    requires WellFormed(s) && key in s.paths && key != [] && !HasChild(s.paths, key)
    ensures var t := TrieState(s.paths - {key}, s.words - {key});
      key[..|key| - 1] in t.paths && key !in t.paths && Delete(t, key) == t
  {
  }

  lemma InsertWellFormed(s: TrieState, key: string)
    requires WellFormed(s) && ValidKey(key)
    ensures WellFormed(Insert(s, key))
  {
    var r := Insert(s, key);
    forall p, j | p in r.paths && 0 <= j <= |p| ensures p[..j] in r.paths {
      if p !in s.paths {
        assert p[..j] == key[..j];
      }
    }
  }

  /** Inserting a key whose node already exists creates no node. */
  lemma InsertExistingCreatesNothing(s: TrieState, key: string)
    requires WellFormed(s) && ValidKey(key) && key in s.paths
    ensures Insert(s, key).paths == s.paths
  {
  }

  /** A second insert of the same key changes nothing. */
  lemma InsertIdempotent(s: TrieState, key: string)
    requires WellFormed(s) && ValidKey(key)
    ensures Insert(Insert(s, key), key) == Insert(s, key)
  {
  }

  lemma DeleteWellFormed(s: TrieState, key: string)
    requires WellFormed(s)
    ensures WellFormed(Delete(s, key))
  {
    var r := Delete(s, key);
    forall p, j | p in r.paths && 0 <= j < |p| ensures p[..j] in r.paths {
      assert p[..j + 1] == p[..j] + [IndexToChar(CharToIndex(p[j]))];
    }
    forall p | p in r.paths ensures p[..|p|] in r.paths {
      assert p[..|p|] == p;
    }
  }

  /** Deleting a key never removes a node other than the key's own: its
      prefixes, its extensions and the root stay. */
  lemma DeleteKeepsOtherNodes(s: TrieState, key: string, p: string)
    requires WellFormed(s) && p in s.paths && p != key
    ensures p in Delete(s, key).paths
  {
  }

  /** A second delete of the same key changes nothing. */
  lemma DeleteIdempotent(s: TrieState, key: string)
    requires WellFormed(s)
    ensures Delete(Delete(s, key), key) == Delete(s, key)
  {
  }

  /** Search after insert finds the key; search after delete does not. */
  lemma InsertThenDelete(s: TrieState, key: string)
    requires WellFormed(s) && ValidKey(key)
    ensures key in Insert(s, key).words
    ensures key !in Delete(Insert(s, key), key).words
    ensures forall j :: j != key ==> (j in Delete(Insert(s, key), key).words <==> j in s.words)
  {
  }

  /** Deleting the only word "ab" leaves its parent "a" in the trie although
      "a" is then unmarked and childless: ancestors are never pruned. */
  lemma DeleteLeavesChildlessAncestor()
    ensures var r := Delete(Insert(Empty(), "ab"), "ab");
      "a" in r.paths && "a" !in r.words && !HasChild(r.paths, "a") && "ab" !in r.paths
  {
    var s := Insert(Empty(), "ab");
    assert "ab"[..1] == "a";
    assert "ab"[..2] == "ab";
    assert s.paths == {[], "a", "ab"};
    assert !HasChild(s.paths, "ab");
  }
}
