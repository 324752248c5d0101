/** The pointer-based trie: nodes with 26 child slots, and the insert,
    search and delete walks over them. */
module Trie {
  import opened Alphabet
  import TrieSpec

  /** TrieNode: one child slot per letter and the end-of-word mark. The slot
      array is embedded in the node, so it is a field of the node that is
      updated one slot at a time, not an object of its own. `path` is the
      key that leads from the root to the node (proof only). */
  class Node {
    var children: seq<Node?>
    var isEnd: bool
    ghost var path: string

    /** getNode: a node with every child slot empty and no mark. */
    constructor (ghost p: string)
      ensures !isEnd && path == p
      ensures |children| == AlphabetSize && forall i :: 0 <= i < AlphabetSize ==> children[i] == null
    {
      var slots: seq<Node?> := [];
      while |slots| < AlphabetSize
        invariant |slots| <= AlphabetSize
        invariant forall j :: 0 <= j < |slots| ==> slots[j] == null
      {
        slots := slots + [null];
      }
      children := slots;
      isEnd := false;
      path := p;
    }
  }

  /** A trie, held by its root node. `At` maps the path of every node
      reachable from the root to that node, `Words` is the set of paths whose
      node is marked, and `Nodes` holds every node ever allocated for it. */
  class Trie {
    var root: Node
    ghost var At: map<string, Node>
    ghost var Words: set<string>
    ghost var Nodes: set<Node>

    /** The abstract state: the paths that have a node and the marked ones. */
    ghost function State(): TrieSpec.TrieState
      reads this
    {
      TrieSpec.TrieState(At.Keys, Words)
    }

    /** What slot `i` of the node at path `p` must hold: the node one letter
        further down, or nothing. */
    ghost function Slot(p: string, i: int): Node?
      reads this
      requires 0 <= i < AlphabetSize
    {
      var q := p + [IndexToChar(i)];
      if q in At then At[q] else null
    }

    /** The node at path `p` knows its path, has 26 slots that lead exactly
        to the nodes one letter further down, and is marked iff `p` is a word. */
    ghost predicate NodeValid(p: string)
      reads this, At[p]
      requires p in At
    {
      var n := At[p];
      n.path == p && |n.children| == AlphabetSize && (n.isEnd <==> p in Words) &&
      forall i :: 0 <= i < AlphabetSize ==> n.children[i] == Slot(p, i)
    }

    ghost predicate Valid()
      reads this, Nodes
    {
      TrieSpec.WellFormed(State()) &&
      At[[]] == root &&
      forall p :: p in At ==> At[p] in Nodes && NodeValid(p)
    }

    /** A trie whose root comes from getNode. */
    constructor ()
      ensures Valid() && fresh(Nodes)
      ensures State() == TrieSpec.Empty()
    {
      var r := new Node([]);
      root := r;
      At := map[[] := r];
      Words := {};
      Nodes := {r};
    }

    /** insert: create the missing nodes along `key`, then mark the last. */
    method Insert(key: string)
      requires Valid() && ValidKey(key)
      modifies this, Nodes
      ensures Valid() && fresh(Nodes - old(Nodes))
      ensures State() == TrieSpec.Insert(old(State()), key)
      ensures root == old(root) && forall p :: p in old(At) ==> At[p] == old(At)[p]
      ensures key in old(At) ==> At == old(At) && Nodes == old(Nodes)
    {
      var last := MakePath(key);
      SetMark(last, key, true);
    }

    /** The walk of insert: go down `key` one letter at a time, filling each
        empty slot met on the way, and return the node at `key`. */
    method MakePath(key: string) returns (last: Node)
      requires Valid() && ValidKey(key)
      modifies this`At, this`Nodes, Nodes
      ensures Valid() && Words == old(Words) && fresh(Nodes - old(Nodes))
      ensures At.Keys == old(At.Keys) + TrieSpec.PrefixesUpTo(key, |key|)
      ensures key in At && last == At[key]
      ensures root == old(root) && forall p :: p in old(At) ==> At[p] == old(At)[p]
      ensures key in old(At) ==> At == old(At) && Nodes == old(Nodes)
    {
      var pCrawl := root;
      var level := 0;
      while level < |key|
        invariant 0 <= level <= |key|
        invariant Valid() && Words == old(Words) && fresh(Nodes - old(Nodes))
        invariant At.Keys == old(At.Keys) + TrieSpec.PrefixesUpTo(key, level)
        invariant key[..level] in At && pCrawl == At[key[..level]]
        invariant root == old(root) && forall p :: p in old(At) ==> At[p] == old(At)[p]
        invariant key in old(At) ==> At == old(At) && Nodes == old(Nodes)
      {
        var index := CharToIndex(key[level]);
        TrieSpec.PrefixStep(key, level);
        pCrawl := Descend(pCrawl, key[..level], index);
        level := level + 1;
      }
      assert key[..level] == key;
      return pCrawl;
    }

    /** One step of the insert walk: the child in slot `index` of the node at
        path `p`, created first if the slot is empty. */
    method Descend(parent: Node, ghost p: string, index: int) returns (child: Node)
      requires Valid() && p in At && parent == At[p]
      requires 0 <= index < AlphabetSize
      modifies this`At, this`Nodes, parent
      ensures Valid() && Words == old(Words)
      ensures At.Keys == old(At.Keys) + {p + [IndexToChar(index)]}
      ensures p + [IndexToChar(index)] in At && child == At[p + [IndexToChar(index)]]
      ensures fresh(Nodes - old(Nodes))
      ensures forall x :: x in old(At) ==> At[x] == old(At)[x]
      ensures p + [IndexToChar(index)] in old(At) ==> At == old(At) && Nodes == old(Nodes)
    {
      assert NodeValid(p);
      if parent.children[index] == null {
        AddChild(parent, p, index);
      }
      child := parent.children[index];
    }

    /** Fills the empty slot `index` of the node at path `p` with a node from
        getNode. */
    method AddChild(parent: Node, ghost p: string, index: int)
      requires Valid() && p in At && parent == At[p]
      requires 0 <= index < AlphabetSize && parent.children[index] == null
      modifies parent, this`At, this`Nodes
      ensures Valid() && Words == old(Words)
      ensures At.Keys == old(At.Keys) + {p + [IndexToChar(index)]}
      ensures |parent.children| == AlphabetSize
      ensures fresh(At[p + [IndexToChar(index)]])
      ensures Nodes == old(Nodes) + {At[p + [IndexToChar(index)]]}
      ensures At == old(At)[p + [IndexToChar(index)] := At[p + [IndexToChar(index)]]]
      ensures p + [IndexToChar(index)] in At && parent.children[index] == At[p + [IndexToChar(index)]]
    {
      var q := p + [IndexToChar(index)];
      assert q[..|p|] == p;
      ghost var at0 := At;
      var n := new Node(q);
      parent.children := parent.children[index := n];
      At := At[q := n];
      Nodes := Nodes + {n};

      forall x, j | x in At && 0 <= j <= |x| ensures x[..j] in At {
        if x == q {
          if j <= |p| {
            assert x[..j] == p[..j];
          } else {
            assert x[..j] == q;
          }
        }
      }
      forall x | x in At ensures NodeValid(x) {
        if x != q {
          assert at0[x].path == x;
          forall i | 0 <= i < AlphabetSize ensures At[x].children[i] == Slot(x, i) {
            var y := x + [IndexToChar(i)];
            assert y[..|x|] == x;
            if x == p {
              IndexToCharInjective(i, index);
            }
          }
        } else {
          forall i | 0 <= i < AlphabetSize ensures At[x].children[i] == Slot(x, i) {
            var y := x + [IndexToChar(i)];
            assert y[..|x|] == x;
            assert y !in at0;
          }
        }
      }
    }

    /** Sets or clears the end-of-word mark of the node at path `p`. */
    method SetMark(n: Node, ghost p: string, mark: bool)
      requires Valid() && p in At && n == At[p]
      modifies n
      modifies this`Words
      ensures Valid() && At == old(At)
      ensures Words == if mark then old(Words) + {p} else old(Words) - {p}
    {
      n.isEnd := mark;
      Words := if mark then Words + {p} else Words - {p};
      forall x | x in At ensures NodeValid(x) {
        assert old(NodeValid(x));
      }
    }

    /** The step of deleteFromTrie that empties the parent's slot of an
        unmarked childless node; the node itself is left unreachable. */
    method Unlink(parent: Node, ghost p: string, index: int)
      requires Valid() && p in At && parent == At[p]
      requires 0 <= index < AlphabetSize && p + [IndexToChar(index)] in At
      requires p + [IndexToChar(index)] !in Words
      requires forall i :: 0 <= i < AlphabetSize ==> At[p + [IndexToChar(index)]].children[i] == null
      modifies parent, this`At
      ensures Valid() && Words == old(Words)
      ensures At == old(At) - {p + [IndexToChar(index)]}
    {
      var q := p + [IndexToChar(index)];
      assert q[..|p|] == p;
      ghost var at0 := At;
      assert NodeValid(p) && NodeValid(q);
      assert !TrieSpec.HasChild(At.Keys, q) by {
        forall i | 0 <= i < AlphabetSize ensures q + [IndexToChar(i)] !in At {
          assert At[q].children[i] == Slot(q, i);
        }
      }
      parent.children := parent.children[index := null];
      At := At - {q};

      forall x, j | x in At && 0 <= j <= |x| ensures x[..j] in At {
        assert x[..j] != q by {
          if j < |x| {
            assert x[..j + 1] == x[..j] + [IndexToChar(CharToIndex(x[j]))];
          } else {
            assert x[..j] == x;
          }
        }
      }
      forall x | x in At ensures NodeValid(x) {
        assert old(NodeValid(x));
        forall i | 0 <= i < AlphabetSize ensures At[x].children[i] == Slot(x, i) {
          var y := x + [IndexToChar(i)];
          assert y[..|x|] == x;
          if x == p {
            IndexToCharInjective(i, index);
          }
        }
      }
    }

    /** search: walk down `key` without changing anything; an empty slot on
        the way means absent, otherwise the last node's mark decides. */
    method Search(key: string) returns (found: bool)
      requires Valid() && ValidKey(key)
      ensures found <==> key in State().words
    {
      var pCrawl := root;
      var level := 0;
      while level < |key|
        invariant 0 <= level <= |key|
        invariant key[..level] in At && pCrawl == At[key[..level]]
      {
        var index := CharToIndex(key[level]);
        TrieSpec.PrefixStep(key, level);
        assert NodeValid(key[..level]);
        if pCrawl.children[index] == null {
          return false;
        }
        pCrawl := pCrawl.children[index];
        level := level + 1;
      }
      assert key[..level] == key;
      assert NodeValid(key);
      return pCrawl.isEnd;
    }

    /** deleteFromTrie: walk down `key` (an empty slot ends it), clear the
        last node's mark, and if that node has no child and is not the root,
        empty its parent's slot and start over on the same key. */
    method Delete(key: string)
      requires Valid() && ValidKey(key)
      modifies this, Nodes
      decreases |At.Keys|
      ensures Valid() && Nodes == old(Nodes)
      ensures State() == TrieSpec.Delete(old(State()), key)
      ensures root == old(root) && forall p :: p in At ==> At[p] == old(At)[p]
    {
      var pCrawl := root;
      var prev: Node? := null;
      var level := 0;
      while level < |key|
        invariant 0 <= level <= |key|
        invariant key[..level] in At && pCrawl == At[key[..level]]
        invariant level == 0 ==> prev == null
        invariant 0 < level ==> key[..level - 1] in At && prev == At[key[..level - 1]]
        invariant Valid() && At == old(At) && Words == old(Words) && Nodes == old(Nodes)
      {
        var index := CharToIndex(key[level]);
        TrieSpec.PrefixStep(key, level);
        assert NodeValid(key[..level]);
        if pCrawl.children[index] == null {
          return;
        }
        prev := pCrawl;
        pCrawl := pCrawl.children[index];
        level := level + 1;
      }
      assert key[..level] == key;
      SetMark(pCrawl, key, false);
      assert NodeValid(key);

      var index := 0;
      while index < AlphabetSize
        invariant 0 <= index <= AlphabetSize
        invariant forall j :: 0 <= j < index ==> pCrawl.children[j] == null
        invariant Valid() && At == old(At) && Words == old(Words) - {key} && Nodes == old(Nodes)
        invariant key in At && pCrawl == At[key]
      {
        if pCrawl.children[index] != null {
          assert NodeValid(key);
          assert key + [IndexToChar(index)] in At;
          return;
        }
        index := index + 1;
      }

      if prev != null {
        assert !TrieSpec.HasChild(At.Keys, key) by {
          forall i | 0 <= i < AlphabetSize ensures key + [IndexToChar(i)] !in At {
            assert NodeValid(key) && pCrawl.children[i] == null;
            assert At[key].children[i] == Slot(key, i);
          }
        }
        TrieSpec.DeleteRestartIsNoOp(old(State()), key);
        assert key[..|key| - 1] + [IndexToChar(CharToIndex(key[|key| - 1]))] == key;
        Unlink(prev, key[..|key| - 1], CharToIndex(key[|key| - 1]));
        Delete(key);
      }
    }
  }
}
