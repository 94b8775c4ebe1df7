/**
 * The prefix tree `Trie` / `TrieNode` (src/HangmanGame.java:204-219). A node
 * holds a map from character to child node and an end-of-word flag; `Insert`
 * walks from the root, creating missing children, and marks the last node.
 *
 * The tree is described by ghost fields of the `Trie`: `Paths` maps every
 * string spelled by a path from the root to the node it reaches, `Kids` holds
 * the children map of the node at each path, `PathOf` inverts `Paths` (so
 * distinct paths reach distinct nodes), and `Words` is the set of paths whose
 * node carries the end-of-word flag. The source has no query operation;
 * `HasWord` and `HasPrefix` are specification predicates over this description.
 */
module Trie {

  class TrieNode {
    var children: map<char, TrieNode>
    var isEndOfWord: bool

    constructor ()
      ensures children == map[] && !isEndOfWord
    {
      children := map[];
      isEndOfWord := false;
    }
  }

  /** The prefixes of `w` of length at most `n`. */
  ghost function Prefixes(w: string, n: nat): set<string>
    requires n <= |w|
  {
    set k | 0 <= k <= n :: w[..k]
  }

  lemma PrefixesStep(w: string, n: nat)
    requires n < |w|
    ensures Prefixes(w, n + 1) == Prefixes(w, n) + {w[..n + 1]}
  {
  }

  /**
   * `paths` and `kids` describe one tree: every edge `c` out of the node at
   * `p` leads to the node at `p + [c]`, and every non-empty path is its parent
   * path followed by one edge.
   */
  ghost predicate Linked(paths: map<string, TrieNode>, kids: map<string, map<char, TrieNode>>) {
    && paths.Keys == kids.Keys
    && (forall p, c {:trigger c in kids[p]} :: p in kids && c in kids[p] ==>
          p + [c] in paths && kids[p][c] == paths[p + [c]])
    && (forall p, c {:trigger p + [c] in paths} :: p + [c] in paths ==> p in kids && c in kids[p])
  }

  /** Every prefix of a path is a path. */
  lemma {:induction false} PrefixClosed(paths: map<string, TrieNode>, kids: map<string, map<char, TrieNode>>, p: string)
    requires Linked(paths, kids) && [] in paths && p in paths
    ensures Prefixes(p, |p|) <= paths.Keys
  {
    if p != [] {
      var q := p[..|p| - 1];
      assert p == q + [p[|p| - 1]];
      PrefixClosed(paths, kids, q);
      forall k | 0 <= k <= |p| ensures p[..k] in paths {
        if k < |p| {
          assert p[..k] == q[..k] && q[..k] in Prefixes(q, |q|);
        } else {
          assert p[..k] == p;
        }
      }
    }
  }

  /** Hanging a new leaf under the node at `p` along `ch` keeps the tree linked. */
  lemma AddLeaf(paths: map<string, TrieNode>, kids: map<string, map<char, TrieNode>>, p: string, ch: char, leaf: TrieNode)
    requires Linked(paths, kids) && p in paths && ch !in kids[p]
    ensures p + [ch] !in paths
    ensures Linked(paths[p + [ch] := leaf], kids[p := kids[p][ch := leaf]][p + [ch] := map[]])
  {
    var np := p + [ch];
    assert np[..|p|] == p;
    var paths', kids' := paths[np := leaf], kids[p := kids[p][ch := leaf]][np := map[]];
    forall q, c {:trigger c in kids'[q]} | q in kids' && c in kids'[q]
      ensures q + [c] in paths' && kids'[q][c] == paths'[q + [c]]
    {
      assert (q + [c])[..|q|] == q;
    }
    forall q, c {:trigger q + [c] in paths'} | q + [c] in paths'
      ensures q in kids' && c in kids'[q]
    {
      assert (q + [c])[..|q|] == q && (q + [c])[|q|] == c;
    }
  }

  class Trie {
    var root: TrieNode
    ghost var Paths: map<string, TrieNode>
    ghost var Kids: map<string, map<char, TrieNode>>
    ghost var PathOf: map<TrieNode, string>
    ghost var Words: set<string>
    ghost var Repr: set<TrieNode>

    /** The ghost description is a tree rooted at `root` and matches the nodes. */
    ghost predicate Valid()
      reads this, Repr
    {
      && [] in Paths && Paths[[]] == root
      && Linked(Paths, Kids)
      && Words <= Paths.Keys
      && (forall p :: p in Paths ==> Paths[p] in Repr && Paths[p] in PathOf && PathOf[Paths[p]] == p)
      && (forall p {:trigger Paths[p].children} :: p in Paths ==> Paths[p].children == Kids[p])
      && (forall p {:trigger Paths[p].isEndOfWord} :: p in Paths ==> (Paths[p].isEndOfWord <==> p in Words))
    }

    /** Some inserted word is exactly `w`. */
    ghost predicate HasWord(w: string)
      reads this
    {
      w in Words
    }

    /** Some path from the root spells `p`. */
    ghost predicate HasPrefix(p: string)
      reads this
    {
      p in Paths
    }

    /** Every prefix of an inserted word is spelled by a path from the root. */
    lemma WordPrefixes(w: string, n: nat)
      requires Valid() && HasWord(w) && n <= |w|
      ensures HasPrefix(w[..n])
    {
      PrefixClosed(Paths, Kids, w);
      assert w[..n] in Prefixes(w, |w|);
    }

    constructor ()
      ensures Valid() && fresh(Repr)
      ensures Paths.Keys == {[]} && Words == {}
    {
      var r := new TrieNode();
      root := r;
      Paths := map[[] := r];
      Kids := map[[] := map[]];
      PathOf := map[r := []];
      Words := {};
      Repr := {r};
    }

    /**
     * `insert(word)`: afterwards every prefix of `word` has a path, `word` is
     * marked, every earlier path still reaches the same node and nothing else
     * is added; inserting a word already present changes nothing.
     */
    method Insert(word: string)
      requires Valid()
      modifies this, Repr
      ensures Valid() && fresh(Repr - old(Repr))
      ensures Paths.Keys == old(Paths.Keys) + Prefixes(word, |word|)
      ensures forall p :: p in old(Paths) ==> Paths[p] == old(Paths[p])
      ensures Words == old(Words) + {word}
      ensures old(word in Words) ==> Paths == old(Paths) && Words == old(Words)
    {
      ghost var before := Paths;
      if word in Words {
        PrefixClosed(Paths, Kids, word);
      }
      var node := root;
      var i := 0;
      while i < |word|
        invariant 0 <= i <= |word|
        invariant Valid() && fresh(Repr - old(Repr)) && Words == old(Words)
        invariant Walked(before, word, i, node)
      {
        node := Step(before, word, i, node);
        i := i + 1;
      }
      assert word == word[..|word|];
      if word in old(Words) {
        assert Paths == before;
      }
      MarkEnd(node, word);
    }

    /**
     * After `i` steps of the walk for `word`, starting from the paths `before`:
     * `node` is the node at `word[..i]`, the first `i + 1` prefixes of `word`
     * have been added and no earlier path has moved.
     */
    ghost predicate Walked(before: map<string, TrieNode>, word: string, i: nat, node: TrieNode)
      reads this
    {
      && i <= |word|
      && word[..i] in Paths && Paths[word[..i]] == node
      && Paths.Keys == before.Keys + Prefixes(word, i)
      && (forall p :: p in before ==> Paths[p] == before[p])
    }

    /** One iteration of the walk in `insert`: move to (or create) the child along `word[i]`. */
    method Step(ghost before: map<string, TrieNode>, word: string, i: nat, node: TrieNode) returns (next: TrieNode)
      requires Valid() && i < |word| && Walked(before, word, i, node)
      modifies this, Repr
      ensures Valid() && fresh(Repr - old(Repr)) && Words == old(Words)
      ensures Walked(before, word, i + 1, next)
    {
      PrefixesStep(word, i);
      assert word[..i + 1] == word[..i] + [word[i]];
      next := ComputeIfAbsent(node, word[..i], word[i]);
    }

    /**
     * `node.children.computeIfAbsent(ch, k -> new TrieNode())`: returns the
     * child of the node at path `p` along `ch`, creating it when missing.
     */
    method ComputeIfAbsent(node: TrieNode, ghost p: string, ch: char) returns (next: TrieNode)
      requires Valid() && p in Paths && Paths[p] == node
      modifies this, node
      ensures Valid() && fresh(Repr - old(Repr)) && Words == old(Words)
      ensures p + [ch] in Paths && Paths[p + [ch]] == next
      ensures Paths.Keys == old(Paths.Keys) + {p + [ch]}
      ensures forall q :: q in old(Paths) ==> Paths[q] == old(Paths[q])
    {
      if ch in node.children {
        next := node.children[ch];
      } else {
        next := new TrieNode();
        AddChild(node, p, ch, next);
      }
    }

    /** Hangs the fresh node `child` under the node at path `p` along `ch`. */
    method AddChild(node: TrieNode, ghost p: string, ch: char, child: TrieNode)
      requires Valid() && p in Paths && Paths[p] == node && ch !in node.children
      requires child !in Repr && child.children == map[] && !child.isEndOfWord
      modifies this, node
      ensures Valid() && Repr == old(Repr) + {child} && Words == old(Words)
      ensures Paths == old(Paths)[p + [ch] := child]
    {
      ghost var np := p + [ch];
      AddLeaf(Paths, Kids, p, ch, child);
      node.children := node.children[ch := child];
      Kids := Kids[p := Kids[p][ch := child]][np := map[]];
      Paths := Paths[np := child];
      PathOf := PathOf[child := np];
      Repr := Repr + {child};
      forall q | q in Paths
        ensures Paths[q].children == Kids[q] && (Paths[q].isEndOfWord <==> q in Words)
      {
        if q != np && q != p {
          assert old(PathOf[Paths[q]]) != old(PathOf[node]);
          assert old(Paths[q].children) == old(Kids[q]) && old(Paths[q].isEndOfWord) == (q in Words);
        }
      }
    }

    /** `node.isEndOfWord = true` on the node at path `w`. */
    method MarkEnd(node: TrieNode, ghost w: string)
      requires Valid() && w in Paths && Paths[w] == node
      modifies this, node
      ensures Valid() && Repr == old(Repr)
      ensures Paths == old(Paths) && Words == old(Words) + {w}
    {
      node.isEndOfWord := true;
      Words := Words + {w};
      forall p | p in Paths ensures Paths[p].children == Kids[p] && (Paths[p].isEndOfWord <==> p in Words) {
        assert old(Paths[p].children) == Kids[p];
        if p != w {
          assert PathOf[Paths[p]] != PathOf[node];
          assert old(Paths[p].isEndOfWord) == (p in old(Words));
        }
      }
    }
  }
}
