/** The trie of LearnDataStructures/Trie/Trie.swift: a tree of nodes, each with
    a terminal flag and a dictionary from characters to children, and a word
    counter. Every word is lowercased before it is walked.

    A node of the tree is identified by the characters on the path from the
    root to it, so the whole node structure is the set `nodes` of those paths
    and the terminal flags are the set `terminating` of paths whose flag is
    set. A node has a child for character `c` exactly when its path extended
    by `c` is in `nodes`. */
module Tries {

  /** Lowercasing of one character, for the letters `A` to `Z`. */
  function LowerChar(c: char): (d: char)
    ensures 'A' <= c <= 'Z' ==> 'a' <= d <= 'z'
    ensures !('A' <= c <= 'Z') ==> d == c
  {
    if 'A' <= c <= 'Z' then (c as int - 'A' as int + 'a' as int) as char else c
  }

  /** `lowercased()`, character by character. */
  function Lower(w: seq<char>): (r: seq<char>)
    ensures |r| == |w|
    ensures forall i :: 0 <= i < |w| ==> r[i] == LowerChar(w[i])
  {
    if w == [] then [] else [LowerChar(w[0])] + Lower(w[1..])
  }

  /** Lowercasing twice is lowercasing once, so words that differ only in case
      walk the same path. */
  lemma LowerIdempotent(w: seq<char>)
    ensures Lower(Lower(w)) == Lower(w)
    ensures Lower(w) == [] <==> w == []
  {
    forall i | 0 <= i < |w| ensures Lower(Lower(w))[i] == Lower(w)[i] {
      assert LowerChar(LowerChar(w[i])) == LowerChar(w[i]);
    }
  }

  /** The path of a node's parent. */
  function Parent(p: seq<char>): seq<char>
    requires p != []
  {
    p[..|p| - 1]
  }

  /** Every node's parent is a node. */
  ghost predicate PrefixClosed(nodes: set<seq<char>>) {
    forall p {:trigger Parent(p)} | p in nodes && p != [] :: Parent(p) in nodes
  }

  /** `p` begins some word of `words`. */
  ghost predicate Extends(p: seq<char>, words: set<seq<char>>) {
    exists w :: w in words && p <= w
  }

  /** Every node other than the root lies on a word of `words`. */
  ghost predicate Covered(nodes: set<seq<char>>, words: set<seq<char>>) {
    forall p | p in nodes && p != [] :: Extends(p, words)
  }

  /** The paths from the root to each node along `w`. */
  ghost function Prefixes(w: seq<char>): set<seq<char>> {
    set j | 0 <= j <= |w| :: w[..j]
  }

  /** In a prefix-closed set of paths, every prefix of a node is a node. */
  lemma {:induction false} PrefixesPresent(nodes: set<seq<char>>, p: seq<char>, i: nat)
    requires PrefixClosed(nodes) && p in nodes && i <= |p|
    ensures p[..i] in nodes
    decreases |p|
  {
    if i < |p| {
      var q := Parent(p);
      PrefixesPresent(nodes, q, i);
      assert q[..i] == p[..i];
    } else {
      assert p[..i] == p;
    }
  }

  /** A path missing from a prefix-closed trie begins no terminal word. */
  lemma MissingNodeExtendsNothing(nodes: set<seq<char>>, terminating: set<seq<char>>, p: seq<char>)
    requires PrefixClosed(nodes) && terminating <= nodes && p !in nodes
    ensures !Extends(p, terminating)
  {
    if Extends(p, terminating) {
      var w :| w in terminating && p <= w;
      assert w[..|p|] == p;
      PrefixesPresent(nodes, w, |p|);
    }
  }

  /** A terminal word begins a terminal word (itself), so whatever
      `contains(_:)` accepts, `isPrefix(_:)` accepts too. */
  lemma ContainedIsPrefix(p: seq<char>, words: set<seq<char>>)
    requires p in words
    ensures Extends(p, words)
  {
    assert p <= p;
  }

  /** The walk of `insert(_:)` from the root along `w`: each missing child is
      created. */
  method AddPath(nodes: set<seq<char>>, w: seq<char>) returns (grown: set<seq<char>>)
    requires [] in nodes && PrefixClosed(nodes)
    ensures grown == nodes + Prefixes(w) && PrefixClosed(grown)
  {
    grown := nodes;
    var cur: seq<char> := [];
    for i := 0 to |w|
      invariant cur == w[..i] && cur in grown
      invariant grown == nodes + set j | 0 <= j <= i :: w[..j]
      invariant PrefixClosed(grown)
    {
      var next := cur + [w[i]];
      assert next == w[..i + 1];
      if next !in grown {
        grown := grown + {next};
      }
      cur := next;
    }
  }

  /** The walk of `contains(_:)` and `isPrefix(_:)` from the root along `w`:
      it stops at the first missing child, and gets through exactly when `w`
      is a node. */
  method Walk(nodes: set<seq<char>>, w: seq<char>) returns (through: bool)
    requires [] in nodes && PrefixClosed(nodes)
    ensures through <==> w in nodes
  {
    var cur: seq<char> := [];
    for i := 0 to |w|
      invariant cur == w[..i] && cur in nodes
    {
      var next := cur + [w[i]];
      if next !in nodes {
        assert w !in nodes by {
          if w in nodes {
            assert w[..i + 1] == next;
            PrefixesPresent(nodes, w, i + 1);
          }
        }
        return false;
      }
      cur := next;
    }
    assert cur == w;
    return true;
  }

  /** The root exists and is never terminal; nodes hang off nodes; every node
      other than the root lies on a terminal word, since nodes are created
      only along inserted words. */
  ghost predicate TrieShape(nodes: set<seq<char>>, terminating: set<seq<char>>) {
    && [] in nodes && [] !in terminating && terminating <= nodes
    && PrefixClosed(nodes)
    && Covered(nodes, terminating)
  }

  /** Adding the path of a non-empty word and marking its end keeps the
      shape. */
  lemma InsertKeepsShape(nodes: set<seq<char>>, terminating: set<seq<char>>, w: seq<char>, grown: set<seq<char>>)
    requires TrieShape(nodes, terminating) && w != []
    requires grown == nodes + Prefixes(w) && PrefixClosed(grown)
    ensures TrieShape(grown, terminating + {w})
    ensures w in terminating ==> terminating + {w} == terminating
    ensures w !in terminating ==> |terminating + {w}| == |terminating| + 1
  {
    assert w in Prefixes(w) by {
      assert w[..|w|] == w;
    }
    NewNodesLieOnWord(nodes, grown, terminating, terminating + {w}, w);
    AddWord(terminating, w);
  }

  lemma AddWord(words: set<seq<char>>, w: seq<char>)
    ensures w in words ==> words + {w} == words
    ensures w !in words ==> |words + {w}| == |words| + 1
  {
  }

  class Trie {
    var nodes: set<seq<char>>
    var terminating: set<seq<char>>
    var wordCount: int

    /** The shape invariant holds and the counter counts the terminal nodes. */
    ghost predicate Valid()
      reads this
    {
      TrieShape(nodes, terminating) && wordCount == |terminating|
    }

    constructor ()
      ensures Valid() && nodes == {[]} && terminating == {}
    {
      nodes := {[]};
      terminating := {};
      wordCount := 0;
    }

    /** `count`: the number of distinct words stored. */
    function Count(): (n: int)
      reads this
      requires Valid()
      ensures n == |terminating|
    {
      wordCount
    }

    /** `insert(_:)`: the empty word is ignored; otherwise the lowercased word
        is walked from the root, creating each missing child, and its last
        node is marked terminal, bumping the counter if it was not. */
    method Insert(word: seq<char>)
      requires Valid()
      modifies this
      ensures Valid()
      ensures word == [] ==> nodes == old(nodes) && terminating == old(terminating)
      ensures word != [] ==> nodes == old(nodes) + Prefixes(Lower(word))
      ensures word != [] ==> terminating == old(terminating) + {Lower(word)}
      ensures wordCount == old(wordCount) + (if word != [] && Lower(word) !in old(terminating) then 1 else 0)
    {
      if |word| == 0 {
        return;
      }
      var lw := Lower(word);
      var grown := AddPath(nodes, lw);
      InsertKeepsShape(nodes, terminating, lw, grown);
      nodes := grown;
      if lw in terminating {
        return;
      }
      wordCount := wordCount + 1;
      terminating := terminating + {lw};
    }

    /** `contains(_:)`: false for the empty word; otherwise the walk must
        reach a terminal node. */
    method Contains(word: seq<char>) returns (found: bool)
      requires Valid()
      ensures found <==> word != [] && Lower(word) in terminating
    {
      if |word| == 0 {
        return false;
      }
      var lw := Lower(word);
      var through := Walk(nodes, lw);
      found := through && lw in terminating;
    }

    /** `isPrefix(_:)`: true for the empty word; otherwise the walk must not
        fall off the trie. */
    method IsPrefix(word: seq<char>) returns (b: bool)
      requires Valid()
      ensures b <==> word == [] || Extends(Lower(word), terminating)
    {
      if |word| == 0 {
        return true;
      }
      var lw := Lower(word);
      b := Walk(nodes, lw);
      if !b {
        MissingNodeExtendsNothing(nodes, terminating, lw);
      }
    }
  }

  /** After an insertion the nodes added along the word lie on it, and the
      word itself is terminal, so every node still lies on a terminal word. */
  lemma NewNodesLieOnWord(before: set<seq<char>>, after: set<seq<char>>, words: set<seq<char>>, words': set<seq<char>>, w: seq<char>)
    requires after == before + Prefixes(w) && words' == words + {w}
    requires Covered(before, words)
    ensures Covered(after, words')
  {
    forall p | p in after && p != [] ensures Extends(p, words') {
      if p in Prefixes(w) {
        var j :| 0 <= j <= |w| && p == w[..j];
        assert p <= w;
      } else {
        var u :| u in words && p <= u;
        assert u in words';
      }
    }
  }
}
