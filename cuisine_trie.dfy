/**
 * The cuisine registry's trie (main.py:147-186).  Each node is a slot of an
 * arena: `children[n]` maps a character to the slot of the child node, and
 * `isEnd[n]` marks the end of a registered cuisine name.  Slot 0 is the root.
 */
module CuisineIndex {

  /**
   * The shape of the arena.  `path[n]` is the string spelled from the root to
   * slot n and `parent[n]` the slot it hangs from; `words` are the strings
   * whose end is marked.
   */
  ghost predicate WellFormed(children: seq<map<char, nat>>, isEnd: seq<bool>, path: seq<string>,
                             parent: seq<nat>, words: set<string>)
  {
    && |children| == |isEnd| == |path| == |parent| >= 1
    && path[0] == []
    && (forall a, b :: 0 <= a < b < |path| ==> path[a] != path[b])
    && (forall n, c {:trigger children[n][c]} :: 0 <= n < |children| && c in children[n] ==>
          children[n][c] < |path| && path[children[n][c]] == path[n] + [c])
    && (forall n {:trigger parent[n]} :: 0 < n < |path| ==>
          && parent[n] < |path| && |path[n]| > 0
          && path[parent[n]] == path[n][..|path[n]| - 1]
          && path[n][|path[n]| - 1] in children[parent[n]])
    && (forall n :: 0 <= n < |path| ==> (isEnd[n] <==> path[n] in words))
    && (forall w :: w in words ==> exists n :: 0 <= n < |path| && path[n] == w)
  }

  /** The arena after a fresh, childless slot is hung under `node` for `c`. */
  function Attach(children: seq<map<char, nat>>, node: nat, c: char): seq<map<char, nat>>
    requires node < |children|
  {
    var edges: map<char, nat> := children[node][c := |children|];
    children[node := edges] + [map[]]
  }

  /** Every prefix of a node's string is the string of some node. */
  lemma {:induction false} Ancestor(children: seq<map<char, nat>>, isEnd: seq<bool>, path: seq<string>,
                                    parent: seq<nat>, words: set<string>, n: nat, k: nat) returns (m: nat)
    requires WellFormed(children, isEnd, path, parent, words)
    requires n < |path| && k <= |path[n]|
    ensures m < |path| && path[m] == path[n][..k]
    decreases |path[n]|
  {
    if k == |path[n]| {
      m := n;
    } else {
      assert n != 0;
      var p := parent[n];
      assert path[p] == path[n][..|path[n]| - 1];
      m := Ancestor(children, isEnd, path, parent, words, p, k);
    }
  }

  /** A node without a child for `c` leaves its string followed by `c` unspelled. */
  lemma NoChildNoNode(children: seq<map<char, nat>>, isEnd: seq<bool>, path: seq<string>,
                      parent: seq<nat>, words: set<string>, node: nat, c: char)
    requires WellFormed(children, isEnd, path, parent, words)
    requires node < |path| && c !in children[node]
    ensures forall m :: 0 <= m < |path| ==> path[m] != path[node] + [c]
  {
    forall m | 0 < m < |path|
      ensures path[m] != path[node] + [c]
    {
      // the node `m` would hang from has the string of `node`, so it is `node`
      assert parent[m] < |path|;
    }
  }

  /** Hence no registered name continues that string. */
  lemma NoChildNoWord(children: seq<map<char, nat>>, isEnd: seq<bool>, path: seq<string>,
                      parent: seq<nat>, words: set<string>, node: nat, s: string, i: nat)
    requires WellFormed(children, isEnd, path, parent, words)
    requires node < |path| && i < |s| && path[node] == s[..i] && s[i] !in children[node]
    ensures s !in words
  {
    if s in words {
      var n :| 0 <= n < |path| && path[n] == s;
      var m := Ancestor(children, isEnd, path, parent, words, n, i + 1);
      assert s[..i + 1] == s[..i] + [s[i]];
      NoChildNoNode(children, isEnd, path, parent, words, node, s[i]);
      assert false;
    }
  }

  /** The new node's string is spelled by no other node. */
  lemma AddChildDistinct(children: seq<map<char, nat>>, isEnd: seq<bool>, path: seq<string>,
                         parent: seq<nat>, words: set<string>, node: nat, c: char)
    requires WellFormed(children, isEnd, path, parent, words)
    requires node < |path| && c !in children[node]
    ensures var path' := path + [path[node] + [c]];
      forall a, b :: 0 <= a < b < |path'| ==> path'[a] != path'[b]
  {
    var path' := path + [path[node] + [c]];
    NoChildNoNode(children, isEnd, path, parent, words, node, c);
    forall a, b | 0 <= a < b < |path'|
      ensures path'[a] != path'[b]
    {
      assert path'[a] == path[a];
      if b < |path| {
        assert path'[b] == path[b];
      }
    }
  }

  /** Every edge, the new one included, leads to the node spelling one character more. */
  lemma AddChildEdges(children: seq<map<char, nat>>, path: seq<string>, node: nat, c: char)
    requires |children| == |path| && node < |path|
    requires forall n, d {:trigger children[n][d]} :: 0 <= n < |children| && d in children[n] ==>
               children[n][d] < |path| && path[children[n][d]] == path[n] + [d]
    ensures var children', path' := Attach(children, node, c), path + [path[node] + [c]];
      forall n, d {:trigger children'[n][d]} :: 0 <= n < |children'| && d in children'[n] ==>
        children'[n][d] < |path'| && path'[children'[n][d]] == path'[n] + [d]
  {
    var children', path' := Attach(children, node, c), path + [path[node] + [c]];
    forall n, d | 0 <= n < |children'| && d in children'[n]
      ensures children'[n][d] < |path'| && path'[children'[n][d]] == path'[n] + [d]
    {
      if n != node || d != c {
        assert d in children[n] && children'[n][d] == children[n][d];
      }
    }
  }

  /** Every node but the root, the new one included, hangs from the node spelling its string but one. */
  lemma AddChildParents(children: seq<map<char, nat>>, path: seq<string>, parent: seq<nat>, node: nat, c: char)
    requires |children| == |path| == |parent| && node < |path|
    requires forall n {:trigger parent[n]} :: 0 < n < |path| ==>
               && parent[n] < |path| && |path[n]| > 0
               && path[parent[n]] == path[n][..|path[n]| - 1]
               && path[n][|path[n]| - 1] in children[parent[n]]
    ensures var children', path', parent' := Attach(children, node, c), path + [path[node] + [c]], parent + [node];
      forall n {:trigger parent'[n]} :: 0 < n < |path'| ==>
        && parent'[n] < |path'| && |path'[n]| > 0
        && path'[parent'[n]] == path'[n][..|path'[n]| - 1]
        && path'[n][|path'[n]| - 1] in children'[parent'[n]]
  {
    var children', path', parent' := Attach(children, node, c), path + [path[node] + [c]], parent + [node];
    forall n | 0 < n < |path'|
      ensures && parent'[n] < |path'| && |path'[n]| > 0
              && path'[parent'[n]] == path'[n][..|path'[n]| - 1]
              && path'[n][|path'[n]| - 1] in children'[parent'[n]]
    {
      if n == |path| {
        assert (path[node] + [c])[..|path[node] + [c]| - 1] == path[node];
      } else {
        assert parent'[n] == parent[n] && path'[n] == path[n];
      }
    }
  }

  /** Hanging a fresh, unmarked node under `node` for `c` keeps the shape and the words. */
  lemma AddChild(children: seq<map<char, nat>>, isEnd: seq<bool>, path: seq<string>,
                 parent: seq<nat>, words: set<string>, node: nat, c: char)
    requires WellFormed(children, isEnd, path, parent, words)
    requires node < |path| && c !in children[node]
    ensures WellFormed(Attach(children, node, c), isEnd + [false],
                       path + [path[node] + [c]], parent + [node], words)
  {
    var path' := path + [path[node] + [c]];
    var isEnd' := isEnd + [false];
    AddChildDistinct(children, isEnd, path, parent, words, node, c);
    AddChildEdges(children, path, node, c);
    AddChildParents(children, path, parent, node, c);
    NoChildNoNode(children, isEnd, path, parent, words, node, c);
    forall n | 0 <= n < |path'|
      ensures isEnd'[n] <==> path'[n] in words
    {
      if n == |path| {
        assert path'[n] !in words;
      } else {
        assert isEnd'[n] == isEnd[n] && path'[n] == path[n];
      }
    }
    forall w | w in words
      ensures exists n :: 0 <= n < |path'| && path'[n] == w
    {
      var n :| 0 <= n < |path| && path[n] == w;
      assert path'[n] == w;
    }
  }

  /** Marking the node that spells `s` adds exactly `s` to the words. */
  lemma MarkEnd(children: seq<map<char, nat>>, isEnd: seq<bool>, path: seq<string>,
                parent: seq<nat>, words: set<string>, node: nat, s: string)
    requires WellFormed(children, isEnd, path, parent, words)
    requires node < |path| && path[node] == s
    ensures WellFormed(children, isEnd[node := true], path, parent, words + {s})
  {
    forall n | 0 <= n < |path|
      ensures isEnd[node := true][n] <==> path[n] in words + {s}
    {
      if n != node {
        assert path[if n < node then n else node] != path[if n < node then node else n];
      }
    }
  }

  class CuisineTrie {
    var children: seq<map<char, nat>>
    var isEnd: seq<bool>
    // public view: the registered cuisine names
    ghost var Words: set<string>
    ghost var Path: seq<string>
    ghost var Parent: seq<nat>

    ghost predicate Valid()
      reads this
    {
      WellFormed(children, isEnd, Path, Parent, Words)
    }

    constructor ()
      ensures Valid() && Words == {}
    {
      children, isEnd := [map[]], [false];
      Path, Parent, Words := [[]], [0], {};
    }

    /** Walks the name character by character, creating missing nodes, and marks the last one. */
    method Insert(cuisine: string)
      requires Valid()
      modifies this
      ensures Valid() && Words == old(Words) + {cuisine}
    {
      var node: nat := 0;
      for i := 0 to |cuisine|
        invariant Valid() && Words == old(Words)
        invariant node < |Path| && Path[node] == cuisine[..i]
      {
        var c := cuisine[i];
        if c !in children[node] {
          AddChild(children, isEnd, Path, Parent, Words, node, c);
          Path, Parent := Path + [Path[node] + [c]], Parent + [node];
          children := Attach(children, node, c);
          isEnd := isEnd + [false];
        }
        assert cuisine[..i + 1] == cuisine[..i] + [c];
        node := children[node][c];
      }
      assert cuisine[..|cuisine|] == cuisine;
      MarkEnd(children, isEnd, Path, Parent, Words, node, cuisine);
      isEnd := isEnd[node := true];
      Words := Words + {cuisine};
    }

    /** Exact-match lookup: true only for a complete registered name, never for a proper prefix of one. */
    method Search(cuisine: string) returns (found: bool)
      requires Valid()
      ensures found <==> cuisine in Words
    {
      var node: nat := 0;
      for i := 0 to |cuisine|
        invariant node < |Path| && Path[node] == cuisine[..i]
      {
        var c := cuisine[i];
        if c !in children[node] {
          NoChildNoWord(children, isEnd, Path, Parent, Words, node, cuisine, i);
          return false;
        }
        assert cuisine[..i + 1] == cuisine[..i] + [c];
        node := children[node][c];
      }
      assert cuisine[..|cuisine|] == cuisine;
      return isEnd[node];
    }
  }

  /** Registering "Italian" does not register its prefix "Ital". */
  method PrefixIsNotRegistered() returns (italian: bool, ital: bool)
    ensures italian && !ital
  {
    var trie := new CuisineTrie();
    trie.Insert("Italian");
    italian := trie.Search("Italian");
    ital := trie.Search("Ital");
  }
}
