/**
 The prefix tree behind the dictionary. A node owns one child per character,
 a terminal flag and a definition; the root stands for the empty key.
 Nodes are immutable values here, so adding a word returns the new tree.
 */
module TrieStore {
  import opened Wrappers

  /** One node of the tree: outgoing edges labelled by a character, whether the
      path to this node spells a stored word, and that word's definition. */
  datatype Trie = Node(children: map<char, Trie>, isEnd: bool, def: string)

  /** A freshly constructed node: no children, not terminal, empty definition. */
  function Empty(): (t: Trie)
    ensures t.children == map[] && !t.isEnd
    ensures forall w :: Lookup(t, w) == None
  {
    Node(map[], false, "")
  }

  /** The node reached from `t` by following the edges labelled `w`, creating
      nothing; `None` as soon as some character has no matching edge. */
  function Walk(t: Trie, w: string): Option<Trie>
    decreases |w|
  {
    if w == [] then Some(t)
    else if w[0] !in t.children then None
    else Walk(t.children[w[0]], w[1..])
  }

  /** Exact-match search for `w`: its definition when `w` is a stored word,
      `None` in place of the "not found" message. It has three outcomes: a
      missing edge and a non-terminal end node are both not found, a terminal
      end node yields its definition. */
  function Lookup(t: Trie, w: string): (r: Option<string>)
    ensures r.Some? <==> Walk(t, w).Some? && Walk(t, w).value.isEnd
    ensures r.Some? ==> r.value == Walk(t, w).value.def
    decreases |w|
  {
    if w == [] then (if t.isEnd then Some(t.def) else None)
    else if w[0] !in t.children then None
    else Lookup(t.children[w[0]], w[1..])
  }

  /** Adds `w` with definition `d`, creating missing nodes on the way and
      overwriting the definition if `w` is already stored. The looked-up
      value of `w` becomes `d` and every other key keeps its value. */
  function Insert(t: Trie, w: string, d: string): (r: Trie)
    ensures Lookup(r, w) == Some(d)
    ensures forall k :: k != w ==> Lookup(r, k) == Lookup(t, k)
    decreases |w|
  {
    if w == [] then
      t.(isEnd := true, def := d)
    else
      var c := w[0];
      var child := if c in t.children then t.children[c] else Empty();
      var child' := Insert(child, w[1..], d);
      var r := t.(children := t.children[c := child']);
      assert forall k :: k != w ==> Lookup(r, k) == Lookup(t, k) by {
        forall k | k != w
          ensures Lookup(r, k) == Lookup(t, k)
        {
          if k != [] && k[0] == c {
            assert k[1..] != w[1..];
          }
        }
      }
      r
  }

  /** Discards every node and returns a fresh empty root. */
  function Clear(t: Trie): (r: Trie)
    ensures forall w :: Lookup(r, w) == None
    ensures r.children == map[] && !r.isEnd
  {
    Empty()
  }

  /** Following `u` and then `v` reaches the node that following `u + v` does. */
  lemma {:induction false} WalkAppend(t: Trie, u: string, v: string)
    ensures Walk(t, u + v) == (if Walk(t, u).None? then None else Walk(Walk(t, u).value, v))
    decreases |u|
  {
    if u == [] {
      assert u + v == v;
    } else {
      assert (u + v)[0] == u[0] && (u + v)[1..] == u[1..] + v;
      if u[0] in t.children {
        WalkAppend(t.children[u[0]], u[1..], v);
      }
    }
  }

  /** When the node reached by the first `i` characters of `w` has no edge for
      `w[i]`, searching `w` reports not found. */
  lemma MissingEdgeNotFound(t: Trie, w: string, i: nat)
    requires i < |w|
    requires Walk(t, w[..i]).Some? && w[i] !in Walk(t, w[..i]).value.children
    ensures Lookup(t, w) == None
  {
    WalkAppend(t, w[..i], w[i..]);
    assert w[..i] + w[i..] == w;
  }

  /** `p` is a prefix of `w` (possibly all of it). */
  predicate IsPrefix(p: string, w: string) {
    |p| <= |w| && w[..|p|] == p
  }

  /** Insertion creates nodes only along the path of the inserted word: a key
      has a path afterwards exactly when it had one before or is a prefix of
      the word. */
  lemma {:induction false} InsertPaths(t: Trie, w: string, d: string, k: string)
    ensures Walk(Insert(t, w, d), k).Some? <==> Walk(t, k).Some? || IsPrefix(k, w)
    decreases |k|
  {
    var r := Insert(t, w, d);
    if k != [] && w != [] {
      var c := w[0];
      var child := if c in t.children then t.children[c] else Empty();
      assert r.children == t.children[c := Insert(child, w[1..], d)];
      if k[0] == c {
        InsertPaths(child, w[1..], d, k[1..]);
        assert IsPrefix(k, w) <==> IsPrefix(k[1..], w[1..]);
        if c !in t.children {
          EmptyHasOnlyRoot(k[1..]);
        }
      } else {
        assert !IsPrefix(k, w);
      }
    }
  }

  /** The only path in an empty tree is the empty one. */
  lemma EmptyHasOnlyRoot(k: string)
    ensures Walk(Empty(), k).Some? <==> k == []
  {
  }

  /** Re-inserting a stored word with a new definition replaces the definition
      and leaves every path unchanged: no node is created. */
  lemma OverwriteKeepsPaths(t: Trie, w: string, d: string, k: string)
    requires Walk(t, w).Some?
    ensures Walk(Insert(t, w, d), k).Some? <==> Walk(t, k).Some?
  {
  }

  /** Inserting `w` twice keeps only the second definition, and the tree is the
      one a single insertion of the second definition builds. */
  lemma {:induction false} InsertOverwrite(t: Trie, w: string, d1: string, d2: string)
    ensures Insert(Insert(t, w, d1), w, d2) == Insert(t, w, d2)
    decreases |w|
  {
    if w != [] {
      var c := w[0];
      var child := if c in t.children then t.children[c] else Empty();
      InsertOverwrite(child, w[1..], d1, d2);
      var t1 := Insert(t, w, d1);
      assert t1.children[c] == Insert(child, w[1..], d1);
      assert Insert(t1, w, d2).children == t.children[c := Insert(child, w[1..], d2)];
    }
  }

  /** Adding the same word and definition twice builds the same tree as adding
      it once. */
  lemma InsertIdempotent(t: Trie, w: string, d: string)
    ensures Insert(Insert(t, w, d), w, d) == Insert(t, w, d)
  {
    InsertOverwrite(t, w, d, d);
  }

  /** A proper prefix of a newly inserted word that was not itself stored now
      has a path, yet searching it still reports not found. */
  lemma UnaddedPrefixNotFound(t: Trie, p: string, w: string, d: string)
    requires IsPrefix(p, w) && p != w
    requires Lookup(t, p) == None
    ensures Walk(Insert(t, w, d), p).Some?
    ensures Lookup(Insert(t, w, d), p) == None
  {
    InsertPaths(t, w, d, p);
  }
}
