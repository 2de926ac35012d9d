/**
 * The string trie of tokenhealing/trie.py: a nested dictionary in which every
 * node maps a character to a child node and the special key "" marks that a
 * word ends at that node.  Python dictionaries keep insertion order, and that
 * order is visible in the result of `extensions`, so a node is modelled as a
 * terminal flag (the "" key) plus an ORDERED sequence of (character, child)
 * edges rather than as a Dafny map.
 */
module StringTrie {
  import opened Util

  /** One dictionary of the nested-dictionary trie. */
  datatype Node = Node(terminal: bool, children: seq<(char, Node)>)

  /** A fresh `{}`. */
  const Empty: Node := Node(false, [])

  /** `prefix_node[char]` on a missing character raises KeyError(char). */
  datatype KeyError = KeyError(key: char)

  /** Python truthiness of a dictionary: it has at least one key. */
  predicate Truthy(n: Node)
  {
    n.terminal || n.children != []
  }

  /** `node[c]`, or None where Python raises KeyError. */
  function Child(n: Node, c: char): Option<Node>
  {
    match Find(n.children, c)
    case None => None
    case Some(i) => Some(n.children[i].1)
  }

  /** `char in ref and ref[char] or {}` (tokenhealing/trie.py:45). */
  function ChildOrEmpty(n: Node, c: char): (r: Node)
    ensures Truthy(r) <==> Child(n, c).Some? && Truthy(Child(n, c).value)
    ensures Truthy(r) ==> Child(n, c) == Some(r)
    ensures !Truthy(r) ==> r == Empty
  {
    match Child(n, c)
    case Some(m) => if Truthy(m) then m else Empty
    case None => Empty
  }

  /** The keys of a dictionary other than "", in insertion order. */
  function Labels(n: Node): (r: seq<char>)
    ensures |r| == |n.children| && forall k :: 0 <= k < |r| ==> r[k] == n.children[k].0
  {
    seq(|n.children|, k requires 0 <= k < |n.children| => n.children[k].0)
  }

  /**
   * `ref[char] = m`: an existing key keeps its position, a new key goes last.
   * Only the edge labelled `c` changes.
   */
  function SetChild(n: Node, c: char, m: Node): (r: Node)
    ensures r.terminal == n.terminal
    ensures Child(r, c) == Some(m)
    ensures forall d :: d != c ==> Child(r, d) == Child(n, d)
  {
    match Find(n.children, c)
    case Some(i) =>
      var r := n.(children := n.children[i := (c, m)]);
      assert forall d :: Find(r.children, d) == Find(n.children, d) by {
        forall d ensures Find(r.children, d) == Find(n.children, d) {
          FindSameKeys(r.children, n.children, d);
        }
      }
      r
    case None =>
      var r := n.(children := n.children + [(c, m)]);
      assert forall d :: d != c ==> Find(r.children, d) == Find(n.children, d) by {
        forall d | d != c ensures Find(r.children, d) == Find(n.children, d) {
          FindAppend(n.children, (c, m), d);
        }
      }
      FindAppend(n.children, (c, m), c);
      r
  }

  /**
   * Where `ref[char] = m` puts the key: an existing key stays in its position
   * and a new key goes after all the others.
   */
  lemma SetChildLabels(n: Node, c: char, m: Node)
    ensures Labels(SetChild(n, c, m)) == if Child(n, c).Some? then Labels(n) else Labels(n) + [c]
  {
    var r := SetChild(n, c, m);
    match Find(n.children, c)
    case Some(i) =>
      assert r.children == n.children[i := (c, m)];
    case None =>
      assert r.children == n.children + [(c, m)];
  }

  /** The node reached from `n` along the characters of `p`; None where the loop of `extensions` raises KeyError. */
  function Descend(n: Node, p: string): Option<Node>
    decreases |p|
  {
    if p == [] then Some(n)
    else match Child(n, p[0])
      case None => None
      case Some(m) => Descend(m, p[1..])
  }

  /** `w` is a word of the trie below `n`: its path exists and ends in a node holding "". */
  predicate Contains(n: Node, w: string)
  {
    match Descend(n, w)
    case None => false
    case Some(m) => m.terminal
  }

  /** The result of `add(w)` on a non-empty word (tokenhealing/trie.py:43-48), as a value. */
  function Insert(n: Node, w: string): (r: Node)
    ensures Truthy(r)
    ensures r.terminal == (n.terminal || w == [])
    decreases |w|
  {
    if w == [] then n.(terminal := true)
    else SetChild(n, w[0], Insert(ChildOrEmpty(n, w[0]), w[1..]))
  }

  /** `add(w)`, including its early return on the empty word (tokenhealing/trie.py:38-40). */
  function AddWord(n: Node, w: string): Node
  {
    if w == [] then n else Insert(n, w)
  }

  /** `update(words)`: `add` applied to every word in turn. */
  function InsertAll(n: Node, words: seq<string>): Node
  {
    if words == [] then n
    else AddWord(InsertAll(n, words[..|words| - 1]), words[|words| - 1])
  }

  /** The trie that `add(w)` builds from `{}`: one node per character, the last holding "". */
  function Chain(w: string): Node
  {
    if w == [] then Node(true, [])
    else Node(false, [(w[0], Chain(w[1..]))])
  }

  /**
   * The shape every trie built by `add` has: the keys of a dictionary are
   * distinct, and every node below the root holds "" or a child, so none is an
   * empty (falsy) dictionary.
   */
  ghost predicate WellFormed(n: Node)
  {
    (forall i, j :: 0 <= i < j < |n.children| ==> n.children[i].0 != n.children[j].0) &&
    forall i :: 0 <= i < |n.children| ==> Truthy(n.children[i].1) && WellFormed(n.children[i].1)
  }

  /** `[p + t for t in ws]` (tokenhealing/trie.py:56, 65). */
  function Prepend(p: string, ws: seq<string>): (r: seq<string>)
    ensures |r| == |ws| && forall k :: 0 <= k < |ws| ==> r[k] == p + ws[k]
  {
    seq(|ws|, k requires 0 <= k < |ws| => p + ws[k])
  }

  /**
   * `_collect_tokens(n)`: "" first when `n` holds the end marker, then the
   * words of every child, depth-first, children in insertion order.
   */
  function Collect(n: Node): seq<string>
    decreases n, |n.children| + 1
  {
    (if n.terminal then [""] else []) + CollectFrom(n, 0)
  }

  /** The words below the children of `n` from position `i` on. */
  function CollectFrom(n: Node, i: nat): seq<string>
    decreases n, |n.children| - i
  {
    if i >= |n.children| then []
    else Prepend([n.children[i].0], Collect(n.children[i].1)) + CollectFrom(n, i + 1)
  }

  /** `extensions(p)` as a value: None where it raises KeyError. */
  function ExtensionsOf(n: Node, p: string): Option<seq<string>>
  {
    match Descend(n, p)
    case None => None
    case Some(m) => Some(Prepend(p, Collect(m)))
  }

  // ---------------------------------------------------------------------------
  // Edges and descent

  lemma {:induction false} EdgeUnique(n: Node, i: nat)
    requires WellFormed(n) && i < |n.children|
    ensures Find(n.children, n.children[i].0) == Some(i)
  {
    var r := Find(n.children, n.children[i].0);
    assert r.Some?;
    assert !(r.value < i) && !(i < r.value);
  }

  lemma ChildOrEmptyWellFormed(n: Node, c: char)
    requires WellFormed(n)
    ensures WellFormed(ChildOrEmpty(n, c))
  {
  }

  lemma {:induction false} DescendConcat(n: Node, p: string, s: string)
    ensures Descend(n, p + s) == match Descend(n, p)
                                 case None => None
                                 case Some(m) => Descend(m, s)
  {
    if p != [] {
      assert (p + s)[0] == p[0] && (p + s)[1..] == p[1..] + s;
      match Child(n, p[0])
      case None =>
      case Some(m) => DescendConcat(m, p[1..], s);
    } else {
      assert p + s == s;
    }
  }

  /** A missing character at position `i` of `p` makes the whole descent fail. */
  lemma DescendStops(n: Node, p: string, i: nat)
    requires i < |p| && Descend(n, p[..i + 1]).None?
    ensures Descend(n, p).None?
  {
    DescendConcat(n, p[..i + 1], p[i + 1..]);
    assert p[..i + 1] + p[i + 1..] == p;
  }

  lemma {:induction false} DescendWellFormed(n: Node, p: string)
    requires WellFormed(n) && Descend(n, p).Some?
    ensures WellFormed(Descend(n, p).value)
    ensures p != [] ==> Truthy(Descend(n, p).value)
    decreases |p|
  {
    if p != [] {
      var m := Child(n, p[0]).value;
      DescendWellFormed(m, p[1..]);
    }
  }

  /** A non-empty well-formed dictionary holds at least one word. */
  lemma {:induction false} SomeWord(n: Node) returns (w: string)
    requires WellFormed(n) && Truthy(n)
    ensures Contains(n, w)
  {
    if n.terminal {
      w := [];
    } else {
      var c := n.children[0].0;
      EdgeUnique(n, 0);
      var v := SomeWord(n.children[0].1);
      w := [c] + v;
      assert w[0] == c && w[1..] == v;
    }
  }

  /** Contains on `n` through its edge `c`. */
  lemma ContainsCons(n: Node, c: char, v: string)
    ensures Contains(n, [c] + v) <==> Child(n, c).Some? && Contains(Child(n, c).value, v)
  {
    assert ([c] + v)[0] == c && ([c] + v)[1..] == v;
  }

  // ---------------------------------------------------------------------------
  // add

  /** `add(w)` adds exactly the word `w`: no earlier word is lost and no other word appears. */
  lemma {:induction false} InsertContains(n: Node, w: string, v: string)
    ensures Contains(Insert(n, w), v) <==> Contains(n, v) || v == w
    decreases |w|, 1
  {
    if w == [] {
      if v != [] {
        assert Child(Insert(n, w), v[0]) == Child(n, v[0]);
      }
    } else if v != [] {
      if v[0] == w[0] {
        InsertContainsAlong(n, w, v);
      } else {
        InsertContainsBeside(n, w, v);
      }
    }
  }

  /** The case where `v` leaves the root along the first edge of `w`. */
  lemma {:induction false} InsertContainsAlong(n: Node, w: string, v: string)
    requires w != [] && v != [] && v[0] == w[0]
    ensures Contains(Insert(n, w), v) <==> Contains(n, v) || v == w
    decreases |w|, 0
  {
    var c := w[0];
    var m := ChildOrEmpty(n, c);
    InsertContains(m, w[1..], v[1..]);
    assert v == [c] + v[1..];
    assert w == [c] + w[1..];
    ContainsCons(Insert(n, w), c, v[1..]);
    ContainsCons(n, c, v[1..]);
    assert Contains(m, v[1..]) <==> Contains(n, v);
  }

  /** The case where `v` leaves the root along another edge: that subtree is untouched. */
  lemma InsertContainsBeside(n: Node, w: string, v: string)
    requires w != [] && v != [] && v[0] != w[0]
    ensures Contains(Insert(n, w), v) <==> Contains(n, v)
  {
    assert v == [v[0]] + v[1..];
    ContainsCons(Insert(n, w), v[0], v[1..]);
    ContainsCons(n, v[0], v[1..]);
  }

  /** Every node `add` creates holds "" or a child, and keys stay distinct. */
  lemma {:induction false} InsertWellFormed(n: Node, w: string)
    requires WellFormed(n)
    ensures WellFormed(Insert(n, w)) && Truthy(Insert(n, w))
    decreases |w|
  {
    if w != [] {
      var c := w[0];
      var m := ChildOrEmpty(n, c);
      ChildOrEmptyWellFormed(n, c);
      InsertWellFormed(m, w[1..]);
      SetChildWellFormed(n, c, Insert(m, w[1..]));
    }
  }

  lemma SetChildWellFormed(n: Node, c: char, m: Node)
    requires WellFormed(n) && WellFormed(m) && Truthy(m)
    ensures WellFormed(SetChild(n, c, m)) && Truthy(SetChild(n, c, m))
  {
    var r := SetChild(n, c, m);
    match Find(n.children, c)
    case Some(i) =>
      assert r.children == n.children[i := (c, m)];
    case None =>
      assert r.children == n.children + [(c, m)];
  }

  lemma SetChildSame(n: Node, c: char, m: Node)
    requires Child(n, c) == Some(m)
    ensures SetChild(n, c, m) == n
  {
    var i := Find(n.children, c).value;
    assert n.children[i := (c, m)] == n.children;
  }

  /** `add` is idempotent: adding the same word twice leaves the trie unchanged (tokenhealing/trie.py:23). */
  lemma {:induction false} InsertIdempotent(n: Node, w: string)
    ensures Insert(Insert(n, w), w) == Insert(n, w)
    decreases |w|
  {
    if w != [] {
      var c := w[0];
      var m1 := Insert(ChildOrEmpty(n, c), w[1..]);
      var n1 := Insert(n, w);
      assert Child(n1, c) == Some(m1);
      assert ChildOrEmpty(n1, c) == m1;
      InsertIdempotent(ChildOrEmpty(n, c), w[1..]);
      SetChildSame(n1, c, m1);
    }
  }

  /** `add(w)` on `{}` builds exactly the chain of `w` (tests/test_trie.py:8-10 for "Hello"). */
  lemma {:induction false} InsertIntoEmpty(w: string)
    ensures Insert(Empty, w) == Chain(w)
    decreases |w|
  {
    if w != [] {
      InsertIntoEmpty(w[1..]);
      assert ChildOrEmpty(Empty, w[0]) == Empty;
    }
  }

  /** `update(words)` adds exactly the non-empty words of `words`. */
  lemma {:induction false} InsertAllContains(n: Node, words: seq<string>, v: string)
    ensures Contains(InsertAll(n, words), v) <==> Contains(n, v) || (v in words && v != [])
    decreases |words|
  {
    if words != [] {
      var init := words[..|words| - 1];
      var w := words[|words| - 1];
      var before := InsertAll(n, init);
      assert Contains(before, v) <==> Contains(n, v) || (v in init && v != []) by {
        InsertAllContains(n, init, v);
      }
      assert Contains(InsertAll(n, words), v) <==> Contains(before, v) || (v == w && w != []) by {
        if w != [] {
          InsertContains(before, w, v);
        }
      }
      assert v in words <==> v in init || v == w by {
        assert words == init + [w];
      }
    }
  }

  lemma {:induction false} InsertAllWellFormed(n: Node, words: seq<string>)
    requires WellFormed(n)
    ensures WellFormed(InsertAll(n, words))
    ensures !n.terminal ==> !InsertAll(n, words).terminal
    decreases |words|
  {
    if words != [] {
      var init := words[..|words| - 1];
      InsertAllWellFormed(n, init);
      if words[|words| - 1] != [] {
        InsertWellFormed(InsertAll(n, init), words[|words| - 1]);
      }
    }
  }

  // ---------------------------------------------------------------------------
  // _collect_tokens and extensions

  lemma PrependMember(p: string, ws: seq<string>, s: string)
    ensures s in Prepend(p, ws) <==> p <= s && s[|p|..] in ws
  {
    if s in Prepend(p, ws) {
      var k :| 0 <= k < |ws| && Prepend(p, ws)[k] == s;
      assert s[|p|..] == ws[k];
    }
    if p <= s && s[|p|..] in ws {
      var k :| 0 <= k < |ws| && ws[k] == s[|p|..];
      assert Prepend(p, ws)[k] == s;
    }
  }

  lemma PrependDistinct(p: string, ws: seq<string>)
    requires Distinct(ws)
    ensures Distinct(Prepend(p, ws))
  {
    var r := Prepend(p, ws);
    forall i, j | 0 <= i < j < |r| ensures r[i] != r[j] {
      assert r[i][|p|..] == ws[i] && r[j][|p|..] == ws[j];
    }
  }

  /** A word below the children from position `i` on starts with the label of such a child. */
  lemma {:induction false} CollectFromMember(n: Node, i: nat, s: string)
    requires WellFormed(n)
    ensures s in CollectFrom(n, i) <==>
              |s| > 0 && Find(n.children, s[0]).Some? && Find(n.children, s[0]).value >= i &&
              s[1..] in Collect(n.children[Find(n.children, s[0]).value].1)
    decreases |n.children| - i
  {
    if i < |n.children| {
      var c := n.children[i].0;
      CollectFromMember(n, i + 1, s);
      PrependMember([c], Collect(n.children[i].1), s);
      EdgeUnique(n, i);
    }
  }

  /** `_collect_tokens(n)` yields exactly the words below `n`, relative to `n`. */
  lemma {:induction false} CollectMember(n: Node, s: string)
    requires WellFormed(n)
    ensures s in Collect(n) <==> Contains(n, s)
  {
    CollectFromMember(n, 0, s);
    if s != [] {
      var e := Find(n.children, s[0]);
      if e.Some? {
        CollectMember(n.children[e.value].1, s[1..]);
      }
      ContainsCons(n, s[0], s[1..]);
      assert s == [s[0]] + s[1..];
    }
  }

  /** `_collect_tokens(n)` never yields a word twice. */
  lemma {:induction false} CollectDistinct(n: Node)
    requires WellFormed(n)
    ensures Distinct(Collect(n))
  {
    CollectFromDistinct(n, 0);
    if n.terminal {
      forall s | s in CollectFrom(n, 0) ensures s != [] {
        CollectFromMember(n, 0, s);
      }
      DistinctConcat([""], CollectFrom(n, 0));
    }
  }

  lemma {:induction false} CollectFromDistinct(n: Node, i: nat)
    requires WellFormed(n)
    ensures Distinct(CollectFrom(n, i))
    decreases n, |n.children| - i
  {
    if i < |n.children| {
      var c := n.children[i].0;
      var here := Prepend([c], Collect(n.children[i].1));
      CollectDistinct(n.children[i].1);
      PrependDistinct([c], Collect(n.children[i].1));
      CollectFromDistinct(n, i + 1);
      forall s | s in here ensures s !in CollectFrom(n, i + 1) {
        PrependMember([c], Collect(n.children[i].1), s);
        CollectFromMember(n, i + 1, s);
        EdgeUnique(n, i);
      }
      DistinctConcat(here, CollectFrom(n, i + 1));
    }
  }

  /**
   * `extensions(p)` yields exactly the stored words that start with `p`, each
   * once, `p` itself first when it is a word (tokenhealing/trie.py:50-67).
   */
  lemma ExtensionsSound(n: Node, p: string, w: string)
    requires WellFormed(n) && ExtensionsOf(n, p).Some?
    ensures w in ExtensionsOf(n, p).value <==> p <= w && Contains(n, w)
    ensures Distinct(ExtensionsOf(n, p).value)
    ensures Contains(n, p) ==> ExtensionsOf(n, p).value[0] == p
  {
    var m := Descend(n, p).value;
    DescendWellFormed(n, p);
    PrependMember(p, Collect(m), w);
    CollectDistinct(m);
    PrependDistinct(p, Collect(m));
    if p <= w {
      CollectMember(m, w[|p|..]);
      DescendConcat(n, p, w[|p|..]);
      assert p + w[|p|..] == w;
    }
    if Contains(n, p) {
      assert p + [] == p;
    }
  }

  /**
   * `extensions(p)` raises KeyError exactly when `p` is not empty and no
   * stored word starts with it; when it does not raise and `p` is not empty,
   * the result is not empty.
   */
  lemma ExtensionsMissing(n: Node, p: string)
    requires WellFormed(n)
    ensures ExtensionsOf(n, p).None? <==> p != [] && forall w :: Contains(n, w) ==> !(p <= w)
    ensures ExtensionsOf(n, p).Some? && p != [] ==> |ExtensionsOf(n, p).value| > 0
  {
    match Descend(n, p)
    case Some(m) =>
      if p != [] {
        DescendWellFormed(n, p);
        var s := SomeWord(m);
        DescendConcat(n, p, s);
        assert Contains(n, p + s);
        CollectMember(m, s);
      }
    case None =>
      assert p != [];
      forall w | Contains(n, w) ensures !(p <= w) {
        if p <= w {
          var rest := w[|p|..];
          assert w == p + rest;
          DescendConcat(n, p, rest);
        }
      }
  }

  /** After `add(w)`, `w` is among `extensions(w)` (test/test_trie.py:8-11). */
  lemma AddedWordExtends(n: Node, w: string)
    requires WellFormed(n) && w != []
    ensures ExtensionsOf(Insert(n, w), w).Some?
    ensures |ExtensionsOf(Insert(n, w), w).value| > 0 && ExtensionsOf(Insert(n, w), w).value[0] == w
  {
    InsertWellFormed(n, w);
    InsertContains(n, w, w);
    ExtensionsMissing(Insert(n, w), w);
    ExtensionsSound(Insert(n, w), w, w);
  }

  /** A chain holds exactly its one word. */
  lemma {:induction false} CollectChain(w: string)
    ensures Collect(Chain(w)) == [w]
  {
    if w != [] {
      CollectChain(w[1..]);
      assert CollectFrom(Chain(w), 1) == [];
      assert [w[0]] + w[1..] == w;
    }
  }
  /** The words `update(ws)` stores, in the order it adds them: the non-empty members of `ws`. */
  function WordsAdded(ws: seq<string>): (r: seq<string>)
    ensures forall x :: x in r <==> x in ws && x != []
    ensures forall k :: 0 <= k < |r| ==> r[k] != []
  {
    if ws == [] then []
    else
      var init := ws[..|ws| - 1];
      assert ws == init + [ws[|ws| - 1]];
      WordsAdded(init) + if ws[|ws| - 1] == [] then [] else [ws[|ws| - 1]]
  }

  /** No two non-empty members of `ws` start with the same character. */
  predicate DistinctInitials(ws: seq<string>)
  {
    forall i, j :: 0 <= i < j < |ws| && ws[i] != [] && ws[j] != [] ==> ws[i][0] != ws[j][0]
  }

  /** A root that is not a word, with one chain per word of `ws` below it, in order. */
  function Fan(ws: seq<string>): Node
    requires forall k :: 0 <= k < |ws| ==> ws[k] != []
  {
    Node(false, seq(|ws|, k requires 0 <= k < |ws| => (ws[k][0], Chain(ws[k][1..]))))
  }

  /** `ref[char] = m` for a new `char` appends the edge. */
  lemma SetChildAppends(n: Node, c: char, m: Node)
    requires Child(n, c).None?
    ensures SetChild(n, c, m) == Node(n.terminal, n.children + [(c, m)])
  {
  }

  /** Words with pairwise different first characters, added to `{}`, give the fan of the words added. */
  lemma {:induction false} FanBuild(ws: seq<string>)
    requires DistinctInitials(ws)
    ensures InsertAll(Empty, ws) == Fan(WordsAdded(ws))
  {
    if ws != [] {
      var init, w := ws[..|ws| - 1], ws[|ws| - 1];
      assert DistinctInitials(init) by {
        forall i | 0 <= i < |init| ensures init[i] == ws[i] { }
      }
      FanBuild(init);
      var prev := InsertAll(Empty, init);
      var xs := WordsAdded(init);
      if w == [] {
        assert WordsAdded(ws) == xs;
      } else {
        forall k | 0 <= k < |xs| ensures xs[k][0] != w[0] {
          assert xs[k] in init;
          var i :| 0 <= i < |init| && init[i] == xs[k];
          assert ws[i] == xs[k];
        }
        FanStep(xs, w);
        assert WordsAdded(ws) == xs + [w];
      }
    }
  }

  /** A word whose first character starts no chain of the fan adds a chain at the end. */
  lemma FanStep(xs: seq<string>, w: string)
    requires w != []
    requires forall k :: 0 <= k < |xs| ==> xs[k] != [] && xs[k][0] != w[0]
    ensures Insert(Fan(xs), w) == Fan(xs + [w])
  {
    var f := Fan(xs);
    assert Child(f, w[0]).None?;
    InsertIntoEmpty(w[1..]);
    assert Insert(f, w) == SetChild(f, w[0], Chain(w[1..]));
    SetChildAppends(f, w[0], Chain(w[1..]));
  }

  /** `_collect_tokens` of a fan lists its words from position `i` on, in order. */
  lemma {:induction false} CollectFan(ws: seq<string>, i: nat)
    requires forall k :: 0 <= k < |ws| ==> ws[k] != []
    requires i <= |ws|
    ensures CollectFrom(Fan(ws), i) == ws[i..]
    decreases |ws| - i
  {
    if i < |ws| {
      CollectFan(ws, i + 1);
      CollectChain(ws[i][1..]);
      assert Prepend([ws[i][0]], [ws[i][1..]]) == [ws[i]] by {
        assert [ws[i][0]] + ws[i][1..] == ws[i];
      }
      assert ws[i..] == [ws[i]] + ws[i + 1..];
    }
  }

  /**
   * Siblings come out of `extensions` in insertion order: when the words added
   * to `{}` start with pairwise different characters, `extensions("")` lists
   * the non-empty ones exactly in the order they were added.
   */
  lemma InsertionOrder(ws: seq<string>)
    requires DistinctInitials(ws)
    ensures ExtensionsOf(InsertAll(Empty, ws), []) == Some(WordsAdded(ws))
  {
    var xs := WordsAdded(ws);
    FanBuild(ws);
    CollectFan(xs, 0);
    assert Collect(Fan(xs)) == xs;
    PrependNothing(xs);
  }

  /**
   * `extensions("")` lists the words in insertion order when they start with
   * different characters (test/test_trie.py:25-29 with "hello" and "bye").
   */
  lemma TwoWords(u: string, v: string)
    requires u != [] && v != [] && u[0] != v[0]
    ensures ExtensionsOf(InsertAll(Empty, [u, v]), []) == Some([u, v])
  {
    var ws := [u, v];
    assert DistinctInitials(ws);
    InsertionOrder(ws);
    WordsAddedSnoc([], u);
    WordsAddedSnoc([u], v);
    assert [] + [u] == [u] && [u] + [v] == ws;
  }

  lemma WordsAddedSnoc(ws: seq<string>, w: string)
    ensures WordsAdded(ws + [w]) == WordsAdded(ws) + if w == [] then [] else [w]
  {
    assert (ws + [w])[..|ws|] == ws;
  }

  /** Adding a word twice to `{}` leaves it the only extension of itself (test/test_trie.py:36-40). */
  lemma AddTwiceExtensions(w: string)
    requires w != []
    ensures ExtensionsOf(InsertAll(Empty, [w, w]), w) == Some([w])
  {
    var leaf := Node(true, []);
    assert [w, w][..1] == [w];
    assert [w][..0] == [];
    assert InsertAll(Empty, [w]) == Insert(Empty, w);
    assert InsertAll(Empty, [w, w]) == Insert(Insert(Empty, w), w);
    InsertIdempotent(Empty, w);
    InsertIntoEmpty(w);
    ChainSpine(w);
    DescendSpine(w, leaf);
    assert Collect(leaf) == [""];
    assert Prepend(w, [""]) == [w] by { assert w + "" == w; }
  }

  // ---------------------------------------------------------------------------
  // Nested words

  /** A path of single edges spelling `u`, ending in the node `end`. */
  function Spine(u: string, end: Node): Node
  {
    if u == [] then end else Node(false, [(u[0], Spine(u[1..], end))])
  }

  lemma {:induction false} ChainSpine(w: string)
    ensures Chain(w) == Spine(w, Node(true, []))
  {
    if w != [] {
      ChainSpine(w[1..]);
    }
  }

  lemma {:induction false} DescendSpine(u: string, end: Node)
    ensures Descend(Spine(u, end), u) == Some(end)
  {
    if u != [] {
      DescendSpine(u[1..], end);
    }
  }

  /** Adding a longer word along a spine changes only its end node. */
  lemma {:induction false} InsertSpine(u: string, end: Node, v: string)
    requires Truthy(end)
    ensures Insert(Spine(u, end), u + v) == Spine(u, Insert(end, v))
  {
    if u == [] {
      assert u + v == v;
    } else {
      assert (u + v)[0] == u[0] && (u + v)[1..] == u[1..] + v;
      InsertSpine(u[1..], end, v);
      assert Truthy(Spine(u[1..], end));
    }
  }

  /** Adding a word below a node that holds only "" hangs its chain there. */
  lemma InsertBelowLeaf(v: string)
    requires v != []
    ensures Insert(Node(true, []), v) == Node(true, [(v[0], Chain(v[1..]))])
  {
    InsertIntoEmpty(v[1..]);
  }

  lemma PrependPrepend(a: string, b: string, ws: seq<string>)
    ensures Prepend(a, Prepend(b, ws)) == Prepend(a + b, ws)
  {
    forall k | 0 <= k < |ws| ensures a + (b + ws[k]) == (a + b) + ws[k] { }
  }

  lemma PrependNothing(ws: seq<string>)
    ensures Prepend([], ws) == ws
  {
    forall k | 0 <= k < |ws| ensures [] + ws[k] == ws[k] { }
  }

  /** The words below a spine are those below its end, behind `u`. */
  lemma {:induction false} CollectSpine(u: string, end: Node)
    ensures Collect(Spine(u, end)) == Prepend(u, Collect(end))
  {
    if u == [] {
      PrependNothing(Collect(end));
    } else {
      var n := Spine(u, end);
      CollectSpine(u[1..], end);
      assert CollectFrom(n, 1) == [];
      assert Collect(n) == Prepend([u[0]], Prepend(u[1..], Collect(end)));
      PrependPrepend([u[0]], u[1..], Collect(end));
      assert [u[0]] + u[1..] == u;
    }
  }

  /** The node reached by `u` once `u`, `u + v` and `u + v + x` are added. */
  function NestedEnd(v: string, x: string): Node
    requires v != [] && x != []
  {
    Node(true, [(v[0], Spine(v[1..], Node(true, [(x[0], Chain(x[1..]))])))])
  }

  lemma NestedBuild(u: string, v: string, x: string)
    requires u != [] && v != [] && x != []
    ensures InsertAll(Empty, [u, u + v, u + v + x]) == Spine(u, NestedEnd(v, x))
  {
    var e2 := Node(true, [(v[0], Chain(v[1..]))]);
    var w3 := u + v + x;
    assert w3 == u + (v + x);
    NestedUnfold(u, u + v, w3);
    NestedFirstTwo(u, v);
    var t2 := Insert(Insert(Empty, u), u + v);
    assert t2 == Spine(u, e2);
    InsertSpine(u, e2, v + x);
    NestedStep(v, x);
    assert Insert(t2, w3) == Spine(u, NestedEnd(v, x));
  }

  /** `update([a, b, c])` on `{}` adds the three words in order. */
  lemma NestedUnfold(a: string, b: string, c: string)
    requires a != [] && b != [] && c != []
    ensures InsertAll(Empty, [a, b, c]) == Insert(Insert(Insert(Empty, a), b), c)
  {
    InsertAllSnoc(Empty, [], a);
    InsertAllSnoc(Empty, [a], b);
    InsertAllSnoc(Empty, [a, b], c);
    assert [] + [a] == [a] && [a] + [b] == [a, b] && [a, b] + [c] == [a, b, c];
  }

  lemma InsertAllSnoc(n: Node, ws: seq<string>, w: string)
    ensures InsertAll(n, ws + [w]) == AddWord(InsertAll(n, ws), w)
  {
    assert (ws + [w])[..|ws|] == ws;
  }

  lemma NestedFirstTwo(u: string, v: string)
    requires u != [] && v != []
    ensures Insert(Insert(Empty, u), u + v) == Spine(u, Node(true, [(v[0], Chain(v[1..]))]))
  {
    InsertIntoEmpty(u);
    ChainSpine(u);
    InsertSpine(u, Node(true, []), v);
    InsertBelowLeaf(v);
  }

  lemma NestedStep(v: string, x: string)
    requires v != [] && x != []
    ensures Insert(Node(true, [(v[0], Chain(v[1..]))]), v + x) == NestedEnd(v, x)
  {
    var leaf := Node(true, []);
    ChainSpine(v[1..]);
    InsertSpine(v[1..], leaf, x);
    InsertBelowLeaf(x);
    assert (v + x)[0] == v[0] && (v + x)[1..] == v[1..] + x;
  }

  lemma NestedCollect(v: string, x: string)
    requires v != [] && x != []
    ensures Collect(NestedEnd(v, x)) == ["", v, v + x]
  {
    var e := Node(true, [(x[0], Chain(x[1..]))]);
    CollectChain(x[1..]);
    CollectOneEdge(true, x[0], Chain(x[1..]));
    assert Prepend([x[0]], [x[1..]]) == [x] by { assert [x[0]] + x[1..] == x; }
    assert Collect(e) == ["", x];
    CollectSpine(v[1..], e);
    assert Prepend(v[1..], ["", x]) == [v[1..], v[1..] + x] by { assert v[1..] + "" == v[1..]; }
    CollectOneEdge(true, v[0], Spine(v[1..], e));
    assert Prepend([v[0]], [v[1..], v[1..] + x]) == [v, v + x] by {
      assert [v[0]] + v[1..] == v;
      assert [v[0]] + (v[1..] + x) == v + x;
    }
  }

  /** The words below a node with a single edge. */
  lemma CollectOneEdge(t: bool, c: char, m: Node)
    ensures Collect(Node(t, [(c, m)])) == (if t then [""] else []) + Prepend([c], Collect(m))
  {
    assert CollectFrom(Node(t, [(c, m)]), 1) == [];
  }

  /**
   * Words that extend one another come out shortest first: adding `u`,
   * `u + v` and `u + v + x` gives exactly those three as the extensions of `u`
   * (test/test_trie.py:13-23 with "foo", "food" and "foodie").
   */
  lemma NestedWords(u: string, v: string, x: string)
    requires u != [] && v != [] && x != []
    ensures ExtensionsOf(InsertAll(Empty, [u, u + v, u + v + x]), u) == Some([u, u + v, u + v + x])
  {
    NestedBuild(u, v, x);
    DescendSpine(u, NestedEnd(v, x));
    NestedCollect(v, x);
    var r := Prepend(u, ["", v, v + x]);
    assert r[0] == u + "" == u;
    assert r[2] == u + (v + x) == u + v + x;
    assert r == [u, u + v, u + v + x];
  }

  // ---------------------------------------------------------------------------
  // The object

  /** The words of `words` that `add` stores: all but the empty one. */
  ghost function NonEmptyWords(words: seq<string>): set<string>
  {
    set w | w in words && w != []
  }

  /** One more word: `update` adds it to the trie and, when not empty, to `_tokens`. */
  lemma UpdateStep(n: Node, words: seq<string>, i: nat)
    requires i < |words|
    ensures InsertAll(n, words[..i + 1]) == AddWord(InsertAll(n, words[..i]), words[i])
    ensures NonEmptyWords(words[..i + 1]) == NonEmptyWords(words[..i]) + if words[i] == [] then {} else {words[i]}
  {
    assert words[..i + 1][..i] == words[..i];
    assert words[..i + 1] == words[..i] + [words[i]];
  }

  /** `Trie`: the nested dictionary `data` and the set `_tokens` of added words. */
  class Trie {
    var data: Node
    var tokens: set<string>

    /** `_tokens` is exactly the set of words stored in `data`; the root never holds "". */
    ghost predicate Valid()
      reads this
    {
      WellFormed(data) && !data.terminal &&
      forall w :: w in tokens <==> Contains(data, w)
    }

    /** `Trie(words)`: an empty trie, then `update(words)`. */
    constructor (words: seq<string>)
      ensures Valid()
      ensures data == InsertAll(Empty, words)
      ensures tokens == NonEmptyWords(words)
    {
      data := Empty;
      tokens := {};
      new;
      Update(words);
    }

    /** `update(words)`: `add` every word in order. */
    method Update(words: seq<string>)
      requires Valid()
      modifies this
      ensures Valid()
      ensures data == InsertAll(old(data), words)
      ensures tokens == old(tokens) + NonEmptyWords(words)
    {
      var i := 0;
      while i < |words|
        invariant 0 <= i <= |words|
        invariant Valid()
        invariant data == InsertAll(old(data), words[..i])
        invariant tokens == old(tokens) + NonEmptyWords(words[..i])
      {
        UpdateStep(old(data), words, i);
        Add(words[i]);
        i := i + 1;
      }
      assert words[..i] == words;
    }

    /**
     * `add(word)`: walk `word`, reusing an existing child and creating `{}`
     * otherwise, then set "" at the last node; the empty word is ignored.
     * The nested dictionaries are values here, so the walk first records the
     * dictionaries along the path and then rebuilds them from the last one up.
     */
    method Add(word: string)
      requires Valid()
      modifies this
      ensures Valid()
      ensures data == AddWord(old(data), word)
      ensures tokens == if word == [] then old(tokens) else old(tokens) + {word}
    {
      if word == [] {
        return;
      }
      tokens := tokens + {word};
      // ref = self.data; for char in word: ref = (char in ref and ref[char]) or {}
      var path := [data];
      var i := 0;
      while i < |word|
        invariant 0 <= i <= |word| && |path| == i + 1 && path[0] == data
        invariant forall j :: 0 <= j < i ==> path[j + 1] == ChildOrEmpty(path[j], word[j])
      {
        path := path + [ChildOrEmpty(path[i], word[i])];
        i := i + 1;
      }
      // ref[""] = 1, and every ref[char] assignment of the walk
      var node := path[|word|].(terminal := true);
      while i > 0
        invariant 0 <= i <= |word|
        invariant node == Insert(path[i], word[i..])
      {
        i := i - 1;
        assert word[i..][0] == word[i] && word[i..][1..] == word[i + 1..];
        node := SetChild(path[i], word[i], node);
      }
      ghost var old_data := data;
      data := node;
      InsertWellFormed(old_data, word);
      forall v ensures v in tokens <==> Contains(data, v) {
        InsertContains(old_data, word, v);
      }
    }

    /**
     * `extensions(prefix)`: descend along `prefix`, raising KeyError on a
     * missing character, then collect every word below the node reached.
     */
    method Extensions(prefix: string) returns (r: Result<seq<string>, KeyError>)
      requires Valid()
      ensures r.Err? <==> ExtensionsOf(data, prefix).None?
      ensures r.Ok? ==> ExtensionsOf(data, prefix) == Some(r.value)
      ensures r.Err? <==> prefix != [] && forall w :: w in tokens ==> !(prefix <= w)
      ensures r.Err? ==> exists i :: 0 <= i < |prefix| && Descend(data, prefix[..i]).Some? &&
                                    Descend(data, prefix[..i + 1]).None? && r.error.key == prefix[i]
      ensures r.Ok? ==> forall w :: w in r.value <==> prefix <= w && w in tokens
      ensures r.Ok? ==> Distinct(r.value)
      ensures r.Ok? && prefix in tokens ==> r.value[0] == prefix
      ensures r.Ok? && prefix != [] ==> |r.value| > 0
    {
      ExtensionsMissing(data, prefix);
      var node := data;
      var i := 0;
      while i < |prefix|
        invariant 0 <= i <= |prefix|
        invariant Descend(data, prefix[..i]) == Some(node)
      {
        var next := Child(node, prefix[i]);
        DescendConcat(data, prefix[..i], [prefix[i]]);
        assert prefix[..i + 1] == prefix[..i] + [prefix[i]];
        if next.None? {
          DescendStops(data, prefix, i);
          return Err(KeyError(prefix[i]));
        }
        node := next.value;
        i := i + 1;
      }
      assert prefix[..i] == prefix;
      r := Ok(Prepend(prefix, Collect(node)));
      ExtensionsSound(data, prefix, prefix);
      forall w ensures w in r.value <==> prefix <= w && w in tokens {
        ExtensionsSound(data, prefix, w);
      }
    }
  }
}
