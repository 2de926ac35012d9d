/**
 * The mapping trie of trie.py (derived from pygtrie).  Every node is an object
 * with two fields that are rewritten in place: `children`, in one of three
 * representations (none, exactly one, or a dictionary of two or more), and
 * `value`, which holds the `_EMPTY` sentinel when no value is stored there.
 *
 * The model keeps, beside the real objects, a ghost map `NodeAt` from every
 * key whose node exists to that node; `Valid()` ties it to the real `children`
 * fields, and `Contents()` is the mapping the trie stands for.
 */
module PygTrie {
  import opened Util

  /** The exceptions the trie raises. */
  datatype TrieError =
    | KeyError        // a step is missing at a node that has children
    | ShortKeyError   // the key's node exists but holds no value
    | AttributeError  // `_NoChildren` has no `get`: the key runs past a leaf

  /** `_EMPTY` (`_NoChildren`), `_OneChild` and `_Children` (a dictionary, in insertion order). */
  datatype Children<V> =
    | NoChildren
    | OneChild(step: char, node: Node<V>)
    | ManyChildren(entries: seq<(char, Node<V>)>)

  /** `items()` of a children container; `_NoChildren` has none. */
  function Items<V>(c: Children<V>): seq<(char, Node<V>)>
  {
    match c
    case NoChildren => []
    case OneChild(s, n) => [(s, n)]
    case ManyChildren(es) => es
  }

  /** The invariant of the three representations: a dictionary holds two or more distinct steps. */
  predicate WellShaped<V>(c: Children<V>)
  {
    c.ManyChildren? ==>
      |c.entries| >= 2 && forall i, j :: 0 <= i < j < |c.entries| ==> c.entries[i].0 != c.entries[j].0
  }

  /** The child under `step`, whatever the representation. */
  function Lookup<V>(c: Children<V>, step: char): Option<Node<V>>
  {
    match Find(Items(c), step)
    case None => None
    case Some(i) => Some(Items(c)[i].1)
  }

  /**
   * `children.get(step)` (trie.py:37-38 for one child, `dict.get` for many);
   * `_NoChildren` defines no `get`, so calling it raises AttributeError.
   */
  function Get<V>(c: Children<V>, step: char): (r: Result<Option<Node<V>>, TrieError>)
    ensures r.Err? <==> c.NoChildren?
    ensures r.Err? ==> r.error == AttributeError
    ensures r.Ok? ==> r.value == Lookup(c, step)
  {
    match c
    case NoChildren => Err(AttributeError)
    case OneChild(s, n) => Ok(if step == s then Some(n) else None)
    case ManyChildren(es) => Ok(match Find(es, step) case None => None case Some(i) => Some(es[i].1))
  }

  /**
   * The container left in `parent.children` once a node for a new `step` is
   * added: one child for `_NoChildren` (trie.py:15-18), a dictionary of the
   * old and the new child, the old one first, for `_OneChild` (trie.py:40-43),
   * and the dictionary with the new entry inserted last for `_Children`
   * (`setdefault` of a missing step, trie.py:50-51).
   */
  function WithChild<V>(c: Children<V>, step: char, node: Node<V>): (r: Children<V>)
    ensures Items(r) == Items(c) + [(step, node)]
    ensures WellShaped(c) && Lookup(c, step).None? ==> WellShaped(r)
  {
    match c
    case NoChildren => OneChild(step, node)
    case OneChild(s, n) => ManyChildren([(s, n), (step, node)])
    case ManyChildren(es) => ManyChildren(es + [(step, node)])
  }

  /** Python truthiness of a children container: `_NoChildren` is false, a dictionary is true when not empty. */
  predicate NonEmpty<V>(c: Children<V>)
    ensures NonEmpty(c) <==> Items(c) != []
  {
    match c
    case NoChildren => false
    case OneChild(_, _) => true
    case ManyChildren(es) => es != []
  }

  /** In a well-shaped container no step occurs twice, so the entry at `i` is the one found for its step. */
  lemma FindItem<V>(c: Children<V>, i: nat)
    requires WellShaped(c) && i < |Items(c)|
    ensures Find(Items(c), Items(c)[i].0) == Some(i)
    ensures Lookup(c, Items(c)[i].0) == Some(Items(c)[i].1)
  {
  }

  /** `_Node`: its children and its value (None for `_EMPTY`). */
  class Node<V> {
    var children: Children<V>
    var value: Option<V>

    constructor ()
      ensures children == NoChildren && value == None
    {
      children := NoChildren;
      value := None;
    }
  }

  /** The key one step shorter. */
  function Parent(k: string): string
    requires k != []
  {
    k[..|k| - 1]
  }

  /** Distinct keys have distinct nodes: no node is shared. */
  ghost predicate Injective<V>(at: map<string, Node<V>>)
  {
    forall k1, k2 :: k1 in at && k2 in at && at[k1] == at[k2] ==> k1 == k2
  }

  /**
   * The tree shape, given the node of every key (`at`) and the children of
   * every key's node (`kids`): keys are closed under prefixes, every container
   * is well shaped, and the child of the node of `k` under `s` is exactly the
   * node of `k + [s]`.
   */
  ghost predicate TreeShape<V>(at: map<string, Node<V>>, kids: map<string, Children<V>>)
  {
    kids.Keys == at.Keys &&
    (forall k {:trigger Parent(k)} :: k in at && k != [] ==> Parent(k) in at) &&
    (forall k :: k in kids ==> WellShaped(kids[k])) &&
    (forall k, s {:trigger Lookup(kids[k], s)} :: k in kids ==>
      Lookup(kids[k], s) == if k + [s] in at then Some(at[k + [s]]) else None)
  }

  /** Attaching a new node `child` under the new key `pkey + [step]` keeps the tree shape. */
  lemma AttachShape<V>(at: map<string, Node<V>>, kids: map<string, Children<V>>, pkey: string, step: char,
                       child: Node<V>, newKids: Children<V>)
    requires TreeShape(at, kids) && pkey in at && pkey + [step] !in at
    requires Items(newKids) == Items(kids[pkey]) + [(step, child)] && WellShaped(newKids)
    ensures TreeShape(at[pkey + [step] := child], kids[pkey := newKids][pkey + [step] := NoChildren])
  {
    var at' := at[pkey + [step] := child];
    var kids' := kids[pkey := newKids][pkey + [step] := NoChildren];
    assert Parent(pkey + [step]) == pkey;
    forall k, s | k in kids'
      ensures Lookup(kids'[k], s) == if k + [s] in at' then Some(at'[k + [s]]) else None
    {
      assert Parent(k + [s]) == k;
      if k == pkey {
        assert Lookup(kids[pkey], s) == if pkey + [s] in at then Some(at[pkey + [s]]) else None;
        FindAppend(Items(kids[pkey]), (step, child), s);
        assert (pkey + [s])[|pkey|] == s;
      } else if k != pkey + [step] {
        assert Lookup(kids[k], s) == if k + [s] in at then Some(at[k + [s]]) else None;
      }
    }
  }

  lemma AttachInjective<V>(at: map<string, Node<V>>, key: string, child: Node<V>)
    requires Injective(at) && key !in at && child !in at.Values
    ensures Injective(at[key := child])
  {
  }

  /**
   * The whole key space: a tree (`TreeShape`) of distinct nodes rooted at the
   * empty key, with a value slot for every key.
   */
  ghost predicate Shape<V>(at: map<string, Node<V>>, kids: map<string, Children<V>>,
                           vals: map<string, Option<V>>)
  {
    "" in at && vals.Keys == at.Keys && Injective(at) && TreeShape(at, kids)
  }

  /** Attaching a new node without children or value keeps the shape. */
  lemma Attach<V>(at: map<string, Node<V>>, kids: map<string, Children<V>>, vals: map<string, Option<V>>,
                  pkey: string, step: char, child: Node<V>, newKids: Children<V>)
    requires Shape(at, kids, vals) && pkey in at && pkey + [step] !in at && child !in at.Values
    requires Items(newKids) == Items(kids[pkey]) + [(step, child)] && WellShaped(newKids)
    ensures Shape(at[pkey + [step] := child], kids[pkey := newKids][pkey + [step] := NoChildren],
                  vals[pkey + [step] := None])
  {
    AttachShape(at, kids, pkey, step, child, newKids);
    AttachInjective(at, pkey + [step], child);
  }

  /** The keys that hold a value, with that value. */
  ghost function Stored<V>(vals: map<string, Option<V>>): map<string, V>
  {
    map k | k in vals && vals[k].Some? :: vals[k].value
  }


  lemma StoredSet<V>(vals: map<string, Option<V>>, k: string, v: V)
    ensures Stored(vals[k := Some(v)]) == Stored(vals)[k := v]
  {
  }

  lemma StoredNew<V>(vals: map<string, Option<V>>, k: string)
    requires k !in vals
    ensures Stored(vals[k := None]) == Stored(vals)
  {
  }

  lemma StoredClear<V>(vals: map<string, Option<V>>, k: string)
    ensures Stored(vals[k := None]) == Stored(vals) - {k}
  {
  }

  /** Every key comes before the keys it is a proper prefix of. */
  ghost predicate AncestorsFirst(w: seq<string>)
  {
    forall i, j :: 0 <= i < |w| && 0 <= j < |w| && w[i] < w[j] ==> i < j
  }

  lemma AncestorsFirstConcat(a: seq<string>, b: seq<string>)
    requires AncestorsFirst(a) && AncestorsFirst(b)
    requires forall p, q :: 0 <= p < |b| && 0 <= q < |a| ==> !(b[p] < a[q])
    ensures AncestorsFirst(a + b)
  {
    var w := a + b;
    forall i, j | 0 <= i < |w| && 0 <= j < |w| && w[i] < w[j]
      ensures i < j
    {
      if i < |a| && j < |a| {
        assert w[i] == a[i] && w[j] == a[j];
      } else if |a| <= i && |a| <= j {
        assert w[i] == b[i - |a|] && w[j] == b[j - |a|];
      }
    }
  }

  /**
   * One entry of the explicit stack of `_Node.iterate`: the items of the node
   * of `key`, of which the first `next` have been taken.
   */
  datatype Frame<V> = Frame(key: string, entries: seq<(char, Node<V>)>, next: nat)

  class Trie<V> {
    var root: Node<V>
    /** The node of every key whose path exists. */
    ghost var NodeAt: map<string, Node<V>>
    /** The children container of the node of every such key. */
    ghost var KidsAt: map<string, Children<V>>
    /** The value field of the node of every such key (None for `_EMPTY`). */
    ghost var ValAt: map<string, Option<V>>

    /** The key space forms a tree. */
    ghost predicate Shaped()
      reads this
    {
      Shape(NodeAt, KidsAt, ValAt)
    }

    /** The real `children` and `value` fields agree with the ghost maps. */
    ghost predicate Coupled()
      reads this, NodeAt.Values
    {
      NodeAt.Keys <= KidsAt.Keys && NodeAt.Keys <= ValAt.Keys &&
      (forall k {:trigger NodeAt[k].children} :: k in NodeAt ==> NodeAt[k].children == KidsAt[k]) &&
      (forall k {:trigger NodeAt[k].value} :: k in NodeAt ==> NodeAt[k].value == ValAt[k])
    }

    /** The ghost maps describe the nodes reachable from `root`. */
    ghost predicate Valid()
      reads this, NodeAt.Values
    {
      Shaped() && "" in NodeAt && NodeAt[""] == root && Coupled()
    }

    /** The mapping the trie stands for: every key whose node holds a value. */
    ghost function Contents(): map<string, V>
      reads this
    {
      Stored(ValAt)
    }

    /** The child of the node of `k` under `s` is the node of `k + [s]`. */
    lemma ChildAt(k: string, s: char)
      requires Shaped() && k in NodeAt
      ensures Lookup(KidsAt[k], s) == if k + [s] in NodeAt then Some(NodeAt[k + [s]]) else None
      ensures WellShaped(KidsAt[k])
    {
    }

    /** The `i`-th item of the node of `k` is the node of `k` extended by its step. */
    lemma ItemChild(k: string, i: nat)
      requires Shaped() && k in NodeAt && i < |Items(KidsAt[k])|
      ensures k + [Items(KidsAt[k])[i].0] in NodeAt
      ensures NodeAt[k + [Items(KidsAt[k])[i].0]] == Items(KidsAt[k])[i].1
    {
      ChildAt(k, Items(KidsAt[k])[i].0);
      FindItem(KidsAt[k], i);
    }

    lemma PrefixIn(k: string, j: nat)
      requires Shaped() && k in NodeAt && j <= |k|
      ensures k[..j] in NodeAt
      decreases |k| - j
    {
      if j < |k| {
        PrefixIn(k, j + 1);
        assert Parent(k[..j + 1]) == k[..j];
      } else {
        assert k[..j] == k;
      }
    }

    /** `Trie()`: a lone root without children or value. */
    constructor ()
      ensures Valid() && Contents() == map[] && NodeAt.Keys == {""}
      ensures fresh(root)
    {
      var r := new Node();
      root := r;
      NodeAt := map["" := r];
      KidsAt := map["" := NoChildren];
      ValAt := map["" := None];
    }

    /**
     * `_get_node(key)`: walk from the root along `key`.  The trace that the
     * source also returns is not modelled.
     */
    method GetNode(key: string) returns (r: Result<Node<V>, TrieError>)
      requires Valid()
      ensures r.Ok? <==> key in NodeAt
      ensures r.Ok? ==> r.value == NodeAt[key]
      ensures r.Err? ==> exists j :: 0 <= j < |key| && key[..j] in NodeAt && key[..j + 1] !in NodeAt &&
                                     r.error == if KidsAt[key[..j]].NoChildren? then AttributeError else KeyError
    {
      var node := root;
      var i := 0;
      assert key[..0] == [];
      while i < |key|
        invariant 0 <= i <= |key|
        invariant key[..i] in NodeAt && node == NodeAt[key[..i]]
      {
        assert key[..i + 1] == key[..i] + [key[i]];
        var next := Get(node.children, key[i]);
        ChildAt(key[..i], key[i]);
        if next.Err? || next.value.None? {
          if key in NodeAt {
            PrefixIn(key, i + 1);
          }
          assert key[..i] in NodeAt && key[..i + 1] !in NodeAt;
          return Err(if next.Err? then AttributeError else KeyError);
        }
        node := next.value.value;
        i := i + 1;
      }
      assert key[..i] == key;
      return Ok(node);
    }

    /** `t[key]`: the stored value, ShortKeyError when the node holds none. */
    method GetItem(key: string) returns (r: Result<V, TrieError>)
      requires Valid()
      ensures r.Ok? <==> key in Contents()
      ensures r.Ok? ==> r.value == Contents()[key]
      ensures r == Err(ShortKeyError) <==> key in NodeAt && key !in Contents()
      ensures r.Err? && key !in NodeAt ==> r.error == KeyError || r.error == AttributeError
    {
      var n := GetNode(key);
      if n.Err? {
        return Err(n.error);
      }
      if n.value.value.None? {
        return Err(ShortKeyError);
      }
      return Ok(n.value.value.value);
    }

    /**
     * The fields of the nodes still agree with the ghost maps once a fresh
     * node is attached under `parent` at `step`; the edge is passed as one
     * triple (pkey, step, parent).
     */
    twostate lemma AttachCoupled(edge: (string, char, Node<V>))
      requires old(Coupled()) && old(Injective(NodeAt)) && edge.0 in old(NodeAt) && old(NodeAt)[edge.0] == edge.2
      requires edge.0 + [edge.1] !in old(NodeAt)
      requires unchanged(old(NodeAt).Values - {edge.2}) && edge.2.value == old(edge.2.value)
      requires edge.0 + [edge.1] in NodeAt && NodeAt == old(NodeAt)[edge.0 + [edge.1] := NodeAt[edge.0 + [edge.1]]]
      requires NodeAt[edge.0 + [edge.1]].children == NoChildren && NodeAt[edge.0 + [edge.1]].value == None
      requires edge.2.children == WithChild(old(KidsAt[edge.0]), edge.1, NodeAt[edge.0 + [edge.1]])
      requires KidsAt == old(KidsAt)[edge.0 := edge.2.children][edge.0 + [edge.1] := NoChildren]
      requires ValAt == old(ValAt)[edge.0 + [edge.1] := None]
      ensures Coupled()
    {
      forall k | k in NodeAt
        ensures NodeAt[k].children == KidsAt[k] && NodeAt[k].value == ValAt[k]
      {
        if k != edge.0 && k != edge.0 + [edge.1] {
          assert old(NodeAt)[k] in old(NodeAt).Values - {edge.2};
        }
      }
    }

    /**
     * The fields of the nodes still agree with the ghost maps once the value
     * of the node of `entry.0`, which is `entry.1`, is replaced.
     */
    twostate lemma ValueCoupled(entry: (string, Node<V>))
      requires old(Coupled()) && old(Injective(NodeAt)) && entry.0 in old(NodeAt) && old(NodeAt)[entry.0] == entry.1
      requires unchanged(old(NodeAt).Values - {entry.1}) && entry.1.children == old(entry.1.children)
      requires NodeAt == old(NodeAt) && KidsAt == old(KidsAt) && ValAt == old(ValAt)[entry.0 := entry.1.value]
      ensures Coupled()
    {
      forall k | k in NodeAt
        ensures NodeAt[k].children == KidsAt[k] && NodeAt[k].value == ValAt[k]
      {
        if k != entry.0 {
          assert old(NodeAt)[k] in old(NodeAt).Values - {entry.1};
        }
      }
    }

    /**
     * `add(parent, step)`: a new node under a step that is not there yet
     * (trie.py:15-18, 40-43, and the insertion half of trie.py:51).
     */
    method AddChild(parent: Node<V>, step: char, ghost pkey: string) returns (child: Node<V>)
      requires Valid() && pkey in NodeAt && NodeAt[pkey] == parent
      requires pkey + [step] !in NodeAt
      modifies this`NodeAt, this`KidsAt, this`ValAt, parent`children
      ensures Valid() && fresh(child)
      ensures NodeAt == old(NodeAt)[pkey + [step] := child]
      ensures KidsAt == old(KidsAt)[pkey := WithChild(old(KidsAt[pkey]), step, child)][pkey + [step] := NoChildren]
      ensures ValAt == old(ValAt)[pkey + [step] := None]
      ensures Contents() == old(Contents())
    {
      ChildAt(pkey, step);
      child := new Node();
      var c := WithChild(parent.children, step, child);
      assert c == WithChild(KidsAt[pkey], step, child);
      parent.children := c;
      Attach(NodeAt, KidsAt, ValAt, pkey, step, child, c);
      NodeAt := NodeAt[pkey + [step] := child];
      KidsAt := KidsAt[pkey := c][pkey + [step] := NoChildren];
      ValAt := ValAt[pkey + [step] := None];
      StoredNew(old(ValAt), pkey + [step]);
      AttachCoupled((pkey, step, parent));
    }

    /**
     * `children.require(parent, step)`: the child under `step`, added when
     * missing (trie.py:20, 45-46, 50-51).
     */
    method Require(parent: Node<V>, step: char, ghost pkey: string) returns (child: Node<V>)
      requires Valid() && pkey in NodeAt && NodeAt[pkey] == parent
      modifies this`NodeAt, this`KidsAt, this`ValAt, parent`children
      ensures Valid()
      ensures pkey + [step] in NodeAt && NodeAt[pkey + [step]] == child
      ensures pkey + [step] in old(NodeAt) ==>
                NodeAt == old(NodeAt) && KidsAt == old(KidsAt) && ValAt == old(ValAt) && unchanged(parent)
      ensures pkey + [step] !in old(NodeAt) ==>
                fresh(child) &&
                NodeAt == old(NodeAt)[pkey + [step] := child] &&
                KidsAt == old(KidsAt)[pkey := WithChild(old(KidsAt[pkey]), step, child)][pkey + [step] := NoChildren] &&
                ValAt == old(ValAt)[pkey + [step] := None]
      ensures Contents() == old(Contents())
    {
      ChildAt(pkey, step);
      match parent.children {
        case NoChildren =>
          child := AddChild(parent, step, pkey);
        case OneChild(s, n) =>
          if s == step {
            child := n;
          } else {
            child := AddChild(parent, step, pkey);
          }
        case ManyChildren(es) =>
          var f := Find(es, step);
          if f.Some? {
            child := es[f.value].1;
          } else {
            child := AddChild(parent, step, pkey);
          }
      }
    }

    /**
     * `node.value = v` on the node of `key`: a value for `_set_node`
     * (trie.py:102) or `_EMPTY` for `__delitem__` (trie.py:145).
     */
    method SetValue(node: Node<V>, ghost key: string, v: Option<V>)
      requires Valid() && key in NodeAt && NodeAt[key] == node
      modifies this`ValAt, node`value
      ensures Valid()
      ensures ValAt == old(ValAt)[key := v]
      ensures Contents() == if v.Some? then old(Contents())[key := v.value] else old(Contents()) - {key}
    {
      node.value := v;
      ValAt := ValAt[key := v];
      if v.Some? {
        StoredSet(old(ValAt), key, v.value);
      } else {
        StoredClear(old(ValAt), key);
      }
      ValueCoupled((key, node));
    }

    /** The loop of `_set_node` (trie.py:98-100): `require` every step of `key` from the root. */
    method RequirePath(key: string) returns (node: Node<V>)
      requires Valid()
      modifies this`NodeAt, this`KidsAt, this`ValAt, NodeAt.Values
      ensures Valid()
      ensures key in NodeAt && node == NodeAt[key]
      ensures forall k :: k in old(NodeAt) ==> k in NodeAt && NodeAt[k] == old(NodeAt)[k]
      ensures forall k :: k in NodeAt && k !in old(NodeAt) ==> k <= key && fresh(NodeAt[k])
      ensures Contents() == old(Contents())
    {
      node := root;
      var i := 0;
      assert key[..0] == [];
      while i < |key|
        invariant 0 <= i <= |key|
        invariant Valid()
        invariant key[..i] in NodeAt && node == NodeAt[key[..i]]
        invariant Contents() == old(Contents())
        invariant forall k :: k in old(NodeAt) ==> k in NodeAt && NodeAt[k] == old(NodeAt)[k]
        invariant forall k :: k in NodeAt && k !in old(NodeAt) ==> k <= key[..i] && fresh(NodeAt[k])
      {
        assert key[..i + 1] == key[..i] + [key[i]];
        node := Require(node, key[i], key[..i]);
        i := i + 1;
      }
      assert key[..i] == key;
    }

    /**
     * `_set_node(key, value, only_if_missing)`: create the path of `key` and
     * store `value` at its end, unless `onlyIfMissing` and a value is there.
     */
    method SetNode(key: string, value: V, onlyIfMissing: bool) returns (node: Node<V>)
      requires Valid()
      modifies this`NodeAt, this`KidsAt, this`ValAt, NodeAt.Values
      ensures Valid()
      ensures key in NodeAt && node == NodeAt[key]
      ensures forall k :: k in old(NodeAt) ==> k in NodeAt && NodeAt[k] == old(NodeAt)[k]
      ensures forall k :: k in NodeAt && k !in old(NodeAt) ==> k <= key && fresh(NodeAt[k])
      ensures Contents() == if onlyIfMissing && key in old(Contents()) then old(Contents())
                            else old(Contents())[key := value]
    {
      node := RequirePath(key);
      if node.value.None? || !onlyIfMissing {
        SetValue(node, key, Some(value));
      }
    }

    /** `t[key] = value`. */
    method SetItem(key: string, value: V)
      requires Valid()
      modifies this`NodeAt, this`KidsAt, this`ValAt, NodeAt.Values
      ensures Valid()
      ensures key in NodeAt
      ensures forall k :: k in old(NodeAt) ==> k in NodeAt && NodeAt[k] == old(NodeAt)[k]
      ensures forall k :: k in NodeAt && k !in old(NodeAt) ==> k <= key && fresh(NodeAt[k])
      ensures Contents() == old(Contents())[key := value]
    {
      var _ := SetNode(key, value, false);
    }

    /**
     * `del t[key]`: clear the value of the node of `key`; no node is removed.
     * ShortKeyError when that node holds no value.
     */
    method Delete(key: string) returns (r: Result<(), TrieError>)
      requires Valid()
      modifies this`ValAt, NodeAt.Values
      ensures Valid()
      ensures NodeAt == old(NodeAt) && KidsAt == old(KidsAt)
      ensures r.Ok? <==> key in old(Contents())
      ensures r == Err(ShortKeyError) <==> key in NodeAt && key !in old(Contents())
      ensures r.Err? && key !in NodeAt ==> r.error == KeyError || r.error == AttributeError
      ensures Contents() == old(Contents()) - {key}
    {
      var n := GetNode(key);
      if n.Err? {
        return Err(n.error);
      }
      if n.value.value.None? {
        return Err(ShortKeyError);
      }
      SetValue(n.value, key, None);
      return Ok(());
    }

    /** The keys at or below `k` whose nodes exist; it shrinks from a node to each child. */
    ghost function Below(k: string): set<string>
      reads this
    {
      set x | x in NodeAt && k <= x
    }

    lemma BelowShrinks(k: string, s: char)
      requires k in NodeAt
      ensures Below(k + [s]) < Below(k)
    {
      forall x | x in Below(k + [s])
        ensures x in Below(k)
      {
        assert x[..|k|] == (k + [s])[..|k|] == k;
      }
      assert k !in Below(k + [s]);
    }

    /**
     * The keys of the nodes `_Node.iterate` visits from the node of `k`, in
     * visiting order: the node itself, then, unless `shallow` and the node
     * holds a value, the subtrees of its children in `items()` order.
     */
    ghost function Walk(k: string, shallow: bool): seq<string>
      requires k in NodeAt && k in KidsAt
      reads this
      decreases Below(k), 1
    {
      [k] + if !shallow || k !in Contents() then WalkFrom(k, 0, shallow) else []
    }

    /** The subtrees of the children of the node of `k` from the `i`-th on. */
    ghost function WalkFrom(k: string, i: nat, shallow: bool): seq<string>
      requires k in NodeAt && k in KidsAt && i <= |Items(KidsAt[k])|
      reads this
      decreases Below(k), 0, |Items(KidsAt[k])| - i
    {
      if i == |Items(KidsAt[k])| then []
      else
        var child := k + [Items(KidsAt[k])[i].0];
        BelowShrinks(k, Items(KidsAt[k])[i].0);
        (if child in NodeAt && child in KidsAt then Walk(child, shallow) else []) + WalkFrom(k, i + 1, shallow)
    }

    /** The (key, value) pairs yielded while visiting `keys`: those whose node holds a value. */
    ghost function Yielded(keys: seq<string>): seq<(string, V)>
      reads this
    {
      if keys == [] then []
      else
        var last := keys[|keys| - 1];
        Yielded(keys[..|keys| - 1]) + if last in Contents() then [(last, Contents()[last])] else []
    }

    lemma YieldedAppend(keys: seq<string>, k: string)
      ensures Yielded(keys + [k]) == Yielded(keys) + if k in Contents() then [(k, Contents()[k])] else []
    {
      assert (keys + [k])[..|keys|] == keys;
    }

    /** A stack entry over the items of an existing node. */
    ghost predicate FrameOk(f: Frame<V>)
      reads this
    {
      f.key in NodeAt && f.key in KidsAt && f.entries == Items(KidsAt[f.key]) && f.next <= |f.entries|
    }

    ghost predicate StackOk(stack: seq<Frame<V>>)
      reads this
    {
      forall i :: 0 <= i < |stack| ==> FrameOk(stack[i])
    }

    /** The keys still to be visited from the iterators on `stack`, the top (last) one first. */
    ghost function Pending(stack: seq<Frame<V>>, shallow: bool): seq<string>
      requires StackOk(stack)
      reads this
    {
      if stack == [] then []
      else
        var top := stack[|stack| - 1];
        WalkFrom(top.key, top.next, shallow) + Pending(stack[..|stack| - 1], shallow)
    }

    /** The stack after pushing an iterator over the items of the node of `path`, when `push` holds. */
    ghost function Pushed(stack: seq<Frame<V>>, path: string, push: bool): seq<Frame<V>>
      reads this
      requires path in KidsAt
    {
      if push then stack + [Frame(path, Items(KidsAt[path]), 0)] else stack
    }

    /** Visiting the node of `path` pushes an iterator over its items when the walk goes below it. */
    lemma Expand(path: string, stack: seq<Frame<V>>, shallow: bool, push: bool)
      requires path in NodeAt && path in KidsAt && StackOk(stack)
      requires push == ((!shallow || path !in Contents()) && NonEmpty(KidsAt[path]))
      ensures StackOk(Pushed(stack, path, push))
      ensures Walk(path, shallow) + Pending(stack, shallow) == [path] + Pending(Pushed(stack, path, push), shallow)
    {
      var stack' := Pushed(stack, path, push);
      if push {
        assert stack'[..|stack|] == stack;
        assert Pending(stack', shallow) == WalkFrom(path, 0, shallow) + Pending(stack, shallow);
      }
    }

    /** The stack once the top iterator has yielded its next item. */
    function Stepped(stack: seq<Frame<V>>): seq<Frame<V>>
      requires stack != []
    {
      stack[..|stack| - 1] + [stack[|stack| - 1].(next := stack[|stack| - 1].next + 1)]
    }

    /** Taking the next item of the top iterator moves to the node of that item. */
    lemma Advance(stack: seq<Frame<V>>, shallow: bool)
      requires Shaped() && StackOk(stack) && stack != []
      requires stack[|stack| - 1].next < |stack[|stack| - 1].entries|
      ensures StackOk(Stepped(stack))
      ensures var top := stack[|stack| - 1];
              var key := top.key + [top.entries[top.next].0];
              key in NodeAt && key in KidsAt && NodeAt[key] == top.entries[top.next].1 &&
              Pending(stack, shallow) == Walk(key, shallow) + Pending(Stepped(stack), shallow)
    {
      var top := stack[|stack| - 1];
      ItemChild(top.key, top.next);
      AdvancePending(stack, shallow);
    }

    /** The walk part of `Advance`, once the child's key is known to exist. */
    lemma AdvancePending(stack: seq<Frame<V>>, shallow: bool)
      requires StackOk(stack) && stack != []
      requires stack[|stack| - 1].next < |stack[|stack| - 1].entries|
      requires var top := stack[|stack| - 1];
               var key := top.key + [top.entries[top.next].0];
               key in NodeAt && key in KidsAt
      ensures StackOk(Stepped(stack))
      ensures var top := stack[|stack| - 1];
              var key := top.key + [top.entries[top.next].0];
              key in NodeAt && key in KidsAt &&
              Pending(stack, shallow) == Walk(key, shallow) + Pending(Stepped(stack), shallow)
    {
      var top := stack[|stack| - 1];
      var init := stack[..|stack| - 1];
      var key := top.key + [top.entries[top.next].0];
      var top' := top.(next := top.next + 1);
      assert StackOk(init);
      var here := Walk(key, shallow);
      var rest := WalkFrom(top.key, top.next + 1, shallow);
      var below := Pending(init, shallow);
      assert Pending(stack, shallow) == WalkFrom(top.key, top.next, shallow) + below by {
        assert stack == init + [top];
        PendingSnoc(init, top, shallow);
      }
      assert StackOk(Stepped(stack)) && Pending(Stepped(stack), shallow) == rest + below by {
        assert Stepped(stack) == init + [top'];
        PendingSnoc(init, top', shallow);
      }
      assert WalkFrom(top.key, top.next, shallow) == here + rest;
      assert (here + rest) + below == here + (rest + below);
    }

    /** The keys pending from a stack with one more frame on top. */
    lemma PendingSnoc(init: seq<Frame<V>>, f: Frame<V>, shallow: bool)
      requires StackOk(init) && FrameOk(f)
      ensures StackOk(init + [f])
      ensures Pending(init + [f], shallow) == WalkFrom(f.key, f.next, shallow) + Pending(init, shallow)
    {
      assert (init + [f])[..|init|] == init;
    }

    /** An exhausted iterator is popped without visiting anything. */
    lemma Exhausted(stack: seq<Frame<V>>, shallow: bool)
      requires StackOk(stack) && stack != []
      requires stack[|stack| - 1].next == |stack[|stack| - 1].entries|
      ensures StackOk(stack[..|stack| - 1])
      ensures Pending(stack, shallow) == Pending(stack[..|stack| - 1], shallow)
    {
    }

    /**
     * `_Node.iterate(path, shallow, items)` from the node `start` of `prefix`
     * (trie.py:60-79): the (key, value) pairs it yields, in order.  Each stack
     * entry remembers the key of its node; the source keeps that key in the
     * shared `path` list instead, with a placeholder for the step.
     */
    method IterateNode(start: Node<V>, prefix: string, shallow: bool) returns (out: seq<(string, V)>)
      requires Valid() && prefix in NodeAt && NodeAt[prefix] == start
      ensures out == Yielded(Walk(prefix, shallow))
    {
      var node := start;
      var path := prefix;
      var stack: seq<Frame<V>> := [];
      ghost var done: seq<string> := [];
      out := [];
      assert Walk(prefix, shallow) == done + Walk(path, shallow) + Pending(stack, shallow);
      while true
        invariant path in NodeAt && node == NodeAt[path]
        invariant StackOk(stack)
        invariant Walk(prefix, shallow) == done + Walk(path, shallow) + Pending(stack, shallow)
        invariant out == Yielded(done)
        decreases |Walk(prefix, shallow)| - |done|
      {
        YieldedAppend(done, path);
        if node.value.Some? {
          out := out + [(path, node.value.value)];
        }
        var push := (!shallow || node.value.None?) && NonEmpty(node.children);
        Expand(path, stack, shallow, push);
        Regroup(Walk(prefix, shallow), done, Walk(path, shallow), Pending(stack, shallow),
                path, Pending(Pushed(stack, path, push), shallow));
        done := done + [path];
        ghost var before := stack;
        if push {
          stack := stack + [Frame(path, Items(node.children), 0)];
        }
        assert stack == Pushed(before, path, push);
        while true
          invariant StackOk(stack)
          invariant Walk(prefix, shallow) == done + Pending(stack, shallow)
          decreases |stack|
        {
          if stack == [] {
            assert done + Pending(stack, shallow) == done;
            return;
          }
          var top := stack[|stack| - 1];
          if top.next < |top.entries| {
            Advance(stack, shallow);
            Unfold(Walk(prefix, shallow), done, Pending(stack, shallow),
                   Walk(top.key + [top.entries[top.next].0], shallow), Pending(Stepped(stack), shallow));
            node := top.entries[top.next].1;
            path := top.key + [top.entries[top.next].0];
            stack := Stepped(stack);
            break;
          }
          Exhausted(stack, shallow);
          stack := stack[..|stack| - 1];
        }
      }
    }

    /**
     * `x` is below `k` and, in a shallow walk, no key from `k` down to just
     * above `x` holds a value.
     */
    ghost predicate Reached(k: string, x: string, shallow: bool)
      reads this
    {
      x in NodeAt && k <= x && (shallow ==> forall j :: |k| <= j < |x| ==> x[..j] !in Contents())
    }

    lemma {:induction false} WalkFromSplit(k: string, i: nat, x: string, shallow: bool) returns (m: nat)
      requires k in NodeAt && k in KidsAt && i <= |Items(KidsAt[k])|
      requires x in WalkFrom(k, i, shallow)
      ensures i <= m < |Items(KidsAt[k])|
      ensures k + [Items(KidsAt[k])[m].0] in NodeAt && k + [Items(KidsAt[k])[m].0] in KidsAt
      ensures x in Walk(k + [Items(KidsAt[k])[m].0], shallow)
      decreases |Items(KidsAt[k])| - i
    {
      var child := k + [Items(KidsAt[k])[i].0];
      if child in NodeAt && child in KidsAt && x in Walk(child, shallow) {
        m := i;
      } else {
        m := WalkFromSplit(k, i + 1, x, shallow);
      }
    }

    lemma {:induction false} WalkFromHas(k: string, i: nat, m: nat, x: string, shallow: bool)
      requires k in NodeAt && k in KidsAt && i <= m < |Items(KidsAt[k])|
      requires k + [Items(KidsAt[k])[m].0] in NodeAt && k + [Items(KidsAt[k])[m].0] in KidsAt
      requires x in Walk(k + [Items(KidsAt[k])[m].0], shallow)
      ensures x in WalkFrom(k, i, shallow)
      decreases m - i
    {
      if i < m {
        WalkFromHas(k, i + 1, m, x, shallow);
      }
    }

    lemma {:induction false} WalkReached(k: string, x: string, shallow: bool)
      requires Shaped() && k in NodeAt
      requires x in Walk(k, shallow)
      ensures Reached(k, x, shallow)
      decreases Below(k)
    {
      if x != k {
        assert (!shallow || k !in Contents()) && x in WalkFrom(k, 0, shallow);
        var m := WalkFromSplit(k, 0, x, shallow);
        var s := Items(KidsAt[k])[m].0;
        BelowShrinks(k, s);
        WalkReached(k + [s], x, shallow);
        assert x[..|k|] == (k + [s])[..|k|] == k;
        if shallow {
          forall j | |k| <= j < |x|
            ensures x[..j] !in Contents()
          {
            if j == |k| {
              assert x[..j] == k;
            } else {
              assert |k + [s]| <= j;
            }
          }
        }
      }
    }

    lemma {:induction false} ReachedWalk(k: string, x: string, shallow: bool)
      requires Shaped() && k in NodeAt
      requires Reached(k, x, shallow)
      ensures x in Walk(k, shallow)
      decreases Below(k)
    {
      if x != k {
        var s := x[|k|];
        PrefixIn(x, |k| + 1);
        assert x[..|k| + 1] == k + [s];
        ChildAt(k, s);
        var m := Find(Items(KidsAt[k]), s).value;
        BelowShrinks(k, s);
        assert Reached(k + [s], x, shallow) by {
          if shallow {
            forall j | |k + [s]| <= j < |x|
              ensures x[..j] !in Contents()
            {
              assert |k| <= j;
            }
          }
        }
        ReachedWalk(k + [s], x, shallow);
        WalkFromHas(k, 0, m, x, shallow);
        assert shallow ==> x[..|k|] == k;
      }
    }

    /** The walk from `k` visits exactly the keys `Reached` from `k`. */
    lemma WalkMember(k: string, x: string, shallow: bool)
      requires Shaped() && k in NodeAt
      ensures x in Walk(k, shallow) <==> Reached(k, x, shallow)
    {
      if x in Walk(k, shallow) {
        WalkReached(k, x, shallow);
      } else if Reached(k, x, shallow) {
        ReachedWalk(k, x, shallow);
      }
    }

    /** No key is visited twice. */
    lemma {:induction false} WalkDistinct(k: string, shallow: bool)
      requires Shaped() && k in NodeAt
      ensures Distinct(Walk(k, shallow))
      decreases Below(k), 1
    {
      if !shallow || k !in Contents() {
        WalkFromDistinct(k, 0, shallow);
        forall x | x in WalkFrom(k, 0, shallow)
          ensures x != k
        {
          var m := WalkFromSplit(k, 0, x, shallow);
          var s := Items(KidsAt[k])[m].0;
          WalkReached(k + [s], x, shallow);
        }
        DistinctConcat([k], WalkFrom(k, 0, shallow));
      }
    }

    lemma {:induction false} WalkFromDistinct(k: string, i: nat, shallow: bool)
      requires Shaped() && k in NodeAt && i <= |Items(KidsAt[k])|
      ensures Distinct(WalkFrom(k, i, shallow))
      decreases Below(k), 0, |Items(KidsAt[k])| - i
    {
      if i < |Items(KidsAt[k])| {
        var s := Items(KidsAt[k])[i].0;
        ItemChild(k, i);
        BelowShrinks(k, s);
        WalkDistinct(k + [s], shallow);
        WalkFromDistinct(k, i + 1, shallow);
        forall x | x in Walk(k + [s], shallow)
          ensures x !in WalkFrom(k, i + 1, shallow)
        {
          WalkReached(k + [s], x, shallow);
          if x in WalkFrom(k, i + 1, shallow) {
            var m := WalkFromSplit(k, i + 1, x, shallow);
            var t := Items(KidsAt[k])[m].0;
            WalkReached(k + [t], x, shallow);
            assert x[|k|] == (k + [s])[|k|] == s;
            assert x[|k|] == (k + [t])[|k|] == t;
            FindItem(KidsAt[k], i);
            FindItem(KidsAt[k], m);
          }
        }
        DistinctConcat(Walk(k + [s], shallow), WalkFrom(k, i + 1, shallow));
      }
    }

    /** The pairs yielded for `keys` are those of its keys that hold a value, with that value. */
    lemma {:induction false} YieldedMember(keys: seq<string>, x: string, v: V)
      ensures (x, v) in Yielded(keys) <==> x in keys && x in Contents() && v == Contents()[x]
    {
      if keys != [] {
        var init := keys[..|keys| - 1];
        YieldedMember(init, x, v);
        assert keys == init + [keys[|keys| - 1]];
      }
    }

    /** Over keys without repetition, no key is yielded twice. */
    lemma {:induction false} YieldedDistinct(keys: seq<string>)
      requires Distinct(keys)
      ensures forall i, j :: 0 <= i < j < |Yielded(keys)| ==> Yielded(keys)[i].0 != Yielded(keys)[j].0
    {
      if keys != [] {
        var init := keys[..|keys| - 1];
        var last := keys[|keys| - 1];
        assert keys == init + [last];
        YieldedDistinct(init);
        var ys := Yielded(init);
        forall i | 0 <= i < |ys|
          ensures ys[i].0 != last
        {
          YieldedMember(init, ys[i].0, ys[i].1);
        }
      }
    }

    /** Over keys without repetition, one pair is yielded per key that holds a value. */
    lemma {:induction false} YieldedCount(keys: seq<string>)
      requires Distinct(keys)
      ensures |Yielded(keys)| == |Elements(keys) * Contents().Keys|
    {
      if keys != [] {
        var init := keys[..|keys| - 1];
        var last := keys[|keys| - 1];
        assert keys == init + [last];
        YieldedCount(init);
        var common := Elements(init) * Contents().Keys;
        assert last !in common;
        if last in Contents() {
          assert Elements(keys) * Contents().Keys == common + {last};
        } else {
          assert Elements(keys) * Contents().Keys == common;
        }
      }
    }

    /** A key is visited before every key it is a proper prefix of. */
    lemma {:induction false} WalkOrder(k: string, shallow: bool)
      requires Shaped() && k in NodeAt
      ensures AncestorsFirst(Walk(k, shallow))
      decreases Below(k), 1
    {
      if !shallow || k !in Contents() {
        var f := WalkFrom(k, 0, shallow);
        WalkFromOrder(k, 0, shallow);
        forall p, q | 0 <= p < |f| && 0 <= q < 1
          ensures !(f[p] < [k][q])
        {
          var m := WalkFromSplit(k, 0, f[p], shallow);
          WalkReached(k + [Items(KidsAt[k])[m].0], f[p], shallow);
        }
        AncestorsFirstConcat([k], f);
      }
    }

    lemma {:induction false} WalkFromOrder(k: string, t: nat, shallow: bool)
      requires Shaped() && k in NodeAt && t <= |Items(KidsAt[k])|
      ensures AncestorsFirst(WalkFrom(k, t, shallow))
      decreases Below(k), 0, |Items(KidsAt[k])| - t
    {
      if t < |Items(KidsAt[k])| {
        var s := Items(KidsAt[k])[t].0;
        ItemChild(k, t);
        BelowShrinks(k, s);
        var a := Walk(k + [s], shallow);
        var b := WalkFrom(k, t + 1, shallow);
        WalkOrder(k + [s], shallow);
        WalkFromOrder(k, t + 1, shallow);
        forall p, q | 0 <= p < |b| && 0 <= q < |a|
          ensures !(b[p] < a[q])
        {
          LaterSiblingApart(k, t, shallow, b[p], a[q]);
        }
        AncestorsFirstConcat(a, b);
      }
    }

    /** A key visited under a later child is never a prefix of a key visited under the child at `t`. */
    lemma LaterSiblingApart(k: string, t: nat, shallow: bool, x: string, y: string)
      requires Shaped() && k in NodeAt && t < |Items(KidsAt[k])|
      requires k + [Items(KidsAt[k])[t].0] in NodeAt
      requires y in Walk(k + [Items(KidsAt[k])[t].0], shallow)
      requires x in WalkFrom(k, t + 1, shallow)
      ensures !(x <= y)
    {
      WalkReached(k + [Items(KidsAt[k])[t].0], y, shallow);
      var m := WalkFromSplit(k, t + 1, x, shallow);
      WalkReached(k + [Items(KidsAt[k])[m].0], x, shallow);
      SiblingsApart(k, t, m, x, y);
    }

    /** Keys below two different children of a node are never prefixes of one another. */
    lemma SiblingsApart(k: string, t: nat, m: nat, x: string, y: string)
      requires Shaped() && k in NodeAt && t < |Items(KidsAt[k])| && m < |Items(KidsAt[k])| && t != m
      requires k + [Items(KidsAt[k])[m].0] <= x && k + [Items(KidsAt[k])[t].0] <= y
      ensures !(x <= y)
    {
      ChildAt(k, Items(KidsAt[k])[t].0);
      FindItem(KidsAt[k], t);
      FindItem(KidsAt[k], m);
      assert x[|k|] == (k + [Items(KidsAt[k])[m].0])[|k|];
      assert y[|k|] == (k + [Items(KidsAt[k])[t].0])[|k|];
    }

    /** Keeping only the stored keys keeps ancestors ahead of their descendants. */
    lemma {:induction false} YieldedOrder(keys: seq<string>)
      requires AncestorsFirst(keys)
      ensures forall i, j ::
                (0 <= i < |Yielded(keys)| && 0 <= j < |Yielded(keys)| && Yielded(keys)[i].0 < Yielded(keys)[j].0) ==> i < j
    {
      if keys != [] {
        var init := keys[..|keys| - 1];
        var last := keys[|keys| - 1];
        assert keys == init + [last];
        YieldedOrder(init);
        var ys := Yielded(init);
        forall j | 0 <= j < |ys|
          ensures !(last < ys[j].0)
        {
          YieldedMember(init, ys[j].0, ys[j].1);
          var q :| 0 <= q < |init| && init[q] == ys[j].0;
          assert keys[q] == ys[j].0 && keys[|keys| - 1] == last;
        }
      }
    }

    /**
     * What an iteration from `prefix` yields: each stored key it reaches,
     * once, with its value, every key ahead of the keys it is a prefix of.
     */
    lemma IterationFacts(prefix: string, shallow: bool)
      requires Shaped() && prefix in NodeAt
      ensures forall x, v :: (x, v) in Yielded(Walk(prefix, shallow)) <==>
                x in Contents() && v == Contents()[x] && Reached(prefix, x, shallow)
      ensures forall i, j :: 0 <= i < j < |Yielded(Walk(prefix, shallow))| ==>
                Yielded(Walk(prefix, shallow))[i].0 != Yielded(Walk(prefix, shallow))[j].0
      ensures var ys := Yielded(Walk(prefix, shallow));
                forall i, j :: (0 <= i < |ys| && 0 <= j < |ys| && ys[i].0 < ys[j].0) ==> i < j
    {
      var w := Walk(prefix, shallow);
      forall x, v
        ensures (x, v) in Yielded(w) <==> x in Contents() && v == Contents()[x] && Reached(prefix, x, shallow)
      {
        YieldedMember(w, x, v);
        WalkMember(prefix, x, shallow);
      }
      WalkDistinct(prefix, shallow);
      YieldedDistinct(w);
      WalkOrder(prefix, shallow);
      YieldedOrder(w);
    }

    /**
     * `iterate(prefix, shallow)` (trie.py:151-163): the stored keys below
     * `prefix` with their values, depth first with siblings in insertion
     * order; a shallow iteration does not descend below a stored key.
     */
    method Iterate(prefix: string, shallow: bool) returns (r: Result<seq<(string, V)>, TrieError>)
      requires Valid()
      ensures r.Err? <==> prefix !in NodeAt
      ensures r.Err? ==> r.error == KeyError || r.error == AttributeError
      ensures r.Ok? ==> r.value == Yielded(Walk(prefix, shallow))
      ensures r.Ok? ==> forall x, v :: (x, v) in r.value <==>
                x in Contents() && v == Contents()[x] && Reached(prefix, x, shallow)
      ensures r.Ok? ==> forall i, j :: 0 <= i < j < |r.value| ==> r.value[i].0 != r.value[j].0
      ensures r.Ok? ==> forall i, j :: (0 <= i < |r.value| && 0 <= j < |r.value| && r.value[i].0 < r.value[j].0) ==> i < j
    {
      var n := GetNode(prefix);
      if n.Err? {
        return Err(n.error);
      }
      var out := IterateNode(n.value, prefix, shallow);
      IterationFacts(prefix, shallow);
      return Ok(out);
    }

    /** `values(prefix, shallow)` (trie.py:108-124): the values of the same iteration, in the same order. */
    method Values(prefix: string, shallow: bool) returns (r: Result<seq<V>, TrieError>)
      requires Valid()
      ensures r.Err? <==> prefix !in NodeAt
      ensures r.Err? ==> r.error == KeyError || r.error == AttributeError
      ensures r.Ok? ==> |r.value| == |Yielded(Walk(prefix, shallow))|
      ensures r.Ok? ==> forall i :: 0 <= i < |r.value| ==> r.value[i] == Yielded(Walk(prefix, shallow))[i].1
    {
      var n := GetNode(prefix);
      if n.Err? {
        return Err(n.error);
      }
      var pairs := IterateNode(n.value, prefix, shallow);
      var vs: seq<V> := [];
      for i := 0 to |pairs|
        invariant |vs| == i
        invariant forall t :: 0 <= t < i ==> vs[t] == pairs[t].1
      {
        vs := vs + [pairs[i].1];
      }
      return Ok(vs);
    }

    /** `len(t)` (trie.py:126-127): one per value yielded by a full iteration, i.e. the number of stored keys. */
    method Len() returns (n: nat)
      requires Valid()
      ensures n == |Contents()|
    {
      var pairs := IterateNode(root, "", false);
      n := 0;
      for i := 0 to |pairs|
        invariant n == i
      {
        n := n + 1;
      }
      var w := Walk("", false);
      WalkDistinct("", false);
      YieldedCount(w);
      forall x | x in Contents()
        ensures x in Elements(w)
      {
        WalkMember("", x, false);
      }
      assert Elements(w) * Contents().Keys == Contents().Keys;
    }
  }
}
