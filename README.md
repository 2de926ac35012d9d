# TokenHealer core, modelled in Dafny

TokenHealer repairs the boundary of a tokenised prompt. Greedy tokenisation can end a
prompt with a token that is only a prefix of several vocabulary entries. The healer
removes such trailing tokens and cuts the prompt back to just before the first removed
token. The model then writes the tail again, one token at a time, from its own
vocabulary. The repository holds two prefix tries and the healing routine. This project
models all three.

- `util.dfy` (module `Util`): `Option`, `Result` (a value or a raised exception), and
  `Distinct` with a few facts about it.
- `string_trie.dfy` (module `StringTrie`) models `tokenhealing/trie.py`. That is the
  nested-dictionary trie whose nodes map a character to a child dictionary, with the key
  `""` marking the end of a word.
  - A node is a terminal flag plus an ordered sequence of `(char, Node)` edges. A map
    would not do, because dictionary insertion order shows in the result of `extensions`.
  - The object `Trie` has the fields `data` and `tokens` (`_tokens`).
  - `add` is a method with the same walk as the source. It records the dictionaries
    along the word, then rebuilds them from the last one up. It is proved equal to the
    recursive `Insert`.
  - `extensions` is a method with the descending loop. Its result is proved equal to
    `Prepend(prefix, Collect(node))`, the model of `_collect_tokens`.
- `pyg_trie.dfy` (module `PygTrie`) models `trie.py`, the pygtrie-derived mapping trie.
  - Nodes are objects whose `children` and `value` fields are rewritten in place. The
    `children` field takes one of three representations: `_EMPTY`, `_OneChild` or the
    `_Children` dictionary.
  - Three ghost maps record the node, the children and the value of every key whose
    path exists. `Valid()` ties them to the heap. `Contents()` is the mapping the trie
    stands for.
  - `_Node.iterate` is a method with the explicit stack of the source. It is proved to
    yield `Yielded(Walk(prefix, shallow))`. Lemmas then show that this sequence holds
    exactly the stored keys reached, each once, every key ahead of its extensions.
- `token_healer.dfy` (module `TokenHealer`) models `token_healing.py`: `trim_falsy_toks`,
  `trim_toks` with its popping loop, and the truncation and regeneration of `__call__`.
  - The vocabulary is the sequence of keys of `get_vocab()`.
  - The decoded prompt tokens, the whitespace test of `str.rstrip` and the constrained
    generation call are parameters.
  - For a vocabulary without repeated entries, the ambiguity count of `trim_toks` is
    proved equal to the length of `extensions` on the string trie built from the same
    vocabulary. This holds for every non-empty token. It also holds for the empty token
    whenever `""` is not an entry, because the trie never stores the empty word.

Behaviour of the code worth knowing:

- `extensions` of a prefix with no path raises `KeyError`. It does not return an empty
  list.
- An empty vocabulary is not rejected.
- `extensions` yields token strings, not token ids.
- No preference weight goes to the original token, and there is no fallback to the
  unhealed prompt. `StopIteration`, `IndexError` and `ValueError` propagate to the
  caller (`HealError`).

## Model

| member | source | states |
|---|---|---|
| StringTrie.ChildOrEmpty | tokenhealing/trie.py:45 | `char in ref and ref[char] or {}` is the child under `char` when it exists and is truthy, and a fresh `{}` otherwise |
| StringTrie.SetChild | tokenhealing/trie.py:45 | `ref[char] = m` makes the child under `char` be `m` and leaves every other character's child and the end marker as they were |
| StringTrie.SetChildLabels | tokenhealing/trie.py:45 | `ref[char] = m` keeps an existing `char` in its place among the keys and puts a new `char` after all the others |
| StringTrie.Insert | tokenhealing/trie.py:42-48 | `add` of a word as a value: the dictionary it returns is truthy, and holds `""` at its top iff it did before or the word is empty |
| StringTrie.AddWord | tokenhealing/trie.py:38-48 | `add(w)` as a value: the empty word returns early, any other word is inserted; no contract of its own, its properties are those of `Insert` and `Trie.Add` is proved to compute it |
| StringTrie.InsertAll | tokenhealing/trie.py:14-16 | `update(words)` as a value: `add` of every word, in order; no contract of its own, `InsertAllContains`, `InsertAllWellFormed` and `InsertionOrder` state what it stores and in what order |
| StringTrie.Descend | tokenhealing/trie.py:52-54 | the node the prefix loop of `extensions` reaches, None where `prefix_node[char]` raises; no contract of its own, `DescendConcat` and `ExtensionsMissing` are about it |
| StringTrie.Collect | tokenhealing/trie.py:59-67 | `_collect_tokens(node)`: `""` first when the node ends a word, then each child's words behind its character, children in key order; no contract of its own, see `CollectMember` and `CollectDistinct` |
| StringTrie.CollectFrom | tokenhealing/trie.py:62-66 | the loop of `_collect_tokens` from the `i`-th child on; no contract of its own, see `CollectFromMember` and `CollectFromDistinct` |
| StringTrie.ExtensionsOf | tokenhealing/trie.py:50-57 | `extensions(prefix)` as a value, None for KeyError; no contract of its own, see `ExtensionsSound` and `ExtensionsMissing` |
| StringTrie.InsertContains | tokenhealing/trie.py:42-48 | after `add(w)` a word `v` is stored iff it was stored before or `v == w`: nothing is lost and nothing else appears |
| StringTrie.InsertWellFormed | tokenhealing/trie.py:44-48 | `add` keeps dictionary keys distinct and never leaves an empty (falsy) dictionary below the root |
| StringTrie.InsertIdempotent | tokenhealing/trie.py:23 | adding the same word twice leaves the trie as adding it once |
| StringTrie.InsertIntoEmpty | tokenhealing/trie.py:44-48 | `add(w)` on `{}` builds exactly one node per character, the last holding only `""` (the "Hello" chain) |
| StringTrie.InsertAllContains | tokenhealing/trie.py:14-16 | after `update(words)` a word is stored iff it was stored before or is a non-empty member of `words` |
| StringTrie.InsertAllWellFormed | tokenhealing/trie.py:14-16 | `update` keeps the trie well formed and never marks the root as the end of a word |
| StringTrie.CollectMember | tokenhealing/trie.py:59-67 | `_collect_tokens(n)` yields exactly the words stored below `n`, relative to `n` |
| StringTrie.CollectDistinct | tokenhealing/trie.py:59-67 | `_collect_tokens` yields no word twice |
| StringTrie.ExtensionsSound | tokenhealing/trie.py:50-67 | `extensions(p)` yields exactly the stored words starting with `p`, each once, with `p` first when it is a word |
| StringTrie.ExtensionsMissing | tokenhealing/trie.py:52-54 | `extensions(p)` raises KeyError iff `p` is not empty and no stored word starts with it, and otherwise yields something for a non-empty `p` |
| StringTrie.AddedWordExtends | test/test_trie.py:8-11 | after `add(w)`, `extensions(w)` exists and starts with `w` |
| StringTrie.AddTwiceExtensions | test/test_trie.py:36-40 | adding `w` twice to an empty trie makes `extensions(w)` exactly `[w]` |
| StringTrie.NestedWords | test/test_trie.py:13-22 | adding `u`, `u+v`, `u+v+x` gives `extensions(u) == [u, u+v, u+v+x]`: shorter words first |
| StringTrie.InsertionOrder | tokenhealing/trie.py:59-67 | when the words added to `{}` start with pairwise different characters, `extensions("")` lists the non-empty ones exactly in the order they were added |
| StringTrie.TwoWords | test/test_trie.py:25-29 | two words with different first characters come out of `extensions("")` in insertion order |
| StringTrie.Trie.constructor | tokenhealing/trie.py:9-12 | `Trie(words)` holds exactly the trie and token set of adding every word to `{}` |
| StringTrie.Trie.Update | tokenhealing/trie.py:14-16 | `update(words)` adds every word in order and adds the non-empty ones to `_tokens`, keeping `_tokens` equal to the stored words |
| StringTrie.Trie.Add | tokenhealing/trie.py:38-48 | `add(word)` leaves everything unchanged for the empty word, otherwise stores `word` and adds it to `_tokens`, keeping the invariant |
| StringTrie.Trie.Extensions | tokenhealing/trie.py:50-57 | KeyError with the first character of the prefix whose edge is missing iff no token starts with a non-empty prefix; otherwise exactly the tokens starting with the prefix, distinct, the prefix first when it is a token |
| PygTrie.Items | trie.py:33-35 | the step-node pairs of a children container, in insertion order: none, the one child, or the dictionary's items; no contract of its own |
| PygTrie.NonEmpty | trie.py:12-31 | the truth value of a children container (`__bool__`, or a dictionary's truthiness) is true iff it has at least one item |
| PygTrie.Node.constructor | trie.py:55-57 | a new `_Node` has no children and no value |
| PygTrie.Get | trie.py:37-38 | `children.get(step)` is the child under `step`; on `_NoChildren` it raises AttributeError |
| PygTrie.WithChild | trie.py:15-51 | `add` turns none into one child, one into a dictionary of two, and appends to a dictionary; the items gain exactly the new entry, last, and the shape invariant holds |
| PygTrie.Attach | trie.py:15-43 | attaching a fresh node under a new step keeps the key space a prefix-closed tree of distinct nodes |
| PygTrie.Trie.constructor | trie.py:83-85 | a new trie is a lone, freshly allocated root and stores nothing |
| PygTrie.Trie.GetNode | trie.py:87-95 | `_get_node(key)` returns the node of `key` iff its path exists; otherwise it fails at the first missing step, with AttributeError past a leaf and KeyError at a node with children |
| PygTrie.Trie.GetItem | trie.py:132-136 | `t[key]` is the stored value; ShortKeyError iff the node exists without a value; KeyError or AttributeError when the path is missing |
| PygTrie.Trie.AddChild | trie.py:15-43 | `add(parent, step)` attaches one fresh empty node under a new step, keeps the invariant and the mapping |
| PygTrie.Trie.Require | trie.py:20-51 | `require` returns the existing child and changes nothing, or adds exactly one new child; the mapping is unchanged |
| PygTrie.Trie.SetValue | trie.py:101-102 | writing the value field of a key's node sets or clears that key in the mapping and nothing else |
| PygTrie.Trie.RequirePath | trie.py:98-100 | the loop of `_set_node` creates the path of `key`, keeps every existing node, creates only prefixes of `key`, and keeps the mapping |
| PygTrie.Trie.SetNode | trie.py:97-103 | `_set_node` stores `value` at `key`, except that with `only_if_missing` an existing value is kept; existing keys keep their nodes, and the nodes it creates are fresh prefixes of `key` |
| PygTrie.Trie.SetItem | trie.py:138-139 | after `t[key] = value` the mapping is the old one with `key` bound to `value`; existing keys keep their nodes, and the nodes it creates are fresh prefixes of `key` |
| PygTrie.Trie.Delete | trie.py:141-146 | `del t[key]` removes exactly `key` from the mapping and keeps every node; ShortKeyError iff the node exists without a value |
| PygTrie.Trie.Expand | trie.py:64-69 | visiting a node pushes an iterator over its items exactly when the walk goes below it |
| PygTrie.Trie.Advance | trie.py:70-74 | taking the next item of the top iterator moves to the node of that child's key |
| PygTrie.Trie.Exhausted | trie.py:75-77 | popping an exhausted iterator skips no key |
| PygTrie.Trie.IterateNode | trie.py:60-79 | the explicit-stack loop yields exactly `Yielded(Walk(prefix, shallow))` and terminates |
| PygTrie.Trie.Walk | trie.py:60-79 | the keys the loop of `_Node.iterate` visits, in order: the node, then, unless a shallow walk stops at a value, the walks of its children in item order; no contract of its own, see `WalkMember`, `WalkDistinct` and `WalkOrder` |
| PygTrie.Trie.WalkFrom | trie.py:70-77 | the walks of the children from the `i`-th item on; no contract of its own |
| PygTrie.Trie.Yielded | trie.py:64-65 | the `(key, value)` pairs yielded while visiting a key sequence: one per visited key holding a value, in visiting order; no contract of its own, see `YieldedMember`, `YieldedDistinct`, `YieldedCount` and `YieldedOrder` |
| PygTrie.Trie.WalkMember | trie.py:60-79 | the walk visits exactly the existing keys below the prefix; in a shallow walk, those with no stored key on the path from the prefix itself down to just above the key |
| PygTrie.Trie.WalkDistinct | trie.py:60-79 | the walk visits no key twice |
| PygTrie.Trie.WalkOrder | trie.py:60-79 | the walk visits every key before the keys it is a proper prefix of |
| PygTrie.Trie.YieldedMember | trie.py:64-65 | a pair is yielded iff its key is visited and holds that value |
| PygTrie.Trie.YieldedDistinct | trie.py:64-65 | over a walk without repetition no key is yielded twice |
| PygTrie.Trie.YieldedCount | trie.py:64-65 | over a walk without repetition one pair is yielded per visited key that holds a value |
| PygTrie.Trie.YieldedOrder | trie.py:64-65 | yielding keeps ancestors ahead of their descendants |
| PygTrie.Trie.IterationFacts | trie.py:151-163 | an iteration yields each stored key it reaches exactly once with its value, ancestors first |
| PygTrie.Trie.Iterate | trie.py:151-163 | `iterate(prefix, shallow)` fails iff the prefix has no node; otherwise it yields exactly the stored keys reached, with their values, each once, ancestors first |
| PygTrie.Trie.Values | trie.py:108-124 | `values(prefix, shallow)` are the values of that iteration, in the same order |
| PygTrie.Trie.Len | trie.py:126-127 | `len(t)` is the number of keys holding a value |
| TokenHealer.TruthyIndex | token_healing.py:40 | the index, from the end, of the last non-empty token, with only empty tokens after it; None iff every token is empty |
| TokenHealer.TrimFalsy | token_healing.py:39-41 | StopIteration iff every token is empty; otherwise a non-empty prefix ending in a non-empty token, only empty tokens dropped |
| TokenHealer.Extending | token_healing.py:35 | `[t for t in self.vocab if t.startswith(tok)]`, in vocabulary order; no contract of its own, see `ExtendingSpec` |
| TokenHealer.Ambiguous | token_healing.py:35 | the loop condition: more than one vocabulary entry starts with the token; no contract of its own |
| TokenHealer.ExtendingSpec | token_healing.py:35 | the comprehension keeps exactly the vocabulary entries starting with the token, without repetition |
| TokenHealer.ExtendingMember | token_healing.py:35 | an entry passes the test iff it is a word of the string trie built from the vocabulary and starts with the token, for a non-empty token and for the empty one when `""` is not an entry |
| TokenHealer.ExtendingIsExtensions | token_healing.py:35 | over distinct entries, the count of the test equals the length of `extensions(token)` on that trie, and is 0 where `extensions` raises; for a non-empty token, and for the empty one when `""` is not an entry |
| TokenHealer.PopAmbiguous | token_healing.py:34-37 | IndexError iff every token is ambiguous; otherwise the maximal ambiguous suffix, in order, after a non-ambiguous token |
| TokenHealer.PopWhileAmbiguous | token_healing.py:34-37 | the popping loop returns `PopAmbiguous` |
| TokenHealer.PopUnique | token_healing.py:35-36 | a cut with a non-ambiguous token before it and only ambiguous ones after it is the one popping finds |
| TokenHealer.Trim | token_healing.py:32-37 | the result of `trim_toks`: StopIteration iff every token is empty, any other error is IndexError, and the removed tokens are fewer than the tokens given, all ambiguous, the last one non-empty |
| TokenHealer.TrimToks | token_healing.py:32-37 | `trim_toks` is falsy-trimming followed by popping, errors included |
| TokenHealer.LastIndexOf | token_healing.py:22 | `rindex` finds the last occurrence; None (ValueError) iff there is none |
| TokenHealer.RStrip | token_healing.py:22 | `rstrip` keeps a prefix that does not end in whitespace and drops only whitespace |
| TokenHealer.Regenerate | token_healing.py:23-27 | each generation step appends to the text, so the kept prompt is a prefix of the result |
| TokenHealer.Heal | token_healing.py:19-28 | errors of `trim_toks` propagate; nothing removed returns the prompt; otherwise ValueError when the first removed token is absent, else the right-stripped cut prompt extended by one generation per removed token, oldest first |

## Left out

- Constrained generation. The outlines regex generator and the greedy sampler are
  replaced by a function parameter. Its output is taken as text appended to the prompt.
- Tokenisation. `self.tokenizer(prompt).input_ids` and `batch_decode` are not modelled.
  The decoded prompt tokens are an input of `Heal`.
- `str.rstrip` uses Unicode's whitespace classes, which are not modelled. The model
  takes the whitespace test as a parameter.
- The vocabulary is modelled as the sequence of keys of `get_vocab()`. The token ids are
  not used by the modelled code.
- tokenhealing/token_healing.py, example.py and test/test_token_healing.py are not part
  of this model. They are glue over model libraries, a demo and model-dependent tests.
- The `Tokenizer` protocol and `TokenHealer.__init__` are not modelled. They only store
  collaborators.
- StringTrie.Trie.Add: the nested dictionaries are values here. The in-place update of
  shared dictionaries is modelled as rebuilding the path and reassigning `data`. No
  dictionary of the trie is aliased from outside, so nothing observable is lost.
- StringTrie.Trie.constructor: `Trie(*args)` takes at most one iterable of strings. The
  model takes that iterable as a sequence.
- The concrete test of "foo", "food", "foodie" and "helium" is stated as `NestedWords`
  over the first three words.
- PygTrie.Trie.GetNode: the trace list that `_get_node` also returns is not modelled.
  No modelled caller uses it.
- PygTrie.Trie.Require: `setdefault(step, _Node())` builds a node even when the step
  exists, then drops it. That allocation is not modelled.
- PygTrie.Trie.IterateNode: the shared `path` list, with its `None` placeholder, is
  replaced by the key stored in each stack frame. The keys yielded are the same.
- PygTrie.Trie.Iterate, PygTrie.Trie.IterateNode: `iterate` and `_Node.iterate` are lazy
  generators; the model computes the whole sequence at once. It does not capture that a
  missing prefix raises only at the first `next`, nor what a trie changed between two
  yields makes the remaining frames produce (or the RuntimeError a changed `_Children`
  dictionary raises).
- PygTrie.Trie.Iterate: a prefix given as the `_EMPTY` default is modelled as the empty
  string. Both start at the root.
- `__iter__`, `iterkeys` and `_path_from_key` are not modelled. The first two project
  the keys of the modelled iteration; the last only maps the default to the empty key.
- The mixin methods of `MutableMapping` (`update`, `keys`, `items`, `pop` and others)
  are not modelled. That includes the initial items passed to `Trie(*args, **kwargs)`;
  the model's constructor builds an empty trie.
- Keys of the mapping trie are strings, iterated by character, as in every modelled use.
  Other step sequences are not modelled.
