/**
 * The boundary-healing step of token_healing.py.  Greedy tokenisation can end
 * a prompt with a token that is a prefix of several vocabulary entries; the
 * healer removes such trailing tokens, cuts the prompt back to just before the
 * first removed one and lets the model write the tail again, one token at a
 * time, from its own vocabulary.
 *
 * The tokenizer and the model are not part of this model: the decoded prompt
 * tokens are an input, the vocabulary is the sequence of keys of
 * `get_vocab()`, and the constrained greedy generation is a function
 * parameter.
 */
module TokenHealer {
  import opened Util
  import StringTrie

  /** The exceptions the healer lets escape. */
  datatype HealError =
    | StopIteration  // `next` on a generator with no truthy token
    | IndexError     // `p_toks[-1]` on a list emptied by popping
    | ValueError     // `str.rindex` of a token that does not occur in the prompt

  // ---------------------------------------------------------------------------
  // trim_falsy_toks

  /**
   * `next(i for i, t in enumerate(reversed(toks)) if t)`: how many tokens sit
   * after the last non-empty one; None when the generator is exhausted.
   */
  function TruthyIndex(toks: seq<string>): (r: Option<nat>)
    ensures r.Some? ==> r.value < |toks| && toks[|toks| - 1 - r.value] != ""
    ensures r.Some? ==> forall j :: |toks| - r.value <= j < |toks| ==> toks[j] == ""
    ensures r.None? <==> forall j :: 0 <= j < |toks| ==> toks[j] == ""
  {
    if toks == [] then None
    else if toks[|toks| - 1] != "" then Some(0)
    else match TruthyIndex(toks[..|toks| - 1])
      case None => None
      case Some(i) => Some(i + 1)
  }

  /**
   * `trim_falsy_toks(toks)` (token_healing.py:39-41): the tokens up to and
   * including the last non-empty one; `toks[:-i or None]` keeps the whole list
   * when `i` is 0.
   */
  function TrimFalsy(toks: seq<string>): (r: Result<seq<string>, HealError>)
    ensures r.Err? <==> forall j :: 0 <= j < |toks| ==> toks[j] == ""
    ensures r.Err? ==> r.error == StopIteration
    ensures r.Ok? ==> r.value <= toks && r.value != [] && r.value[|r.value| - 1] != ""
    ensures r.Ok? ==> forall j :: |r.value| <= j < |toks| ==> toks[j] == ""
  {
    match TruthyIndex(toks)
    case None => Err(StopIteration)
    case Some(i) => Ok(if i == 0 then toks else toks[..|toks| - i])
  }

  // ---------------------------------------------------------------------------
  // The ambiguity test

  /** `[t for t in vocab if t.startswith(tok)]`, in vocabulary order. */
  function Extending(vocab: seq<string>, tok: string): seq<string>
  {
    if vocab == [] then []
    else if tok <= vocab[0] then [vocab[0]] + Extending(vocab[1..], tok)
    else Extending(vocab[1..], tok)
  }

  /** The comprehension keeps exactly the entries starting with `tok`, and repeats none when the vocabulary has none. */
  lemma {:induction false} ExtendingSpec(vocab: seq<string>, tok: string)
    ensures forall x :: x in Extending(vocab, tok) <==> x in vocab && tok <= x
    ensures Distinct(vocab) ==> Distinct(Extending(vocab, tok))
  {
    if vocab != [] {
      ExtendingSpec(vocab[1..], tok);
      assert forall x :: x in vocab <==> x == vocab[0] || x in vocab[1..];
      assert Distinct(vocab) ==> Distinct(vocab[1..]) && vocab[0] !in vocab[1..];
    }
  }

  /** The loop condition of `trim_toks`: more than one vocabulary entry starts with `tok`. */
  predicate Ambiguous(vocab: seq<string>, tok: string)
  {
    |Extending(vocab, tok)| > 1
  }

  /**
   * The vocabulary entries starting with `tok` are the words of the trie built
   * from it that do.  The trie never stores "", so for the empty token this
   * needs "" not to be an entry.
   */
  lemma ExtendingMember(vocab: seq<string>, tok: string, w: string)
    requires tok != [] || "" !in vocab
    ensures w in Extending(vocab, tok) <==>
              tok <= w && StringTrie.Contains(StringTrie.InsertAll(StringTrie.Empty, vocab), w)
  {
    ExtendingSpec(vocab, tok);
    StringTrie.InsertAllContains(StringTrie.Empty, vocab, w);
    assert !StringTrie.Contains(StringTrie.Empty, w);
  }

  /**
   * The count of the ambiguity test equals the number of results of
   * `extensions(tok)` on the string trie built from the same vocabulary, and is
   * zero where `extensions` raises KeyError.  The empty token, which is what
   * `p_toks[-1]` is when an empty token precedes a popped one, is covered as
   * long as "" is not itself an entry.
   */
  lemma ExtendingIsExtensions(vocab: seq<string>, tok: string)
    requires Distinct(vocab) && (tok != [] || "" !in vocab)
    ensures var e := StringTrie.ExtensionsOf(StringTrie.InsertAll(StringTrie.Empty, vocab), tok);
            |Extending(vocab, tok)| == if e.Some? then |e.value| else 0
  {
    var n := StringTrie.InsertAll(StringTrie.Empty, vocab);
    var ext := Extending(vocab, tok);
    var e := StringTrie.ExtensionsOf(n, tok);
    StringTrie.InsertAllWellFormed(StringTrie.Empty, vocab);
    StringTrie.ExtensionsMissing(n, tok);
    var found: seq<string> := if e.Some? then e.value else [];
    forall w
      ensures w in ext <==> w in found
    {
      ExtendingMember(vocab, tok, w);
      if e.Some? {
        StringTrie.ExtensionsSound(n, tok, w);
      }
    }
    if e.Some? {
      StringTrie.ExtensionsSound(n, tok, tok);
    }
    ExtendingSpec(vocab, tok);
    SameElementsSameLength(ext, found);
  }

  // ---------------------------------------------------------------------------
  // trim_toks

  /**
   * What popping leaves as removed tokens: the maximal run of ambiguous
   * tokens at the end of `p`, oldest first, or IndexError when every token
   * of `p` is ambiguous.
   */
  function PopAmbiguous(vocab: seq<string>, p: seq<string>): (r: Result<seq<string>, HealError>)
    ensures r.Err? <==> forall j :: 0 <= j < |p| ==> Ambiguous(vocab, p[j])
    ensures r.Err? ==> r.error == IndexError
    ensures r.Ok? ==> |r.value| < |p| && r.value == p[|p| - |r.value|..]
    ensures r.Ok? ==> forall j :: |p| - |r.value| <= j < |p| ==> Ambiguous(vocab, p[j])
    ensures r.Ok? ==> !Ambiguous(vocab, p[|p| - |r.value| - 1])
  {
    if p == [] then Err(IndexError)
    else
      var last := p[|p| - 1];
      if !Ambiguous(vocab, last) then Ok([])
      else match PopAmbiguous(vocab, p[..|p| - 1])
        case Err(e) =>
          assert forall j :: 0 <= j < |p| - 1 ==> p[..|p| - 1][j] == p[j];
          Err(e)
        case Ok(rs) =>
          SliceSnoc(p, |rs|);
          Ok(rs + [last])
  }

  lemma SliceSnoc<T>(p: seq<T>, k: nat)
    requires k < |p|
    ensures p[..|p| - 1][|p| - 1 - k..] + [p[|p| - 1]] == p[|p| - 1 - k..]
  {
  }

  /** The result of `trim_toks(toks)`, as a value. */
  function Trim(vocab: seq<string>, toks: seq<string>): (r: Result<seq<string>, HealError>)
    ensures r == Err(StopIteration) <==> forall j :: 0 <= j < |toks| ==> toks[j] == ""
    ensures r.Err? ==> r.error == StopIteration || r.error == IndexError
    ensures r.Ok? ==> |r.value| < |toks| && forall k :: 0 <= k < |r.value| ==> Ambiguous(vocab, r.value[k])
    ensures r.Ok? && r.value != [] ==> r.value[|r.value| - 1] != ""
  {
    match TrimFalsy(toks)
    case Err(e) => Err(e)
    case Ok(p) => PopAmbiguous(vocab, p)
  }

  /**
   * `trim_toks(toks)` (token_healing.py:32-37): trim the empty tokens off the
   * end, then pop the ambiguous ones.  The caller's list is a value and is
   * untouched.
   */
  method TrimToks(vocab: seq<string>, toks: seq<string>) returns (r: Result<seq<string>, HealError>)
    ensures r == Trim(vocab, toks)
  {
    var trimmed := TrimFalsy(toks);
    if trimmed.Err? {
      return Err(trimmed.error);
    }
    r := PopWhileAmbiguous(vocab, trimmed.value);
  }

  /**
   * The loop of `trim_toks` (token_healing.py:34-37): while the last token is
   * ambiguous, pop it and insert it at the front of the removed list;
   * `p_toks[-1]` on an emptied list raises IndexError.
   */
  method PopWhileAmbiguous(vocab: seq<string>, p: seq<string>) returns (r: Result<seq<string>, HealError>)
    ensures r == PopAmbiguous(vocab, p)
  {
    var pToks := p;
    var removed: seq<string> := [];
    while true
      invariant |pToks| <= |p| && pToks == p[..|pToks|] && removed == p[|pToks|..]
      invariant forall j :: |pToks| <= j < |p| ==> Ambiguous(vocab, p[j])
      decreases |pToks|
    {
      if pToks == [] {
        return Err(IndexError);
      }
      var last := pToks[|pToks| - 1];
      if |Extending(vocab, last)| <= 1 {
        break;
      }
      assert p[|pToks| - 1..] == [last] + removed;
      removed := [last] + removed;
      pToks := pToks[..|pToks| - 1];
    }
    PopUnique(vocab, p, |pToks|);
    return Ok(removed);
  }

  /** A cut point with a non-ambiguous token before it and only ambiguous ones after it is the one popping finds. */
  lemma PopUnique(vocab: seq<string>, p: seq<string>, n: nat)
    requires 0 < n <= |p| && !Ambiguous(vocab, p[n - 1])
    requires forall j :: n <= j < |p| ==> Ambiguous(vocab, p[j])
    ensures PopAmbiguous(vocab, p) == Ok(p[n..])
  {
    var r := PopAmbiguous(vocab, p);
    assert r.Ok?;
  }

  // ---------------------------------------------------------------------------
  // The truncation of __call__

  /** `t` occurs in `s` starting at `j`. */
  predicate OccursAt(s: string, t: string, j: nat)
  {
    j + |t| <= |s| && s[j..j + |t|] == t
  }

  /**
   * `s.rindex(t)`: the start of the last occurrence of `t` in `s`; None where
   * Python raises ValueError.  An empty `t` occurs last at `|s|`.
   */
  function LastIndexOf(s: string, t: string): (r: Option<nat>)
    ensures r.Some? ==> OccursAt(s, t, r.value)
    ensures r.Some? ==> forall j :: r.value < j ==> !OccursAt(s, t, j)
    ensures r.None? <==> forall j :: !OccursAt(s, t, j)
  {
    if |t| > |s| then None else SearchDown(s, t, |s| - |t|)
  }

  /** The last occurrence of `t` in `s` starting at or before `j`. */
  function SearchDown(s: string, t: string, j: nat): (r: Option<nat>)
    requires j + |t| <= |s|
    ensures r.Some? ==> r.value <= j && OccursAt(s, t, r.value)
    ensures r.Some? ==> forall i :: r.value < i <= j ==> !OccursAt(s, t, i)
    ensures r.None? <==> forall i :: 0 <= i <= j ==> !OccursAt(s, t, i)
    decreases j
  {
    if OccursAt(s, t, j) then Some(j)
    else if j == 0 then None
    else SearchDown(s, t, j - 1)
  }

  /** `s.rstrip()`, with the whitespace test as a parameter. */
  function RStrip(s: string, isSpace: char -> bool): (r: string)
    ensures r <= s
    ensures r == [] || !isSpace(r[|r| - 1])
    ensures forall j :: |r| <= j < |s| ==> isSpace(s[j])
  {
    if s == [] || !isSpace(s[|s| - 1]) then s
    else RStrip(s[..|s| - 1], isSpace)
  }

  /**
   * The text after regenerating each removed token in turn: `generate(t,
   * prompt)` is what the constrained model call appends for token `t`.
   */
  function Regenerate(generate: (string, string) -> string, prompt: string, removed: seq<string>): (r: string)
    ensures prompt <= r
    decreases |removed|
  {
    if removed == [] then prompt
    else Regenerate(generate, prompt + generate(removed[0], prompt), removed[1..])
  }

  /**
   * `TokenHealer(prompt)` (token_healing.py:19-28), given the decoded prompt
   * tokens: when tokens are removed, the prompt is cut at the last
   * occurrence of the first removed token, right-stripped, and extended by
   * one generation per removed token; otherwise it is returned as it is.
   */
  method Heal(vocab: seq<string>, prompt: string, promptToks: seq<string>,
              isSpace: char -> bool, generate: (string, string) -> string)
    returns (r: Result<string, HealError>)
    ensures Trim(vocab, promptToks).Err? ==> r == Err(Trim(vocab, promptToks).error)
    ensures Trim(vocab, promptToks) == Ok([]) ==> r == Ok(prompt)
    ensures Trim(vocab, promptToks).Ok? && Trim(vocab, promptToks).value != [] ==>
              var removed := Trim(vocab, promptToks).value;
              match LastIndexOf(prompt, removed[0])
              case None => r == Err(ValueError)
              case Some(i) =>
                r.Ok? && RStrip(prompt[..i], isSpace) <= prompt &&
                r.value == Regenerate(generate, RStrip(prompt[..i], isSpace), removed)
  {
    var trimmed := TrimToks(vocab, promptToks);
    if trimmed.Err? {
      return Err(trimmed.error);
    }
    var removed := trimmed.value;
    if removed == [] {
      return Ok(prompt);
    }
    var cut := LastIndexOf(prompt, removed[0]);
    if cut.None? {
      return Err(ValueError);
    }
    var text := RStrip(prompt[..cut.value], isSpace);
    ghost var kept := text;
    for k := 0 to |removed|
      invariant Regenerate(generate, text, removed[k..]) == Regenerate(generate, kept, removed)
    {
      assert removed[k..][1..] == removed[k + 1..];
      text := text + generate(removed[k], text);
    }
    assert removed[|removed|..] == [];
    return Ok(text);
  }
}
