/**
 * The Markov nonsense generator: the 31-symbol alphabet of its trie, the
 * builder that counts the n-grams of the normalised input, and the prettifier
 * that turns generated prose into capitalised, wrapped sentences.
 */
module Markov {

  // ---------------------------------------------------------------------------
  // The character set.

  /** The number of symbols a trie node can branch on. */
  const SetSize: nat := 31

  /** The symbols in index order: the 26 lower-case letters, then `.`, `-`, `,`, `'` and space. */
  const CharacterSet: seq<char> :=
    ['a', 'b', 'c', 'd', 'e', 'f', 'g', 'h', 'i', 'j', 'k', 'l', 'm', 'n', 'o', 'p',
     'q', 'r', 's', 't', 'u', 'v', 'w', 'x', 'y', 'z', '.', '-', ',', '\'', ' ']

  /** The characters `get_next` accepts. */
  predicate IsSymbol(c: char)
  {
    ('a' <= c <= 'z') || c == '.' || c == '-' || c == ',' || c == '\'' || c == ' '
  }

  /** The child slot `get_next` picks for a character; the symbol at that index is the character itself. */
  function IndexOf(c: char): (i: nat)
    requires IsSymbol(c)
    ensures i < SetSize && |CharacterSet| == SetSize && CharacterSet[i] == c
  {
    match c
    case '.' => 26
    case '-' => 27
    case ',' => 28
    case '\'' => 29
    case ' ' => 30
    case _ => c as int - 97
  }

  /** `index_to_char`: the symbol of a child slot. */
  function IndexToChar(i: int): (c: char)
    requires 0 <= i < SetSize
    ensures IsSymbol(c)
  {
    assert |CharacterSet| == SetSize;
    CharacterSet[i]
  }

  /** The other half of the bijection: every slot is the slot of its own symbol. */
  lemma SlotRoundTrip(i: int)
    requires 0 <= i < SetSize
    ensures IndexOf(IndexToChar(i)) == i
  {
    assert |CharacterSet| == SetSize;
  }

  /** Distinct symbols branch to distinct slots. */
  lemma IndexInjective(c: char, d: char)
    requires IsSymbol(c) && IsSymbol(d) && IndexOf(c) == IndexOf(d)
    ensures c == d
  {
  }

  // ---------------------------------------------------------------------------
  // Counting n-grams.

  /** `p` starts `w`. */
  predicate IsPrefix(p: seq<char>, w: seq<char>)
  {
    |p| <= |w| && w[..|p|] == p
  }

  /** The number of length-`n` windows of `text` that start with `p`; no window exists when `n` is not positive. */
  function WindowCount(text: seq<char>, n: int, p: seq<char>): nat
  {
    if n <= 0 || |text| < n then 0
    else WindowCount(text[..|text| - 1], n, p) + (if IsPrefix(p, text[|text| - n..]) then 1 else 0)
  }

  /** The characters the builder holds: the last `n - 1` of those fed, or all of them when `n` is not positive. */
  function Pending(fed: seq<char>, n: int): seq<char>
  {
    if n <= 0 then fed
    else if |fed| <= n - 1 then fed
    else fed[|fed| - (n - 1)..]
  }

  /** The frequency of the node at path `q`, zero when there is no such node. */
  function Freq(nodes: map<seq<char>, nat>, q: seq<char>): nat
  {
    if q in nodes then nodes[q] else 0
  }

  /** One walk from the root along `w`: each node on the way gains one, and a missing node is created with frequency one. */
  function Tally(nodes: map<seq<char>, nat>, w: seq<char>): map<seq<char>, nat>
  {
    if |w| == 0 then nodes
    else
      var before := Tally(nodes, w[..|w| - 1]);
      before[w := Freq(before, w) + 1]
  }

  /** A walk along `w` adds one to exactly the nodes at the non-empty prefixes of `w`, creating those missing. */
  lemma {:induction false} TallyCounts(nodes: map<seq<char>, nat>, w: seq<char>, q: seq<char>)
    ensures q in Tally(nodes, w) <==> q in nodes || (q != [] && IsPrefix(q, w))
    ensures Freq(Tally(nodes, w), q) == Freq(nodes, q) + (if q != [] && IsPrefix(q, w) then 1 else 0)
  {
    if |w| > 0 {
      var front := w[..|w| - 1];
      TallyCounts(nodes, front, q);
      if q != w {
        if q != [] && IsPrefix(q, w) {
          assert |q| < |w|;
          assert front[..|q|] == w[..|q|];
        }
        if IsPrefix(q, front) {
          assert w[..|q|] == front[..|q|];
        }
      } else {
        assert !IsPrefix(q, front);
      }
    }
  }

  /** Feeding one more character adds at most the window that it ends. */
  lemma WindowStep(fed: seq<char>, c: char, text: seq<char>, n: int, q: seq<char>)
    requires text == fed + [c]
    ensures n >= 1 && |text| >= n ==>
      WindowCount(text, n, q) == WindowCount(fed, n, q) + (if IsPrefix(q, text[|text| - n..]) then 1 else 0)
    ensures !(n >= 1 && |text| >= n) ==> WindowCount(text, n, q) == 0 == WindowCount(fed, n, q)
  {
    if n >= 1 && |text| >= n {
      assert text[..|text| - 1] == fed;
    }
  }

  /** Only paths of at most `n` characters are counted. */
  lemma {:induction false} WindowLength(text: seq<char>, n: int, q: seq<char>)
    requires WindowCount(text, n, q) > 0
    ensures |q| <= n
  {
    if n >= 1 && |text| >= n && !IsPrefix(q, text[|text| - n..]) {
      WindowLength(text[..|text| - 1], n, q);
    }
  }

  /** A path is counted at most as often as the path one shorter: the trie's frequencies shrink going down. */
  lemma {:induction false} WindowMonotone(text: seq<char>, n: int, q: seq<char>, x: char)
    ensures WindowCount(text, n, q + [x]) <= WindowCount(text, n, q)
  {
    if n >= 1 && |text| >= n {
      var front := text[..|text| - 1];
      WindowMonotone(front, n, q, x);
      var w := text[|text| - n..];
      PrefixShorter(q, x, w);
      assert WindowCount(text, n, q + [x]) == WindowCount(front, n, q + [x]) + (if IsPrefix(q + [x], w) then 1 else 0);
      assert WindowCount(text, n, q) == WindowCount(front, n, q) + (if IsPrefix(q, w) then 1 else 0);
    }
  }

  /** A path that starts a window has its parent start the window too. */
  lemma PrefixShorter(q: seq<char>, x: char, w: seq<char>)
    ensures IsPrefix(q + [x], w) ==> IsPrefix(q, w)
  {
    if IsPrefix(q + [x], w) {
      assert w[..|q|] == (q + [x])[..|q|] == q;
    }
  }

  /** Every window starts with the empty path: the number of windows of the text. */
  lemma {:induction false} WindowTotal(text: seq<char>, n: int)
    requires n >= 1
    ensures WindowCount(text, n, []) == if |text| < n then 0 else |text| - n + 1
  {
    if |text| >= n {
      var front := text[..|text| - 1];
      WindowTotal(front, n);
      assert IsPrefix([], text[|text| - n..]);
      assert WindowCount(text, n, []) == WindowCount(front, n, []) + 1;
    }
  }

  /** `Trie_builder`: the pending characters and the trie, a map from a root-to-node path to the node's frequency. */
  class TrieBuilder {
    const n: int
    var key: seq<char>
    var nodes: map<seq<char>, nat>
    /** Every character fed so far. */
    ghost var fed: seq<char>

    /** The builder holds the last `n - 1` characters, the root has frequency zero, and every other node exists
        exactly for the paths some length-`n` window starts with, holding the number of those windows. */
    ghost predicate Valid()
      reads this
    {
      key == Pending(fed, n) &&
      [] in nodes && nodes[[]] == 0 &&
      (forall q :: q in nodes <==> q == [] || WindowCount(fed, n, q) > 0) &&
      (forall q :: q in nodes && q != [] ==> nodes[q] == WindowCount(fed, n, q))
    }

    /** A builder over a fresh root, with `n` the n-gram size. */
    constructor (n: int)
      ensures this.n == n && fed == [] && key == [] && nodes == map[[] := 0]
      ensures Valid()
    {
      this.n := n;
      key := [];
      nodes := map[[] := 0];
      fed := [];
    }

    /** The walk from the root along the window `w`. */
    method Walk(w: seq<char>)
      modifies this
      ensures nodes == Tally(old(nodes), w)
      ensures key == old(key) && fed == old(fed)
    {
      ghost var start := nodes;
      for j := 0 to |w|
        invariant nodes == Tally(start, w[..j])
        invariant key == old(key) && fed == old(fed)
      {
        var path := w[..j + 1];
        assert path[..j] == w[..j];
        if path !in nodes {
          nodes := nodes[path := 1];
        } else {
          nodes := nodes[path := nodes[path] + 1];
        }
      }
      assert w[..|w|] == w;
    }

    /** `operator()`: push the character; once `n` are pending, count that window and drop the oldest. */
    method Feed(c: char)
      requires Valid() && IsSymbol(c)
      modifies this
      ensures fed == old(fed) + [c] && Valid()
      ensures n >= 1 ==> |key| < n
    {
      key := key + [c];
      fed := fed + [c];
      ghost var before := nodes;
      ghost var w := key;
      if |key| == n {
        Walk(key);
        key := key[1..];
      }
      PendingStep(old(fed), c, n);
      assert nodes == if |w| == n then Tally(before, w) else before;
      assert [] in nodes && nodes[[]] == 0 by {
        if |w| == n {
          TallyCounts(before, w, []);
        }
      }
      forall q
        ensures (q in nodes <==> q == [] || WindowCount(fed, n, q) > 0)
        ensures q in nodes && q != [] ==> nodes[q] == WindowCount(fed, n, q)
      {
        NodeStep(before, nodes, old(fed), c, n, w, q);
      }
    }
  }

  /** The node at `q` after one character agrees with the windows of the longer text. */
  lemma NodeStep(before: map<seq<char>, nat>, after: map<seq<char>, nat>, fed: seq<char>, c: char, n: int, w: seq<char>, q: seq<char>)
    requires w == Pending(fed, n) + [c]
    requires after == if |w| == n then Tally(before, w) else before
    requires q in before <==> q == [] || WindowCount(fed, n, q) > 0
    requires q in before && q != [] ==> before[q] == WindowCount(fed, n, q)
    ensures q in after <==> q == [] || WindowCount(fed + [c], n, q) > 0
    ensures q in after && q != [] ==> after[q] == WindowCount(fed + [c], n, q)
  {
    PendingStep(fed, c, n);
    WindowStep(fed, c, fed + [c], n, q);
    if |w| == n {
      TallyCounts(before, w, q);
    }
  }

  /** How the pending characters follow the fed ones: a character completes a window exactly when
      `n` are then pending, and that window is the last `n` characters fed. */
  lemma PendingStep(fed: seq<char>, c: char, n: int)
    ensures var w := Pending(fed, n) + [c]; var text := fed + [c];
      (|w| == n <==> n >= 1 && |text| >= n) &&
      (|w| == n ==> w == text[|text| - n..] && w[1..] == Pending(text, n)) &&
      (|w| != n ==> w == Pending(text, n)) &&
      (n >= 1 ==> |Pending(text, n)| < n)
  {
  }

  /** Feeding a whole text character by character. */
  method BuildTrie(text: seq<char>, n: int) returns (builder: TrieBuilder)
    requires forall k :: 0 <= k < |text| ==> IsSymbol(text[k])
    ensures builder.Valid() && builder.fed == text && builder.n == n
  {
    builder := new TrieBuilder(n);
    for k := 0 to |text|
      invariant builder.Valid() && builder.fed == text[..k] && builder.n == n
    {
      assert text[..k + 1] == text[..k] + [text[k]];
      builder.Feed(text[k]);
    }
    assert text[..|text|] == text;
  }

  // ---------------------------------------------------------------------------
  // Prettifying the generated prose.

  /** `s` holds no space. */
  predicate NoSpace(s: string)
  {
    forall k :: 0 <= k < |s| ==> s[k] != ' '
  }

  /** `text.find(' ')`: the index of the first space, or -1 standing for `npos` when there is none. */
  function FindSpace(s: string): (p: int)
    ensures -1 <= p < |s|
    ensures p == -1 <==> NoSpace(s)
    ensures p >= 0 ==> s[p] == ' ' && NoSpace(s[..p])
  {
    if |s| == 0 then -1
    else if s[0] == ' ' then 0
    else
      var p := FindSpace(s[1..]);
      if p == -1 then -1
      else
        assert s[..p + 1] == [s[0]] + s[1..][..p];
        p + 1
  }

  /** The space-terminated tokens of `s`, in order. */
  function SpaceTokens(s: string): seq<string>
    decreases |s|
  {
    var p := FindSpace(s);
    if p < 0 then [] else [s[..p]] + SpaceTokens(s[p + 1..])
  }

  /** What is left of `s` once its space-terminated tokens are erased. */
  function Rest(s: string): string
    decreases |s|
  {
    var p := FindSpace(s);
    if p < 0 then s else Rest(s[p + 1..])
  }

  /** The tokens, each followed by a space, then the rest. */
  function Unsplit(tokens: seq<string>, rest: string): string
  {
    if |tokens| == 0 then rest else tokens[0] + " " + Unsplit(tokens[1..], rest)
  }

  /** Splitting at spaces loses nothing: the tokens and the rest rebuild the string. */
  lemma {:induction false} SplitRoundTrip(s: string)
    ensures Unsplit(SpaceTokens(s), Rest(s)) == s
  {
    var p := FindSpace(s);
    if p >= 0 {
      var tail := s[p + 1..];
      SplitRoundTrip(tail);
      UnsplitCons(s[..p], SpaceTokens(tail), Rest(tail));
      Around(s, p);
    }
  }

  /** A string is what comes before a space, the space, and what follows. */
  lemma Around(s: string, p: int)
    requires 0 <= p < |s| && s[p] == ' '
    ensures s == s[..p] + " " + s[p + 1..]
  {
    assert s == s[..p] + [s[p]] + s[p + 1..];
  }

  /** Rebuilding a first token. */
  lemma UnsplitCons(t: string, tokens: seq<string>, rest: string)
    ensures Unsplit([t] + tokens, rest) == t + " " + Unsplit(tokens, rest)
  {
    assert ([t] + tokens)[1..] == tokens;
  }

  /** A space with none before it is the first one. */
  lemma FirstSpaceAt(s: string, q: int)
    requires 0 <= q < |s| && s[q] == ' ' && NoSpace(s[..q])
    ensures FindSpace(s) == q
  {
  }

  /** The rest holds no space. */
  lemma {:induction false} RestNoSpace(s: string)
    ensures NoSpace(Rest(s))
  {
    var p := FindSpace(s);
    if p >= 0 {
      RestNoSpace(s[p + 1..]);
    }
  }

  /** No token holds a space. */
  lemma {:induction false} TokensNoSpace(s: string)
    ensures forall i :: 0 <= i < |SpaceTokens(s)| ==> NoSpace(SpaceTokens(s)[i])
  {
    var p := FindSpace(s);
    if p >= 0 {
      var tail := s[p + 1..];
      TokensNoSpace(tail);
      var tokens := SpaceTokens(s);
      assert tokens == [s[..p]] + SpaceTokens(tail);
      forall i | 0 <= i < |tokens|
        ensures NoSpace(tokens[i])
      {
        if i > 0 {
          assert tokens[i] == SpaceTokens(tail)[i - 1];
        }
      }
    }
  }

  /** The text after the first token, which `prettify` throws out; it erases nothing when there is no space,
      because `npos + 1` wraps to zero. */
  function Body(text: string): string
  {
    var p := FindSpace(text);
    if p < 0 then text else text[p + 1..]
  }

  /** The first token does not matter: replacing it by any other word leaves the body unchanged. */
  lemma FirstTokenIgnored(text: string, x: string)
    requires !NoSpace(text) && NoSpace(x)
    ensures Body(x + text[FindSpace(text)..]) == Body(text)
  {
    var p := FindSpace(text);
    var y := x + text[p..];
    assert y[|x|] == ' ' && y[..|x|] == x;
    FirstSpaceAt(y, |x|);
    assert y[|x| + 1..] == text[p + 1..];
  }

  /** `std::toupper` in the C locale. */
  function Upper(c: char): char
  {
    if 'a' <= c <= 'z' then (c as int - 32) as char else c
  }

  /** The pronoun rule: "i", "i," and "i." become "I", "I," and "I.". */
  function Pronoun(t: string): string
  {
    if t == "i" then "I" else if t == "i," then "I," else if t == "i." then "I." else t
  }

  /** A token as `prettify` writes it: the pronoun rule, then the first character upper-cased outside a sentence. */
  function Fix(t: string, inSentence: bool): string
    requires |t| > 0
  {
    var u := Pronoun(t);
    if inSentence then u else [Upper(u[0])] + u[1..]
  }

  /** Fixing a token changes at most its first character, which is upper-cased outside a sentence or for the pronoun. */
  lemma FixShape(t: string, inSentence: bool)
    requires |t| > 0
    ensures |Fix(t, inSentence)| == |t| && Fix(t, inSentence)[1..] == t[1..]
    ensures Fix(t, inSentence)[0] == if !inSentence || t in {"i", "i,", "i."} then Upper(t[0]) else t[0]
  {
    var u := Pronoun(t);
    if t in {"i", "i,", "i."} {
      assert u[0] == 'I' && t[0] == 'i' && u[1..] == t[1..];
    }
  }

  /** A fixed token ends in a period exactly when the token does, and holds a newline exactly when the token does. */
  lemma FixEnd(t: string, inSentence: bool)
    requires |t| > 0
    ensures Fix(t, inSentence)[|t| - 1] == '.' <==> t[|t| - 1] == '.'
    ensures '\n' in Fix(t, inSentence) <==> '\n' in t
  {
    FixShape(t, inSentence);
    var f := Fix(t, inSentence);
    assert f == [f[0]] + t[1..] && t == [t[0]] + t[1..];
    if |t| > 1 {
      assert f[|t| - 1] == t[1..][|t| - 2] == t[|t| - 1];
    }
  }

  /** The state of the prettifier: the prose so far, the length of its last line, and whether a sentence is open. */
  datatype Layout = Layout(prose: string, lineLength: nat, inSentence: bool)

  /** One token of the loop: a token ending in a period closes the sentence and a blank line follows it; any other
      token is followed by a space. A newline comes first when the token would reach `lineWidth`. */
  function Emit(st: Layout, token: string, lineWidth: nat): Layout
    requires |token| > 0
  {
    var t := Fix(token, st.inSentence);
    if t[|t| - 1] == '.' then
      if st.lineLength + |t| + 1 >= lineWidth then Layout(st.prose + "\n" + t + "\n\n", 0, false)
      else Layout(st.prose + t + "\n\n", 0, false)
    else
      if st.lineLength + |t| + 1 >= lineWidth then Layout(st.prose + "\n" + t + " ", |t| + 1, true)
      else Layout(st.prose + t + " ", st.lineLength + |t| + 1, true)
  }

  /** All tokens are non-empty: `token[token.size() - 1]` reads before an empty token. */
  predicate NonEmpty(tokens: seq<string>)
  {
    forall i :: 0 <= i < |tokens| ==> |tokens[i]| > 0
  }

  /** The loop over all tokens. */
  function Render(st: Layout, tokens: seq<string>, lineWidth: nat): Layout
    requires NonEmpty(tokens)
    decreases |tokens|
  {
    if |tokens| == 0 then st else Render(Emit(st, tokens[0], lineWidth), tokens[1..], lineWidth)
  }

  /** The prose with an ellipsis when the last sentence is open. */
  function Ending(st: Layout): string
  {
    if st.inSentence then st.prose + "...\n" else st.prose
  }

  /** The texts `prettify` is defined on: no empty token follows the first one. */
  predicate Prettifiable(text: string)
  {
    NonEmpty(SpaceTokens(Body(text)))
  }

  /** What `prettify` returns, and what it leaves in `text`. */
  function Prettified(text: string, lineWidth: nat): (string, string)
    requires Prettifiable(text)
  {
    var body := Body(text);
    (Ending(Render(Layout("", 0, false), SpaceTokens(body), lineWidth)), Rest(body))
  }

  /** The body of the loop of `prettify` for one token. */
  method EmitToken(prose: string, lineLength: nat, inSentence: bool, raw: string, lineWidth: nat)
    returns (prose': string, lineLength': nat, inSentence': bool)
    requires |raw| > 0
    ensures Layout(prose', lineLength', inSentence') == Emit(Layout(prose, lineLength, inSentence), raw, lineWidth)
  {
    var token := raw;
    if token == "i" {
      token := "I";
    } else if token == "i," {
      token := "I,";
    } else if token == "i." {
      token := "I.";
    }
    if !inSentence {
      token := [Upper(token[0])] + token[1..];
    }
    assert token == Fix(raw, inSentence);
    if token[|token| - 1] == '.' {
      if lineLength + |token| + 1 >= lineWidth {
        prose' := prose + "\n" + token + "\n\n";
        inSentence' := false;
        lineLength' := 0;
      } else {
        prose' := prose + token + "\n\n";
        lineLength' := 0;
        inSentence' := false;
      }
    } else {
      if lineLength + |token| + 1 >= lineWidth {
        prose' := prose + "\n" + token + " ";
        lineLength' := |token| + 1;
        inSentence' := true;
      } else {
        prose' := prose + token + " ";
        lineLength' := lineLength + |token| + 1;
        inSentence' := true;
      }
    }
  }

  /** The loop of `prettify`: emit every space-terminated token of `text`, erasing it. */
  method EmitAll(text: string, lineWidth: nat) returns (prose: string, lineLength: nat, inSentence: bool, rest: string)
    requires NonEmpty(SpaceTokens(text))
    ensures Layout(prose, lineLength, inSentence) == Render(Layout("", 0, false), SpaceTokens(text), lineWidth)
    ensures rest == Rest(text)
  {
    prose, lineLength, inSentence := "", 0, false;
    rest := text;
    var position := FindSpace(rest);
    while position >= 0
      invariant position == FindSpace(rest)
      invariant NonEmpty(SpaceTokens(rest)) && Rest(rest) == Rest(text)
      invariant Render(Layout(prose, lineLength, inSentence), SpaceTokens(rest), lineWidth)
        == Render(Layout("", 0, false), SpaceTokens(text), lineWidth)
      decreases |rest|
    {
      var token := rest[..position];
      assert SpaceTokens(rest)[0] == token;
      assert SpaceTokens(rest)[1..] == SpaceTokens(rest[position + 1..]);
      prose, lineLength, inSentence := EmitToken(prose, lineLength, inSentence, token, lineWidth);
      rest := rest[position + 1..];
      position := FindSpace(rest);
    }
    assert SpaceTokens(rest) == [];
  }

  /** `prettify(text, line_width)`: returns the prose and leaves `text` holding the fragment after its last space. */
  method Prettify(text: string, lineWidth: nat) returns (prose: string, rest: string)
    requires Prettifiable(text)
    ensures (prose, rest) == Prettified(text, lineWidth)
    ensures NoSpace(text) ==> prose == "" && rest == text
  {
    rest := text;
    var position := FindSpace(rest);
    // Throw out the first token.
    if position >= 0 {
      rest := rest[position + 1..];
    }
    var lineLength, inSentence;
    prose, lineLength, inSentence, rest := EmitAll(rest, lineWidth);
    if inSentence {
      prose := prose + "...\n";
    }
  }

  /** `s` ends with `t`. */
  predicate EndsWith(s: string, t: string)
  {
    |t| <= |s| && s[|s| - |t|..] == t
  }

  /** A token's last character. */
  function LastChar(t: string): char
    requires |t| > 0
  {
    t[|t| - 1]
  }

  /** After one token the sentence is open exactly when the token does not end in a period; a closed sentence
      leaves the prose ending in a blank line. */
  lemma EmitSentence(st: Layout, token: string, lineWidth: nat)
    requires |token| > 0
    ensures Emit(st, token, lineWidth).inSentence <==> LastChar(token) != '.'
    ensures !Emit(st, token, lineWidth).inSentence ==> EndsWith(Emit(st, token, lineWidth).prose, "\n\n")
  {
    FixEnd(token, st.inSentence);
  }

  /** After the loop the sentence is open exactly when the last token does not end in a period, and a closed
      sentence after at least one token leaves the prose ending in a blank line. */
  lemma {:induction false} RenderSentence(st: Layout, tokens: seq<string>, lineWidth: nat)
    requires NonEmpty(tokens) && |tokens| > 0
    ensures Render(st, tokens, lineWidth).inSentence <==> LastChar(tokens[|tokens| - 1]) != '.'
    ensures !Render(st, tokens, lineWidth).inSentence ==> EndsWith(Render(st, tokens, lineWidth).prose, "\n\n")
    decreases |tokens|
  {
    if |tokens| == 1 {
      EmitSentence(st, tokens[0], lineWidth);
    } else {
      RenderSentence(Emit(st, tokens[0], lineWidth), tokens[1..], lineWidth);
      assert tokens[1..][|tokens| - 2] == tokens[|tokens| - 1];
    }
  }

  /** The output ends in an ellipsis exactly when there was a token after the first and the last of them does not end
      in a period. */
  lemma Ellipsis(text: string, lineWidth: nat)
    requires Prettifiable(text)
    ensures var tokens := SpaceTokens(Body(text));
      EndsWith(Prettified(text, lineWidth).0, "...\n") <==> |tokens| > 0 && LastChar(tokens[|tokens| - 1]) != '.'
  {
    var tokens := SpaceTokens(Body(text));
    var st := Render(Layout("", 0, false), tokens, lineWidth);
    var out := Prettified(text, lineWidth).0;
    if |tokens| > 0 {
      RenderSentence(Layout("", 0, false), tokens, lineWidth);
    }
    if st.inSentence {
      assert out[|out| - 4..] == "...\n";
    } else if |out| >= 4 {
      assert out[|out| - 2] == '\n';
      assert out[|out| - 4..][2] == '\n';
    }
  }

  /** What `prettify` leaves in `text` is the fragment after its last space: it holds no space, ends the text, and
      follows a space unless the text has none. */
  lemma Leftover(text: string)
    ensures NoSpace(Rest(Body(text)))
    ensures EndsWith(text, Rest(Body(text)))
    ensures !NoSpace(text) ==> |text| > |Rest(Body(text))| && text[|text| - |Rest(Body(text))| - 1] == ' '
  {
    RestNoSpace(Body(text));
    LeftoverOf(text, Body(text), Rest(Body(text)));
  }

  /** `Leftover`, with the body and the rest named. */
  lemma LeftoverOf(text: string, body: string, rest: string)
    requires body == Body(text) && rest == Rest(body)
    ensures EndsWith(text, rest)
    ensures !NoSpace(text) ==> |text| > |rest| && text[|text| - |rest| - 1] == ' '
  {
    var p := FindSpace(text);
    if p >= 0 {
      LeftoverSpaced(text, p, body, rest);
    } else {
      assert body == text && rest == text;
      assert text[|text| - |text|..] == text;
    }
  }

  /** `Leftover` for a text with a space, the first at `p`. */
  lemma LeftoverSpaced(text: string, p: int, body: string, rest: string)
    requires 0 <= p < |text| && text[p] == ' ' && body == text[p + 1..] && rest == Rest(body)
    ensures EndsWith(text, rest) && |text| > |rest| && text[|text| - |rest| - 1] == ' '
  {
    var tokens := SpaceTokens(body);
    SplitRoundTrip(body);
    SuffixOfUnsplit(tokens, rest);
    SuffixAfterSpace(text, p, body, rest, |tokens| > 0);
  }

  /** A suffix of the part after a space at `p` is a suffix of the whole, following a space. */
  lemma SuffixAfterSpace(text: string, p: int, body: string, rest: string, spaced: bool)
    requires 0 <= p < |text| && text[p] == ' ' && body == text[p + 1..] && EndsWith(body, rest)
    requires spaced ==> |body| > |rest| && body[|body| - |rest| - 1] == ' '
    requires !spaced ==> rest == body
    ensures EndsWith(text, rest) && |text| > |rest| && text[|text| - |rest| - 1] == ' '
  {
    var k := |rest|;
    assert text[|text| - k..] == body[|body| - k..];
    if spaced {
      assert text[|text| - k - 1] == body[|body| - k - 1];
    }
  }

  /** The rest ends the rebuilt string, after a space when there is a token. */
  lemma {:induction false} SuffixOfUnsplit(tokens: seq<string>, rest: string)
    ensures var s := Unsplit(tokens, rest); EndsWith(s, rest) && (|tokens| > 0 ==> |s| > |rest| && s[|s| - |rest| - 1] == ' ')
  {
    if |tokens| > 0 {
      SuffixOfUnsplit(tokens[1..], rest);
      var u := Unsplit(tokens[1..], rest);
      var s := tokens[0] + " " + u;
      assert s[|s| - |u|..] == u;
      if |tokens| == 1 {
        assert u == rest;
      }
    }
  }

  /** The length of the last line of `s`. */
  function LastLineLength(s: string): nat
  {
    if |s| == 0 then 0 else if s[|s| - 1] == '\n' then 0 else LastLineLength(s[..|s| - 1]) + 1
  }

  /** Appending text without a newline lengthens the last line by that much. */
  lemma {:induction false} LineExtended(s: string, t: string)
    requires '\n' !in t
    ensures LastLineLength(s + t) == LastLineLength(s) + |t|
    decreases |t|
  {
    if |t| == 0 {
      assert s + t == s;
    } else {
      var front := t[..|t| - 1];
      LineExtended(s, front);
      assert (s + t)[..|s + t| - 1] == s + front;
    }
  }

  /** After a newline the last line is what follows it. */
  lemma LineAfterNewline(s: string, t: string)
    requires '\n' !in t
    ensures LastLineLength(s + "\n" + t) == |t|
  {
    LineExtended(s + "\n", t);
  }

  /** `line_length` is the length of the last line written, as long as no token holds a newline, and a line reaches
      `lineWidth` only when it holds a single token. */
  lemma EmitLine(st: Layout, token: string, lineWidth: nat)
    requires |token| > 0 && '\n' !in token && st.lineLength == LastLineLength(st.prose)
    ensures Emit(st, token, lineWidth).lineLength == LastLineLength(Emit(st, token, lineWidth).prose)
    ensures var next := Emit(st, token, lineWidth);
      next.lineLength >= lineWidth && next.lineLength > 0 ==> next.lineLength == |token| + 1
  {
    FixShape(token, st.inSentence);
    FixEnd(token, st.inSentence);
    var t := Fix(token, st.inSentence);
    var p := st.prose;
    var next := Emit(st, token, lineWidth);
    if LastChar(t) == '.' {
      assert next.lineLength == 0 && next.prose[|next.prose| - 1] == '\n';
    } else if st.lineLength + |t| + 1 >= lineWidth {
      assert next == Layout(p + "\n" + t + " ", |t| + 1, true);
      LineAfterNewline(p, t);
      LineExtended(p + "\n" + t, " ");
    } else {
      assert next == Layout(p + t + " ", st.lineLength + |t| + 1, true);
      LineExtended(p, t);
      LineExtended(p + t, " ");
    }
  }

  /** Over the whole loop `line_length` stays the length of the last line written. */
  lemma {:induction false} RenderLine(st: Layout, tokens: seq<string>, lineWidth: nat)
    requires NonEmpty(tokens) && st.lineLength == LastLineLength(st.prose)
    requires forall i :: 0 <= i < |tokens| ==> '\n' !in tokens[i]
    ensures Render(st, tokens, lineWidth).lineLength == LastLineLength(Render(st, tokens, lineWidth).prose)
    decreases |tokens|
  {
    if |tokens| > 0 {
      EmitLine(st, tokens[0], lineWidth);
      RenderLine(Emit(st, tokens[0], lineWidth), tokens[1..], lineWidth);
    }
  }
}
