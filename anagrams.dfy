// Anagram discovery over a corpus of lines: the 28-entry letter-count key of a
// word, the per-line tokenizer that lower-cases letters and joins '-' and '\''
// inside words, the word set and the map from key to anagram group, and the
// ragged-right display of the groups with more than one word.

module Anagrams {

  // ---------------------------------------------------------------------------
  // Characters.

  /** `is_alphabetical`: an ASCII letter of either case. */
  predicate IsAlphabetical(ch: char)
  {
    ('a' <= ch <= 'z') || ('A' <= ch <= 'Z')
  }

  /** The two characters that may join the parts of a word. */
  predicate IsJoiner(ch: char)
  {
    ch == '-' || ch == '\''
  }

  /** `std::tolower` on ASCII: upper-case letters become lower-case, everything else is kept. */
  function ToLower(ch: char): (r: char)
    ensures IsAlphabetical(ch) ==> 'a' <= r <= 'z'
    ensures !('A' <= ch <= 'Z') ==> r == ch
  {
    if 'A' <= ch <= 'Z' then (ch as int + 32) as char else ch
  }

  /** A character a key can count: a lower-case letter, a hyphen or an apostrophe. */
  predicate IsKeyChar(ch: char)
  {
    ('a' <= ch <= 'z') || IsJoiner(ch)
  }

  /** Every character of `w` is one the key counts. */
  predicate KeyChars(w: string)
  {
    forall j :: 0 <= j < |w| ==> IsKeyChar(w[j])
  }

  // ---------------------------------------------------------------------------
  // make_anagram_key.

  /** The number of entries of the key: 26 letters, the hyphen and the apostrophe. */
  const KeySize: nat := 28

  /** The key slot of a character: `ch - 97` for a letter, 26 for '-', 27 for '\''. */
  function Slot(ch: char): (r: nat)
    requires IsKeyChar(ch)
    ensures r < KeySize
  {
    if ch == '-' then 26 else if ch == '\'' then 27 else ch as int - 'a' as int
  }

  /** The character counted in slot `i`. */
  function SlotChar(i: nat): (ch: char)
    requires i < KeySize
    ensures IsKeyChar(ch) && Slot(ch) == i
  {
    if i == 26 then '-' else if i == 27 then '\'' else ('a' as int + i) as char
  }

  /** Slots tell key characters apart. */
  lemma SlotInjective(x: char, y: char)
    requires IsKeyChar(x) && IsKeyChar(y) && Slot(x) == Slot(y)
    ensures x == y
  {
  }

  /** The number of times `ch` occurs in `w`. */
  function Count(w: string, ch: char): nat
  {
    if |w| == 0 then 0 else Count(w[..|w| - 1], ch) + (if w[|w| - 1] == ch then 1 else 0)
  }

  /** `Count` is the multiplicity in the multiset of characters. */
  lemma {:induction false} CountMultiset(w: string, ch: char)
    ensures Count(w, ch) == multiset(w)[ch]
  {
    if |w| > 0 {
      CountMultiset(w[..|w| - 1], ch);
      assert w == w[..|w| - 1] + [w[|w| - 1]];
    }
  }

  /** The key of `w`: slot `i` holds the count of its character, in a `uint8_t` that wraps at 256. */
  function Key(w: string): (k: seq<nat>)
    ensures |k| == KeySize
  {
    seq(KeySize, i requires 0 <= i < KeySize => Count(w, SlotChar(i)) % 256)
  }

  /** Appending a character adds one, modulo 256, to its slot only. */
  lemma KeyAppend(w: string, ch: char)
    requires IsKeyChar(ch)
    ensures forall i :: 0 <= i < KeySize ==>
      Key(w + [ch])[i] == if i == Slot(ch) then (Key(w)[i] + 1) % 256 else Key(w)[i]
  {
    var v := w + [ch];
    assert v[..|v| - 1] == w;
    forall i | 0 <= i < KeySize
      ensures Key(v)[i] == if i == Slot(ch) then (Key(w)[i] + 1) % 256 else Key(w)[i]
    {
      var c := SlotChar(i);
      if c == ch {
        WrapAdd(Count(w, c));
      } else if i == Slot(ch) {
        SlotInjective(c, ch);
      }
    }
  }

  /** `(x mod 256 + 1) mod 256 == (x + 1) mod 256`. */
  lemma WrapAdd(x: nat)
    ensures (x % 256 + 1) % 256 == (x + 1) % 256
  {
  }

  /** `make_anagram_key`: zeroes the 28 entries, then increments the slot of each character. */
  method MakeAnagramKey(word: string, key: array<nat>)
    requires key.Length == KeySize && KeyChars(word)
    modifies key
    ensures key[..] == Key(word)
  {
    for i := 0 to KeySize
      invariant forall j :: 0 <= j < i ==> key[j] == 0
    {
      key[i] := 0;
    }
    assert key[..] == Key(word[..0]);
    for n := 0 to |word|
      invariant key[..] == Key(word[..n])
    {
      var ch := word[n];
      KeyAppend(word[..n], ch);
      assert word[..n + 1] == word[..n] + [ch];
      var s := Slot(ch);
      key[s] := (key[s] + 1) % 256;
      assert key[..] == Key(word[..n + 1]);
    }
    assert word[..|word|] == word;
  }

  /** The sum of the entries of a key. */
  function Sum(k: seq<nat>): nat
  {
    if |k| == 0 then 0 else Sum(k[..|k| - 1]) + k[|k| - 1]
  }

  /** The counts of the key characters of a word, before wrapping. */
  function Counts(w: string, n: nat): (c: seq<nat>)
    requires n <= KeySize
    ensures |c| == n
  {
    seq(n, i requires 0 <= i < n => Count(w, SlotChar(i)))
  }

  /** Summing the first `n` counts after appending `ch`. */
  lemma {:induction false} SumCountsAppend(w: string, ch: char, n: nat)
    requires n <= KeySize && IsKeyChar(ch)
    ensures Sum(Counts(w + [ch], n)) == Sum(Counts(w, n)) + (if Slot(ch) < n then 1 else 0)
  {
    var v := w + [ch];
    assert v[..|v| - 1] == w;
    if n > 0 {
      SumCountsAppend(w, ch, n - 1);
      assert Counts(v, n)[..n - 1] == Counts(v, n - 1);
      assert Counts(w, n)[..n - 1] == Counts(w, n - 1);
      var c := SlotChar(n - 1);
      if c != ch && Slot(ch) == n - 1 {
        SlotInjective(c, ch);
      }
    }
  }

  /** The counts of a word over the key characters add up to its length. */
  lemma {:induction false} SumCounts(w: string)
    requires KeyChars(w)
    ensures Sum(Counts(w, KeySize)) == |w|
  {
    if |w| == 0 {
      ZeroCounts(w, KeySize);
    } else {
      var u := w[..|w| - 1];
      assert w == u + [w[|w| - 1]];
      SumCounts(u);
      SumCountsAppend(u, w[|w| - 1], KeySize);
    }
  }

  /** The empty word counts nothing. */
  lemma {:induction false} ZeroCounts(w: string, n: nat)
    requires |w| == 0 && n <= KeySize
    ensures Sum(Counts(w, n)) == 0
  {
    if n > 0 {
      ZeroCounts(w, n - 1);
      assert Counts(w, n)[..n - 1] == Counts(w, n - 1);
    }
  }

  /** A character occurs no more often than the word is long. */
  lemma CountBound(w: string, ch: char)
    ensures Count(w, ch) <= |w|
  {
    CountMultiset(w, ch);
    assert multiset(w)[ch] <= |multiset(w)|;
  }

  /** A word shorter than 256 has no wrapped slot. */
  lemma NoWrap(w: string)
    requires |w| < 256
    ensures Key(w) == Counts(w, KeySize)
  {
    forall i | 0 <= i < KeySize
      ensures Key(w)[i] == Counts(w, KeySize)[i]
    {
      CountBound(w, SlotChar(i));
    }
  }

  /** The key entries of a word shorter than 256 sum to its length. */
  lemma KeySum(w: string)
    requires KeyChars(w) && |w| < 256
    ensures Sum(Key(w)) == |w|
  {
    NoWrap(w);
    SumCounts(w);
  }

  /** Two words shorter than 256 have the same key exactly when one is a rearrangement of the other. */
  lemma KeyAnagram(u: string, v: string)
    requires KeyChars(u) && KeyChars(v) && |u| < 256 && |v| < 256
    ensures Key(u) == Key(v) <==> multiset(u) == multiset(v)
  {
    NoWrap(u);
    NoWrap(v);
    if Key(u) == Key(v) {
      forall ch
        ensures multiset(u)[ch] == multiset(v)[ch]
      {
        CountMultiset(u, ch);
        CountMultiset(v, ch);
        if IsKeyChar(ch) {
          assert Counts(u, KeySize)[Slot(ch)] == Counts(v, KeySize)[Slot(ch)];
        } else {
          Absent(u, ch);
          Absent(v, ch);
        }
      }
    } else {
      var i :| 0 <= i < KeySize && Key(u)[i] != Key(v)[i];
      CountMultiset(u, SlotChar(i));
      CountMultiset(v, SlotChar(i));
    }
  }

  /** A character the key does not count does not occur in a word of key characters. */
  lemma Absent(w: string, ch: char)
    requires KeyChars(w) && !IsKeyChar(ch)
    ensures multiset(w)[ch] == 0
  {
  }

  // ---------------------------------------------------------------------------
  // The per-line tokenizer.

  /** Position `i` lies in a word: a letter, or a joiner with a letter on each side. */
  predicate Joined(line: string, i: nat)
    requires i < |line|
  {
    IsAlphabetical(line[i]) ||
    (IsJoiner(line[i]) && 0 < i < |line| - 1 && IsAlphabetical(line[i - 1]) && IsAlphabetical(line[i + 1]))
  }

  /** The line does not end in a joiner right after a letter, where the scan would read past its end. */
  predicate SafeLine(line: string)
  {
    !(|line| >= 2 && IsJoiner(line[|line| - 1]) && IsAlphabetical(line[|line| - 2]))
  }

  /** The locals of the scanning loop, and the words it has passed to the recording step so far. */
  datatype ScanState = ScanState(inWord: bool, word: string, recorded: seq<string>)

  /** One pass of the scanning loop at position `i`. */
  function Step(line: string, i: nat, st: ScanState): ScanState
    requires i < |line| && (st.inWord && IsJoiner(line[i]) ==> i + 1 < |line|)
  {
    var ch := line[i];
    if !st.inWord && IsAlphabetical(ch) then ScanState(true, [ToLower(ch)], st.recorded)
    else if st.inWord && IsAlphabetical(ch) then ScanState(true, st.word + [ToLower(ch)], st.recorded)
    else if st.inWord && IsJoiner(ch) && IsAlphabetical(line[i + 1]) then ScanState(true, st.word + [ToLower(ch)], st.recorded)
    else ScanState(false, st.word, st.recorded + [st.word])
  }

  /** The state of the scan after the first `n` positions: it is inside a word exactly after a word position. */
  function ScanPrefix(line: string, n: nat): (st: ScanState)
    requires n <= |line| && SafeLine(line)
    ensures st.inWord <==> n > 0 && Joined(line, n - 1)
  {
    if n == 0 then ScanState(false, [], [])
    else
      var st := ScanPrefix(line, n - 1);
      assert st.inWord && IsJoiner(line[n - 1]) ==> n < |line|;
      Step(line, n - 1, st)
  }

  /** The first position of the word that holds position `n - 1`. */
  function RunStart(line: string, n: nat): (s: nat)
    requires 0 < n <= |line| && Joined(line, n - 1)
    ensures s < n && (s == 0 || !Joined(line, s - 1))
    ensures forall j :: s <= j < n ==> Joined(line, j)
  {
    if n - 1 > 0 && Joined(line, n - 2) then RunStart(line, n - 1) else n - 1
  }

  /** `std::tolower` on every character. */
  function Lowered(s: string): (r: string)
    ensures |r| == |s| && forall j :: 0 <= j < |s| ==> r[j] == ToLower(s[j])
  {
    seq(|s|, j requires 0 <= j < |s| => ToLower(s[j]))
  }

  /** The lower-cased word whose last position is `n - 1`. */
  function RunWord(line: string, n: nat): string
    requires 0 < n <= |line| && Joined(line, n - 1)
  {
    Lowered(line[RunStart(line, n)..n])
  }

  /** A word ends at position `e - 1` and the character at `e` closes it. */
  predicate Closed(line: string, e: nat)
  {
    0 < e < |line| && Joined(line, e - 1) && !Joined(line, e)
  }

  /** A word ends at position `e - 1`, closed by a character or by the end of the line. */
  predicate WordEnd(line: string, e: nat)
  {
    0 < e <= |line| && Joined(line, e - 1) && (e == |line| || !Joined(line, e))
  }

  /** Inside a word, the scan's `word` is that word so far, lower-cased. */
  lemma {:induction false} ScanWord(line: string, n: nat)
    requires n <= |line| && SafeLine(line)
    ensures ScanPrefix(line, n).inWord ==> ScanPrefix(line, n).word == RunWord(line, n)
  {
    if n > 0 && Joined(line, n - 1) {
      ScanWord(line, n - 1);
      var s := RunStart(line, n);
      if n - 1 > 0 && Joined(line, n - 2) {
        assert line[s..n] == line[s..n - 1] + [line[n - 1]];
      }
    }
  }

  /** What the scan records: the empty word, or a word closed before position `n`. */
  ghost predicate Sound(line: string, n: nat, w: string)
  {
    w == [] || exists e: nat :: Closed(line, e) && e < n && w == RunWord(line, e)
  }

  /** Everything recorded, and the word kept after a word ends, is the empty word or a word
      closed before position `n`. */
  lemma {:induction false} ScanSound(line: string, n: nat)
    requires n <= |line| && SafeLine(line)
    ensures forall k :: 0 <= k < |ScanPrefix(line, n).recorded| ==> Sound(line, n, ScanPrefix(line, n).recorded[k])
    ensures !ScanPrefix(line, n).inWord ==> Sound(line, n, ScanPrefix(line, n).word)
  {
    if n > 0 {
      ScanSound(line, n - 1);
      ScanWord(line, n - 1);
      var st := ScanPrefix(line, n - 1);
      var st' := ScanPrefix(line, n);
      forall k | 0 <= k < |st.recorded|
        ensures Sound(line, n, st.recorded[k])
      {
        SoundGrows(line, n - 1, st.recorded[k]);
      }
      if !st'.inWord {
        if st.inWord {
          assert Closed(line, n - 1) && st.word == RunWord(line, n - 1);
        } else {
          SoundGrows(line, n - 1, st.word);
        }
        assert st'.recorded == st.recorded + [st.word];
      }
    }
  }

  /** Every word closed before position `n` has been recorded. */
  lemma {:induction false} ScanComplete(line: string, n: nat)
    requires n <= |line| && SafeLine(line)
    ensures forall e: nat :: Closed(line, e) && e < n ==> RunWord(line, e) in ScanPrefix(line, n).recorded
  {
    if n > 0 {
      ScanComplete(line, n - 1);
      ScanWord(line, n - 1);
      var st := ScanPrefix(line, n - 1);
      var st' := ScanPrefix(line, n);
      assert forall x :: x in st.recorded ==> x in st'.recorded;
      if Closed(line, n - 1) {
        assert st.inWord && !st'.inWord;
        assert st'.recorded == st.recorded + [st.word];
      }
    }
  }

  /** Soundness carries over to a longer prefix. */
  lemma SoundGrows(line: string, n: nat, w: string)
    requires Sound(line, n, w)
    ensures Sound(line, n + 1, w)
  {
  }

  /** The scan as written never records a line made of one word, since it records a word only
      when a later character closes it. */
  lemma SingleWordLost(line: string)
    requires |line| > 0 && SafeLine(line) && forall j :: 0 <= j < |line| ==> IsAlphabetical(line[j])
    ensures WordEnd(line, |line|) && RunWord(line, |line|) == Lowered(line)
    ensures ScanPrefix(line, |line|).recorded == []
  {
    NothingRecorded(line, |line|);
    assert RunStart(line, |line|) == 0 by {
      AllStart(line, |line|);
    }
    assert line[0..|line|] == line;
  }

  /** Scanning letters records nothing. */
  lemma {:induction false} NothingRecorded(line: string, n: nat)
    requires n <= |line| && SafeLine(line) && forall j :: 0 <= j < |line| ==> IsAlphabetical(line[j])
    ensures ScanPrefix(line, n).recorded == []
  {
    if n > 0 {
      NothingRecorded(line, n - 1);
    }
  }

  /** In a line of letters every word starts at 0. */
  lemma {:induction false} AllStart(line: string, n: nat)
    requires 0 < n <= |line| && forall j :: 0 <= j < |line| ==> IsAlphabetical(line[j])
    ensures RunStart(line, n) == 0
  {
    if n > 1 {
      AllStart(line, n - 1);
    }
  }

  /** The corrected tokens of a line: what the scan records, then the word still open at the end. */
  function Tokens(line: string): seq<string>
    requires SafeLine(line)
  {
    var st := ScanPrefix(line, |line|);
    if st.inWord then st.recorded + [st.word] else st.recorded
  }

  /** Every word of the line is among its tokens, and every token is a word of the line or empty. */
  lemma TokensComplete(line: string)
    requires SafeLine(line)
    ensures forall e: nat :: WordEnd(line, e) ==> RunWord(line, e) in Tokens(line)
    ensures forall k :: 0 <= k < |Tokens(line)| ==>
      (Tokens(line)[k] == [] || exists e: nat :: WordEnd(line, e) && Tokens(line)[k] == RunWord(line, e))
  {
    ScanSound(line, |line|);
    ScanComplete(line, |line|);
    ScanWord(line, |line|);
    var st := ScanPrefix(line, |line|);
    var t := Tokens(line);
    forall k | 0 <= k < |t|
      ensures t[k] == [] || exists e: nat :: WordEnd(line, e) && t[k] == RunWord(line, e)
    {
      if k < |st.recorded| {
        assert Sound(line, |line|, st.recorded[k]);
      } else {
        assert WordEnd(line, |line|);
      }
    }
  }

  /** Position `j` of `w` is a lower-case letter, or a joiner between two of them. */
  predicate ShapeAt(w: string, j: nat)
    requires j < |w|
  {
    ('a' <= w[j] <= 'z') ||
    (IsJoiner(w[j]) && 0 < j < |w| - 1 && 'a' <= w[j - 1] <= 'z' && 'a' <= w[j + 1] <= 'z')
  }

  /** A word of lower-case letters in which each joiner sits between two letters. */
  predicate WordShape(w: string)
  {
    |w| > 0 && forall j :: 0 <= j < |w| ==> ShapeAt(w, j)
  }

  /** Each word the tokenizer finds is lower-cased, and joins a '-' or '\'' only between letters. */
  lemma RunShape(line: string, e: nat)
    requires WordEnd(line, e)
    ensures WordShape(RunWord(line, e)) && KeyChars(RunWord(line, e))
  {
    var s := RunStart(line, e);
    var w := RunWord(line, e);
    LetterShape(line, e, s, line[s..e], w);
    ShapeKeyChars(w);
  }

  /** The lower-cased letters of a word have the shape of a word. */
  lemma LetterShape(line: string, e: nat, s: nat, sl: string, w: string)
    requires WordEnd(line, e) && s == RunStart(line, e) && sl == line[s..e] && w == Lowered(sl)
    ensures WordShape(w)
  {
    forall j | 0 <= j < |w|
      ensures ShapeAt(w, j)
    {
      JoinerInside(line, e, s, j);
      assert w[j] == ToLower(sl[j]) && sl[j] == line[s + j];
      if 0 < j < |w| - 1 {
        assert w[j - 1] == ToLower(line[s + j - 1]) && w[j + 1] == ToLower(line[s + j + 1]);
      }
    }
  }

  /** A word of that shape can be keyed. */
  lemma ShapeKeyChars(w: string)
    requires WordShape(w)
    ensures KeyChars(w)
  {
    forall j | 0 <= j < |w|
      ensures IsKeyChar(w[j])
    {
      assert ShapeAt(w, j);
    }
  }

  /** A position of a word is a letter, or a joiner whose neighbours in the word are letters. */
  lemma JoinerInside(line: string, e: nat, s: nat, j: nat)
    requires WordEnd(line, e) && s == RunStart(line, e) && j < e - s
    ensures IsAlphabetical(line[s + j]) ||
      (IsJoiner(line[s + j]) && 0 < j < e - s - 1 && IsAlphabetical(line[s + j - 1]) && IsAlphabetical(line[s + j + 1]))
  {
    assert Joined(line, s + j);
  }

  /** Tokens can be keyed. */
  lemma TokensKeyChars(line: string)
    requires SafeLine(line)
    ensures forall k :: 0 <= k < |Tokens(line)| ==> KeyChars(Tokens(line)[k])
  {
    TokensComplete(line);
    forall k | 0 <= k < |Tokens(line)|
      ensures KeyChars(Tokens(line)[k])
    {
      if Tokens(line)[k] != [] {
        var e: nat :| WordEnd(line, e) && Tokens(line)[k] == RunWord(line, e);
        RunShape(line, e);
      }
    }
  }

  /** The scanning loop of `main` over one line, as written: a word is passed to the
      recording step only when a character outside every word follows it. */
  method ScanAsWritten(line: string) returns (inWord: bool, word: string, recorded: seq<string>)
    requires SafeLine(line)
    ensures ScanState(inWord, word, recorded) == ScanPrefix(line, |line|)
  {
    inWord := false;
    word := [];
    recorded := [];
    var i := 0;
    while i < |line|
      invariant 0 <= i <= |line|
      invariant ScanState(inWord, word, recorded) == ScanPrefix(line, i)
    {
      var ch := line[i];
      if !inWord && IsAlphabetical(ch) {
        inWord := true;
        word := [ToLower(ch)];
        i := i + 1;
        continue;
      }
      if inWord && IsAlphabetical(ch) {
        word := word + [ToLower(ch)];
        i := i + 1;
        continue;
      }
      assert inWord && IsJoiner(ch) ==> i + 1 < |line| && ScanPrefix(line, i + 1) == Step(line, i, ScanPrefix(line, i));
      if inWord && IsJoiner(ch) && IsAlphabetical(line[i + 1]) {
        word := word + [ToLower(ch)];
        i := i + 1;
        continue;
      }
      recorded := recorded + [word];
      inWord := false;
      i := i + 1;
    }
  }

  /** The tokens of a line, with the word still open at the end of the line recorded too. */
  method Tokenize(line: string) returns (tokens: seq<string>)
    requires SafeLine(line)
    ensures tokens == Tokens(line)
  {
    var inWord, word, recorded := ScanAsWritten(line);
    tokens := recorded;
    if inWord {
      tokens := tokens + [word];
    }
  }

  // ---------------------------------------------------------------------------
  // The word set and the anagram map.

  /** The `words` set and `anagram_map`, as values. */
  datatype Index = Index(words: set<string>, groups: map<seq<nat>, seq<string>>)

  /** The recording step: a word not yet in the set joins it and is appended to the group of its key. */
  function Insert(ix: Index, w: string): Index
  {
    if w in ix.words then ix
    else
      var k := Key(w);
      Index(ix.words + {w}, ix.groups[k := (if k in ix.groups then ix.groups[k] else []) + [w]])
  }

  /** Recording the words of `ws` in order. */
  function InsertAll(ix: Index, ws: seq<string>): Index
  {
    if |ws| == 0 then ix else Insert(InsertAll(ix, ws[..|ws| - 1]), ws[|ws| - 1])
  }

  /** The group of key `k` is not empty, has no repeated word, and holds only words of the set with key `k`. */
  ghost predicate GroupOk(ix: Index, k: seq<nat>)
    requires k in ix.groups
  {
    var g := ix.groups[k];
    |g| > 0 &&
    (forall i, j :: 0 <= i < j < |g| ==> g[i] != g[j]) &&
    (forall i :: 0 <= i < |g| ==> Key(g[i]) == k && g[i] in ix.words)
  }

  /** Every group is well formed and every word of the set is in the group of its key. */
  ghost predicate IndexOk(ix: Index)
  {
    (forall k :: k in ix.groups ==> GroupOk(ix, k)) &&
    (forall w :: w in ix.words ==> Key(w) in ix.groups && w in ix.groups[Key(w)])
  }

  /** Recording keeps the groups free of repeats, and each word in the group of its key. */
  lemma InsertOk(ix: Index, w: string)
    requires IndexOk(ix)
    ensures IndexOk(Insert(ix, w))
  {
    if w !in ix.words {
      var ix' := Insert(ix, w);
      var k := Key(w);
      forall k' | k' in ix'.groups
        ensures GroupOk(ix', k')
      {
        if k' == k {
          var g := if k in ix.groups then ix.groups[k] else [];
          var g' := g + [w];
          assert ix'.groups[k] == g';
          if k in ix.groups {
            assert GroupOk(ix, k);
          }
          forall i | 0 <= i < |g'| - 1
            ensures g'[i] != w
          {
            assert g'[i] == g[i] && g[i] in ix.words;
          }
        } else {
          assert GroupOk(ix, k');
        }
      }
    }
  }

  /** Recording adds the word to the set, and changes nothing when it is there already. */
  lemma InsertWords(ix: Index, w: string)
    ensures Insert(ix, w).words == ix.words + {w}
    ensures w in ix.words ==> Insert(ix, w) == ix
  {
  }

  /** After recording, the word is in the group of its key, and every group keeps its earlier words in place. */
  lemma InsertGroups(ix: Index, w: string)
    requires IndexOk(ix)
    ensures Key(w) in Insert(ix, w).groups && w in Insert(ix, w).groups[Key(w)]
    ensures forall k :: k in ix.groups ==> k in Insert(ix, w).groups && IsPrefix(ix.groups[k], Insert(ix, w).groups[k])
  {
    if w !in ix.words {
      var k := Key(w);
      var g := if k in ix.groups then ix.groups[k] else [];
      assert Insert(ix, w).groups[k] == g + [w];
      assert (g + [w])[|g|] == w;
      assert (g + [w])[..|g|] == g;
    }
  }

  /** `p` is a prefix of `q`: earlier words of a group stay in place. */
  predicate IsPrefix(p: seq<string>, q: seq<string>)
  {
    |p| <= |q| && q[..|p|] == p
  }

  /** The words occurring in `ws`. */
  function Elements(ws: seq<string>): (r: set<string>)
    ensures forall x :: x in r <==> x in ws
  {
    if |ws| == 0 then {}
    else
      var r := Elements(ws[..|ws| - 1]);
      assert ws == ws[..|ws| - 1] + [ws[|ws| - 1]];
      r + {ws[|ws| - 1]}
  }

  /** Recording a sequence of words adds exactly its words to the set and keeps the index well formed. */
  lemma {:induction false} InsertAllOk(ix: Index, ws: seq<string>)
    requires IndexOk(ix)
    ensures IndexOk(InsertAll(ix, ws))
    ensures InsertAll(ix, ws).words == ix.words + Elements(ws)
  {
    if |ws| > 0 {
      var front := ws[..|ws| - 1];
      InsertAllOk(ix, front);
      InsertOk(InsertAll(ix, front), ws[|ws| - 1]);
      InsertWords(InsertAll(ix, front), ws[|ws| - 1]);
    }
  }

  /** The word set and the anagram map of `main`, updated in place line by line. */
  class Corpus {
    var words: set<string>
    var anagramMap: map<seq<nat>, seq<string>>

    /** The state as a value. */
    function State(): Index
      reads this
    {
      Index(words, anagramMap)
    }

    /** Both start empty. */
    constructor ()
      ensures State() == Index({}, map[])
    {
      words := {};
      anagramMap := map[];
    }

    /** The recording step of the loop: a new word enters the set, is keyed, and starts or extends the group of its key. */
    method Record(word: string)
      requires KeyChars(word)
      modifies this
      ensures State() == Insert(old(State()), word)
    {
      if word !in words {
        words := words + {word};
        var key := new nat[KeySize];
        MakeAnagramKey(word, key);
        var k := key[..];
        if k !in anagramMap {
          assert [] + [word] == [word];
          anagramMap := anagramMap[k := [word]];
        } else {
          anagramMap := anagramMap[k := anagramMap[k] + [word]];
        }
      }
    }

    /** One line of the corpus: an empty line is skipped; otherwise every token is recorded in order. */
    method AddLine(line: string)
      requires SafeLine(line)
      modifies this
      ensures State() == InsertAll(old(State()), Tokens(line))
    {
      if |line| == 0 {
        return;
      }
      var tokens := Tokenize(line);
      TokensKeyChars(line);
      for t := 0 to |tokens|
        invariant State() == InsertAll(old(State()), tokens[..t])
      {
        assert tokens[..t + 1][..t] == tokens[..t];
        Record(tokens[t]);
      }
      assert tokens[..|tokens|] == tokens;
    }

    /** One line of the corpus as written: only the words the scan recorded are
        recorded, so the word still open at the end of the line is lost. */
    method AddLineAsWritten(line: string)
      requires SafeLine(line)
      modifies this
      ensures State() == InsertAll(old(State()), ScanPrefix(line, |line|).recorded)
    {
      if |line| == 0 {
        return;
      }
      var inWord, word, recorded := ScanAsWritten(line);
      RecordedKeyChars(line);
      for t := 0 to |recorded|
        invariant State() == InsertAll(old(State()), recorded[..t])
      {
        assert recorded[..t + 1][..t] == recorded[..t];
        Record(recorded[t]);
      }
      assert recorded[..|recorded|] == recorded;
    }
  }

  /** The words the scan as written records are among the corrected tokens, so
      they hold only key characters. */
  lemma RecordedKeyChars(line: string)
    requires SafeLine(line)
    ensures forall k :: 0 <= k < |ScanPrefix(line, |line|).recorded| ==> KeyChars(ScanPrefix(line, |line|).recorded[k])
  {
    TokensKeyChars(line);
    var st := ScanPrefix(line, |line|);
    forall k | 0 <= k < |st.recorded|
      ensures KeyChars(st.recorded[k])
    {
      assert st.recorded[k] == Tokens(line)[k];
    }
  }

  /** The tokens of all lines, in order. */
  function AllTokens(lines: seq<string>): seq<string>
    requires forall i :: 0 <= i < |lines| ==> SafeLine(lines[i])
  {
    if |lines| == 0 then [] else AllTokens(lines[..|lines| - 1]) + Tokens(lines[|lines| - 1])
  }

  /** Recording `a` then `b` is recording `a + b`. */
  lemma {:induction false} InsertAllAppend(ix: Index, a: seq<string>, b: seq<string>)
    ensures InsertAll(ix, a + b) == InsertAll(InsertAll(ix, a), b)
    decreases |b|
  {
    if |b| == 0 {
      assert a + b == a;
    } else {
      InsertAllAppend(ix, a, b[..|b| - 1]);
      assert (a + b)[..|a + b| - 1] == a + b[..|b| - 1];
    }
  }

  /** The reading loop of `main`: every line in turn. The result holds each token once, in the group of its key. */
  method ReadCorpus(lines: seq<string>) returns (corpus: Corpus)
    requires forall i :: 0 <= i < |lines| ==> SafeLine(lines[i])
    ensures corpus.State() == InsertAll(Index({}, map[]), AllTokens(lines))
    ensures IndexOk(corpus.State())
    ensures corpus.words == Elements(AllTokens(lines))
  {
    corpus := new Corpus();
    for n := 0 to |lines|
      invariant corpus.State() == InsertAll(Index({}, map[]), AllTokens(lines[..n]))
    {
      assert lines[..n + 1][..n] == lines[..n];
      InsertAllAppend(Index({}, map[]), AllTokens(lines[..n]), Tokens(lines[n]));
      corpus.AddLine(lines[n]);
    }
    assert lines[..|lines|] == lines;
    InsertAllOk(Index({}, map[]), AllTokens(lines));
  }

  /** The words the scan as written records in all lines, in order. */
  function AllRecorded(lines: seq<string>): seq<string>
    requires forall i :: 0 <= i < |lines| ==> SafeLine(lines[i])
  {
    if |lines| == 0 then [] else AllRecorded(lines[..|lines| - 1]) + ScanPrefix(lines[|lines| - 1], |lines[|lines| - 1]|).recorded
  }

  /** The reading loop of `main` as written: each line records only the words
      its scan closed. */
  method ReadCorpusAsWritten(lines: seq<string>) returns (corpus: Corpus)
    requires forall i :: 0 <= i < |lines| ==> SafeLine(lines[i])
    ensures corpus.State() == InsertAll(Index({}, map[]), AllRecorded(lines))
    ensures IndexOk(corpus.State())
    ensures corpus.words == Elements(AllRecorded(lines))
  {
    corpus := new Corpus();
    for n := 0 to |lines|
      invariant corpus.State() == InsertAll(Index({}, map[]), AllRecorded(lines[..n]))
    {
      assert lines[..n + 1][..n] == lines[..n];
      InsertAllAppend(Index({}, map[]), AllRecorded(lines[..n]), ScanPrefix(lines[n], |lines[n]|).recorded);
      corpus.AddLineAsWritten(lines[n]);
    }
    assert lines[..|lines|] == lines;
    InsertAllOk(Index({}, map[]), AllRecorded(lines));
  }

  /** A text of one-word lines, read as written, leaves the word set empty;
      the corrected reading holds every one of those words. */
  lemma {:induction false} OneWordLinesLost(lines: seq<string>)
    requires forall i :: 0 <= i < |lines| ==>
      |lines[i]| > 0 && SafeLine(lines[i]) && (forall j :: 0 <= j < |lines[i]| ==> IsAlphabetical(lines[i][j]))
    ensures AllRecorded(lines) == []
    ensures forall i :: 0 <= i < |lines| ==> Lowered(lines[i]) in Elements(AllTokens(lines))
    decreases |lines|
  {
    if |lines| > 0 {
      var front, last := lines[..|lines| - 1], lines[|lines| - 1];
      OneWordLinesLost(front);
      SingleWordLost(last);
      TokensComplete(last);
      assert Lowered(last) in Tokens(last);
      assert AllTokens(lines) == AllTokens(front) + Tokens(last);
      forall i | 0 <= i < |lines|
        ensures Lowered(lines[i]) in Elements(AllTokens(lines))
      {
        if i < |lines| - 1 {
          assert lines[i] == front[i];
          assert Lowered(front[i]) in AllTokens(front);
        }
      }
    }
  }

  // ---------------------------------------------------------------------------
  // The ragged-right display.

  /** The widest line the display aims for. */
  const MaxLineWidth: nat := 80

  /** The width of a displayed line: each word is followed by one space. */
  function Width(line: seq<string>): nat
  {
    if |line| == 0 then 0 else Width(line[..|line| - 1]) + |line[|line| - 1]| + 1
  }

  /** The words of the lines, in order. */
  function Flatten(lines: seq<seq<string>>): seq<string>
  {
    if |lines| == 0 then [] else Flatten(lines[..|lines| - 1]) + lines[|lines| - 1]
  }

  /** Lexicographic order on keys, the order in which `std::map` visits them. */
  predicate KeyBefore(x: seq<nat>, y: seq<nat>)
  {
    |x| > 0 && |y| > 0 && (x[0] < y[0] || (x[0] == y[0] && KeyBefore(x[1..], y[1..])))
  }

  /** `keys` lists the keys of `groups` in the map's order. */
  predicate MapOrder(groups: map<seq<nat>, seq<string>>, keys: seq<seq<nat>>)
  {
    (forall i :: 0 <= i < |keys| ==> keys[i] in groups) &&
    (forall k :: k in groups ==> k in keys) &&
    (forall i, j :: 0 <= i < j < |keys| ==> KeyBefore(keys[i], keys[j]))
  }

  /** The words shown: the groups of `keys` in order, leaving out groups of a single word. */
  function Printed(groups: map<seq<nat>, seq<string>>, keys: seq<seq<nat>>): seq<string>
    requires forall i :: 0 <= i < |keys| ==> keys[i] in groups
  {
    if |keys| == 0 then []
    else
      var g := groups[keys[|keys| - 1]];
      Printed(groups, keys[..|keys| - 1]) + (if |g| > 1 then g else [])
  }

  /** A line fits in 80 columns or holds a single word. */
  predicate LineOk(line: seq<string>)
  {
    Width(line) <= MaxLineWidth || |line| == 1
  }

  /** Line `j` starts with a word that would not have fitted on the line before it. */
  predicate BreakAt(lines: seq<seq<string>>, j: int)
    requires 0 < j < |lines|
  {
    |lines[j]| > 0 && Width(lines[j - 1]) + |lines[j][0]| + 1 > MaxLineWidth
  }

  /** Each line fits in 80 columns or holds one word, and each line after the first starts
      with a word that would not fit on the line before it. */
  predicate Ragged(lines: seq<seq<string>>)
  {
    |lines| > 0 &&
    (forall j :: 0 <= j < |lines| ==> LineOk(lines[j])) &&
    (forall j :: 0 < j < |lines| ==> BreakAt(lines, j))
  }

  /** A word that does not fit starts a new line. */
  lemma NewLine(lines: seq<seq<string>>, word: string)
    requires Ragged(lines) && Width(lines[|lines| - 1]) + |word| + 1 > MaxLineWidth
    ensures Ragged(lines + [[word]]) && Width([word]) == |word| + 1
    ensures Flatten(lines + [[word]]) == Flatten(lines) + [word]
  {
    var lines' := lines + [[word]];
    assert lines'[..|lines|] == lines;
    assert Width([word]) == Width([word][..0]) + |word| + 1;
    assert LineOk([word]);
    forall j | 0 < j < |lines'|
      ensures BreakAt(lines', j)
    {
      if j < |lines| {
        assert BreakAt(lines, j);
        assert lines'[j - 1] == lines[j - 1] && lines'[j] == lines[j];
      } else {
        assert lines'[j - 1] == lines[|lines| - 1] && lines'[j] == [word];
      }
    }
  }

  /** A word that fits goes after the last word of the last line. */
  lemma SameLine(lines: seq<seq<string>>, word: string)
    requires Ragged(lines) && Width(lines[|lines| - 1]) + |word| + 1 <= MaxLineWidth
    ensures var lines' := lines[..|lines| - 1] + [lines[|lines| - 1] + [word]];
      Ragged(lines') && Width(lines'[|lines'| - 1]) == Width(lines[|lines| - 1]) + |word| + 1 &&
      Flatten(lines') == Flatten(lines) + [word]
  {
    var n := |lines|;
    var last := lines[n - 1] + [word];
    var lines' := lines[..n - 1] + [last];
    assert last[..|last| - 1] == lines[n - 1];
    assert lines'[..n - 1] == lines[..n - 1];
    assert lines[..n - 1] + [lines[n - 1]] == lines;
    assert LineOk(last);
    forall j | 0 < j < n
      ensures BreakAt(lines', j)
    {
      assert BreakAt(lines, j);
      if j == n - 1 {
        assert lines'[j][0] == lines[j][0];
      }
    }
  }

  /** Placing one word: on a new line when it would push the line past 80 columns, else after
      the last word. `width` is the width of the last line. */
  method PlaceWord(lines: seq<seq<string>>, width: nat, word: string) returns (lines': seq<seq<string>>, width': nat)
    requires Ragged(lines) && width == Width(lines[|lines| - 1])
    ensures Ragged(lines') && width' == Width(lines'[|lines'| - 1])
    ensures Flatten(lines') == Flatten(lines) + [word]
  {
    if |word| + width + 1 > MaxLineWidth {
      NewLine(lines, word);
      lines' := lines + [[word]];
      width' := |word| + 1;
    } else {
      SameLine(lines, word);
      lines' := lines[..|lines| - 1] + [lines[|lines| - 1] + [word]];
      width' := width + |word| + 1;
    }
  }

  /** Placing the words of one group in order. */
  method PlaceGroup(lines: seq<seq<string>>, width: nat, group: seq<string>) returns (lines': seq<seq<string>>, width': nat)
    requires Ragged(lines) && width == Width(lines[|lines| - 1])
    ensures Ragged(lines') && width' == Width(lines'[|lines'| - 1])
    ensures Flatten(lines') == Flatten(lines) + group
  {
    lines', width' := lines, width;
    for j := 0 to |group|
      invariant Ragged(lines') && width' == Width(lines'[|lines'| - 1])
      invariant Flatten(lines') == Flatten(lines) + group[..j]
    {
      assert group[..j + 1] == group[..j] + [group[j]];
      lines', width' := PlaceWord(lines', width', group[j]);
    }
    assert group[..|group|] == group;
  }

  /** The display loop of `main`: the words of every group of more than one word, in key order,
      laid out ragged-right. Lines are kept as lists of words; on output each word is followed by a
      space, and a newline ends every line. */
  method Display(groups: map<seq<nat>, seq<string>>, keys: seq<seq<nat>>) returns (lines: seq<seq<string>>)
    requires MapOrder(groups, keys)
    ensures Ragged(lines) && Flatten(lines) == Printed(groups, keys)
  {
    lines := [[]];
    var lineWidth := 0;
    assert Flatten(lines) == [];
    for i := 0 to |keys|
      invariant Ragged(lines) && lineWidth == Width(lines[|lines| - 1])
      invariant Flatten(lines) == Printed(groups, keys[..i])
    {
      assert keys[..i + 1][..i] == keys[..i];
      var group := groups[keys[i]];
      if |group| > 1 {
        lines, lineWidth := PlaceGroup(lines, lineWidth, group);
      }
    }
    assert keys[..|keys|] == keys;
  }

  /** A word is shown exactly when it is in a group of more than one word. */
  lemma {:induction false} PrintedGroups(groups: map<seq<nat>, seq<string>>, keys: seq<seq<nat>>, w: string)
    requires forall i :: 0 <= i < |keys| ==> keys[i] in groups
    ensures w in Printed(groups, keys) <==> exists i :: 0 <= i < |keys| && |groups[keys[i]]| > 1 && w in groups[keys[i]]
  {
    if |keys| > 0 {
      var front := keys[..|keys| - 1];
      PrintedGroups(groups, front, w);
      if w in Printed(groups, front) {
        var i :| 0 <= i < |front| && |groups[front[i]]| > 1 && w in groups[front[i]];
        assert keys[i] == front[i];
      }
      if exists i :: 0 <= i < |keys| && |groups[keys[i]]| > 1 && w in groups[keys[i]] {
        var i :| 0 <= i < |keys| && |groups[keys[i]]| > 1 && w in groups[keys[i]];
        if i < |front| {
          assert front[i] == keys[i];
        }
      }
    }
  }

  /** A shown word is in the set together with another word of the same key. */
  lemma ShownHasAnagram(ix: Index, keys: seq<seq<nat>>, w: string)
    requires IndexOk(ix) && MapOrder(ix.groups, keys) && w in Printed(ix.groups, keys)
    ensures w in ix.words && exists v :: v in ix.words && v != w && Key(v) == Key(w)
  {
    PrintedGroups(ix.groups, keys, w);
    var i :| 0 <= i < |keys| && |ix.groups[keys[i]]| > 1 && w in ix.groups[keys[i]];
    var g := ix.groups[keys[i]];
    assert GroupOk(ix, keys[i]);
    var m :| 0 <= m < |g| && g[m] == w;
    var other := if m == 0 then 1 else 0;
    assert g[other] != w && g[other] in ix.words && Key(g[other]) == Key(w);
  }

  /** A word of the set sharing its key with another word of the set is shown. */
  lemma AnagramShown(ix: Index, keys: seq<seq<nat>>, w: string, v: string)
    requires IndexOk(ix) && MapOrder(ix.groups, keys)
    requires w in ix.words && v in ix.words && v != w && Key(v) == Key(w)
    ensures w in Printed(ix.groups, keys)
  {
    var g := ix.groups[Key(w)];
    assert w in g && v in g;
    var a :| 0 <= a < |g| && g[a] == w;
    var b :| 0 <= b < |g| && g[b] == v;
    assert |g| > 1;
    var i :| 0 <= i < |keys| && keys[i] == Key(w);
    PrintedGroups(ix.groups, keys, w);
  }

  /** Displaying the map shows exactly the words of the set that have an anagram in it. */
  lemma ShownIffAnagram(ix: Index, keys: seq<seq<nat>>, w: string)
    requires IndexOk(ix) && MapOrder(ix.groups, keys)
    ensures w in Printed(ix.groups, keys) <==> w in ix.words && exists v :: v in ix.words && v != w && Key(v) == Key(w)
  {
    if w in Printed(ix.groups, keys) {
      ShownHasAnagram(ix, keys, w);
    }
    if w in ix.words && exists v :: v in ix.words && v != w && Key(v) == Key(w) {
      var v :| v in ix.words && v != w && Key(v) == Key(w);
      AnagramShown(ix, keys, w, v);
    }
  }
}
