/** word_count.py: the words of a file's lines, split on whitespace, and the
    number of times each distinct word occurs, in first-occurrence order. */
module WordCount {
  import opened Sequences
  import opened OrderedDict

  /** The characters Python's str.isspace() accepts, which are the separators
      of str.split() and the characters str.strip() removes, as inclusive
      ranges of code points. */
  const SpaceRanges: seq<(char, char)> := [
    ('\t', '\r'), ('\U{1C}', '\U{1F}'), (' ', ' '), ('\U{85}', '\U{85}'),
    ('\U{A0}', '\U{A0}'), ('\U{1680}', '\U{1680}'), ('\U{2000}', '\U{200A}'),
    ('\U{2028}', '\U{2029}'), ('\U{202F}', '\U{202F}'), ('\U{205F}', '\U{205F}'),
    ('\U{3000}', '\U{3000}')
  ]

  /** c lies in one of the ranges from the i-th on (searched range by range, so
      that proofs about tokens do not unfold the whole table). */
  predicate InSpaceRanges(c: char, i: nat)
    decreases |SpaceRanges| - i
  {
    i < |SpaceRanges| && (SpaceRanges[i].0 <= c <= SpaceRanges[i].1 || InSpaceRanges(c, i + 1))
  }

  predicate IsSpace(c: char)
  {
    InSpaceRanges(c, 0)
  }

  lemma {:induction false} InSpaceRangesMeaning(c: char, i: nat)
    ensures InSpaceRanges(c, i) <==>
      exists j :: i <= j < |SpaceRanges| && SpaceRanges[j].0 <= c <= SpaceRanges[j].1
    decreases |SpaceRanges| - i
  {
    if i < |SpaceRanges| {
      InSpaceRangesMeaning(c, i + 1);
    }
  }

  /** IsSpace(c) holds exactly when c lies in one of the ranges of the table. */
  lemma IsSpaceMeaning(c: char)
    ensures IsSpace(c) <==>
      exists j :: 0 <= j < |SpaceRanges| && SpaceRanges[j].0 <= c <= SpaceRanges[j].1
  {
    InSpaceRangesMeaning(c, 0);
  }

  predicate NoSpace(s: string)
  {
    forall i :: 0 <= i < |s| ==> !IsSpace(s[i])
  }

  predicate AllSpace(s: string)
  {
    forall i :: 0 <= i < |s| ==> IsSpace(s[i])
  }

  /** s without its leading whitespace. */
  function TrimStart(s: string): (r: string)
    ensures |r| <= |s| && r == s[|s| - |r|..]
    ensures forall i :: 0 <= i < |s| - |r| ==> IsSpace(s[i])
    ensures r == [] || !IsSpace(r[0])
  {
    if s != [] && IsSpace(s[0]) then
      var r := TrimStart(s[1..]);
      assert forall i :: 1 <= i < |s| ==> s[i] == s[1..][i - 1];
      r
    else s
  }

  /** s without its trailing whitespace. */
  function TrimEnd(s: string): (r: string)
    ensures |r| <= |s| && r == s[..|r|]
    ensures forall i :: |r| <= i < |s| ==> IsSpace(s[i])
    ensures r == [] || !IsSpace(Last(r))
  {
    if s != [] && IsSpace(Last(s)) then
      var r := TrimEnd(Init(s));
      assert forall i :: 0 <= i < |s| - 1 ==> s[i] == Init(s)[i];
      r
    else s
  }

  /** `s.strip()` */
  function Strip(s: string): string
  {
    TrimEnd(TrimStart(s))
  }

  /** What strip() promises: the result is empty exactly for a blank line,
      otherwise it starts and ends with non-whitespace; a line without
      whitespace is kept whole. */
  lemma StripMeaning(s: string)
    ensures |Strip(s)| <= |s|
    ensures Strip(s) == [] || (!IsSpace(Strip(s)[0]) && !IsSpace(Last(Strip(s))))
    ensures Strip(s) == [] <==> AllSpace(s)
    ensures NoSpace(s) ==> Strip(s) == s
  {
    var u := TrimStart(s);
    var r := TrimEnd(u);
    if r != [] {
      assert r[0] == u[0];
    }
    if AllSpace(s) {
      TrimStartAllSpace(s);
    }
    if r == [] {
      assert u == [];
      forall i | 0 <= i < |s| ensures IsSpace(s[i]) {
      }
    }
    if NoSpace(s) && s != [] {
      assert !IsSpace(s[0]) && !IsSpace(Last(s));
    }
  }

  /** The longest prefix of s that holds no whitespace. */
  function Word(s: string): (w: string)
    ensures |w| <= |s| && w == s[..|w|]
    ensures NoSpace(w)
    ensures |w| < |s| ==> IsSpace(s[|w|])
    ensures |s| > 0 && !IsSpace(s[0]) ==> |w| > 0
  {
    if s == [] || IsSpace(s[0]) then [] else [s[0]] + Word(s[1..])
  }

  /** Every token is non-empty and holds no whitespace. */
  predicate Tokens(ts: seq<string>)
  {
    forall i :: 0 <= i < |ts| ==> |ts[i]| > 0 && NoSpace(ts[i])
  }

  lemma TokensCons(w: string, ts: seq<string>)
    requires |w| > 0 && NoSpace(w) && Tokens(ts)
    ensures Tokens([w] + ts)
  {
    forall i | 0 <= i < |[w] + ts| ensures |([w] + ts)[i]| > 0 && NoSpace(([w] + ts)[i]) {
      if i > 0 {
        assert ([w] + ts)[i] == ts[i - 1];
      }
    }
  }

  /** `s.split()`: the maximal runs of non-whitespace characters of s, in order. */
  function Split(s: string): (tokens: seq<string>)
    ensures Tokens(tokens)
    decreases |s|
  {
    var t := TrimStart(s);
    if t == [] then []
    else
      var w := Word(t);
      var rest := Split(t[|w|..]);
      TokensCons(w, rest);
      [w] + rest
  }

  /** The tokens of all lines, line after line. */
  function SplitLines(lines: seq<string>): (words: seq<string>)
    ensures Tokens(words)
  {
    if lines == [] then [] else SplitLines(Init(lines)) + Split(Last(lines))
  }

  /** The strings of ts written one after another. */
  function Concat(ts: seq<string>): string
  {
    if ts == [] then [] else Concat(Init(ts)) + Last(ts)
  }

  /** The characters of s that are not whitespace, in order. */
  function NonSpaceChars(s: string): string
  {
    if s == [] then [] else (if IsSpace(s[0]) then [] else [s[0]]) + NonSpaceChars(s[1..])
  }

  /** The tokens joined with single spaces: `' '.join(ts)`. */
  function Join(ts: seq<string>): string
  {
    if ts == [] then [] else if |ts| == 1 then ts[0] else ts[0] + " " + Join(ts[1..])
  }

  // ---------------------------------------------------------------------------
  // Properties of the tokeniser

  lemma {:induction false} ConcatAppend(a: seq<string>, b: seq<string>)
    ensures Concat(a + b) == Concat(a) + Concat(b)
  {
    if b != [] {
      assert Init(a + b) == a + Init(b);
      ConcatAppend(a, Init(b));
    } else {
      assert a + b == a;
    }
  }

  lemma ConcatCons(w: string, ts: seq<string>)
    ensures Concat([w] + ts) == w + Concat(ts)
  {
    ConcatAppend([w], ts);
    assert Init([w]) == [];
  }

  lemma {:induction false} NonSpaceAppend(a: string, b: string)
    ensures NonSpaceChars(a + b) == NonSpaceChars(a) + NonSpaceChars(b)
  {
    if a != [] {
      DropAppend(a, b, 1);
      NonSpaceAppend(a[1..], b);
    } else {
      assert a + b == b;
    }
  }

  /** Leading whitespace contributes no characters. */
  lemma {:induction false} NonSpaceSkip(a: string, b: string)
    requires AllSpace(a)
    ensures NonSpaceChars(a + b) == NonSpaceChars(b)
  {
    if a != [] {
      DropAppend(a, b, 1);
      NonSpaceSkip(a[1..], b);
    } else {
      assert a + b == b;
    }
  }

  /** A whitespace-free prefix is kept whole. */
  lemma {:induction false} NonSpaceKeep(a: string, b: string)
    requires NoSpace(a)
    ensures NonSpaceChars(a + b) == a + NonSpaceChars(b)
  {
    if a != [] {
      DropAppend(a, b, 1);
      NonSpaceKeep(a[1..], b);
      HeadTail(a);
    } else {
      assert a + b == b;
    }
  }

  /** Split(s) starts at the first non-whitespace character of s, and its first
      token is the longest whitespace-free run from there. */
  lemma SplitUnfold(s: string)
    requires TrimStart(s) != []
    ensures var t := TrimStart(s); var w := Word(t);
      t == w + t[|w|..] && Split(s) == [w] + Split(t[|w|..])
  {
    var t := TrimStart(s);
    PrefixSuffix(t, |Word(t)|);
  }

  /** The tokens of s, written one after another, are exactly the
      non-whitespace characters of s: nothing is lost, added or reordered. */
  lemma {:induction false} SplitChars(s: string)
    ensures Concat(Split(s)) == NonSpaceChars(s)
    decreases |s|
  {
    var t := TrimStart(s);
    var k := |s| - |t|;
    PrefixSuffix(s, k);
    NonSpaceSkip(s[..k], t);
    if t != [] {
      var w := Word(t);
      var rest := t[|w|..];
      SplitUnfold(s);
      ConcatCons(w, Split(rest));
      SplitChars(rest);
      NonSpaceKeep(w, rest);
    } else {
      NonSpaceSkip(s[..k], []);
      assert s[..k] + [] == s[..k];
    }
  }

  /** The tokens of successive lines, written one after another, are the
      non-whitespace characters of the whole text. */
  lemma {:induction false} SplitLinesChars(lines: seq<string>)
    ensures Concat(SplitLines(lines)) == NonSpaceChars(Concat(lines))
  {
    if lines != [] {
      SplitLinesChars(Init(lines));
      ConcatAppend(SplitLines(Init(lines)), Split(Last(lines)));
      SplitChars(Last(lines));
      NonSpaceAppend(Concat(Init(lines)), Last(lines));
    }
  }

  lemma {:induction false} TrimStartAllSpace(s: string)
    requires AllSpace(s)
    ensures TrimStart(s) == []
  {
    if s != [] {
      TrimStartAllSpace(s[1..]);
    }
  }

  lemma {:induction false} TrimStartAppend(v: string, sp: string)
    requires AllSpace(sp)
    ensures TrimStart(v + sp) == if TrimStart(v) == [] then [] else TrimStart(v) + sp
  {
    if v == [] {
      assert v + sp == sp;
      TrimStartAllSpace(sp);
    } else if IsSpace(v[0]) {
      DropAppend(v, sp, 1);
      TrimStartAppend(v[1..], sp);
    }
  }

  lemma {:induction false} WordAppend(t: string, sp: string)
    requires AllSpace(sp)
    ensures Word(t + sp) == Word(t)
  {
    if t == [] {
      assert t + sp == sp;
    } else if !IsSpace(t[0]) {
      DropAppend(t, sp, 1);
      WordAppend(t[1..], sp);
    }
  }

  /** Trailing whitespace does not change the tokens. */
  lemma {:induction false} SplitAppendSpaces(v: string, sp: string)
    requires AllSpace(sp)
    ensures Split(v + sp) == Split(v)
    decreases |v|
  {
    var t := TrimStart(v);
    TrimStartAppend(v, sp);
    if t != [] {
      var w := Word(t);
      WordAppend(t, sp);
      SplitUnfold(v);
      SplitUnfold(v + sp);
      var rest := t[|w|..];
      DropAppend(t, sp, |w|);
      SplitAppendSpaces(rest, sp);
    }
  }

  /** Stripping a line before splitting it changes nothing: `line.strip().split()`
      has the same tokens as `line.split()`. */
  lemma SplitStrip(s: string)
    ensures Split(Strip(s)) == Split(s)
  {
    var u := TrimStart(s);
    assert TrimStart(u) == u;
    var v := TrimEnd(u);
    PrefixSuffix(u, |v|);
    SplitAppendSpaces(v, u[|v|..]);
  }

  lemma {:induction false} WordOfNoSpace(w: string)
    requires NoSpace(w)
    ensures Word(w) == w
  {
    if w != [] {
      WordOfNoSpace(w[1..]);
    }
  }

  lemma {:induction false} WordThenSpace(w: string, rest: string)
    requires NoSpace(w)
    ensures Word(w + " " + rest) == w
  {
    if w != [] {
      assert (w + " " + rest)[1..] == w[1..] + " " + rest;
      WordThenSpace(w[1..], rest);
    }
  }

  lemma SpaceIsWhitespace()
    ensures IsSpace(' ')
  {
    assert SpaceRanges[2] == (' ', ' ');
    assert InSpaceRanges(' ', 2);
    assert InSpaceRanges(' ', 1);
  }

  /** Leading whitespace does not change the tokens. */
  lemma SplitSkipSpace(rest: string)
    ensures Split(" " + rest) == Split(rest)
  {
    SpaceIsWhitespace();
    assert (" " + rest)[1..] == rest;
    assert TrimStart(" " + rest) == TrimStart(rest);
  }

  /** A line yields no tokens exactly when it is blank or all whitespace. */
  lemma SplitEmpty(s: string)
    ensures Split(s) == [] <==> AllSpace(s)
  {
    var t := TrimStart(s);
    if t != [] {
      assert s[|s| - |t|] == t[0];
    }
  }

  /** A token followed by a space splits off as the first token. */
  lemma SplitCons(w: string, rest: string)
    requires |w| > 0 && NoSpace(w)
    ensures Split(w + " " + rest) == [w] + Split(rest)
  {
    var s := w + " " + rest;
    assert TrimStart(s) == s by { assert s[0] == w[0]; }
    WordThenSpace(w, rest);
    assert s[|w|..] == " " + rest;
    SplitSkipSpace(rest);
  }

  lemma TokensTail(ts: seq<string>)
    requires Tokens(ts) && |ts| > 0
    ensures |ts[0]| > 0 && NoSpace(ts[0]) && Tokens(ts[1..])
  {
    assert forall i :: 0 <= i < |ts| - 1 ==> ts[1..][i] == ts[i + 1];
  }

  /** Splitting undoes joining with single spaces, for tokens such as Split
      produces: Split is the inverse of Join on its own results. */
  lemma {:induction false} SplitJoin(ts: seq<string>)
    requires Tokens(ts)
    ensures Split(Join(ts)) == ts
  {
    if |ts| == 1 {
      var w := ts[0];
      WordOfNoSpace(w);
      assert w[|w|..] == [];
    } else if |ts| > 1 {
      TokensTail(ts);
      SplitCons(ts[0], Join(ts[1..]));
      SplitJoin(ts[1..]);
      HeadTail(ts);
    }
  }

  // ---------------------------------------------------------------------------
  // Runs of whitespace separate tokens

  /** seps[0] + ts[0] + seps[1] + ... + ts[n-1] + seps[n]: the tokens with the
      given separators before, between and after them. */
  function Interleave(seps: seq<string>, ts: seq<string>): string
    requires |seps| == |ts| + 1
    decreases |ts|
  {
    if ts == [] then seps[0] else seps[0] + (ts[0] + Interleave(seps[1..], ts[1..]))
  }

  /** Separators for n tokens: n + 1 runs of whitespace, where the leading and
      trailing runs may be empty and every run between two tokens is not. */
  predicate Separators(seps: seq<string>, n: nat)
  {
    |seps| == n + 1 &&
    (forall i :: 0 <= i < |seps| ==> AllSpace(seps[i])) &&
    (forall i :: 0 < i < n ==> |seps[i]| > 0)
  }

  lemma SeparatorsTail(seps: seq<string>, n: nat)
    requires Separators(seps, n) && n > 0
    ensures Separators(seps[1..], n - 1)
    ensures n > 1 ==> |seps[1]| > 0
  {
    assert forall i :: 0 <= i < |seps| - 1 ==> seps[1..][i] == seps[i + 1];
  }

  /** Leading whitespace before a non-whitespace character is all that
      TrimStart removes. */
  lemma {:induction false} TrimStartSkip(sp: string, t: string)
    requires AllSpace(sp)
    requires t == [] || !IsSpace(t[0])
    ensures TrimStart(sp + t) == t
  {
    if sp == [] {
      assert sp + t == t;
    } else {
      DropAppend(sp, t, 1);
      TrimStartSkip(sp[1..], t);
    }
  }

  /** A whitespace-free w followed by whitespace or by nothing is a whole word. */
  lemma {:induction false} WordBefore(w: string, rest: string)
    requires NoSpace(w)
    requires rest == [] || IsSpace(rest[0])
    ensures Word(w + rest) == w
  {
    if w == [] {
      assert w + rest == rest;
    } else {
      DropAppend(w, rest, 1);
      WordBefore(w[1..], rest);
      HeadTail(w);
    }
  }

  /** A token between whitespace (or the ends of the line) is split off whole. */
  lemma SplitAfter(sp: string, w: string, rest: string)
    requires AllSpace(sp) && |w| > 0 && NoSpace(w)
    requires rest == [] || IsSpace(rest[0])
    ensures Split(sp + (w + rest)) == [w] + Split(rest)
  {
    var t := w + rest;
    assert TrimStart(sp + t) == t by {
      assert t[0] == w[0];
      TrimStartSkip(sp, t);
    }
    assert Word(t) == w && t[|w|..] == rest by {
      WordBefore(w, rest);
    }
    SplitUnfold(sp + t);
  }

  lemma InterleaveStart(seps: seq<string>, ts: seq<string>)
    requires |seps| == |ts| + 1 && AllSpace(seps[0])
    requires |ts| > 0 ==> |seps[0]| > 0
    ensures Interleave(seps, ts) == [] || IsSpace(Interleave(seps, ts)[0])
  {
    if ts != [] {
      assert Interleave(seps, ts)[0] == seps[0][0];
    }
  }

  /** Any runs of whitespace, not only single spaces, separate tokens: the
      tokens interleaved with separators split back into exactly those tokens. */
  lemma {:induction false} SplitInterleave(seps: seq<string>, ts: seq<string>)
    requires Tokens(ts) && Separators(seps, |ts|)
    ensures Split(Interleave(seps, ts)) == ts
    decreases |ts|
  {
    if ts == [] {
      SplitEmpty(seps[0]);
    } else {
      var rest := Interleave(seps[1..], ts[1..]);
      TokensTail(ts);
      SeparatorsTail(seps, |ts|);
      InterleaveStart(seps[1..], ts[1..]);
      SplitAfter(seps[0], ts[0], rest);
      SplitInterleave(seps[1..], ts[1..]);
      HeadTail(ts);
    }
  }

  /** The whitespace runs of s before, between and after its tokens: what
      Split discards. */
  function Gaps(s: string): (seps: seq<string>)
    ensures |seps| > 0 && seps[0] == s[..|s| - |TrimStart(s)|]
    decreases |s|
  {
    var t := TrimStart(s);
    var lead := s[..|s| - |t|];
    if t == [] then [lead]
    else [lead] + Gaps(t[|Word(t)|..])
  }

  /** What TrimStart removes is whitespace, and it removes something from a
      line that starts with whitespace. */
  lemma LeadingSpace(s: string)
    ensures AllSpace(s[..|s| - |TrimStart(s)|])
    ensures s != [] && IsSpace(s[0]) ==> |TrimStart(s)| < |s|
  {
    var lead := s[..|s| - |TrimStart(s)|];
    assert forall i :: 0 <= i < |lead| ==> lead[i] == s[i];
  }

  lemma SeparatorsCons(lead: string, g: seq<string>, n: nat)
    requires AllSpace(lead) && Separators(g, n)
    requires n > 0 ==> |g[0]| > 0
    ensures Separators([lead] + g, n + 1)
  {
    var r := [lead] + g;
    forall i | 0 < i < |r| ensures r[i] == g[i - 1] {
    }
  }

  /** One step of Gaps and Split together: the leading run, then the first
      token, then the rest of the line. */
  lemma GapsUnfold(s: string)
    requires TrimStart(s) != []
    ensures var t := TrimStart(s); var w := Word(t); var rest := t[|w|..];
      s == s[..|s| - |t|] + (w + rest) &&
      Gaps(s) == [s[..|s| - |t|]] + Gaps(rest) && Split(s) == [w] + Split(rest)
  {
    var t := TrimStart(s);
    PrefixSuffix(s, |s| - |t|);
    SplitUnfold(s);
  }

  lemma {:induction false} GapsLength(s: string)
    ensures |Gaps(s)| == |Split(s)| + 1
    decreases |s|
  {
    var t := TrimStart(s);
    if t != [] {
      GapsUnfold(s);
      GapsLength(t[|Word(t)|..]);
    }
  }

  /** The gaps of a line are separators for its tokens. */
  lemma {:induction false} GapsSeparate(s: string)
    ensures Separators(Gaps(s), |Split(s)|)
    decreases |s|
  {
    var t := TrimStart(s);
    LeadingSpace(s);
    GapsLength(s);
    if t != [] {
      var rest := t[|Word(t)|..];
      GapsUnfold(s);
      GapsSeparate(rest);
      if rest != [] {
        assert IsSpace(rest[0]);
        LeadingSpace(rest);
      }
      SeparatorsCons(s[..|s| - |t|], Gaps(rest), |Split(rest)|);
    }
  }

  /** Every line is its tokens interleaved with its gaps: Split loses nothing
      but runs of whitespace, and splits at every one of them. */
  lemma {:induction false} SplitGaps(s: string)
    ensures |Gaps(s)| == |Split(s)| + 1
    ensures s == Interleave(Gaps(s), Split(s))
    decreases |s|
  {
    var t := TrimStart(s);
    GapsLength(s);
    if t == [] {
      PrefixSuffix(s, |s| - |t|);
      assert s == s[..|s| - |t|] + [];
    } else {
      var w := Word(t);
      var rest := t[|w|..];
      GapsUnfold(s);
      SplitGaps(rest);
      var lead, g, r := s[..|s| - |t|], Gaps(rest), Split(rest);
      assert ([lead] + g)[1..] == g && ([w] + r)[1..] == r;
      assert Interleave([lead] + g, [w] + r) == lead + (w + Interleave(g, r));
    }
  }

  // ---------------------------------------------------------------------------
  // read_words and count_words

  /** read_words on given line contents: each line is stripped and split, and
      its tokens are appended to the word list. */
  method ReadWords(lines: seq<string>) returns (words: seq<string>)
    ensures words == SplitLines(lines)
  {
    words := [];
    for i := 0 to |lines|
      invariant words == SplitLines(lines[..i])
    {
      assert Init(lines[..i + 1]) == lines[..i];
      SplitStrip(lines[i]);
      words := words + Split(Strip(lines[i]));
    }
    assert lines[..|lines|] == lines;
  }

  /** count_words: the table of word frequencies, with its keys (order) in
      first-occurrence order and its counts equal to the occurrence counts. */
  method CountWords(words: seq<string>) returns (order: seq<string>, counts: map<string, nat>)
    ensures order == Distinct(words)
    ensures InFirstOccurrenceOrder(order, words)
    ensures forall w :: w in counts <==> w in words
    ensures forall w :: w in counts ==> counts[w] == Count(words, w) && counts[w] >= 1
    ensures forall i :: 0 <= i < |order| ==> order[i] in counts
    ensures SumValues(order, counts) == |words|
  {
    var wordCount := new Dict<string, nat>();
    for i := 0 to |words|
      invariant wordCount.Valid()
      invariant IsTally(wordCount.keys, wordCount.values, words[..i])
    {
      var word := words[i];
      assert words[..i + 1] == words[..i] + [word];
      if wordCount.Contains(word) {
        TallySeen(wordCount.keys, wordCount.values, words[..i], word);
        wordCount.Put(word, wordCount.values[word] + 1);
      } else {
        TallyFirst(wordCount.keys, wordCount.values, words[..i], word);
        wordCount.Put(word, 1);
      }
    }
    assert words[..|words|] == words;
    order, counts := wordCount.keys, wordCount.values;
    TallyFacts(order, counts, words);
  }
}
