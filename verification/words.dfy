/** The classification regexes of `scanner.py`, matched at one position,
    and the word-level reading of what they find.

    Regex side: `\b` is `Boundary`, `\bkw\b` under IGNORECASE is
    `KeywordAt`, and the two structured block patterns are `ForAt` and
    `RepeatAt`. Greedy runs are evaluated with `Skip`; that is complete here
    because every run is followed by a character its class excludes.

    Word side: a word is a maximal run of word characters (`WordSpan`),
    compared ignoring case (`WordIs`). The lemmas at the end show that
    searching with each regex finds exactly the corresponding words or
    phrases. */
module Words {
  import opened Text
  import opened Patterns

  /** `\b`: a word character on exactly one side of position `p`. */
  predicate Boundary(s: string, p: nat) {
    (0 < p <= |s| && IsWordChar(s[p - 1])) != (p < |s| && IsWordChar(s[p]))
  }

  /** `kw` ignoring case at `p`, followed by `\b`. */
  predicate FollowedAt(s: string, p: nat, kw: string) {
    HasAtFolded(s, p, kw) && Boundary(s, p + |kw|)
  }

  /** `\b<kw>\b` under IGNORECASE matches at `p`. */
  predicate KeywordAt(s: string, p: nat, kw: string) {
    Boundary(s, p) && FollowedAt(s, p, kw)
  }

  /** `\bfor\s+(each|every)\b` under IGNORECASE matches at `p`. */
  predicate ForAt(s: string, p: nat) {
    Boundary(s, p) && HasAtFolded(s, p, "for") &&
    var q := Skip(s, p + 3, IsSpace);
    q > p + 3 && (FollowedAt(s, q, "each") || FollowedAt(s, q, "every"))
  }

  /** The repeat count `(\d+|:\w+|\$\w+|[\w.]+)` matches all of `f`. */
  predicate IsCount(f: string) {
    || (|f| > 0 && forall k | 0 <= k < |f| :: IsDigit(f[k]))
    || (|f| > 1 && f[0] == ':' && forall k | 1 <= k < |f| :: IsWordChar(f[k]))
    || (|f| > 1 && f[0] == '$' && forall k | 1 <= k < |f| :: IsWordChar(f[k]))
    || (|f| > 0 && forall k | 0 <= k < |f| :: IsWordChar(f[k]) || f[k] == '.')
  }

  /** `\brepeat\s+(\d+|:\w+|\$\w+|[\w.]+)\s+times?\b` under IGNORECASE
      matches at `p`. The count cannot contain whitespace and must be
      followed by whitespace, so it is the whole non-blank field after the
      spaces following `repeat`. */
  predicate RepeatAt(s: string, p: nat) {
    Boundary(s, p) && HasAtFolded(s, p, "repeat") &&
    var a := Skip(s, p + 6, IsSpace);
    var b := Skip(s, a, NotSpace);
    var d := Skip(s, b, IsSpace);
    a > p + 6 && IsCount(s[a..b]) && d > b && (FollowedAt(s, d, "times") || FollowedAt(s, d, "time"))
  }

  /** Whether the block rule's pattern matches at `p`. */
  predicate RuleAt(rule: BlockRule, s: string, p: nat) {
    match rule
    case Keyword(w) => KeywordAt(s, p, w)
    case ForEach => ForAt(s, p)
    case RepeatTimes => RepeatAt(s, p)
  }

  /** `pattern.search(s) is not None`: the pattern matches at some start. */
  predicate Search(rule: BlockRule, s: string) {
    exists p | 0 <= p <= |s| :: RuleAt(rule, s, p)
  }

  // ---------------------------------------------------------------------
  // Word-level reading

  /** `s[i..j]` is a word of `s`: a maximal run of word characters. */
  predicate WordSpan(s: string, i: nat, j: nat) {
    && i < j <= |s|
    && (forall k | i <= k < j :: IsWordChar(s[k]))
    && (i == 0 || !IsWordChar(s[i - 1]))
    && (j == |s| || !IsWordChar(s[j]))
  }

  /** `s[i..j]` is a word of `s` that reads `w` once lower-cased. */
  predicate WordIs(s: string, i: nat, j: nat, w: string) {
    WordSpan(s, i, j) && LowerStr(s[i..j]) == w
  }

  /** `w` occurs in `s` as a whole word, in any letter case. */
  predicate WordOccurs(s: string, w: string) {
    exists i, j | 0 <= i < j <= |s| :: WordIs(s, i, j, w)
  }

  /** `s[i..j]` is non-empty whitespace. */
  predicate SpaceRun(s: string, i: nat, j: nat) {
    i < j <= |s| && forall k | i <= k < j :: IsSpace(s[k])
  }

  /** `s[i..j]` is the word `for`, `s[j..k]` whitespace and `s[k..l]` the
      word `each` or `every`. */
  predicate ForPhraseAt(s: string, i: nat, j: nat, k: nat, l: nat) {
    WordIs(s, i, j, "for") && SpaceRun(s, j, k) && (WordIs(s, k, l, "each") || WordIs(s, k, l, "every"))
  }

  /** The word `for`, whitespace, then the word `each` or `every`. */
  predicate ForPhrase(s: string) {
    exists i, j, k, l | 0 <= i < j < k < l <= |s| :: ForPhraseAt(s, i, j, k, l)
  }

  /** `s[a..b]` is a repeat count. */
  predicate CountSpan(s: string, a: nat, b: nat) {
    a < b <= |s| && IsCount(s[a..b])
  }

  /** `s[i..j]` is the word `repeat`, `s[j..a]` whitespace, `s[a..b]` a
      count, `s[b..d]` whitespace and `s[d..e]` the word `time` or `times`. */
  predicate RepeatPhraseAt(s: string, i: nat, j: nat, a: nat, b: nat, d: nat, e: nat) {
    && WordIs(s, i, j, "repeat") && SpaceRun(s, j, a) && CountSpan(s, a, b) && SpaceRun(s, b, d)
    && (WordIs(s, d, e, "time") || WordIs(s, d, e, "times"))
  }

  /** The word `repeat`, whitespace, a count, whitespace, then the word
      `time` or `times`. */
  predicate RepeatPhrase(s: string) {
    exists i, j, a, b, d, e | 0 <= i < j < a < b < d < e <= |s| :: RepeatPhraseAt(s, i, j, a, b, d, e)
  }

  // ---------------------------------------------------------------------
  // Regex side and word side agree

  lemma SpaceIsNotWordChar(c: char)
    requires IsSpace(c)
    ensures !IsWordChar(c)
  {
  }

  /** Text matching a keyword ignoring case consists of word characters. */
  lemma FoldedKeywordIsWordChars(s: string, p: nat, kw: string)
    requires IsKeyword(kw) && HasAtFolded(s, p, kw)
    ensures forall k | p <= k < p + |kw| :: IsWordChar(s[k])
  {
    var x := s[p..p + |kw|];
    forall k | p <= k < p + |kw|
      ensures IsWordChar(s[k])
    {
      assert x[k - p] == s[k];
      assert LowerStr(x)[k - p] == Lower(s[k]);
      assert LowerStr(kw)[k - p] == Lower(kw[k - p]);
      LowerKeepsWordChar(s[k]);
      LowerKeepsWordChar(kw[k - p]);
    }
  }

  /** `\bkw\b` matches at `p` exactly when the word starting at `p` is `kw`
      ignoring case. */
  lemma KeywordAtIsWord(s: string, p: nat, kw: string)
    requires IsKeyword(kw)
    ensures KeywordAt(s, p, kw) <==> WordIs(s, p, p + |kw|, LowerStr(kw))
  {
    if HasAtFolded(s, p, kw) {
      FoldedKeywordIsWordChars(s, p, kw);
      assert IsWordChar(s[p]) && IsWordChar(s[p + |kw| - 1]);
    }
  }

  /** A keyword preceded by `\b` and followed by whitespace is matched whole. */
  lemma KeywordBeforeSpace(s: string, p: nat, kw: string)
    requires IsKeyword(kw) && Boundary(s, p) && HasAtFolded(s, p, kw)
    requires p + |kw| < |s| && IsSpace(s[p + |kw|])
    ensures KeywordAt(s, p, kw)
  {
    FoldedKeywordIsWordChars(s, p, kw);
    SpaceIsNotWordChar(s[p + |kw|]);
  }

  /** A keyword followed by `\b` and preceded by whitespace is matched whole. */
  lemma KeywordAfterSpace(s: string, q: nat, kw: string)
    requires IsKeyword(kw) && FollowedAt(s, q, kw) && 0 < q && IsSpace(s[q - 1])
    ensures KeywordAt(s, q, kw)
  {
    FoldedKeywordIsWordChars(s, q, kw);
    SpaceIsNotWordChar(s[q - 1]);
  }

  /** A word spelled like a keyword has the keyword's length. */
  lemma WordIsLength(s: string, i: nat, j: nat, w: string)
    requires WordIs(s, i, j, w)
    ensures j == i + |w|
  {
    assert |LowerStr(s[i..j])| == j - i;
  }

  /** Searching with `\bkw\b` succeeds exactly when `kw` occurs as a word. */
  lemma KeywordSearch(s: string, kw: string)
    requires IsKeyword(kw)
    ensures Search(Keyword(kw), s) <==> WordOccurs(s, LowerStr(kw))
  {
    if p :| 0 <= p <= |s| && RuleAt(Keyword(kw), s, p) {
      KeywordAtIsWord(s, p, kw);
      assert WordIs(s, p, p + |kw|, LowerStr(kw));
    }
    if WordOccurs(s, LowerStr(kw)) {
      var i, j :| 0 <= i < j <= |s| && WordIs(s, i, j, LowerStr(kw));
      WordIsLength(s, i, j, LowerStr(kw));
      assert |LowerStr(kw)| == |kw|;
      KeywordAtIsWord(s, i, kw);
      assert RuleAt(Keyword(kw), s, i);
    }
  }

  lemma PhraseKeywords()
    ensures IsKeyword("for") && LowerStr("for") == "for"
    ensures IsKeyword("each") && LowerStr("each") == "each"
    ensures IsKeyword("every") && LowerStr("every") == "every"
    ensures IsKeyword("repeat") && LowerStr("repeat") == "repeat"
    ensures IsKeyword("time") && LowerStr("time") == "time"
    ensures IsKeyword("times") && LowerStr("times") == "times"
  {
    LowerWordIsKeyword("for");
    LowerWordIsKeyword("each");
    LowerWordIsKeyword("every");
    LowerWordIsKeyword("repeat");
    LowerWordIsKeyword("time");
    LowerWordIsKeyword("times");
  }

  /** A match of the `for` pattern is a `for` phrase. */
  lemma ForAtIsPhrase(s: string, p: nat)
    requires ForAt(s, p)
    ensures ForPhrase(s)
  {
    PhraseKeywords();
    var q := Skip(s, p + 3, IsSpace);
    KeywordBeforeSpace(s, p, "for");
    KeywordAtIsWord(s, p, "for");
    var w := if FollowedAt(s, q, "each") then "each" else "every";
    KeywordAfterSpace(s, q, w);
    KeywordAtIsWord(s, q, w);
    assert ForPhraseAt(s, p, p + 3, q, q + |w|);
  }

  /** A `for` phrase is matched by the `for` pattern at its first word. */
  lemma ForPhraseIsMatched(s: string, i: nat, j: nat, k: nat, l: nat)
    requires 0 <= i < j < k < l <= |s| && ForPhraseAt(s, i, j, k, l)
    ensures RuleAt(ForEach, s, i)
  {
    PhraseKeywords();
    var w := if WordIs(s, k, l, "each") then "each" else "every";
    WordIsLength(s, i, j, "for");
    WordIsLength(s, k, l, w);
    KeywordAtIsWord(s, i, "for");
    KeywordAtIsWord(s, k, w);
    assert !IsSpace(s[k]);
    SkipEndsAt(s, i + 3, IsSpace, k);
  }

  /** Searching with the `for` pattern succeeds exactly when the text has
      the word `for` followed by whitespace and the word `each` or `every`. */
  lemma ForSearch(s: string)
    ensures Search(ForEach, s) <==> ForPhrase(s)
  {
    if p :| 0 <= p <= |s| && ForAt(s, p) {
      ForAtIsPhrase(s, p);
    }
    forall i, j, k, l | 0 <= i < j < k < l <= |s| && ForPhraseAt(s, i, j, k, l)
      ensures Search(ForEach, s)
    {
      ForPhraseIsMatched(s, i, j, k, l);
    }
  }

  /** A count never contains whitespace. */
  lemma CountHasNoSpace(f: string)
    requires IsCount(f)
    ensures forall k | 0 <= k < |f| :: !IsSpace(f[k])
  {
  }

  /** A match of the `repeat` pattern is a `repeat` phrase. */
  lemma RepeatAtIsPhrase(s: string, p: nat)
    requires RepeatAt(s, p)
    ensures RepeatPhrase(s)
  {
    PhraseKeywords();
    var a := Skip(s, p + 6, IsSpace);
    var b := Skip(s, a, NotSpace);
    var d := Skip(s, b, IsSpace);
    KeywordBeforeSpace(s, p, "repeat");
    KeywordAtIsWord(s, p, "repeat");
    var w := if FollowedAt(s, d, "times") then "times" else "time";
    KeywordAfterSpace(s, d, w);
    KeywordAtIsWord(s, d, w);
    assert RepeatPhraseAt(s, p, p + 6, a, b, d, d + |w|);
  }

  /** A `repeat` phrase is matched by the `repeat` pattern at its first word. */
  lemma RepeatPhraseIsMatched(s: string, i: nat, j: nat, a: nat, b: nat, d: nat, e: nat)
    requires 0 <= i < j < a < b < d < e <= |s| && RepeatPhraseAt(s, i, j, a, b, d, e)
    ensures RuleAt(RepeatTimes, s, i)
  {
    PhraseKeywords();
    var w := if WordIs(s, d, e, "times") then "times" else "time";
    WordIsKeywordAt(s, i, j, "repeat");
    WordIsKeywordAt(s, d, e, w);
    CountSpanNotSpace(s, a, b);
    SkipEndsAt(s, i + 6, IsSpace, a);
    SkipEndsAt(s, a, NotSpace, b);
    SkipEndsAt(s, b, IsSpace, d);
    RepeatAtParts(s, i, a, b, d, w);
  }

  /** A lower-case keyword read as a word is matched by `\b<w>\b` there. */
  lemma WordIsKeywordAt(s: string, i: nat, j: nat, w: string)
    requires IsKeyword(w) && LowerStr(w) == w && WordIs(s, i, j, w)
    ensures j == i + |w| && KeywordAt(s, i, w)
  {
    WordIsLength(s, i, j, w);
    KeywordAtIsWord(s, i, w);
  }

  /** No character of a count is whitespace. */
  lemma CountSpanNotSpace(s: string, a: nat, b: nat)
    requires CountSpan(s, a, b)
    ensures forall k | a <= k < b :: NotSpace(s[k])
  {
    CountHasNoSpace(s[a..b]);
    forall k | a <= k < b
      ensures NotSpace(s[k])
    {
      assert s[a..b][k - a] == s[k];
    }
  }

  /** The pieces of a `repeat` match, each established separately. */
  lemma RepeatAtParts(s: string, p: nat, a: nat, b: nat, d: nat, w: string)
    requires KeywordAt(s, p, "repeat") && (w == "times" || w == "time") && FollowedAt(s, d, w)
    requires p + 6 < a <= b <= |s| && IsCount(s[a..b]) && b < d
    requires Skip(s, p + 6, IsSpace) == a && Skip(s, a, NotSpace) == b && Skip(s, b, IsSpace) == d
    ensures RepeatAt(s, p)
  {
  }

  lemma RepeatSearchFindsPhrase(s: string)
    requires Search(RepeatTimes, s)
    ensures RepeatPhrase(s)
  {
    var p :| 0 <= p <= |s| && RuleAt(RepeatTimes, s, p);
    RepeatAtIsPhrase(s, p);
  }

  lemma RepeatPhraseIsFound(s: string)
    requires RepeatPhrase(s)
    ensures Search(RepeatTimes, s)
  {
    forall i, j, a, b, d, e | 0 <= i < j < a < b < d < e <= |s| && RepeatPhraseAt(s, i, j, a, b, d, e)
      ensures Search(RepeatTimes, s)
    {
      RepeatPhraseIsMatched(s, i, j, a, b, d, e);
    }
  }

  /** Searching with the `repeat` pattern succeeds exactly when the text
      has the word `repeat`, whitespace, a count, whitespace and the word
      `time` or `times`. */
  lemma RepeatSearch(s: string)
    ensures Search(RepeatTimes, s) <==> RepeatPhrase(s)
  {
    if Search(RepeatTimes, s) {
      RepeatSearchFindsPhrase(s);
    }
    if RepeatPhrase(s) {
      RepeatPhraseIsFound(s);
    }
  }

}
