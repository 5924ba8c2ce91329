/** `Scanner.analyze_script`: the three passes over one snippet (commands,
    blocks, positional flag), and theorems stating in word-level terms
    exactly what each pass reports. */
module Classify {
  import opened Optional
  import opened Text
  import opened Patterns
  import opened Words
  import opened Usage

  /** Every alternative can match whole between two `\b`. */
  predicate KeywordList(alts: seq<string>) {
    forall k | 0 <= k < |alts| :: IsKeyword(alts[k])
  }

  /** The alternatives lower-cased: what a case-insensitive alternation can
      report once its group is lower-cased. */
  function Vocabulary(alts: seq<string>): set<string> {
    set k | 0 <= k < |alts| :: LowerStr(alts[k])
  }

  /** The alternative a regex alternation `\b(a0|a1|…)\b` takes at `p`: the
      first, from index `i` on, that matches whole there. */
  function FirstAlternative(alts: seq<string>, s: string, p: nat, i: nat): (r: Option<nat>)
    requires i <= |alts|
    ensures r.Some? ==> i <= r.value < |alts| && KeywordAt(s, p, alts[r.value])
    ensures r.Some? ==> forall k | i <= k < r.value :: !KeywordAt(s, p, alts[k])
    ensures r.None? ==> forall k | i <= k < |alts| :: !KeywordAt(s, p, alts[k])
    decreases |alts| - i
  {
    if i == |alts| then None
    else if KeywordAt(s, p, alts[i]) then Some(i)
    else FirstAlternative(alts, s, p, i + 1)
  }

  /** What a `finditer` loop finds at one position: the reported word and
      how many characters the match consumes, or nothing. */
  type Finder = nat -> Option<(string, nat)>

  /** Every match consumes at least one character. */
  ghost predicate Consumes(f: Finder) {
    forall p: nat :: f(p).Some? ==> f(p).value.1 > 0
  }

  /** No match starts strictly inside another one. */
  ghost predicate NoOverlap(f: Finder) {
    forall p: nat, q: nat :: f(p).Some? && p < q < p + f(p).value.1 ==> f(q).None?
  }

  /** The `finditer` loop over positions `p` .. `n - 1`: after a match the
      scan resumes at its end, otherwise one position further. */
  function Collect(f: Finder, n: nat, p: nat): (r: seq<string>)
    requires Consumes(f)
    ensures |r| <= if p < n then n - p else 0
    decreases n - p
  {
    if p >= n then []
    else match f(p)
      case None => Collect(f, n, p + 1)
      case Some((w, len)) => [w] + Collect(f, n, p + len)
  }

  /** Every collected word is found at some position of the range. */
  lemma {:induction false} CollectSound(f: Finder, n: nat, p: nat, w: string)
    requires Consumes(f) && w in Collect(f, n, p)
    ensures exists q | p <= q < n :: f(q).Some? && f(q).value.0 == w
    decreases n - p
  {
    if f(p).None? {
      CollectSound(f, n, p + 1, w);
    } else if w != f(p).value.0 {
      CollectSound(f, n, p + f(p).value.1, w);
    }
  }

  /** When matches never overlap, every match at or after `p` is collected. */
  lemma {:induction false} CollectComplete(f: Finder, n: nat, p: nat, q: nat)
    requires Consumes(f) && NoOverlap(f) && p <= q < n && f(q).Some?
    ensures f(q).value.0 in Collect(f, n, p)
    decreases n - p
  {
    if p < q {
      if f(p).None? {
        CollectComplete(f, n, p + 1, q);
      } else if q >= p + f(p).value.1 {
        CollectComplete(f, n, p + f(p).value.1, q);
      } else {
        assert false;
      }
    }
  }

  /** A case-insensitive alternation at every position: the first matching
      alternative's text, lower-cased, and its length. */
  function AlternationStep(alts: seq<string>, s: string): (r: Finder)
    ensures forall p: nat :: r(p).Some? ==>
      p + r(p).value.1 <= |s| && r(p).value.0 == LowerStr(s[p..p + r(p).value.1])
  {
    (p: nat) =>
      match FirstAlternative(alts, s, p, 0)
      case None => None
      case Some(k) => Some((LowerStr(s[p..p + |alts[k]|]), |alts[k]|))
  }

  /** Where alternative `k` is the one taken, its lower-case form is
      reported and `|alts[k]|` characters are consumed. */
  lemma AlternationStepAt(alts: seq<string>, s: string, p: nat, k: nat)
    requires FirstAlternative(alts, s, p, 0) == Some(k)
    ensures AlternationStep(alts, s)(p) == Some((LowerStr(alts[k]), |alts[k]|))
  {
    assert LowerStr(s[p..p + |alts[k]|]) == LowerStr(alts[k]);
  }

  /** Alternatives are non-empty, so every match consumes something. */
  lemma AlternationConsumes(alts: seq<string>, s: string)
    requires KeywordList(alts)
    ensures Consumes(AlternationStep(alts, s))
  {
    forall p: nat | AlternationStep(alts, s)(p).Some?
      ensures AlternationStep(alts, s)(p).value.1 > 0
    {
      var k := FirstAlternative(alts, s, p, 0).value;
      assert IsKeyword(alts[k]);
    }
  }

  /** Whole-word matches of an alternation never overlap. */
  lemma AlternationNoOverlap(alts: seq<string>, s: string)
    requires KeywordList(alts)
    ensures NoOverlap(AlternationStep(alts, s))
  {
    var f := AlternationStep(alts, s);
    forall p: nat, q: nat | f(p).Some? && p < q < p + f(p).value.1
      ensures f(q).None?
    {
      var k := FirstAlternative(alts, s, p, 0).value;
      var m := FirstAlternative(alts, s, q, 0);
      if m.Some? {
        NoStraddle(s, p, alts[k], q, alts[m.value]);
        assert false;
      }
    }
  }

  /** `finditer` of a case-insensitive alternation from position `p`, each
      match's group lower-cased. */
  function FindWords(alts: seq<string>, s: string, p: nat): (r: seq<string>)
    requires KeywordList(alts)
    ensures forall w | w in r :: w in Vocabulary(alts)
  {
    AlternationInVocabulary(alts, s, p);
    Collect(AlternationStep(alts, s), |s|, p)
  }

  /** Every word an alternation reports is an alternative, lower-cased. */
  lemma AlternationInVocabulary(alts: seq<string>, s: string, p: nat)
    requires KeywordList(alts)
    ensures Consumes(AlternationStep(alts, s))
    ensures forall w | w in Collect(AlternationStep(alts, s), |s|, p) :: w in Vocabulary(alts)
  {
    AlternationConsumes(alts, s);
    var f := AlternationStep(alts, s);
    forall w | w in Collect(f, |s|, p)
      ensures w in Vocabulary(alts)
    {
      CollectSound(f, |s|, p, w);
      var q :| p <= q < |s| && f(q).Some? && f(q).value.0 == w;
      AlternationStepAt(alts, s, q, FirstAlternative(alts, s, q, 0).value);
    }
  }

  /** The command vocabulary is exactly `VALID_COMMANDS`. */
  lemma CommandVocabulary()
    ensures KeywordList(COMMAND_ALTERNATIVES)
    ensures Vocabulary(COMMAND_ALTERNATIVES) == VALID_COMMANDS
  {
    AlternativesAreValidCommands();
    ValidCommandsAreAlternatives();
  }

  /** The `for block_name, pattern in BLOCK_PATTERNS.items()` loop from
      entry `i` on. */
  function BlocksFrom(s: string, i: nat): (r: set<string>)
    requires i <= |BLOCK_PATTERNS|
    ensures r <= VALID_BLOCKS && "unless" !in r
    decreases |BLOCK_PATTERNS| - i
  {
    if i == |BLOCK_PATTERNS| then {}
    else
      var (name, rule) := BLOCK_PATTERNS[i];
      (if Search(rule, s) then {Canonical(name)} else {}) + BlocksFrom(s, i + 1)
  }

  /** `analyze_script(script)`. */
  function AnalyzeScript(s: string): (r: FileUsage)
    ensures r.commands <= VALID_COMMANDS
    ensures r.blocks <= VALID_BLOCKS && "unless" !in r.blocks
  {
    CommandVocabulary();
    FileUsage(
      (set c | c in FindWords(COMMAND_ALTERNATIVES, s, 0)),
      BlocksFrom(s, 0),
      AlternationMatches(POSITIONAL_ALTERNATIVES, s))
  }

  // ---------------------------------------------------------------------
  // Alternations

  /** Every word the scan reports occurs in the text as a whole word. */
  lemma FindWordsSound(alts: seq<string>, s: string, p: nat, w: string)
    requires KeywordList(alts) && w in FindWords(alts, s, p)
    ensures WordOccurs(s, w)
  {
    AlternationConsumes(alts, s);
    var f := AlternationStep(alts, s);
    CollectSound(f, |s|, p, w);
    var q :| p <= q < |s| && f(q).Some? && f(q).value.0 == w;
    var k := FirstAlternative(alts, s, q, 0).value;
    AlternationStepAt(alts, s, q, k);
    assert w == LowerStr(alts[k]);
    AlternationFindsWord(alts, s, q);
  }

  /** A whole-word match cannot start strictly inside another one. */
  lemma NoStraddle(s: string, p: nat, w: string, q: nat, w': string)
    requires IsKeyword(w) && KeywordAt(s, p, w) && p < q < p + |w|
    ensures !KeywordAt(s, q, w')
  {
    FoldedKeywordIsWordChars(s, p, w);
    assert IsWordChar(s[q - 1]) && IsWordChar(s[q]);
  }

  /** Two whole-word matches at the same place have the same length. */
  lemma SameStartSameLength(s: string, p: nat, w: string, w': string)
    requires IsKeyword(w) && IsKeyword(w') && KeywordAt(s, p, w) && KeywordAt(s, p, w')
    ensures |w| == |w'|
  {
    if |w| < |w'| {
      FoldedKeywordIsWordChars(s, p, w');
    } else if |w'| < |w| {
      FoldedKeywordIsWordChars(s, p, w);
    }
  }

  /** Every whole-word match of an alternative at or after `p` is reported. */
  lemma FindWordsComplete(alts: seq<string>, s: string, p: nat, q: nat, k: nat)
    requires KeywordList(alts) && p <= q && k < |alts| && KeywordAt(s, q, alts[k])
    ensures LowerStr(alts[k]) in FindWords(alts, s, p)
  {
    var m := FirstAlternative(alts, s, q, 0);
    assert m.Some?;
    SameStartSameLength(s, q, alts[m.value], alts[k]);
    AlternationStepAt(alts, s, q, m.value);
    assert LowerStr(alts[m.value]) == LowerStr(s[q..q + |alts[k]|]) == LowerStr(alts[k]);
    AlternationConsumes(alts, s);
    AlternationNoOverlap(alts, s);
    CollectComplete(AlternationStep(alts, s), |s|, p, q);
  }

  /** The scan reports exactly the vocabulary words occurring whole. */
  lemma FindWordsExact(alts: seq<string>, s: string, w: string)
    requires KeywordList(alts)
    ensures w in FindWords(alts, s, 0) <==> w in Vocabulary(alts) && WordOccurs(s, w)
  {
    if w in FindWords(alts, s, 0) {
      FindWordsSound(alts, s, 0, w);
    }
    if w in Vocabulary(alts) && WordOccurs(s, w) {
      var k :| 0 <= k < |alts| && LowerStr(alts[k]) == w;
      forall i, j | 0 <= i < j <= |s| && WordIs(s, i, j, w)
        ensures w in FindWords(alts, s, 0)
      {
        AlternativeAtWord(alts, s, k, i, j);
        FindWordsComplete(alts, s, 0, i, k);
      }
    }
  }

  /** A word reading as a lower-cased alternative is matched by it. */
  lemma AlternativeAtWord(alts: seq<string>, s: string, k: nat, i: nat, j: nat)
    requires KeywordList(alts) && k < |alts| && WordIs(s, i, j, LowerStr(alts[k]))
    ensures KeywordAt(s, i, alts[k])
  {
    WordIsLength(s, i, j, LowerStr(alts[k]));
    assert |LowerStr(alts[k])| == |alts[k]|;
    KeywordAtIsWord(s, i, alts[k]);
  }

  /** What an alternation finds is a word reading as a lower-cased
      alternative. */
  lemma AlternationFindsWord(alts: seq<string>, s: string, p: nat)
    requires KeywordList(alts) && FirstAlternative(alts, s, p, 0).Some?
    ensures WordIs(s, p, p + |alts[FirstAlternative(alts, s, p, 0).value]|,
                   LowerStr(alts[FirstAlternative(alts, s, p, 0).value]))
  {
    KeywordAtIsWord(s, p, alts[FirstAlternative(alts, s, p, 0).value]);
  }

  /** Where an alternation matches, some alternative occurs as a word. */
  lemma AlternationMatchIsWord(alts: seq<string>, s: string, p: nat)
    requires KeywordList(alts) && FirstAlternative(alts, s, p, 0).Some?
    ensures exists k | 0 <= k < |alts| :: WordOccurs(s, LowerStr(alts[k]))
  {
    var k := FirstAlternative(alts, s, p, 0).value;
    AlternationFindsWord(alts, s, p);
    assert WordOccurs(s, LowerStr(alts[k]));
  }

  /** Where an alternative occurs as a word, the alternation matches. */
  lemma WordIsAlternationMatch(alts: seq<string>, s: string, k: nat, i: nat, j: nat)
    requires KeywordList(alts) && k < |alts| && WordIs(s, i, j, LowerStr(alts[k]))
    ensures FirstAlternative(alts, s, i, 0).Some?
  {
    AlternativeAtWord(alts, s, k, i, j);
  }

  /** `pattern.search(s) is not None` for an alternation. */
  predicate AlternationMatches(alts: seq<string>, s: string) {
    exists p | 0 <= p <= |s| :: FirstAlternative(alts, s, p, 0).Some?
  }

  /** Some alternative occurs in `s` as a whole word, in any letter case. */
  predicate SomeAlternativeOccurs(alts: seq<string>, s: string) {
    exists k | 0 <= k < |alts| :: WordOccurs(s, LowerStr(alts[k]))
  }

  /** `search` with an alternation succeeds exactly when some alternative
      occurs as a whole word. */
  lemma AlternationSearch(alts: seq<string>, s: string)
    requires KeywordList(alts)
    ensures AlternationMatches(alts, s) <==> SomeAlternativeOccurs(alts, s)
  {
    if AlternationMatches(alts, s) {
      var p :| 0 <= p <= |s| && FirstAlternative(alts, s, p, 0).Some?;
      AlternationMatchIsWord(alts, s, p);
    }
    if SomeAlternativeOccurs(alts, s) {
      var k :| 0 <= k < |alts| && WordOccurs(s, LowerStr(alts[k]));
      var i, j :| 0 <= i < j <= |s| && WordIs(s, i, j, LowerStr(alts[k]));
      WordIsAlternationMatch(alts, s, k, i, j);
    }
  }

  /** The command pass reports exactly the valid commands occurring as whole
      words, in any letter case. */
  lemma CommandsDetected(s: string, c: string)
    ensures c in AnalyzeScript(s).commands <==> c in VALID_COMMANDS && WordOccurs(s, c)
  {
    CommandVocabulary();
    FindWordsExact(COMMAND_ALTERNATIVES, s, c);
  }

  /** The positional flag is raised exactly when one of `first`, `last`,
      `next`, `previous`, `closest`, `parent` occurs as a whole word. */
  lemma PositionalDetected(s: string)
    ensures AnalyzeScript(s).positional <==>
      exists k | 0 <= k < |POSITIONAL_ALTERNATIVES| :: WordOccurs(s, POSITIONAL_ALTERNATIVES[k])
  {
    PositionalVocabulary();
    AlternationSearch(POSITIONAL_ALTERNATIVES, s);
    if SomeAlternativeOccurs(POSITIONAL_ALTERNATIVES, s) {
      var k :| 0 <= k < |POSITIONAL_ALTERNATIVES| && WordOccurs(s, LowerStr(POSITIONAL_ALTERNATIVES[k]));
      assert WordOccurs(s, POSITIONAL_ALTERNATIVES[k]);
    }
    if k :| 0 <= k < |POSITIONAL_ALTERNATIVES| && WordOccurs(s, POSITIONAL_ALTERNATIVES[k]) {
      assert WordOccurs(s, LowerStr(POSITIONAL_ALTERNATIVES[k]));
    }
  }

  // ---------------------------------------------------------------------
  // Blocks

  /** One iteration of the block loop: entry `i` contributes its canonical
      name when its pattern is found. */
  lemma BlockStep(s: string, i: nat, b: string)
    requires i < |BLOCK_PATTERNS|
    ensures b in BlocksFrom(s, i) <==>
      (Search(BLOCK_PATTERNS[i].1, s) && b == Canonical(BLOCK_PATTERNS[i].0)) || b in BlocksFrom(s, i + 1)
  {
  }

  /** The whole block loop, in terms of the seven searches. */
  lemma BlocksBySearch(s: string, b: string)
    ensures b in BlocksFrom(s, 0) <==>
      || (b == "if" && (Search(Keyword("if"), s) || Search(Keyword("unless"), s)))
      || (b == "repeat" && Search(RepeatTimes, s))
      || (b == "for" && Search(ForEach, s))
      || (b == "while" && Search(Keyword("while"), s))
      || (b == "fetch" && Search(Keyword("fetch"), s))
      || (b == "async" && Search(Keyword("async"), s))
  {
    BlockStep(s, 6, b);
    BlockStep(s, 5, b);
    BlockStep(s, 4, b);
    BlockStep(s, 3, b);
    BlockStep(s, 2, b);
    BlockStep(s, 1, b);
    BlockStep(s, 0, b);
  }

  lemma BlockKeywords()
    ensures IsKeyword("if") && LowerStr("if") == "if"
    ensures IsKeyword("unless") && LowerStr("unless") == "unless"
    ensures IsKeyword("while") && LowerStr("while") == "while"
    ensures IsKeyword("fetch") && LowerStr("fetch") == "fetch"
    ensures IsKeyword("async") && LowerStr("async") == "async"
  {
    LowerWordIsKeyword("if");
    LowerWordIsKeyword("unless");
    LowerWordIsKeyword("while");
    LowerWordIsKeyword("fetch");
    LowerWordIsKeyword("async");
  }

  /** Whether block kind `b` is used by `s`, read at the word level. */
  predicate BlockUsed(s: string, b: string) {
    || (b == "if" && (WordOccurs(s, "if") || WordOccurs(s, "unless")))
    || (b == "repeat" && RepeatPhrase(s))
    || (b == "for" && ForPhrase(s))
    || ((b == "while" || b == "fetch" || b == "async") && WordOccurs(s, b))
  }

  /** The block pass reports `if` for a whole word `if` or `unless`,
      `repeat` for a `repeat <count> time(s)` phrase, `for` for `for each`
      or `for every`, and `while`, `fetch`, `async` for those whole words;
      nothing else. */
  lemma BlocksDetected(s: string, b: string)
    ensures b in AnalyzeScript(s).blocks <==> BlockUsed(s, b)
  {
    BlocksBySearch(s, b);
    BlockKeywords();
    KeywordSearch(s, "if");
    KeywordSearch(s, "unless");
    KeywordSearch(s, "while");
    KeywordSearch(s, "fetch");
    KeywordSearch(s, "async");
    ForSearch(s);
    RepeatSearch(s);
  }

}
