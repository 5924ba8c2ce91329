/** Character classes, ASCII case folding and the small string searches the
    scanner's regular expressions are built from.

    Only the ASCII range is modelled: `\w` is `[A-Za-z0-9_]`, `\s` and
    `str.isspace()` are the ASCII whitespace characters, and IGNORECASE folds
    `A`-`Z` onto `a`-`z`. Every other character is neither a word character
    nor whitespace and folds to itself. */
module Text {

  /** `\w` on the ASCII range. */
  predicate IsWordChar(c: char) {
    ('a' <= c <= 'z') || ('A' <= c <= 'Z') || ('0' <= c <= '9') || c == '_'
  }

  /** `\d` on the ASCII range. */
  predicate IsDigit(c: char) {
    '0' <= c <= '9'
  }

  /** `\s` and `str.isspace()` on the ASCII range: tab, line feed, vertical
      tab, form feed, carriage return (9-13), the information separators
      (28-31) and space (32). */
  predicate IsSpace(c: char) {
    (9 <= c as int <= 13) || (28 <= c as int <= 32)
  }

  predicate NotSpace(c: char) {
    !IsSpace(c)
  }

  /** ASCII case folding, as `str.lower()` and IGNORECASE do on this range. */
  function Lower(c: char): char {
    if 'A' <= c <= 'Z' then (c as int + 32) as char else c
  }

  function LowerStr(s: string): string {
    seq(|s|, k requires 0 <= k < |s| => Lower(s[k]))
  }

  /** Folding keeps a character inside or outside `\w`. */
  lemma LowerKeepsWordChar(c: char)
    ensures IsWordChar(Lower(c)) <==> IsWordChar(c)
    ensures IsSpace(Lower(c)) <==> IsSpace(c)
  {
  }

  predicate AllSpace(s: string) {
    forall k | 0 <= k < |s| :: IsSpace(s[k])
  }

  /** The literal `lit` occurs in `s` at position `p`. */
  predicate HasAt(s: string, p: nat, lit: string) {
    p + |lit| <= |s| && s[p..p + |lit|] == lit
  }

  /** The literal `lit` occurs in `s` at position `p`, ignoring ASCII case. */
  predicate HasAtFolded(s: string, p: nat, lit: string) {
    p + |lit| <= |s| && LowerStr(s[p..p + |lit|]) == LowerStr(lit)
  }

  /** The middle part of a concatenation is found where it starts, and
      at the front of what follows the first part. */
  lemma HasAtMiddle(pre: string, w: string, post: string)
    ensures HasAt(pre + w + post, |pre|, w)
    ensures pre + w + post == pre + (w + post) && HasAt(w + post, 0, w)
  {
    var s := pre + w + post;
    forall i | 0 <= i < |w|
      ensures s[|pre|..|pre| + |w|][i] == w[i]
    {
      assert s[|pre| + i] == w[i];
    }
    assert (w + post)[..|w|] == w;
  }

  /** Each character of a text found at `p` lies at the same offset from `p`
      in the enclosing text. */
  lemma CharsWithin(s: string, p: nat, w: string)
    requires HasAt(s, p, w)
    ensures forall i | 0 <= i < |w| :: s[p + i] == w[i]
  {
    forall i | 0 <= i < |w|
      ensures s[p + i] == w[i]
    {
      assert s[p..p + |w|][i] == s[p + i];
    }
  }

  /** One character of a text found at `p`, in the enclosing text. */
  lemma CharWithin(s: string, p: nat, w: string, i: nat)
    requires HasAt(s, p, w) && i < |w|
    ensures s[p + i] == w[i]
  {
    assert s[p..p + |w|][i] == s[p + i];
  }

  /** A literal found inside a text found at `p` is found in the enclosing
      text, shifted by `p`. */
  lemma HasAtWithin(s: string, p: nat, w: string, a: nat, lit: string)
    requires HasAt(s, p, w) && HasAt(w, a, lit)
    ensures HasAt(s, p + a, lit)
  {
    CharsWithin(s, p, w);
    forall i | 0 <= i < |lit|
      ensures s[p + a..p + a + |lit|][i] == lit[i]
    {
      assert w[a..a + |lit|][i] == w[a + i];
    }
  }

  /** Text that lies wholly inside `pre` is found in `pre + rest` exactly
      when it is found in `pre`, with or without case. */
  lemma HasAtPrefix(pre: string, rest: string, p: nat, lit: string)
    requires p + |lit| <= |pre|
    ensures HasAt(pre + rest, p, lit) == HasAt(pre, p, lit)
    ensures HasAtFolded(pre + rest, p, lit) == HasAtFolded(pre, p, lit)
  {
    assert (pre + rest)[p..p + |lit|] == pre[p..p + |lit|];
  }

  /** A literal is not found where one of its characters is missing. */
  lemma NotAtWhereDiffers(s: string, p: nat, lit: string, i: nat)
    requires i < |lit| && p + i < |s| && s[p + i] != lit[i]
    ensures !HasAt(s, p, lit)
  {
    if p + |lit| <= |s| {
      assert s[p..p + |lit|][i] == s[p + i];
    }
  }

  /** A literal is not found, in any case, where one of its characters
      differs after folding. */
  lemma FoldedNotAtWhereDiffers(s: string, p: nat, lit: string, i: nat)
    requires i < |lit| && p + i < |s| && Lower(s[p + i]) != Lower(lit[i])
    ensures !HasAtFolded(s, p, lit)
  {
    if p + |lit| <= |s| {
      assert LowerStr(s[p..p + |lit|])[i] == Lower(s[p + i]);
      assert LowerStr(lit)[i] == Lower(lit[i]);
    }
  }

  /** `sub in s`: Python's substring test. */
  predicate IsSubstring(sub: string, s: string) {
    exists i | 0 <= i <= |s| :: HasAt(s, i, sub)
  }

  /** The end of the run of characters satisfying `keep` that starts at `p`:
      how a greedy `[class]*` advances. */
  function Skip(s: string, p: nat, keep: char -> bool): (r: nat)
    requires p <= |s|
    ensures p <= r <= |s|
    ensures forall k | p <= k < r :: keep(s[k])
    ensures r == |s| || !keep(s[r])
    decreases |s| - p
  {
    if p == |s| || !keep(s[p]) then p else Skip(s, p + 1, keep)
  }

  /** A run and the character that stops it determine where `Skip` ends. */
  lemma SkipEndsAt(s: string, p: nat, keep: char -> bool, r: nat)
    requires p <= r <= |s|
    requires forall k | p <= k < r :: keep(s[k])
    requires r == |s| || !keep(s[r])
    ensures Skip(s, p, keep) == r
  {
  }

  /** A run that stops inside `pre`, or at its end when the text after it
      cannot continue the run, stops at the same place in `pre + rest`. */
  lemma SkipExtends(pre: string, rest: string, p: nat, keep: char -> bool)
    requires p <= |pre|
    requires Skip(pre, p, keep) < |pre| || (rest != [] && !keep(rest[0]))
    ensures Skip(pre + rest, p, keep) == Skip(pre, p, keep)
  {
    var s := pre + rest;
    var r := Skip(pre, p, keep);
    forall k | p <= k < r
      ensures keep(s[k])
    {
      assert s[k] == pre[k];
    }
    assert !keep(s[r]) by {
      if r < |pre| {
        assert s[r] == pre[r];
      } else {
        assert s[r] == rest[0];
      }
    }
    SkipEndsAt(s, p, keep, r);
  }

  /** The largest `hi' <= hi` such that `s[hi'..hi]` is whitespace, not going
      below `lo`. */
  function DropTrailingSpace(s: string, lo: nat, hi: nat): (r: nat)
    requires lo <= hi <= |s|
    ensures lo <= r <= hi
    ensures forall k | r <= k < hi :: IsSpace(s[k])
    ensures r == lo || !IsSpace(s[r - 1])
    decreases hi
  {
    if hi > lo && IsSpace(s[hi - 1]) then DropTrailingSpace(s, lo, hi - 1) else hi
  }

  /** `str.strip()`: the text with its leading and trailing whitespace removed. */
  function Trim(s: string): (r: string)
    ensures r == [] || (!IsSpace(r[0]) && !IsSpace(r[|r| - 1]))
  {
    var a := Skip(s, 0, IsSpace);
    var b := DropTrailingSpace(s, a, |s|);
    s[a..b]
  }

  /** What `Trim` keeps is `s` less a whitespace prefix and a whitespace
      suffix. */
  lemma TrimCutsSpace(s: string)
    ensures exists a, b | 0 <= a <= b <= |s| :: TrimmedFrom(s, a, b) && Trim(s) == s[a..b]
  {
    var a := Skip(s, 0, IsSpace);
    var b := DropTrailingSpace(s, a, |s|);
    assert TrimmedFrom(s, a, b);
  }

  /** `s[a..b]` is what is left of `s` once whitespace prefix `s[..a]` and
      whitespace suffix `s[b..]` are cut off. */
  predicate TrimmedFrom(s: string, a: nat, b: nat)
    requires a <= b <= |s|
  {
    AllSpace(s[..a]) && AllSpace(s[b..])
  }

}
