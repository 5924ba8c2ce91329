/** `Scanner.extract_hyperscript`: each carrier of the catalogue is matched
    at a position deterministically (every greedy run stops at the first
    character outside its class, every lazy body at the first closing
    delimiter), `finditer` is a left-to-right scan that resumes at the end
    of each match, and each match's group is stripped and kept when
    non-empty. */
module Extract {
  import opened Optional
  import opened Text
  import opened Patterns

  /** One regex match: it spans `s[start..end]` and its group `s[from..to]`. */
  datatype Match = Match(start: nat, from: nat, to: nat, end: nat)

  predicate Valid(m: Match, s: string) {
    m.start < m.from <= m.to < m.end <= |s|
  }

  predicate NotGt(c: char) {
    c != '>'
  }

  /** The class `[^…]` of characters outside `quotes`. */
  function Outside(quotes: set<char>): char -> bool {
    (c: char) => c !in quotes
  }

  /** The first `k` in `[q, n]` at which `found` holds: how a lazy `(.*?)`
      chooses where its body ends. */
  function First(q: nat, n: nat, found: nat -> bool): (r: Option<nat>)
    requires q <= n
    ensures r.Some? ==> q <= r.value <= n && found(r.value)
    ensures r.Some? ==> forall k | q <= k < r.value :: !found(k)
    ensures r.None? ==> forall k | q <= k <= n :: !found(k)
    decreases n - q
  {
    if found(q) then Some(q)
    else if q == n then None
    else First(q + 1, n, found)
  }

  /** `lead` + one opening character of `quotes` + body + one closing
      character of `quotes` + `trail`, at `p`. The body is the greedy run of
      characters outside `quotes`; since it stops only at a character of
      `quotes`, no shorter body could be followed by one. */
  function AttributeAt(lead: string, quotes: set<char>, nonEmpty: bool, trail: string, s: string, p: nat): (r: Option<Match>)
    ensures r.Some? ==> r.value.start == p && Valid(r.value, s)
    ensures r.Some? ==> AttributeIn(lead, quotes, nonEmpty, trail, s, r.value)
  {
    if !(HasAt(s, p, lead) && p + |lead| < |s| && s[p + |lead|] in quotes) then None
    else
      var from := p + |lead| + 1;
      var to := Skip(s, from, Outside(quotes));
      if to < |s| && (nonEmpty ==> from < to) && HasAt(s, to + 1, trail) then
        Some(Match(p, from, to, to + 1 + |trail|))
      else None
  }

  /** `m` spans `lead`, an opening character of `quotes`, a body free of
      `quotes` (non-empty when `nonEmpty`), a closing character of `quotes`
      and `trail`; the group is the body. */
  predicate AttributeIn(lead: string, quotes: set<char>, nonEmpty: bool, trail: string, s: string, m: Match)
    requires Valid(m, s)
  {
    && HasAt(s, m.start, lead) && m.from == m.start + |lead| + 1 && s[m.from - 1] in quotes
    && s[m.to] in quotes && (forall k | m.from <= k < m.to :: s[k] !in quotes)
    && (nonEmpty ==> m.from < m.to)
    && HasAt(s, m.to + 1, trail) && m.end == m.to + 1 + |trail|
  }

  /** `\{%\s*name` at `k`, and where the name ends. */
  function TagOpen(s: string, k: nat, name: string): (r: Option<nat>)
    ensures r.Some? ==> k + 2 + |name| <= r.value <= |s|
    ensures r.Some? ==>
      && HasAt(s, k, "{%") && HasAt(s, r.value - |name|, name)
      && forall i | k + 2 <= i < r.value - |name| :: IsSpace(s[i])
  {
    if !HasAt(s, k, "{%") then None
    else
      var a := Skip(s, k + 2, IsSpace);
      if HasAt(s, a, name) then Some(a + |name|) else None
  }

  /** `\s*%\}` at `d`, and where it ends. */
  function TagClose(s: string, d: nat): (r: Option<nat>)
    requires d <= |s|
    ensures r.Some? ==> d + 2 <= r.value <= |s|
    ensures r.Some? ==> HasAt(s, r.value - 2, "%}") && forall i | d <= i < r.value - 2 :: IsSpace(s[i])
  {
    var e := Skip(s, d, IsSpace);
    if HasAt(s, e, "%}") then Some(e + 2) else None
  }

  /** `\{%\s*name\s*%\}` at `k`, and where it ends. */
  function TagAt(s: string, k: nat, name: string): (r: Option<nat>)
    ensures r.Some? ==> k + 4 + |name| <= r.value <= |s|
  {
    match TagOpen(s, k, name)
    case None => None
    case Some(e) => TagClose(s, e)
  }

  /** Where `{% endhs %}` can close a block. */
  function ClosesBlock(s: string): nat -> bool {
    (k: nat) => TagAt(s, k, "endhs").Some?
  }

  /** Where `</script>` (any case) can close a script element. */
  function ClosesScript(s: string): nat -> bool {
    (k: nat) => HasAtFolded(s, k, "</script>")
  }

  /** `\{%\s*hs\s*%\}(.*?)\{%\s*endhs\s*%\}` at `p`: the body ends at the
      first closing tag. */
  function BlockTagAt(s: string, p: nat): (r: Option<Match>)
    ensures r.Some? ==> r.value.start == p && Valid(r.value, s)
    ensures r.Some? ==> BlockIn(s, r.value)
  {
    match TagAt(s, p, "hs")
    case None => None
    case Some(from) =>
      match First(from, |s|, ClosesBlock(s))
      case None => None
      case Some(to) =>
        assert forall k | from <= k < to :: TagAt(s, k, "endhs").None? by {
          forall k | from <= k < to
            ensures TagAt(s, k, "endhs").None?
          {
            assert !ClosesBlock(s)(k);
          }
        }
        Some(Match(p, from, to, TagAt(s, to, "endhs").value))
  }

  /** `m` opens with `{% hs %}`, which ends where the group starts, and
      closes with the first `{% endhs %}` after it, at the end of the group. */
  predicate BlockIn(s: string, m: Match)
    requires Valid(m, s)
  {
    && TagAt(s, m.start, "hs") == Some(m.from) && TagAt(s, m.to, "endhs") == Some(m.end)
    && forall k | m.from <= k < m.to :: TagAt(s, k, "endhs").None?
  }

  /** `\{%\s*name\s+Q([^Q]+)Q\s*%\}` at `p`, with `Q` the quote. */
  function StringTagAt(name: string, quote: char, s: string, p: nat): (r: Option<Match>)
    ensures r.Some? ==> r.value.start == p && Valid(r.value, s)
    ensures r.Some? ==> StringTagIn(name, quote, s, r.value)
  {
    match TagOpen(s, p, name)
    case None => None
    case Some(e) => QuotedArgument(quote, s, p, e)
  }

  /** `m` opens with `{%` and `name`, followed by a quoted argument. */
  predicate StringTagIn(name: string, quote: char, s: string, m: Match)
    requires Valid(m, s)
  {
    TagOpen(s, m.start, name).Some? && QuotedArgumentIn(quote, s, TagOpen(s, m.start, name).value, m)
  }

  /** The group of `m` is a non-empty body free of `quote`, between two
      `quote`s; whitespace runs from `e` to the opening one, and `\s*%\}`
      from the closing one to the end of `m`. */
  predicate QuotedArgumentIn(quote: char, s: string, e: nat, m: Match)
    requires Valid(m, s)
  {
    && e + 1 < m.from && s[m.from - 1] == quote && (forall k | e <= k < m.from - 1 :: IsSpace(s[k]))
    && m.from < m.to && s[m.to] == quote && (forall k | m.from <= k < m.to :: s[k] != quote)
    && TagClose(s, m.to + 1) == Some(m.end)
  }

  /** `\s+Q([^Q]+)Q\s*%\}` at `e`, completing a tag that started at `p`. */
  function QuotedArgument(quote: char, s: string, p: nat, e: nat): (r: Option<Match>)
    requires p < e <= |s|
    ensures r.Some? ==> r.value.start == p && Valid(r.value, s)
    ensures r.Some? ==> QuotedArgumentIn(quote, s, e, r.value)
  {
    var b := Skip(s, e, IsSpace);
    if !(e < b < |s| && s[b] == quote) then None
    else QuotedBody(quote, s, p, b)
  }

  /** `([^Q]+)Q\s*%\}` after the opening quote at `b`. */
  function QuotedBody(quote: char, s: string, p: nat, b: nat): (r: Option<Match>)
    requires p < b < |s|
    ensures r.Some? ==> var m := r.value;
      && m.start == p && m.from == b + 1 && Valid(m, s)
      && m.from < m.to && s[m.to] == quote && (forall k | m.from <= k < m.to :: s[k] != quote)
      && TagClose(s, m.to + 1) == Some(m.end)
  {
    var to := Skip(s, b + 1, Outside({quote}));
    if !(b + 1 < to < |s|) then None
    else
      match TagClose(s, to + 1)
      case None => None
      case Some(end) => Some(Match(p, b + 1, to, end))
  }

  /** `type=["']?text/hyperscript` at `t`, ending by `g`. The optional quote
      is taken whenever present, since `text/hyperscript` cannot start with
      one. */
  predicate TypeAttrAt(s: string, t: nat, g: nat) {
    HasAtFolded(s, t, "type=") &&
    var q := if t + 5 < |s| && (s[t + 5] == '"' || s[t + 5] == '\'') then t + 6 else t + 5;
    HasAtFolded(s, q, "text/hyperscript") && q + 16 <= g
  }

  /** `<script[^>]*type=["']?text/hyperscript["']?[^>]*>(.*?)</script>`,
      ignoring case, at `p`. No `[^>]*` can pass the first `>` after
      `<script`, so the opening tag ends there, and the type attribute
      must lie inside it. */
  function ScriptAt(s: string, p: nat): (r: Option<Match>)
    ensures r.Some? ==> r.value.start == p && Valid(r.value, s)
    ensures r.Some? ==> var m := r.value;
      && HasAtFolded(s, p, "<script") && s[m.from - 1] == '>'
      && (forall k | p + 7 <= k < m.from - 1 :: s[k] != '>')
      && ScriptIn(s, m)
  {
    match ScriptOpenAt(s, p)
    case None => None
    case Some(g) => ScriptClosedFrom(s, p, g)
  }

  /** The element whose opening tag, starting at `p`, ends with the `>` at
      `g`: its group runs from there to the first `</script>`, in any case,
      which ends the element. */
  function ScriptClosedFrom(s: string, p: nat, g: nat): (r: Option<Match>)
    requires p <= g < |s|
    ensures r.Some? ==> var m := r.value;
      && m.start == p && m.from == g + 1 && Valid(m, s)
      && HasAtFolded(s, m.to, "</script>") && m.end == m.to + 9
      && forall k | m.from <= k < m.to :: !HasAtFolded(s, k, "</script>")
  {
    match First(g + 1, |s|, ClosesScript(s))
    case None => None
    case Some(to) =>
      assert forall k | g + 1 <= k < to :: !HasAtFolded(s, k, "</script>") by {
        forall k | g + 1 <= k < to
          ensures !HasAtFolded(s, k, "</script>")
        {
          assert !ClosesScript(s)(k);
        }
      }
      Some(Match(p, g + 1, to, to + 9))
  }

  /** `m` opens with a `<script …>` tag declaring `type=text/hyperscript`,
      which ends where the group starts, and closes with the first
      `</script>` after it, in any case, at the end of the group. */
  predicate ScriptIn(s: string, m: Match)
    requires Valid(m, s)
  {
    && ScriptOpenAt(s, m.start) == Some(m.from - 1)
    && HasAtFolded(s, m.to, "</script>") && m.end == m.to + 9
    && forall k | m.from <= k < m.to :: !HasAtFolded(s, k, "</script>")
  }

  /** The position of the `>` closing a `<script …>` opening tag at `p`
      that declares `type=text/hyperscript`. */
  function ScriptOpenAt(s: string, p: nat): (r: Option<nat>)
    ensures r.Some? ==> p + 7 <= r.value < |s| && s[r.value] == '>'
    ensures r.Some? ==>
      && HasAtFolded(s, p, "<script") && (forall k | p + 7 <= k < r.value :: s[k] != '>')
      && exists t | p + 7 <= t < r.value :: TypeAttrAt(s, t, r.value)
  {
    if !HasAtFolded(s, p, "<script") then None
    else
      var g := Skip(s, p + 7, NotGt);
      if g == |s| || !(exists t | p + 7 <= t < g :: TypeAttrAt(s, t, g)) then None
      else Some(g)
  }

  /** `pattern.match(content, p)` for a carrier of the catalogue. */
  function MatchAt(c: Carrier, s: string, p: nat): (r: Option<Match>)
    ensures r.Some? ==> r.value.start == p && Valid(r.value, s)
    ensures r.Some? ==> Shaped(c, s, r.value)
  {
    match c
    case Attribute(lead, quotes, nonEmpty, trail) => AttributeAt(lead, quotes, nonEmpty, trail, s, p)
    case BlockTag => BlockTagAt(s, p)
    case StringTag(name, quote) => StringTagAt(name, quote, s, p)
    case ScriptElement => ScriptAt(s, p)
  }

  /** `m` has the layout of carrier `c`. */
  predicate Shaped(c: Carrier, s: string, m: Match)
    requires Valid(m, s)
  {
    match c
    case Attribute(lead, quotes, nonEmpty, trail) => AttributeIn(lead, quotes, nonEmpty, trail, s, m)
    case BlockTag => BlockIn(s, m)
    case StringTag(name, quote) => StringTagIn(name, quote, s, m)
    case ScriptElement => ScriptIn(s, m)
  }

  // ---------------------------------------------------------------------
  // Completeness: every text laid out as a carrier is matched

  /** An attribute laid out at `p`, its body running up to a closing quote
      at `to`, is matched there. */
  lemma AttributeAtComplete(lead: string, quotes: set<char>, nonEmpty: bool, trail: string, s: string, p: nat, to: nat)
    requires HasAt(s, p, lead) && p + |lead| + 1 <= to < |s|
    requires s[p + |lead|] in quotes && s[to] in quotes
    requires forall k | p + |lead| + 1 <= k < to :: s[k] !in quotes
    requires nonEmpty ==> p + |lead| + 1 < to
    requires HasAt(s, to + 1, trail)
    ensures AttributeAt(lead, quotes, nonEmpty, trail, s, p) == Some(Match(p, p + |lead| + 1, to, to + 1 + |trail|))
  {
    SkipEndsAt(s, p + |lead| + 1, Outside(quotes), to);
  }

  /** `{%`, whitespace, then `name` at `a` opens a tag. The name must not
      start with whitespace, as none of the catalogue's tag names does. */
  lemma TagOpenComplete(s: string, k: nat, name: string, a: nat)
    requires name != [] && !IsSpace(name[0])
    requires HasAt(s, k, "{%") && k + 2 <= a && HasAt(s, a, name)
    requires forall i | k + 2 <= i < a :: IsSpace(s[i])
    ensures TagOpen(s, k, name) == Some(a + |name|)
  {
    assert s[a] == s[a..a + |name|][0];
    SkipEndsAt(s, k + 2, IsSpace, a);
  }

  /** Whitespace from `d`, then `%}` at `e`, closes a tag. */
  lemma TagCloseComplete(s: string, d: nat, e: nat)
    requires d <= e && HasAt(s, e, "%}")
    requires forall i | d <= i < e :: IsSpace(s[i])
    ensures TagClose(s, d) == Some(e + 2)
  {
    assert s[e] == s[e..e + 2][0];
    SkipEndsAt(s, d, IsSpace, e);
  }

  /** `{% hs %}` ending at `from`, then the first `{% endhs %}` after it, at
      `to`, make a block. */
  lemma BlockTagAtComplete(s: string, p: nat, from: nat, to: nat, end: nat)
    requires TagAt(s, p, "hs") == Some(from) && from <= to
    requires TagAt(s, to, "endhs") == Some(end)
    requires forall k | from <= k < to :: TagAt(s, k, "endhs").None?
    ensures BlockTagAt(s, p) == Some(Match(p, from, to, end))
  {
    forall k | from <= k < to
      ensures !ClosesBlock(s)(k)
    {
      assert TagAt(s, k, "endhs").None?;
    }
    FirstIs(from, |s|, ClosesBlock(s), to);
  }

  /** A quoted argument laid out from `e` as `QuotedArgumentIn` says is
      recognised, for a quote that is not whitespace (the catalogue's are
      `"` and `'`). */
  lemma QuotedArgumentComplete(quote: char, s: string, p: nat, e: nat, m: Match)
    requires p < e <= |s| && !IsSpace(quote)
    requires m.start == p && Valid(m, s) && QuotedArgumentIn(quote, s, e, m)
    ensures QuotedArgument(quote, s, p, e) == Some(m)
  {
    SkipEndsAt(s, e, IsSpace, m.from - 1);
    SkipEndsAt(s, m.from, Outside({quote}), m.to);
    QuotedArgumentFrom(quote, s, p, e, m);
  }

  /** `QuotedArgument` from the runs it is made of. */
  lemma QuotedArgumentFrom(quote: char, s: string, p: nat, e: nat, m: Match)
    requires p < e <= |s| && m.start == p && Valid(m, s) && e + 1 < m.from && m.from < m.to
    requires Skip(s, e, IsSpace) == m.from - 1 && s[m.from - 1] == quote
    requires Skip(s, m.from, Outside({quote})) == m.to
    requires TagClose(s, m.to + 1) == Some(m.end)
    ensures QuotedArgument(quote, s, p, e) == Some(m)
  {
    QuotedBodyFrom(quote, s, p, m);
  }

  /** `QuotedBody` from the run after the opening quote. */
  lemma QuotedBodyFrom(quote: char, s: string, p: nat, m: Match)
    requires m.start == p && Valid(m, s) && p + 1 < m.from < m.to
    requires Skip(s, m.from, Outside({quote})) == m.to
    requires TagClose(s, m.to + 1) == Some(m.end)
    ensures QuotedBody(quote, s, p, m.from - 1) == Some(m)
  {
  }

  /** A simple tag laid out as `StringTagIn` says is matched. */
  lemma StringTagAtComplete(name: string, quote: char, s: string, m: Match)
    requires !IsSpace(quote) && Valid(m, s) && StringTagIn(name, quote, s, m)
    ensures StringTagAt(name, quote, s, m.start) == Some(m)
  {
    QuotedArgumentComplete(quote, s, m.start, TagOpen(s, m.start, name).value, m);
  }

  /** `<script`, then a run without `>` that holds the type attribute at
      `t`, then `>` at `g`, is a hyperscript opening tag. */
  lemma ScriptOpenAtComplete(s: string, p: nat, t: nat, g: nat)
    requires HasAtFolded(s, p, "<script") && p + 7 <= t < g < |s| && s[g] == '>'
    requires forall k | p + 7 <= k < g :: s[k] != '>'
    requires TypeAttrAt(s, t, g)
    ensures ScriptOpenAt(s, p) == Some(g)
  {
    SkipEndsAt(s, p + 7, NotGt, g);
    assert exists t' | p + 7 <= t' < g :: TypeAttrAt(s, t', g);
  }

  /** A hyperscript opening tag ending at `g`, then the first `</script>`
      after it, at `to`, make a script element. */
  lemma ScriptAtComplete(s: string, p: nat, g: nat, to: nat)
    requires ScriptOpenAt(s, p) == Some(g) && g + 1 <= to
    requires HasAtFolded(s, to, "</script>")
    requires forall k | g + 1 <= k < to :: !HasAtFolded(s, k, "</script>")
    ensures ScriptAt(s, p) == Some(Match(p, g + 1, to, to + 9))
  {
    FirstClose(s, g, to);
    ScriptClosedAt(s, p, g, to);
    ScriptAtFrom(s, p, g);
  }

  /** The first `</script>` after `g` is where the lazy group stops. */
  lemma FirstClose(s: string, g: nat, to: nat)
    requires g + 1 <= to && HasAtFolded(s, to, "</script>")
    requires forall k | g + 1 <= k < to :: !HasAtFolded(s, k, "</script>")
    ensures First(g + 1, |s|, ClosesScript(s)) == Some(to)
  {
    forall k | g + 1 <= k < to
      ensures !ClosesScript(s)(k)
    {
      assert !HasAtFolded(s, k, "</script>");
    }
    FirstIs(g + 1, |s|, ClosesScript(s), to);
  }

  /** `ScriptClosedFrom` ends at the first closing tag. */
  lemma ScriptClosedAt(s: string, p: nat, g: nat, to: nat)
    requires p <= g < |s| && First(g + 1, |s|, ClosesScript(s)) == Some(to)
    ensures ScriptClosedFrom(s, p, g) == Some(Match(p, g + 1, to, to + 9))
  {
  }

  /** `ScriptAt` continues from the end of its opening tag. */
  lemma ScriptAtFrom(s: string, p: nat, g: nat)
    requires ScriptOpenAt(s, p) == Some(g)
    ensures ScriptAt(s, p) == ScriptClosedFrom(s, p, g)
  {
  }

  /** Every text laid out as carrier `c` is matched where it starts; with
      the contract of `MatchAt`, a match at `p` is exactly a text of the
      carrier's layout starting there. */
  lemma MatchAtComplete(c: Carrier, s: string, m: Match)
    requires c.StringTag? ==> !IsSpace(c.quote)
    requires Valid(m, s) && Shaped(c, s, m)
    ensures MatchAt(c, s, m.start) == Some(m)
  {
    match c
    case Attribute(_, _, _, _) => AttributeMatchAtComplete(c, s, m);
    case BlockTag => BlockMatchAtComplete(s, m);
    case StringTag(_, _) => StringTagMatchAtComplete(c, s, m);
    case ScriptElement => ScriptMatchAtComplete(s, m);
  }

  lemma AttributeMatchAtComplete(c: Carrier, s: string, m: Match)
    requires c.Attribute? && Valid(m, s) && AttributeIn(c.lead, c.quotes, c.nonEmpty, c.trail, s, m)
    ensures MatchAt(c, s, m.start) == Some(m)
  {
    AttributeAtComplete(c.lead, c.quotes, c.nonEmpty, c.trail, s, m.start, m.to);
  }

  lemma BlockMatchAtComplete(s: string, m: Match)
    requires Valid(m, s) && BlockIn(s, m)
    ensures MatchAt(BlockTag, s, m.start) == Some(m)
  {
    BlockTagAtComplete(s, m.start, m.from, m.to, m.end);
  }

  lemma StringTagMatchAtComplete(c: Carrier, s: string, m: Match)
    requires c.StringTag? && !IsSpace(c.quote) && Valid(m, s) && StringTagIn(c.name, c.quote, s, m)
    ensures MatchAt(c, s, m.start) == Some(m)
  {
    StringTagAtComplete(c.name, c.quote, s, m);
  }

  lemma ScriptMatchAtComplete(s: string, m: Match)
    requires Valid(m, s) && ScriptIn(s, m)
    ensures MatchAt(ScriptElement, s, m.start) == Some(m)
  {
    ScriptAtComplete(s, m.start, m.from - 1, m.to);
  }

  /** `pattern.match(content, q)` for every `q`, as a function value. */
  function MatcherOf(c: Carrier, s: string): nat -> Option<Match> {
    (q: nat) => MatchAt(c, s, q)
  }

  /** A match found at `q` starts there, is not empty and ends by `n`. */
  ghost predicate Advances(f: nat -> Option<Match>, n: nat) {
    forall q: nat :: f(q).Some? ==> f(q).value.start == q < f(q).value.end <= n
  }

  lemma MatcherAdvances(c: Carrier, s: string)
    ensures Advances(MatcherOf(c, s), |s|)
  {
  }

  /** The `finditer` loop over a matcher, from position `p`: try to match
      at `p`; after a match resume at its end, otherwise one position
      further. */
  function Scan(f: nat -> Option<Match>, n: nat, p: nat): (r: seq<Match>)
    requires Advances(f, n)
    ensures forall i | 0 <= i < |r| :: p <= r[i].start && f(r[i].start) == Some(r[i])
    ensures forall i | 0 < i < |r| :: r[i - 1].end <= r[i].start
    decreases n - p
  {
    if p >= n then []
    else match f(p)
      case None => Scan(f, n, p + 1)
      case Some(m) => [m] + Scan(f, n, m.end)
  }

  /** Position `q` lies within one of the matches. */
  predicate Covered(ms: seq<Match>, q: nat) {
    exists i | 0 <= i < |ms| :: ms[i].start <= q < ms[i].end
  }

  /** Every position from `p` on where the matcher succeeds is either
      reported or inside a reported match: the scan skips only what an
      earlier match consumed. */
  lemma {:induction false} ScanCovers(f: nat -> Option<Match>, n: nat, p: nat, q: nat)
    requires Advances(f, n) && p <= q && f(q).Some?
    ensures Covered(Scan(f, n, p), q)
    decreases n - p
  {
    var r := Scan(f, n, p);
    if f(p).None? {
      ScanCovers(f, n, p + 1, q);
    } else {
      var m := f(p).value;
      var rest := Scan(f, n, m.end);
      assert r == [m] + rest;
      if q < m.end {
        assert r[0].start <= q < r[0].end;
      } else {
        ScanCovers(f, n, m.end, q);
        forall i | 0 <= i < |rest| && rest[i].start <= q < rest[i].end
          ensures Covered(r, q)
        {
          assert r[i + 1] == rest[i];
        }
      }
    }
  }

  /** `pattern.finditer(content)`: matches in increasing, non-overlapping
      order, each a match of the carrier where it starts. */
  function FindAll(c: Carrier, s: string): (r: seq<Match>)
    ensures forall i | 0 <= i < |r| :: MatchAt(c, s, r[i].start) == Some(r[i]) && Valid(r[i], s)
    ensures forall i | 0 < i < |r| :: r[i - 1].end <= r[i].start
  {
    MatcherAdvances(c, s);
    Scan(MatcherOf(c, s), |s|, 0)
  }

  /** Every position where the carrier matches is reported or lies inside
      a reported match. */
  lemma FindAllCovers(c: Carrier, s: string, q: nat)
    requires MatchAt(c, s, q).Some?
    ensures Covered(FindAll(c, s), q)
  {
    MatcherAdvances(c, s);
    ScanCovers(MatcherOf(c, s), |s|, 0, q);
  }

  /** A match at the very start is reported first. */
  lemma FindAllLeading(c: Carrier, s: string, m: Match)
    requires MatchAt(c, s, 0) == Some(m)
    ensures FindAll(c, s) != [] && FindAll(c, s)[0] == m
  {
    MatcherAdvances(c, s);
    assert MatcherOf(c, s)(0) == Some(m);
  }

  // ---------------------------------------------------------------------
  // Snippets

  /** What `strip()` leaves of a non-blank group. */
  predicate Clean(x: string) {
    x != [] && !IsSpace(x[0]) && !IsSpace(x[|x| - 1])
  }

  /** A stripped slice of `s` is a substring of `s`. */
  lemma TrimIsSubstring(s: string, f: nat, t: nat)
    requires f <= t <= |s|
    ensures IsSubstring(Trim(s[f..t]), s)
  {
    var x := s[f..t];
    var a := Skip(x, 0, IsSpace);
    var b := DropTrailingSpace(x, a, |x|);
    SliceOfSlice(s, f, t, a, b);
    assert HasAt(s, f + a, Trim(x));
  }

  lemma SliceOfSlice(s: string, f: nat, t: nat, a: nat, b: nat)
    requires f <= t <= |s| && a <= b <= t - f
    ensures s[f..t][a..b] == s[f + a..f + b]
  {
    assert forall i | 0 <= i < b - a :: s[f..t][a..b][i] == s[f + a + i];
  }

  /** The non-blank stripped groups of the matches, in order. */
  function Snippets(s: string, ms: seq<Match>): (r: seq<string>)
    requires forall i | 0 <= i < |ms| :: Valid(ms[i], s)
    ensures forall k | 0 <= k < |r| :: Clean(r[k]) && IsSubstring(r[k], s)
  {
    if ms == [] then []
    else
      assert Valid(ms[0], s);
      var x := Trim(s[ms[0].from..ms[0].to]);
      TrimIsSubstring(s, ms[0].from, ms[0].to);
      (if x == [] then [] else [x]) + Snippets(s, ms[1..])
  }

  /** The snippets one carrier yields. */
  function ExtractWith(c: Carrier, s: string): (r: seq<string>)
    ensures forall k | 0 <= k < |r| :: Clean(r[k]) && IsSubstring(r[k], s)
  {
    Snippets(s, FindAll(c, s))
  }

  /** The snippets of each carrier in turn. */
  function ExtractFrom(cs: seq<Carrier>, s: string): (r: seq<string>)
    ensures forall k | 0 <= k < |r| :: Clean(r[k]) && IsSubstring(r[k], s)
  {
    if cs == [] then [] else ExtractWith(cs[0], s) + ExtractFrom(cs[1..], s)
  }

  /** `extract_hyperscript(content)`. */
  function ExtractHyperscript(s: string): (r: seq<string>)
    ensures forall k | 0 <= k < |r| :: Clean(r[k]) && IsSubstring(r[k], s)
  {
    ExtractFrom(HYPERSCRIPT_PATTERNS, s)
  }

  /** The stripped group of a match. */
  function Group(s: string, m: Match): string
    requires Valid(m, s)
  {
    Trim(s[m.from..m.to])
  }

  /** The snippets of a run of matches are those of its first part followed
      by those of the rest: nothing is reordered or dropped as a duplicate. */
  lemma {:induction false} SnippetsAppend(s: string, a: seq<Match>, b: seq<Match>)
    requires forall i | 0 <= i < |a| :: Valid(a[i], s)
    requires forall i | 0 <= i < |b| :: Valid(b[i], s)
    ensures Snippets(s, a + b) == Snippets(s, a) + Snippets(s, b)
  {
    if a == [] {
      assert a + b == b;
    } else {
      var ab := a + b;
      assert ab[0] == a[0] && ab[1..] == a[1..] + b;
      var h := if Group(s, a[0]) == [] then [] else [Group(s, a[0])];
      calc {
        Snippets(s, ab);
        { SnippetsHead(s, ab); }
        h + Snippets(s, a[1..] + b);
        { SnippetsAppend(s, a[1..], b); }
        h + (Snippets(s, a[1..]) + Snippets(s, b));
        { AppendAssoc(h, Snippets(s, a[1..]), Snippets(s, b)); }
        (h + Snippets(s, a[1..])) + Snippets(s, b);
        { SnippetsHead(s, a); }
        Snippets(s, a) + Snippets(s, b);
      }
    }
  }

  lemma AppendAssoc<T>(x: seq<T>, y: seq<T>, z: seq<T>)
    ensures x + (y + z) == (x + y) + z
  {
  }

  /** The snippets of a non-empty run: those of its first match, then the
      rest's. */
  lemma SnippetsHead(s: string, ms: seq<Match>)
    requires ms != [] && forall i | 0 <= i < |ms| :: Valid(ms[i], s)
    ensures Valid(ms[0], s)
    ensures Snippets(s, ms) == (if Group(s, ms[0]) == [] then [] else [Group(s, ms[0])]) + Snippets(s, ms[1..])
  {
  }

  /** One match gives its stripped group, or nothing when that is blank. */
  lemma SnippetsOne(s: string, m: Match)
    requires Valid(m, s)
    ensures Snippets(s, [m]) == if Group(s, m) == [] then [] else [Group(s, m)]
  {
    assert [m][1..] == [];
  }

  /** The snippets of a list of carriers are those of its first part
      followed by those of the rest, in list order. */
  lemma {:induction false} ExtractFromAppend(a: seq<Carrier>, b: seq<Carrier>, s: string)
    ensures ExtractFrom(a + b, s) == ExtractFrom(a, s) + ExtractFrom(b, s)
  {
    if a == [] {
      assert a + b == b;
    } else {
      assert (a + b)[0] == a[0] && (a + b)[1..] == a[1..] + b;
      ExtractFromAppend(a[1..], b, s);
    }
  }

  /** A single carrier contributes the snippets of its scan's matches, in
      the order they were found. */
  lemma ExtractFromOne(c: Carrier, s: string)
    ensures ExtractFrom([c], s) == Snippets(s, FindAll(c, s))
  {
    assert [c][1..] == [];
  }

  /** Carrier `c` yields snippet `x` from `s`: some match of its scan has
      `x` as its non-blank stripped group. */
  predicate Yields(c: Carrier, s: string, x: string) {
    var ms := FindAll(c, s);
    x != [] && exists i | 0 <= i < |ms| :: Group(s, ms[i]) == x
  }

  lemma {:induction false} SnippetsExact(s: string, ms: seq<Match>, x: string)
    requires forall i | 0 <= i < |ms| :: Valid(ms[i], s)
    ensures x in Snippets(s, ms) <==> x != [] && exists i | 0 <= i < |ms| :: Group(s, ms[i]) == x
  {
    if ms != [] {
      SnippetsExact(s, ms[1..], x);
      if x != [] && Group(s, ms[0]) != x {
        if i :| 0 <= i < |ms| && Group(s, ms[i]) == x {
          assert ms[1..][i - 1] == ms[i];
        }
      }
      if i :| 0 <= i < |ms[1..]| && Group(s, ms[1..][i]) == x {
        assert ms[i + 1] == ms[1..][i];
      }
    }
  }

  /** What the scans of `cs` together yield. */
  lemma {:induction false} ExtractFromExact(cs: seq<Carrier>, s: string, x: string)
    ensures x in ExtractFrom(cs, s) <==> exists k | 0 <= k < |cs| :: Yields(cs[k], s, x)
  {
    if cs != [] {
      SnippetsExact(s, FindAll(cs[0], s), x);
      ExtractFromExact(cs[1..], s, x);
      if k :| 0 <= k < |cs| && Yields(cs[k], s, x) {
        if k > 0 {
          assert cs[1..][k - 1] == cs[k];
        }
      }
      if k :| 0 <= k < |cs[1..]| && Yields(cs[1..][k], s, x) {
        assert cs[k + 1] == cs[1..][k];
      }
    }
  }

  /** `extract_hyperscript` returns exactly the non-blank stripped groups
      of the matches of the thirteen carriers. */
  lemma ExtractHyperscriptExact(s: string, x: string)
    ensures x in ExtractHyperscript(s) <==>
      exists k | 0 <= k < |HYPERSCRIPT_PATTERNS| :: Yields(HYPERSCRIPT_PATTERNS[k], s, x)
  {
    ExtractFromExact(HYPERSCRIPT_PATTERNS, s, x);
  }

  // ---------------------------------------------------------------------
  // Which matches are reported

  /** No match of `c` that starts before `q` reaches past `q`, so the scan
      comes to `q` without skipping it. */
  predicate NoneAcross(c: Carrier, s: string, q: nat) {
    forall j: nat | j < q :: MatchAt(c, s, j).None? || MatchAt(c, s, j).value.end <= q
  }

  /** A match that no earlier match of its carrier reaches across is
      reported, so its non-blank stripped group is a snippet. */
  lemma MatchReported(cs: seq<Carrier>, k: nat, s: string, m: Match)
    requires k < |cs| && MatchAt(cs[k], s, m.start) == Some(m) && NoneAcross(cs[k], s, m.start)
    requires Group(s, m) != []
    ensures Group(s, m) in ExtractFrom(cs, s)
  {
    var ms := FindAll(cs[k], s);
    FindAllCovers(cs[k], s, m.start);
    var i :| 0 <= i < |ms| && ms[i].start <= m.start < ms[i].end;
    assert MatchAt(cs[k], s, ms[i].start) == Some(ms[i]);
    assert ms[i] == m;
    assert Yields(cs[k], s, Group(s, m));
    ExtractFromExact(cs, s, Group(s, m));
  }

  /** Where a match of `c` opens in `pre`: the part of its pattern before
      the group lies in `pre`. That is the lead and the opening quote of an
      attribute, `{% hs %}`, or `{%`, the name, whitespace and the opening
      quote of a simple tag; for a script element it is a `<script` whose
      tag declares `text/hyperscript` or is not closed before `pre` ends. */
  predicate OpensAt(c: Carrier, pre: string, j: nat) {
    match c
    case Attribute(lead, quotes, _, _) => HasAt(pre, j, lead) && j + |lead| < |pre| && pre[j + |lead|] in quotes
    case BlockTag => TagAt(pre, j, "hs").Some?
    case StringTag(name, quote) =>
      TagOpen(pre, j, name).Some? &&
      var e := TagOpen(pre, j, name).value;
      var b := Skip(pre, e, IsSpace);
      e < b < |pre| && pre[b] == quote
    case ScriptElement =>
      HasAtFolded(pre, j, "<script") && (ScriptOpenAt(pre, j).Some? || Skip(pre, j + 7, NotGt) == |pre|)
  }

  /** Every match of `c` that opens in `pre` is completed within `pre`: no
      match of `c` is left open at the end of `pre`. */
  predicate ClosedIn(c: Carrier, pre: string) {
    forall j: nat | j < |pre| && OpensAt(c, pre, j) :: MatchAt(c, pre, j).Some?
  }

  /** Neither the name nor the quote of a tag carrier is `{`, the character
      every tag starts with. */
  predicate Braceless(c: Carrier) {
    match c
    case BlockTag => true
    case StringTag(name, quote) => quote != '{' && forall i | 0 <= i < |name| :: name[i] != '{'
    case _ => false
  }

  /** An attribute matched in `pre` is matched alike whatever follows. */
  lemma AttributeExtends(c: Carrier, pre: string, rest: string, m: Match)
    requires c.Attribute? && MatchAt(c, pre, m.start) == Some(m)
    ensures MatchAt(c, pre + rest, m.start) == Some(m)
  {
    var s := pre + rest;
    HasAtPrefix(pre, rest, m.start, c.lead);
    HasAtPrefix(pre, rest, m.to + 1, c.trail);
    assert s[m.from - 1] == pre[m.from - 1] && s[m.to] == pre[m.to];
    forall k | m.from <= k < m.to
      ensures s[k] !in c.quotes
    {
      assert s[k] == pre[k];
    }
    AttributeAtComplete(c.lead, c.quotes, c.nonEmpty, c.trail, s, m.start, m.to);
  }

  /** Before text that starts with an attribute carrier's lead, free of its
      quotes, the carrier matches in `pre + rest` exactly where and as it
      matches in `pre` alone, when no match is left open in `pre`. A lead
      reaching past the end of `pre` is followed by a character of the
      lead, not by a quote. */
  lemma AttributeNoneAcross(c: Carrier, pre: string, rest: string)
    requires c.Attribute? && HasAt(rest, 0, c.lead)
    requires forall i | 0 <= i < |c.lead| :: c.lead[i] !in c.quotes
    requires ClosedIn(c, pre)
    ensures forall j: nat | j < |pre| :: MatchAt(c, pre + rest, j) == MatchAt(c, pre, j)
    ensures NoneAcross(c, pre + rest, |pre|)
  {
    var s := pre + rest;
    CharsWithin(rest, 0, c.lead);
    forall j: nat | j < |pre|
      ensures MatchAt(c, s, j) == MatchAt(c, pre, j)
    {
      if j + |c.lead| < |pre| {
        HasAtPrefix(pre, rest, j, c.lead);
        if OpensAt(c, pre, j) {
          AttributeExtends(c, pre, rest, MatchAt(c, pre, j).value);
        }
      } else if MatchAt(c, s, j).Some? {
        assert false;
      }
    }
  }

  /** `{%` and a name free of `{` are found at a position of `pre` in
      `pre + rest` exactly as in `pre`, when `rest` starts with `{`. */
  lemma TagOpenExtends(pre: string, rest: string, k: nat, name: string)
    requires rest != [] && rest[0] == '{' && k < |pre|
    requires forall i | 0 <= i < |name| :: name[i] != '{'
    ensures TagOpen(pre + rest, k, name) == TagOpen(pre, k, name)
  {
    var s := pre + rest;
    if k + 2 <= |pre| {
      HasAtPrefix(pre, rest, k, "{%");
      if HasAt(pre, k, "{%") {
        SkipExtends(pre, rest, k + 2, IsSpace);
        var a := Skip(pre, k + 2, IsSpace);
        if a + |name| <= |pre| {
          HasAtPrefix(pre, rest, a, name);
        } else {
          NotAtWhereDiffers(s, a, name, |pre| - a);
        }
      }
    } else {
      NotAtWhereDiffers(s, k, "{%", 1);
    }
  }

  /** `\s*%\}` at a position of `pre` ends alike in `pre + rest` when
      `rest` starts with `{`. */
  lemma TagCloseExtends(pre: string, rest: string, d: nat)
    requires rest != [] && rest[0] == '{' && d <= |pre|
    ensures TagClose(pre + rest, d) == TagClose(pre, d)
  {
    SkipExtends(pre, rest, d, IsSpace);
    var e := Skip(pre, d, IsSpace);
    if e + 2 <= |pre| {
      HasAtPrefix(pre, rest, e, "%}");
    } else {
      NotAtWhereDiffers(pre + rest, e, "%}", |pre| - e);
    }
  }

  /** `\s*%\}` found in `pre` is found alike in `pre + rest` when `rest`
      starts with `{`. */
  lemma TagClosedExtends(pre: string, rest: string, d: nat, e: nat)
    requires rest != [] && rest[0] == '{' && d <= |pre| && TagClose(pre, d) == Some(e)
    ensures TagClose(pre + rest, d) == Some(e)
  {
    TagCloseExtends(pre, rest, d);
  }

  /** A whole tag at a position of `pre` is found alike in `pre + rest`
      when `rest` starts with `{`. */
  lemma TagAtExtends(pre: string, rest: string, k: nat, name: string)
    requires rest != [] && rest[0] == '{' && k < |pre|
    requires forall i | 0 <= i < |name| :: name[i] != '{'
    ensures TagAt(pre + rest, k, name) == TagAt(pre, k, name)
  {
    TagOpenExtends(pre, rest, k, name);
    if TagOpen(pre, k, name).Some? {
      TagCloseExtends(pre, rest, TagOpen(pre, k, name).value);
    }
  }

  /** A block matched in `pre` is matched alike in `pre + rest` when `rest`
      starts with `{`: its first closing tag lies in `pre`. */
  lemma BlockTagExtends(pre: string, rest: string, m: Match)
    requires rest != [] && rest[0] == '{'
    requires BlockTagAt(pre, m.start) == Some(m)
    ensures BlockTagAt(pre + rest, m.start) == Some(m)
  {
    BlockTagParts(pre, m);
    TagAtIs(pre, rest, m.start, "hs", m.from);
    TagAtIs(pre, rest, m.to, "endhs", m.end);
    NoEndTagExtends(pre, rest, m.from, m.to);
    BlockTagAtComplete(pre + rest, m.start, m.from, m.to, m.end);
  }

  /** The tags a recognised block is made of. */
  lemma BlockTagParts(s: string, m: Match)
    requires BlockTagAt(s, m.start) == Some(m)
    ensures m.start < |s| && m.to < |s| && m.from <= m.to
    ensures TagAt(s, m.start, "hs") == Some(m.from) && TagAt(s, m.to, "endhs") == Some(m.end)
    ensures forall k | m.from <= k < m.to :: TagAt(s, k, "endhs").None?
    ensures forall i | 0 <= i < |"endhs"| :: "endhs"[i] != '{'
  {
  }

  /** A whole tag found in `pre` is found alike in `pre + rest` when `rest`
      starts with `{`. */
  lemma TagAtIs(pre: string, rest: string, k: nat, name: string, e: nat)
    requires rest != [] && rest[0] == '{' && k < |pre|
    requires forall i | 0 <= i < |name| :: name[i] != '{'
    requires TagAt(pre, k, name) == Some(e)
    ensures TagAt(pre + rest, k, name) == Some(e)
  {
    TagAtExtends(pre, rest, k, name);
  }

  /** A stretch of `pre` without `{% endhs %}` has none in `pre + rest`
      either when `rest` starts with `{`. */
  lemma NoEndTagExtends(pre: string, rest: string, lo: nat, hi: nat)
    requires rest != [] && rest[0] == '{' && hi <= |pre|
    requires forall k | lo <= k < hi :: TagAt(pre, k, "endhs").None?
    ensures forall k | lo <= k < hi :: TagAt(pre + rest, k, "endhs").None?
  {
    forall k | lo <= k < hi
      ensures TagAt(pre + rest, k, "endhs").None?
    {
      TagAtExtends(pre, rest, k, "endhs");
    }
  }

  /** A simple tag matched in `pre` is matched alike in `pre + rest` when
      `rest` starts with `{`. */
  lemma StringTagExtends(name: string, quote: char, pre: string, rest: string, m: Match)
    requires rest != [] && rest[0] == '{'
    requires forall i | 0 <= i < |name| :: name[i] != '{'
    requires StringTagAt(name, quote, pre, m.start) == Some(m)
    ensures StringTagAt(name, quote, pre + rest, m.start) == Some(m)
  {
    TagOpenExtends(pre, rest, m.start, name);
    QuotedArgumentExtends(quote, pre, rest, TagOpen(pre, m.start, name).value, m);
  }

  /** A quoted argument completed in `pre` is completed alike in
      `pre + rest` when `rest` starts with `{`. */
  lemma QuotedArgumentExtends(quote: char, pre: string, rest: string, e: nat, m: Match)
    requires rest != [] && rest[0] == '{' && m.start < e <= |pre|
    requires QuotedArgument(quote, pre, m.start, e) == Some(m)
    ensures QuotedArgument(quote, pre + rest, m.start, e) == Some(m)
  {
    QuotedArgumentLayout(quote, pre, e, m);
    QuotedArgumentRuns(quote, pre, e, m);
    QuotedRunsExtend(quote, pre, rest, e, m);
    QuotedArgumentFrom(quote, pre + rest, m.start, e, m);
  }

  /** The runs and the closing of a quoted argument laid out in `pre` stop
      alike in `pre + rest` when `rest` starts with `{`. */
  lemma QuotedRunsExtend(quote: char, pre: string, rest: string, e: nat, m: Match)
    requires rest != [] && rest[0] == '{' && e + 1 < m.from < m.to && m.to < |pre|
    requires Skip(pre, e, IsSpace) == m.from - 1 && Skip(pre, m.from, Outside({quote})) == m.to
    requires TagClose(pre, m.to + 1) == Some(m.end)
    ensures Skip(pre + rest, e, IsSpace) == m.from - 1 && Skip(pre + rest, m.from, Outside({quote})) == m.to
    ensures TagClose(pre + rest, m.to + 1) == Some(m.end) && (pre + rest)[m.from - 1] == pre[m.from - 1]
  {
    SkipExtends(pre, rest, e, IsSpace);
    SkipExtends(pre, rest, m.from, Outside({quote}));
    TagClosedExtends(pre, rest, m.to + 1, m.end);
  }

  /** How a recognised quoted argument lies in the text. */
  lemma QuotedArgumentLayout(quote: char, s: string, e: nat, m: Match)
    requires m.start < e <= |s| && QuotedArgument(quote, s, m.start, e) == Some(m)
    ensures Valid(m, s) && e + 1 < m.from < m.to < |s| && s[m.from - 1] == quote
    ensures TagClose(s, m.to + 1) == Some(m.end)
  {
  }

  /** Where the runs of a recognised quoted argument stop. */
  lemma QuotedArgumentRuns(quote: char, s: string, e: nat, m: Match)
    requires m.start < e <= |s| && QuotedArgument(quote, s, m.start, e) == Some(m)
    ensures Skip(s, e, IsSpace) == m.from - 1 && Skip(s, m.from, Outside({quote})) == m.to
  {
    var b := QuotedArgumentOpening(quote, s, m.start, e);
    QuotedBodyRun(quote, s, m.start, b, m);
  }

  /** A recognised quoted argument opens at the end of the whitespace run. */
  lemma QuotedArgumentOpening(quote: char, s: string, p: nat, e: nat) returns (b: nat)
    requires p < e <= |s| && QuotedArgument(quote, s, p, e).Some?
    ensures b == Skip(s, e, IsSpace) && p < b < |s|
    ensures QuotedBody(quote, s, p, b) == QuotedArgument(quote, s, p, e)
  {
    b := Skip(s, e, IsSpace);
  }

  /** Where the run after the opening quote of a recognised body stops. */
  lemma QuotedBodyRun(quote: char, s: string, p: nat, b: nat, m: Match)
    requires p < b < |s| && QuotedBody(quote, s, p, b) == Some(m)
    ensures m.from == b + 1 && Skip(s, m.from, Outside({quote})) == m.to
  {
  }

  /** Where no simple tag opens in `pre`, none starts in `pre + rest`
      either, when `rest` starts with `{`. */
  lemma StringTagUnopened(name: string, quote: char, pre: string, rest: string, j: nat)
    requires rest != [] && rest[0] == '{' && j < |pre| && quote != '{'
    requires forall i | 0 <= i < |name| :: name[i] != '{'
    requires !OpensAt(StringTag(name, quote), pre, j)
    ensures StringTagAt(name, quote, pre + rest, j).None?
  {
    TagOpenExtends(pre, rest, j, name);
    if TagOpen(pre, j, name).Some? {
      SkipExtends(pre, rest, TagOpen(pre, j, name).value, IsSpace);
    }
  }

  /** Before text that starts with `{`, a block or simple-tag carrier
      matches in `pre + rest` exactly where and as it matches in `pre`
      alone, when no match is left open in `pre`: a tag cannot reach past
      the end of `pre` into the `{`. */
  lemma TagNoneAcross(c: Carrier, pre: string, rest: string)
    requires Braceless(c)
    requires ClosedIn(c, pre) && rest != [] && rest[0] == '{'
    ensures forall j: nat | j < |pre| :: MatchAt(c, pre + rest, j) == MatchAt(c, pre, j)
    ensures NoneAcross(c, pre + rest, |pre|)
  {
    var s := pre + rest;
    forall j: nat | j < |pre|
      ensures MatchAt(c, s, j) == MatchAt(c, pre, j)
    {
      if c.BlockTag? {
        TagAtExtends(pre, rest, j, "hs");
        if OpensAt(c, pre, j) {
          BlockTagExtends(pre, rest, MatchAt(c, pre, j).value);
        }
      } else if OpensAt(c, pre, j) {
        StringTagExtends(c.name, c.quote, pre, rest, MatchAt(c, pre, j).value);
      } else {
        StringTagUnopened(c.name, c.quote, pre, rest, j);
      }
    }
  }

  /** `type=…text/hyperscript` ending before a position of `pre` is found
      alike in `pre + rest`. */
  lemma TypeAttrExtends(pre: string, rest: string, t: nat, g: nat)
    requires g < |pre|
    ensures TypeAttrAt(pre + rest, t, g) == TypeAttrAt(pre, t, g)
  {
    if t + 21 <= g {
      HasAtPrefix(pre, rest, t, "type=");
      HasAtPrefix(pre, rest, t + 5, "text/hyperscript");
      HasAtPrefix(pre, rest, t + 6, "text/hyperscript");
    }
  }

  /** A `<script` tag closed by a `>` in `pre` is recognised alike in
      `pre + rest`. */
  lemma ScriptOpenExtends(pre: string, rest: string, j: nat)
    requires j + 7 <= |pre| && Skip(pre, j + 7, NotGt) < |pre|
    ensures ScriptOpenAt(pre + rest, j) == ScriptOpenAt(pre, j)
  {
    HasAtPrefix(pre, rest, j, "<script");
    SkipExtends(pre, rest, j + 7, NotGt);
    var g := Skip(pre, j + 7, NotGt);
    forall t | j + 7 <= t < g
      ensures TypeAttrAt(pre + rest, t, g) == TypeAttrAt(pre, t, g)
    {
      TypeAttrExtends(pre, rest, t, g);
    }
  }

  /** A script element matched in `pre` is matched alike whatever follows:
      its first `</script>` lies in `pre`. */
  lemma ScriptExtends(pre: string, rest: string, m: Match)
    requires ScriptAt(pre, m.start) == Some(m)
    ensures ScriptAt(pre + rest, m.start) == Some(m)
  {
    ScriptPartsExtend(pre, rest, m);
    ScriptAtIs(pre + rest, m);
  }

  /** A script element laid out as `ScriptIn` says is recognised. */
  lemma ScriptAtIs(s: string, m: Match)
    requires 1 <= m.from <= m.to && m == Match(m.start, m.from - 1 + 1, m.to, m.to + 9)
    requires ScriptOpenAt(s, m.start) == Some(m.from - 1) && HasAtFolded(s, m.to, "</script>")
    requires forall k | m.from <= k < m.to :: !HasAtFolded(s, k, "</script>")
    ensures ScriptAt(s, m.start) == Some(m)
  {
    ScriptAtComplete(s, m.start, m.from - 1, m.to);
  }

  /** The tags of a script element recognised in `pre` lie alike in
      `pre + rest`. */
  lemma ScriptPartsExtend(pre: string, rest: string, m: Match)
    requires ScriptAt(pre, m.start) == Some(m)
    ensures 1 <= m.from <= m.to && m == Match(m.start, m.from - 1 + 1, m.to, m.to + 9)
    ensures ScriptOpenAt(pre + rest, m.start) == Some(m.from - 1)
    ensures HasAtFolded(pre + rest, m.to, "</script>")
    ensures forall k | m.from <= k < m.to :: !HasAtFolded(pre + rest, k, "</script>")
  {
    ScriptParts(pre, m);
    ScriptOpenIs(pre, rest, m.start, m.from - 1);
    HasAtPrefix(pre, rest, m.to, "</script>");
    NoScriptCloseExtends(pre, rest, m.from, m.to);
  }

  /** The tags a recognised script element is made of. */
  lemma ScriptParts(s: string, m: Match)
    requires ScriptAt(s, m.start) == Some(m)
    ensures 1 <= m.from <= m.to && m.to + 9 <= |s| && m.end == m.to + 9
    ensures ScriptOpenAt(s, m.start) == Some(m.from - 1) && HasAtFolded(s, m.to, "</script>")
    ensures forall k | m.from <= k < m.to :: !HasAtFolded(s, k, "</script>")
  {
  }

  /** A hyperscript opening tag recognised in `pre` is recognised alike
      whatever follows. */
  lemma ScriptOpenIs(pre: string, rest: string, j: nat, g: nat)
    requires ScriptOpenAt(pre, j) == Some(g)
    ensures ScriptOpenAt(pre + rest, j) == Some(g)
  {
    assert Skip(pre, j + 7, NotGt) == g;
    ScriptOpenExtends(pre, rest, j);
  }

  /** A stretch of `pre` without `</script>` has none in `pre + rest`
      either when no `</script>` starting in it reaches past `pre`. */
  lemma NoScriptCloseExtends(pre: string, rest: string, lo: nat, hi: nat)
    requires hi + 9 <= |pre|
    requires forall k | lo <= k < hi :: !HasAtFolded(pre, k, "</script>")
    ensures forall k | lo <= k < hi :: !HasAtFolded(pre + rest, k, "</script>")
  {
    forall k | lo <= k < hi
      ensures !HasAtFolded(pre + rest, k, "</script>")
    {
      HasAtPrefix(pre, rest, k, "</script>");
    }
  }

  /** `<script` does not start where a `<` follows within its length. */
  lemma FoldedScriptNotAt(s: string, j: nat, q: nat)
    requires j < q < j + 7 <= |s| && s[q] == '<'
    ensures !HasAtFolded(s, j, "<script")
  {
    var i := q - j;
    assert LowerStr(s[j..j + 7])[i] == Lower(s[q]);
    assert LowerStr("<script")[i] != '<';
  }

  /** At a position of `pre`, the script carrier matches in `pre + rest`
      as in `pre` when `rest` starts with `<` and no match is left open in
      `pre`. */
  lemma ScriptBefore(pre: string, rest: string, j: nat)
    requires ClosedIn(ScriptElement, pre) && rest != [] && rest[0] == '<' && j < |pre|
    ensures ScriptAt(pre + rest, j) == ScriptAt(pre, j)
  {
    var s := pre + rest;
    if j + 7 <= |pre| {
      HasAtPrefix(pre, rest, j, "<script");
      if OpensAt(ScriptElement, pre, j) {
        ScriptExtends(pre, rest, ScriptAt(pre, j).value);
      } else if HasAtFolded(pre, j, "<script") {
        ScriptOpenExtends(pre, rest, j);
      }
    } else if j + 7 <= |s| {
      FoldedScriptNotAt(s, j, |pre|);
    }
  }

  /** Before text that starts with `<`, the script carrier matches in
      `pre + rest` exactly where and as it matches in `pre` alone, when no
      match is left open in `pre`: an unclosed `<script` tag or a
      hyperscript element without its `</script>`. */
  lemma ScriptNoneAcross(pre: string, rest: string)
    requires ClosedIn(ScriptElement, pre) && rest != [] && rest[0] == '<'
    ensures forall j: nat | j < |pre| :: MatchAt(ScriptElement, pre + rest, j) == MatchAt(ScriptElement, pre, j)
    ensures NoneAcross(ScriptElement, pre + rest, |pre|)
  {
    forall j: nat | j < |pre|
      ensures MatchAt(ScriptElement, pre + rest, j) == MatchAt(ScriptElement, pre, j)
    {
      ScriptBefore(pre, rest, j);
    }
  }

  // ---------------------------------------------------------------------
  // Round trips: a snippet written in a carrier is extracted again

  /** The attribute `lead Q body Q trail`. */
  function WrapAttribute(lead: string, q: char, body: string, trail: string): string {
    lead + [q] + body + [q] + trail
  }

  /** The pieces of a wrapped attribute. */
  lemma WrapAttributeParts(lead: string, q: char, body: string, trail: string)
    ensures var w := WrapAttribute(lead, q, body, trail);
      var to := |lead| + 1 + |body|;
      && |w| == to + 1 + |trail|
      && HasAt(w, 0, lead) && w[|lead|] == q && HasAt(w, |lead| + 1, body)
      && w[to] == q && HasAt(w, to + 1, trail)
  {
    var w := WrapAttribute(lead, q, body, trail);
    var to := |lead| + 1 + |body|;
    assert w[..|lead|] == lead;
    assert w[|lead| + 1..to] == body;
    assert w[to + 1..] == trail;
  }

  /** Where the pieces of an attribute written out at `p` lie. */
  lemma AttributeLaidOut(lead: string, q: char, body: string, trail: string, s: string, p: nat)
    requires HasAt(s, p, WrapAttribute(lead, q, body, trail))
    ensures var from := p + |lead| + 1;
      && HasAt(s, p, lead) && s[from - 1] == q && HasAt(s, from, body)
      && s[from + |body|] == q && HasAt(s, from + |body| + 1, trail)
  {
    var w := WrapAttribute(lead, q, body, trail);
    WrapAttributeParts(lead, q, body, trail);
    HasAtWithin(s, p, w, 0, lead);
    HasAtWithin(s, p, w, |lead| + 1, body);
    HasAtWithin(s, p, w, |lead| + 2 + |body|, trail);
    CharWithin(s, p, w, |lead|);
    CharWithin(s, p, w, |lead| + 1 + |body|);
  }

  /** An attribute written out at `p` is matched there, its body the group. */
  lemma AttributeMatchesAt(c: Carrier, q: char, body: string, s: string, p: nat) returns (m: Match)
    requires c.Attribute? && q in c.quotes && (c.nonEmpty ==> body != [])
    requires forall i | 0 <= i < |body| :: body[i] !in c.quotes
    requires HasAt(s, p, WrapAttribute(c.lead, q, body, c.trail))
    ensures MatchAt(c, s, p) == Some(m) && s[m.from..m.to] == body
  {
    AttributeLaidOut(c.lead, q, body, c.trail, s, p);
    var from := p + |c.lead| + 1;
    var to := from + |body|;
    forall k | from <= k < to
      ensures s[k] !in c.quotes
    {
      assert s[k] == s[from..to][k - from];
    }
    AttributeAtComplete(c.lead, c.quotes, c.nonEmpty, c.trail, s, p, to);
    m := Match(p, from, to, to + 1 + |c.trail|);
  }

  /** No lead of an attribute carrier holds one of its quotes. */
  lemma AttributeLeadUnquoted(k: nat)
    requires k < |HYPERSCRIPT_PATTERNS| && HYPERSCRIPT_PATTERNS[k].Attribute?
    ensures var c := HYPERSCRIPT_PATTERNS[k];
      forall i | 0 <= i < |c.lead| :: c.lead[i] !in c.quotes
  {
  }

  /** A stripped body that is not blank comes from a body that is not empty. */
  lemma TrimmedNonEmpty(body: string)
    requires Trim(body) != []
    ensures body != []
  {
  }

  lemma AttributeRoundTripIn(cs: seq<Carrier>, k: nat, pre: string, q: char, body: string, post: string)
    requires k < |cs| && cs[k].Attribute? && q in cs[k].quotes
    requires forall i | 0 <= i < |cs[k].lead| :: cs[k].lead[i] !in cs[k].quotes
    requires forall i | 0 <= i < |body| :: body[i] !in cs[k].quotes
    requires ClosedIn(cs[k], pre) && Trim(body) != []
    ensures Trim(body) in ExtractFrom(cs, pre + WrapAttribute(cs[k].lead, q, body, cs[k].trail) + post)
  {
    var c := cs[k];
    var w := WrapAttribute(c.lead, q, body, c.trail);
    var s := pre + w + post;
    TrimmedNonEmpty(body);
    HasAtMiddle(pre, w, post);
    var m := AttributeMatchesAt(c, q, body, s, |pre|);
    WrapAttributeParts(c.lead, q, body, c.trail);
    HasAtWithin(w + post, 0, w, 0, c.lead);
    AttributeNoneAcross(c, pre, w + post);
    MatchReported(cs, k, s, m);
  }

  /** The body of any attribute form of the catalogue, written after text
      that leaves no match of that form open, is extracted again, stripped,
      whatever follows. */
  lemma AttributeRoundTrip(k: nat, pre: string, q: char, body: string, post: string)
    requires k < |HYPERSCRIPT_PATTERNS| && HYPERSCRIPT_PATTERNS[k].Attribute?
    requires q in HYPERSCRIPT_PATTERNS[k].quotes
    requires forall i | 0 <= i < |body| :: body[i] !in HYPERSCRIPT_PATTERNS[k].quotes
    requires ClosedIn(HYPERSCRIPT_PATTERNS[k], pre) && Trim(body) != []
    ensures var c := HYPERSCRIPT_PATTERNS[k];
      Trim(body) in ExtractHyperscript(pre + WrapAttribute(c.lead, q, body, c.trail) + post)
  {
    AttributeLeadUnquoted(k);
    AttributeRoundTripIn(HYPERSCRIPT_PATTERNS, k, pre, q, body, post);
  }

  /** `First` stops at the first place where `found` holds. */
  lemma FirstIs(q: nat, n: nat, found: nat -> bool, r: nat)
    requires q <= r <= n && found(r)
    requires forall k | q <= k < r :: !found(k)
    ensures First(q, n, found) == Some(r)
    decreases r - q
  {
    if q < r {
      FirstIs(q + 1, n, found, r);
    }
  }

  /** The simple tag `{% name Q body Q %}`. */
  function WrapStringTag(name: string, quote: char, body: string): string {
    "{% " + name + " " + [quote] + body + [quote] + " %}"
  }

  /** Where each piece of a wrapped simple tag lies. */
  lemma WrapStringTagLayout(name: string, quote: char, body: string)
    ensures var w := WrapStringTag(name, quote, body);
      var e := 3 + |name|;
      var to := e + 2 + |body|;
      && |w| == to + 4
      && w[0..2] == "{%" && w[2] == ' ' && w[3..e] == name
      && w[e] == ' ' && w[e + 1] == quote && w[e + 2..to] == body
      && w[to] == quote && w[to + 1] == ' ' && w[to + 2..] == "%}"
  {
    var w := WrapStringTag(name, quote, body);
    var e := 3 + |name|;
    var to := e + 2 + |body|;
    var head := "{% " + name;
    var rest := " " + [quote] + body + [quote] + " %}";
    assert w == head + rest;
    assert w[..e] == head && w[e..] == rest;
    assert rest[2..2 + |body|] == body && rest[2 + |body| + 2..] == "%}";
  }

  /** Where the pieces of a simple tag written out at `p` lie. */
  lemma StringTagLaidOut(name: string, quote: char, body: string, s: string, p: nat)
    requires HasAt(s, p, WrapStringTag(name, quote, body))
    ensures var e := p + 3 + |name|;
      var to := e + 2 + |body|;
      && HasAt(s, p, "{%") && s[p + 2] == ' ' && HasAt(s, p + 3, name)
      && s[e] == ' ' && s[e + 1] == quote && HasAt(s, e + 2, body)
      && s[to] == quote && s[to + 1] == ' ' && HasAt(s, to + 2, "%}")
  {
    var w := WrapStringTag(name, quote, body);
    var e := 3 + |name|;
    var to := e + 2 + |body|;
    WrapStringTagLayout(name, quote, body);
    HasAtWithin(s, p, w, 0, "{%");
    HasAtWithin(s, p, w, 3, name);
    HasAtWithin(s, p, w, e + 2, body);
    HasAtWithin(s, p, w, to + 2, "%}");
    CharWithin(s, p, w, 2);
    CharWithin(s, p, w, e);
    CharWithin(s, p, w, e + 1);
    CharWithin(s, p, w, to);
    CharWithin(s, p, w, to + 1);
  }

  /** A simple tag written out at `p` is matched there, its body the group. */
  lemma StringTagMatchesAt(c: Carrier, body: string, s: string, p: nat) returns (m: Match)
    requires c.StringTag? && c.name != [] && !IsSpace(c.name[0]) && !IsSpace(c.quote)
    requires body != [] && forall i | 0 <= i < |body| :: body[i] != c.quote
    requires HasAt(s, p, WrapStringTag(c.name, c.quote, body))
    ensures MatchAt(c, s, p) == Some(m) && s[m.from..m.to] == body
  {
    StringTagLaidOut(c.name, c.quote, body, s, p);
    var e := p + 3 + |c.name|;
    CharFreeAt(s, e + 2, body, c.quote);
    m := StringTagPiecesMatch(c.name, c.quote, s, p, e + 2 + |body|);
    assert m.from == e + 2 && m.to == e + 2 + |body|;
    StringTagMatchAtComplete(c, s, m);
  }

  /** Text free of `q` written at `at` leaves `s` free of `q` there. */
  lemma CharFreeAt(s: string, at: nat, body: string, q: char)
    requires HasAt(s, at, body) && forall i | 0 <= i < |body| :: body[i] != q
    ensures forall k | at <= k < at + |body| :: s[k] != q
  {
    forall k | at <= k < at + |body|
      ensures s[k] != q
    {
      CharWithin(s, at, body, k - at);
    }
  }

  /** A simple tag whose pieces lie as `StringTagLaidOut` says, its group
      running to `to`, has the layout of a match. */
  lemma StringTagPiecesMatch(name: string, quote: char, s: string, p: nat, to: nat) returns (m: Match)
    requires name != [] && !IsSpace(name[0]) && !IsSpace(quote)
    requires var e := p + 3 + |name|;
      && e + 2 < to && to + 4 <= |s|
      && HasAt(s, p, "{%") && s[p + 2] == ' ' && HasAt(s, p + 3, name)
      && s[e] == ' ' && s[e + 1] == quote && (forall k | e + 2 <= k < to :: s[k] != quote)
      && s[to] == quote && s[to + 1] == ' ' && HasAt(s, to + 2, "%}")
    ensures m == Match(p, p + 5 + |name|, to, to + 4)
    ensures Valid(m, s) && StringTagIn(name, quote, s, m)
  {
    var e := p + 3 + |name|;
    m := Match(p, e + 2, to, to + 4);
    TagOpenComplete(s, p, name, p + 3);
    QuotedPieces(quote, s, e, m);
  }

  /** A space, a quote, a quote-free group, a quote, a space and `%}`
      form a quoted argument. */
  lemma QuotedPieces(quote: char, s: string, e: nat, m: Match)
    requires Valid(m, s) && m.from == e + 2 && m.from < m.to && m.end == m.to + 4
    requires s[e] == ' ' && s[e + 1] == quote && (forall k | m.from <= k < m.to :: s[k] != quote)
    requires s[m.to] == quote && s[m.to + 1] == ' ' && HasAt(s, m.to + 2, "%}")
    ensures QuotedArgumentIn(quote, s, e, m)
  {
    TagCloseComplete(s, m.to + 1, m.to + 2);
  }

  lemma StringTagRoundTripIn(cs: seq<Carrier>, k: nat, pre: string, body: string, post: string)
    requires k < |cs| && cs[k].StringTag?
    requires cs[k].name != [] && !IsSpace(cs[k].name[0]) && !IsSpace(cs[k].quote) && Braceless(cs[k])
    requires forall i | 0 <= i < |body| :: body[i] != cs[k].quote
    requires ClosedIn(cs[k], pre) && Trim(body) != []
    ensures Trim(body) in ExtractFrom(cs, pre + WrapStringTag(cs[k].name, cs[k].quote, body) + post)
  {
    var c := cs[k];
    var w := WrapStringTag(c.name, c.quote, body);
    var s := pre + w + post;
    TrimmedNonEmpty(body);
    HasAtMiddle(pre, w, post);
    var m := StringTagMatchesAt(c, body, s, |pre|);
    CharWithin(w + post, 0, w, 0);
    TagNoneAcross(c, pre, w + post);
    MatchReported(cs, k, s, m);
  }

  /** The body of any of the four simple tags of the catalogue, written
      after text that leaves no match of that tag open, is extracted again,
      stripped, whatever follows. */
  lemma StringTagRoundTrip(k: nat, pre: string, body: string, post: string)
    requires k < |HYPERSCRIPT_PATTERNS| && HYPERSCRIPT_PATTERNS[k].StringTag?
    requires forall i | 0 <= i < |body| :: body[i] != HYPERSCRIPT_PATTERNS[k].quote
    requires ClosedIn(HYPERSCRIPT_PATTERNS[k], pre) && Trim(body) != []
    ensures var c := HYPERSCRIPT_PATTERNS[k];
      Trim(body) in ExtractHyperscript(pre + WrapStringTag(c.name, c.quote, body) + post)
  {
    assert 8 <= k <= 11;
    StringTagRoundTripIn(HYPERSCRIPT_PATTERNS, k, pre, body, post);
  }

  /** `{% name %}` is a whole tag. */
  lemma TagAtLiteral(w: string, k: nat, name: string)
    requires name != [] && !IsSpace(name[0]) && k + 6 + |name| <= |w|
    requires HasAt(w, k, "{%") && w[k + 2] == ' ' && HasAt(w, k + 3, name)
    requires w[k + 3 + |name|] == ' ' && HasAt(w, k + 4 + |name|, "%}")
    ensures TagAt(w, k, name) == Some(k + 6 + |name|)
  {
    TagOpenComplete(w, k, name, k + 3);
    TagCloseComplete(w, k + 3 + |name|, k + 4 + |name|);
  }

  /** A literal `{% name %}` written out at `k` is a whole tag. */
  lemma TagTextAt(w: string, k: nat, name: string)
    requires name != [] && !IsSpace(name[0])
    requires HasAt(w, k, "{% " + name + " %}")
    ensures TagAt(w, k, name) == Some(k + 6 + |name|)
  {
    var t := "{% " + name + " %}";
    CharsWithin(w, k, t);
    assert HasAt(t, 0, "{%") && HasAt(t, 3, name) && HasAt(t, 4 + |name|, "%}");
    HasAtWithin(w, k, t, 0, "{%");
    HasAtWithin(w, k, t, 3, name);
    HasAtWithin(w, k, t, 4 + |name|, "%}");
    TagAtLiteral(w, k, name);
  }

  /** No tag starts inside a brace-free stretch. */
  lemma NoTagInside(w: string, lo: nat, hi: nat, name: string)
    requires lo <= hi <= |w| && forall i | lo <= i < hi :: w[i] != '{'
    ensures forall k | lo <= k < hi :: TagAt(w, k, name).None?
  {
    forall k | lo <= k < hi
      ensures TagAt(w, k, name).None?
    {
      NotAtWhereDiffers(w, k, "{%", 0);
    }
  }

  /** The block `{% hs %}body{% endhs %}`. */
  function WrapBlock(body: string): string {
    "{% hs %}" + body + "{% endhs %}"
  }

  /** The pieces of a wrapped block. */
  lemma WrapBlockParts(body: string)
    ensures var w := WrapBlock(body);
      && |w| == 19 + |body|
      && HasAt(w, 0, "{% " + "hs" + " %}") && HasAt(w, 8, body)
      && HasAt(w, 8 + |body|, "{% " + "endhs" + " %}")
  {
    var w := WrapBlock(body);
    assert w[0..8] == "{% hs %}" && w[8..8 + |body|] == body && w[8 + |body|..] == "{% endhs %}";
  }

  /** Where the pieces of a block written out at `p` lie. */
  lemma BlockLaidOut(body: string, s: string, p: nat)
    requires HasAt(s, p, WrapBlock(body))
    ensures && HasAt(s, p, "{% " + "hs" + " %}") && HasAt(s, p + 8, body)
      && HasAt(s, p + 8 + |body|, "{% " + "endhs" + " %}")
  {
    var w := WrapBlock(body);
    WrapBlockParts(body);
    HasAtWithin(s, p, w, 0, "{% " + "hs" + " %}");
    HasAtWithin(s, p, w, 8, body);
    HasAtWithin(s, p, w, 8 + |body|, "{% " + "endhs" + " %}");
  }

  /** A block written out at `p` is matched there, its body the group, when
      the body holds no brace. */
  lemma BlockMatchesAt(body: string, s: string, p: nat) returns (m: Match)
    requires forall i | 0 <= i < |body| :: body[i] != '{'
    requires HasAt(s, p, WrapBlock(body))
    ensures MatchAt(BlockTag, s, p) == Some(m) && s[m.from..m.to] == body
  {
    BlockLaidOut(body, s, p);
    CharFreeAt(s, p + 8, body, '{');
    m := BlockPiecesMatch(s, p, p + 8 + |body|);
    BlockMatchAtComplete(s, m);
  }

  /** `{% hs %}` at `p`, then a brace-free stretch, then `{% endhs %}` at
      `to`, has the layout of a block. */
  lemma BlockPiecesMatch(s: string, p: nat, to: nat) returns (m: Match)
    requires p + 8 <= to
    requires HasAt(s, p, "{% " + "hs" + " %}") && HasAt(s, to, "{% " + "endhs" + " %}")
    requires forall i | p + 8 <= i < to :: s[i] != '{'
    ensures m == Match(p, p + 8, to, to + 11) && Valid(m, s) && BlockIn(s, m)
  {
    TagTextAt(s, p, "hs");
    TagTextAt(s, to, "endhs");
    NoTagInside(s, p + 8, to, "endhs");
    m := Match(p, p + 8, to, to + 11);
    assert forall k | m.from <= k < m.to :: TagAt(s, k, "endhs").None?;
  }

  lemma BlockRoundTripIn(cs: seq<Carrier>, k: nat, pre: string, body: string, post: string)
    requires k < |cs| && cs[k] == BlockTag
    requires ClosedIn(BlockTag, pre)
    requires forall i | 0 <= i < |body| :: body[i] != '{'
    requires Trim(body) != []
    ensures Trim(body) in ExtractFrom(cs, pre + WrapBlock(body) + post)
  {
    var w := WrapBlock(body);
    var s := pre + w + post;
    HasAtMiddle(pre, w, post);
    var m := BlockMatchesAt(body, s, |pre|);
    CharWithin(w + post, 0, w, 0);
    TagNoneAcross(BlockTag, pre, w + post);
    MatchReported(cs, k, s, m);
  }

  /** The body of a `{% hs %}` block without braces, written after text
      in which every `{% hs %}` is closed, is extracted again, stripped,
      whatever follows. */
  lemma BlockRoundTrip(pre: string, body: string, post: string)
    requires ClosedIn(BlockTag, pre)
    requires forall i | 0 <= i < |body| :: body[i] != '{'
    requires Trim(body) != []
    ensures Trim(body) in ExtractHyperscript(pre + WrapBlock(body) + post)
  {
    BlockRoundTripIn(HYPERSCRIPT_PATTERNS, 7, pre, body, post);
  }

  /** The opening tag `<script type="text/hyperscript">`. */
  const SCRIPT_OPEN: string := "<script" + " " + "type=" + "\"" + "text/hyperscript" + "\">"

  /** The script element `<script type="text/hyperscript">body</script>`. */
  function WrapScript(body: string): string {
    SCRIPT_OPEN + body + "</script>"
  }

  lemma ScriptOpenShape()
    ensures |SCRIPT_OPEN| == 32
    ensures SCRIPT_OPEN[0..7] == "<script" && SCRIPT_OPEN[8..13] == "type=" && SCRIPT_OPEN[13] == '"'
    ensures SCRIPT_OPEN[14..30] == "text/hyperscript"
    ensures (forall k | 7 <= k < 31 :: NotGt(SCRIPT_OPEN[k])) && SCRIPT_OPEN[31] == '>'
  {
  }

  lemma WrapScriptLayout(body: string)
    ensures var w := WrapScript(body);
      var to := 32 + |body|;
      && |w| == to + 9
      && w[0..7] == "<script" && w[8..13] == "type=" && w[13] == '"' && w[14..30] == "text/hyperscript"
      && (forall k | 7 <= k < 31 :: NotGt(w[k])) && w[31] == '>'
      && w[32..to] == body && w[to..to + 9] == "</script>"
  {
    var w := WrapScript(body);
    var to := 32 + |body|;
    ScriptOpenShape();
    assert w[..32] == SCRIPT_OPEN && w[32..to] == body && w[to..] == "</script>";
    assert w[0..7] == SCRIPT_OPEN[0..7] && w[8..13] == SCRIPT_OPEN[8..13];
    assert w[14..30] == SCRIPT_OPEN[14..30];
    assert forall k | 7 <= k < 32 :: w[k] == SCRIPT_OPEN[k];
  }

  /** A literal found ignoring case starts with its first character,
      ignoring case. */
  lemma FoldedStart(s: string, k: nat, lit: string)
    requires lit != [] && HasAtFolded(s, k, lit)
    ensures k < |s| && Lower(s[k]) == Lower(lit[0])
  {
    assert LowerStr(s[k..k + |lit|])[0] == Lower(s[k]);
  }

  /** No `</script>` starts inside a stretch without `<`. */
  lemma NoCloseInside(w: string, lo: nat, hi: nat)
    requires lo <= hi <= |w| && forall i | lo <= i < hi :: w[i] != '<'
    ensures forall k | lo <= k < hi :: !HasAtFolded(w, k, "</script>")
  {
    forall k | lo <= k < hi
      ensures !HasAtFolded(w, k, "</script>")
    {
      if HasAtFolded(w, k, "</script>") {
        FoldedStart(w, k, "</script>");
      }
    }
  }

  /** Where the pieces of a script element written out at `p` lie. */
  lemma ScriptLaidOut(body: string, s: string, p: nat)
    requires HasAt(s, p, WrapScript(body))
    ensures && HasAt(s, p, "<script") && HasAt(s, p + 8, "type=") && s[p + 13] == '"'
      && HasAt(s, p + 14, "text/hyperscript")
      && (forall k | p + 7 <= k < p + 31 :: s[k] != '>') && s[p + 31] == '>'
      && HasAt(s, p + 32, body) && HasAt(s, p + 32 + |body|, "</script>")
  {
    var w := WrapScript(body);
    var to := 32 + |body|;
    WrapScriptLayout(body);
    assert HasAt(w, 0, "<script") && HasAt(w, 8, "type=") && HasAt(w, 14, "text/hyperscript");
    assert HasAt(w, 32, body) && HasAt(w, to, "</script>");
    HasAtWithin(s, p, w, 0, "<script");
    HasAtWithin(s, p, w, 8, "type=");
    HasAtWithin(s, p, w, 14, "text/hyperscript");
    HasAtWithin(s, p, w, 32, body);
    HasAtWithin(s, p, w, to, "</script>");
    CharWithin(s, p, w, 13);
    CharWithin(s, p, w, 31);
    forall k | p + 7 <= k < p + 31
      ensures s[k] != '>'
    {
      CharWithin(s, p, w, k - p);
      assert NotGt(w[k - p]);
    }
  }

  /** The opening tag of a script element written out at `p` declares
      hyperscript and ends at `p + 31`. */
  lemma ScriptOpenMatchesAt(body: string, s: string, p: nat)
    requires HasAt(s, p, WrapScript(body))
    ensures ScriptOpenAt(s, p) == Some(p + 31)
  {
    ScriptLaidOut(body, s, p);
    assert TypeAttrAt(s, p + 8, p + 31);
    ScriptOpenAtComplete(s, p, p + 8, p + 31);
  }

  /** A script element written out at `p` is matched there, its body the
      group, when the body holds no `<`. */
  lemma ScriptMatchesAt(body: string, s: string, p: nat) returns (m: Match)
    requires forall i | 0 <= i < |body| :: body[i] != '<'
    requires HasAt(s, p, WrapScript(body))
    ensures MatchAt(ScriptElement, s, p) == Some(m) && s[m.from..m.to] == body
  {
    var to := p + 32 + |body|;
    ScriptLaidOut(body, s, p);
    ScriptOpenMatchesAt(body, s, p);
    forall i | p + 32 <= i < to
      ensures s[i] != '<'
    {
      assert s[i] == s[p + 32..to][i - p - 32];
    }
    NoCloseInside(s, p + 32, to);
    ScriptAtComplete(s, p, p + 31, to);
    m := Match(p, p + 32, to, to + 9);
  }

  lemma ScriptRoundTripIn(cs: seq<Carrier>, k: nat, pre: string, body: string, post: string)
    requires k < |cs| && cs[k] == ScriptElement
    requires ClosedIn(ScriptElement, pre)
    requires forall i | 0 <= i < |body| :: body[i] != '<'
    requires Trim(body) != []
    ensures Trim(body) in ExtractFrom(cs, pre + WrapScript(body) + post)
  {
    var w := WrapScript(body);
    var s := pre + w + post;
    HasAtMiddle(pre, w, post);
    var m := ScriptMatchesAt(body, s, |pre|);
    CharWithin(w + post, 0, w, 0);
    ScriptNoneAcross(pre, w + post);
    MatchReported(cs, k, s, m);
  }

  /** The body of a hyperscript script element without `<`, written after
      text that leaves no `<script` tag and no hyperscript element open, is
      extracted again, stripped, whatever follows. */
  lemma ScriptRoundTrip(pre: string, body: string, post: string)
    requires ClosedIn(ScriptElement, pre)
    requires forall i | 0 <= i < |body| :: body[i] != '<'
    requires Trim(body) != []
    ensures Trim(body) in ExtractHyperscript(pre + WrapScript(body) + post)
  {
    ScriptRoundTripIn(HYPERSCRIPT_PATTERNS, 12, pre, body, post);
  }

}
