/** The pattern catalogue of `scanner.py`: the ordered extraction rules
    (`HYPERSCRIPT_PATTERNS`), the command alternation (`COMMAND_PATTERN`),
    the block table (`BLOCK_PATTERNS`), the positional alternation
    (`POSITIONAL_PATTERN`) and the two validation sets. Pure data; the
    meaning of each rule is given in `Extract` and `Words`. */
module Patterns {
  import opened Text

  /** One extraction rule: a syntactic carrier of a snippet.
      - `Attribute(lead, quotes, nonEmpty, trail)`: `lead`, one opening
        character from `quotes`, a body free of `quotes` (at least one
        character when `nonEmpty`), one closing character from `quotes`,
        then `trail`; the body is the snippet.
      - `BlockTag`: `{% hs %}` … `{% endhs %}` (any whitespace inside the
        braces), the body reaching up to the first closing tag.
      - `StringTag(name, quote)`: `{% name "…" %}` with at least one space
        after the name and a non-empty body free of `quote`.
      - `ScriptElement`: `<script …>` whose opening tag carries
        `type=text/hyperscript` (optionally quoted, any case), the body
        reaching up to the first `</script>`. */
  datatype Carrier =
    | Attribute(lead: string, quotes: set<char>, nonEmpty: bool, trail: string)
    | BlockTag
    | StringTag(name: string, quote: char)
    | ScriptElement

  /** `HYPERSCRIPT_PATTERNS`, in the order they are applied. */
  const HYPERSCRIPT_PATTERNS: seq<Carrier> := [
    Attribute("_=", {'"'}, false, ""),
    Attribute("_=", {'\''}, false, ""),
    Attribute("_=", {'`'}, false, ""),
    Attribute("_={", {'`'}, true, "}"),
    Attribute("_={", {'\'', '"'}, true, "}"),
    Attribute("data-hs=", {'"'}, false, ""),
    Attribute("data-hs=", {'\''}, false, ""),
    BlockTag,
    StringTag("hs_attr", '"'),
    StringTag("hs_attr", '\''),
    StringTag("hs_script", '"'),
    StringTag("hs_script", '\''),
    ScriptElement
  ]

  /** The alternatives of `COMMAND_PATTERN`, spelled and ordered as in the
      pattern (it is matched ignoring case). */
  const COMMAND_ALTERNATIVES: seq<string> := [
    "toggle", "add", "remove", "removeClass", "show", "hide", "set", "get", "put", "append",
    "take", "increment", "decrement", "log", "send", "trigger", "wait", "transition", "go", "call",
    "focus", "blur", "return"
  ]

  /** `VALID_COMMANDS`. */
  const VALID_COMMANDS: set<string> := {
    "toggle", "add", "remove", "removeclass", "show", "hide", "set", "get", "put", "append",
    "take", "increment", "decrement", "log", "send", "trigger", "wait", "transition", "go", "call",
    "focus", "blur", "return"
  }

  /** How a block kind is recognised. */
  datatype BlockRule =
    | Keyword(word: string)  // `\bword\b`
    | ForEach                // `\bfor\s+(each|every)\b`
    | RepeatTimes            // `\brepeat\s+(\d+|:\w+|\$\w+|[\w.]+)\s+times?\b`

  /** `BLOCK_PATTERNS`, in insertion order. */
  const BLOCK_PATTERNS: seq<(string, BlockRule)> := [
    ("if", Keyword("if")),
    ("unless", Keyword("unless")),
    ("repeat", RepeatTimes),
    ("for", ForEach),
    ("while", Keyword("while")),
    ("fetch", Keyword("fetch")),
    ("async", Keyword("async"))
  ]

  /** `VALID_BLOCKS`. */
  const VALID_BLOCKS: set<string> := {"if", "repeat", "for", "while", "fetch", "async"}

  lemma UnlessNotValid()
    ensures "unless" !in VALID_BLOCKS
  {
  }

  /** The alternatives of `POSITIONAL_PATTERN`. */
  const POSITIONAL_ALTERNATIVES: seq<string> := ["first", "last", "next", "previous", "closest", "parent"]

  /** The block kind reported for a table entry: `unless` is reported as `if`. */
  function Canonical(name: string): string {
    if name == "unless" then "if" else name
  }

  /** A non-empty run of word characters: what `\b…\b` can match whole. */
  predicate IsKeyword(w: string) {
    |w| > 0 && forall k | 0 <= k < |w| :: IsWordChar(w[k])
  }

  /** Lower-case ASCII letters only. */
  predicate IsLowerWord(w: string) {
    |w| > 0 && forall k | 0 <= k < |w| :: 'a' <= w[k] <= 'z'
  }

  lemma LowerWordIsKeyword(w: string)
    requires IsLowerWord(w)
    ensures IsKeyword(w) && LowerStr(w) == w
  {
  }

  lemma AlternativesLowerCase()
    ensures forall k | 0 <= k < |COMMAND_ALTERNATIVES| && k != 3 :: IsLowerWord(COMMAND_ALTERNATIVES[k])
  {
  }

  lemma AlternativesValid()
    ensures forall k | 0 <= k < |COMMAND_ALTERNATIVES| && k != 3 :: COMMAND_ALTERNATIVES[k] in VALID_COMMANDS
  {
  }

  lemma ValidAreAlternatives()
    ensures forall c | c in VALID_COMMANDS && c != "removeclass" :: c in COMMAND_ALTERNATIVES
  {
  }

  lemma ValidLowerCase()
    ensures forall c | c in VALID_COMMANDS :: IsLowerWord(c)
  {
  }

  lemma LowerRemoveClass()
    ensures IsKeyword(COMMAND_ALTERNATIVES[3]) && LowerStr(COMMAND_ALTERNATIVES[3]) == "removeclass"
  {
    var mixed := COMMAND_ALTERNATIVES[3];
    assert forall i | 0 <= i < |mixed| :: Lower(mixed[i]) == "removeclass"[i];
  }

  /** Every alternative of the command alternation is a keyword whose
      lower-case form is in `VALID_COMMANDS`. */
  lemma AlternativesAreValidCommands()
    ensures forall k | 0 <= k < |COMMAND_ALTERNATIVES| ::
      IsKeyword(COMMAND_ALTERNATIVES[k]) && LowerStr(COMMAND_ALTERNATIVES[k]) in VALID_COMMANDS
  {
    LowerRemoveClass();
    AlternativesLowerCase();
    AlternativesValid();
    forall k | 0 <= k < |COMMAND_ALTERNATIVES|
      ensures IsKeyword(COMMAND_ALTERNATIVES[k]) && LowerStr(COMMAND_ALTERNATIVES[k]) in VALID_COMMANDS
    {
      if k != 3 {
        LowerWordIsKeyword(COMMAND_ALTERNATIVES[k]);
      }
    }
  }

  /** Every command in `VALID_COMMANDS` is the lower-case form of an
      alternative of the command alternation, so each can be detected. */
  lemma ValidCommandsAreAlternatives()
    ensures forall c | c in VALID_COMMANDS ::
      exists k | 0 <= k < |COMMAND_ALTERNATIVES| :: LowerStr(COMMAND_ALTERNATIVES[k]) == c
  {
    LowerRemoveClass();
    ValidLowerCase();
    ValidAreAlternatives();
    forall c | c in VALID_COMMANDS
      ensures exists k | 0 <= k < |COMMAND_ALTERNATIVES| :: LowerStr(COMMAND_ALTERNATIVES[k]) == c
    {
      if c != "removeclass" {
        var k :| 0 <= k < |COMMAND_ALTERNATIVES| && COMMAND_ALTERNATIVES[k] == c;
        LowerWordIsKeyword(c);
      } else {
        assert LowerStr(COMMAND_ALTERNATIVES[3]) == c;
      }
    }
  }

  /** Every positional alternative is a lower-case keyword. */
  lemma PositionalVocabulary()
    ensures forall k | 0 <= k < |POSITIONAL_ALTERNATIVES| ::
      IsKeyword(POSITIONAL_ALTERNATIVES[k]) && LowerStr(POSITIONAL_ALTERNATIVES[k]) == POSITIONAL_ALTERNATIVES[k]
  {
    forall k | 0 <= k < |POSITIONAL_ALTERNATIVES|
      ensures IsKeyword(POSITIONAL_ALTERNATIVES[k]) && LowerStr(POSITIONAL_ALTERNATIVES[k]) == POSITIONAL_ALTERNATIVES[k]
    {
      LowerWordIsKeyword(POSITIONAL_ALTERNATIVES[k]);
    }
  }

}
