/** The `Scanner` class of `scanner.py`: its configuration, the file filter
    (`should_scan`) and the pipeline from file contents to per-file usages
    (`scan_content`, `scan_file`) and from directory listings to path-keyed
    maps (`scan_directory`, `scan_directories`).

    The filesystem is not modelled: a directory is the listing `rglob("*")`
    would produce (or `None` when the directory does not exist), and each
    entry carries its path, whether it is a regular file, and its contents
    (or `None` when reading it fails). */
module Scanner {
  import opened Optional
  import opened Text
  import opened Patterns
  import opened Words
  import opened Usage
  import opened Extract
  import opened Classify

  /** The scanner's settings. `debug` switches diagnostic output on; the
      output itself, and what happens when writing it fails, is not modelled. */
  datatype Config = Config(includeExtensions: set<string>, excludePatterns: seq<string>, debug: bool)

  const DEFAULT_EXTENSIONS: set<string> := {".html", ".htm", ".txt", ".xml", ".jinja", ".jinja2"}

  const DEFAULT_EXCLUDES: seq<string> := ["__pycache__", ".git", "node_modules", ".venv", "venv", "site-packages"]

  /** `Scanner(include_extensions=…, exclude_patterns=…, debug=…)`. Each
      setting is `given or default`, so both a missing and an empty value
      fall back to the default. */
  function NewScanner(extensions: Option<set<string>>, patterns: Option<seq<string>>, debug: bool): (r: Config)
    ensures r.includeExtensions != {} && r.excludePatterns != [] && r.debug == debug
    ensures extensions.Some? && extensions.value != {} ==> r.includeExtensions == extensions.value
    ensures extensions.None? || extensions.value == {} ==> r.includeExtensions == DEFAULT_EXTENSIONS
    ensures patterns.Some? && patterns.value != [] ==> r.excludePatterns == patterns.value
    ensures patterns.None? || patterns.value == [] ==> r.excludePatterns == DEFAULT_EXCLUDES
  {
    var inc := if extensions.Some? && extensions.value != {} then extensions.value else DEFAULT_EXTENSIONS;
    var exc := if patterns.Some? && patterns.value != [] then patterns.value else DEFAULT_EXCLUDES;
    Config(inc, exc, debug)
  }

  /** `Scanner()`. */
  const DEFAULT_CONFIG := NewScanner(None, None, false)

  // ---------------------------------------------------------------------
  // Paths

  /** `s.rfind(c)`: the last position holding `c`. */
  function LastIndex(s: string, c: char): (r: Option<nat>)
    ensures r.Some? ==> r.value < |s| && s[r.value] == c && forall j | r.value < j < |s| :: s[j] != c
    ensures r.None? ==> forall j | 0 <= j < |s| :: s[j] != c
    decreases |s|
  {
    if s == [] then None
    else if s[|s| - 1] == c then Some(|s| - 1)
    else LastIndex(s[..|s| - 1], c)
  }

  /** `path.name`: the final component of a slash-separated path. */
  function Name(path: string): (r: string)
    ensures forall j | 0 <= j < |r| :: r[j] != '/'
    ensures |r| <= |path| && r == path[|path| - |r|..]
    ensures r == path || path[|path| - |r| - 1] == '/'
  {
    match LastIndex(path, '/')
    case None => path
    case Some(i) => path[i + 1..]
  }

  /** `path.suffix`: from the last dot of the name, provided that dot is
      neither the first character (a dot-file) nor the last. */
  function Suffix(name: string): (r: string)
    ensures r == [] || (2 <= |r| < |name| && r[0] == '.' && r == name[|name| - |r|..])
    ensures forall j | 1 <= j < |r| :: r[j] != '.'
  {
    match LastIndex(name, '.')
    case None => []
    case Some(i) => if 0 < i < |name| - 1 then name[i..] else []
  }

  /** A file name in a directory is the path's final component. */
  lemma NameInDirectory(dir: string, name: string)
    requires dir == [] || dir[|dir| - 1] == '/'
    requires forall j | 0 <= j < |name| :: name[j] != '/'
    ensures Name(dir + name) == name
  {
    var p := dir + name;
    if dir != [] {
      assert p[|dir| - 1] == '/';
      assert forall j | |dir| <= j < |p| :: p[j] == name[j - |dir|];
      LastIndexAt(p, '/', |dir| - 1);
      assert p[|dir|..] == name;
    } else {
      assert p == name;
    }
  }

  /** A name made of a stem and an extension has that extension as its
      suffix. */
  lemma SuffixOfStem(stem: string, ext: string)
    requires stem != []
    requires 2 <= |ext| && ext[0] == '.' && forall j | 1 <= j < |ext| :: ext[j] != '.'
    ensures Suffix(stem + ext) == ext
  {
    var n := stem + ext;
    assert forall j | |stem| <= j < |n| :: n[j] == ext[j - |stem|];
    LastIndexAt(n, '.', |stem|);
    assert n[|stem|..] == ext;
  }

  /** `rfind` finds `c` at `i` when nothing after `i` is `c`. */
  lemma LastIndexAt(s: string, c: char, i: nat)
    requires i < |s| && s[i] == c && forall j | i < j < |s| :: s[j] != c
    ensures LastIndex(s, c) == Some(i)
  {
  }

  // ---------------------------------------------------------------------
  // File filter

  /** Whether some pattern of `patterns` occurs in `path`, checking the
      patterns in order as `should_scan`'s loop does. */
  function Excluded(patterns: seq<string>, path: string): (r: bool)
    ensures r <==> exists k | 0 <= k < |patterns| :: IsSubstring(patterns[k], path)
  {
    if patterns == [] then false
    else if IsSubstring(patterns[0], path) then true
    else
      var rest := Excluded(patterns[1..], path);
      assert forall k | 1 <= k < |patterns| :: patterns[k] == patterns[1..][k - 1];
      rest
  }

  /** `Scanner.should_scan`. */
  function ShouldScan(cfg: Config, path: string): (r: bool)
    ensures r <==>
      && LowerStr(Suffix(Name(path))) in cfg.includeExtensions
      && forall k | 0 <= k < |cfg.excludePatterns| :: !IsSubstring(cfg.excludePatterns[k], path)
  {
    if LowerStr(Suffix(Name(path))) !in cfg.includeExtensions then false
    else !Excluded(cfg.excludePatterns, path)
  }

  /** With the default settings nothing under `node_modules`, `.git`,
      a virtual environment or `site-packages` is scanned. */
  lemma DefaultSkipsExcluded(path: string, k: nat)
    requires k < |DEFAULT_EXCLUDES| && IsSubstring(DEFAULT_EXCLUDES[k], path)
    ensures !ShouldScan(DEFAULT_CONFIG, path)
  {
  }

  /** With the default settings a template `dir/stem.ext` is scanned when
      its extension, in any case, is a default one and no excluded name
      occurs in its path. */
  lemma DefaultScansTemplate(dir: string, stem: string, ext: string)
    requires dir == [] || dir[|dir| - 1] == '/'
    requires stem != [] && forall j | 0 <= j < |stem| :: stem[j] != '/'
    requires 2 <= |ext| && ext[0] == '.' && forall j | 1 <= j < |ext| :: ext[j] != '.' && ext[j] != '/'
    requires LowerStr(ext) in DEFAULT_EXTENSIONS
    requires forall k | 0 <= k < |DEFAULT_EXCLUDES| :: !IsSubstring(DEFAULT_EXCLUDES[k], dir + stem + ext)
    ensures ShouldScan(DEFAULT_CONFIG, dir + stem + ext)
  {
    assert dir + stem + ext == dir + (stem + ext);
    NameInDirectory(dir, stem + ext);
    SuffixOfStem(stem, ext);
  }

  // ---------------------------------------------------------------------
  // Contents

  /** The usage of each snippet, in order. */
  function Analyses(xs: seq<string>): (r: seq<FileUsage>)
    ensures |r| == |xs| && forall k | 0 <= k < |xs| :: r[k] == AnalyzeScript(xs[k])
  {
    seq(|xs|, k requires 0 <= k < |xs| => AnalyzeScript(xs[k]))
  }

  /** `Scanner.scan_content`: the snippets of the text, each analysed, merged
      into `FileUsage()` one after the other. */
  function ScanContent(content: string): (r: FileUsage)
    ensures r.commands <= VALID_COMMANDS
    ensures r.blocks <= VALID_BLOCKS && "unless" !in r.blocks
  {
    var us := Analyses(ExtractHyperscript(content));
    MergeAllWithin(us, VALID_COMMANDS, VALID_BLOCKS);
    UnlessNotValid();
    MergeAll(us)
  }

  /** Some positional keyword occurs as a whole word in `s`. */
  predicate PositionalUsed(s: string) {
    exists k | 0 <= k < |POSITIONAL_ALTERNATIVES| :: WordOccurs(s, POSITIONAL_ALTERNATIVES[k])
  }

  /** A file uses a command exactly when one of its snippets has it as a
      whole word, in any case. */
  lemma ScanContentCommands(content: string, c: string)
    ensures var xs := ExtractHyperscript(content);
      c in ScanContent(content).commands <==>
        c in VALID_COMMANDS && exists k | 0 <= k < |xs| :: WordOccurs(xs[k], c)
  {
    var xs := ExtractHyperscript(content);
    var us := Analyses(xs);
    MergeAllMembers(us, c, c);
    forall k | 0 <= k < |xs|
      ensures c in us[k].commands <==> c in VALID_COMMANDS && WordOccurs(xs[k], c)
    {
      CommandsDetected(xs[k], c);
    }
  }

  /** A file uses a block kind exactly when one of its snippets does. */
  lemma ScanContentBlocks(content: string, b: string)
    ensures var xs := ExtractHyperscript(content);
      b in ScanContent(content).blocks <==> exists k | 0 <= k < |xs| :: BlockUsed(xs[k], b)
  {
    var xs := ExtractHyperscript(content);
    var us := Analyses(xs);
    MergeAllMembers(us, b, b);
    forall k | 0 <= k < |xs|
      ensures b in us[k].blocks <==> BlockUsed(xs[k], b)
    {
      BlocksDetected(xs[k], b);
    }
  }

  /** A file uses positional expressions exactly when one of its snippets
      does. */
  lemma ScanContentPositional(content: string)
    ensures var xs := ExtractHyperscript(content);
      ScanContent(content).positional <==> exists k | 0 <= k < |xs| :: PositionalUsed(xs[k])
  {
    var xs := ExtractHyperscript(content);
    var us := Analyses(xs);
    MergeAllMembers(us, "", "");
    forall k | 0 <= k < |xs|
      ensures us[k].positional <==> PositionalUsed(xs[k])
    {
      PositionalDetected(xs[k]);
    }
  }

  /** A command written as a whole word inside a `_="…"` attribute is
      detected in the file, whatever markup follows, and whatever precedes
      it as long as that leaves no `_="` value unclosed. */
  lemma AttributeCommandDetected(pre: string, body: string, post: string, c: string)
    requires ClosedIn(Attribute("_=", {'"'}, false, ""), pre)
    requires forall i | 0 <= i < |body| :: body[i] != '"'
    requires c in VALID_COMMANDS && WordOccurs(Trim(body), c)
    ensures c in ScanContent(pre + WrapAttribute("_=", '"', body, "") + post).commands
  {
    var content := pre + WrapAttribute("_=", '"', body, "") + post;
    assert Trim(body) != [];
    AttributeRoundTrip(0, pre, '"', body, post);
    var xs := ExtractHyperscript(content);
    var k :| 0 <= k < |xs| && xs[k] == Trim(body);
    ScanContentCommands(content, c);
  }

  /** Quotes of other attributes before `_="…"` do not hide it: after
      `<button class="btn" ` a command in the attribute is still detected. */
  lemma AttributeAfterOtherAttribute(body: string, post: string, c: string)
    requires forall i | 0 <= i < |body| :: body[i] != '"'
    requires c in VALID_COMMANDS && WordOccurs(Trim(body), c)
    ensures c in ScanContent("<button class=\"btn\" " + WrapAttribute("_=", '"', body, "") + post).commands
  {
    var pre := "<button class=\"btn\" ";
    forall j: nat | j < |pre|
      ensures !OpensAt(Attribute("_=", {'"'}, false, ""), pre, j)
    {
      if j + 2 <= |pre| {
        NotAtWhereDiffers(pre, j, "_=", 0);
      }
    }
    AttributeCommandDetected(pre, body, post, c);
  }

  /** A whole-word `unless` inside a `{% hs %}…{% endhs %}` block is
      reported as the block `if`, whatever follows the block and whatever
      precedes it as long as that leaves no `{% hs %}` block unclosed. */
  lemma BlockUnlessReportedAsIf(pre: string, body: string, post: string)
    requires ClosedIn(BlockTag, pre)
    requires forall i | 0 <= i < |body| :: body[i] != '{'
    requires WordOccurs(Trim(body), "unless")
    ensures var u := ScanContent(pre + WrapBlock(body) + post);
      "if" in u.blocks && "unless" !in u.blocks
  {
    var content := pre + WrapBlock(body) + post;
    assert Trim(body) != [];
    BlockRoundTrip(pre, body, post);
    var xs := ExtractHyperscript(content);
    var k :| 0 <= k < |xs| && xs[k] == Trim(body);
    assert BlockUsed(xs[k], "if");
    ScanContentBlocks(content, "if");
  }

  /** Other template tags before a block do not hide it: after
      `{% load hyperfixi %}` an `unless` in the block is still reported as
      `if`. */
  lemma BlockAfterOtherTag(body: string, post: string)
    requires forall i | 0 <= i < |body| :: body[i] != '{'
    requires WordOccurs(Trim(body), "unless")
    ensures var u := ScanContent("{% load hyperfixi %}" + WrapBlock(body) + post);
      "if" in u.blocks && "unless" !in u.blocks
  {
    var pre := "{% load hyperfixi %}";
    forall j: nat | j < |pre|
      ensures !OpensAt(BlockTag, pre, j)
    {
      if j == 0 {
        SkipEndsAt(pre, 2, IsSpace, 3);
        NotAtWhereDiffers(pre, 3, "hs", 0);
      } else if j + 2 <= |pre| {
        NotAtWhereDiffers(pre, j, "{%", 0);
      }
    }
    BlockUnlessReportedAsIf(pre, body, post);
  }

  /** A positional keyword written as a whole word inside a hyperscript
      script element raises the file's positional flag, whatever follows
      the element and whatever precedes it as long as that leaves no
      `<script` tag and no hyperscript element unclosed. */
  lemma ScriptPositionalDetected(pre: string, body: string, post: string, n: nat)
    requires ClosedIn(ScriptElement, pre)
    requires forall i | 0 <= i < |body| :: body[i] != '<'
    requires n < |POSITIONAL_ALTERNATIVES| && WordOccurs(Trim(body), POSITIONAL_ALTERNATIVES[n])
    ensures ScanContent(pre + WrapScript(body) + post).positional
  {
    var content := pre + WrapScript(body) + post;
    assert Trim(body) != [];
    ScriptRoundTrip(pre, body, post);
    var xs := ExtractHyperscript(content);
    var k :| 0 <= k < |xs| && xs[k] == Trim(body);
    assert PositionalUsed(xs[k]);
    ScanContentPositional(content);
  }

  /** Other script elements before a hyperscript one do not hide it: after
      `<script src="a.js"></script>` a positional word in the element still
      raises the flag. */
  lemma ScriptAfterOtherScript(body: string, post: string, n: nat)
    requires forall i | 0 <= i < |body| :: body[i] != '<'
    requires n < |POSITIONAL_ALTERNATIVES| && WordOccurs(Trim(body), POSITIONAL_ALTERNATIVES[n])
    ensures ScanContent("<script src=\"a.js\"></script>" + WrapScript(body) + post).positional
  {
    OtherScriptClosed("<script src=\"a.js\"></script>");
    ScriptPositionalDetected("<script src=\"a.js\"></script>", body, post, n);
  }

  /** `<script src="a.js"></script>` leaves no hyperscript element open:
      its opening tag is too short to hold the type attribute. */
  lemma OtherScriptClosed(pre: string)
    requires pre == "<script src=\"a.js\"></script>"
    ensures forall j: nat | j < |pre| :: !OpensAt(ScriptElement, pre, j)
  {
    forall j: nat | j < |pre|
      ensures !OpensAt(ScriptElement, pre, j)
    {
      if j == 0 {
        SkipEndsAt(pre, 7, NotGt, 18);
      } else if j + 7 <= |pre| {
        var i := if pre[j] == '<' then 1 else 0;
        FoldedNotAtWhereDiffers(pre, j, "<script", i);
      }
    }
  }

  /** `Scanner.scan_file`: the usage of the file's contents, or `FileUsage()`
      when the file cannot be read. */
  function ScanFile(content: Option<string>): (r: FileUsage)
    ensures content.None? ==> r == Empty
    ensures r.commands <= VALID_COMMANDS
    ensures r.blocks <= VALID_BLOCKS && "unless" !in r.blocks
  {
    match content
    case None => Empty
    case Some(text) => ScanContent(text)
  }

  // ---------------------------------------------------------------------
  // Directories

  /** One item of a recursive directory listing. */
  datatype Entry = Entry(path: string, isFile: bool, content: Option<string>)

  /** The entry is a file the scanner keeps: it passes the filter and some
      usage is detected in it. */
  predicate Recorded(cfg: Config, e: Entry) {
    e.isFile && ShouldScan(cfg, e.path) && Truthy(ScanFile(e.content))
  }

  /** What one iteration of `scan_directory`'s loop stores for an entry. */
  function Outcome(cfg: Config, e: Entry): (r: Option<FileUsage>)
    ensures r.Some? <==> Recorded(cfg, e)
    ensures r.Some? ==> r.value == ScanFile(e.content)
  {
    if e.isFile && ShouldScan(cfg, e.path) then
      var usage := ScanFile(e.content);
      if Truthy(usage) then Some(usage) else None
    else None
  }

  /** Each entry's path with what the loop stores for it. */
  function Outcomes(cfg: Config, entries: seq<Entry>): (r: seq<(string, Option<FileUsage>)>)
    ensures |r| == |entries|
    ensures forall k | 0 <= k < |entries| :: r[k] == (entries[k].path, Outcome(cfg, entries[k]))
  {
    seq(|entries|, k requires 0 <= k < |entries| => (entries[k].path, Outcome(cfg, entries[k])))
  }

  /** Store each present value under its path, in order, so that a later
      value replaces an earlier one. */
  function Gather(outs: seq<(string, Option<FileUsage>)>): (r: map<string, FileUsage>)
    ensures forall p | p in r :: (p, Some(r[p])) in outs
    decreases |outs|
  {
    if outs == [] then map[]
    else
      var m := Gather(outs[..|outs| - 1]);
      var (path, out) := outs[|outs| - 1];
      match out
      case None => m
      case Some(usage) => m[path := usage]
  }

  /** A path is gathered exactly when some value is present for it. */
  lemma {:induction false} GatherKeys(outs: seq<(string, Option<FileUsage>)>, p: string)
    ensures p in Gather(outs) <==> exists k | 0 <= k < |outs| :: outs[k].0 == p && outs[k].1.Some?
    decreases |outs|
  {
    if outs != [] {
      var init := outs[..|outs| - 1];
      GatherKeys(init, p);
      assert forall k | 0 <= k < |init| :: init[k] == outs[k];
    }
  }

  /** The value gathered for a path is the last one present for it. */
  lemma {:induction false} GatherValue(outs: seq<(string, Option<FileUsage>)>, k: nat)
    requires k < |outs| && outs[k].1.Some?
    requires forall j | k < j < |outs| :: !(outs[j].0 == outs[k].0 && outs[j].1.Some?)
    ensures var r := Gather(outs);
      outs[k].0 in r && r[outs[k].0] == outs[k].1.value
    decreases |outs|
  {
    if k < |outs| - 1 {
      var init := outs[..|outs| - 1];
      assert init[k] == outs[k];
      GatherValue(init, k);
    }
  }

  /** `Scanner.scan_directory`: nothing for a directory that does not exist,
      otherwise the non-empty usage of every file it keeps, by path. */
  function ScanDirectory(cfg: Config, root: Option<seq<Entry>>): (r: map<string, FileUsage>)
    ensures root.None? ==> r == map[]
    ensures forall p | p in r :: Truthy(r[p]) && ShouldScan(cfg, p)
  {
    match root
    case None => map[]
    case Some(entries) =>
      var outs := Outcomes(cfg, entries);
      var r := Gather(outs);
      forall p | p in r
        ensures Truthy(r[p]) && ShouldScan(cfg, p)
      {
        var k :| 0 <= k < |outs| && outs[k] == (p, Some(r[p]));
        assert Outcome(cfg, entries[k]) == Some(r[p]);
      }
      r
  }

  /** A path is in the result exactly when some entry with that path is
      recorded. */
  lemma ScanDirectoryKeys(cfg: Config, entries: seq<Entry>, p: string)
    ensures p in ScanDirectory(cfg, Some(entries)) <==>
      exists k | 0 <= k < |entries| :: entries[k].path == p && Recorded(cfg, entries[k])
  {
    var outs := Outcomes(cfg, entries);
    GatherKeys(outs, p);
    if p in ScanDirectory(cfg, Some(entries)) {
      var k :| 0 <= k < |outs| && outs[k].0 == p && outs[k].1.Some?;
      assert entries[k].path == p && Recorded(cfg, entries[k]);
    }
    if exists k | 0 <= k < |entries| :: entries[k].path == p && Recorded(cfg, entries[k]) {
      var k :| 0 <= k < |entries| && entries[k].path == p && Recorded(cfg, entries[k]);
      assert outs[k].0 == p && outs[k].1.Some?;
    }
  }

  /** Entry `k` is recorded and no later entry is recorded under its path. */
  predicate LastRecorded(cfg: Config, entries: seq<Entry>, k: nat)
    requires k < |entries|
  {
    Recorded(cfg, entries[k]) &&
    forall j | k < j < |entries| :: !(entries[j].path == entries[k].path && Recorded(cfg, entries[j]))
  }

  /** The usage stored for a path is that of the last entry recorded under
      it. */
  lemma ScanDirectoryValue(cfg: Config, entries: seq<Entry>, k: nat)
    requires k < |entries|
    ensures LastRecorded(cfg, entries, k) ==>
      var r := ScanDirectory(cfg, Some(entries));
      entries[k].path in r && r[entries[k].path] == ScanFile(entries[k].content)
  {
    if !LastRecorded(cfg, entries, k) {
      return;
    }
    var outs := Outcomes(cfg, entries);
    forall j | k < j < |outs|
      ensures !(outs[j].0 == outs[k].0 && outs[j].1.Some?)
    {
      assert outs[j] == (entries[j].path, Outcome(cfg, entries[j]));
    }
    GatherValue(outs, k);
  }

  /** The debug output of `scan_content` and `scan_file` is not modelled and
      no member reads `debug`, so this holds by construction: it records
      that the switch is carried, not a property of the debug branches. */
  lemma ScanDirectoryIgnoresDebug(cfg: Config, root: Option<seq<Entry>>)
    ensures ScanDirectory(cfg, root) == ScanDirectory(cfg.(debug := !cfg.debug), root)
  {
    if root.Some? {
      assert Outcomes(cfg, root.value) == Outcomes(cfg.(debug := !cfg.debug), root.value);
    }
  }

  /** Update the result with each map in turn, as `dict.update` does. */
  function UpdateAll(ms: seq<map<string, FileUsage>>): (r: map<string, FileUsage>)
    ensures forall p | p in r :: exists k | 0 <= k < |ms| :: p in ms[k] && r[p] == ms[k][p]
    decreases |ms|
  {
    if ms == [] then map[]
    else
      var m := UpdateAll(ms[..|ms| - 1]);
      var r := m + ms[|ms| - 1];
      assert forall k | 0 <= k < |ms| - 1 :: ms[..|ms| - 1][k] == ms[k];
      r
  }

  /** A path is in the combined map exactly when some map holds it. */
  lemma {:induction false} UpdateAllKeys(ms: seq<map<string, FileUsage>>, p: string)
    ensures p in UpdateAll(ms) <==> exists k | 0 <= k < |ms| :: p in ms[k]
    decreases |ms|
  {
    if ms != [] {
      var init := ms[..|ms| - 1];
      UpdateAllKeys(init, p);
      assert forall k | 0 <= k < |init| :: init[k] == ms[k];
    }
  }

  /** The combined map takes a path's value from the last map holding it. */
  lemma {:induction false} UpdateAllLastWins(ms: seq<map<string, FileUsage>>, k: nat, p: string)
    requires k < |ms| && p in ms[k]
    requires forall j | k < j < |ms| :: p !in ms[j]
    ensures p in UpdateAll(ms) && UpdateAll(ms)[p] == ms[k][p]
    decreases |ms|
  {
    if k < |ms| - 1 {
      var init := ms[..|ms| - 1];
      assert init[k] == ms[k];
      UpdateAllLastWins(init, k, p);
    }
  }

  /** Each root's directory map, in order. */
  function DirectoryMaps(cfg: Config, roots: seq<Option<seq<Entry>>>): (r: seq<map<string, FileUsage>>)
    ensures |r| == |roots| && forall k | 0 <= k < |roots| :: r[k] == ScanDirectory(cfg, roots[k])
  {
    seq(|roots|, k requires 0 <= k < |roots| => ScanDirectory(cfg, roots[k]))
  }

  /** `Scanner.scan_directories`: the directory maps, each updating the
      result in turn. */
  function ScanDirectories(cfg: Config, roots: seq<Option<seq<Entry>>>): (r: map<string, FileUsage>)
    ensures forall p | p in r :: Truthy(r[p]) && ShouldScan(cfg, p)
  {
    var ms := DirectoryMaps(cfg, roots);
    var r := UpdateAll(ms);
    forall p | p in r
      ensures Truthy(r[p]) && ShouldScan(cfg, p)
    {
      var k :| 0 <= k < |ms| && p in ms[k] && r[p] == ms[k][p];
    }
    r
  }

  /** A path is in the combined result exactly when some directory's
      result holds it. */
  lemma ScanDirectoriesKeys(cfg: Config, roots: seq<Option<seq<Entry>>>, p: string)
    ensures p in ScanDirectories(cfg, roots) <==>
      exists k | 0 <= k < |roots| :: p in ScanDirectory(cfg, roots[k])
  {
    UpdateAllKeys(DirectoryMaps(cfg, roots), p);
  }

  /** A path found under several directories keeps the usage from the last
      of them. */
  lemma ScanDirectoriesLastWins(cfg: Config, roots: seq<Option<seq<Entry>>>, k: nat, p: string)
    requires k < |roots|
    ensures (p in ScanDirectory(cfg, roots[k]) && forall j | k < j < |roots| :: p !in ScanDirectory(cfg, roots[j])) ==>
      var r := ScanDirectories(cfg, roots);
      p in r && r[p] == ScanDirectory(cfg, roots[k])[p]
  {
    var ms := DirectoryMaps(cfg, roots);
    if p in ScanDirectory(cfg, roots[k]) && forall j | k < j < |roots| :: p !in ScanDirectory(cfg, roots[j]) {
      forall j | k < j < |ms|
        ensures p !in ms[j]
      {
        assert p !in ScanDirectory(cfg, roots[j]);
      }
      UpdateAllLastWins(ms, k, p);
    }
  }

}
