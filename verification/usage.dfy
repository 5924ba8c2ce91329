/** The usage records of `scanner.py`: what one snippet or one file uses
    (`FileUsage`) and the aggregate over many files (`AggregatedUsage`),
    with the union merge that folds snippets into a file. */
module Usage {

  /** Commands, block kinds and the positional flag detected in a snippet or
      a file. Names are stored lower-case. */
  datatype FileUsage = FileUsage(commands: set<string>, blocks: set<string>, positional: bool)

  /** Aggregate over many files; `fileUsage` maps a path to that file's usage. */
  datatype AggregatedUsage = AggregatedUsage(
    commands: set<string>,
    blocks: set<string>,
    positional: bool,
    fileUsage: map<string, FileUsage>)

  /** A freshly constructed `FileUsage()`. */
  const Empty := FileUsage({}, {}, false)

  /** `FileUsage.__bool__`: whether any usage was detected. */
  function Truthy(u: FileUsage): (r: bool)
    ensures !r <==> u == Empty
  {
    u.commands != {} || u.blocks != {} || u.positional
  }

  /** Everything `b` records is recorded by `a` too. */
  predicate Includes(a: FileUsage, b: FileUsage) {
    b.commands <= a.commands && b.blocks <= a.blocks && (b.positional ==> a.positional)
  }

  /** `FileUsage.merge`: the result of `a.merge(b)`, which updates both sets
      with `b`'s and raises the flag when `b`'s is raised. */
  function Merge(a: FileUsage, b: FileUsage): (r: FileUsage)
    ensures Includes(r, a) && Includes(r, b)
    ensures Truthy(r) <==> Truthy(a) || Truthy(b)
  {
    FileUsage(a.commands + b.commands, a.blocks + b.blocks, a.positional || b.positional)
  }

  /** Merge is the least usage including both arguments. */
  lemma MergeIsLeastUpperBound(a: FileUsage, b: FileUsage, z: FileUsage)
    requires Includes(z, a) && Includes(z, b)
    ensures Includes(z, Merge(a, b))
  {
  }

  lemma MergeCommutative(a: FileUsage, b: FileUsage)
    ensures Merge(a, b) == Merge(b, a)
  {
  }

  lemma MergeAssociative(a: FileUsage, b: FileUsage, c: FileUsage)
    ensures Merge(Merge(a, b), c) == Merge(a, Merge(b, c))
  {
  }

  lemma MergeIdempotent(a: FileUsage)
    ensures Merge(a, a) == a
  {
  }

  lemma MergeEmptyIdentity(a: FileUsage)
    ensures Merge(a, Empty) == a && Merge(Empty, a) == a
  {
  }

  /** Start from `FileUsage()` and merge each element in turn, as
      `scan_content` does with the usages of a file's snippets. */
  function MergeAll(us: seq<FileUsage>): (r: FileUsage)
    ensures forall k | 0 <= k < |us| :: Includes(r, us[k])
    ensures Truthy(r) <==> exists k | 0 <= k < |us| :: Truthy(us[k])
    decreases |us|
  {
    if us == [] then Empty else Merge(MergeAll(us[..|us| - 1]), us[|us| - 1])
  }

  /** Bounds that hold for every usage of a sequence hold for its fold. */
  lemma MergeAllWithin(us: seq<FileUsage>, cs: set<string>, bs: set<string>)
    requires forall k | 0 <= k < |us| :: us[k].commands <= cs && us[k].blocks <= bs
    ensures MergeAll(us).commands <= cs && MergeAll(us).blocks <= bs
  {
    MergeAllIsUnion(us);
    assert forall u | u in us :: exists k | 0 <= k < |us| :: us[k] == u;
  }

  /** The union of a collection of usages, independent of any order. */
  function UnionOf(us: seq<FileUsage>): FileUsage {
    FileUsage(
      set u, c | u in us && c in u.commands :: c,
      set u, b | u in us && b in u.blocks :: b,
      exists u | u in us :: u.positional)
  }

  /** Folding merge over a sequence yields exactly the union of its elements. */
  lemma {:induction false} MergeAllIsUnion(us: seq<FileUsage>)
    ensures MergeAll(us) == UnionOf(us)
    decreases |us|
  {
    if us != [] {
      var init := us[..|us| - 1];
      var last := us[|us| - 1];
      MergeAllIsUnion(init);
      assert us == init + [last];
      var m := MergeAll(us);
      var u := UnionOf(us);
      assert forall x :: x in us <==> x in init || x == last;
      assert m.commands == u.commands;
      assert m.blocks == u.blocks;
    }
  }

  /** The fold depends only on which usages occur, not on their order or
      how often each occurs. */
  lemma MergeAllOrderFree(us: seq<FileUsage>, vs: seq<FileUsage>)
    requires forall x :: x in us <==> x in vs
    ensures MergeAll(us) == MergeAll(vs)
  {
    MergeAllIsUnion(us);
    MergeAllIsUnion(vs);
    assert UnionOf(us).commands == UnionOf(vs).commands;
    assert UnionOf(us).blocks == UnionOf(vs).blocks;
  }

  /** What the fold records, element by element. */
  lemma MergeAllMembers(us: seq<FileUsage>, c: string, b: string)
    ensures c in MergeAll(us).commands <==> exists k | 0 <= k < |us| :: c in us[k].commands
    ensures b in MergeAll(us).blocks <==> exists k | 0 <= k < |us| :: b in us[k].blocks
    ensures MergeAll(us).positional <==> exists k | 0 <= k < |us| :: us[k].positional
  {
    MergeAllIsUnion(us);
    assert forall u | u in us :: exists k | 0 <= k < |us| :: us[k] == u;
    assert forall k | 0 <= k < |us| :: us[k] in us;
  }

}
