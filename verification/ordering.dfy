/** Python's ordering of `str` values (code point by code point, a proper
    prefix first), the `sorted(...)` of a set of strings, and the
    `to_dict` serialisations built from it. */
module Ordering {
  import opened Usage

  /** `a < b` on Python strings. */
  predicate Less(a: string, b: string)
    decreases |a|
  {
    |b| > 0 && (|a| == 0 || a[0] < b[0] || (a[0] == b[0] && Less(a[1..], b[1..])))
  }

  lemma {:induction false} LessIrreflexive(a: string)
    ensures !Less(a, a)
    decreases |a|
  {
    if |a| > 0 {
      LessIrreflexive(a[1..]);
    }
  }

  lemma {:induction false} LessTransitive(a: string, b: string, c: string)
    requires Less(a, b) && Less(b, c)
    ensures Less(a, c)
    decreases |a|
  {
    if |a| > 0 && a[0] == b[0] && b[0] == c[0] {
      LessTransitive(a[1..], b[1..], c[1..]);
    }
  }

  lemma {:induction false} LessTotal(a: string, b: string)
    ensures a == b || Less(a, b) || Less(b, a)
    decreases |a|
  {
    if |a| > 0 && |b| > 0 && a[0] == b[0] {
      LessTotal(a[1..], b[1..]);
      if a[1..] == b[1..] {
        assert a == [a[0]] + a[1..] && b == [b[0]] + b[1..];
      }
    }
  }

  /** Every element is smaller than every later one: sorted, no duplicates. */
  predicate StrictlyAscending(xs: seq<string>) {
    forall i, j | 0 <= i < j < |xs| :: Less(xs[i], xs[j])
  }

  /** Insert a new element into a strictly ascending list. */
  function Insert(xs: seq<string>, x: string): (r: seq<string>)
    requires StrictlyAscending(xs) && x !in xs
    ensures StrictlyAscending(r)
    ensures forall y :: y in r <==> y in xs || y == x
    ensures |r| == |xs| + 1
    decreases |xs|
  {
    if xs == [] then [x]
    else if Less(x, xs[0]) then
      InsertFrontAscending(xs, x);
      [x] + xs
    else
      LessTotal(x, xs[0]);
      var tail := Insert(xs[1..], x);
      assert forall y | y in tail :: Less(xs[0], y) by {
        forall y | y in tail
          ensures Less(xs[0], y)
        {
          if y != x {
            var j :| 1 <= j < |xs| && xs[j] == y;
          }
        }
      }
      [xs[0]] + tail
  }

  lemma InsertFrontAscending(xs: seq<string>, x: string)
    requires StrictlyAscending(xs) && |xs| > 0 && Less(x, xs[0])
    ensures StrictlyAscending([x] + xs)
  {
    forall j | 1 <= j < |xs|
      ensures Less(x, xs[j])
    {
      LessTransitive(x, xs[0], xs[j]);
    }
  }

  /** `sorted(s)` for a set of strings: ascending, and exactly the elements of `s`. */
  method SortedList(s: set<string>) returns (r: seq<string>)
    ensures StrictlyAscending(r)
    ensures forall x :: x in r <==> x in s
    ensures |r| == |s|
  {
    r := [];
    var rest := s;
    while rest != {}
      invariant rest <= s
      invariant StrictlyAscending(r)
      invariant forall x :: x in r <==> x in s && x !in rest
      invariant |r| + |rest| == |s|
      decreases rest
    {
      var x :| x in rest;
      r := Insert(r, x);
      rest := rest - {x};
    }
  }

  /** The dictionary `FileUsage.to_dict` returns. */
  datatype UsageRecord = UsageRecord(commands: seq<string>, blocks: seq<string>, positional: bool)

  /** The dictionary `AggregatedUsage.to_dict` returns. */
  datatype AggregateRecord = AggregateRecord(
    commands: seq<string>,
    blocks: seq<string>,
    positional: bool,
    fileCount: nat)

  method ToDict(u: FileUsage) returns (d: UsageRecord)
    ensures StrictlyAscending(d.commands) && forall c :: c in d.commands <==> c in u.commands
    ensures StrictlyAscending(d.blocks) && forall b :: b in d.blocks <==> b in u.blocks
    ensures d.positional == u.positional
  {
    var commands := SortedList(u.commands);
    var blocks := SortedList(u.blocks);
    d := UsageRecord(commands, blocks, u.positional);
  }

  method AggregatedToDict(a: AggregatedUsage) returns (d: AggregateRecord)
    ensures StrictlyAscending(d.commands) && forall c :: c in d.commands <==> c in a.commands
    ensures StrictlyAscending(d.blocks) && forall b :: b in d.blocks <==> b in a.blocks
    ensures d.positional == a.positional
    ensures d.fileCount == |a.fileUsage|
  {
    var commands := SortedList(a.commands);
    var blocks := SortedList(a.blocks);
    d := AggregateRecord(commands, blocks, a.positional, |a.fileUsage|);
  }

}
