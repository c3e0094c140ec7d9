/** Bash-style `{a,b}` expansion of glob patterns (server/toolkit/brace_expand.py). */
module BraceExpand {
  import opened Wrappers

  const MAX_BRACE_EXPANSIONS := 64

  // ---------------------------------------------------------------- counting

  function Opens(s: string): nat {
    if s == "" then 0 else (if s[0] == '{' then 1 else 0) + Opens(s[1..])
  }

  function Depth(s: string): int {
    if s == "" then 0
    else (if s[0] == '{' then 1 else if s[0] == '}' then -1 else 0) + Depth(s[1..])
  }

  lemma {:induction false} Additive(a: string, b: string)
    ensures Opens(a + b) == Opens(a) + Opens(b)
    ensures Depth(a + b) == Depth(a) + Depth(b)
  {
    if a == "" {
      assert a + b == b;
    } else {
      assert (a + b)[1..] == a[1..] + b;
      Additive(a[1..], b);
    }
  }

  lemma {:induction false} NoOpens(s: string)
    requires '{' !in s
    ensures Opens(s) == 0
  {
    if s != "" { NoOpens(s[1..]); }
  }

  // ---------------------------------------------------------------- splitting

  /** Split at the commas met at nesting depth 0, reading on from position `i`. */
  function SplitFrom(body: string, i: nat, depth: int, start: nat): (parts: seq<string>)
    requires start <= i <= |body|
    ensures |parts| >= 1
    decreases |body| - i
  {
    if i == |body| then [body[start..]]
    else if body[i] == '{' then SplitFrom(body, i + 1, depth + 1, start)
    else if body[i] == '}' then SplitFrom(body, i + 1, depth - 1, start)
    else if body[i] == ',' && depth == 0 then [body[start..i]] + SplitFrom(body, i + 1, depth, i + 1)
    else SplitFrom(body, i + 1, depth, start)
  }

  function Join(parts: seq<string>): string
    requires |parts| >= 1
  {
    if |parts| == 1 then parts[0] else parts[0] + "," + Join(parts[1..])
  }

  function SumOpens(parts: seq<string>): nat {
    if parts == [] then 0 else Opens(parts[0]) + SumOpens(parts[1..])
  }

  /** Joining the parts with commas gives the body back. */
  lemma {:induction false} SplitJoins(body: string, i: nat, depth: int, start: nat)
    requires start <= i <= |body|
    ensures Join(SplitFrom(body, i, depth, start)) == body[start..]
    decreases |body| - i
  {
    if i == |body| {
    } else if body[i] == '{' {
      SplitJoins(body, i + 1, depth + 1, start);
    } else if body[i] == '}' {
      SplitJoins(body, i + 1, depth - 1, start);
    } else if body[i] == ',' && depth == 0 {
      SplitJoins(body, i + 1, depth, i + 1);
      assert body[start..] == body[start..i] + "," + body[i + 1..];
    } else {
      SplitJoins(body, i + 1, depth, start);
    }
  }

  lemma {:induction false} JoinOpens(parts: seq<string>)
    requires |parts| >= 1
    ensures Opens(Join(parts)) == SumOpens(parts)
  {
    if |parts| > 1 {
      Additive(parts[0] + ",", Join(parts[1..]));
      Additive(parts[0], ",");
      JoinOpens(parts[1..]);
    }
  }

  lemma {:induction false} PartOpens(parts: seq<string>, k: nat)
    requires k < |parts|
    ensures Opens(parts[k]) <= SumOpens(parts)
  {
    if k > 0 { PartOpens(parts[1..], k - 1); }
  }

  /** First position from `i` on where the running depth returns to 0 at a closing brace. */
  function CloseFrom(s: string, i: nat, depth: int): (r: Option<nat>)
    requires i <= |s|
    ensures r.Some? ==> i <= r.value < |s| && s[r.value] == '}'
    decreases |s| - i
  {
    if i == |s| then None
    else if s[i] == '{' then CloseFrom(s, i + 1, depth + 1)
    else if s[i] == '}' then if depth == 1 then Some(i) else CloseFrom(s, i + 1, depth - 1)
    else CloseFrom(s, i + 1, depth)
  }

  /** `str.find("{")` from position `i`. */
  function FindOpen(s: string, i: nat): (r: Option<nat>)
    requires i <= |s|
    ensures r.Some? ==> i <= r.value < |s| && s[r.value] == '{' && '{' !in s[i..r.value]
    ensures r.None? ==> '{' !in s[i..]
    decreases |s| - i
  {
    if i == |s| then None
    else if s[i] == '{' then Some(i)
    else
      assert s[i..] == [s[i]] + s[i + 1..];
      assert forall j :: i < j <= |s| ==> s[i..j] == [s[i]] + s[i + 1..j];
      FindOpen(s, i + 1)
  }

  datatype Group = Group(prefix: string, options: seq<string>, suffix: string)

  function SplitGroup(pattern: string): (r: Option<Group>) {
    match FindOpen(pattern, 0)
    case None => None
    case Some(open) =>
      match CloseFrom(pattern, open, 0)
      case None => None
      case Some(close) =>
        var body := pattern[open + 1..close];
        if body == "" then None
        else
          var options := SplitFrom(body, 0, 0, 0);
          if |options| <= 1 then None else Some(Group(pattern[..open], options, pattern[close + 1..]))
  }

  function Children(g: Group): (r: seq<string>)
    ensures |r| == |g.options|
    ensures forall k :: 0 <= k < |r| ==> r[k] == g.prefix + g.options[k] + g.suffix
  {
    seq(|g.options|, k requires 0 <= k < |g.options| => g.prefix + g.options[k] + g.suffix)
  }

  lemma GroupReads(pattern: string, g: Group)
    requires SplitGroup(pattern) == Some(g)
    ensures pattern == g.prefix + "{" + Join(g.options) + "}" + g.suffix
    ensures '{' !in g.prefix && |g.options| >= 2
  {
    var open := FindOpen(pattern, 0).value;
    var close := CloseFrom(pattern, open, 0).value;
    var body := pattern[open + 1..close];
    assert pattern[0..open] == pattern[..open];
    SplitJoins(body, 0, 0, 0);
    assert body[0..] == body;
    assert open < close;
    assert pattern == g.prefix + "{" + body + "}" + g.suffix;
  }

  lemma GroupOpensAdd(g: Group)
    requires '{' !in g.prefix && |g.options| >= 1
    ensures Opens(g.prefix + "{" + Join(g.options) + "}" + g.suffix) == 1 + SumOpens(g.options) + Opens(g.suffix)
  {
    var body := Join(g.options);
    JoinOpens(g.options);
    NoOpens(g.prefix);
    Additive(g.prefix + "{" + body + "}", g.suffix);
    Additive(g.prefix + "{" + body, "}");
    Additive(g.prefix + "{", body);
    Additive(g.prefix, "{");
  }

  lemma ChildOpens(g: Group, k: nat)
    requires '{' !in g.prefix && k < |g.options|
    ensures Opens(Children(g)[k]) <= SumOpens(g.options) + Opens(g.suffix)
  {
    NoOpens(g.prefix);
    PartOpens(g.options, k);
    Additive(g.prefix + g.options[k], g.suffix);
    Additive(g.prefix, g.options[k]);
  }

  /** A group is a reading of the pattern: prefix, the options joined in braces, suffix.
      Each child has strictly fewer opening braces, which is why expansion ends. */
  lemma GroupReadsPattern(pattern: string, g: Group)
    requires SplitGroup(pattern) == Some(g)
    ensures pattern == g.prefix + "{" + Join(g.options) + "}" + g.suffix
    ensures '{' !in g.prefix && |g.options| >= 2
    ensures forall q :: q in Children(g) ==> Opens(q) < Opens(pattern)
  {
    GroupReads(pattern, g);
    GroupOpensAdd(g);
    forall q | q in Children(g) ensures Opens(q) < Opens(pattern) {
      var k :| 0 <= k < |Children(g)| && Children(g)[k] == q;
      ChildOpens(g, k);
    }
  }

  // ---------------------------------------------------------------- which patterns have a group

  /** A comma of the body outside every nested group. */
  predicate TopComma(body: string, k: nat) {
    k < |body| && body[k] == ',' && Depth(body[..k]) == 0
  }

  ghost predicate HasTopComma(body: string) { exists k :: TopComma(body, k) }

  lemma DepthSnoc(s: string, i: nat)
    requires i < |s|
    ensures Depth(s[..i + 1]) == Depth(s[..i]) + (if s[i] == '{' then 1 else if s[i] == '}' then -1 else 0)
  {
    Additive(s[..i], [s[i]]);
    assert s[..i + 1] == s[..i] + [s[i]] && [s[i]][1..] == "";
  }

  /** The splitter finds a second part exactly when there is such a comma. */
  lemma {:induction false} SplitsExactlyAtTopCommas(body: string, i: nat, depth: int, start: nat)
    requires start <= i <= |body| && depth == Depth(body[..i])
    ensures |SplitFrom(body, i, depth, start)| >= 2 <==> exists k :: i <= k && TopComma(body, k)
    decreases |body| - i
  {
    if i < |body| {
      DepthSnoc(body, i);
      if body[i] == '{' {
        SplitsExactlyAtTopCommas(body, i + 1, depth + 1, start);
      } else if body[i] == '}' {
        SplitsExactlyAtTopCommas(body, i + 1, depth - 1, start);
      } else if body[i] == ',' && depth == 0 {
        assert TopComma(body, i);
      } else {
        SplitsExactlyAtTopCommas(body, i + 1, depth, start);
      }
      assert !TopComma(body, i) ==>
        ((exists k :: i <= k && TopComma(body, k)) <==> (exists k :: i + 1 <= k && TopComma(body, k)));
    }
  }

  /** The brace at `o` is closed at `c`: the first closing brace after it at which depth is back to that of `o`. */
  predicate Closes(s: string, o: nat, c: nat) {
    ReturnsAt(s, o, c) && forall j :: o < j < c ==> !ReturnsAt(s, o, j)
  }

  predicate ReturnsAt(s: string, o: nat, c: nat) {
    o < c < |s| && s[c] == '}' && Depth(s[..c + 1]) == Depth(s[..o])
  }

  lemma {:induction false} ScanFindsClosing(s: string, o: nat, i: nat, depth: int)
    requires o < i <= |s| && depth == Depth(s[..i]) - Depth(s[..o])
    requires forall j :: o < j < i ==> !ReturnsAt(s, o, j)
    ensures var r := CloseFrom(s, i, depth);
      && (r.Some? ==> Closes(s, o, r.value))
      && (r.None? ==> forall c :: i <= c ==> !Closes(s, o, c))
    decreases |s| - i
  {
    if i < |s| {
      DepthSnoc(s, i);
      if s[i] == '{' {
        ScanFindsClosing(s, o, i + 1, depth + 1);
      } else if s[i] == '}' {
        if depth != 1 { ScanFindsClosing(s, o, i + 1, depth - 1); }
      } else {
        ScanFindsClosing(s, o, i + 1, depth);
      }
    }
  }

  /** A complete group: a brace, its closing brace, and a comma between them outside nested groups. */
  ghost predicate CompleteGroup(s: string, o: nat, c: nat) {
    o < |s| && s[o] == '{' && Closes(s, o, c) && HasTopComma(s[o + 1..c])
  }

  lemma ClosingIsUnique(s: string, o: nat, c: nat, d: nat)
    requires Closes(s, o, c) && Closes(s, o, d)
    ensures c == d
  {
  }

  lemma OpenFrom(s: string, o: nat)
    requires o < |s| && s[o] == '{'
    ensures CloseFrom(s, o, 0) == CloseFrom(s, o + 1, 1)
    ensures var r := CloseFrom(s, o, 0);
      && (r.Some? ==> Closes(s, o, r.value))
      && (r.None? ==> forall c :: !Closes(s, o, c))
  {
    DepthSnoc(s, o);
    ScanFindsClosing(s, o, o + 1, 1);
  }

  /** The docstring says that no group is found only in a pattern that has no complete one. In fact only the first
      opening brace is considered: a group is found exactly when that brace starts a complete group. A pattern
      whose first brace is unclosed or encloses no comma is left alone, whatever groups follow. */
  lemma GroupFoundExactlyWhenFirstBraceStartsOne(pattern: string)
    ensures SplitGroup(pattern).Some? <==>
      exists o: nat, c: nat :: o < |pattern| && '{' !in pattern[..o] && CompleteGroup(pattern, o, c)
  {
    var found := FindOpen(pattern, 0);
    if found.Some? {
      var o := found.value;
      assert pattern[0..o] == pattern[..o];
      OpenFrom(pattern, o);
      forall o': nat, c: nat | o' < |pattern| && '{' !in pattern[..o'] && CompleteGroup(pattern, o', c) ensures o' == o {
        FirstBraceIsUnique(pattern, o, o');
      }
      var close := CloseFrom(pattern, o, 0);
      if close.Some? {
        var body := pattern[o + 1..close.value];
        assert body[..0] == "";
        SplitsExactlyAtTopCommas(body, 0, 0, 0);
        forall c: nat | CompleteGroup(pattern, o, c) ensures c == close.value {
          ClosingIsUnique(pattern, o, c, close.value);
        }
        assert SplitGroup(pattern).Some? <==> |SplitFrom(body, 0, 0, 0)| >= 2;
        assert SplitGroup(pattern).Some? <==> CompleteGroup(pattern, o, close.value);
      }
    } else {
      assert pattern[0..] == pattern;
    }
  }

  lemma FirstBraceIsUnique(s: string, o: nat, o': nat)
    requires o < |s| && o' < |s| && s[o] == '{' && s[o'] == '{' && '{' !in s[..o] && '{' !in s[..o']
    ensures o == o'
  {
    if o < o' { BraceInFront(s, o, o'); }
    if o' < o { BraceInFront(s, o', o); }
  }

  lemma BraceInFront(s: string, o: nat, end: nat)
    requires o < end <= |s| && s[o] == '{'
    ensures '{' in s[..end]
  {
    assert s[..end][o] == '{';
  }

  // ---------------------------------------------------------------- the expansion tree

  /** Leaves of the tree that expands the leftmost group first, from left to right. */
  function Leaves(pattern: string): seq<string>
    decreases Opens(pattern), 1, 0
  {
    match SplitGroup(pattern)
    case None => [pattern]
    case Some(g) => GroupReadsPattern(pattern, g); LeavesAll(Children(g), Opens(pattern))
  }

  function LeavesAll(patterns: seq<string>, bound: nat): seq<string>
    requires forall q :: q in patterns ==> Opens(q) < bound
    decreases bound, 0, |patterns|
  {
    if patterns == [] then []
    else
      assert patterns[0] in patterns;
      Leaves(patterns[0]) + LeavesAll(patterns[1..], bound)
  }

  ghost predicate Bounded(patterns: seq<string>, bound: nat) {
    forall q :: q in patterns ==> Opens(q) < bound
  }

  lemma {:induction false} LeavesAllBound(patterns: seq<string>, b: nat, c: nat)
    requires Bounded(patterns, b) && Bounded(patterns, c)
    ensures LeavesAll(patterns, b) == LeavesAll(patterns, c)
  {
    if patterns != [] { LeavesAllBound(patterns[1..], b, c); }
  }

  lemma {:induction false} LeavesAllAppend(xs: seq<string>, ys: seq<string>, bound: nat)
    requires Bounded(xs, bound) && Bounded(ys, bound)
    ensures Bounded(xs + ys, bound)
    ensures LeavesAll(xs + ys, bound) == LeavesAll(xs, bound) + LeavesAll(ys, bound)
  {
    if xs == [] {
      assert xs + ys == ys;
    } else {
      LeavesAllAppend(xs[1..], ys, bound);
      assert (xs + ys)[1..] == xs[1..] + ys;
    }
  }

  // ---------------------------------------------------------------- one round

  /** What one pattern contributes to the next round. */
  function Expand(p: string): (r: seq<string>)
    ensures |r| >= 1
  {
    match SplitGroup(p)
    case None => [p]
    case Some(g) => GroupReadsPattern(p, g); Children(g)
  }

  function Round(patterns: seq<string>): (r: seq<string>)
    ensures |r| >= |patterns|
  {
    if patterns == [] then []
    else Round(patterns[..|patterns| - 1]) + Expand(patterns[|patterns| - 1])
  }

  predicate Expandable(p: string) { SplitGroup(p).Some? }

  /** One more than the largest brace count of a pattern that still expands; 0 when none does. */
  ghost function Rank(patterns: seq<string>): nat {
    if patterns == [] then 0
    else
      var rest := Rank(patterns[1..]);
      var here := if Expandable(patterns[0]) then Opens(patterns[0]) + 1 else 0;
      if here > rest then here else rest
  }

  lemma {:induction false} RankBound(patterns: seq<string>, n: nat)
    ensures Rank(patterns) <= n <==> forall p :: p in patterns && Expandable(p) ==> Opens(p) < n
  {
    if patterns != [] {
      RankBound(patterns[1..], n);
      assert forall p :: p in patterns <==> p == patterns[0] || p in patterns[1..];
    }
  }

  lemma {:induction false} RoundMembers(patterns: seq<string>, q: string)
    requires q in Round(patterns)
    ensures exists p :: p in patterns && q in Expand(p)
  {
    var n := |patterns|;
    if n > 0 {
      if q in Expand(patterns[n - 1]) {
      } else {
        RoundMembers(patterns[..n - 1], q);
        var p :| p in patterns[..n - 1] && q in Expand(p);
        assert p in patterns;
      }
    }
  }

  /** A round in which something expands lowers the rank. */
  lemma RoundLowersRank(patterns: seq<string>)
    requires exists p :: p in patterns && Expandable(p)
    ensures Rank(Round(patterns)) < Rank(patterns)
  {
    RankBound(patterns, Rank(patterns));
    var r := Rank(patterns);
    assert r > 0;
    forall q | q in Round(patterns) && Expandable(q) ensures Opens(q) < r - 1 {
      RoundMembers(patterns, q);
      var p :| p in patterns && q in Expand(p);
      if Expandable(p) { GroupReadsPattern(p, SplitGroup(p).value); }
    }
    RankBound(Round(patterns), r - 1);
  }

  lemma {:induction false} ExpandKeepsLeaves(p: string, bound: nat)
    requires Opens(p) < bound
    ensures Bounded(Expand(p), bound)
    ensures LeavesAll(Expand(p), bound) == Leaves(p)
  {
    match SplitGroup(p)
    case None =>
      assert Expand(p)[1..] == [];
    case Some(g) =>
      GroupReadsPattern(p, g);
      LeavesAllBound(Children(g), Opens(p), bound);
  }

  lemma {:induction false} RoundKeepsLeaves(patterns: seq<string>, bound: nat)
    requires Bounded(patterns, bound)
    ensures Bounded(Round(patterns), bound)
    ensures LeavesAll(Round(patterns), bound) == LeavesAll(patterns, bound)
  {
    var n := |patterns|;
    if n > 0 {
      var init, last := patterns[..n - 1], patterns[n - 1];
      assert patterns == init + [last];
      RoundKeepsLeaves(init, bound);
      ExpandKeepsLeaves(last, bound);
      LeavesAllAppend(Round(init), Expand(last), bound);
      LeavesAllAppend(init, [last], bound);
      assert LeavesAll([last], bound) == Leaves(last) by { assert [last][1..] == []; }
    }
  }

  lemma {:induction false} NothingExpands(patterns: seq<string>, bound: nat)
    requires Bounded(patterns, bound)
    requires forall p :: p in patterns ==> !Expandable(p)
    ensures LeavesAll(patterns, bound) == patterns
    ensures Round(patterns) == patterns
  {
    var n := |patterns|;
    if n > 0 {
      var init, last := patterns[..n - 1], patterns[n - 1];
      assert patterns == init + [last] && last in patterns;
      NothingExpands(init, bound);
      LeavesAllAppend(init, [last], bound);
      assert LeavesAll([last], bound) == [last] by { assert [last][1..] == []; }
    }
  }

  lemma {:induction false} LeavesAtLeastOne(patterns: seq<string>, bound: nat)
    requires Bounded(patterns, bound)
    ensures |LeavesAll(patterns, bound)| >= |patterns|
    decreases bound, |patterns|
  {
    if patterns != [] {
      var p := patterns[0];
      assert p in patterns;
      match SplitGroup(p) {
        case None =>
        case Some(g) =>
          GroupReadsPattern(p, g);
          LeavesAtLeastOne(Children(g), Opens(p));
      }
      LeavesAtLeastOne(patterns[1..], bound);
    }
  }

  // ---------------------------------------------------------------- deduplication

  /** First occurrences, in order. */
  function Dedup(s: seq<string>): (r: seq<string>)
    ensures forall x :: x in r <==> x in s
    ensures forall i, j :: 0 <= i < j < |r| ==> r[i] != r[j]
  {
    if s == [] then []
    else
      var init := Dedup(s[..|s| - 1]);
      assert s == s[..|s| - 1] + [s[|s| - 1]];
      if s[|s| - 1] in s[..|s| - 1] then init else init + [s[|s| - 1]]
  }

  /** Position of the first occurrence. */
  function FirstIndex(s: seq<string>, x: string): (i: nat)
    requires x in s
    ensures i < |s| && s[i] == x && x !in s[..i]
  {
    if s[0] == x then 0
    else
      assert s == [s[0]] + s[1..];
      var i := FirstIndex(s[1..], x) + 1;
      assert s[..i] == [s[0]] + s[1..][..i - 1];
      i
  }

  lemma FirstIndexUnique(s: seq<string>, x: string, i: nat)
    requires i < |s| && s[i] == x && x !in s[..i]
    ensures x in s && FirstIndex(s, x) == i
  {
    var j := FirstIndex(s, x);
    assert forall k :: 0 <= k < i ==> s[k] == s[..i][k];
    assert forall k :: 0 <= k < j ==> s[k] == s[..j][k];
  }

  /** Deduplication orders the remaining words by their first occurrence. */
  lemma {:induction false} DedupKeepsFirstOrder(s: seq<string>, i: nat, j: nat)
    requires i < j < |Dedup(s)|
    ensures Dedup(s)[i] in s && Dedup(s)[j] in s && FirstIndex(s, Dedup(s)[i]) < FirstIndex(s, Dedup(s)[j])
  {
    var n := |s| - 1;
    var init, last := s[..n], s[n];
    var before := Dedup(init);
    assert s == init + [last];
    if j < |before| {
      DedupKeepsFirstOrder(init, i, j);
      FirstIndexPrefix(init, last, before[j]);
    } else {
      assert last !in init && Dedup(s)[j] == last;
      FirstIndexUnique(s, last, n);
    }
    assert before[i] in init;
    FirstIndexPrefix(init, last, before[i]);
  }

  lemma FirstIndexPrefix(init: seq<string>, last: string, x: string)
    requires x in init
    ensures x in init + [last] && FirstIndex(init + [last], x) == FirstIndex(init, x)
  {
    var i := FirstIndex(init, x);
    assert (init + [last])[..i] == init[..i];
    FirstIndexUnique(init + [last], x, i);
  }

  /** The whole expansion as a value: capped leaves without repeats. */
  function Expansion(pattern: string): seq<string> {
    if |Leaves(pattern)| <= MAX_BRACE_EXPANSIONS then Dedup(Leaves(pattern)) else [pattern]
  }

  // ---------------------------------------------------------------- the loops

  method SplitTopLevel(body: string) returns (parts: seq<string>)
    ensures |parts| >= 1 && Join(parts) == body
    ensures parts == SplitFrom(body, 0, 0, 0)
  {
    parts := [];
    var depth := 0;
    var start := 0;
    for i := 0 to |body|
      invariant 0 <= start <= i
      invariant parts + SplitFrom(body, i, depth, start) == SplitFrom(body, 0, 0, 0)
    {
      var ch := body[i];
      if ch == '{' {
        depth := depth + 1;
      } else if ch == '}' {
        depth := depth - 1;
      } else if ch == ',' && depth == 0 {
        parts := parts + [body[start..i]];
        start := i + 1;
      }
    }
    parts := parts + [body[start..]];
    SplitJoins(body, 0, 0, 0);
    assert body[0..] == body;
  }

  const LATER_GROUP := "{a}{b,c}"

  lemma LaterGroupIsComplete()
    ensures CompleteGroup(LATER_GROUP, 3, 7)
  {
    LaterGroupDepths();
    var body := LATER_GROUP[4..7];
    assert body == "b,c" && body[..1] == "b" && body[..0] == "";
    DepthSnoc(body, 0);
    assert TopComma(body, 1);
  }

  /** Concretely: the second group of this pattern is complete, but its first brace encloses no comma. */
  lemma LaterGroupIsLeftAlone()
    ensures CompleteGroup(LATER_GROUP, 3, 7) && SplitGroup(LATER_GROUP) == None
  {
    var p := LATER_GROUP;
    LaterGroupIsComplete();
    assert CloseFrom(p, 2, 1) == Some(2);
    assert CloseFrom(p, 1, 1) == Some(2);
    assert CloseFrom(p, 0, 0) == Some(2);
    var body := p[1..2];
    assert body == "a" && body[0..] == "a";
    assert SplitFrom(body, 1, 0, 0) == [body[0..]];
    assert SplitFrom(body, 0, 0, 0) == [body[0..]];
  }

  lemma LaterGroupDepths()
    ensures var p := LATER_GROUP;
      Depth(p[..3]) == 0 && Depth(p[..5]) == Depth(p[..6]) == Depth(p[..7]) == 1 && Depth(p[..8]) == 0
  {
    var p := LATER_GROUP;
    assert p[..0] == "";
    DepthSnoc(p, 0);
    DepthSnoc(p, 1);
    DepthSnoc(p, 2);
    DepthSnoc(p, 3);
    DepthSnoc(p, 4);
    DepthSnoc(p, 5);
    DepthSnoc(p, 6);
    DepthSnoc(p, 7);
  }

  const UNBALANCED := "{a,b}{"

  /** And concretely: a pattern with unbalanced braces that does not pass through unchanged. */
  lemma UnbalancedPatternExpands()
    ensures Depth(UNBALANCED) == 1 && SplitGroup(UNBALANCED) == Some(Group("", ["a", "b"], "{"))
  {
    var p := UNBALANCED;
    UnbalancedDepth();
    assert CloseFrom(p, 4, 1) == Some(4);
    assert CloseFrom(p, 3, 1) == Some(4);
    assert CloseFrom(p, 2, 1) == Some(4);
    assert CloseFrom(p, 1, 1) == Some(4);
    assert CloseFrom(p, 0, 0) == Some(4);
    var body := p[1..4];
    assert body == "a,b" && body[2..] == "b" && body[0..1] == "a";
    assert SplitFrom(body, 3, 0, 2) == ["b"];
    assert SplitFrom(body, 2, 0, 2) == ["b"];
    assert SplitFrom(body, 1, 0, 0) == ["a"] + ["b"];
    assert SplitFrom(body, 0, 0, 0) == ["a", "b"];
    assert p[..0] == "" && p[5..] == "{";
  }

  lemma UnbalancedDepth()
    ensures Depth(UNBALANCED) == 1
  {
    var p := UNBALANCED;
    assert p[..0] == "" && p[..6] == p;
    DepthSnoc(p, 0);
    DepthSnoc(p, 1);
    DepthSnoc(p, 2);
    DepthSnoc(p, 3);
    DepthSnoc(p, 4);
    DepthSnoc(p, 5);
  }

  method SplitBraceGroup(pattern: string) returns (group: Option<Group>)
    ensures group == SplitGroup(pattern)
  {
    var found := FindOpen(pattern, 0);
    if found.None? { return None; }
    var open := found.value;
    var depth := 0;
    var i := open;
    while i < |pattern|
      invariant open <= i <= |pattern|
      invariant i > open ==> depth >= 1
      invariant i == open ==> depth == 0
      invariant CloseFrom(pattern, open, 0) == CloseFrom(pattern, i, depth)
    {
      var ch := pattern[i];
      if ch == '{' {
        depth := depth + 1;
      } else if ch == '}' {
        depth := depth - 1;
        if depth == 0 {
          var body := pattern[open + 1..i];
          if body == "" { return None; }
          var options := SplitTopLevel(body);
          if |options| <= 1 { return None; }
          return Some(Group(pattern[..open], options, pattern[i + 1..]));
        }
      }
      i := i + 1;
    }
    return None;
  }

  ghost predicate AnyExpands(patterns: seq<string>) { exists p :: p in patterns && Expandable(p) }

  lemma RoundSnoc(patterns: seq<string>, i: nat)
    requires i < |patterns|
    ensures Round(patterns[..i + 1]) == Round(patterns[..i]) + Expand(patterns[i])
    ensures AnyExpands(patterns[..i + 1]) <==> AnyExpands(patterns[..i]) || Expandable(patterns[i])
  {
    assert patterns[..i + 1] == patterns[..i] + [patterns[i]];
    assert patterns[..i + 1][..i] == patterns[..i];
    assert patterns[i] in patterns[..i + 1];
  }

  /** One pass of the outer loop over all patterns. */
  method ExpandRound(patterns: seq<string>) returns (expanded: seq<string>, changed: bool)
    ensures expanded == Round(patterns)
    ensures changed <==> exists p :: p in patterns && Expandable(p)
  {
    changed := false;
    expanded := [];
    for i := 0 to |patterns|
      invariant expanded == Round(patterns[..i])
      invariant changed <==> AnyExpands(patterns[..i])
    {
      RoundSnoc(patterns, i);
      var group := SplitBraceGroup(patterns[i]);
      if group.None? {
        expanded := expanded + [patterns[i]];
      } else {
        changed := true;
        expanded := expanded + Children(group.value);
      }
    }
    assert patterns[..|patterns|] == patterns;
  }

  method DropRepeats(patterns: seq<string>) returns (result: seq<string>)
    ensures result == Dedup(patterns)
  {
    result := [];
    var seen: set<string> := {};
    for i := 0 to |patterns|
      invariant result == Dedup(patterns[..i])
      invariant forall x :: x in seen <==> x in patterns[..i]
    {
      assert patterns[..i + 1] == patterns[..i] + [patterns[i]];
      assert patterns[..i + 1][..i] == patterns[..i];
      if patterns[i] !in seen {
        seen := seen + {patterns[i]};
        result := result + [patterns[i]];
      }
    }
    assert patterns[..|patterns|] == patterns;
  }

  method ExpandBraces(pattern: string) returns (result: seq<string>)
    ensures result == Expansion(pattern)
  {
    var patterns := [pattern];
    var changed := true;
    ghost var bound := Opens(pattern) + 1;
    assert LeavesAll([pattern], bound) == Leaves(pattern) by { assert [pattern][1..] == []; }
    while changed
      invariant Bounded(patterns, bound)
      invariant LeavesAll(patterns, bound) == Leaves(pattern)
      invariant |patterns| <= MAX_BRACE_EXPANSIONS
      invariant !changed ==> patterns == Leaves(pattern)
      decreases Rank(patterns), changed
    {
      var expanded: seq<string>;
      expanded, changed := ExpandRound(patterns);
      RoundKeepsLeaves(patterns, bound);
      if |expanded| > MAX_BRACE_EXPANSIONS {
        LeavesAtLeastOne(expanded, bound);
        return [pattern];
      }
      if changed { RoundLowersRank(patterns); } else { NothingExpands(patterns, bound); }
      patterns := expanded;
    }
    result := DropRepeats(patterns);
  }
}
