/** An independent meaning for well-formed brace patterns, and the proof that expansion computes it. */
module BraceMeaning {
  import opened Wrappers
  import opened BraceExpand

  /** A pattern as a tree: plain characters, and groups with a first option and at least one more. */
  datatype Tree = End | Ch(c: char, rest: Tree) | Alt(first: Tree, more: Options, rest: Tree)
  datatype Options = Last(t: Tree) | More(t: Tree, others: Options)

  /** Plain characters are not braces, and inside a group a plain comma would read as a separator. */
  ghost predicate WellFormed(t: Tree, inGroup: bool) {
    match t
    case End => true
    case Ch(c, rest) => c != '{' && c != '}' && (inGroup ==> c != ',') && WellFormed(rest, inGroup)
    case Alt(first, more, rest) => WellFormed(first, true) && AllWellFormed(more) && WellFormed(rest, inGroup)
  }

  ghost predicate AllWellFormed(os: Options) {
    match os
    case Last(t) => WellFormed(t, true)
    case More(t, others) => WellFormed(t, true) && AllWellFormed(others)
  }

  function Render(t: Tree): string {
    match t
    case End => ""
    case Ch(c, rest) => [c] + Render(rest)
    case Alt(first, more, rest) => "{" + (Render(first) + ("," + RenderOptions(more))) + "}" + Render(rest)
  }

  function RenderOptions(os: Options): string {
    match os
    case Last(t) => Render(t)
    case More(t, others) => Render(t) + ("," + RenderOptions(others))
  }

  // ---------------------------------------------------------------- the meaning

  function Prefixed(x: string, ys: seq<string>): seq<string> {
    if ys == [] then [] else [x + ys[0]] + Prefixed(x, ys[1..])
  }

  /** All concatenations of a left word with a right word, the left word varying slowest. */
  function Product(xs: seq<string>, ys: seq<string>): seq<string> {
    if xs == [] then [] else Prefixed(xs[0], ys) + Product(xs[1..], ys)
  }

  /** A list of items means the product of their words; a group offers its options in turn. */
  function Words(t: Tree): seq<string> {
    match t
    case End => [""]
    case Ch(c, rest) => Product([[c]], Words(rest))
    case Alt(first, more, rest) => Product(Words(first) + OptionWords(more), Words(rest))
  }

  function OptionWords(os: Options): seq<string> {
    match os
    case Last(t) => Words(t)
    case More(t, others) => Words(t) + OptionWords(others)
  }

  // ---------------------------------------------------------------- word algebra

  lemma {:induction false} PrefixedAppend(x: string, ys: seq<string>, zs: seq<string>)
    ensures Prefixed(x, ys + zs) == Prefixed(x, ys) + Prefixed(x, zs)
  {
    if ys == [] {
      assert ys + zs == zs;
    } else {
      assert (ys + zs)[1..] == ys[1..] + zs;
      PrefixedAppend(x, ys[1..], zs);
    }
  }

  lemma {:induction false} PrefixedTwice(x: string, y: string, zs: seq<string>)
    ensures Prefixed(x, Prefixed(y, zs)) == Prefixed(x + y, zs)
  {
    if zs != [] {
      PrefixedTwice(x, y, zs[1..]);
      assert x + (y + zs[0]) == (x + y) + zs[0];
      assert Prefixed(y, zs)[1..] == Prefixed(y, zs[1..]);
    }
  }

  lemma {:induction false} PrefixedEmpty(ys: seq<string>)
    ensures Prefixed("", ys) == ys
  {
    if ys != [] {
      PrefixedEmpty(ys[1..]);
      assert "" + ys[0] == ys[0];
    }
  }

  lemma {:induction false} ProductAppend(xs: seq<string>, ys: seq<string>, zs: seq<string>)
    ensures Product(xs + ys, zs) == Product(xs, zs) + Product(ys, zs)
  {
    if xs == [] {
      assert xs + ys == ys;
    } else {
      assert (xs + ys)[1..] == xs[1..] + ys;
      ProductAppend(xs[1..], ys, zs);
    }
  }

  lemma {:induction false} PrefixedProduct(x: string, ys: seq<string>, zs: seq<string>)
    ensures Prefixed(x, Product(ys, zs)) == Product(Prefixed(x, ys), zs)
  {
    if ys != [] {
      PrefixedAppend(x, Prefixed(ys[0], zs), Product(ys[1..], zs));
      PrefixedTwice(x, ys[0], zs);
      PrefixedProduct(x, ys[1..], zs);
      assert Prefixed(x, ys)[1..] == Prefixed(x, ys[1..]);
    }
  }

  lemma {:induction false} ProductAssociative(xs: seq<string>, ys: seq<string>, zs: seq<string>)
    ensures Product(Product(xs, ys), zs) == Product(xs, Product(ys, zs))
  {
    if xs != [] {
      ProductAppend(Prefixed(xs[0], ys), Product(xs[1..], ys), zs);
      PrefixedProduct(xs[0], ys, zs);
      ProductAssociative(xs[1..], ys, zs);
    }
  }

  lemma SingleProduct(x: string, ys: seq<string>)
    ensures Product([x], ys) == Prefixed(x, ys)
  {
    assert [x][1..] == [];
  }

  // ---------------------------------------------------------------- tree surgery

  function Concat(t: Tree, u: Tree): Tree {
    match t
    case End => u
    case Ch(c, rest) => Ch(c, Concat(rest, u))
    case Alt(first, more, rest) => Alt(first, more, Concat(rest, u))
  }

  function Size(t: Tree): nat {
    match t
    case End => 0
    case Ch(_, rest) => 1 + Size(rest)
    case Alt(first, more, rest) => 1 + Size(first) + OptionsSize(more) + Size(rest)
  }

  function OptionsSize(os: Options): nat {
    match os
    case Last(t) => Size(t)
    case More(t, others) => Size(t) + OptionsSize(others)
  }

  lemma {:induction false} ConcatRenders(t: Tree, u: Tree, inGroup: bool)
    requires WellFormed(t, inGroup) && WellFormed(u, false)
    ensures WellFormed(Concat(t, u), false)
    ensures Render(Concat(t, u)) == Render(t) + Render(u)
    ensures Size(Concat(t, u)) == Size(t) + Size(u)
  {
    match t
    case End =>
    case Ch(c, rest) =>
      ConcatRenders(rest, u, inGroup);
      assert [c] + (Render(rest) + Render(u)) == ([c] + Render(rest)) + Render(u);
    case Alt(first, more, rest) =>
      ConcatRenders(rest, u, inGroup);
      var group := "{" + (Render(first) + ("," + RenderOptions(more))) + "}";
      assert group + (Render(rest) + Render(u)) == (group + Render(rest)) + Render(u);
  }

  lemma {:induction false} ConcatMeans(t: Tree, u: Tree)
    ensures Words(Concat(t, u)) == Product(Words(t), Words(u))
  {
    match t
    case End =>
      SingleProduct("", Words(u));
      PrefixedEmpty(Words(u));
    case Ch(c, rest) =>
      ConcatMeans(rest, u);
      ProductAssociative([[c]], Words(rest), Words(u));
    case Alt(first, more, rest) =>
      ConcatMeans(rest, u);
      ProductAssociative(Words(first) + OptionWords(more), Words(rest), Words(u));
  }

  // ---------------------------------------------------------------- the scanners on rendered trees

  /** `u` stands in `s` at position `i`. */
  ghost predicate Has(s: string, i: nat, u: string)
    ensures Has(s, i, u) ==> i + |u| <= |s|
    decreases |u|
  {
    if u == "" then i <= |s| else i < |s| && s[i] == u[0] && Has(s, i + 1, u[1..])
  }

  lemma {:induction false} HasSlice(s: string, i: nat, u: string)
    ensures Has(s, i, u) <==> i + |u| <= |s| && s[i..i + |u|] == u
    decreases |u|
  {
    if u != "" {
      HasSlice(s, i + 1, u[1..]);
      if i + |u| <= |s| { assert s[i..i + |u|] == [s[i]] + s[i + 1..i + |u|]; }
    }
  }

  lemma {:induction false} HasSplit(s: string, i: nat, u: string, v: string)
    ensures Has(s, i, u + v) <==> Has(s, i, u) && Has(s, i + |u|, v)
    decreases |u|
  {
    if u == "" {
      assert u + v == v;
    } else {
      assert (u + v)[1..] == u[1..] + v;
      HasSplit(s, i + 1, u[1..], v);
    }
  }

  lemma HasChar(s: string, i: nat, c: char)
    ensures Has(s, i, [c]) <==> i < |s| && s[i] == c
  {
    assert [c][1..] == "";
  }

  lemma HasGroup(s: string, i: nat, first: Tree, more: Options, rest: Tree)
    requires Has(s, i, Render(Alt(first, more, rest)))
    ensures var a := i + 1; var b := a + |Render(first)|; var c := b + 1 + |RenderOptions(more)|;
      && c < |s| && s[i] == '{' && Has(s, a, Render(first))
      && s[b] == ',' && Has(s, b + 1, RenderOptions(more))
      && s[c] == '}' && Has(s, c + 1, Render(rest))
      && |Render(Alt(first, more, rest))| == c + 1 - i + |Render(rest)|
  {
    var body := Render(first) + ("," + RenderOptions(more));
    HasSplit(s, i, "{" + body + "}", Render(rest));
    HasSplit(s, i, "{" + body, "}");
    HasSplit(s, i, "{", body);
    HasSplit(s, i + 1, Render(first), "," + RenderOptions(more));
    HasSplit(s, i + 1 + |Render(first)|, ",", RenderOptions(more));
    HasChar(s, i, '{');
    HasChar(s, i + 1 + |Render(first)|, ',');
    HasChar(s, i + 1 + |body|, '}');
  }

  lemma HasMore(s: string, i: nat, t: Tree, others: Options)
    requires Has(s, i, RenderOptions(More(t, others)))
    ensures Has(s, i, Render(t)) && i + |Render(t)| < |s| && s[i + |Render(t)|] == ','
    ensures Has(s, i + |Render(t)| + 1, RenderOptions(others))
    ensures |RenderOptions(More(t, others))| == |Render(t)| + 1 + |RenderOptions(others)|
  {
    HasSplit(s, i, Render(t), "," + RenderOptions(others));
    HasSplit(s, i + |Render(t)|, ",", RenderOptions(others));
    HasChar(s, i + |Render(t)|, ',');
  }

  lemma HasCh(s: string, i: nat, c: char, rest: Tree)
    requires Has(s, i, Render(Ch(c, rest)))
    ensures i < |s| && s[i] == c && Has(s, i + 1, Render(rest))
    ensures |Render(Ch(c, rest))| == 1 + |Render(rest)|
  {
    HasSplit(s, i, [c], Render(rest));
    HasChar(s, i, c);
  }

  lemma CloseOverGroup(s: string, i: nat, b: nat, c: nat, depth: int)
    requires i < b < c < |s| && depth >= 0
    requires s[i] == '{' && s[b] == ',' && s[c] == '}'
    requires CloseFrom(s, i + 1, depth + 1) == CloseFrom(s, b, depth + 1)
    requires CloseFrom(s, b + 1, depth + 1) == CloseFrom(s, c, depth + 1)
    ensures CloseFrom(s, i, depth) == if depth == 0 then Some(c) else CloseFrom(s, c + 1, depth)
  {
  }

  lemma CloseOverAlt(s: string, i: nat, b: nat, c: nat, end: nat, depth: int)
    requires i < b < c < end <= |s| && depth >= 1
    requires s[i] == '{' && s[b] == ',' && s[c] == '}'
    requires CloseFrom(s, i + 1, depth + 1) == CloseFrom(s, b, depth + 1)
    requires CloseFrom(s, b + 1, depth + 1) == CloseFrom(s, c, depth + 1)
    requires CloseFrom(s, c + 1, depth) == CloseFrom(s, end, depth)
    ensures CloseFrom(s, i, depth) == CloseFrom(s, end, depth)
  {
    CloseOverGroup(s, i, b, c, depth);
  }

  lemma CloseOverCh(s: string, i: nat, end: nat, depth: int)
    requires i < end <= |s| && s[i] != '{' && s[i] != '}'
    requires CloseFrom(s, i + 1, depth) == CloseFrom(s, end, depth)
    ensures CloseFrom(s, i, depth) == CloseFrom(s, end, depth)
  {
  }

  /** Where the parts of a rendered group lie. */
  lemma GroupPositions(s: string, i: nat, first: Tree, more: Options, rest: Tree) returns (b: nat, c: nat, end: nat)
    requires Has(s, i, Render(Alt(first, more, rest)))
    ensures i < b < c < end <= |s| && s[i] == '{' && s[b] == ',' && s[c] == '}'
    ensures b == i + 1 + |Render(first)| && Has(s, i + 1, Render(first))
    ensures c == b + 1 + |RenderOptions(more)| && Has(s, b + 1, RenderOptions(more))
    ensures end == c + 1 + |Render(rest)| == i + |Render(Alt(first, more, rest))| && Has(s, c + 1, Render(rest))
  {
    HasGroup(s, i, first, more, rest);
    b := i + 1 + |Render(first)|;
    c := b + 1 + |RenderOptions(more)|;
    end := c + 1 + |Render(rest)|;
    assert Has(s, c + 1, Render(rest));
  }

  /** The search for the closing brace runs over a rendered tree and comes out at the same depth. */
  lemma {:induction false} CloseOverTree(s: string, i: nat, t: Tree, depth: int)
    requires WellFormed(t, true) && Has(s, i, Render(t)) && depth >= 1
    ensures CloseFrom(s, i, depth) == CloseFrom(s, i + |Render(t)|, depth)
    decreases t
  {
    match t
    case End =>
    case Ch(c, rest) =>
      HasCh(s, i, c, rest);
      CloseOverTree(s, i + 1, rest, depth);
      CloseOverCh(s, i, i + |Render(t)|, depth);
    case Alt(first, more, rest) =>
      var b, c, end := GroupPositions(s, i, first, more, rest);
      CloseOverTree(s, i + 1, first, depth + 1);
      CloseOverOptions(s, b + 1, more, depth + 1);
      CloseOverTree(s, c + 1, rest, depth);
      CloseOverAlt(s, i, b, c, end, depth);
  }

  lemma {:induction false} CloseOverOptions(s: string, i: nat, os: Options, depth: int)
    requires AllWellFormed(os) && Has(s, i, RenderOptions(os)) && depth >= 1
    ensures CloseFrom(s, i, depth) == CloseFrom(s, i + |RenderOptions(os)|, depth)
    decreases os
  {
    match os
    case Last(t) => CloseOverTree(s, i, t, depth);
    case More(t, others) =>
      HasMore(s, i, t, others);
      CloseOverTree(s, i, t, depth);
      CloseOverOptions(s, i + |Render(t)| + 1, others, depth);
  }

  lemma SplitOverGroup(s: string, i: nat, b: nat, c: nat, depth: int, start: nat)
    requires start <= i < b < c < |s| && depth >= 0
    requires s[i] == '{' && s[b] == ',' && s[c] == '}'
    requires SplitFrom(s, i + 1, depth + 1, start) == SplitFrom(s, b, depth + 1, start)
    requires SplitFrom(s, b + 1, depth + 1, start) == SplitFrom(s, c, depth + 1, start)
    ensures SplitFrom(s, i, depth, start) == SplitFrom(s, c + 1, depth, start)
  {
  }

  /** So does the comma splitter, which cuts nothing inside a tree whose commas are all nested. */
  lemma {:induction false} SplitOverTree(s: string, i: nat, t: Tree, depth: int, start: nat)
    requires WellFormed(t, true) && Has(s, i, Render(t)) && start <= i && depth >= 0
    ensures SplitFrom(s, i, depth, start) == SplitFrom(s, i + |Render(t)|, depth, start)
    decreases t
  {
    match t
    case End =>
    case Ch(c, rest) =>
      HasCh(s, i, c, rest);
      SplitOverTree(s, i + 1, rest, depth, start);
    case Alt(first, more, rest) =>
      HasGroup(s, i, first, more, rest);
      var b := i + 1 + |Render(first)|;
      var c := b + 1 + |RenderOptions(more)|;
      SplitOverTree(s, i + 1, first, depth + 1, start);
      SplitOverOptions(s, b + 1, more, depth + 1, start);
      SplitOverGroup(s, i, b, c, depth, start);
      SplitOverTree(s, c + 1, rest, depth, start);
  }

  lemma {:induction false} SplitOverOptions(s: string, i: nat, os: Options, depth: int, start: nat)
    requires AllWellFormed(os) && Has(s, i, RenderOptions(os)) && start <= i && depth >= 1
    ensures SplitFrom(s, i, depth, start) == SplitFrom(s, i + |RenderOptions(os)|, depth, start)
    decreases os
  {
    match os
    case Last(t) => SplitOverTree(s, i, t, depth, start);
    case More(t, others) =>
      HasMore(s, i, t, others);
      SplitOverTree(s, i, t, depth, start);
      SplitOverOptions(s, i + |Render(t)| + 1, others, depth, start);
  }

  function Rendered(os: Options): seq<string> {
    match os
    case Last(t) => [Render(t)]
    case More(t, others) => [Render(t)] + Rendered(others)
  }

  /** At depth 0 the splitter cuts a rendered option list at exactly the option boundaries. */
  lemma {:induction false} SplitOptions(s: string, i: nat, os: Options)
    requires AllWellFormed(os) && Has(s, i, RenderOptions(os)) && i + |RenderOptions(os)| == |s|
    ensures SplitFrom(s, i, 0, i) == Rendered(os)
    decreases os
  {
    match os
    case Last(t) =>
      SplitOverTree(s, i, t, 0, i);
      HasSlice(s, i, Render(t));
      assert s[i..] == s[i..|s|];
    case More(t, others) =>
      HasMore(s, i, t, others);
      SplitOverTree(s, i, t, 0, i);
      HasSlice(s, i, Render(t));
      SplitOptions(s, i + |Render(t)| + 1, others);
  }

  lemma {:induction false} FindFirst(s: string, i: nat, k: nat)
    requires i <= k < |s| && s[k] == '{'
    requires forall j :: i <= j < k ==> s[j] != '{'
    ensures FindOpen(s, i) == Some(k)
    decreases k - i
  {
    if i < k { FindFirst(s, i + 1, k); }
  }

  lemma BodyBetween(s: string, a: nat, b: nat, c: nat, u: string, v: string)
    requires a <= b < c <= |s| && s[b] == ',' && b == a + |u| && c == b + 1 + |v|
    requires Has(s, a, u) && Has(s, b + 1, v)
    ensures s[a..c] == u + ("," + v)
  {
    HasSlice(s, a, u);
    HasSlice(s, b + 1, v);
    assert s[a..c] == s[a..b] + [s[b]] + s[b + 1..c];
  }

  lemma GroupBody(s: string, i: nat, first: Tree, more: Options, rest: Tree)
    requires Has(s, i, Render(Alt(first, more, rest)))
    ensures var c := i + 2 + |Render(first)| + |RenderOptions(more)|;
      && c < |s| && s[i + 1..c] == RenderOptions(More(first, more))
  {
    var b, c, end := GroupPositions(s, i, first, more, rest);
    BodyBetween(s, i + 1, b, c, Render(first), RenderOptions(more));
  }

  lemma GroupCloses(s: string, i: nat, first: Tree, more: Options, rest: Tree)
    requires Has(s, i, Render(Alt(first, more, rest)))
    requires WellFormed(first, true) && AllWellFormed(more)
    ensures CloseFrom(s, i, 0) == Some(i + 2 + |Render(first)| + |RenderOptions(more)|)
  {
    HasGroup(s, i, first, more, rest);
    var b := i + 1 + |Render(first)|;
    var c := b + 1 + |RenderOptions(more)|;
    CloseOverTree(s, i + 1, first, 1);
    CloseOverOptions(s, b + 1, more, 1);
    CloseOverGroup(s, i, b, c, 0);
  }

  lemma GroupSuffix(s: string, i: nat, first: Tree, more: Options, rest: Tree)
    requires Has(s, i, Render(Alt(first, more, rest))) && i + |Render(Alt(first, more, rest))| == |s|
    ensures var c := i + 2 + |Render(first)| + |RenderOptions(more)|;
      c < |s| && s[c + 1..] == Render(rest)
  {
    var b, c, end := GroupPositions(s, i, first, more, rest);
    HasSlice(s, c + 1, Render(rest));
    assert s[c + 1..] == s[c + 1..|s|];
  }

  /** The leftmost group of a rendered pattern is read back as written. */
  lemma GroupReadBack(lit: string, first: Tree, more: Options, rest: Tree)
    requires '{' !in lit && WellFormed(first, true) && AllWellFormed(more)
    ensures SplitGroup(lit + Render(Alt(first, more, rest)))
         == Some(Group(lit, [Render(first)] + Rendered(more), Render(rest)))
  {
    var u := Render(Alt(first, more, rest));
    HasSlice(lit + u, |lit|, u);
    assert (lit + u)[..|lit|] == lit;
    GroupReadAt(lit + u, |lit|, first, more, rest);
  }

  lemma GroupReadAt(s: string, i: nat, first: Tree, more: Options, rest: Tree)
    requires Has(s, i, Render(Alt(first, more, rest))) && i + |Render(Alt(first, more, rest))| == |s|
    requires '{' !in s[..i] && WellFormed(first, true) && AllWellFormed(more)
    ensures SplitGroup(s) == Some(Group(s[..i], Rendered(More(first, more)), Render(rest)))
  {
    GroupOpens(s, i, first, more, rest);
    GroupCloses(s, i, first, more, rest);
    GroupBody(s, i, first, more, rest);
    GroupSuffix(s, i, first, more, rest);
    GroupSplits(s, i, i + 2 + |Render(first)| + |RenderOptions(more)|, More(first, more), rest);
  }

  lemma GroupOpens(s: string, i: nat, first: Tree, more: Options, rest: Tree)
    requires Has(s, i, Render(Alt(first, more, rest)))
    ensures i < |s| && s[i] == '{'
  {
    HasGroup(s, i, first, more, rest);
  }

  lemma {:induction false} AtLeastOneRendered(os: Options)
    ensures |Rendered(os)| >= 1 && (os.More? ==> |Rendered(os)| >= 2 && RenderOptions(os) != "")
  {
    if os.More? { AtLeastOneRendered(os.others); }
  }

  lemma GroupSplits(s: string, i: nat, c: nat, os: Options, rest: Tree)
    requires i < c < |s| && s[i] == '{' && '{' !in s[..i]
    requires CloseFrom(s, i, 0) == Some(c) && s[i + 1..c] == RenderOptions(os) && s[c + 1..] == Render(rest)
    requires os.More? && AllWellFormed(os)
    ensures SplitGroup(s) == Some(Group(s[..i], Rendered(os), Render(rest)))
  {
    assert FindOpen(s, 0) == Some(i) by {
      forall j | 0 <= j < i ensures s[j] != '{' { assert s[j] == s[..i][j]; }
      FindFirst(s, 0, i);
    }
    assert SplitFrom(s[i + 1..c], 0, 0, 0) == Rendered(os) by {
      HasSlice(s[i + 1..c], 0, RenderOptions(os));
      SplitOptions(s[i + 1..c], 0, os);
    }
    AtLeastOneRendered(os);
  }

  // ---------------------------------------------------------------- the theorem

  /** Expanding a rendered pattern yields exactly its words, in order. */
  lemma {:induction false} LeavesAreWords(lit: string, t: Tree)
    requires '{' !in lit && WellFormed(t, false)
    ensures Leaves(lit + Render(t)) == Prefixed(lit, Words(t))
    decreases Size(t), 1, 0
  {
    var s := lit + Render(t);
    match t
    case End =>
      assert s == lit;
      assert FindOpen(s, 0).None?;
      assert Words(t)[1..] == [];
      assert lit + "" == lit;
    case Ch(c, rest) =>
      LeavesAreWords(lit + [c], rest);
      assert (lit + [c]) + Render(rest) == s;
      SingleProduct([c], Words(rest));
      PrefixedTwice(lit, [c], Words(rest));
    case Alt(first, more, rest) =>
      GroupReadBack(lit, first, more, rest);
      var g := SplitGroup(s).value;
      GroupReadsPattern(s, g);
      var os := More(first, more);
      assert Children(g) == Filled(lit, os, rest) by { FilledAre(lit, os, rest); }
      OptionLeavesAreWords(lit, os, rest, Opens(s), Size(t));
  }

  /** The children of a group: each option between the prefix and the suffix. */
  function Filled(lit: string, os: Options, rest: Tree): seq<string> {
    match os
    case Last(t) => [lit + Render(t) + Render(rest)]
    case More(t, others) => [lit + Render(t) + Render(rest)] + Filled(lit, others, rest)
  }

  lemma {:induction false} FilledAre(lit: string, os: Options, rest: Tree)
    ensures Filled(lit, os, rest) == Children(Group(lit, Rendered(os), Render(rest)))
  {
    match os
    case Last(_) =>
    case More(_, others) => FilledAre(lit, others, rest);
  }

  lemma {:induction false} OptionLeavesAreWords(lit: string, os: Options, rest: Tree, bound: nat, size: nat)
    requires '{' !in lit && AllWellFormed(os) && WellFormed(rest, false)
    requires Bounded(Filled(lit, os, rest), bound)
    requires OptionsSize(os) + Size(rest) < size
    ensures LeavesAll(Filled(lit, os, rest), bound) == Prefixed(lit, Product(OptionWords(os), Words(rest)))
    decreases size, 0, os
  {
    var t := os.t;
    var p := lit + Render(t) + Render(rest);
    ConcatRenders(t, rest, true);
    ConcatMeans(t, rest);
    LeavesAreWords(lit, Concat(t, rest));
    assert lit + Render(Concat(t, rest)) == p;
    match os
    case Last(_) =>
      assert Filled(lit, os, rest)[1..] == [];
    case More(_, others) =>
      assert Filled(lit, os, rest)[1..] == Filled(lit, others, rest);
      OptionLeavesAreWords(lit, others, rest, bound, size);
      ProductAppend(Words(t), OptionWords(others), Words(rest));
      PrefixedAppend(lit, Product(Words(t), Words(rest)), Product(OptionWords(others), Words(rest)));
  }

  /** What a caller gets for a well-formed pattern: its distinct words in order, or the pattern
      itself when it has more than 64 words counted with repeats. */
  lemma ExpansionMeaning(t: Tree)
    requires WellFormed(t, false)
    ensures Expansion(Render(t)) ==
      if |Words(t)| <= MAX_BRACE_EXPANSIONS then Dedup(Words(t)) else [Render(t)]
  {
    LeavesAreWords("", t);
    PrefixedEmpty(Words(t));
    assert "" + Render(t) == Render(t);
  }
}
