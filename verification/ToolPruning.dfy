/** In-place compression of old tool results (server/agents/compaction_service.py, 141-203;
    server/agents/compaction.py, 22-74). */
module ToolPruning {
  import opened Wrappers

  /** A message dictionary; `content` is None when it is not a string. */
  datatype Message = Message(
    role: string, content: Option<string>, toolName: string, digest: Option<string>,
    compacted: bool, isDigested: bool)

  const PRESERVE_ON_COMPACT := {"file_read", "todo"}
  const CHARS_PER_TOKEN := 4
  const TOOL_PREFIX := "[Tool:"

  // ---------------------------------------------------------------- which messages, by which tool

  predicate StartsWith(s: string, prefix: string) { prefix <= s }

  predicate IsToolMessage(m: Message) {
    m.toolName != "" || (m.content.Some? && StartsWith(m.content.value, TOOL_PREFIX))
  }

  function UpTo(s: string, c: char): string {
    if s == "" || s[0] == c then "" else [s[0]] + UpTo(s[1..], c)
  }

  predicate Blank(c: char) { c == ' ' || c == '\t' || c == '\n' || c == '\r' }

  function TrimLeft(s: string): string {
    if s != "" && Blank(s[0]) then TrimLeft(s[1..]) else s
  }

  function TrimRight(s: string): string {
    if s != "" && Blank(s[|s| - 1]) then TrimRight(s[..|s| - 1]) else s
  }

  /** The structured tag, or the name in the display prefix for messages from before the tag existed. */
  function ToolName(m: Message): string {
    if m.toolName != "" then m.toolName
    else if m.content.Some? && StartsWith(m.content.value, TOOL_PREFIX) then
      var head := TrimRight(TrimLeft(m.content.value[|TOOL_PREFIX|..]));
      TrimRight(TrimLeft(UpTo(UpTo(head, ' '), '|')))
    else ""
  }

  // ---------------------------------------------------------------- trimming

  function Digits(n: nat): string {
    if n < 10 then [['0', '1', '2', '3', '4', '5', '6', '7', '8', '9'][n]] else Digits(n / 10) + Digits(n % 10)
  }

  /** The number that a string of digits stands for. */
  function Number(s: string): nat
    requires forall i :: 0 <= i < |s| ==> '0' <= s[i] <= '9'
  {
    if s == "" then 0 else 10 * Number(s[..|s| - 1]) + (s[|s| - 1] - '0') as nat
  }

  lemma {:induction false} DigitsRead(n: nat)
    ensures Digits(n) != "" && (forall i :: 0 <= i < |Digits(n)| ==> '0' <= Digits(n)[i] <= '9') && Number(Digits(n)) == n
  {
    if n < 10 {
      assert Digits(n)[..0] == "";
    } else {
      DigitsRead(n / 10);
      DigitsRead(n % 10);
      var s := Digits(n);
      assert s == Digits(n / 10) + Digits(n % 10) && |Digits(n % 10)| == 1;
      assert s[..|s| - 1] == Digits(n / 10) && [s[|s| - 1]] == Digits(n % 10);
      assert Digits(n % 10)[..0] == "";
      assert Number(Digits(n % 10)) == (s[|s| - 1] - '0') as nat;
    }
  }

  function Marker(omitted: nat): string {
    "\n... (truncated: " + Digits(omitted) + " chars omitted from middle) ...\n"
  }

  /** `text[-n:]`: the last n characters, and the whole text for n = 0. */
  function LastChars(text: string, n: nat): string
    requires n <= |text|
  {
    if n == 0 then text else text[|text| - n..]
  }

  function Head(maxChars: nat): nat { maxChars * 2 / 3 }

  function HeadTailTrim(text: string, maxChars: nat): string {
    if |text| <= maxChars then text
    else
      var head := Head(maxChars);
      var tail := maxChars - head;
      text[..head] + Marker(|text| - maxChars) + LastChars(text, tail)
  }

  /** A trimmed text keeps both ends of the original and says how much went missing. It is shorter than the
      original exactly when more was cut than the marker adds; a limit of 0 cuts nothing at all. */
  lemma TrimKeepsEnds(text: string, maxChars: nat)
    requires |text| > maxChars
    ensures var out, head := HeadTailTrim(text, maxChars), Head(maxChars);
      && out[..head] == text[..head]
      && (maxChars > 0 ==> |out| == maxChars + |Marker(|text| - maxChars)|)
      && (maxChars > 0 ==> out[|out| - (maxChars - head)..] == text[|text| - (maxChars - head)..])
      && (maxChars > 0 ==> (|out| < |text| <==> |Marker(|text| - maxChars)| < |text| - maxChars))
      && (maxChars == 0 ==> out == Marker(|text|) + text)
  {
    var head := Head(maxChars);
    if maxChars == 0 {
      assert text[..0] == "";
    } else {
      assert head < maxChars;
    }
  }

  // ---------------------------------------------------------------- one message

  /** First line and the rest, and whether there is a rest at all. */
  function Rest(content: string): string {
    var first := UpTo(content, '\n');
    UpToPrefix(content, '\n');
    if |first| < |content| then content[|first| + 1..] else ""
  }

  lemma {:induction false} UpToPrefix(s: string, c: char)
    ensures |UpTo(s, c)| <= |s| && s[..|UpTo(s, c)|] == UpTo(s, c)
    ensures c !in UpTo(s, c) && (|UpTo(s, c)| < |s| ==> s[|UpTo(s, c)|] == c)
  {
    if s != "" && s[0] != c {
      UpToPrefix(s[1..], c);
      assert s[..|UpTo(s, c)|] == [s[0]] + s[1..][..|UpTo(s[1..], c)|];
    }
  }

  predicate Digestible(m: Message) { m.digest.Some? && ToolName(m) !in PRESERVE_ON_COMPACT }

  predicate Prunable(m: Message, maxOutput: nat) {
    m.content.Some? && IsToolMessage(m) && !m.compacted && (Digestible(m) || |Rest(m.content.value)| > maxOutput)
  }

  function Prune(m: Message, maxOutput: nat): Message {
    if !Prunable(m, maxOutput) then m
    else if Digestible(m) then m.(content := m.digest, compacted := true, isDigested := true)
    else
      var content := m.content.value;
      m.(content := Some(UpTo(content, '\n') + "\n" + HeadTailTrim(Rest(content), maxOutput)), compacted := true)
  }

  function Saved(m: Message, maxOutput: nat): nat {
    if !Prunable(m, maxOutput) then 0
    else
      var before, after := |m.content.value|, |Prune(m, maxOutput).content.value|;
      if before > after then before - after else 0
  }

  /** What pruning does to one message. It acts on tool results with text that were not pruned before, and only
      when there is a digest to use or more than the limit to cut. A digest replaces the text unless the tool is
      one of the two whose text is kept; otherwise the text is trimmed. Nothing else in the message changes but the marks. */
  lemma PruneMeaning(m: Message, maxOutput: nat)
    ensures var out := Prune(m, maxOutput);
      var hasDigest := m.digest.Some? && ToolName(m) != "file_read" && ToolName(m) != "todo";
      var isTool := m.toolName != "" || (m.content.Some? && "[Tool:" <= m.content.value);
      && out.role == m.role && out.toolName == m.toolName && out.digest == m.digest
      && (m.content.None? || !isTool || m.compacted ==> out == m)
      && (m.content.Some? && isTool && !m.compacted && hasDigest ==>
            out.content == m.digest && out.compacted && out.isDigested)
      && (m.content.Some? && isTool && !m.compacted && !hasDigest ==>
            if |Rest(m.content.value)| <= maxOutput then out == m
            else out.compacted && out.isDigested == m.isDigested
                 && out.content == Some(UpTo(m.content.value, '\n') + "\n" + HeadTailTrim(Rest(m.content.value), maxOutput)))
  {
  }

  lemma TrimLeftKeeps(s: string, t: string)
    requires t != "" && !Blank(t[0]) && (s == "" || s == " ")
    ensures TrimLeft(s + t) == t
  {
    if s == " " {
      assert (s + t)[1..] == t;
    } else {
      assert s + t == t;
    }
  }

  /** Trimming the right end stops at a character that is not blank. */
  lemma {:induction false} TrimRightKeeps(a: string, w: string)
    requires a != "" && !Blank(a[|a| - 1])
    ensures exists n: nat :: n <= |w| && TrimRight(a + w) == a + w[..n]
    decreases |w|
  {
    if w == "" {
      assert a + w == a && a + w[..0] == a;
    } else if Blank(w[|w| - 1]) {
      assert (a + w)[..|a + w| - 1] == a + w[..|w| - 1];
      TrimRightKeeps(a, w[..|w| - 1]);
      var n: nat :| n <= |w| - 1 && TrimRight(a + w[..|w| - 1]) == a + w[..|w| - 1][..n];
      assert w[..|w| - 1][..n] == w[..n];
    } else {
      assert w[..|w|] == w;
    }
  }

  lemma {:induction false} UpToStops(a: string, w: string, c: char)
    requires c !in a && (w == "" || w[0] == c)
    ensures UpTo(a + w, c) == a
  {
    if a == "" {
      assert a + w == w;
    } else {
      assert (a + w)[1..] == a[1..] + w;
      UpToStops(a[1..], w, c);
    }
  }

  /** A message from before the tag existed is attributed to the name that its display prefix starts with. */
  lemma NameFromDisplayPrefix(m: Message, name: string, rest: string)
    requires m.toolName == "" && name != "" && '|' !in name && forall i :: 0 <= i < |name| ==> !Blank(name[i])
    requires m.content == Some("[Tool:" + (" " + (name + (" " + rest))))
    ensures ToolName(m) == name
  {
    var w := " " + rest;
    var text := m.content.value[|TOOL_PREFIX|..];
    assert text == " " + (name + w) && StartsWith(m.content.value, TOOL_PREFIX);
    TrimLeftKeeps(" ", name + w);
    TrimRightKeeps(name, w);
    var n: nat :| n <= |w| && TrimRight(name + w) == name + w[..n];
    UpToStops(name, w[..n], ' ');
    UpToStops(name, "", '|');
    assert name + "" == name;
    TrimLeftKeeps("", name);
    assert "" + name == name;
  }

  /** Pruning a message again changes nothing and counts nothing. */
  lemma PruneOnce(m: Message, maxOutput: nat)
    ensures Prune(Prune(m, maxOutput), maxOutput) == Prune(m, maxOutput)
    ensures !Prunable(Prune(m, maxOutput), maxOutput)
  {
  }

  lemma EndsBehind(front: string, a: string, b: string, head: nat, n: nat)
    requires head <= |a| && head <= |b| && a[..head] == b[..head]
    requires 0 < n <= |a| && n <= |b| && a[|a| - n..] == b[|b| - n..]
    ensures front + b[..head] <= front + a
    ensures LastChars(front + a, n) == LastChars(front + b, n)
  {
    assert (front + a)[|front + a| - n..] == a[|a| - n..];
    assert (front + b)[|front + b| - n..] == b[|b| - n..];
  }

  lemma TrimmedEnds(front: string, rest: string, maxOutput: nat)
    requires |rest| > maxOutput > 0
    ensures var out, head := front + HeadTailTrim(rest, maxOutput), Head(maxOutput);
      && front + rest[..head] <= out
      && maxOutput - head <= |out| && LastChars(out, maxOutput - head) == LastChars(front + rest, maxOutput - head)
  {
    TrimKeepsEnds(rest, maxOutput);
    EndsBehind(front, HeadTailTrim(rest, maxOutput), rest, Head(maxOutput), maxOutput - Head(maxOutput));
  }

  /** File contents and task state never become a digest: the new text starts with the old first line and the
      beginning of the rest, and ends as the old text did. */
  lemma PreservedToolsKeepTheirText(m: Message, maxOutput: nat)
    requires ToolName(m) in PRESERVE_ON_COMPACT && Prunable(m, maxOutput)
    ensures var content, out := m.content.value, Prune(m, maxOutput).content;
      && out == Some(UpTo(content, '\n') + "\n" + HeadTailTrim(Rest(content), maxOutput))
      && content == UpTo(content, '\n') + "\n" + Rest(content)
      && |Rest(content)| > maxOutput
      && (maxOutput > 0 ==>
            var head := Head(maxOutput);
            && UpTo(content, '\n') + "\n" + Rest(content)[..head] <= out.value
            && maxOutput - head <= |out.value|
            && LastChars(out.value, maxOutput - head) == LastChars(content, maxOutput - head))
      && Prune(m, maxOutput).isDigested == m.isDigested
  {
    var content := m.content.value;
    UpToPrefix(content, '\n');
    var k := |UpTo(content, '\n')|;
    assert content == content[..k] + [content[k]] + content[k + 1..];
    if maxOutput > 0 { TrimmedEnds(UpTo(content, '\n') + "\n", Rest(content), maxOutput); }
  }

  // ---------------------------------------------------------------- which part of the list

  function ToolIndices(ms: seq<Message>): (r: seq<nat>)
    ensures forall i :: 0 <= i < |r| ==> r[i] < |ms|
  {
    if ms == [] then []
    else
      var before := ToolIndices(ms[..|ms| - 1]);
      if IsToolMessage(ms[|ms| - 1]) then before + [|ms| - 1] else before
  }

  /** Start of the protected part: the second newest tool message, when there are more than two. */
  function IntraturnBoundary(ms: seq<Message>): nat {
    var tools := ToolIndices(ms);
    if |tools| > 2 then tools[|tools| - 2] else 0
  }

  /** Just after the user message that begins one turn too many, counted from the end. */
  function TurnBoundary(ms: seq<Message>, turns: nat, keepTurns: nat): (b: nat)
    ensures b <= |ms|
  {
    if ms == [] then 0
    else
      var n := |ms| - 1;
      if ms[n].role == "user" then
        if turns + 1 > keepTurns then n + 1 else TurnBoundary(ms[..n], turns + 1, keepTurns)
      else TurnBoundary(ms[..n], turns, keepTurns)
  }

  function Boundary(ms: seq<Message>, keepTurns: nat, forceIntraturn: bool): (b: nat)
    ensures b <= |ms|
  {
    if ms == [] then 0
    else if forceIntraturn then IntraturnBoundary(ms)
    else TurnBoundary(ms, 0, keepTurns)
  }

  function PruneList(ms: seq<Message>, boundary: nat, maxOutput: nat): (r: seq<Message>)
    requires boundary <= |ms|
    ensures |r| == |ms|
    ensures forall i :: 0 <= i < |ms| ==> r[i] == if i < boundary then Prune(ms[i], maxOutput) else ms[i]
  {
    seq(|ms|, i requires 0 <= i < |ms| => if i < boundary then Prune(ms[i], maxOutput) else ms[i])
  }

  /** User messages in a list. */
  function Users(ms: seq<Message>): nat {
    if ms == [] then 0 else Users(ms[..|ms| - 1]) + (if ms[|ms| - 1].role == "user" then 1 else 0)
  }

  lemma {:induction false} TurnBoundaryCounts(ms: seq<Message>, turns: nat, keepTurns: nat)
    requires turns <= keepTurns
    ensures var b := TurnBoundary(ms, turns, keepTurns);
      && (b == 0 <==> turns + Users(ms) <= keepTurns)
      && (b > 0 ==> ms[b - 1].role == "user" && turns + Users(ms) - Users(ms[..b]) == keepTurns)
    decreases |ms|
  {
    if ms != [] {
      var n := |ms| - 1;
      var next := if ms[n].role == "user" then turns + 1 else turns;
      if next <= keepTurns {
        TurnBoundaryCounts(ms[..n], next, keepTurns);
        var b := TurnBoundary(ms, turns, keepTurns);
        assert ms[..n][..b] == ms[..b];
      } else {
        assert ms[..|ms|] == ms;
      }
    }
  }

  /** By turns, nothing is pruned while there are at most the kept number of user messages; otherwise pruning stops
      just after a user message that exactly this many follow. */
  lemma TurnsAreKept(ms: seq<Message>, keepTurns: nat)
    ensures var b := Boundary(ms, keepTurns, false);
      && (b == 0 <==> Users(ms) <= keepTurns)
      && (b > 0 ==> ms[b - 1].role == "user" && Users(ms) - Users(ms[..b]) == keepTurns)
  {
    TurnBoundaryCounts(ms, 0, keepTurns);
  }

  datatype Stats = Stats(count: nat, charsRemoved: nat, tokensSaved: nat)

  function StatsOf(ms: seq<Message>, maxOutput: nat): Stats {
    if ms == [] then Stats(0, 0, 0)
    else
      var before, m := StatsOf(ms[..|ms| - 1], maxOutput), ms[|ms| - 1];
      if Prunable(m, maxOutput) then
        Stats(before.count + 1, before.charsRemoved + Saved(m, maxOutput),
              before.tokensSaved + Saved(m, maxOutput) / CHARS_PER_TOKEN)
      else before
  }

  /** Characters in the texts of a list. */
  function Chars(ms: seq<Message>): nat {
    if ms == [] then 0
    else Chars(ms[..|ms| - 1]) + (match ms[|ms| - 1].content case Some(text) => |text| case None => 0)
  }

  function Changed(ms: seq<Message>, after: seq<Message>): nat
    requires |ms| == |after|
  {
    if ms == [] then 0
    else Changed(ms[..|ms| - 1], after[..|ms| - 1]) + (if ms[|ms| - 1] != after[|ms| - 1] then 1 else 0)
  }

  /** What is reported: how many messages changed, and at least as many characters as the list really lost, which
      is the same when no message grew. Four characters count as one token, message by message. */
  lemma {:induction false} StatsAreTrue(ms: seq<Message>, maxOutput: nat)
    ensures var after, stats := PruneList(ms, |ms|, maxOutput), StatsOf(ms, maxOutput);
      && stats.count == Changed(ms, after)
      && stats.charsRemoved + Chars(after) >= Chars(ms)
      && ((forall i :: 0 <= i < |ms| && ms[i].content.Some? && after[i].content.Some? ==>
             |after[i].content.value| <= |ms[i].content.value|) ==> stats.charsRemoved + Chars(after) == Chars(ms))
      && 4 * stats.tokensSaved <= stats.charsRemoved <= 4 * stats.tokensSaved + 3 * stats.count
  {
    if ms != [] {
      var n := |ms| - 1;
      StatsAreTrue(ms[..n], maxOutput);
      var after := PruneList(ms, |ms|, maxOutput);
      assert after[..n] == PruneList(ms[..n], n, maxOutput);
      PrunedChanges(ms[n], maxOutput);
    }
  }

  lemma PrunedChanges(m: Message, maxOutput: nat)
    ensures Prune(m, maxOutput) != m <==> Prunable(m, maxOutput)
    ensures Prunable(m, maxOutput) ==> m.content.Some? && Prune(m, maxOutput).content.Some?
  {
  }

  // ---------------------------------------------------------------- idempotence

  lemma {:induction false} ToolIndicesAppend(a: seq<Message>, b: seq<Message>)
    ensures |ToolIndices(a + b)| == |ToolIndices(a)| + |ToolIndices(b)|
    ensures ToolIndices(a + b)[..|ToolIndices(a)|] == ToolIndices(a)
    ensures forall i :: 0 <= i < |ToolIndices(b)| ==> ToolIndices(a + b)[|ToolIndices(a)| + i] == |a| + ToolIndices(b)[i]
  {
    if b == [] {
      assert a + b == a;
    } else {
      assert (a + b)[..|a + b| - 1] == a + b[..|b| - 1];
      ToolIndicesAppend(a, b[..|b| - 1]);
    }
  }

  lemma {:induction false} ToolIndicesAscend(ms: seq<Message>)
    ensures forall i, j :: 0 <= i < j < |ToolIndices(ms)| ==> ToolIndices(ms)[i] < ToolIndices(ms)[j]
    ensures forall i :: 0 <= i < |ToolIndices(ms)| ==> IsToolMessage(ms[ToolIndices(ms)[i]])
  {
    if ms != [] { ToolIndicesAscend(ms[..|ms| - 1]); }
  }

  /** Exactly two tool messages stand at or after the boundary when there are more than two in all. */
  lemma TwoToolsProtected(ms: seq<Message>)
    requires |ToolIndices(ms)| > 2
    ensures |ToolIndices(ms[IntraturnBoundary(ms)..])| == 2 && ToolIndices(ms[IntraturnBoundary(ms)..])[0] == 0
  {
    var b := IntraturnBoundary(ms);
    var front, back := ms[..b], ms[b..];
    assert front + back == ms;
    ToolIndicesAppend(front, back);
    ToolIndicesAscend(ms);
    var tools, f, k := ToolIndices(ms), |ToolIndices(front)|, |ToolIndices(ms)| - 2;
    assert f <= k;
    assert tools[k - 1] < tools[k];
    assert f == k;
    assert tools[f + 0] == b + ToolIndices(back)[0];
  }

  /** Tool results in a list. */
  function Tools(ms: seq<Message>): nat {
    if ms == [] then 0 else Tools(ms[..|ms| - 1]) + (if IsToolMessage(ms[|ms| - 1]) then 1 else 0)
  }

  lemma {:induction false} ToolsCount(ms: seq<Message>)
    ensures |ToolIndices(ms)| == Tools(ms)
  {
    if ms != [] { ToolsCount(ms[..|ms| - 1]); }
  }

  /** By tool results, nothing is pruned while there are at most two; otherwise pruning stops just before the tool
      result that one other follows. */
  lemma NewestToolsAreKept(ms: seq<Message>, keepTurns: nat)
    ensures var b := Boundary(ms, keepTurns, true);
      && (b == 0 <==> Tools(ms) <= 2)
      && (b > 0 ==> b < |ms| && IsToolMessage(ms[b]) && Tools(ms[b..]) == 2)
  {
    var b := IntraturnBoundary(ms);
    ToolsCount(ms);
    ToolIndicesAscend(ms);
    if Tools(ms) > 2 {
      var tools := ToolIndices(ms);
      assert tools[0] < tools[|tools| - 2];
      TwoToolsProtected(ms);
      ToolsCount(ms[b..]);
    }
  }

  lemma BoundaryFromBack(ms: seq<Message>, b: nat)
    requires b <= |ms| && |ToolIndices(ms[b..])| == 2 && ToolIndices(ms[b..])[0] == 0
    ensures IntraturnBoundary(ms) == b || IntraturnBoundary(ms) == 0
  {
    var front, back := ms[..b], ms[b..];
    assert front + back == ms;
    ToolIndicesAppend(front, back);
    assert ToolIndices(ms)[|ToolIndices(front)| + 0] == b + ToolIndices(back)[0];
  }

  lemma BackUnchanged(ms: seq<Message>, boundary: nat, maxOutput: nat)
    requires boundary <= |ms|
    ensures PruneList(ms, boundary, maxOutput)[boundary..] == ms[boundary..]
  {
  }

  lemma FewToolsNoBoundary(ms: seq<Message>, maxOutput: nat)
    requires |ToolIndices(ms)| <= 2
    ensures PruneList(ms, 0, maxOutput) == ms
  {
  }

  /** After pruning, the boundary is where it was, or nothing is old enough to prune. */
  lemma BoundaryIsStable(ms: seq<Message>, maxOutput: nat)
    ensures var b := IntraturnBoundary(ms);
      b <= |ms| && (IntraturnBoundary(PruneList(ms, b, maxOutput)) == b || IntraturnBoundary(PruneList(ms, b, maxOutput)) == 0)
  {
    var b := IntraturnBoundary(ms);
    if |ToolIndices(ms)| > 2 {
      TwoToolsProtected(ms);
      BackUnchanged(ms, b, maxOutput);
      BoundaryFromBack(PruneList(ms, b, maxOutput), b);
    } else {
      FewToolsNoBoundary(ms, maxOutput);
    }
  }

  lemma {:induction false} TurnBoundarySameRoles(a: seq<Message>, b: seq<Message>, turns: nat, keepTurns: nat)
    requires |a| == |b| && forall i :: 0 <= i < |a| ==> a[i].role == b[i].role
    ensures TurnBoundary(a, turns, keepTurns) == TurnBoundary(b, turns, keepTurns)
    decreases |a|
  {
    if a != [] {
      var n := |a| - 1;
      TurnBoundarySameRoles(a[..n], b[..n], turns + 1, keepTurns);
      TurnBoundarySameRoles(a[..n], b[..n], turns, keepTurns);
    }
  }

  lemma {:induction false} NothingPrunable(ms: seq<Message>, maxOutput: nat)
    requires forall i :: 0 <= i < |ms| ==> !Prunable(ms[i], maxOutput)
    ensures StatsOf(ms, maxOutput) == Stats(0, 0, 0)
  {
    if ms != [] { NothingPrunable(ms[..|ms| - 1], maxOutput); }
  }

  /** Pruning is idempotent in both modes: a second pass changes no message and reports nothing. */
  lemma PruningIsIdempotent(ms: seq<Message>, keepTurns: nat, maxOutput: nat, forceIntraturn: bool)
    ensures var once := PruneList(ms, Boundary(ms, keepTurns, forceIntraturn), maxOutput);
      var again := Boundary(once, keepTurns, forceIntraturn);
      PruneList(once, again, maxOutput) == once && StatsOf(once[..again], maxOutput) == Stats(0, 0, 0)
  {
    var b := Boundary(ms, keepTurns, forceIntraturn);
    var once := PruneList(ms, b, maxOutput);
    var again := Boundary(once, keepTurns, forceIntraturn);
    if ms != [] {
      if forceIntraturn {
        BoundaryIsStable(ms, maxOutput);
      } else {
        TurnBoundarySameRoles(ms, once, 0, keepTurns);
      }
      assert again <= b;
    }
    forall i | 0 <= i < again ensures once[i] == Prune(once[i], maxOutput) && !Prunable(once[i], maxOutput) {
      PruneOnce(ms[i], maxOutput);
    }
    NothingPrunable(once[..again], maxOutput);
  }

  /** In intra-turn mode the two newest tool results, and everything from the older of them on, stay as they are. */
  lemma NewestToolsUntouched(ms: seq<Message>, maxOutput: nat)
    ensures var after := PruneList(ms, Boundary(ms, 0, true), maxOutput);
      var tools := ToolIndices(ms);
      && (|tools| <= 2 ==> after == ms)
      && (|tools| > 2 ==> forall i :: tools[|tools| - 2] <= i < |ms| ==> after[i] == ms[i])
      && forall i :: 0 <= i < |ms| ==> after[i].role == ms[i].role && (!IsToolMessage(ms[i]) ==> after[i] == ms[i])
  {
  }

  // ---------------------------------------------------------------- the in-place loop

  method FindBoundary(messages: array<Message>, keepTurns: nat, forceIntraturn: bool) returns (boundary: nat)
    ensures boundary == Boundary(messages[..], keepTurns, forceIntraturn)
  {
    boundary := 0;
    if messages.Length == 0 { return; }
    if !forceIntraturn {
      var turns := 0;
      var i := messages.Length - 1;
      assert messages[..i + 1] == messages[..];
      while i >= 0
        invariant -1 <= i < messages.Length && turns <= keepTurns
        invariant TurnBoundary(messages[..], 0, keepTurns) == TurnBoundary(messages[..i + 1], turns, keepTurns)
        decreases i
      {
        assert messages[..i + 1][..i] == messages[..i];
        if messages[i].role == "user" {
          turns := turns + 1;
          if turns > keepTurns { return i + 1; }
        }
        i := i - 1;
      }
    } else {
      var tools: seq<nat> := [];
      for i := 0 to messages.Length
        invariant tools == ToolIndices(messages[..i])
      {
        assert messages[..i + 1][..i] == messages[..i];
        if IsToolMessage(messages[i]) { tools := tools + [i]; }
      }
      assert messages[..messages.Length] == messages[..];
      if |tools| > 2 { boundary := tools[|tools| - 2]; }
    }
  }

  method PruneToolOutputs(messages: array<Message>, keepTurns: nat, maxOutput: nat, forceIntraturn: bool)
    returns (stats: Stats)
    modifies messages
    ensures var boundary := Boundary(old(messages[..]), keepTurns, forceIntraturn);
      && messages[..] == PruneList(old(messages[..]), boundary, maxOutput)
      && stats == StatsOf(old(messages[..])[..boundary], maxOutput)
  {
    var boundary := FindBoundary(messages, keepTurns, forceIntraturn);
    stats := Stats(0, 0, 0);
    ghost var before := messages[..];
    for i := 0 to boundary
      invariant forall k :: 0 <= k < messages.Length ==> messages[k] == if k < i then Prune(before[k], maxOutput) else before[k]
      invariant stats == StatsOf(before[..i], maxOutput)
    {
      assert before[..i + 1][..i] == before[..i];
      var msg, counted, saved := PruneMessage(messages[i], maxOutput);
      messages[i] := msg;
      if counted {
        stats := Stats(stats.count + 1, stats.charsRemoved + saved, stats.tokensSaved + saved / CHARS_PER_TOKEN);
      }
    }
  }

  /** The body of the loop for one message. */
  method PruneMessage(msg: Message, maxOutput: nat) returns (out: Message, counted: bool, saved: nat)
    ensures out == Prune(msg, maxOutput) && counted == Prunable(msg, maxOutput) && saved == Saved(msg, maxOutput)
  {
    if msg.content.None? || !IsToolMessage(msg) || msg.compacted { return msg, false, 0; }
    var content := msg.content.value;
    if msg.digest.Some? && ToolName(msg) !in PRESERVE_ON_COMPACT {
      out := msg.(content := msg.digest, compacted := true, isDigested := true);
    } else {
      var rest := Rest(content);
      if |rest| <= maxOutput { return msg, false, 0; }
      out := msg.(content := Some(UpTo(content, '\n') + "\n" + HeadTailTrim(rest, maxOutput)), compacted := true);
    }
    counted := true;
    saved := if |content| > |out.content.value| then |content| - |out.content.value| else 0;
  }
}
