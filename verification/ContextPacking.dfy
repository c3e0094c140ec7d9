/** Greedy newest-first packing of history into the request budget (server/agents/context.py, 232-274). */
module ContextPacking {
  import opened Selection

  datatype Message = Message(role: string, content: string, hasToolCalls: bool)
  datatype Entry = Entry(role: string, content: string, tokens: nat, ownsToolCalls: bool)

  // ---------------------------------------------------------------- entries

  predicate Hollow(m: Message) { m.role == "assistant" && m.content == "" && !m.hasToolCalls }

  function EntryOf(m: Message, count: string -> nat): Entry {
    Entry(m.role, m.content, count(m.content), m.hasToolCalls)
  }

  /** Entries so far; the last one gives the key that a repeat is compared with. */
  function Entries(history: seq<Message>, count: string -> nat): seq<Entry> {
    if history == [] then []
    else
      var before, m := Entries(history[..|history| - 1], count), history[|history| - 1];
      if Hollow(m) || (before != [] && before[|before| - 1].role == m.role && before[|before| - 1].content == m.content)
      then before
      else before + [EntryOf(m, count)]
  }

  /** How many of the ascending positions lie before `k`. */
  function Before(at: seq<nat>, k: nat): (n: nat)
    ensures n <= |at| && (n > 0 ==> at[n - 1] < k) && (n < |at| ==> at[n] >= k)
  {
    if at == [] then 0 else if at[|at| - 1] < k then |at| else Before(at[..|at| - 1], k)
  }

  /** Message `k` repeats the newest entry before it; entries come from the messages `at`. */
  predicate Repeats(history: seq<Message>, at: seq<nat>, k: nat)
    requires k < |history|
  {
    var n := Before(at, k);
    n > 0 && history[at[n - 1]].role == history[k].role && history[at[n - 1]].content == history[k].content
  }

  /** An entry is made of the message at each of these positions, with its token count. */
  ghost predicate MadeFrom(history: seq<Message>, count: string -> nat, entries: seq<Entry>, at: seq<nat>) {
    && |entries| == |at|
    && (forall j :: 0 <= j < |at| ==>
          && at[j] < |history| && entries[j].role == history[at[j]].role && entries[j].content == history[at[j]].content
          && entries[j].tokens == count(history[at[j]].content) && entries[j].ownsToolCalls == history[at[j]].hasToolCalls)
    && (forall i, j :: 0 <= i < j < |at| ==> at[i] < at[j])
  }

  /** A message becomes an entry exactly unless it is an assistant message with no content and no tool calls, or
      repeats the entry before it. */
  ghost predicate Complete(history: seq<Message>, at: seq<nat>) {
    forall k: nat {:trigger Repeats(history, at, k)} :: k < |history| ==>
      (k in at <==> !(history[k].role == "assistant" && history[k].content == "" && !history[k].hasToolCalls)
                    && !Repeats(history, at, k))
  }

  lemma BeforeSnoc(at: seq<nat>, n: nat, k: nat)
    requires k <= n && forall j :: 0 <= j < |at| ==> at[j] < n
    ensures Before(at + [n], k) == Before(at, k)
    ensures Before(at, n) == |at|
  {
    assert (at + [n])[..|at|] == at;
  }

  lemma RepeatsSnoc(history: seq<Message>, m: Message, at: seq<nat>, k: nat)
    requires k < |history| && forall j :: 0 <= j < |at| ==> at[j] < |history|
    ensures Repeats(history + [m], at, k) == Repeats(history, at, k)
    ensures Repeats(history + [m], at + [|history|], k) == Repeats(history, at, k)
  {
    BeforeSnoc(at, |history|, k);
  }

  lemma LastRepeats(history: seq<Message>, m: Message, at: seq<nat>)
    requires forall j :: 0 <= j < |at| ==> at[j] < |history|
    ensures var repeats := at != [] && history[at[|at| - 1]].role == m.role && history[at[|at| - 1]].content == m.content;
      && Repeats(history + [m], at, |history|) == repeats
      && Repeats(history + [m], at + [|history|], |history|) == repeats
  {
    BeforeSnoc(at, |history|, |history|);
  }

  lemma CompleteSkip(history: seq<Message>, m: Message, at: seq<nat>)
    requires Complete(history, at) && forall j :: 0 <= j < |at| ==> at[j] < |history|
    requires Hollow(m) || Repeats(history + [m], at, |history|)
    ensures Complete(history + [m], at)
  {
    var all := history + [m];
    forall k: nat | k < |all| ensures k in at <==> !Hollow(all[k]) && !Repeats(all, at, k) {
      if k < |history| { RepeatsSnoc(history, m, at, k); }
    }
  }

  lemma CompleteTake(history: seq<Message>, m: Message, at: seq<nat>)
    requires Complete(history, at) && forall j :: 0 <= j < |at| ==> at[j] < |history|
    requires !Hollow(m) && !Repeats(history + [m], at + [|history|], |history|)
    ensures Complete(history + [m], at + [|history|])
  {
    var all, pos := history + [m], at + [|history|];
    forall k: nat | k < |all| ensures k in pos <==> !Hollow(all[k]) && !Repeats(all, pos, k) {
      if k < |history| { RepeatsSnoc(history, m, at, k); }
    }
  }

  lemma MadeMore(history: seq<Message>, m: Message, count: string -> nat, entries: seq<Entry>, at: seq<nat>)
    requires MadeFrom(history, count, entries, at)
    ensures MadeFrom(history + [m], count, entries, at)
    ensures MadeFrom(history + [m], count, entries + [EntryOf(m, count)], at + [|history|])
  {
  }

  /** One step of the loop, in terms of the last entry. */
  lemma EntriesSnoc(history: seq<Message>, m: Message, count: string -> nat, entries: seq<Entry>, at: seq<nat>)
    requires entries == Entries(history, count) && MadeFrom(history, count, entries, at)
    ensures Entries(history + [m], count) ==
      if Hollow(m) || (at != [] && history[at[|at| - 1]].role == m.role && history[at[|at| - 1]].content == m.content)
      then entries else entries + [EntryOf(m, count)]
  {
    assert (history + [m])[..|history|] == history;
  }

  lemma {:induction false} EntriesAreCollected(history: seq<Message>, count: string -> nat) returns (at: seq<nat>)
    ensures MadeFrom(history, count, Entries(history, count), at) && Complete(history, at)
  {
    if history == [] {
      at := [];
    } else {
      var init, m := history[..|history| - 1], history[|history| - 1];
      at := EntriesAreCollected(init, count);
      var entries := Entries(init, count);
      assert history == init + [m];
      EntriesSnoc(init, m, count, entries, at);
      MadeMore(init, m, count, entries, at);
      LastRepeats(init, m, at);
      if |Entries(history, count)| == |entries| {
        CompleteSkip(init, m, at);
      } else {
        CompleteTake(init, m, at);
        at := at + [|init|];
      }
    }
  }

  method CollectEntries(history: seq<Message>, count: string -> nat) returns (entries: seq<Entry>)
    ensures entries == Entries(history, count)
    ensures exists at :: MadeFrom(history, count, entries, at) && Complete(history, at)
    ensures forall i :: 0 < i < |entries| ==>
              entries[i].role != entries[i - 1].role || entries[i].content != entries[i - 1].content
    ensures forall i :: 0 <= i < |entries| ==>
              !(entries[i].role == "assistant" && entries[i].content == "" && !entries[i].ownsToolCalls)
  {
    entries := [];
    var lastRole, lastContent := "", "";
    for i := 0 to |history|
      invariant entries == Entries(history[..i], count)
      invariant entries != [] ==> lastRole == entries[|entries| - 1].role && lastContent == entries[|entries| - 1].content
      invariant forall k :: 0 < k < |entries| ==>
              entries[k].role != entries[k - 1].role || entries[k].content != entries[k - 1].content
      invariant forall k :: 0 <= k < |entries| ==>
              !(entries[k].role == "assistant" && entries[k].content == "" && !entries[k].ownsToolCalls)
    {
      assert history[..i + 1][..i] == history[..i];
      var m := history[i];
      if Hollow(m) { continue; }
      if entries != [] && m.role == lastRole && m.content == lastContent { continue; }
      lastRole, lastContent := m.role, m.content;
      entries := entries + [EntryOf(m, count)];
    }
    assert history[..|history|] == history;
    ghost var at := EntriesAreCollected(history, count);
  }

  // ---------------------------------------------------------------- packing

  predicate StartsWithTool(content: string) { "[Tool:" <= content }

  predicate IsToolResult(e: Entry) {
    e.role == "tool" || (e.role == "user" && StartsWithTool(e.content))
  }

  /** A tool result has role tool, or, in its live form, role user and a text that starts with its display prefix. */
  lemma ToolResultForms(e: Entry)
    ensures IsToolResult(e) <==>
      e.role == "tool" || (e.role == "user" && |e.content| >= 6 && e.content[..6] == "[Tool:")
  {
    if StartsWithTool(e.content) { assert e.content[..6] == "[Tool:"; }
  }

  /** The newest of the first `i` entries is decided together with the owner of its tool call. */
  predicate Paired(entries: seq<Entry>, i: nat)
    requires 0 < i <= |entries|
  {
    IsToolResult(entries[i - 1]) && i >= 2 && entries[i - 2].ownsToolCalls
  }

  /** Which of the first `i` entries are kept, newest decided first, and the tokens used in the end. */
  datatype Packed = Packed(kept: seq<bool>, used: nat)

  function Pack(entries: seq<Entry>, i: nat, used: nat, limit: int): (p: Packed)
    requires i <= |entries|
    ensures |p.kept| == i
    decreases i
  {
    if i == 0 then Packed([], used)
    else if Paired(entries, i) then
      var pair := entries[i - 2].tokens + entries[i - 1].tokens;
      var fits := used + pair <= limit;
      var p := Pack(entries, i - 2, if fits then used + pair else used, limit);
      Packed(p.kept + [fits, fits], p.used)
    else
      var fits := used + entries[i - 1].tokens <= limit;
      var p := Pack(entries, i - 1, if fits then used + entries[i - 1].tokens else used, limit);
      Packed(p.kept + [fits], p.used)
  }

  /** The kept entries, in their original order. */
  function Select(entries: seq<Entry>, kept: seq<bool>): seq<Entry>
    requires |kept| == |entries|
  {
    if entries == [] then []
    else
      var n := |entries| - 1;
      var before := Select(entries[..n], kept[..n]);
      if kept[n] then before + [entries[n]] else before
  }

  function TotalTokens(entries: seq<Entry>): nat {
    if entries == [] then 0 else TotalTokens(entries[..|entries| - 1]) + entries[|entries| - 1].tokens
  }

  lemma {:induction false} SelectStep(entries: seq<Entry>, i: nat, kept: seq<bool>, more: seq<bool>)
    requires i + |more| <= |entries| && |kept| == i
    ensures Select(entries[..i + |more|], kept + more)
         == Select(entries[..i], kept) + Select(entries[i..i + |more|], more)
  {
    var n := |more|;
    if n == 0 {
      assert kept + more == kept;
      assert Select(entries[..i], kept) + [] == Select(entries[..i], kept);
    } else {
      SelectStep(entries, i, kept, more[..n - 1]);
      var all, mask := entries[..i + n], kept + more;
      assert all[..i + n - 1] == entries[..i + n - 1];
      assert mask[..i + n - 1] == kept + more[..n - 1];
      assert entries[i..i + n][..n - 1] == entries[i..i + n - 1];
    }
  }

  lemma SelectOne(e: Entry, keep: bool)
    ensures Select([e], [keep]) == if keep then [e] else []
  {
    assert [e][..0] == [] && [keep][..0] == [];
  }

  lemma SelectTwo(a: Entry, b: Entry, keep: bool)
    ensures Select([a, b], [keep, keep]) == if keep then [a, b] else []
  {
    assert [a, b][..1] == [a] && [keep, keep][..1] == [keep];
    SelectOne(a, keep);
  }

  lemma SelectPair(entries: seq<Entry>, i: nat, kept: seq<bool>, fits: bool)
    requires 2 <= i <= |entries| && |kept| == i - 2
    ensures Select(entries[..i], kept + [fits, fits]) ==
      if fits then Select(entries[..i - 2], kept) + [entries[i - 2], entries[i - 1]] else Select(entries[..i - 2], kept)
  {
    SelectStep(entries, i - 2, kept, [fits, fits]);
    assert entries[i - 2..i] == [entries[i - 2], entries[i - 1]];
    SelectTwo(entries[i - 2], entries[i - 1], fits);
  }

  lemma SelectSingle(entries: seq<Entry>, i: nat, kept: seq<bool>, fits: bool)
    requires 1 <= i <= |entries| && |kept| == i - 1
    ensures Select(entries[..i], kept + [fits]) ==
      if fits then Select(entries[..i - 1], kept) + [entries[i - 1]] else Select(entries[..i - 1], kept)
  {
    SelectStep(entries, i - 1, kept, [fits]);
    assert entries[i - 1..i] == [entries[i - 1]];
    SelectOne(entries[i - 1], fits);
  }

  /** The tokens used never shrink, and grow only within the budget. */
  lemma {:induction false} PackGrows(entries: seq<Entry>, i: nat, used: nat, limit: int)
    requires i <= |entries|
    ensures var p := Pack(entries, i, used, limit); p.used >= used && (p.used == used || p.used <= limit)
    decreases i
  {
    if i > 0 {
      if Paired(entries, i) {
        var pair := entries[i - 2].tokens + entries[i - 1].tokens;
        PackGrows(entries, i - 2, if used + pair <= limit then used + pair else used, limit);
      } else {
        var t := entries[i - 1].tokens;
        PackGrows(entries, i - 1, if used + t <= limit then used + t else used, limit);
      }
    }
  }

  /** Used tokens are the fixed part plus exactly what was kept. */
  lemma {:induction false} PackAccounts(entries: seq<Entry>, i: nat, used: nat, limit: int)
    requires i <= |entries|
    ensures var p := Pack(entries, i, used, limit);
      p.used == used + TotalTokens(Select(entries[..i], p.kept))
    decreases i
  {
    if i > 0 {
      if Paired(entries, i) {
        var pair := entries[i - 2].tokens + entries[i - 1].tokens;
        var fits := used + pair <= limit;
        var next := if fits then used + pair else used;
        var q := Pack(entries, i - 2, next, limit);
        PackAccounts(entries, i - 2, next, limit);
        SelectPair(entries, i, q.kept, fits);
        TotalAppend(Select(entries[..i - 2], q.kept), [entries[i - 2], entries[i - 1]]);
        TotalTwo(entries[i - 2], entries[i - 1]);
      } else {
        var fits := used + entries[i - 1].tokens <= limit;
        var next := if fits then used + entries[i - 1].tokens else used;
        var q := Pack(entries, i - 1, next, limit);
        PackAccounts(entries, i - 1, next, limit);
        SelectSingle(entries, i, q.kept, fits);
        TotalAppend(Select(entries[..i - 1], q.kept), [entries[i - 1]]);
        TotalOne(entries[i - 1]);
      }
    }
  }

  lemma TotalOne(e: Entry)
    ensures TotalTokens([e]) == e.tokens
  {
    assert [e][..0] == [];
  }

  lemma TotalTwo(a: Entry, b: Entry)
    ensures TotalTokens([a, b]) == a.tokens + b.tokens
  {
    assert [a, b][..1] == [a] && [a][..0] == [];
    assert TotalTokens([a]) == a.tokens;
  }

  lemma {:induction false} TotalAppend(a: seq<Entry>, b: seq<Entry>)
    ensures TotalTokens(a + b) == TotalTokens(a) + TotalTokens(b)
  {
    if b == [] {
      assert a + b == a;
    } else {
      assert (a + b)[..|a + b| - 1] == a + b[..|b| - 1];
      TotalAppend(a, b[..|b| - 1]);
    }
  }

  /** Owners are not themselves tool results. */
  ghost predicate OwnersAreNotResults(entries: seq<Entry>) {
    forall k :: 0 <= k < |entries| ==> !(IsToolResult(entries[k]) && entries[k].ownsToolCalls)
  }

  /** A tool result directly after its tool-calling owner is kept exactly when the owner is kept. */
  lemma {:induction false} PairsStayTogether(entries: seq<Entry>, i: nat, used: nat, limit: int, k: nat)
    requires OwnersAreNotResults(entries) && k + 1 < i <= |entries|
    requires entries[k].ownsToolCalls && IsToolResult(entries[k + 1])
    ensures Pack(entries, i, used, limit).kept[k] == Pack(entries, i, used, limit).kept[k + 1]
    decreases i
  {
    if Paired(entries, i) {
      var pair := entries[i - 2].tokens + entries[i - 1].tokens;
      if k + 1 < i - 2 {
        PairsStayTogether(entries, i - 2, if used + pair <= limit then used + pair else used, limit, k);
      } else {
        assert k + 1 == i - 1;
      }
    } else {
      var t := entries[i - 1].tokens;
      PairsStayTogether(entries, i - 1, if used + t <= limit then used + t else used, limit, k);
    }
  }

  /** Nothing that was left out could still be added: a left-out entry, or the pair it was decided with,
      exceeds what is left in the end. */
  lemma {:induction false} NothingLeftOutFits(entries: seq<Entry>, i: nat, used: nat, limit: int, k: nat)
    requires k < i <= |entries| && !Pack(entries, i, used, limit).kept[k]
    ensures var total := Pack(entries, i, used, limit).used;
      || total + entries[k].tokens > limit
      || (k + 1 < i && !Pack(entries, i, used, limit).kept[k + 1] && entries[k].ownsToolCalls
          && IsToolResult(entries[k + 1]) && total + entries[k].tokens + entries[k + 1].tokens > limit)
      || (k > 0 && !Pack(entries, i, used, limit).kept[k - 1] && entries[k - 1].ownsToolCalls
          && IsToolResult(entries[k]) && total + entries[k - 1].tokens + entries[k].tokens > limit)
    decreases i
  {
    if Paired(entries, i) {
      var pair := entries[i - 2].tokens + entries[i - 1].tokens;
      var next := if used + pair <= limit then used + pair else used;
      PackGrows(entries, i - 2, next, limit);
      if k < i - 2 { NothingLeftOutFits(entries, i - 2, next, limit, k); }
    } else {
      var t := entries[i - 1].tokens;
      var next := if used + t <= limit then used + t else used;
      PackGrows(entries, i - 1, next, limit);
      if k < i - 1 { NothingLeftOutFits(entries, i - 1, next, limit, k); }
    }
  }

  // ---------------------------------------------------------------- newest first

  /** The selected entries are those marked, in order. */
  lemma {:induction false} SelectionIsMarked(entries: seq<Entry>, kept: seq<bool>) returns (at: seq<nat>)
    requires |entries| == |kept|
    ensures Picks(entries, Select(entries, kept), at)
    ensures forall k: nat :: k < |entries| ==> (k in at <==> kept[k])
  {
    if entries == [] {
      at := [];
    } else {
      var n := |entries| - 1;
      at := SelectionIsMarked(entries[..n], kept[..n]);
      assert entries == entries[..n] + [entries[n]];
      if kept[n] {
        PicksTake(entries[..n], Select(entries[..n], kept[..n]), at, entries[n]);
        at := at + [n];
      } else {
        PicksSkip(entries[..n], Select(entries[..n], kept[..n]), at, entries[n]);
      }
    }
  }

  /** Tokens of the entries from `j` to `i` that are kept. */
  function KeptTokens(entries: seq<Entry>, kept: seq<bool>, j: nat, i: nat): nat
    requires j <= i <= |entries| && i <= |kept|
    decreases i
  {
    if j == i then 0
    else KeptTokens(entries, kept, j, i - 1) + (if kept[i - 1] then entries[i - 1].tokens else 0)
  }

  lemma {:induction false} KeptTokensPrefix(entries: seq<Entry>, kept: seq<bool>, more: seq<bool>, j: nat, i: nat)
    requires j <= i <= |entries| && i <= |kept|
    ensures KeptTokens(entries, kept + more, j, i) == KeptTokens(entries, kept, j, i)
    decreases i
  {
    if j < i { KeptTokensPrefix(entries, kept, more, j, i - 1); }
  }

  /** The entry is decided neither with its call before it nor with its result after it. */
  predicate Alone(entries: seq<Entry>, k: nat, n: nat)
    requires k < n <= |entries|
  {
    && !(k > 0 && entries[k - 1].ownsToolCalls && IsToolResult(entries[k]))
    && !(k + 1 < n && entries[k].ownsToolCalls && IsToolResult(entries[k + 1]))
  }

  /** What one decision leaves: `kept` before it, the tokens used after it. */
  ghost predicate DecidedOn(entries: seq<Entry>, n: nat, used: nat, limit: int, m: nat, next: nat, inner: seq<bool>) {
    && 0 < n <= |entries| && m == (if Paired(entries, n) then n - 2 else n - 1) && |inner| == m
    && inner == Pack(entries, m, next, limit).kept
    && var t := if Paired(entries, n) then entries[n - 2].tokens + entries[n - 1].tokens else entries[n - 1].tokens;
       var fits := used + t <= limit;
       && next == (if fits then used + t else used)
       && Pack(entries, n, used, limit).kept == inner + (if Paired(entries, n) then [fits, fits] else [fits])
  }

  lemma Decides(entries: seq<Entry>, n: nat, used: nat, limit: int) returns (m: nat, next: nat, inner: seq<bool>)
    requires 0 < n <= |entries|
    ensures DecidedOn(entries, n, used, limit, m, next, inner)
  {
    m := if Paired(entries, n) then n - 2 else n - 1;
    var t := if Paired(entries, n) then entries[n - 2].tokens + entries[n - 1].tokens else entries[n - 1].tokens;
    next := if used + t <= limit then used + t else used;
    inner := Pack(entries, m, next, limit).kept;
  }

  lemma TwoMoreTokens(entries: seq<Entry>, kept: seq<bool>, fits: bool, j: nat, n: nat)
    requires 2 <= n <= |entries| && |kept| == n - 2 && j <= n - 2
    ensures KeptTokens(entries, kept + [fits, fits], j, n) ==
      KeptTokens(entries, kept, j, n - 2) + (if fits then entries[n - 2].tokens + entries[n - 1].tokens else 0)
  {
    KeptTokensPrefix(entries, kept, [fits, fits], j, n - 2);
    var all := kept + [fits, fits];
    assert all[n - 1] == fits && all[n - 2] == fits;
    assert KeptTokens(entries, all, j, n - 1) == KeptTokens(entries, all, j, n - 2) + (if fits then entries[n - 2].tokens else 0);
  }

  lemma OneMoreToken(entries: seq<Entry>, kept: seq<bool>, fits: bool, j: nat, n: nat)
    requires 1 <= n <= |entries| && |kept| == n - 1 && j <= n - 1
    ensures KeptTokens(entries, kept + [fits], j, n) ==
      KeptTokens(entries, kept, j, n - 1) + (if fits then entries[n - 1].tokens else 0)
  {
    KeptTokensPrefix(entries, kept, [fits], j, n - 1);
    assert (kept + [fits])[n - 1] == fits;
  }

  /** The tokens used after a decision count the decided entries in, so what lies on top of an older one is the same. */
  lemma SameOnTop(entries: seq<Entry>, n: nat, used: nat, limit: int, m: nat, next: nat, inner: seq<bool>, j: nat)
    requires DecidedOn(entries, n, used, limit, m, next, inner) && j <= m
    ensures next + KeptTokens(entries, inner, j, m) == used + KeptTokens(entries, Pack(entries, n, used, limit).kept, j, n)
  {
    if Paired(entries, n) {
      TwoMoreTokens(entries, inner, used + (entries[n - 2].tokens + entries[n - 1].tokens) <= limit, j, n);
    } else {
      OneMoreToken(entries, inner, used + entries[n - 1].tokens <= limit, j, n);
    }
  }

  /** The newest entries come first: an entry decided alone is kept exactly when it still fits on top of the
      newer ones that are kept. */
  lemma {:induction false} NewestFirst(entries: seq<Entry>, n: nat, used: nat, limit: int, k: nat)
    requires OwnersAreNotResults(entries) && k < n <= |entries| && Alone(entries, k, n)
    ensures var kept := Pack(entries, n, used, limit).kept;
      kept[k] <==> used + KeptTokens(entries, kept, k + 1, n) + entries[k].tokens <= limit
    decreases n
  {
    var m, next, inner := Decides(entries, n, used, limit);
    if k < m {
      NewestFirst(entries, m, next, limit, k);
      SameOnTop(entries, n, used, limit, m, next, inner, k + 1);
    }
  }

  /** And a call with the result directly after it is kept exactly when both fit on top of the newer ones kept. */
  lemma {:induction false} NewestPairFirst(entries: seq<Entry>, n: nat, used: nat, limit: int, k: nat)
    requires OwnersAreNotResults(entries) && k + 1 < n <= |entries|
    requires entries[k].ownsToolCalls && IsToolResult(entries[k + 1])
    ensures var kept := Pack(entries, n, used, limit).kept;
      && (kept[k] <==> used + KeptTokens(entries, kept, k + 2, n) + entries[k].tokens + entries[k + 1].tokens <= limit)
      && kept[k + 1] == kept[k]
    decreases n
  {
    var m, next, inner := Decides(entries, n, used, limit);
    if k + 1 < m {
      NewestPairFirst(entries, m, next, limit, k);
      SameOnTop(entries, n, used, limit, m, next, inner, k + 2);
    }
  }

  // ---------------------------------------------------------------- calls with several results

  /** Tokens used when the entries from `j` to `i` have been decided one by one, newest first. */
  function OneByOne(entries: seq<Entry>, i: nat, j: nat, used: nat, limit: int): nat
    requires j <= i <= |entries|
    decreases i - j
  {
    if i == j then used
    else OneByOne(entries, i - 1, j, if used + entries[i - 1].tokens <= limit then used + entries[i - 1].tokens else used, limit)
  }

  /** A call at `a` with at least two results, the last of which ends the first `i` entries. */
  ghost predicate CallWithResults(entries: seq<Entry>, a: nat, i: nat) {
    && a + 2 < i <= |entries| && entries[a].ownsToolCalls
    && forall r :: a < r < i ==> IsToolResult(entries[r]) && !entries[r].ownsToolCalls
  }

  lemma LastPair(entries: seq<Entry>, a: nat, used: nat, limit: int)
    requires a + 2 <= |entries| && IsToolResult(entries[a + 1]) && entries[a].ownsToolCalls
    ensures Pack(entries, a + 2, used, limit).kept[a] <==> used + (entries[a].tokens + entries[a + 1].tokens) <= limit
    ensures Pack(entries, a + 2, used, limit).kept[a + 1] == Pack(entries, a + 2, used, limit).kept[a]
  {
    assert Paired(entries, a + 2);
    assert a + 2 - 2 == a;
  }

  /** Only the first result is decided with its call: every later result is decided alone, newest first, and the
      call with its first result after all of them. */
  lemma {:induction false} ResultsAreDecidedAlone(entries: seq<Entry>, a: nat, i: nat, used: nat, limit: int, r: nat)
    requires CallWithResults(entries, a, i) && a + 2 <= r < i
    ensures var kept := Pack(entries, i, used, limit).kept;
      && (kept[r] <==> OneByOne(entries, i, r + 1, used, limit) + entries[r].tokens <= limit)
      && (kept[a] <==> OneByOne(entries, i, a + 2, used, limit) + (entries[a].tokens + entries[a + 1].tokens) <= limit)
      && kept[a + 1] == kept[a]
    decreases i
  {
    assert !Paired(entries, i);
    var next := if used + entries[i - 1].tokens <= limit then used + entries[i - 1].tokens else used;
    if i - 1 == a + 2 {
      LastPair(entries, a, next, limit);
    } else if r < i - 1 {
      ResultsAreDecidedAlone(entries, a, i - 1, next, limit, r);
    } else {
      ResultsAreDecidedAlone(entries, a, i - 1, next, limit, r - 1);
    }
  }

  /** The source says a tool result stays paired with the assistant call it follows. With several results that
      fails: any result but the first is kept without its call exactly when it fits alone, on top of the newer
      ones that fit, while the call and its first result no longer fit on top of all that did. */
  lemma LaterResultIsOrphanedExactlyWhen(entries: seq<Entry>, a: nat, i: nat, used: nat, limit: int, r: nat)
    requires CallWithResults(entries, a, i) && a + 2 <= r < i
    ensures var kept := Pack(entries, i, used, limit).kept;
      kept[r] && !kept[a] <==>
        OneByOne(entries, i, r + 1, used, limit) + entries[r].tokens <= limit
        < OneByOne(entries, i, a + 2, used, limit) + entries[a].tokens + entries[a + 1].tokens
  {
    ResultsAreDecidedAlone(entries, a, i, used, limit, r);
  }

  /** Tokens used when the loop that starts with the first `n` entries reaches the first `i` of them. */
  function UsedAt(entries: seq<Entry>, n: nat, i: nat, used: nat, limit: int): nat
    requires i <= n <= |entries|
    decreases n
  {
    if n == i then used
    else if Paired(entries, n) then
      var pair := entries[n - 2].tokens + entries[n - 1].tokens;
      if n - 2 < i then used else UsedAt(entries, n - 2, i, if used + pair <= limit then used + pair else used, limit)
    else
      var t := entries[n - 1].tokens;
      UsedAt(entries, n - 1, i, if used + t <= limit then used + t else used, limit)
  }

  /** A decision never spans the end of a call's results, so the loop decides what comes before on its own. */
  lemma {:induction false} PackReaches(entries: seq<Entry>, n: nat, i: nat, used: nat, limit: int)
    requires 0 < i <= n <= |entries| && !entries[i - 1].ownsToolCalls
    ensures Pack(entries, n, used, limit).kept[..i] == Pack(entries, i, UsedAt(entries, n, i, used, limit), limit).kept
    decreases n
  {
    if n > i {
      if Paired(entries, n) {
        var pair := entries[n - 2].tokens + entries[n - 1].tokens;
        PackReaches(entries, n - 2, i, if used + pair <= limit then used + pair else used, limit);
      } else {
        var t := entries[n - 1].tokens;
        PackReaches(entries, n - 1, i, if used + t <= limit then used + t else used, limit);
      }
    }
  }

  /** The same anywhere in a whole history. */
  lemma OrphanedInHistoryExactlyWhen(entries: seq<Entry>, a: nat, i: nat, fixed: nat, limit: int, r: nat)
    requires CallWithResults(entries, a, i) && a + 2 <= r < i
    ensures var kept, used := Pack(entries, |entries|, fixed, limit).kept, UsedAt(entries, |entries|, i, fixed, limit);
      kept[r] && !kept[a] <==>
        OneByOne(entries, i, r + 1, used, limit) + entries[r].tokens <= limit
        < OneByOne(entries, i, a + 2, used, limit) + entries[a].tokens + entries[a + 1].tokens
  {
    var used := UsedAt(entries, |entries|, i, fixed, limit);
    var kept := Pack(entries, |entries|, fixed, limit).kept;
    PackReaches(entries, |entries|, i, fixed, limit);
    assert kept[..i][r] == kept[r] && kept[..i][a] == kept[a];
    LaterResultIsOrphanedExactlyWhen(entries, a, i, used, limit, r);
  }

  /** With two results, in closed form. */
  lemma SecondResultIsOrphanedExactlyWhen(entries: seq<Entry>, a: nat, used: nat, limit: int)
    requires CallWithResults(entries, a, a + 3)
    ensures var kept := Pack(entries, a + 3, used, limit).kept;
      var owner, t1, t2 := entries[a].tokens, entries[a + 1].tokens, entries[a + 2].tokens;
      kept[a + 2] && !kept[a] <==> used + t2 <= limit < used + t2 + owner + t1
  {
    LaterResultIsOrphanedExactlyWhen(entries, a, a + 3, used, limit, a + 2);
  }

  /** A history of one call with two different results. */
  function TwoResults(call: string, first: string, second: string): seq<Message> {
    [Message("assistant", call, true), Message("tool", first, false), Message("tool", second, false)]
  }

  lemma TwoResultsEntries(call: string, first: string, second: string, count: string -> nat)
    requires first != second
    ensures Entries(TwoResults(call, first, second), count) ==
      [Entry("assistant", call, count(call), true), Entry("tool", first, count(first), false), Entry("tool", second, count(second), false)]
  {
    var all := TwoResults(call, first, second);
    assert all[..2][..1][..0] == [];
    assert Entries(all[..2][..1], count) == [Entry("assistant", call, count(call), true)];
    assert Entries(all[..2], count) ==
      [Entry("assistant", call, count(call), true), Entry("tool", first, count(first), false)];
  }

  /** From messages: whatever the counter, the second of two different results is sent without its call exactly
      when it fits and the whole exchange does not. */
  lemma SecondResultCanBeOrphaned(call: string, first: string, second: string, count: string -> nat, fixed: nat, limit: int)
    requires first != second
    ensures |Entries(TwoResults(call, first, second), count)| == 3
    ensures var kept := Pack(Entries(TwoResults(call, first, second), count), 3, fixed, limit).kept;
      kept[2] && !kept[0] <==>
        fixed + count(second) <= limit < fixed + count(second) + count(call) + count(first)
  {
    TwoResultsEntries(call, first, second, count);
    SecondResultIsOrphanedExactlyWhen(Entries(TwoResults(call, first, second), count), 0, fixed, limit);
  }

  /** Concretely, counting characters: a long first result, a short second one, and room for five. */
  lemma OrphanedResult()
    ensures var entries := Entries(TwoResults("look", "a long listing", "b"), (s: string) => |s|);
      |entries| == 3 && Pack(entries, 3, 0, 5).kept[2] && !Pack(entries, 3, 0, 5).kept[0]
  {
    SecondResultCanBeOrphaned("look", "a long listing", "b", (s: string) => |s|, 0, 5);
  }

  function Reverse(s: seq<Entry>): seq<Entry> {
    if s == [] then [] else Reverse(s[1..]) + [s[0]]
  }

  lemma {:induction false} ReverseAppend(a: seq<Entry>, b: seq<Entry>)
    ensures Reverse(a + b) == Reverse(b) + Reverse(a)
  {
    if a == [] {
      assert a + b == b;
    } else {
      assert (a + b)[1..] == a[1..] + b;
      ReverseAppend(a[1..], b);
    }
  }

  lemma SelectFront(entries: seq<Entry>, i: nat, more: seq<bool>, decided: seq<bool>)
    requires i + |more| + |decided| == |entries|
    ensures Select(entries[i..], more + decided)
         == Select(entries[i..i + |more|], more) + Select(entries[i + |more|..], decided)
  {
    var tail := entries[i..];
    SelectStep(tail, |more|, more, decided);
    assert tail[..|more| + |decided|] == tail && tail[..|more|] == entries[i..i + |more|];
    assert tail[|more|..|more| + |decided|] == entries[i + |more|..];
  }

  lemma ReverseOne(e: Entry)
    ensures Reverse([e]) == [e]
  {
    assert [e][1..] == [];
    assert Reverse([]) + [e] == [e];
  }

  lemma ReverseTwo(a: Entry, b: Entry)
    ensures Reverse([a, b]) == [b, a]
  {
    assert [a, b][1..] == [b];
    ReverseOne(b);
    assert [b] + [a] == [b, a];
  }

  /** One decision of the backward loop, seen from the chronological side. */
  lemma FrontPair(entries: seq<Entry>, i: nat, fits: bool, decided: seq<bool>, retained: seq<Entry>)
    requires 2 <= i && i + |decided| == |entries| && Reverse(retained) == Select(entries[i..], decided)
    ensures Reverse(if fits then retained + [entries[i - 1], entries[i - 2]] else retained)
         == Select(entries[i - 2..], [fits, fits] + decided)
  {
    var a, b := entries[i - 2], entries[i - 1];
    SelectFront(entries, i - 2, [fits, fits], decided);
    assert entries[i - 2..i] == [a, b];
    SelectTwo(a, b, fits);
    ReverseAppend(retained, [b, a]);
    ReverseTwo(b, a);
  }

  lemma FrontSingle(entries: seq<Entry>, i: nat, fits: bool, decided: seq<bool>, retained: seq<Entry>)
    requires 1 <= i && i + |decided| == |entries| && Reverse(retained) == Select(entries[i..], decided)
    ensures Reverse(if fits then retained + [entries[i - 1]] else retained)
         == Select(entries[i - 1..], [fits] + decided)
  {
    var e := entries[i - 1];
    SelectFront(entries, i - 1, [fits], decided);
    assert entries[i - 1..i] == [e];
    SelectOne(e, fits);
    ReverseAppend(retained, [e]);
    ReverseOne(e);
  }

  /** State of the backward loop with the first `i` entries still to be decided. */
  ghost predicate Progress(entries: seq<Entry>, whole: Packed, limit: int, i: nat, used: nat, decided: seq<bool>, retained: seq<Entry>) {
    && i + |decided| == |entries|
    && whole.kept == Pack(entries, i, used, limit).kept + decided
    && whole.used == Pack(entries, i, used, limit).used
    && Reverse(retained) == Select(entries[i..], decided)
  }

  lemma ProgressPair(entries: seq<Entry>, whole: Packed, limit: int, i: nat, used: nat, decided: seq<bool>,
      retained: seq<Entry>, fits: bool, used': nat, retained': seq<Entry>)
    requires Progress(entries, whole, limit, i + 2, used, decided, retained)
    requires i + 2 <= |entries| && Paired(entries, i + 2)
    requires fits <==> used + (entries[i].tokens + entries[i + 1].tokens) <= limit
    requires used' == if fits then used + (entries[i].tokens + entries[i + 1].tokens) else used
    requires retained' == if fits then retained + [entries[i + 1], entries[i]] else retained
    ensures Progress(entries, whole, limit, i, used', [fits, fits] + decided, retained')
  {
    FrontPair(entries, i + 2, fits, decided, retained);
    var rest := Pack(entries, i, used', limit);
    assert (rest.kept + [fits, fits]) + decided == rest.kept + ([fits, fits] + decided);
  }

  lemma ProgressSingle(entries: seq<Entry>, whole: Packed, limit: int, i: nat, used: nat, decided: seq<bool>,
      retained: seq<Entry>, fits: bool, used': nat, retained': seq<Entry>)
    requires Progress(entries, whole, limit, i + 1, used, decided, retained)
    requires i + 1 <= |entries| && !Paired(entries, i + 1)
    requires fits <==> used + entries[i].tokens <= limit
    requires used' == if fits then used + entries[i].tokens else used
    requires retained' == if fits then retained + [entries[i]] else retained
    ensures Progress(entries, whole, limit, i, used', [fits] + decided, retained')
  {
    FrontSingle(entries, i + 1, fits, decided, retained);
    var rest := Pack(entries, i, used', limit);
    assert (rest.kept + [fits]) + decided == rest.kept + ([fits] + decided);
  }

  lemma ProgressDone(entries: seq<Entry>, fixed: nat, limit: int, used: nat, decided: seq<bool>, retained: seq<Entry>)
    requires Progress(entries, Pack(entries, |entries|, fixed, limit), limit, 0, used, decided, retained)
    ensures var p := Pack(entries, |entries|, fixed, limit);
      && Reverse(retained) == Select(entries, p.kept) && used == p.used
      && used == fixed + TotalTokens(Reverse(retained)) && (used == fixed || used <= limit)
  {
    assert entries[0..] == entries && entries[..|entries|] == entries && [] + decided == decided;
    PackGrows(entries, |entries|, fixed, limit);
    PackAccounts(entries, |entries|, fixed, limit);
  }

  lemma ProgressStart(entries: seq<Entry>, fixed: nat, limit: int)
    ensures Progress(entries, Pack(entries, |entries|, fixed, limit), limit, |entries|, fixed, [], [])
  {
    var whole := Pack(entries, |entries|, fixed, limit);
    assert entries[|entries|..] == [] && whole.kept + [] == whole.kept;
  }

  /** What one pass of the loop does with the newest of the first `n` entries, and how many are then left. */
  ghost predicate Decision(entries: seq<Entry>, limit: int, n: nat, used: nat, retained: seq<Entry>,
      fits: bool, n': nat, used': nat, retained': seq<Entry>)
    requires 0 < n <= |entries|
  {
    if Paired(entries, n) then
      var tokens := entries[n - 2].tokens + entries[n - 1].tokens;
      && n' == n - 2 && (fits <==> used + tokens <= limit) && used' == (if fits then used + tokens else used)
      && retained' == (if fits then retained + [entries[n - 1], entries[n - 2]] else retained)
    else
      var tokens := entries[n - 1].tokens;
      && n' == n - 1 && (fits <==> used + tokens <= limit) && used' == (if fits then used + tokens else used)
      && retained' == (if fits then retained + [entries[n - 1]] else retained)
  }

  lemma ProgressStep(entries: seq<Entry>, whole: Packed, limit: int, n: nat, used: nat, decided: seq<bool>,
      retained: seq<Entry>, fits: bool, n': nat, used': nat, retained': seq<Entry>) returns (decided': seq<bool>)
    requires 0 < n <= |entries| && Progress(entries, whole, limit, n, used, decided, retained)
    requires Decision(entries, limit, n, used, retained, fits, n', used', retained')
    ensures Progress(entries, whole, limit, n', used', decided', retained')
  {
    if Paired(entries, n) {
      ProgressPair(entries, whole, limit, n', used, decided, retained, fits, used', retained');
      decided' := [fits, fits] + decided;
    } else {
      ProgressSingle(entries, whole, limit, n', used, decided, retained, fits, used', retained');
      decided' := [fits] + decided;
    }
  }

  /** The body of the loop. */
  method Decide(entries: seq<Entry>, index: nat, before: nat, kept: seq<Entry>, promptBuffer: nat, budget: int)
    returns (retained: seq<Entry>, used: nat, next: int, fits: bool)
    requires index < |entries|
    ensures -1 <= next < index
    ensures Decision(entries, budget - promptBuffer, index + 1, before, kept, fits, next + 1, used, retained)
  {
    retained, used := kept, before;
    var entry := entries[index];
    if Paired(entries, index + 1) {
      var owner := entries[index - 1];
      var tokens := owner.tokens + entry.tokens;
      fits := used + tokens + promptBuffer <= budget;
      if fits {
        retained := retained + [entry, owner];
        used := used + tokens;
      }
      next := index - 2;
    } else {
      fits := used + entry.tokens + promptBuffer <= budget;
      if fits {
        retained := retained + [entry];
        used := used + entry.tokens;
      }
      next := index - 1;
    }
  }

  /** The backward loop of `build_messages`, its result put back into chronological order. */
  method RetainHistory(entries: seq<Entry>, fixed: nat, promptBuffer: nat, budget: int)
    returns (retained: seq<Entry>, used: nat)
    ensures var p := Pack(entries, |entries|, fixed, budget - promptBuffer);
      retained == Select(entries, p.kept) && used == p.used
    ensures used == fixed + TotalTokens(retained)
    ensures used <= budget - promptBuffer || used == fixed
  {
    retained := [];
    used := fixed;
    var index := |entries| - 1;
    ghost var limit := budget - promptBuffer;
    ghost var whole := Pack(entries, |entries|, fixed, limit);
    ghost var decided: seq<bool> := [];
    ProgressStart(entries, fixed, limit);
    while index >= 0
      invariant -1 <= index < |entries|
      invariant Progress(entries, whole, limit, index + 1, used, decided, retained)
      decreases index
    {
      var retained', used', next, fits := Decide(entries, index, used, retained, promptBuffer, budget);
      decided := ProgressStep(entries, whole, limit, index + 1, used, decided, retained, fits, next + 1, used', retained');
      retained, used, index := retained', used', next;
    }
    ProgressDone(entries, fixed, limit, used, decided, retained);
    retained := Reverse(retained);
  }
}
