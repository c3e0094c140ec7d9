/** Where to cut a history so that a recent tail survives compaction (server/agents/compaction.py). */
module CompactionCut {
  datatype Message = Message(role: string, content: string)

  /** The token counter handed to the search. */
  type CountFn = string -> nat

  function Tokens(history: seq<Message>, i: nat, j: nat, count: CountFn): nat
    requires i <= j <= |history|
    decreases j - i
  {
    if i == j then 0 else count(history[i].content) + Tokens(history, i + 1, j, count)
  }

  lemma {:induction false} TokensSplit(history: seq<Message>, i: nat, j: nat, k: nat, count: CountFn)
    requires i <= j <= k <= |history|
    ensures Tokens(history, i, k, count) == Tokens(history, i, j, count) + Tokens(history, j, k, count)
    decreases j - i
  {
    if i < j { TokensSplit(history, i + 1, j, k, count); }
  }

  /** A tail may start here without splitting a tool exchange: it does not start with a tool result that
      follows another tool result or its assistant message. */
  predicate Boundary(history: seq<Message>, i: nat) {
    i <= |history| &&
    !(0 < i < |history| && history[i].role == "tool"
      && (history[i - 1].role == "tool" || history[i - 1].role == "assistant"))
  }

  /** Start of the exchange that ends just before `i`: the nearest earlier boundary. */
  method GroupStart(history: seq<Message>, i: nat) returns (j: nat)
    requires 0 < i <= |history|
    ensures j < i && Boundary(history, j)
    ensures forall b :: j < b < i ==> !Boundary(history, b)
  {
    j := i - 1;
    if history[j].role == "tool" {
      while j > 0 && history[j - 1].role == "tool"
        invariant j < i
        invariant forall b :: j <= b < i ==> history[b].role == "tool"
      {
        j := j - 1;
      }
      if j > 0 && history[j - 1].role == "assistant" {
        j := j - 1;
      }
    }
  }

  method SumTokens(history: seq<Message>, i: nat, j: nat, count: CountFn) returns (sum: nat)
    requires i <= j <= |history|
    ensures sum == Tokens(history, i, j, count)
  {
    sum := 0;
    for k := i to j
      invariant sum == Tokens(history, i, k, count)
    {
      TokensSplit(history, i, k, k + 1, count);
      sum := sum + count(history[k].content);
    }
  }

  /** The newest exchange: what is kept even when it exceeds the budget on its own. */
  ghost predicate NewestGroup(history: seq<Message>, i: nat) {
    && i < |history| && Boundary(history, i)
    && forall b :: i < b < |history| ==> !Boundary(history, b)
  }

  /** The cut falls on an exchange boundary inside the history; the kept tail fits the budget unless it is
      the single newest exchange; and no tail from an earlier boundary would fit. An empty history gives 0.
      (The source comments that 0 means everything is summarized; CompactionProtocol says when that is so.) */
  method FindCompactionCutBudgeted(history: seq<Message>, keepTokens: nat, count: CountFn) returns (cut: nat)
    ensures history == [] ==> cut == 0
    ensures history != [] ==> cut < |history| && Boundary(history, cut)
    ensures history != [] ==> Tokens(history, cut, |history|, count) <= keepTokens || NewestGroup(history, cut)
    ensures forall b :: 0 <= b < cut && Boundary(history, b) ==> Tokens(history, b, |history|, count) > keepTokens
  {
    if history == [] { return 0; }
    var n := |history|;
    var j := GroupStart(history, n);
    var used := SumTokens(history, j, n, count);
    cut := j;
    while cut > 0
      invariant cut < n && Boundary(history, cut)
      invariant used == Tokens(history, cut, n, count)
      invariant used <= keepTokens || NewestGroup(history, cut)
    {
      j := GroupStart(history, cut);
      var group := SumTokens(history, j, cut, count);
      TokensSplit(history, j, cut, n, count);
      if used + group > keepTokens {
        forall b | 0 <= b < cut && Boundary(history, b) ensures Tokens(history, b, n, count) > keepTokens {
          assert b <= j;
          TokensSplit(history, b, j, n, count);
        }
        break;
      }
      used := used + group;
      cut := j;
    }
  }

  /** The three promises of the search determine its answer. */
  lemma CutIsUnique(history: seq<Message>, keepTokens: nat, count: CountFn, a: nat, b: nat)
    requires a < |history| && Boundary(history, a) && b < |history| && Boundary(history, b)
    requires Tokens(history, a, |history|, count) <= keepTokens || NewestGroup(history, a)
    requires Tokens(history, b, |history|, count) <= keepTokens || NewestGroup(history, b)
    requires forall c :: 0 <= c < a && Boundary(history, c) ==> Tokens(history, c, |history|, count) > keepTokens
    requires forall c :: 0 <= c < b && Boundary(history, c) ==> Tokens(history, c, |history|, count) > keepTokens
    ensures a == b
  {
  }

  // ---------------------------------------------------------------- the count-based cut

  function BackOverAssistants(history: seq<Message>, i: nat): (cut: nat)
    requires i <= |history|
    ensures cut <= i
  {
    if i > 0 && history[i - 1].role == "assistant" then BackOverAssistants(history, i - 1) else i
  }

  function CountCut(history: seq<Message>, keepTail: nat): (cut: nat)
    ensures cut <= |history|
  {
    if |history| <= keepTail then 0 else BackOverAssistants(history, |history| - keepTail)
  }

  /** The position lies between two results of one call. */
  predicate BetweenResults(history: seq<Message>, i: nat) {
    0 < i < |history| && history[i].role == "tool" && history[i - 1].role == "tool"
  }

  lemma {:induction false} BackOverFindsBoundary(history: seq<Message>, i: nat)
    requires i <= |history|
    ensures var cut := BackOverAssistants(history, i);
      && (cut > 0 ==> history[cut - 1].role != "assistant")
      && (forall k :: cut <= k < i ==> history[k].role == "assistant")
      && (Boundary(history, cut) <==> !BetweenResults(history, i))
  {
    if i > 0 && history[i - 1].role == "assistant" { BackOverFindsBoundary(history, i - 1); }
  }

  /** The docstring promises never to split a tool exchange. The search keeps that promise exactly when the
      messages on both sides of the position `keepTail` from the end are not both tool results. */
  lemma CountCutIsBoundaryExactlyWhen(history: seq<Message>, keepTail: nat)
    requires |history| > keepTail
    ensures Boundary(history, CountCut(history, keepTail)) <==> !BetweenResults(history, |history| - keepTail)
  {
    BackOverFindsBoundary(history, |history| - keepTail);
  }

  /** Concretely: a call with two results, of which only the last message is to be kept. */
  lemma CountCutSplitsExchange(a: string, b: string, c: string)
    ensures var history := [Message("assistant", a), Message("tool", b), Message("tool", c)];
      CountCut(history, 1) == 2 && !Boundary(history, 2)
  {
  }

  /** `_find_compaction_cut` backs over assistant messages only. */
  method FindCompactionCut(history: seq<Message>, keepTail: nat) returns (cut: nat)
    ensures cut == CountCut(history, keepTail)
    ensures |history| > keepTail ==> (Boundary(history, cut) <==> !BetweenResults(history, |history| - keepTail))
    ensures forall k :: cut <= k < |history| - keepTail ==> history[k].role == "assistant"
    ensures cut > 0 ==> history[cut - 1].role != "assistant"
  {
    if |history| <= keepTail { return 0; }
    BackOverFindsBoundary(history, |history| - keepTail);
    cut := |history| - keepTail;
    while cut > 0 && history[cut - 1].role == "assistant"
      invariant cut <= |history| - keepTail
      invariant BackOverAssistants(history, cut) == CountCut(history, keepTail)
    {
      cut := cut - 1;
    }
  }
}
