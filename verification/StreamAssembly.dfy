/** Streaming with one guarded retry and tool-call assembly (server/providers/llm_provider.py, 888-1106). */
module StreamAssembly {
  /** One fragment of a tool call; absent parts are empty. */
  datatype Delta = Delta(index: int, id: string, name: string, arguments: string)
  datatype ToolCall = ToolCall(id: string, name: string, arguments: string)

  /** A chunk of the stream; a chunk without a delta carries nothing deliverable. */
  datatype Chunk = Chunk(content: string, reasoning: string, toolCalls: seq<Delta>)

  /** How an attempt ends after its chunks: normally, with a provider error or timeout (never retried),
      or with any other exception (the only case that may be retried). */
  datatype Ending = Finished | ProviderFailure | OtherFailure

  /** What one request to the provider would deliver. */
  datatype Attempt = Attempt(chunks: seq<Chunk>, ending: Ending)

  /** What the caller receives. */
  datatype Piece = Content(text: string) | Reasoning(text: string)

  type Calls = map<int, ToolCall>

  // ---------------------------------------------------------------- assembly

  function Pieces(c: Chunk): seq<Piece> {
    (if c.content != "" then [Content(c.content)] else [])
    + (if c.reasoning != "" then [Reasoning(c.reasoning)] else [])
  }

  function AllPieces(chunks: seq<Chunk>): seq<Piece> {
    if chunks == [] then [] else AllPieces(chunks[..|chunks| - 1]) + Pieces(chunks[|chunks| - 1])
  }

  /** The content, and the reasoning, in a list of pieces. */
  function ContentOf(pieces: seq<Piece>): string {
    if pieces == [] then ""
    else ContentOf(pieces[..|pieces| - 1]) + (if pieces[|pieces| - 1].Content? then pieces[|pieces| - 1].text else "")
  }

  function ReasoningOf(pieces: seq<Piece>): string {
    if pieces == [] then ""
    else ReasoningOf(pieces[..|pieces| - 1]) + (if pieces[|pieces| - 1].Reasoning? then pieces[|pieces| - 1].text else "")
  }

  function ContentSent(chunks: seq<Chunk>): string {
    if chunks == [] then "" else ContentSent(chunks[..|chunks| - 1]) + chunks[|chunks| - 1].content
  }

  function ReasoningSent(chunks: seq<Chunk>): string {
    if chunks == [] then "" else ReasoningSent(chunks[..|chunks| - 1]) + chunks[|chunks| - 1].reasoning
  }

  lemma TextSnoc(pieces: seq<Piece>, p: Piece)
    ensures ContentOf(pieces + [p]) == ContentOf(pieces) + (if p.Content? then p.text else "")
    ensures ReasoningOf(pieces + [p]) == ReasoningOf(pieces) + (if p.Reasoning? then p.text else "")
  {
    assert (pieces + [p])[..|pieces|] == pieces;
  }

  lemma ChunkText(pieces: seq<Piece>, c: Chunk)
    ensures ContentOf(pieces + Pieces(c)) == ContentOf(pieces) + c.content
    ensures ReasoningOf(pieces + Pieces(c)) == ReasoningOf(pieces) + c.reasoning
  {
    var a := if c.content != "" then pieces + [Content(c.content)] else pieces;
    var b := if c.reasoning != "" then a + [Reasoning(c.reasoning)] else a;
    assert pieces + Pieces(c) == b;
    TextSnoc(pieces, Content(c.content));
    TextSnoc(a, Reasoning(c.reasoning));
  }

  /** What the caller gets is the text that was sent: content as content, reasoning as reasoning, whole, in order. */
  lemma {:induction false} PiecesCarryTheText(chunks: seq<Chunk>)
    ensures ContentOf(AllPieces(chunks)) == ContentSent(chunks)
    ensures ReasoningOf(AllPieces(chunks)) == ReasoningSent(chunks)
  {
    if chunks != [] {
      var init, c := chunks[..|chunks| - 1], chunks[|chunks| - 1];
      PiecesCarryTheText(init);
      ChunkText(AllPieces(init), c);
    }
  }

  /** Chunk by chunk, and in a chunk the content before the reasoning. */
  lemma {:induction false} PiecesComeChunkByChunk(chunks: seq<Chunk>, k: nat)
    requires k < |chunks|
    ensures AllPieces(chunks[..k + 1]) <= AllPieces(chunks)
    ensures var before, c := AllPieces(chunks[..k]), chunks[k];
      var own := AllPieces(chunks[..k + 1]);
      && before <= own
      && own[|before|..] ==
           if c.content != "" && c.reasoning != "" then [Content(c.content), Reasoning(c.reasoning)]
           else if c.content != "" then [Content(c.content)]
           else if c.reasoning != "" then [Reasoning(c.reasoning)] else []
    decreases |chunks|
  {
    var upto := chunks[..k + 1];
    assert upto[..k] == chunks[..k];
    if k + 1 < |chunks| {
      var init := chunks[..|chunks| - 1];
      PiecesComeChunkByChunk(init, k);
      assert init[..k + 1] == upto && init[..k] == chunks[..k];
    } else {
      assert upto == chunks;
    }
  }

  /** The fragments are those of the chunks, in order. */
  lemma {:induction false} DeltasComeChunkByChunk(chunks: seq<Chunk>, k: nat)
    requires k < |chunks|
    ensures AllDeltas(chunks[..k + 1]) == AllDeltas(chunks[..k]) + chunks[k].toolCalls
    ensures AllDeltas(chunks[..k + 1]) <= AllDeltas(chunks)
    decreases |chunks|
  {
    var upto := chunks[..k + 1];
    assert upto[..k] == chunks[..k];
    if k + 1 < |chunks| {
      var init := chunks[..|chunks| - 1];
      DeltasComeChunkByChunk(init, k);
      assert init[..k + 1] == upto && init[..k] == chunks[..k];
    } else {
      assert upto == chunks;
    }
  }

  function AllDeltas(chunks: seq<Chunk>): seq<Delta> {
    if chunks == [] then [] else AllDeltas(chunks[..|chunks| - 1]) + chunks[|chunks| - 1].toolCalls
  }

  /** A later id or name replaces the earlier one, arguments are appended. */
  function Merge(tc: ToolCall, d: Delta): ToolCall {
    ToolCall(if d.id != "" then d.id else tc.id, if d.name != "" then d.name else tc.name, tc.arguments + d.arguments)
  }

  function Accumulate(calls: Calls, d: Delta): Calls {
    var tc := if d.index in calls then calls[d.index] else ToolCall(d.id, "", "");
    calls[d.index := Merge(tc, d)]
  }

  function Assemble(deltas: seq<Delta>): Calls {
    if deltas == [] then map[] else Accumulate(Assemble(deltas[..|deltas| - 1]), deltas[|deltas| - 1])
  }

  /** The fragments of one tool call. */
  function Fragments(deltas: seq<Delta>, index: int): seq<Delta> {
    if deltas == [] then []
    else
      var before, d := Fragments(deltas[..|deltas| - 1], index), deltas[|deltas| - 1];
      if d.index == index then before + [d] else before
  }

  /** One tool call built from its own fragments: the last non-empty id and name, all arguments in order. */
  function FromFragments(fs: seq<Delta>): ToolCall {
    if fs == [] then ToolCall("", "", "") else Merge(FromFragments(fs[..|fs| - 1]), fs[|fs| - 1])
  }

  function LastNonEmpty(xs: seq<string>): string {
    if xs == [] then "" else if xs[|xs| - 1] != "" then xs[|xs| - 1] else LastNonEmpty(xs[..|xs| - 1])
  }

  function Concat(xs: seq<string>): string {
    if xs == [] then "" else Concat(xs[..|xs| - 1]) + xs[|xs| - 1]
  }

  lemma {:induction false} FromFragmentsMeaning(fs: seq<Delta>)
    ensures FromFragments(fs) == ToolCall(
      LastNonEmpty(seq(|fs|, i requires 0 <= i < |fs| => fs[i].id)),
      LastNonEmpty(seq(|fs|, i requires 0 <= i < |fs| => fs[i].name)),
      Concat(seq(|fs|, i requires 0 <= i < |fs| => fs[i].arguments)))
  {
    if fs != [] {
      var n := |fs|;
      var init := fs[..n - 1];
      FromFragmentsMeaning(init);
      assert seq(n, i requires 0 <= i < n => fs[i].id)[..n - 1]
          == seq(n - 1, i requires 0 <= i < n - 1 => init[i].id);
      assert seq(n, i requires 0 <= i < n => fs[i].name)[..n - 1]
          == seq(n - 1, i requires 0 <= i < n - 1 => init[i].name);
      assert seq(n, i requires 0 <= i < n => fs[i].arguments)[..n - 1]
          == seq(n - 1, i requires 0 <= i < n - 1 => init[i].arguments);
    }
  }

  /** Each assembled call depends on the fragments carrying its index and on nothing else. */
  lemma {:induction false} AssembledFromOwnFragments(deltas: seq<Delta>, index: int)
    ensures index in Assemble(deltas) <==> Fragments(deltas, index) != []
    ensures index in Assemble(deltas) ==> Assemble(deltas)[index] == FromFragments(Fragments(deltas, index))
  {
    if deltas != [] {
      var init, d := deltas[..|deltas| - 1], deltas[|deltas| - 1];
      AssembledFromOwnFragments(init, index);
      if d.index == index {
        var fs := Fragments(init, index) + [d];
        assert fs[..|fs| - 1] == Fragments(init, index);
        assert FromFragments(fs) == Merge(FromFragments(Fragments(init, index)), d);
      }
    }
  }

  /** However the provider interleaves the fragments of different calls, the same calls come out. */
  lemma InterleavingDoesNotMatter(a: seq<Delta>, b: seq<Delta>)
    requires forall i :: Fragments(a, i) == Fragments(b, i)
    ensures Assemble(a) == Assemble(b)
  {
    forall i
      ensures i in Assemble(a) <==> i in Assemble(b)
      ensures i in Assemble(a) ==> Assemble(a)[i] == Assemble(b)[i]
    {
      assert Fragments(a, i) == Fragments(b, i);
      AssembledFromOwnFragments(a, i);
      AssembledFromOwnFragments(b, i);
    }
  }

  lemma AssembleNext(before: seq<Delta>, deltas: seq<Delta>, k: nat)
    requires k < |deltas|
    ensures Assemble(before + deltas[..k + 1]) == Accumulate(Assemble(before + deltas[..k]), deltas[k])
  {
    var all := before + deltas[..k + 1];
    assert all[..|all| - 1] == before + deltas[..k];
  }

  // ---------------------------------------------------------------- the call

  datatype Outcome = Completed | Failed(ending: Ending)

  /** Nothing deliverable reached the caller. */
  ghost predicate Silent(a: Attempt) {
    AllPieces(a.chunks) == [] && AllDeltas(a.chunks) == []
  }

  lemma {:induction false} SilentExactlyWhenNothingArrived(chunks: seq<Chunk>)
    ensures AllPieces(chunks) == [] && AllDeltas(chunks) == [] <==>
      forall i :: 0 <= i < |chunks| ==> chunks[i].content == "" && chunks[i].reasoning == "" && chunks[i].toolCalls == []
  {
    if chunks != [] {
      var n := |chunks| - 1;
      SilentExactlyWhenNothingArrived(chunks[..n]);
      assert forall i :: 0 <= i < n ==> chunks[..n][i] == chunks[i];
    }
  }

  /** The attempt the caller's output comes from: the second exactly when the first failed in a
      retryable way before anything deliverable arrived. */
  ghost function Effective(first: Attempt, second: Attempt): Attempt {
    if first.ending == OtherFailure && Silent(first) then second else first
  }

  /** The second attempt serves the caller exactly when the first ended in a way that may be retried and none of
      its chunks had content, reasoning or a tool call; so the text that arrives is all of one attempt's. */
  lemma RetriedExactlyWhen(first: Attempt, second: Attempt)
    ensures var retried := first.ending == OtherFailure && forall i :: 0 <= i < |first.chunks| ==>
                first.chunks[i].content == "" && first.chunks[i].reasoning == "" && first.chunks[i].toolCalls == [];
      && (first.ending == OtherFailure && Silent(first) <==> retried)
      && var served := if retried then second else first;
         && Effective(first, second) == served
         && ContentOf(AllPieces(served.chunks)) == ContentSent(served.chunks)
         && ReasoningOf(AllPieces(served.chunks)) == ReasoningSent(served.chunks)
  {
    SilentExactlyWhenNothingArrived(first.chunks);
    PiecesCarryTheText(first.chunks);
    PiecesCarryTheText(second.chunks);
  }

  lemma {:induction false} NoDeltasNoCalls(deltas: seq<Delta>)
    ensures Assemble(deltas) == map[] <==> deltas == []
  {
    if deltas != [] {
      assert deltas[|deltas| - 1].index in Assemble(deltas);
    }
  }

  ghost predicate IsLeast(m: int, keys: set<int>) {
    m in keys && forall k :: k in keys ==> m <= k
  }

  lemma SomeKey(keys: set<int>)
    ensures keys == {} || exists x :: x in keys
  {
    if !exists x :: x in keys { assert keys == {}; }
  }

  lemma {:induction false} LeastKey(keys: set<int>)
    requires keys != {}
    ensures exists m :: IsLeast(m, keys)
  {
    SomeKey(keys);
    var x :| x in keys;
    var rest := keys - {x};
    if rest == {} {
      forall k | k in keys ensures x <= k { assert k != x ==> k in rest; }
      assert IsLeast(x, keys);
    } else {
      LeastKey(rest);
      var m :| IsLeast(m, rest);
      var least := if m < x then m else x;
      forall k | k in keys ensures least <= k { assert k != x ==> k in rest; }
      assert IsLeast(least, keys);
    }
  }

  /** `sorted(keys)`. */
  ghost function Sorted(keys: set<int>): seq<int> {
    if keys == {} then []
    else
      LeastKey(keys);
      var m :| IsLeast(m, keys);
      [m] + Sorted(keys - {m})
  }

  lemma {:induction false} SortedKeys(keys: set<int>)
    ensures forall k :: k in Sorted(keys) <==> k in keys
    ensures forall i, j :: 0 <= i < j < |Sorted(keys)| ==> Sorted(keys)[i] < Sorted(keys)[j]
  {
    if keys != {} {
      LeastKey(keys);
      var sorted := Sorted(keys);
      var m := sorted[0];
      var rest := keys - {m};
      assert IsLeast(m, keys) && sorted == [m] + Sorted(rest);
      SortedKeys(rest);
      forall k ensures k in sorted <==> k in keys {
        assert k in rest <==> k in keys && k != m;
      }
      forall i, j | 0 <= i < j < |sorted| ensures sorted[i] < sorted[j] {
        assert sorted[j] == Sorted(rest)[j - 1];
        if i == 0 { assert sorted[j] in rest; } else { assert sorted[i] == Sorted(rest)[i - 1]; }
      }
    }
  }

  /** The calls at the given indices, in that order. */
  function InOrder(calls: Calls, keys: seq<int>): seq<ToolCall> {
    if keys == [] then []
    else if keys[0] in calls then [calls[keys[0]]] + InOrder(calls, keys[1..])
    else InOrder(calls, keys[1..])
  }

  ghost function Published(calls: Calls): seq<ToolCall> {
    InOrder(calls, Sorted(calls.Keys))
  }

  /** The published list holds every assembled call once, by ascending index. */
  lemma PublishedMeaning(calls: Calls)
    ensures var keys := Sorted(calls.Keys);
      && |Published(calls)| == |keys|
      && (forall k :: k in keys <==> k in calls)
      && (forall i, j :: 0 <= i < j < |keys| ==> keys[i] < keys[j])
      && (forall i :: 0 <= i < |keys| ==> keys[i] in calls && Published(calls)[i] == calls[keys[i]])
  {
    SortedKeys(calls.Keys);
    assert forall k :: k in Sorted(calls.Keys) ==> k in calls;
    InOrderAt(calls, Sorted(calls.Keys));
  }

  lemma {:induction false} InOrderAt(calls: Calls, keys: seq<int>)
    requires forall k :: k in keys ==> k in calls
    ensures |InOrder(calls, keys)| == |keys|
    ensures forall i :: 0 <= i < |keys| ==> keys[i] in calls && InOrder(calls, keys)[i] == calls[keys[i]]
  {
    if keys != [] {
      var first := keys[0];
      assert first in keys;
      assert first in calls;
      InOrderAt(calls, keys[1..]);
    }
  }

  /** The list comprehension over the sorted keys: repeatedly the call with the least index left. */
  method PublishSorted(calls: Calls) returns (published: seq<ToolCall>)
    ensures published == Published(calls)
  {
    published := [];
    var left := calls.Keys;
    while left != {}
      invariant left <= calls.Keys
      invariant published + InOrder(calls, Sorted(left)) == Published(calls)
      decreases left
    {
      LeastKey(left);
      var m :| m in left && forall k :: k in left ==> m <= k;
      LeastIsFirst(left, m);
      assert Sorted(left)[1..] == Sorted(left - {m});
      published := published + [calls[m]];
      left := left - {m};
    }
  }

  lemma LeastIsFirst(keys: set<int>, m: int)
    requires IsLeast(m, keys)
    ensures Sorted(keys) == [m] + Sorted(keys - {m})
  {
    LeastKey(keys);
    var first := Sorted(keys)[0];
    assert IsLeast(first, keys);
  }

  /** The retry loop over the two requests the provider could be asked to serve. What reaches the caller
      comes from exactly one attempt, whole and in order; tool calls are assembled from that attempt's
      deltas alone and published only when it completes; at most two attempts are made. */
  method Stream(first: Attempt, second: Attempt)
    returns (yielded: seq<Piece>, published: seq<ToolCall>, outcome: Outcome, attempts: nat)
    ensures yielded == AllPieces(Effective(first, second).chunks)
    ensures published == if outcome == Completed then Published(Assemble(AllDeltas(Effective(first, second).chunks))) else []
    ensures outcome == if Effective(first, second).ending == Finished then Completed
                       else Failed(Effective(first, second).ending)
    ensures attempts == if first.ending == OtherFailure && Silent(first) then 2 else 1
  {
    yielded, published := [], [];
    var calls: Calls := map[];
    var contentChars, reasoningChars := 0, 0;
    var attempt := 0;
    while true
      invariant attempt <= 1
      invariant attempt == 1 ==> first.ending == OtherFailure && Silent(first)
      invariant yielded == [] && calls == map[] && contentChars == 0 && reasoningChars == 0
      decreases 1 - attempt
    {
      var current := if attempt == 0 then first else second;
      var i := 0;
      while i < |current.chunks|
        invariant 0 <= i <= |current.chunks|
        invariant yielded == AllPieces(current.chunks[..i])
        invariant calls == Assemble(AllDeltas(current.chunks[..i]))
        invariant contentChars >= 0 && reasoningChars >= 0
        invariant contentChars == 0 && reasoningChars == 0 <==> yielded == []
      {
        assert current.chunks[..i + 1][..i] == current.chunks[..i];
        var chunk := current.chunks[i];
        ghost var before := yielded;
        if chunk.content != "" {
          contentChars := contentChars + |chunk.content|;
          yielded := yielded + [Content(chunk.content)];
        }
        if chunk.reasoning != "" {
          reasoningChars := reasoningChars + |chunk.reasoning|;
          yielded := yielded + [Reasoning(chunk.reasoning)];
        }
        assert yielded == before + Pieces(chunk);
        calls := AccumulateAll(calls, AllDeltas(current.chunks[..i]), chunk.toolCalls);
        i := i + 1;
      }
      assert current.chunks[..i] == current.chunks;
      NoDeltasNoCalls(AllDeltas(current.chunks));
      if current.ending == OtherFailure {
        if attempt > 0 || contentChars > 0 || reasoningChars > 0 || calls != map[] {
          return yielded, [], Failed(OtherFailure), attempt + 1;
        }
        attempt := attempt + 1;
        contentChars, reasoningChars := 0, 0;
        continue;
      }
      if current.ending == ProviderFailure { return yielded, [], Failed(ProviderFailure), attempt + 1; }
      published := PublishSorted(calls);
      return yielded, published, Completed, attempt + 1;
    }
  }

  method AccumulateAll(calls: Calls, ghost before: seq<Delta>, deltas: seq<Delta>) returns (r: Calls)
    requires calls == Assemble(before)
    ensures r == Assemble(before + deltas)
  {
    r := calls;
    assert before + deltas[..0] == before;
    for k := 0 to |deltas|
      invariant r == Assemble(before + deltas[..k])
    {
      AssembleNext(before, deltas, k);
      var d := deltas[k];
      var tc := if d.index in r then r[d.index] else ToolCall(d.id, "", "");
      if d.id != "" { tc := tc.(id := d.id); }
      if d.name != "" { tc := tc.(name := d.name); }
      tc := tc.(arguments := tc.arguments + d.arguments);
      r := r[d.index := tc];
    }
    assert deltas[..|deltas|] == deltas;
  }
}
