/** Peeling repeated suffix blocks off reasoning text (server/agents/llm_stream.py). */
module ReasoningDedup {
  import opened Wrappers

  const BLOCK_STEP := 50

  predicate OccursAt(text: string, pat: string, idx: nat) {
    idx + |pat| <= |text| && text[idx..idx + |pat|] == pat
  }

  /** `text.rfind(pat, 0, end)`: the last occurrence that ends by `end`. */
  function RFind(text: string, pat: string, end: nat): (r: Option<nat>)
    requires end <= |text|
    ensures r.Some? ==> r.value + |pat| <= end
    decreases end
  {
    if end < |pat| then None
    else if OccursAt(text, pat, end - |pat|) then Some(end - |pat|)
    else if end == |pat| then None
    else RFind(text, pat, end - 1)
  }

  lemma {:induction false} RFindIsLast(text: string, pat: string, end: nat)
    requires end <= |text|
    ensures var r := RFind(text, pat, end);
      && (r.Some? ==> OccursAt(text, pat, r.value))
      && (r.Some? ==> forall i: nat :: r.value < i && i + |pat| <= end ==> !OccursAt(text, pat, i))
      && (r.None? ==> forall i: nat :: i + |pat| <= end ==> !OccursAt(text, pat, i))
    decreases end
  {
    if end > |pat| && !OccursAt(text, pat, end - |pat|) { RFindIsLast(text, pat, end - 1); }
  }

  /** A probed block size: reachable by the range loop and at most half the text. */
  ghost predicate Probed(len: nat, minBlock: nat, size: nat) {
    && minBlock <= size <= len / 2
    && (size - minBlock) % BLOCK_STEP == 0
  }

  function Tail(text: string, size: nat): string
    requires size <= |text|
  {
    text[|text| - size..]
  }

  /** The last earlier, non-overlapping copy of the final `size` characters. */
  function Repeat(text: string, size: nat): Option<nat>
    requires size <= |text|
  {
    RFind(text, Tail(text, size), |text| - size)
  }

  function PeelFrom(text: string, minBlock: nat, size: nat): (r: Option<string>)
    requires 0 < minBlock <= size
    ensures r.Some? ==> |r.value| < |text|
    decreases |text| - size
  {
    if size > |text| / 2 then None
    else
      match Repeat(text, size)
      case Some(idx) => Some(text[..idx + size])
      case None => PeelFrom(text, minBlock, size + BLOCK_STEP)
  }

  lemma NextProbe(minBlock: nat, size: nat, b: nat)
    requires minBlock <= size <= b && (size - minBlock) % BLOCK_STEP == 0 && (b - minBlock) % BLOCK_STEP == 0
    ensures b == size || size + BLOCK_STEP <= b
  {
  }

  /** The scan finds nothing exactly when no probed size repeats; what it finds is a peel. */
  lemma {:induction false} PeelFromMeaning(text: string, minBlock: nat, size: nat)
    requires 0 < minBlock <= size && (size - minBlock) % BLOCK_STEP == 0
    ensures var r := PeelFrom(text, minBlock, size);
      && (r.None? <==> forall b :: size <= b && Probed(|text|, minBlock, b) ==> Repeat(text, b).None?)
      && (r.Some? ==> exists b :: size <= b && Probed(|text|, minBlock, b) && IsPeel(text, b, r.value))
    decreases |text| - size
  {
    if size <= |text| / 2 {
      assert Probed(|text|, minBlock, size);
      if Repeat(text, size).Some? {
        assert IsPeel(text, size, text[..Repeat(text, size).value + size]);
      } else {
        PeelFromMeaning(text, minBlock, size + BLOCK_STEP);
        forall b | size <= b && Probed(|text|, minBlock, b) ensures b == size || size + BLOCK_STEP <= b {
          NextProbe(minBlock, size, b);
        }
      }
    }
  }

  /** One peel: cut right after the last earlier copy of the final block. */
  ghost predicate IsPeel(text: string, size: nat, cut: string) {
    && size <= |text|
    && Repeat(text, size).Some?
    && cut == text[..Repeat(text, size).value + size]
  }

  /** What remains when peeling is repeated until nothing more can be peeled. */
  function Dedup(text: string, minBlock: nat): string
    requires minBlock > 0
    decreases |text|
  {
    match PeelFrom(text, minBlock, minBlock)
    case None => text
    case Some(cut) => Dedup(cut, minBlock)
  }

  lemma PeelKeepsTail(text: string, minBlock: nat, size: nat, cut: string)
    requires 0 < minBlock <= size && IsPeel(text, size, cut)
    ensures |cut| < |text| && cut <= text
    ensures size <= |cut| && Tail(cut, minBlock) == Tail(text, minBlock)
  {
    RFindIsLast(text, Tail(text, size), |text| - size);
    var idx := Repeat(text, size).value;
    var n := |text|;
    var block := Tail(text, size);
    assert text[idx..idx + size] == block;
    var skip := size - minBlock;
    forall k | 0 <= k < minBlock ensures Tail(cut, minBlock)[k] == Tail(text, minBlock)[k] {
      assert block[skip + k] == text[idx..idx + size][skip + k];
    }
  }

  /** The result is a prefix of the input that still ends with its last `minBlock` characters,
      and no probed block size finds an earlier copy of the result's tail. */
  lemma {:induction false} DedupIsStablePrefix(text: string, minBlock: nat)
    requires minBlock > 0
    ensures var out := Dedup(text, minBlock);
      && out <= text
      && (|text| >= minBlock ==> |out| >= minBlock && Tail(out, minBlock) == Tail(text, minBlock))
      && (forall b :: Probed(|out|, minBlock, b) ==> Repeat(out, b).None?)
      && Dedup(out, minBlock) == out
    decreases |text|
  {
    PeelFromMeaning(text, minBlock, minBlock);
    match PeelFrom(text, minBlock, minBlock)
    case None =>
    case Some(cut) =>
      var b :| minBlock <= b && Probed(|text|, minBlock, b) && IsPeel(text, b, cut);
      PeelKeepsTail(text, minBlock, b, cut);
      DedupIsStablePrefix(cut, minBlock);
  }

  /** A peel removes exactly one copy of the block when the earlier copy is adjacent, and otherwise also removes
      the text between the copies. */
  lemma PeelRemovesOnlyACopyExactlyWhenAdjacent(text: string, size: nat, cut: string)
    requires size > 0 && IsPeel(text, size, cut)
    ensures text == cut + Tail(text, size) <==> Repeat(text, size).value + 2 * size == |text|
  {
    var idx := Repeat(text, size).value;
    if idx + 2 * size == |text| {
      assert cut == text[..|text| - size];
    } else {
      assert |cut + Tail(text, size)| < |text|;
    }
  }

  /** The block size at which the scan peels. */
  function PeelSize(text: string, minBlock: nat, size: nat): (b: nat)
    requires 0 < minBlock <= size && PeelFrom(text, minBlock, size).Some?
    ensures size <= b
    decreases |text| - size
  {
    if Repeat(text, size).Some? then size else PeelSize(text, minBlock, size + BLOCK_STEP)
  }

  lemma {:induction false} PeelHasSize(text: string, minBlock: nat, size: nat)
    requires 0 < minBlock <= size && PeelFrom(text, minBlock, size).Some?
    ensures IsPeel(text, PeelSize(text, minBlock, size), PeelFrom(text, minBlock, size).value)
    decreases |text| - size
  {
    if Repeat(text, size).None? { PeelHasSize(text, minBlock, size + BLOCK_STEP); }
  }

  /** It is the smallest probed size whose final block occurs earlier. */
  lemma {:induction false} PeelSizeIsLeast(text: string, minBlock: nat, size: nat, b: nat)
    requires 0 < minBlock <= size && (size - minBlock) % BLOCK_STEP == 0 && PeelFrom(text, minBlock, size).Some?
    requires size <= b < PeelSize(text, minBlock, size) && Probed(|text|, minBlock, b)
    ensures Repeat(text, b).None?
    decreases |text| - size
  {
    if b != size {
      NextProbe(minBlock, size, b);
      PeelSizeIsLeast(text, minBlock, size + BLOCK_STEP, b);
    }
  }

  /** The final blocks that repeated peeling takes as copies, in the order they stand in the text. */
  function Blocks(text: string, minBlock: nat): seq<string>
    requires minBlock > 0
    decreases |text|
  {
    match PeelFrom(text, minBlock, minBlock)
    case None => []
    case Some(cut) =>
      PeelHasSize(text, minBlock, minBlock);
      Blocks(cut, minBlock) + [Tail(text, PeelSize(text, minBlock, minBlock))]
  }

  function Concat(blocks: seq<string>): string {
    if blocks == [] then "" else Concat(blocks[..|blocks| - 1]) + blocks[|blocks| - 1]
  }

  /** In every peel on the way the earlier copy ends where the final block starts. */
  predicate AllAdjacent(text: string, minBlock: nat)
    requires minBlock > 0
    decreases |text|
  {
    match PeelFrom(text, minBlock, minBlock)
    case None => true
    case Some(cut) =>
      PeelHasSize(text, minBlock, minBlock);
      var size := PeelSize(text, minBlock, minBlock);
      Repeat(text, size).value + 2 * size == |text| && AllAdjacent(cut, minBlock)
  }

  lemma PeelLength(text: string, size: nat, cut: string)
    requires IsPeel(text, size, cut)
    ensures |cut| + size <= |text|
    ensures |cut| + size == |text| <==> Repeat(text, size).value + 2 * size == |text|
  {
  }

  lemma ConcatSnoc(blocks: seq<string>, block: string)
    ensures Concat(blocks + [block]) == Concat(blocks) + block
  {
    assert (blocks + [block])[..|blocks|] == blocks;
  }

  /** Peeling removes at least as much as the blocks it takes, and exactly as much when all peels are adjacent. */
  lemma {:induction false} DedupLength(text: string, minBlock: nat)
    requires minBlock > 0
    ensures |Dedup(text, minBlock)| + |Concat(Blocks(text, minBlock))| <= |text|
    ensures |Dedup(text, minBlock)| + |Concat(Blocks(text, minBlock))| == |text| <==> AllAdjacent(text, minBlock)
    decreases |text|
  {
    match PeelFrom(text, minBlock, minBlock)
    case None =>
    case Some(cut) =>
      PeelHasSize(text, minBlock, minBlock);
      var size := PeelSize(text, minBlock, minBlock);
      PeelLength(text, size, cut);
      DedupLength(cut, minBlock);
      ConcatSnoc(Blocks(cut, minBlock), Tail(text, size));
  }

  /** The docstring speaks of removing duplicates only. The whole function does exactly that, so that the input
      is its result followed by nothing but the repeated blocks it took, exactly when every peel is adjacent. */
  lemma {:induction false} DedupRemovesOnlyCopiesExactlyWhenAdjacent(text: string, minBlock: nat)
    requires minBlock > 0
    ensures text == Dedup(text, minBlock) + Concat(Blocks(text, minBlock)) <==> AllAdjacent(text, minBlock)
    decreases |text|
  {
    DedupLength(text, minBlock);
    match PeelFrom(text, minBlock, minBlock)
    case None =>
    case Some(cut) =>
      if AllAdjacent(text, minBlock) {
        PeelHasSize(text, minBlock, minBlock);
        var size := PeelSize(text, minBlock, minBlock);
        DedupRemovesOnlyCopiesExactlyWhenAdjacent(cut, minBlock);
        PeelRemovesOnlyACopyExactlyWhenAdjacent(text, size, cut);
        ConcatSnoc(Blocks(cut, minBlock), Tail(text, size));
        assert text == Dedup(cut, minBlock) + (Concat(Blocks(cut, minBlock)) + Tail(text, size));
      }
  }

  /** Each block taken is the text just before it was cut off, so it really is a copy of what is kept so far. */
  lemma BlockIsACopy(text: string, minBlock: nat)
    requires minBlock > 0 && PeelFrom(text, minBlock, minBlock).Some?
    ensures var cut, blocks := PeelFrom(text, minBlock, minBlock).value, Blocks(text, minBlock);
      && blocks != [] && blocks[..|blocks| - 1] == Blocks(cut, minBlock)
      && var block := blocks[|blocks| - 1];
         minBlock <= |block| <= |cut| && Tail(text, |block|) == block && Tail(cut, |block|) == block
  {
    PeelHasSize(text, minBlock, minBlock);
    var cut := PeelFrom(text, minBlock, minBlock).value;
    var size := PeelSize(text, minBlock, minBlock);
    RFindIsLast(text, Tail(text, size), |text| - size);
  }

  /** An occurrence inside the front part of a text is an occurrence in that part. */
  lemma OccursInFront(front: string, rest: string, pat: string, i: nat)
    requires i + |pat| <= |front|
    ensures OccursAt(front + rest, pat, i) <==> OccursAt(front, pat, i)
  {
    assert (front + rest)[i..i + |pat|] == front[i..i + |pat|];
  }

  ghost predicate NoOtherCopy(text: string, pat: string) {
    forall i: nat :: 0 < i && i + |pat| <= |text| ==> !OccursAt(text, pat, i)
  }

  /** The search before the final copy finds the copy at the start and no other. */
  lemma OnlyFirstCopy(block: string, middle: string)
    requires block != "" && NoOtherCopy(block + middle, block)
    ensures RFind(block + middle + block, block, |block + middle|) == Some(0)
  {
    var front := block + middle;
    var text := front + block;
    RFindIsLast(text, block, |front|);
    OccursInFront(front, block, block, 0);
    assert front[0..|block|] == block;
    var r := RFind(text, block, |front|);
    if r.Some? && r.value > 0 { OccursInFront(front, block, block, r.value); }
  }

  lemma LastBlock(front: string, block: string)
    ensures Tail(front + block, |block|) == block
  {
  }

  /** Unique text between two copies of a block of `minBlock` characters is lost, whatever it says. */
  lemma UniqueMiddleIsLost(block: string, middle: string, minBlock: nat)
    requires |block| == minBlock > 0 && NoOtherCopy(block + middle, block)
    ensures Dedup(block + middle + block, minBlock) == block
  {
    var text := block + middle + block;
    assert Repeat(text, minBlock) == Some(0) by {
      LastBlock(block + middle, block);
      OnlyFirstCopy(block, middle);
    }
    assert text[..minBlock] == block;
    PeelDedup(text, minBlock, block);
    assert PeelFrom(block, minBlock, minBlock) == None;
  }

  lemma PeelDedup(text: string, minBlock: nat, cut: string)
    requires minBlock > 0 && PeelFrom(text, minBlock, minBlock) == Some(cut)
    ensures |cut| < |text| && Dedup(text, minBlock) == Dedup(cut, minBlock)
  {
  }

  /** The inner loop: the first probed block size whose tail occurs earlier. */
  method PeelOnce(text: string, minBlock: nat) returns (cut: Option<string>)
    requires minBlock > 0
    ensures cut == PeelFrom(text, minBlock, minBlock)
  {
    var half := |text| / 2;
    var size := minBlock;
    while size <= half
      invariant minBlock <= size
      invariant PeelFrom(text, minBlock, size) == PeelFrom(text, minBlock, minBlock)
      decreases half + BLOCK_STEP - size
    {
      var tail := text[|text| - size..];
      var searchEnd := |text| - size;
      if searchEnd >= size {
        var idx := RFind(text, tail, searchEnd);
        assert idx == Repeat(text, size);
        if idx.Some? { return Some(text[..idx.value + size]); }
      }
      size := size + BLOCK_STEP;
    }
    return None;
  }

  method Deduplicate(input: string, minBlock: nat) returns (text: string)
    requires minBlock > 0
    ensures text == Dedup(input, minBlock)
  {
    text := input;
    if |text| < minBlock * 2 { return; }
    var prevLen := |text| + 1;
    while |text| < prevLen
      invariant |text| <= prevLen
      invariant Dedup(text, minBlock) == Dedup(input, minBlock)
      invariant |text| == prevLen ==> PeelFrom(text, minBlock, minBlock) == None
      decreases prevLen
    {
      prevLen := |text|;
      var cut := PeelOnce(text, minBlock);
      if cut.Some? {
        PeelDedup(text, minBlock, cut.value);
        text := cut.value;
      }
    }
  }
}
