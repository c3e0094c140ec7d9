/** The bounded, ordered set of tools offered to the model (server/toolkit/resolver.py). */
module Resolver {
  import opened Selection
  import opened Wrappers

  const DISCOVERY_TOOLS := ["discover_capabilities", "get_tool_definition"]

  function Elements(s: seq<string>): set<string> {
    set x | x in s
  }

  ghost predicate Distinct(s: seq<string>) {
    s == [] || (s[0] !in s[1..] && Distinct(s[1..]))
  }

  lemma {:induction false} DistinctAppend(s: seq<string>, x: string)
    requires Distinct(s) && x !in s
    ensures Distinct(s + [x])
  {
    if s == [] {
      assert s + [x] == [x];
    } else {
      DistinctAppend(s[1..], x);
      assert (s + [x])[1..] == s[1..] + [x];
    }
  }

  /** `small` keeps some elements of `big` and their order. */
  ghost predicate Subsequence(small: seq<string>, big: seq<string>) {
    if small == [] then true
    else if big == [] then false
    else if small[0] == big[0] then Subsequence(small[1..], big[1..])
    else Subsequence(small, big[1..])
  }

  // ---------------------------------------------------------------- ordered-dictionary operations

  function Without(s: seq<string>, x: string): (r: seq<string>)
    ensures forall y :: y in r <==> y in s && y != x
    ensures Distinct(s) ==> Distinct(r)
  {
    if s == [] then []
    else if s[0] == x then Without(s[1..], x)
    else [s[0]] + Without(s[1..], x)
  }

  lemma {:induction false} WithoutAbsent(s: seq<string>, x: string)
    requires x !in s
    ensures Without(s, x) == s
  {
    if s != [] { WithoutAbsent(s[1..], x); }
  }

  /** `move_to_end` when present, insertion at the end when absent. */
  function Touch(s: seq<string>, x: string): (r: seq<string>)
    ensures forall y :: y in r <==> y in s || y == x
    ensures Distinct(s) ==> Distinct(r)
  {
    assert Distinct(s) ==> Distinct(Without(s, x) + [x]) by {
      if Distinct(s) { DistinctAppend(Without(s, x), x); }
    }
    Without(s, x) + [x]
  }

  function TouchAll(s: seq<string>, names: seq<string>): (r: seq<string>)
    ensures forall y :: y in r <==> y in s || y in names
    ensures Distinct(s) ==> Distinct(r)
  {
    if names == [] then s
    else
      var init := TouchAll(s, names[..|names| - 1]);
      assert names == names[..|names| - 1] + [names[|names| - 1]];
      Touch(init, names[|names| - 1])
  }

  lemma TouchNext(s: seq<string>, names: seq<string>, i: nat)
    requires i < |names|
    ensures TouchAll(s, names[..i + 1]) == Touch(TouchAll(s, names[..i]), names[i])
  {
    assert names[..i + 1][..i] == names[..i];
  }

  // ---------------------------------------------------------------- eviction

  /** Number of names that eviction may remove. */
  function Free(s: seq<string>, keep: set<string>): (n: nat)
    ensures n <= |s|
  {
    if s == [] then 0 else (if s[0] in keep then 0 else 1) + Free(s[1..], keep)
  }

  /** Drop the `k` oldest names outside `keep`; the others keep their order. */
  function DropOldest(s: seq<string>, keep: set<string>, k: nat): (r: seq<string>)
    ensures forall y :: y in r ==> y in s
    ensures forall y :: y in s && y in keep ==> y in r
    ensures Distinct(s) ==> Distinct(r)
  {
    if s == [] || k == 0 then s
    else if s[0] in keep then [s[0]] + DropOldest(s[1..], keep, k)
    else DropOldest(s[1..], keep, k - 1)
  }

  function Min(a: nat, b: nat): nat { if a <= b then a else b }

  /** As many of the oldest free names go as the overflow asks for, or all free names. */
  function EvictTo(s: seq<string>, keep: set<string>, maxTools: nat): seq<string> {
    DropOldest(s, keep, Min(if |s| > maxTools then |s| - maxTools else 0, Free(s, keep)))
  }

  lemma {:induction false} DropOldestCounts(s: seq<string>, keep: set<string>, k: nat)
    requires k <= Free(s, keep)
    ensures |DropOldest(s, keep, k)| == |s| - k
    ensures Free(DropOldest(s, keep, k), keep) == Free(s, keep) - k
    ensures Subsequence(DropOldest(s, keep, k), s)
  {
    if s == [] {
    } else if k == 0 {
      SubsequenceSelf(s);
    } else if s[0] in keep {
      DropOldestCounts(s[1..], keep, k);
    } else {
      DropOldestCounts(s[1..], keep, k - 1);
      SubsequenceSkip(DropOldest(s[1..], keep, k - 1), s[1..], s[0]);
      assert [s[0]] + s[1..] == s;
    }
  }

  lemma {:induction false} SubsequenceSelf(s: seq<string>)
    ensures Subsequence(s, s)
  {
    if s != [] { SubsequenceSelf(s[1..]); }
  }

  lemma {:induction false} SubsequenceSkip(small: seq<string>, big: seq<string>, x: string)
    requires Subsequence(small, big)
    ensures Subsequence(small, [x] + big)
    decreases |big|, 1
  {
    assert ([x] + big)[1..] == big;
    if small != [] && small[0] == x {
      // small[1..] is also a subsequence of big
      SubsequenceTail(small, big);
    }
  }

  lemma {:induction false} SubsequenceTail(small: seq<string>, big: seq<string>)
    requires small != [] && Subsequence(small, big)
    ensures Subsequence(small[1..], big)
    decreases |big|, 0
  {
    if small[0] == big[0] {
      SubsequenceSkip(small[1..], big[1..], big[0]);
      assert [big[0]] + big[1..] == big;
    } else {
      SubsequenceTail(small, big[1..]);
      SubsequenceSkip(small[1..], big[1..], big[0]);
      assert [big[0]] + big[1..] == big;
    }
  }

  lemma {:induction false} DropOneMore(s: seq<string>, keep: set<string>, k: nat)
    ensures DropOldest(DropOldest(s, keep, k), keep, 1) == DropOldest(s, keep, k + 1)
  {
    if s == [] || k == 0 {
    } else if s[0] in keep {
      DropOneMore(s[1..], keep, k);
    } else {
      DropOneMore(s[1..], keep, k - 1);
    }
  }

  lemma {:induction false} DropFirstFree(s: seq<string>, keep: set<string>, i: nat)
    requires i < |s| && s[i] !in keep
    requires forall j :: 0 <= j < i ==> s[j] in keep
    ensures DropOldest(s, keep, 1) == s[..i] + s[i + 1..]
    ensures Free(s, keep) > 0
  {
    if i > 0 {
      var rest := s[1..];
      forall j | 0 <= j < i - 1 ensures rest[j] in keep { assert rest[j] == s[j + 1]; }
      DropFirstFree(rest, keep, i - 1);
      assert s[..i] + s[i + 1..] == [s[0]] + (rest[..i - 1] + rest[i..]);
    } else {
      assert s[..0] + s[1..] == s[1..];
    }
  }

  /** The eviction loop has dropped the oldest free names, and never more than the overflow asks for. */
  ghost predicate Evicting(start: seq<string>, keep: set<string>, maxTools: nat, dropped: nat, now: seq<string>) {
    && dropped <= Free(start, keep) && (dropped == 0 || |start| - dropped >= maxTools)
    && now == DropOldest(start, keep, dropped)
  }

  lemma EvictOneMore(start: seq<string>, keep: set<string>, maxTools: nat, dropped: nat, now: seq<string>, i: nat)
    requires Evicting(start, keep, maxTools, dropped, now) && |now| > maxTools
    requires i < |now| && now[i] !in keep && forall j :: 0 <= j < i ==> now[j] in keep
    ensures Evicting(start, keep, maxTools, dropped + 1, now[..i] + now[i + 1..])
  {
    DropOldestCounts(start, keep, dropped);
    DropFirstFree(now, keep, i);
    DropOneMore(start, keep, dropped);
  }

  lemma EvictionDone(start: seq<string>, keep: set<string>, maxTools: nat, dropped: nat, now: seq<string>)
    requires Evicting(start, keep, maxTools, dropped, now)
    requires |now| <= maxTools || forall j :: 0 <= j < |now| ==> now[j] in keep
    ensures now == EvictTo(start, keep, maxTools)
    ensures Distinct(start) ==> Distinct(now)
    ensures forall x :: x in now ==> x in start
  {
    DropOldestCounts(start, keep, dropped);
    if |now| > maxTools { NothingFree(now, keep); }
  }

  lemma {:induction false} NothingFree(s: seq<string>, keep: set<string>)
    requires forall j :: 0 <= j < |s| ==> s[j] in keep
    ensures Free(s, keep) == 0
  {
    if s != [] { NothingFree(s[1..], keep); }
  }

  lemma {:induction false} NoFreeMeansKept(s: seq<string>, keep: set<string>)
    requires Free(s, keep) == 0
    ensures forall x :: x in s ==> x in keep
  {
    if s != [] { NoFreeMeansKept(s[1..], keep); }
  }

  /** The oldest free names go first: a free name that stays is newer than every name that goes. */
  lemma {:induction false} OldestGoFirst(s: seq<string>, keep: set<string>, k: nat, i: nat, j: nat)
    requires Distinct(s) && i < j < |s|
    requires s[i] !in keep && s[i] in DropOldest(s, keep, k)
    ensures s[j] in DropOldest(s, keep, k)
  {
    if k == 0 {
    } else if s[0] in keep {
      assert s[1..][i - 1] == s[i] && s[1..][j - 1] == s[j];
      OldestGoFirst(s[1..], keep, k, i - 1, j - 1);
    } else if i == 0 {
      assert false;
    } else {
      assert s[1..][i - 1] == s[i] && s[1..][j - 1] == s[j];
      OldestGoFirst(s[1..], keep, k - 1, i - 1, j - 1);
    }
  }

  // ---------------------------------------------------------------- requests

  function RequestOne(active: seq<string>, name: string, alwaysOn: set<string>, maxTools: nat): seq<string> {
    if name in active then Touch(active, name) else EvictTo(active + [name], alwaysOn, maxTools)
  }

  function RequestBatch(active: seq<string>, names: seq<string>, alwaysOn: set<string>, maxTools: nat): seq<string> {
    EvictTo(TouchAll(active, names), alwaysOn + Elements(names), maxTools)
  }

  /** A batch strands none of its members, and evicts only when everything left over is needed. */
  lemma BatchKeepsItsMembers(active: seq<string>, names: seq<string>, alwaysOn: set<string>, maxTools: nat)
    requires Distinct(active)
    ensures var after := RequestBatch(active, names, alwaysOn, maxTools);
      && Distinct(after)
      && Subsequence(after, TouchAll(active, names))
      && (forall n :: n in names ==> n in after)
      && (forall n :: n in active && n in alwaysOn ==> n in after)
      && (|after| <= maxTools || forall n :: n in after ==> n in alwaysOn || n in names)
  {
    var touched := TouchAll(active, names);
    var keep := alwaysOn + Elements(names);
    var k := Min(if |touched| > maxTools then |touched| - maxTools else 0, Free(touched, keep));
    DropOldestCounts(touched, keep, k);
    if |RequestBatch(active, names, alwaysOn, maxTools)| > maxTools {
      NoFreeMeansKept(RequestBatch(active, names, alwaysOn, maxTools), keep);
    }
  }

  /** The documented bound "never more than max_tools" holds exactly when the protected names fit in it. */
  lemma BoundHoldsExactlyWhenProtectedFit(s: seq<string>, keep: set<string>, maxTools: nat)
    ensures |EvictTo(s, keep, maxTools)| <= maxTools <==> |s| - Free(s, keep) <= maxTools
  {
    DropOldestCounts(s, keep, Min(if |s| > maxTools then |s| - maxTools else 0, Free(s, keep)));
  }

  lemma {:induction false} FreeAppend(s: seq<string>, name: string, keep: set<string>)
    ensures Free(s + [name], keep) == Free(s, keep) + (if name in keep then 0 else 1)
  {
    if s == [] {
    } else {
      assert (s + [name])[1..] == s[1..] + [name];
      FreeAppend(s[1..], name, keep);
    }
  }

  lemma {:induction false} LastFreeSurvives(s: seq<string>, name: string, keep: set<string>, k: nat)
    requires name !in s && name !in keep && k <= Free(s, keep) + 1
    ensures name in DropOldest(s + [name], keep, k) <==> k <= Free(s, keep)
  {
    if s == [] {
    } else {
      assert (s + [name])[1..] == s[1..] + [name];
      if k == 0 {
        assert (s + [name])[|s|] == name;
      } else if s[0] in keep {
        LastFreeSurvives(s[1..], name, keep, k);
      } else {
        LastFreeSurvives(s[1..], name, keep, k - 1);
      }
    }
  }

  /** `request_tool` answers True for every registered name, but a new name that is not always on
      is active afterwards exactly when the always-on names leave room for one more. */
  lemma SingleRequestSurvives(active: seq<string>, name: string, alwaysOn: set<string>, maxTools: nat)
    requires Distinct(active)
    ensures name in RequestOne(active, name, alwaysOn, maxTools) <==>
      name in active || name in alwaysOn || |active| - Free(active, alwaysOn) < maxTools
  {
    if name in active {
    } else if name in alwaysOn {
      assert (active + [name])[|active|] == name;
    } else {
      FreshSurvives(active, name, alwaysOn, maxTools);
    }
  }

  lemma FreshSurvives(active: seq<string>, name: string, alwaysOn: set<string>, maxTools: nat)
    requires name !in active && name !in alwaysOn
    ensures name in EvictTo(active + [name], alwaysOn, maxTools) <==> |active| - Free(active, alwaysOn) < maxTools
  {
    var s := active + [name];
    FreeAppend(active, name, alwaysOn);
    var k := Min(if |s| > maxTools then |s| - maxTools else 0, Free(s, alwaysOn));
    LastFreeSurvives(active, name, alwaysOn, k);
  }

  /** A concrete stranding: one always-on tool fills the set, so the requested tool is gone on return. */
  lemma SingleRequestCanBeStranded()
    ensures "bash" !in RequestOne(["file_read"], "bash", {"file_read"}, 1)
  {
    SingleRequestSurvives(["file_read"], "bash", {"file_read"}, 1);
  }

  // ---------------------------------------------------------------- positions

  lemma {:induction false} WithoutPositions(s: seq<string>, x: string) returns (at: seq<nat>)
    ensures Picks(s, Without(s, x), at)
    ensures forall i: nat :: i < |s| ==> (i in at <==> s[i] != x)
  {
    if s == [] {
      at := [];
    } else {
      at := WithoutPositions(s[1..], x);
      assert s == [s[0]] + s[1..];
      if s[0] == x {
        PicksShift(s[1..], Without(s[1..], x), at, s[0]);
        at := Shift(at);
      } else {
        PicksPrepend(s[1..], Without(s[1..], x), at, s[0]);
        at := [0] + Shift(at);
      }
      forall i: nat | i < |s| ensures i in at <==> s[i] != x {
        if i > 0 { assert s[i] == s[1..][i - 1] && i == (i - 1) + 1; }
      }
    }
  }

  lemma {:induction false} DropPositions(s: seq<string>, keep: set<string>, k: nat) returns (at: seq<nat>)
    ensures Picks(s, DropOldest(s, keep, k), at)
  {
    if s == [] || k == 0 {
      PicksAll(s);
      at := seq(|s|, i requires 0 <= i < |s| => i);
    } else {
      assert s == [s[0]] + s[1..];
      if s[0] in keep {
        at := DropPositions(s[1..], keep, k);
        PicksPrepend(s[1..], DropOldest(s[1..], keep, k), at, s[0]);
        at := [0] + Shift(at);
      } else {
        at := DropPositions(s[1..], keep, k - 1);
        PicksShift(s[1..], DropOldest(s[1..], keep, k - 1), at, s[0]);
        at := Shift(at);
      }
    }
  }

  /** Eviction keeps the order of what it leaves. */
  lemma EvictPositions(s: seq<string>, keep: set<string>, maxTools: nat) returns (at: seq<nat>)
    ensures Picks(s, EvictTo(s, keep, maxTools), at)
  {
    at := DropPositions(s, keep, Min(if |s| > maxTools then |s| - maxTools else 0, Free(s, keep)));
  }

  /** A request of an active tool makes it the newest, and all others keep their order. */
  lemma RequestedBecomesNewest(active: seq<string>, name: string, alwaysOn: set<string>, maxTools: nat) returns (at: seq<nat>)
    requires name in active
    ensures var after := RequestOne(active, name, alwaysOn, maxTools);
      && after != [] && after[|after| - 1] == name
      && Picks(active, after[..|after| - 1], at)
      && forall i: nat :: i < |active| ==> (i in at <==> active[i] != name)
  {
    at := WithoutPositions(active, name);
    assert (Without(active, name) + [name])[..|Without(active, name)|] == Without(active, name);
  }

  /** A request of a new tool puts it behind all others, which keep their order, before any eviction; if it stays
      it is the newest. */
  lemma NewToolIsNewest(active: seq<string>, name: string, alwaysOn: set<string>, maxTools: nat) returns (at: seq<nat>)
    requires name !in active
    ensures var after := RequestOne(active, name, alwaysOn, maxTools);
      && Picks(active + [name], after, at)
      && (name in after ==> after[|after| - 1] == name)
  {
    var s := active + [name];
    at := EvictPositions(s, alwaysOn, maxTools);
    NewestIsLast(active, name, EvictTo(s, alwaysOn, maxTools), at);
  }

  lemma NewestIsLast(active: seq<string>, name: string, after: seq<string>, at: seq<nat>)
    requires name !in active && Picks(active + [name], after, at)
    ensures name in after ==> after[|after| - 1] == name
  {
    if name in after {
      var j :| 0 <= j < |after| && after[j] == name;
      assert (active + [name])[at[j]] == name;
      LastPick(active + [name], after, at, j);
    }
  }

  /** Position of the last mention of a name in a batch. */
  ghost predicate IsLastMention(names: seq<string>, p: int, x: string) {
    0 <= p < |names| && names[p] == x && forall q :: p < q < |names| ==> names[q] != x
  }

  /** What a batch says about the order of two active tools: requested ones come after the others, in the order of
      their last mention, and the others keep the order they had. */
  ghost predicate Precedes(active: seq<string>, names: seq<string>, x: string, y: string) {
    if y in names then
      x !in names || exists p, q :: p < q && IsLastMention(names, p, x) && IsLastMention(names, q, y)
    else
      x !in names && exists p, q :: 0 <= p < q < |active| && active[p] == x && active[q] == y
  }

  lemma {:induction false} SomeLastMention(names: seq<string>, x: string) returns (p: int)
    requires x in names
    ensures IsLastMention(names, p, x)
  {
    var last := |names| - 1;
    if names[last] == x {
      p := last;
    } else {
      assert x in names[..last];
      p := SomeLastMention(names[..last], x);
    }
  }

  lemma MentionedMore(names: seq<string>, p: int, x: string, n: string)
    requires IsLastMention(names, p, x) && x != n
    ensures IsLastMention(names + [n], p, x)
  {
  }

  lemma PrecedesMore(active: seq<string>, names: seq<string>, n: string, x: string, y: string)
    requires Precedes(active, names, x, y) && x != n && y != n
    ensures Precedes(active, names + [n], x, y)
  {
    assert x in names + [n] <==> x in names;
    assert y in names + [n] <==> y in names;
    if y in names && x in names {
      var p, q :| p < q && IsLastMention(names, p, x) && IsLastMention(names, q, y);
      MentionedMore(names, p, x, n);
      MentionedMore(names, q, y, n);
    }
  }

  lemma LastPrecedes(active: seq<string>, names: seq<string>, n: string, x: string)
    requires x != n
    ensures Precedes(active, names + [n], x, n)
  {
    var all := names + [n];
    assert IsLastMention(all, |names|, n) && n in all;
    if x in all {
      assert x in names;
      var p := SomeLastMention(names, x);
      MentionedMore(names, p, x, n);
    }
  }

  lemma {:induction false} TouchedPrecede(active: seq<string>, names: seq<string>, i: nat, j: nat)
    requires Distinct(active) && i < j < |TouchAll(active, names)|
    ensures Precedes(active, names, TouchAll(active, names)[i], TouchAll(active, names)[j])
    decreases |names|
  {
    if names != [] {
      var init, n := names[..|names| - 1], names[|names| - 1];
      var s := TouchAll(active, init);
      var at := WithoutPositions(s, n);
      var w := Without(s, n);
      assert TouchAll(active, names) == w + [n] && names == init + [n];
      assert w[i] in w;
      if j == |w| {
        LastPrecedes(active, init, n, w[i]);
      } else {
        assert w[j] in w;
        TouchedPrecede(active, init, at[i], at[j]);
        PrecedesMore(active, init, n, w[i], w[j]);
      }
    }
  }

  /** After a batch every requested tool stands after every other one that survived, the requested ones in the
      order of their last mention, the others in the order they had. */
  lemma BatchOrder(active: seq<string>, names: seq<string>, alwaysOn: set<string>, maxTools: nat, i: nat, j: nat)
    requires Distinct(active) && i < j < |RequestBatch(active, names, alwaysOn, maxTools)|
    ensures var after := RequestBatch(active, names, alwaysOn, maxTools);
      Precedes(active, names, after[i], after[j])
  {
    var at := EvictPositions(TouchAll(active, names), alwaysOn + Elements(names), maxTools);
    PickedPrecede(active, names, TouchAll(active, names), RequestBatch(active, names, alwaysOn, maxTools), at, i, j);
  }

  lemma PickedPrecede(active: seq<string>, names: seq<string>, s: seq<string>, part: seq<string>, at: seq<nat>, i: nat, j: nat)
    requires Distinct(active) && s == TouchAll(active, names) && Picks(s, part, at) && i < j < |part|
    ensures Precedes(active, names, part[i], part[j])
  {
    TouchedPrecede(active, names, at[i], at[j]);
  }

  // ---------------------------------------------------------------- whole runs

  datatype Request = One(name: string) | Batch(names: seq<string>)

  function Step(active: seq<string>, q: Request, alwaysOn: set<string>, maxTools: nat): seq<string> {
    match q
    case One(name) => RequestOne(active, name, alwaysOn, maxTools)
    case Batch(names) => RequestBatch(active, names, alwaysOn, maxTools)
  }

  function Run(active: seq<string>, qs: seq<Request>, alwaysOn: set<string>, maxTools: nat): seq<string> {
    if qs == [] then active
    else Step(Run(active, qs[..|qs| - 1], alwaysOn, maxTools), qs[|qs| - 1], alwaysOn, maxTools)
  }

  function Mentioned(q: Request): set<string> {
    match q case One(name) => {name} case Batch(names) => Elements(names)
  }

  lemma StepKeepsAlwaysOn(active: seq<string>, q: Request, alwaysOn: set<string>, maxTools: nat)
    requires Distinct(active)
    ensures Distinct(Step(active, q, alwaysOn, maxTools))
    ensures forall n :: n in active && n in alwaysOn ==> n in Step(active, q, alwaysOn, maxTools)
    ensures forall n :: n in Step(active, q, alwaysOn, maxTools) ==> n in active || n in Mentioned(q)
    ensures |Step(active, q, alwaysOn, maxTools)| <= maxTools
            || |Step(active, q, alwaysOn, maxTools)| == |active|
            || forall n :: n in Step(active, q, alwaysOn, maxTools) ==> n in alwaysOn || n in Mentioned(q)
  {
    match q
    case Batch(names) =>
      BatchKeepsItsMembers(active, names, alwaysOn, maxTools);
    case One(name) =>
      if name in active {
        TouchLength(active, name);
      } else {
        DistinctAppend(active, name);
        var s := active + [name];
        var k := Min(if |s| > maxTools then |s| - maxTools else 0, Free(s, alwaysOn));
        DropOldestCounts(s, alwaysOn, k);
        if |EvictTo(s, alwaysOn, maxTools)| > maxTools {
          NoFreeMeansKept(EvictTo(s, alwaysOn, maxTools), alwaysOn);
        }
      }
  }

  lemma {:induction false} TouchLength(s: seq<string>, x: string)
    requires Distinct(s) && x in s
    ensures |Touch(s, x)| == |s|
  {
    if s[0] == x {
      assert x !in s[1..];
      WithoutAbsent(s[1..], x);
    } else {
      TouchLength(s[1..], x);
    }
  }

  /** Over any run of requests an active always-on tool stays active, no name appears twice,
      and every active name was active at the start or asked for. */
  lemma {:induction false} AlwaysOnIsNeverEvicted(active: seq<string>, qs: seq<Request>, alwaysOn: set<string>, maxTools: nat)
    requires Distinct(active)
    ensures Distinct(Run(active, qs, alwaysOn, maxTools))
    ensures forall n :: n in active && n in alwaysOn ==> n in Run(active, qs, alwaysOn, maxTools)
    ensures forall n :: n in Run(active, qs, alwaysOn, maxTools) ==>
              n in active || exists i :: 0 <= i < |qs| && n in Mentioned(qs[i])
  {
    if qs != [] {
      var init := qs[..|qs| - 1];
      AlwaysOnIsNeverEvicted(active, init, alwaysOn, maxTools);
      StepKeepsAlwaysOn(Run(active, init, alwaysOn, maxTools), qs[|qs| - 1], alwaysOn, maxTools);
      forall n | n in Run(active, qs, alwaysOn, maxTools) && n !in active
        ensures exists i :: 0 <= i < |qs| && n in Mentioned(qs[i])
      {
        if n !in Mentioned(qs[|qs| - 1]) {
          var i :| 0 <= i < |init| && n in Mentioned(init[i]);
          assert n in Mentioned(qs[i]);
        }
      }
    }
  }

  // ---------------------------------------------------------------- the class

  class SchemaResolver {
    const registry: Option<set<string>>
    const alwaysOn: set<string>
    const maxTools: nat
    var active: seq<string>

    ghost predicate Valid()
      reads this
    {
      Distinct(active) && forall n :: n in active ==> registry.Some? && n in registry.value
    }

    predicate Known(name: string) {
      registry.Some? && name in registry.value
    }

    /** Every registered seed tool is always on, so seeding evicts none of them. */
    constructor (registry: Option<set<string>>, seed: seq<string>, maxTools: nat)
      ensures Valid()
      ensures this.registry == registry && this.maxTools == maxTools
      ensures this.alwaysOn == Elements(DISCOVERY_TOOLS) + Elements(seed)
      ensures forall n :: n in active <==> n in seed && registry.Some? && n in registry.value
    {
      this.registry := registry;
      this.alwaysOn := Elements(DISCOVERY_TOOLS) + Elements(seed);
      this.maxTools := maxTools;
      this.active := [];
      new;
      for i := 0 to |seed|
        invariant Valid()
        invariant forall n :: n in active <==> n in seed[..i] && Known(n)
      {
        var before := active;
        var known := RequestTool(seed[i]);
        StepKeepsAlwaysOn(before, One(seed[i]), alwaysOn, maxTools);
        if known { SingleRequestSurvives(before, seed[i], alwaysOn, maxTools); }
        assert seed[..i + 1] == seed[..i] + [seed[i]];
      }
    }

    method RequestTool(name: string) returns (known: bool)
      requires Valid()
      modifies this`active
      ensures Valid()
      ensures known <==> registry.Some? && name in registry.value
      ensures active == if known then RequestOne(old(active), name, alwaysOn, maxTools) else old(active)
    {
      if !Known(name) { return false; }
      if name in active {
        active := Touch(active, name);
        return true;
      }
      DistinctAppend(active, name);
      active := active + [name];
      Evict({});
      assert alwaysOn + {} == alwaysOn;
      return true;
    }

    method RequestTools(names: seq<string>) returns (survivors: seq<string>)
      requires Valid()
      modifies this`active
      ensures Valid()
      ensures registry.None? ==> survivors == [] && active == old(active)
      ensures registry.Some? ==>
                && survivors == Registered(names)
                && active == RequestBatch(old(active), survivors, alwaysOn, maxTools)
    {
      if registry.None? { return []; }
      var requested := Registered(names);
      for i := 0 to |requested|
        invariant Valid()
        invariant active == TouchAll(old(active), requested[..i])
      {
        TouchNext(old(active), requested, i);
        assert Known(requested[i]) by { assert requested[i] in requested; }
        active := Touch(active, requested[i]);
      }
      assert requested[..|requested|] == requested;
      Evict(Elements(requested));
      BatchKeepsItsMembers(old(active), requested, alwaysOn, maxTools);
      survivors := Active(requested);
      ActiveAll(requested);
    }

    function Active(names: seq<string>): seq<string>
      reads this`active
    {
      if names == [] then []
      else (if names[0] in active then [names[0]] else []) + Active(names[1..])
    }

    lemma {:induction false} ActiveAll(names: seq<string>)
      requires forall n :: n in names ==> n in active
      ensures Active(names) == names
    {
      if names != [] { ActiveAll(names[1..]); }
    }

    /** The registered names are those asked for, in order, repeats included. */
    lemma {:induction false} RegisteredPositions(names: seq<string>) returns (at: seq<nat>)
      ensures Picks(names, Registered(names), at)
      ensures forall i: nat :: i < |names| ==> (i in at <==> registry.Some? && names[i] in registry.value)
    {
      if names == [] {
        at := [];
      } else {
        at := RegisteredPositions(names[1..]);
        assert names == [names[0]] + names[1..];
        if Known(names[0]) {
          PicksPrepend(names[1..], Registered(names[1..]), at, names[0]);
          at := [0] + Shift(at);
        } else {
          PicksShift(names[1..], Registered(names[1..]), at, names[0]);
          assert Registered(names) == Registered(names[1..]);
          at := Shift(at);
        }
        forall i: nat | i < |names| ensures i in at <==> Known(names[i]) {
          if i > 0 { assert names[i] == names[1..][i - 1] && i == (i - 1) + 1; }
        }
      }
    }

    function Registered(names: seq<string>): (r: seq<string>)
      ensures forall n :: n in r <==> n in names && Known(n)
    {
      if names == [] then []
      else (if Known(names[0]) then [names[0]] else []) + Registered(names[1..])
    }

    /** The inner loop: the first name that may go, or the end. */
    static method OldestFree(names: seq<string>, keep: set<string>) returns (i: nat)
      ensures i <= |names| && (forall j :: 0 <= j < i ==> names[j] in keep)
      ensures i < |names| ==> names[i] !in keep
    {
      i := 0;
      while i < |names| && names[i] in keep
        invariant i <= |names|
        invariant forall j :: 0 <= j < i ==> names[j] in keep
      {
        i := i + 1;
      }
    }

    method Evict(protected: set<string>)
      requires Valid()
      modifies this`active
      ensures Valid()
      ensures active == EvictTo(old(active), alwaysOn + protected, maxTools)
    {
      var keep := alwaysOn + protected;
      ghost var start := active;
      ghost var dropped: nat := 0;
      while |active| > maxTools
        invariant Evicting(start, keep, maxTools, dropped, active)
        decreases |active|
      {
        var i := OldestFree(active, keep);
        if i == |active| { break; }
        EvictOneMore(start, keep, maxTools, dropped, active, i);
        active := active[..i] + active[i + 1..];
        dropped := dropped + 1;
      }
      EvictionDone(start, keep, maxTools, dropped, active);
    }
  }
}
