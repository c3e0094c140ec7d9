/** Tool-dispatch guards of one turn (server/agents/simple_loop.py, 928-1179). */
module TurnGuards {
  import opened Wrappers

  /** Tools the guards know by name, and all others. */
  datatype Tool =
    | FileRead | FileWrite | FileEdit | FileDelete | ApplyPatch
    | Glob | Grep | DirList | ListDir | Bash | OtherTool(name: string)

  /** Tools whose calls may be repeated after a mutation. */
  predicate Rerunnable(t: Tool) { t.Glob? || t.Grep? || t.DirList? || t.ListDir? || t.Bash? }

  predicate Mutates(t: Tool) { t.FileWrite? || t.FileEdit? || t.FileDelete? || t.ApplyPatch? }

  /** Tool name and serialized parameters: what makes two calls the same call. */
  datatype Sig = Sig(tool: Tool, params: string)

  /** A validated call. `target` is its file path parameter, `readPath` the path a read asks for; empty when absent. */
  datatype Call = Call(sig: Sig, target: string, readPath: string)

  /** What the surroundings answer while the call is handled. */
  datatype Answers = Answers(
    substantiveAnswer: bool,   // the turn already shows the user a real answer
    statWorks: bool, cached: bool,
    rejected: bool, replayed: bool, overwriteDenied: bool, deleteDenied: bool,
    succeeds: bool)

  datatype Verdict =
    | SkippedDuplicate | DoomLoop | ServedFromCache | DuplicateBlocked | ToolRejected
    | RewriteBlocked | OverwriteDenied | DeleteDenied | Executed(success: bool)

  datatype State = State(
    executed: set<Sig>, created: set<string>, doomRun: nat, lastDoomSig: Option<Sig>, doomed: bool)

  /** A tool execution that really happened. */
  datatype Execution = Execution(call: Call, success: bool)

  /** Everything that happened in the turn: executions, and the calls that took part in the doom count. */
  datatype History = History(runs: seq<Execution>, considered: seq<Sig>)

  type Resolver = string -> string

  // ---------------------------------------------------------------- one call

  /** The duplicate flag after the read special case: a readable file that is not served from the cache is
      read again even when the same read was done before. */
  predicate StillDuplicate(s: State, c: Call, a: Answers) {
    c.sig in s.executed && !(c.sig.tool.FileRead? && c.readPath != "" && a.statWorks)
  }

  predicate FromCache(c: Call, a: Answers) {
    c.sig.tool.FileRead? && c.readPath != "" && a.statWorks && a.cached
  }

  predicate Rewrite(s: State, c: Call, a: Answers, resolve: Resolver) {
    c.sig.tool.FileWrite? && c.target != ""
    && (resolve(c.target) in s.created || c.target in s.created || a.replayed)
  }

  predicate SkipsSilently(s: State, c: Call, a: Answers) { c.sig in s.executed && a.substantiveAnswer }

  function NextRun(s: State, c: Call): nat {
    if s.lastDoomSig == Some(c.sig) then s.doomRun + 1 else 1
  }

  function Judge(s: State, c: Call, a: Answers, threshold: nat, resolve: Resolver): Verdict {
    if SkipsSilently(s, c, a) then SkippedDuplicate
    else if NextRun(s, c) >= threshold then DoomLoop
    else if FromCache(c, a) then ServedFromCache
    else if StillDuplicate(s, c, a) then DuplicateBlocked
    else if a.rejected then ToolRejected
    else if Rewrite(s, c, a, resolve) then RewriteBlocked
    else if c.sig.tool.FileWrite? && c.target != "" && a.overwriteDenied then OverwriteDenied
    else if c.sig.tool.FileDelete? && c.target != "" && a.deleteDenied then DeleteDenied
    else Executed(a.succeeds)
  }

  function Forget(executed: set<Sig>): set<Sig> {
    set g | g in executed && !Rerunnable(g.tool)
  }

  predicate Mutation(e: Execution) { e.success && Mutates(e.call.sig.tool) }

  function After(s: State, c: Call, v: Verdict, resolve: Resolver): State {
    var t := if v.SkippedDuplicate? then s else s.(doomRun := NextRun(s, c), lastDoomSig := Some(c.sig));
    match v
    case DoomLoop => t.(doomed := true)
    case ServedFromCache => t.(executed := t.executed + {c.sig})
    case Executed(success) =>
      var executed := t.executed + {c.sig};
      t.(executed := if success && Mutates(c.sig.tool) then Forget(executed) else executed,
         created := if success && c.sig.tool.FileWrite? && c.target != ""
                    then t.created + {resolve(c.target), c.target} else t.created)
    case _ => t
  }

  function Extend(h: History, c: Call, v: Verdict): History {
    var considered := if v.SkippedDuplicate? then h.considered else h.considered + [c.sig];
    History(if v.Executed? then h.runs + [Execution(c, v.success)] else h.runs, considered)
  }

  const Start := State({}, {}, 0, None, false)

  /** Calls after a doom verdict are not handled: the turn is over. */
  function Run(calls: seq<Call>, answers: seq<Answers>, threshold: nat, resolve: Resolver): (State, History)
    requires |calls| == |answers|
  {
    if calls == [] then (Start, History([], []))
    else
      var n := |calls| - 1;
      var (s, h) := Run(calls[..n], answers[..n], threshold, resolve);
      if s.doomed then (s, h)
      else
        var v := Judge(s, calls[n], answers[n], threshold, resolve);
        (After(s, calls[n], v, resolve), Extend(h, calls[n], v))
  }

  /** The loop's comment says that serving reads from the cache comes before the silent skip of duplicates. It
      comes after it: a cached read is skipped instead exactly when the call was made before and the answer is
      substantive, and is otherwise served unless the doom count stops the turn. */
  lemma CachedReadIsServedExactlyUnlessSkipped(s: State, c: Call, a: Answers, threshold: nat, resolve: Resolver)
    requires FromCache(c, a)
    ensures var v := Judge(s, c, a, threshold, resolve);
      && (v.SkippedDuplicate? <==> c.sig in s.executed && a.substantiveAnswer)
      && (v.ServedFromCache? <==> !(c.sig in s.executed && a.substantiveAnswer) && NextRun(s, c) < threshold)
  {
  }

  /** Concretely: the same cached read twice in a turn, the second time with a substantive answer. The second is
      skipped, so it takes no part in the turn. */
  lemma CachedRereadIsSkipped(c: Call, a: Answers, b: Answers, threshold: nat, resolve: Resolver)
    requires FromCache(c, a) && FromCache(c, b) && b.substantiveAnswer && threshold > 1
    ensures var (s, h) := Run([c], [a], threshold, resolve);
      && Judge(Start, c, a, threshold, resolve) == ServedFromCache
      && !s.doomed && Judge(s, c, b, threshold, resolve) == SkippedDuplicate
      && Run([c, c], [a, b], threshold, resolve) == (s, h)
  {
    assert [c][..0] == [] && [a][..0] == [];
    assert [c, c][..1] == [c] && [a, b][..1] == [a];
    assert Run([], [], threshold, resolve) == (Start, History([], []));
    assert Run([c], [a], threshold, resolve) ==
      (After(Start, c, ServedFromCache, resolve), Extend(History([], []), c, ServedFromCache));
  }

  // ---------------------------------------------------------------- what every turn keeps

  /** Between two executions of the same call a mutation succeeded, and the tool only looks around. */
  ghost predicate RepeatExcused(runs: seq<Execution>, i: nat, j: nat) {
    i < j < |runs| && Rerunnable(runs[i].call.sig.tool) && exists k :: i < k < j && Mutation(runs[k])
  }

  ghost predicate NoIdleRepeats(runs: seq<Execution>) {
    forall i, j :: 0 <= i < j < |runs| && runs[i].call.sig == runs[j].call.sig && !runs[i].call.sig.tool.FileRead?
      ==> RepeatExcused(runs, i, j)
  }

  /** Every execution is remembered, unless its tool only looks around and a later mutation excused it. */
  ghost predicate Remembered(s: State, runs: seq<Execution>) {
    forall i :: 0 <= i < |runs| ==>
      runs[i].call.sig in s.executed
      || (Rerunnable(runs[i].call.sig.tool) && exists k :: i < k < |runs| && Mutation(runs[k]))
  }

  predicate Wrote(e: Execution) { e.success && e.call.sig.tool.FileWrite? && e.call.target != "" }

  ghost predicate WritesRecorded(s: State, runs: seq<Execution>, resolve: Resolver) {
    forall i :: 0 <= i < |runs| && Wrote(runs[i]) ==> resolve(runs[i].call.target) in s.created
  }

  ghost predicate OneWritePerPath(runs: seq<Execution>, resolve: Resolver) {
    forall i, j :: 0 <= i < j < |runs| && Wrote(runs[i]) && Wrote(runs[j])
      ==> resolve(runs[i].call.target) != resolve(runs[j].call.target)
  }

  /** Length of the run of equal calls at the end. */
  function TrailingRun(considered: seq<Sig>): nat {
    var n := |considered|;
    if n == 0 then 0
    else if n == 1 || considered[n - 2] != considered[n - 1] then 1
    else 1 + TrailingRun(considered[..n - 1])
  }

  ghost predicate Counted(s: State, considered: seq<Sig>, threshold: nat) {
    && s.doomRun == TrailingRun(considered)
    && s.lastDoomSig == (if considered == [] then None else Some(considered[|considered| - 1]))
    && (s.doomed <==> considered != [] && TrailingRun(considered) >= threshold)
  }

  lemma RememberedStep(s: State, runs: seq<Execution>, c: Call, success: bool, resolve: Resolver)
    requires Remembered(s, runs)
    ensures Remembered(After(s, c, Executed(success), resolve), runs + [Execution(c, success)])
  {
    var after, all := After(s, c, Executed(success), resolve), runs + [Execution(c, success)];
    var n := |runs|;
    forall i | 0 <= i < |all|
      ensures all[i].call.sig in after.executed
           || (Rerunnable(all[i].call.sig.tool) && exists k :: i < k < |all| && Mutation(all[k]))
    {
      if i < n {
        assert all[i] == runs[i];
        if runs[i].call.sig in s.executed {
          if runs[i].call.sig !in after.executed { assert Mutation(all[n]); }
        } else {
          var k :| i < k < n && Mutation(runs[k]);
          assert Mutation(all[k]);
        }
      }
    }
  }

  lemma RepeatsStep(s: State, runs: seq<Execution>, c: Call, success: bool)
    requires Remembered(s, runs) && NoIdleRepeats(runs)
    requires !c.sig.tool.FileRead? ==> c.sig !in s.executed
    ensures NoIdleRepeats(runs + [Execution(c, success)])
  {
    var all, n := runs + [Execution(c, success)], |runs|;
    forall i, j | 0 <= i < j < |all| && all[i].call.sig == all[j].call.sig && !all[i].call.sig.tool.FileRead?
      ensures RepeatExcused(all, i, j)
    {
      assert all[i] == runs[i];
      if j < n {
        assert RepeatExcused(runs, i, j);
        var k :| i < k < j && Mutation(runs[k]);
        assert Mutation(all[k]);
      } else {
        var k :| i < k < n && Mutation(runs[k]);
        assert Mutation(all[k]);
      }
    }
  }

  lemma WritesStep(s: State, runs: seq<Execution>, c: Call, a: Answers, threshold: nat, resolve: Resolver)
    requires WritesRecorded(s, runs, resolve) && OneWritePerPath(runs, resolve)
    requires Judge(s, c, a, threshold, resolve) == Executed(a.succeeds)
    ensures var all := runs + [Execution(c, a.succeeds)];
      WritesRecorded(After(s, c, Executed(a.succeeds), resolve), all, resolve) && OneWritePerPath(all, resolve)
  {
    var all, n := runs + [Execution(c, a.succeeds)], |runs|;
    forall i | 0 <= i < |all| && Wrote(all[i])
      ensures resolve(all[i].call.target) in After(s, c, Executed(a.succeeds), resolve).created
    {
      if i < n { assert all[i] == runs[i]; }
    }
    forall i, j | 0 <= i < j < |all| && Wrote(all[i]) && Wrote(all[j])
      ensures resolve(all[i].call.target) != resolve(all[j].call.target)
    {
      assert all[i] == runs[i];
      if j < n { assert all[j] == runs[j]; }
    }
  }

  lemma CountStep(s: State, considered: seq<Sig>, c: Call, v: Verdict, threshold: nat, resolve: Resolver)
    requires Counted(s, considered, threshold) && !s.doomed && threshold > 0
    requires !v.SkippedDuplicate? && (v.DoomLoop? <==> NextRun(s, c) >= threshold)
    ensures Counted(After(s, c, v, resolve), considered + [c.sig], threshold)
  {
    var all := considered + [c.sig];
    assert all[..|all| - 1] == considered;
  }

  /** Over a whole turn, whatever the model asks for and the surroundings answer:
      the same call other than a file read runs twice only if a mutation succeeded in between and its tool
      is one that only looks around (or is bash); at most one `file_write` succeeds per resolved path; and
      the turn is stopped exactly when the last `threshold` considered calls are all the same. */
  lemma {:induction false} TurnGuarantees(calls: seq<Call>, answers: seq<Answers>, threshold: nat, resolve: Resolver)
    requires |calls| == |answers| && threshold > 0
    ensures var (s, h) := Run(calls, answers, threshold, resolve);
      && Remembered(s, h.runs) && NoIdleRepeats(h.runs)
      && WritesRecorded(s, h.runs, resolve) && OneWritePerPath(h.runs, resolve)
      && Counted(s, h.considered, threshold)
  {
    if calls != [] {
      var n := |calls| - 1;
      TurnGuarantees(calls[..n], answers[..n], threshold, resolve);
      var (s, h) := Run(calls[..n], answers[..n], threshold, resolve);
      if !s.doomed { StepGuarantees(s, h, calls[n], answers[n], threshold, resolve); }
    }
  }

  lemma StepGuarantees(s: State, h: History, c: Call, a: Answers, threshold: nat, resolve: Resolver)
    requires Remembered(s, h.runs) && NoIdleRepeats(h.runs)
    requires WritesRecorded(s, h.runs, resolve) && OneWritePerPath(h.runs, resolve)
    requires Counted(s, h.considered, threshold) && !s.doomed && threshold > 0
    ensures var v := Judge(s, c, a, threshold, resolve);
      var t, g := After(s, c, v, resolve), Extend(h, c, v);
      && Remembered(t, g.runs) && NoIdleRepeats(g.runs)
      && WritesRecorded(t, g.runs, resolve) && OneWritePerPath(g.runs, resolve)
      && Counted(t, g.considered, threshold)
  {
    var v := Judge(s, c, a, threshold, resolve);
    if !v.SkippedDuplicate? { CountStep(s, h.considered, c, v, threshold, resolve); }
    if v.Executed? {
      RememberedStep(s, h.runs, c, v.success, resolve);
      RepeatsStep(s, h.runs, c, v.success);
      WritesStep(s, h.runs, c, a, threshold, resolve);
    }
  }

  // ---------------------------------------------------------------- what is blocked, exactly

  /** The call ran in this turn, and if its tool is glob, grep, a directory listing or bash, no successful write,
      edit, deletion or patch followed. */
  ghost predicate RanSince(runs: seq<Execution>, g: Sig) {
    exists i :: 0 <= i < |runs| && RanAt(runs, i, g)
  }

  ghost predicate RanAt(runs: seq<Execution>, i: int, g: Sig) {
    && 0 <= i < |runs| && runs[i].call.sig == g
    && (g.tool in {Glob, Grep, DirList, ListDir, Bash} ==>
          forall k :: i < k < |runs| ==>
            !(runs[k].success && runs[k].call.sig.tool in {FileWrite, FileEdit, FileDelete, ApplyPatch}))
  }

  ghost predicate WroteBefore(runs: seq<Execution>, p: string, resolve: Resolver) {
    exists i :: 0 <= i < |runs| && WroteAt(runs[i], p, resolve)
  }

  /** A successful `file_write` with this path, as given or resolved. */
  predicate WroteAt(e: Execution, p: string, resolve: Resolver) {
    e.success && e.call.sig.tool == FileWrite && e.call.target != "" && (p == e.call.target || p == resolve(e.call.target))
  }

  ghost predicate Exact(s: State, runs: seq<Execution>, resolve: Resolver) {
    && (forall g: Sig :: !g.tool.FileRead? ==> (g in s.executed <==> RanSince(runs, g)))
    && (forall p :: p in s.created <==> WroteBefore(runs, p, resolve))
  }

  lemma RanSinceSnoc(runs: seq<Execution>, e: Execution, g: Sig)
    ensures var mutates := e.success && e.call.sig.tool in {FileWrite, FileEdit, FileDelete, ApplyPatch};
      RanSince(runs + [e], g) <==>
        e.call.sig == g || (RanSince(runs, g) && !(mutates && g.tool in {Glob, Grep, DirList, ListDir, Bash}))
  {
    var all := runs + [e];
    if e.call.sig == g { assert RanAt(all, |runs|, g); }
    if RanSince(runs, g) {
      var i :| 0 <= i < |runs| && RanAt(runs, i, g);
      if !(e.success && e.call.sig.tool in {FileWrite, FileEdit, FileDelete, ApplyPatch}
           && g.tool in {Glob, Grep, DirList, ListDir, Bash}) {
        assert RanAt(all, i, g);
      }
    }
    if RanSince(all, g) && e.call.sig != g {
      var i :| 0 <= i < |all| && RanAt(all, i, g);
      assert i < |runs|;
      assert all[|runs|] == e;
      forall k | i < k < |runs| ensures all[k] == runs[k] {}
      assert RanAt(runs, i, g);
    }
  }

  lemma WroteSnoc(runs: seq<Execution>, e: Execution, p: string, resolve: Resolver)
    ensures WroteBefore(runs + [e], p, resolve) <==> WroteBefore(runs, p, resolve) || WroteAt(e, p, resolve)
  {
    var all := runs + [e];
    if WroteBefore(runs, p, resolve) {
      var i :| 0 <= i < |runs| && WroteAt(runs[i], p, resolve);
      assert all[i] == runs[i];
    }
    assert all[|runs|] == e;
  }

  lemma ExecutedKeepsExact(s: State, runs: seq<Execution>, c: Call, success: bool, resolve: Resolver)
    requires Exact(s, runs, resolve)
    ensures Exact(After(s, c, Executed(success), resolve), runs + [Execution(c, success)], resolve)
  {
    var e, after := Execution(c, success), After(s, c, Executed(success), resolve);
    forall g: Sig | !g.tool.FileRead? ensures g in after.executed <==> RanSince(runs + [e], g) {
      RanSinceSnoc(runs, e, g);
    }
    forall p ensures p in after.created <==> WroteBefore(runs + [e], p, resolve) {
      WroteSnoc(runs, e, p, resolve);
    }
  }

  lemma {:induction false} EveryTurnIsExact(calls: seq<Call>, answers: seq<Answers>, threshold: nat, resolve: Resolver)
    requires |calls| == |answers|
    ensures var (s, h) := Run(calls, answers, threshold, resolve); Exact(s, h.runs, resolve)
  {
    if calls != [] {
      var n := |calls| - 1;
      EveryTurnIsExact(calls[..n], answers[..n], threshold, resolve);
      var (s, h) := Run(calls[..n], answers[..n], threshold, resolve);
      if !s.doomed {
        var v := Judge(s, calls[n], answers[n], threshold, resolve);
        if v.Executed? { ExecutedKeepsExact(s, h.runs, calls[n], v.success, resolve); }
      }
    }
  }

  /** After any calls of a turn, a call other than a read that gets past the doom count is turned away as a
      duplicate exactly when it ran before and, for the tools that look around, nothing was changed since; it is
      then skipped silently if the answer is substantive and blocked if not. */
  lemma DuplicateExactlyWhen(calls: seq<Call>, answers: seq<Answers>, c: Call, a: Answers, threshold: nat, resolve: Resolver)
    requires |calls| == |answers| && !c.sig.tool.FileRead?
    ensures var (s, h) := Run(calls, answers, threshold, resolve);
      var v := Judge(s, c, a, threshold, resolve);
      && (v == SkippedDuplicate <==> RanSince(h.runs, c.sig) && a.substantiveAnswer)
      && (NextRun(s, c) < threshold ==> (v == DuplicateBlocked <==> RanSince(h.runs, c.sig) && !a.substantiveAnswer))
  {
    EveryTurnIsExact(calls, answers, threshold, resolve);
  }

  /** A `file_write` that is neither a duplicate nor rejected is turned away as a rewrite exactly when a write to
      that path, as given or resolved, succeeded in this turn, or the file is known from a replayed session. */
  lemma RewriteExactlyWhen(calls: seq<Call>, answers: seq<Answers>, c: Call, a: Answers, threshold: nat, resolve: Resolver)
    requires |calls| == |answers| && c.sig.tool == FileWrite && c.target != "" && !a.rejected
    ensures var (s, h) := Run(calls, answers, threshold, resolve);
      !RanSince(h.runs, c.sig) && NextRun(s, c) < threshold ==>
        (Judge(s, c, a, threshold, resolve) == RewriteBlocked <==>
          WroteBefore(h.runs, resolve(c.target), resolve) || WroteBefore(h.runs, c.target, resolve) || a.replayed)
  {
    EveryTurnIsExact(calls, answers, threshold, resolve);
  }

  /** A call is carried out exactly when nothing turned it away: no duplicate, no doom, no cached read, no
      rejection by the tool, and for a write or a deletion none of the path guards. It then succeeds or fails as
      the tool says, and a verdict that turns it away names a guard that applies. */
  lemma NoGuardApplies(s: State, c: Call, a: Answers, threshold: nat, resolve: Resolver)
    ensures var v := Judge(s, c, a, threshold, resolve);
      var write, delete := c.sig.tool == FileWrite && c.target != "", c.sig.tool == FileDelete && c.target != "";
      var readable := c.sig.tool == FileRead && c.readPath != "" && a.statWorks;
      && (v.Executed? <==>
        && !(c.sig in s.executed && (a.substantiveAnswer || !readable))
        && (s.lastDoomSig == Some(c.sig) ==> s.doomRun + 1 < threshold) && (s.lastDoomSig != Some(c.sig) ==> 1 < threshold)
        && !(readable && a.cached) && !a.rejected
        && (write ==> resolve(c.target) !in s.created && c.target !in s.created && !a.replayed && !a.overwriteDenied)
        && (delete ==> !a.deleteDenied))
      && (v.Executed? ==> v.success == a.succeeds)
      && (v == ServedFromCache ==> readable && a.cached) && (v == ToolRejected ==> a.rejected)
      && (v == OverwriteDenied ==> write && a.overwriteDenied) && (v == DeleteDenied ==> delete && a.deleteDenied)
  {
  }

  /** Over a turn: after any calls, a call other than a read is carried out exactly when it did not run before (or
      only before the last change, for the tools that look around), it would not make the run of equal calls too
      long, the tool does not reject it, and for a write no write to the path succeeded and none is known from a
      replayed session. */
  lemma CarriedOutExactlyWhen(calls: seq<Call>, answers: seq<Answers>, c: Call, a: Answers, threshold: nat, resolve: Resolver)
    requires |calls| == |answers| && threshold > 0 && !c.sig.tool.FileRead?
    ensures var (s, h) := Run(calls, answers, threshold, resolve);
      var write, delete := c.sig.tool == FileWrite && c.target != "", c.sig.tool == FileDelete && c.target != "";
      Judge(s, c, a, threshold, resolve).Executed? <==>
        && !RanSince(h.runs, c.sig) && TrailingRun(h.considered + [c.sig]) < threshold && !a.rejected
        && (write ==> !WroteBefore(h.runs, resolve(c.target), resolve) && !WroteBefore(h.runs, c.target, resolve)
                      && !a.replayed && !a.overwriteDenied)
        && (delete ==> !a.deleteDenied)
  {
    var (s, h) := Run(calls, answers, threshold, resolve);
    EveryTurnIsExact(calls, answers, threshold, resolve);
    TurnGuarantees(calls, answers, threshold, resolve);
    assert (h.considered + [c.sig])[..|h.considered|] == h.considered;
    assert NextRun(s, c) == TrailingRun(h.considered + [c.sig]);
    NoGuardApplies(s, c, a, threshold, resolve);
  }

  /** A trailing run of length n means the last n entries are equal, and the one before differs. */
  lemma {:induction false} TrailingRunMeaning(considered: seq<Sig>, n: nat)
    requires 0 < n <= |considered|
    ensures TrailingRun(considered) >= n <==>
      forall k :: |considered| - n <= k < |considered| ==> considered[k] == considered[|considered| - 1]
  {
    var m := |considered|;
    if n > 1 {
      var init := considered[..m - 1];
      TrailingRunMeaning(init, n - 1);
      if considered[m - 2] == considered[m - 1] {
        assert forall k :: m - n <= k < m - 1 ==> init[k] == considered[k];
      } else {
        assert considered[m - 2] != considered[m - 1];
      }
    } else {
      assert TrailingRun(considered) >= 1;
    }
  }

  // ---------------------------------------------------------------- the loop variables

  class Turn {
    var executedCalls: set<Sig>
    var createdFiles: set<string>
    var doomRun: nat
    var lastDoomSig: Option<Sig>
    var doomed: bool
    ghost var history: History
    const threshold: nat
    const resolve: Resolver

    constructor (threshold: nat, resolve: Resolver)
      ensures Now() == Start && history == History([], [])
      ensures this.threshold == threshold && this.resolve == resolve
    {
      executedCalls, createdFiles, doomRun, lastDoomSig, doomed := {}, {}, 0, None, false;
      history := History([], []);
      this.threshold, this.resolve := threshold, resolve;
    }

    function Now(): State
      reads this
    {
      State(executedCalls, createdFiles, doomRun, lastDoomSig, doomed)
    }

    /** The doom counter: consecutive considered calls with the same signature. */
    method CountRepeat(sig: Sig)
      modifies this`doomRun, this`lastDoomSig
      ensures doomRun == if old(lastDoomSig) == Some(sig) then old(doomRun) + 1 else 1
      ensures lastDoomSig == Some(sig)
    {
      if lastDoomSig == Some(sig) {
        doomRun := doomRun + 1;
      } else {
        doomRun := 1;
        lastDoomSig := Some(sig);
      }
    }

    /** The guards between the cache and the execution; None lets the call through. */
    method Refusal(call: Call, answers: Answers) returns (refused: Option<Verdict>)
      requires !FromCache(call, answers)
      ensures refused ==
        if StillDuplicate(Now(), call, answers) then Some(DuplicateBlocked)
        else if answers.rejected then Some(ToolRejected)
        else if Rewrite(Now(), call, answers, resolve) then Some(RewriteBlocked)
        else if call.sig.tool.FileWrite? && call.target != "" && answers.overwriteDenied then Some(OverwriteDenied)
        else if call.sig.tool.FileDelete? && call.target != "" && answers.deleteDenied then Some(DeleteDenied)
        else None
    {
      var tool := call.sig.tool;
      var isDup := call.sig in executedCalls;
      if tool.FileRead? && call.readPath != "" && answers.statWorks { isDup := false; }
      if isDup { return Some(DuplicateBlocked); }
      if answers.rejected { return Some(ToolRejected); }
      if tool.FileWrite? && call.target != "" {
        if resolve(call.target) in createdFiles || call.target in createdFiles || answers.replayed {
          return Some(RewriteBlocked);
        }
        if answers.overwriteDenied { return Some(OverwriteDenied); }
      }
      if tool.FileDelete? && call.target != "" && answers.deleteDenied { return Some(DeleteDenied); }
      return None;
    }

    /** Bookkeeping after an execution. */
    method RecordExecution(call: Call, success: bool)
      modifies this`executedCalls, this`createdFiles
      ensures executedCalls ==
        if success && Mutates(call.sig.tool) then Forget(old(executedCalls) + {call.sig}) else old(executedCalls) + {call.sig}
      ensures createdFiles ==
        if success && call.sig.tool.FileWrite? && call.target != ""
        then old(createdFiles) + {resolve(call.target), call.target} else old(createdFiles)
    {
      executedCalls := executedCalls + {call.sig};
      if success {
        if call.sig.tool.FileWrite? && call.target != "" {
          createdFiles := createdFiles + {resolve(call.target)};
          createdFiles := createdFiles + {call.target};
        }
        if Mutates(call.sig.tool) {
          executedCalls := set g | g in executedCalls && !Rerunnable(g.tool);
        }
      }
    }

    /** The body of the dispatch loop for one call. */
    method Handle(call: Call, answers: Answers) returns (verdict: Verdict)
      requires !doomed
      modifies this
      ensures verdict == Judge(old(Now()), call, answers, threshold, resolve)
      ensures Now() == After(old(Now()), call, verdict, resolve)
      ensures history == Extend(old(history), call, verdict)
    {
      if call.sig in executedCalls && answers.substantiveAnswer { return SkippedDuplicate; }
      CountRepeat(call.sig);
      if doomRun >= threshold {
        doomed := true;
        verdict := DoomLoop;
      } else if FromCache(call, answers) {
        executedCalls := executedCalls + {call.sig};
        verdict := ServedFromCache;
      } else {
        var refused := Refusal(call, answers);
        if refused.Some? {
          verdict := refused.value;
        } else {
          RecordExecution(call, answers.succeeds);
          verdict := Executed(answers.succeeds);
        }
      }
      history := Extend(history, call, verdict);
    }

    /** The dispatch loop over all calls of a turn, stopping at a doom verdict. */
    method HandleAll(calls: seq<Call>, answers: seq<Answers>)
      requires |calls| == |answers| && threshold > 0
      requires Now() == Start && history == History([], [])
      modifies this
      ensures (Now(), history) == Run(calls, answers, threshold, resolve)
      ensures NoIdleRepeats(history.runs) && OneWritePerPath(history.runs, resolve)
    {
      var i := 0;
      while i < |calls|
        invariant 0 <= i <= |calls|
        invariant (Now(), history) == Run(calls[..i], answers[..i], threshold, resolve)
      {
        assert calls[..i + 1][..i] == calls[..i] && answers[..i + 1][..i] == answers[..i];
        if !doomed {
          var verdict := Handle(calls[i], answers[i]);
        }
        i := i + 1;
      }
      assert calls[..|calls|] == calls && answers[..|answers|] == answers;
      TurnGuarantees(calls, answers, threshold, resolve);
    }
  }
}
