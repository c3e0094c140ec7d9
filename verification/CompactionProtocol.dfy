/** Interleaved compactions of one session (server/agents/compaction_service.py, 320-614). */
module CompactionProtocol {
  import opened SessionFile
  import Store = SessionStore

  // ---------------------------------------------------------------- what a call summarizes

  /** The prefix a call summarizes, from the ids of its history and the budgeted cut. With nothing before the
      cut, a manual call summarizes the whole history unless pruning alone already helps. */
  function PrefixIds(history: seq<string>, cut: nat, manual: bool, pruned: bool): seq<string>
    requires cut <= |history|
  {
    if cut > 0 then history[..cut]
    else if !pruned && manual then history
    else []
  }

  function AsSet(ids: seq<string>): set<string> { set x | x in ids }

  ghost predicate Distinct(ids: seq<string>) {
    forall i, j :: 0 <= i < j < |ids| ==> ids[i] != ids[j]
  }

  /** The source promises that the recent tail always survives. A message kept by the cut stays out of the
      summarized prefix exactly unless the call is manual, the cut is 0 and pruning found nothing. */
  lemma TailSurvivesExactlyUnlessManual(history: seq<string>, cut: nat, manual: bool, pruned: bool, k: nat)
    requires cut <= k < |history| && Distinct(history)
    ensures history[k] !in AsSet(PrefixIds(history, cut, manual, pruned)) <==> !(cut == 0 && manual && !pruned)
  {
    if cut > 0 {
      forall i | 0 <= i < cut ensures history[..cut][i] != history[k] {}
    } else if !pruned && manual {
      assert history[k] in history;
    }
  }

  /** The docstring of the budgeted search says that a cut of 0 means the entire history is summarized. It does
      exactly for a manual call without pruned output, or when there is nothing to summarize. */
  lemma CutZeroSummarizesAllExactlyWhen(history: seq<string>, manual: bool, pruned: bool)
    ensures PrefixIds(history, 0, manual, pruned) == history <==> history == [] || (manual && !pruned)
    ensures !(manual && !pruned) ==> PrefixIds(history, 0, manual, pruned) == []
  {
  }

  // ---------------------------------------------------------------- the protocol

  datatype Status = Completed | Skipped | Failed

  /** Where a call stands between awaits. Ending carries the outcome still to be announced. */
  datatype Pc =
    | Called                          // waiting for the session lock
    | Working                         // past the gate, before a summary is asked for
    | Summarizing
    | ReadingSession                  // past the persist guard, summary in hand
    | Persisting(metadata: map<string, string>)
    | Applying                        // nothing left that could fail the compaction
    | Ending(status: Status)
    | Returned(result: Status)
    | Raised                          // cancelled, or the failure announcement itself failed

  /** One call: whether it has a prefix to summarize and the ids in it, whether pruning shrank something,
      whether it has repositories, and the caller's message list with the pruned candidate derived from it. */
  datatype Call = Call(
    summarizes: bool, prefix: set<string>, pruned: bool, hasRepos: bool, before: string, candidate: string,
    pc: Pc, generation: nat, summary: string, live: string, persisted: bool)

  function MakeCall(prefix: seq<string>, pruned: bool, hasRepos: bool, before: string, candidate: string): Call {
    Call(prefix != [], AsSet(prefix), pruned, hasRepos, before, candidate, Called, 0, "", before, false)
  }

  /** The per-session registries, the stored log, every call ever made, and the generations handed out at
      the gate, in order. */
  datatype System = System(
    generation: nat, inProgress: bool, log: seq<Record>, calls: map<nat, Call>, admitted: seq<nat>)

  datatype Step =
    | Invoke(call: nat, history: seq<string>, cut: nat, manual: bool, pruned: bool, hasRepos: bool, before: string, candidate: string)
    | Gate(call: nat)
    | Decide(call: nat)                       // skip, summarize, or go on with the pruning alone
    | SummaryReturns(call: nat, summary: string)
    | SessionRead(call: nat)
    | Persist(call: nat, now: string)
    | ApplyCandidate(call: nat)
    | Fail(call: nat)                         // an exception before anything is stored
    | Announce(call: nat, raises: bool)
    | Cancel(call: nat)
    | Other(op: Store.Op)                     // another repository call on the same session

  predicate Inside(c: Call) {
    !c.pc.Called? && !c.pc.Returned? && !c.pc.Raised?
  }

  predicate At(s: System, t: nat, pc: Pc) { t in s.calls && s.calls[t].pc == pc }

  /** Repository calls that only append. */
  predicate Appends(op: Store.Op) {
    op.SetModel? || op.MergeMetadata? || op.Update? || op.AddTokens? || op.CreateMessage? || op.RecordSync? || op.Append?
  }

  predicate Enabled(s: System, step: Step) {
    match step
    case Invoke(t, history, cut, _, _, _, _, _) => t !in s.calls && cut <= |history|
    case Gate(t) => At(s, t, Called)
    case Decide(t) => At(s, t, Working)
    case SummaryReturns(t, summary) => At(s, t, Summarizing) && summary != ""
    case SessionRead(t) => At(s, t, ReadingSession)
    case Persist(t, _) => t in s.calls && s.calls[t].pc.Persisting?
    case ApplyCandidate(t) => At(s, t, Applying)
    case Fail(t) => t in s.calls && (var pc := s.calls[t].pc;
        pc.Working? || pc.Summarizing? || pc.ReadingSession? || pc.Persisting?)
    case Announce(t, _) => t in s.calls && s.calls[t].pc.Ending?
    case Cancel(t) => t in s.calls && !s.calls[t].pc.Returned? && !s.calls[t].pc.Raised?
    case Other(op) => Appends(op)
  }

  function Set(s: System, t: nat, c: Call): System {
    s.(calls := s.calls[t := c])
  }

  function Move(s: System, t: nat, pc: Pc): System {
    if t in s.calls then Set(s, t, s.calls[t].(pc := pc)) else s
  }

  function Apply(s: System, step: Step): System {
    match step
    case Invoke(t, history, cut, manual, pruned, hasRepos, before, candidate) =>
      Set(s, t, MakeCall(if cut <= |history| then PrefixIds(history, cut, manual, pruned) else [],
                         pruned, hasRepos, before, candidate))
    case Gate(t) =>
      if t !in s.calls then s
      else if s.inProgress then Move(s, t, Returned(Skipped))
      else
        Set(s, t, s.calls[t].(pc := Working, generation := s.generation + 1)).(
          inProgress := true, generation := s.generation + 1, admitted := s.admitted + [s.generation + 1])
    case Decide(t) =>
      if t !in s.calls then s
      else if s.calls[t].summarizes then Move(s, t, Summarizing)
      else Move(s, t, if s.calls[t].pruned then Applying else Ending(Skipped))
    case SummaryReturns(t, summary) =>
      if t !in s.calls then s
      else
        var guard := s.calls[t].hasRepos && s.generation == s.calls[t].generation;
        Set(s, t, s.calls[t].(summary := summary, pc := if guard then ReadingSession else Applying))
    case SessionRead(t) =>
      if t !in s.calls then s
      else Move(s, t, Persisting(Store.Metadata(FieldsOf(s.log))["summary" := s.calls[t].summary]))
    case Persist(t, now) =>
      if t !in s.calls || !s.calls[t].pc.Persisting? then s
      else
        var c := s.calls[t];
        Set(s, t, c.(pc := Applying, persisted := true)).(
          log := Store.CompactLog(s.log, Object(c.pc.metadata), c.prefix, now))
    case ApplyCandidate(t) =>
      if t !in s.calls then s
      else
        var c := s.calls[t];
        Set(s, t, c.(pc := Ending(Completed), live := if s.generation == c.generation then c.candidate else c.live))
    case Fail(t) => Move(s, t, Ending(Failed))
    case Announce(t, raises) =>
      if t !in s.calls || !s.calls[t].pc.Ending? then s
      else
        var status := s.calls[t].pc.status;
        if !raises || status == Completed then Move(s, t, Returned(status)).(inProgress := false)
        else if status == Skipped then Move(s, t, Ending(Failed))
        else Move(s, t, Raised).(inProgress := false)
    case Cancel(t) =>
      if t !in s.calls then s
      else if s.calls[t].pc.Called? then Move(s, t, Raised)
      else Move(s, t, Raised).(inProgress := false)
    case Other(op) => s.(log := Store.Step(s.log, op))
  }

  function Begin(log: seq<Record>): System { System(0, false, log, map[], []) }

  function Run(log: seq<Record>, steps: seq<Step>): System {
    if steps == [] then Begin(log) else Apply(Run(log, steps[..|steps| - 1]), steps[|steps| - 1])
  }

  predicate Legal(log: seq<Record>, steps: seq<Step>) {
    steps == [] ||
    (Legal(log, steps[..|steps| - 1]) && Enabled(Run(log, steps[..|steps| - 1]), steps[|steps| - 1]))
  }

  // ---------------------------------------------------------------- at most one, and always current

  /** At most one call is past the gate, the flag says whether there is one, and its generation is current. */
  ghost predicate Gated(s: System) {
    && (forall t, u :: t in s.calls && u in s.calls && Inside(s.calls[t]) && Inside(s.calls[u]) ==> t == u)
    && (forall t :: t in s.calls && Inside(s.calls[t]) ==> s.inProgress && s.calls[t].generation == s.generation)
    && (s.inProgress ==> exists t :: t in s.calls && Inside(s.calls[t]))
  }

  /** Generations are handed out in strictly increasing order. */
  ghost predicate Numbered(s: System) {
    && (forall i, j :: 0 <= i < j < |s.admitted| ==> s.admitted[i] < s.admitted[j])
    && (forall i :: 0 <= i < |s.admitted| ==> s.admitted[i] <= s.generation)
  }

  /** What each stage has and has not done to the stored log and the caller's list, and what it says about the
      work the call had. */
  ghost predicate Honest(c: Call) {
    match c.pc
    case Called => !c.persisted && c.live == c.before && c.generation == 0
    case Applying => c.live == c.before && (c.persisted <==> c.summarizes && c.hasRepos) && HasWork(c)
    case Ending(Completed) => c.live == c.candidate && (c.persisted <==> c.summarizes && c.hasRepos) && HasWork(c)
    case Returned(Completed) => c.live == c.candidate && (c.persisted <==> c.summarizes && c.hasRepos) && HasWork(c)
    case Ending(Skipped) => !c.persisted && c.live == c.before && !HasWork(c)
    case Returned(Skipped) => !c.persisted && c.live == c.before && (c.generation > 0 ==> !HasWork(c))
    case Raised => true
    case Summarizing => !c.persisted && c.live == c.before && c.summarizes
    case ReadingSession => !c.persisted && c.live == c.before && c.summarizes && c.hasRepos
    case Persisting(m) =>
      !c.persisted && c.live == c.before && c.summarizes && c.hasRepos && "summary" in m && m["summary"] == c.summary
    case _ => !c.persisted && c.live == c.before
  }

  predicate HasWork(c: Call) { c.summarizes || c.pruned }

  ghost predicate Invariant(s: System) {
    && Gated(s) && Numbered(s)
    && (forall t :: t in s.calls ==> Honest(s.calls[t]))
  }

  /** Leaving the gate, or moving on behind it, keeps it exclusive. */
  lemma MoveInside(s: System, t: nat, c: Call)
    requires Gated(s) && t in s.calls && Inside(s.calls[t]) && Inside(c) && c.generation == s.calls[t].generation
    ensures Gated(Set(s, t, c))
  {
    assert Inside(Set(s, t, c).calls[t]);
  }

  lemma Leave(s: System, t: nat, c: Call)
    requires Gated(s) && t in s.calls && Inside(s.calls[t]) && !Inside(c)
    ensures Gated(Set(s, t, c).(inProgress := false))
  {
  }

  lemma StayOutside(s: System, t: nat, c: Call)
    requires Gated(s) && (t in s.calls ==> !Inside(s.calls[t])) && !Inside(c)
    ensures Gated(Set(s, t, c))
  {
    if s.inProgress {
      var u :| u in s.calls && Inside(s.calls[u]);
      assert Inside(Set(s, t, c).calls[u]);
    }
  }

  lemma Enter(s: System, t: nat)
    requires Gated(s) && At(s, t, Called) && !s.inProgress
    ensures Gated(Apply(s, Gate(t)))
  {
    assert Inside(Apply(s, Gate(t)).calls[t]);
  }

  lemma AnnounceKeepsGate(s: System, t: nat, raises: bool)
    requires Gated(s) && Enabled(s, Announce(t, raises))
    ensures Gated(Apply(s, Announce(t, raises)))
  {
    var c := s.calls[t];
    if raises && c.pc.status == Skipped {
      MoveInside(s, t, c.(pc := Ending(Failed)));
    } else {
      Leave(s, t, Apply(s, Announce(t, raises)).calls[t]);
    }
  }

  lemma StepKeepsGate(s: System, step: Step)
    requires Gated(s) && Enabled(s, step)
    ensures Gated(Apply(s, step))
  {
    match step
    case Invoke(t, history, cut, manual, pruned, hasRepos, before, candidate) =>
      StayOutside(s, t, MakeCall(PrefixIds(history, cut, manual, pruned), pruned, hasRepos, before, candidate));
    case Gate(t) =>
      if s.inProgress { StayOutside(s, t, s.calls[t].(pc := Returned(Skipped))); } else { Enter(s, t); }
    case Announce(t, raises) =>
      AnnounceKeepsGate(s, t, raises);
    case Cancel(t) =>
      var c := s.calls[t].(pc := Raised);
      if s.calls[t].pc.Called? { StayOutside(s, t, c); } else { Leave(s, t, c); }
    case Decide(t) => MoveInside(s, t, Apply(s, step).calls[t]);
    case SummaryReturns(t, _) => MoveInside(s, t, Apply(s, step).calls[t]);
    case SessionRead(t) => MoveInside(s, t, Apply(s, step).calls[t]);
    case Persist(t, _) =>
      MoveInside(s, t, Apply(s, step).calls[t]);
    case ApplyCandidate(t) => MoveInside(s, t, Apply(s, step).calls[t]);
    case Fail(t) => MoveInside(s, t, Apply(s, step).calls[t]);
    case Other(_) =>
  }

  lemma StepKeepsHonest(s: System, step: Step)
    requires Invariant(s) && Enabled(s, step)
    ensures forall t :: t in Apply(s, step).calls ==> Honest(Apply(s, step).calls[t])
  {
    forall t | t in Apply(s, step).calls ensures Honest(Apply(s, step).calls[t]) {
      CallStaysHonest(s, step, t);
    }
  }

  /** Steps up to the reading of the session. */
  predicate Early(step: Step) {
    step.Invoke? || step.Gate? || step.Decide? || step.SummaryReturns? || step.SessionRead?
  }

  lemma CallStaysHonest(s: System, step: Step, t: nat)
    requires Enabled(s, step) && t in Apply(s, step).calls
    requires t in s.calls ==> Honest(s.calls[t]) && (Inside(s.calls[t]) ==> s.calls[t].generation == s.generation)
    ensures Honest(Apply(s, step).calls[t])
  {
    if Early(step) {
      HonestEarly(s, step, t);
    } else if step.Persist? || step.Other? {
      HonestLogging(s, step, t);
    } else if step.Fail? || step.Cancel? {
      HonestStopping(s, step, t);
    } else if step.Announce? {
      HonestAnnounced(s, step, t);
    } else {
      HonestApplied(s, step, t);
    }
  }

  lemma HonestEarly(s: System, step: Step, t: nat)
    requires Early(step) && Enabled(s, step) && t in Apply(s, step).calls
    requires t in s.calls ==> Honest(s.calls[t]) && (Inside(s.calls[t]) ==> s.calls[t].generation == s.generation)
    ensures Honest(Apply(s, step).calls[t])
  {
  }

  lemma HonestLogging(s: System, step: Step, t: nat)
    requires (step.Persist? || step.Other?) && Enabled(s, step) && t in Apply(s, step).calls
    requires t in s.calls ==> Honest(s.calls[t])
    ensures Honest(Apply(s, step).calls[t])
  {
    if step.Other? { assert Apply(s, step).calls == s.calls; }
  }

  lemma HonestStopping(s: System, step: Step, t: nat)
    requires (step.Fail? || step.Cancel?) && Enabled(s, step) && t in Apply(s, step).calls
    requires t in s.calls ==> Honest(s.calls[t])
    ensures Honest(Apply(s, step).calls[t])
  {
  }

  lemma HonestAnnounced(s: System, step: Step, t: nat)
    requires step.Announce? && Enabled(s, step) && t in Apply(s, step).calls
    requires t in s.calls ==> Honest(s.calls[t])
    ensures Honest(Apply(s, step).calls[t])
  {
  }

  lemma HonestApplied(s: System, step: Step, t: nat)
    requires step.ApplyCandidate? && Enabled(s, step) && t in Apply(s, step).calls
    requires t in s.calls ==> Honest(s.calls[t]) && (Inside(s.calls[t]) ==> s.calls[t].generation == s.generation)
    ensures Honest(Apply(s, step).calls[t])
  {
  }

  lemma {:induction false} EveryRunKeepsInvariant(log: seq<Record>, steps: seq<Step>)
    requires Legal(log, steps)
    ensures Invariant(Run(log, steps))
  {
    if steps != [] {
      var init, last := steps[..|steps| - 1], steps[|steps| - 1];
      EveryRunKeepsInvariant(log, init);
      StepKeepsGate(Run(log, init), last);
      StepKeepsHonest(Run(log, init), last);
    }
  }

  /** In every interleaving of compaction calls on a session: at most one is past the gate, generations
      strictly increase, and the call past the gate finds its generation current at the persist guard and
      at the apply guard, so neither guard ever turns a compaction away. */
  lemma GateIsExclusiveAndCurrent(log: seq<Record>, steps: seq<Step>, t: nat, u: nat)
    requires Legal(log, steps) && t in Run(log, steps).calls && u in Run(log, steps).calls
    ensures var s := Run(log, steps);
      && (Inside(s.calls[t]) && Inside(s.calls[u]) ==> t == u)
      && (s.calls[t].pc.Summarizing? || s.calls[t].pc.Applying? ==> s.calls[t].generation == s.generation)
      && (forall i, j :: 0 <= i < j < |s.admitted| ==> s.admitted[i] < s.admitted[j])
  {
    EveryRunKeepsInvariant(log, steps);
  }

  // ---------------------------------------------------------------- what an outcome says about the log

  /** How many steps of the run are persists of the call. */
  function Persists(steps: seq<Step>, t: nat): nat {
    if steps == [] then 0
    else
      var before := Persists(steps[..|steps| - 1], t);
      if steps[|steps| - 1].Persist? && steps[|steps| - 1].call == t then before + 1 else before
  }

  /** The stage of a call says how often it has persisted. */
  lemma {:induction false} StageCountsPersists(log: seq<Record>, steps: seq<Step>, t: nat)
    requires Legal(log, steps)
    ensures var s := Run(log, steps);
      Persists(steps, t) == if t in s.calls && s.calls[t].persisted then 1 else 0
  {
    if steps != [] {
      var init, last := steps[..|steps| - 1], steps[|steps| - 1];
      StageCountsPersists(log, init, t);
      EveryRunKeepsInvariant(log, init);
      PersistedMoves(Run(log, init), last, t);
    }
  }

  lemma PersistedMoves(s: System, step: Step, t: nat)
    requires Invariant(s) && Enabled(s, step)
    ensures var before := t in s.calls && s.calls[t].persisted;
      var after := t in Apply(s, step).calls && Apply(s, step).calls[t].persisted;
      if step.Persist? && step.call == t then !before && after else after == before
  {
  }

  /** A call that returned skipped or failed left the caller's list alone, and no step of the whole run was a
      persist of it. A call that completed applied its candidate, and exactly one step was a persist of it if it
      had a prefix to summarize and repositories, none otherwise. */
  lemma OutcomeTellsTheTruth(log: seq<Record>, steps: seq<Step>, t: nat)
    requires Legal(log, steps) && t in Run(log, steps).calls && Run(log, steps).calls[t].pc.Returned?
    ensures var c := Run(log, steps).calls[t];
      if c.pc.result == Completed
      then c.live == c.candidate && Persists(steps, t) == (if c.summarizes && c.hasRepos then 1 else 0)
      else c.live == c.before && Persists(steps, t) == 0
  {
    EveryRunKeepsInvariant(log, steps);
    StageCountsPersists(log, steps, t);
  }

  /** What a returned result says about the work there was. A completed call had a prefix to summarize or pruned
      output; a call that was admitted and skipped had neither. So an admitted call that did not fail completed
      exactly when there was something to do. */
  lemma ResultTellsTheWork(log: seq<Record>, steps: seq<Step>, t: nat)
    requires Legal(log, steps) && t in Run(log, steps).calls && Run(log, steps).calls[t].pc.Returned?
    ensures var c := Run(log, steps).calls[t];
      && (c.pc.result == Completed ==> c.summarizes || c.pruned)
      && (c.pc.result == Skipped && c.generation > 0 ==> !c.summarizes && !c.pruned)
      && (c.pc.result != Failed && c.generation > 0 ==> (c.pc.result == Completed <==> c.summarizes || c.pruned))
  {
    EveryRunKeepsInvariant(log, steps);
  }

  /** Over any run, a call that comes to the gate is let in exactly when no other is behind it, with the next
      generation, and is otherwise skipped at once. */
  lemma GateAdmitsExactlyWhenFree(log: seq<Record>, steps: seq<Step>, t: nat)
    requires Legal(log, steps) && At(Run(log, steps), t, Called)
    ensures var s := Run(log, steps);
      var after := Apply(s, Gate(t)).calls[t];
      if forall u :: u in s.calls ==> !Inside(s.calls[u])
      then after == s.calls[t].(pc := Working, generation := s.generation + 1)
      else after == s.calls[t].(pc := Returned(Skipped))
  {
    EveryRunKeepsInvariant(log, steps);
  }

  predicate HasFailed(s: System, t: nat) { At(s, t, Ending(Failed)) || At(s, t, Returned(Failed)) }

  lemma Fails(s: System, step: Step, t: nat)
    requires Enabled(s, step) && !HasFailed(s, t) && HasFailed(Apply(s, step), t)
    ensures step == Fail(t) || (step == Announce(t, true) && At(s, t, Ending(Skipped)))
  {
  }

  lemma Raises(s: System, step: Step, t: nat)
    requires Enabled(s, step) && !At(s, t, Raised) && At(Apply(s, step), t, Raised)
    ensures step == Cancel(t) || (step == Announce(t, true) && At(s, t, Ending(Failed)))
  {
  }

  /** Over any run, a call that failed met an exception in its work, or could not announce that it skips. */
  lemma {:induction false} FailureCameFrom(log: seq<Record>, steps: seq<Step>, t: nat) returns (i: nat)
    requires Legal(log, steps) && HasFailed(Run(log, steps), t)
    ensures i < |steps|
    ensures steps[i] == Fail(t) || (steps[i] == Announce(t, true) && At(Run(log, steps[..i]), t, Ending(Skipped)))
  {
    var init := steps[..|steps| - 1];
    if HasFailed(Run(log, init), t) {
      i := FailureCameFrom(log, init, t);
      assert init[..i] == steps[..i];
    } else {
      Fails(Run(log, init), steps[|init|], t);
      i := |init|;
    }
  }

  /** And a call that raised was cancelled, or could not announce that it failed. */
  lemma {:induction false} RaiseCameFrom(log: seq<Record>, steps: seq<Step>, t: nat) returns (i: nat)
    requires Legal(log, steps) && At(Run(log, steps), t, Raised)
    ensures i < |steps|
    ensures steps[i] == Cancel(t) || (steps[i] == Announce(t, true) && At(Run(log, steps[..i]), t, Ending(Failed)))
  {
    var init := steps[..|steps| - 1];
    if At(Run(log, init), t, Raised) {
      i := RaiseCameFrom(log, init, t);
      assert init[..i] == steps[..i];
    } else {
      Raises(Run(log, init), steps[|init|], t);
      i := |init|;
    }
  }

  /** The call still is what its caller asked for. */
  ghost predicate AsInvoked(c: Call, history: seq<string>, cut: nat, manual: bool, pruned: bool, hasRepos: bool,
      before: string, candidate: string) {
    && (forall x :: x in c.prefix <==>
          exists k :: 0 <= k < |history| && history[k] == x && (k < cut || (cut == 0 && manual && !pruned)))
    && (c.summarizes <==> cut > 0 || (manual && !pruned && history != []))
    && c.pruned == pruned && c.hasRepos == hasRepos && c.before == before && c.candidate == candidate
  }

  lemma MadeAsInvoked(history: seq<string>, cut: nat, manual: bool, pruned: bool, hasRepos: bool, before: string, candidate: string)
    requires cut <= |history|
    ensures AsInvoked(MakeCall(PrefixIds(history, cut, manual, pruned), pruned, hasRepos, before, candidate),
                      history, cut, manual, pruned, hasRepos, before, candidate)
  {
    var ids := PrefixIds(history, cut, manual, pruned);
    forall x ensures x in AsSet(ids) <==>
      exists k :: 0 <= k < |history| && history[k] == x && (k < cut || (cut == 0 && manual && !pruned))
    {
      if x in ids {
        var k :| 0 <= k < |ids| && ids[k] == x;
        assert history[k] == x;
      }
      if k :| 0 <= k < |history| && history[k] == x && (k < cut || (cut == 0 && manual && !pruned)) {
        assert ids[k] == x;
      }
    }
  }

  predicate SameRequest(c: Call, d: Call) {
    && d.prefix == c.prefix && d.summarizes == c.summarizes && d.pruned == c.pruned && d.hasRepos == c.hasRepos
    && d.before == c.before && d.candidate == c.candidate
  }

  lemma InvokedStays(s: System, step: Step, t: nat)
    requires Enabled(s, step) && t in s.calls
    ensures t in Apply(s, step).calls && SameRequest(s.calls[t], Apply(s, step).calls[t])
  {
    if Early(step) {
      RequestKeptEarly(s, step, t);
    } else if step.Persist? || step.Other? {
      RequestKeptLogging(s, step, t);
    } else {
      RequestKeptLate(s, step, t);
    }
  }

  lemma RequestKeptEarly(s: System, step: Step, t: nat)
    requires Early(step) && Enabled(s, step) && t in s.calls
    ensures t in Apply(s, step).calls && SameRequest(s.calls[t], Apply(s, step).calls[t])
  {
  }

  lemma RequestKeptLogging(s: System, step: Step, t: nat)
    requires (step.Persist? || step.Other?) && Enabled(s, step) && t in s.calls
    ensures t in Apply(s, step).calls && SameRequest(s.calls[t], Apply(s, step).calls[t])
  {
    if step.Other? { assert Apply(s, step).calls == s.calls; }
  }

  lemma RequestKeptLate(s: System, step: Step, t: nat)
    requires !Early(step) && !step.Persist? && !step.Other? && Enabled(s, step) && t in s.calls
    ensures t in Apply(s, step).calls && SameRequest(s.calls[t], Apply(s, step).calls[t])
  {
  }

  /** Over any run a call keeps what it was invoked with: exactly the ids before the cut, or all of them for a
      manual call with cut 0 and nothing pruned, and the list it would apply. */
  lemma {:induction false} CallIsAsInvoked(log: seq<Record>, steps: seq<Step>, i: nat)
    requires Legal(log, steps) && i < |steps| && steps[i].Invoke?
    ensures var v := steps[i];
      v.call in Run(log, steps).calls
      && AsInvoked(Run(log, steps).calls[v.call], v.history, v.cut, v.manual, v.pruned, v.hasRepos, v.before, v.candidate)
    decreases |steps|
  {
    var init, last := steps[..|steps| - 1], steps[|steps| - 1];
    if i == |init| {
      MadeAsInvoked(last.history, last.cut, last.manual, last.pruned, last.hasRepos, last.before, last.candidate);
    } else {
      CallIsAsInvoked(log, init, i);
      assert init[i] == steps[i];
      InvokedStays(Run(log, init), last, steps[i].call);
    }
  }

  lemma {:induction false} LegalPrefix(log: seq<Record>, steps: seq<Step>, k: nat)
    requires Legal(log, steps) && k <= |steps|
    ensures Legal(log, steps[..k])
    decreases |steps|
  {
    if k == |steps| {
      assert steps[..k] == steps;
    } else {
      var init := steps[..|steps| - 1];
      LegalPrefix(log, init, k);
      assert init[..k] == steps[..k];
    }
  }

  lemma StepAt(log: seq<Record>, steps: seq<Step>, k: nat)
    requires Legal(log, steps) && k < |steps|
    ensures Legal(log, steps[..k]) && Enabled(Run(log, steps[..k]), steps[k])
    ensures Run(log, steps[..k + 1]) == Apply(Run(log, steps[..k]), steps[k])
  {
    LegalPrefix(log, steps, k);
    LegalPrefix(log, steps, k + 1);
    assert steps[..k + 1][..k] == steps[..k];
  }

  lemma {:induction false} PersistIndex(steps: seq<Step>, t: nat) returns (i: nat)
    requires Persists(steps, t) > 0
    ensures i < |steps| && steps[i].Persist? && steps[i].call == t
  {
    var last := steps[|steps| - 1];
    if last.Persist? && last.call == t {
      i := |steps| - 1;
    } else {
      i := PersistIndex(steps[..|steps| - 1], t);
    }
  }

  /** What a call that persists means to leave behind: the log without its prefix, with the new metadata. */
  function Intended(s: System, t: nat, now: string): seq<Record>
    requires t in s.calls && s.calls[t].pc.Persisting?
  {
    var c := s.calls[t];
    Store.Rewritten(Store.Kept(s.log, c.prefix), Store.InlineFields(s.log), Object(c.pc.metadata), now)
  }

  /** The persist leaves the intended log, summary included, exactly unless the store refuses to touch the log
      as it is just before, which then stays as it is. */
  lemma PersistStoresExactlyUnlessRefused(s: System, t: nat, now: string)
    requires Invariant(s) && Enabled(s, Persist(t, now))
    ensures var after := Apply(s, Persist(t, now));
      && (after.log == Intended(s, t, now) <==> !Store.CompactionAborts(s.log))
      && (Store.CompactionAborts(s.log) ==> after.log == s.log)
      && (!Store.CompactionAborts(s.log) ==>
            var m := Store.Metadata(FieldsOf(after.log));
            m == s.calls[t].pc.metadata && "summary" in m && m["summary"] == s.calls[t].summary)
  {
    var c := s.calls[t];
    if Store.CompactionAborts(s.log) {
      NoMessagesKeepsAll(s.log, c.prefix);
      assert |Intended(s, t, now)| == |s.log| + 2;
    } else {
      AcceptedIsRewritten(s.log, c.pc.metadata, c.prefix, now);
    }
  }

  /** An accepted compaction rewrites the log, even when it removes nothing. */
  lemma AcceptedIsRewritten(log: seq<Record>, metadata: map<string, string>, doomed: set<string>, now: string)
    requires !Store.CompactionAborts(log)
    ensures var after := Store.CompactLog(log, Object(metadata), doomed, now);
      && after == Store.Rewritten(Store.Kept(log, doomed), Store.InlineFields(log), Object(metadata), now)
      && Store.Metadata(FieldsOf(after)) == metadata
  {
    Store.RewrittenLookup(Store.Kept(log, doomed), Store.InlineFields(log), Object(metadata), now, MetadataField);
  }

  lemma {:induction false} NoMessagesKeepsAll(log: seq<Record>, doomed: set<string>)
    requires Messages(log) == []
    ensures Store.Kept(log, doomed) == log
  {
    if log != [] { NoMessagesKeepsAll(log[..|log| - 1], doomed); }
  }

  /** A completed call with a prefix and repositories persisted at exactly one step of the run, and stored its
      summary there exactly unless the store refused the log it found, a log without messages whose counter
      says that there are some. The call reports completion either way. */
  lemma CompletedStoredExactlyUnlessRefused(log: seq<Record>, steps: seq<Step>, t: nat) returns (i: nat)
    requires Legal(log, steps) && t in Run(log, steps).calls
    requires var c := Run(log, steps).calls[t]; c.pc == Returned(Completed) && c.summarizes && c.hasRepos
    ensures Persists(steps, t) == 1 && i < |steps| && steps[i].Persist? && steps[i].call == t
    ensures var before := Run(log, steps[..i]);
      && t in before.calls && before.calls[t].pc.Persisting?
      && (Run(log, steps[..i + 1]).log == Intended(before, t, steps[i].now) <==> !Store.CompactionAborts(before.log))
      && (Store.CompactionAborts(before.log) ==> Run(log, steps[..i + 1]).log == before.log)
  {
    OutcomeTellsTheTruth(log, steps, t);
    i := PersistIndex(steps, t);
    StepAt(log, steps, i);
    EveryRunKeepsInvariant(log, steps[..i]);
    PersistStoresExactlyUnlessRefused(Run(log, steps[..i]), t, steps[i].now);
  }

  // ---------------------------------------------------------------- concrete runs

  lemma Snoc(log: seq<Record>, steps: seq<Step>, step: Step)
    ensures Run(log, steps + [step]) == Apply(Run(log, steps), step)
    ensures Legal(log, steps + [step]) <==> Legal(log, steps) && Enabled(Run(log, steps), step)
  {
    assert (steps + [step])[..|steps|] == steps;
  }

  lemma SnocTwo(log: seq<Record>, steps: seq<Step>, a: Step, b: Step)
    requires Legal(log, steps) && Enabled(Run(log, steps), a) && Enabled(Apply(Run(log, steps), a), b)
    ensures Legal(log, steps + [a, b]) && Run(log, steps + [a, b]) == Apply(Apply(Run(log, steps), a), b)
  {
    Snoc(log, steps, a);
    Snoc(log, steps + [a], b);
    assert steps + [a] + [b] == steps + [a, b];
  }

  /** One call that summarizes the message `id`, up to its reading of the session. */
  function UntilRead(id: string, summary: string, before: string, candidate: string): seq<Step> {
    [Invoke(0, [id], 1, false, false, true, before, candidate), Gate(0)]
    + [Decide(0), SummaryReturns(0, summary)] + [SessionRead(0)]
  }

  /** The state after them. */
  function HavingRead(log: seq<Record>, id: string, summary: string, before: string, candidate: string): System {
    var metadata := Store.Metadata(FieldsOf(log))["summary" := summary];
    System(1, true, log,
      map[0 := Call(true, {id}, false, true, before, candidate, Persisting(metadata), 1, summary, before, false)], [1])
  }

  lemma UntilReadRuns(log: seq<Record>, id: string, summary: string, before: string, candidate: string)
    requires summary != ""
    ensures Legal(log, UntilRead(id, summary, before, candidate))
    ensures Run(log, UntilRead(id, summary, before, candidate)) == HavingRead(log, id, summary, before, candidate)
  {
    var a, b := Invoke(0, [id], 1, false, false, true, before, candidate), Gate(0);
    SnocTwo(log, [], a, b);
    assert [] + [a, b] == [a, b];
    Admitted(log, id, before, candidate);
    var s := HavingEntered(log, id, before, candidate);
    SummaryThenRead(s, log, id, summary, before, candidate);
    SnocTwo(log, [a, b], Decide(0), SummaryReturns(0, summary));
    Snoc(log, [a, b] + [Decide(0), SummaryReturns(0, summary)], SessionRead(0));
  }

  function HavingEntered(log: seq<Record>, id: string, before: string, candidate: string): System {
    System(1, true, log, map[0 := Call(true, {id}, false, true, before, candidate, Working, 1, "", before, false)], [1])
  }

  lemma Admitted(log: seq<Record>, id: string, before: string, candidate: string)
    ensures var a := Invoke(0, [id], 1, false, false, true, before, candidate);
      Apply(Apply(Begin(log), a), Gate(0)) == HavingEntered(log, id, before, candidate)
  {
    assert PrefixIds([id], 1, false, false) == [id];
    assert AsSet([id]) == {id};
  }

  lemma SummaryThenRead(s: System, log: seq<Record>, id: string, summary: string, before: string, candidate: string)
    requires s == HavingEntered(log, id, before, candidate) && summary != ""
    ensures var a := Apply(s, Decide(0));
      var b := Apply(a, SummaryReturns(0, summary));
      && Enabled(s, Decide(0)) && Enabled(a, SummaryReturns(0, summary)) && Enabled(b, SessionRead(0))
      && Apply(b, SessionRead(0)) == HavingRead(log, id, summary, before, candidate)
  {
  }

  /** On any log that the store refuses, a call runs through, persists, applies its candidate and reports
      completion, while the log stays as it was and holds no summary. */
  lemma CompletedWithoutStoring(log: seq<Record>, id: string, summary: string, before: string, candidate: string, now: string)
    requires Store.CompactionAborts(log) && summary != ""
    ensures var steps := UntilRead(id, summary, before, candidate)
        + [Persist(0, now), ApplyCandidate(0)] + [Announce(0, false)];
      && Legal(log, steps) && Persists(steps, 0) == 1
      && Run(log, steps).log == log
      && Run(log, steps).calls[0].pc == Returned(Completed) && Run(log, steps).calls[0].live == candidate
  {
    var read := UntilRead(id, summary, before, candidate);
    UntilReadRuns(log, id, summary, before, candidate);
    RefusedThenCompleted(HavingRead(log, id, summary, before, candidate), now);
    SnocTwo(log, read, Persist(0, now), ApplyCandidate(0));
    Snoc(log, read + [Persist(0, now), ApplyCandidate(0)], Announce(0, false));
    StageCountsPersists(log, read + [Persist(0, now), ApplyCandidate(0)] + [Announce(0, false)], 0);
  }

  lemma RefusedThenCompleted(s: System, now: string)
    requires Enabled(s, Persist(0, now)) && Store.CompactionAborts(s.log) && s.generation == s.calls[0].generation
    ensures var a := Apply(s, Persist(0, now));
      var b := Apply(a, ApplyCandidate(0));
      var c := Apply(b, Announce(0, false));
      && Enabled(a, ApplyCandidate(0)) && Enabled(b, Announce(0, false))
      && c.log == s.log && 0 in c.calls && c.calls[0].persisted
      && c.calls[0].pc == Returned(Completed) && c.calls[0].live == s.calls[0].candidate
  {
  }

  /** Such a log: a session created from a dump that already counts a message. */
  lemma FreshLogCanBeRefused(dump: Fields, now: string)
    requires Store.IsDump(dump) && dump[MessageCount] == Num(1)
    ensures Store.CompactionAborts(Store.CreateLog(dump, now))
  {
    var log := Store.CreateLog(dump, now);
    Store.CreateIsConsistent(dump, now);
    Store.InlineAgrees(log, MessageCount);
    assert log[..1][..0] == [] && Messages(log[..1]) == [];
  }

  // ---------------------------------------------------------------- the stored log

  /** Only two kinds of step touch the log: another repository call, and a persist, which removes exactly
      the messages of the summarized prefix from the log as it is at that moment. */
  lemma LogChangesOnlyByPersist(s: System, step: Step)
    requires Enabled(s, step)
    ensures !step.Persist? && !step.Other? ==> Apply(s, step).log == s.log
    ensures step.Persist? ==>
      Messages(Apply(s, step).log) ==
        if Store.CompactionAborts(s.log) then Messages(s.log)
        else Store.KeptMessages(Messages(s.log), s.calls[step.call].prefix)
  {
    if step.Persist? && !Store.CompactionAborts(s.log) {
      var c := s.calls[step.call];
      Store.CompactionCommutesWithFold(s.log, Object(c.pc.metadata), c.prefix, step.now);
    }
  }

  /** No call of the run ever put the message into the prefix it summarizes. */
  ghost predicate NeverSummarized(s: System, id: string) {
    forall t :: t in s.calls ==> id !in s.calls[t].prefix
  }

  lemma AppendKeepsMessages(log: seq<Record>, op: Store.Op, m: Message)
    requires Appends(op) && m in Messages(log)
    ensures m in Messages(Store.Step(log, op))
  {
    var after := Store.Step(log, op);
    if op.CreateMessage? {
      var bump := if op.message.role == "user" then 1 else 0;
      AppendRecord(log, Msg(op.message));
      AppendRecord(log + [Msg(op.message)], StatsRecord(FieldsOf(log), bump, 0, 0, op.now));
    } else if after != log {
      assert after == log + [after[|log|]];
      AppendRecord(log, after[|log|]);
    }
  }

  /** Prefixes are fixed when a call is made, so a message never summarized by the end was never summarized. */
  lemma PrefixesStay(s: System, step: Step, id: string)
    requires Enabled(s, step) && NeverSummarized(Apply(s, step), id)
    ensures NeverSummarized(s, id)
  {
    forall t | t in s.calls ensures id !in s.calls[t].prefix {
      assert t in Apply(s, step).calls && Apply(s, step).calls[t].prefix == s.calls[t].prefix;
    }
  }

  /** Messages that arrive while a summary is being written survive: over any interleaving, a message that
      is in the log at some point and that no call summarizes is still in the log at the end. */
  lemma {:induction false} UnsummarizedMessagesSurvive(log: seq<Record>, steps: seq<Step>, k: nat, m: Message)
    requires k <= |steps| && Legal(log, steps)
    requires m in Messages(Run(log, steps[..k]).log)
    requires NeverSummarized(Run(log, steps), m.id)
    ensures m in Messages(Run(log, steps).log)
    decreases |steps|
  {
    if k == |steps| {
      assert steps[..k] == steps;
    } else {
      var init, last := steps[..|steps| - 1], steps[|steps| - 1];
      var s := Run(log, init);
      assert init[..k] == steps[..k];
      PrefixesStay(s, last, m.id);
      UnsummarizedMessagesSurvive(log, init, k, m);
      LogChangesOnlyByPersist(s, last);
      if last.Persist? && !Store.CompactionAborts(s.log) {
        var ms := Messages(s.log);
        var i :| 0 <= i < |ms| && ms[i] == m;
        var a := Store.SurvivorIndex(ms, s.calls[last.call].prefix, i);
      } else if last.Other? {
        AppendKeepsMessages(s.log, last.op, m);
      }
    }
  }

  // ---------------------------------------------------------------- metadata between read and persist

  predicate Past(pc: Pc) { pc.Applying? || pc.Ending? || pc.Returned? || pc.Raised? }

  /** Once a call has read the session it holds that metadata until it persists or gives up. */
  predicate HoldsOrPast(s: System, t: nat, metadata: map<string, string>) {
    t in s.calls && (s.calls[t].pc == Persisting(metadata) || Past(s.calls[t].pc))
  }

  lemma StepHoldsOrPast(s: System, step: Step, t: nat, metadata: map<string, string>)
    requires Enabled(s, step) && HoldsOrPast(s, t, metadata)
    ensures HoldsOrPast(Apply(s, step), t, metadata)
  {
    if Early(step) { HoldsEarly(s, step, t, metadata); } else { HoldsLate(s, step, t, metadata); }
  }

  lemma HoldsEarly(s: System, step: Step, t: nat, metadata: map<string, string>)
    requires Early(step) && Enabled(s, step) && HoldsOrPast(s, t, metadata)
    ensures HoldsOrPast(Apply(s, step), t, metadata)
  {
  }

  lemma HoldsLate(s: System, step: Step, t: nat, metadata: map<string, string>)
    requires !Early(step) && Enabled(s, step) && HoldsOrPast(s, t, metadata)
    ensures HoldsOrPast(Apply(s, step), t, metadata)
  {
  }

  lemma {:induction false} HoldsUntil(log: seq<Record>, steps: seq<Step>, i: nat, j: nat, t: nat, metadata: map<string, string>)
    requires Legal(log, steps) && i <= j <= |steps| && HoldsOrPast(Run(log, steps[..i]), t, metadata)
    ensures HoldsOrPast(Run(log, steps[..j]), t, metadata)
  {
    if i < j {
      HoldsUntil(log, steps, i, j - 1, t, metadata);
      StepAt(log, steps, j - 1);
      StepHoldsOrPast(Run(log, steps[..j - 1]), steps[j - 1], t, metadata);
    }
  }

  /** What a call stores: the metadata it read, with its summary. */
  function ReadAt(s: System, t: nat): map<string, string>
    requires t in s.calls
  {
    Store.Metadata(FieldsOf(s.log))["summary" := s.calls[t].summary]
  }

  /** The metadata that a persist at step `j` leaves, for a call that read the session at step `i`. */
  function StoredBy(log: seq<Record>, steps: seq<Step>, t: nat, i: nat, j: nat): map<string, string>
    requires i < j < |steps| && t in Run(log, steps[..i]).calls
  {
    var before := Run(log, steps[..j]).log;
    if Store.CompactionAborts(before) then Store.Metadata(FieldsOf(before)) else ReadAt(Run(log, steps[..i]), t)
  }

  /** Over any run, whatever happens between a call's reading of the session at step `i` and its persist at step
      `j`, the metadata it leaves is what it read then, with its summary, unless the store refuses. */
  lemma PersistStoresWhatWasRead(log: seq<Record>, steps: seq<Step>, t: nat, i: nat, j: nat)
    requires Legal(log, steps) && i < j < |steps|
    requires steps[i] == SessionRead(t) && steps[j].Persist? && steps[j].call == t
    ensures t in Run(log, steps[..i]).calls
    ensures Store.Metadata(FieldsOf(Run(log, steps[..j + 1]).log)) == StoredBy(log, steps, t, i, j)
  {
    StepAt(log, steps, i);
    var m := ReadAt(Run(log, steps[..i]), t);
    ReadHolds(Run(log, steps[..i]), t);
    HoldsUntil(log, steps, i + 1, j, t, m);
    StepAt(log, steps, j);
    PersistLeaves(Run(log, steps[..j]), t, steps[j].now, m);
  }

  lemma ReadHolds(s: System, t: nat)
    requires Enabled(s, SessionRead(t))
    ensures HoldsOrPast(Apply(s, SessionRead(t)), t, ReadAt(s, t))
  {
  }

  lemma PersistLeaves(s: System, t: nat, now: string, metadata: map<string, string>)
    requires Enabled(s, Persist(t, now)) && HoldsOrPast(s, t, metadata)
    ensures Store.Metadata(FieldsOf(Apply(s, Persist(t, now)).log)) ==
      if Store.CompactionAborts(s.log) then Store.Metadata(FieldsOf(s.log)) else metadata
  {
    if !Store.CompactionAborts(s.log) { AcceptedIsRewritten(s.log, metadata, s.calls[t].prefix, now); }
  }

  /** Once its summary has returned, a call keeps it until it has ended. */
  predicate Summarized(s: System, t: nat, summary: string) {
    t in s.calls && s.calls[t].summary == summary
    && (s.calls[t].pc.ReadingSession? || s.calls[t].pc.Persisting? || Past(s.calls[t].pc))
  }

  lemma StepKeepsSummary(s: System, step: Step, t: nat, summary: string)
    requires Enabled(s, step) && Summarized(s, t, summary)
    ensures Summarized(Apply(s, step), t, summary)
  {
    if Early(step) { SummaryKeptEarly(s, step, t, summary); } else { SummaryKeptLate(s, step, t, summary); }
  }

  lemma SummaryKeptEarly(s: System, step: Step, t: nat, summary: string)
    requires Early(step) && Enabled(s, step) && Summarized(s, t, summary)
    ensures Summarized(Apply(s, step), t, summary)
  {
  }

  lemma SummaryKeptLate(s: System, step: Step, t: nat, summary: string)
    requires !Early(step) && Enabled(s, step) && Summarized(s, t, summary)
    ensures Summarized(Apply(s, step), t, summary)
  {
  }

  lemma {:induction false} SummaryKeptUntil(log: seq<Record>, steps: seq<Step>, i: nat, j: nat, t: nat, summary: string)
    requires Legal(log, steps) && i <= j <= |steps| && Summarized(Run(log, steps[..i]), t, summary)
    ensures Summarized(Run(log, steps[..j]), t, summary)
  {
    if i < j {
      SummaryKeptUntil(log, steps, i, j - 1, t, summary);
      StepAt(log, steps, j - 1);
      StepKeepsSummary(Run(log, steps[..j - 1]), steps[j - 1], t, summary);
    }
  }

  lemma SummaryArrives(s: System, t: nat, summary: string)
    requires Enabled(s, SummaryReturns(t, summary))
    ensures Summarized(Apply(s, SummaryReturns(t, summary)), t, summary)
  {
  }

  /** Over any run, the summary a call stores is the one the summarizer returned to it. */
  lemma ReturnedSummaryIsStored(log: seq<Record>, steps: seq<Step>, t: nat, i: nat, j: nat)
    requires Legal(log, steps) && i < j < |steps| && !Store.CompactionAborts(Run(log, steps[..j]).log)
    requires steps[i].SummaryReturns? && steps[i].call == t && steps[j].Persist? && steps[j].call == t
    ensures var m := Store.Metadata(FieldsOf(Run(log, steps[..j + 1]).log));
      "summary" in m && m["summary"] == steps[i].summary
  {
    StepAt(log, steps, i);
    SummaryArrives(Run(log, steps[..i]), t, steps[i].summary);
    SummaryKeptUntil(log, steps, i + 1, j, t, steps[i].summary);
    StepAt(log, steps, j);
    EveryRunKeepsInvariant(log, steps[..j]);
    PersistStoresExactlyUnlessRefused(Run(log, steps[..j]), t, steps[j].now);
  }

  predicate Has(m: map<string, string>, key: string, value: string) { key in m && m[key] == value }

  lemma MergeTakesEffect(log: seq<Record>, updates: map<string, string>, now: string, key: string)
    requires key in updates
    ensures var m := Store.Metadata(FieldsOf(Store.Step(log, Store.MergeMetadata(updates, now))));
      key in m && m[key] == updates[key]
  {
    Store.AppendLookup(log, Store.MetadataPatch(Object(Store.Metadata(FieldsOf(log)) + updates), now), MetadataField);
  }

  /** A metadata merge that lands between the read and the persist takes effect at once, but survives the
      persist, key by key, exactly when what the call read, with its summary set, already had that value, or the
      store refuses to touch the log and the value was still there. */
  lemma MergeSurvivesPersistExactlyWhen(log: seq<Record>, steps: seq<Step>, t: nat, i: nat, k: nat, j: nat, key: string)
    requires Legal(log, steps) && i < k < j < |steps|
    requires steps[i] == SessionRead(t) && steps[j].Persist? && steps[j].call == t
    requires steps[k].Other? && steps[k].op.MergeMetadata? && key in steps[k].op.updates
    ensures var merged := Store.Metadata(FieldsOf(Run(log, steps[..k + 1]).log));
      key in merged && merged[key] == steps[k].op.updates[key]
    ensures t in Run(log, steps[..i]).calls
    ensures var read := ReadAt(Run(log, steps[..i]), t);
      var before := Run(log, steps[..j]).log;
      var stored := Store.Metadata(FieldsOf(Run(log, steps[..j + 1]).log));
      key in stored && stored[key] == steps[k].op.updates[key]
      <==> if Store.CompactionAborts(before) then Has(Store.Metadata(FieldsOf(before)), key, steps[k].op.updates[key])
           else Has(read, key, steps[k].op.updates[key])
  {
    PersistStoresWhatWasRead(log, steps, t, i, j);
    StepAt(log, steps, k);
    MergeTakesEffect(Run(log, steps[..k]).log, steps[k].op.updates, steps[k].op.now, key);
  }

  lemma MetadataKeepsAccepted(log: seq<Record>, metadata: Value, now: string)
    ensures Store.CompactionAborts(log + [Store.MetadataPatch(metadata, now)]) <==> Store.CompactionAborts(log)
  {
    var patch := Store.MetadataPatch(metadata, now);
    var after := log + [patch];
    AppendRecord(log, patch);
    assert after[..|log|] == log;
    assert Store.InlineFields(after) == Store.InlineFields(log) + Store.InlinePatch(patch);
    assert MessageCount !in Store.InlinePatch(patch);
  }

  lemma MergeKeepsAccepted(log: seq<Record>, updates: map<string, string>, now: string)
    requires !Store.CompactionAborts(log)
    ensures !Store.CompactionAborts(Store.Step(log, Store.MergeMetadata(updates, now)))
  {
    if updates != map[] { MetadataKeepsAccepted(log, Object(Store.Metadata(FieldsOf(log)) + updates), now); }
  }

  /** Concretely: on any log the store accepts, read, merge a new key, persist. The merged key is gone. */
  lemma MergedKeyIsLost(log: seq<Record>, id: string, summary: string, before: string, candidate: string,
      key: string, value: string, now: string)
    requires !Store.CompactionAborts(log) && summary != ""
    requires key != "summary" && key !in Store.Metadata(FieldsOf(log))
    ensures var read := UntilRead(id, summary, before, candidate);
      var merge := Other(Store.MergeMetadata(map[key := value], now));
      var steps := read + [merge, Persist(0, now)];
      && Legal(log, steps)
      && key in Store.Metadata(FieldsOf(Run(log, read + [merge]).log))
      && key !in Store.Metadata(FieldsOf(Run(log, steps).log))
  {
    var read := UntilRead(id, summary, before, candidate);
    var op := Store.MergeMetadata(map[key := value], now);
    UntilReadRuns(log, id, summary, before, candidate);
    Snoc(log, read, Other(op));
    SnocTwo(log, read, Other(op), Persist(0, now));
    MergeTakesEffect(log, op.updates, now, key);
    MergeKeepsAccepted(log, op.updates, now);
    EveryRunKeepsInvariant(log, read + [Other(op)]);
    PersistStoresExactlyUnlessRefused(Run(log, read + [Other(op)]), 0, now);
  }
}
