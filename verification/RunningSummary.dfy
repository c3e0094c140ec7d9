/** Background running summaries and the order of their writes (server/agents/running_summary.py). */
module RunningSummary {
  import opened Wrappers

  /** Where one background task stands between awaits. Waiting: it passed the freshness check and queues on
      the storage lock. Done: it wrote, was dropped, had nothing to do, failed or was cancelled. */
  datatype Pc = Created | Reading | Summarizing | Summarized | Waiting | Done

  datatype Task = Task(generation: nat, pc: Pc)

  /** In line for the storage lock: some other repository call, or a summary task about to write. */
  datatype Waiter = Other | Summary(task: nat, generation: nat)

  /** One session: generation counter, tasks, holder of the summarizer lock, whether another repository
      call holds the storage lock, the line behind it, and the generations written, in write order. */
  datatype System = System(
    counter: nat, tasks: map<nat, Task>, summarizer: Option<nat>,
    storageHeld: bool, queue: seq<Waiter>, written: seq<nat>)

  datatype Step =
    | Schedule(task: nat)                        // a turn finished
    | Start(task: nat)                           // its first run, up to its first await
    | TakeSummarizer(task: nat)                  // both reads returned and the summarizer is free
    | SummaryReturns(task: nat, usable: bool)
    | Check(task: nat)                           // freshness check and, without an await, the call to update
    | Abandon(task: nat)                         // nothing to summarize, an exception, or cancellation
    | OtherCallsStorage                          // another repository call takes or queues for the lock
    | StorageReleased
    | Grant                                      // the first in line gets the free lock

  const Initial := System(0, map[], None, false, [], [])

  function SetPc(s: System, t: nat, pc: Pc): System {
    if t in s.tasks then s.(tasks := s.tasks[t := s.tasks[t].(pc := pc)]) else s
  }

  predicate At(s: System, t: nat, pc: Pc) { t in s.tasks && s.tasks[t].pc == pc }

  predicate Enabled(s: System, step: Step) {
    match step
    case Schedule(t) => t !in s.tasks
    case Start(t) => At(s, t, Created)
    case TakeSummarizer(t) => At(s, t, Reading) && s.summarizer == None
    case SummaryReturns(t, _) => At(s, t, Summarizing)
    case Check(t) => At(s, t, Summarized)
    case Abandon(t) => t in s.tasks && s.tasks[t].pc != Done
    case OtherCallsStorage => true
    case StorageReleased => s.storageHeld
    case Grant => !s.storageHeld && s.queue != []
  }

  function Without(q: seq<Waiter>, t: nat): seq<Waiter> {
    if q == [] then []
    else if q[0].Summary? && q[0].task == t then Without(q[1..], t)
    else [q[0]] + Without(q[1..], t)
  }

  function Apply(s: System, step: Step): System {
    match step
    case Schedule(t) => s.(counter := s.counter + 1, tasks := s.tasks[t := Task(s.counter + 1, Created)])
    case Start(t) => SetPc(s, t, if t in s.tasks && s.tasks[t].generation == s.counter then Reading else Done)
    case TakeSummarizer(t) => SetPc(s, t, Summarizing).(summarizer := Some(t))
    case SummaryReturns(t, usable) => SetPc(s, t, if usable then Summarized else Done).(summarizer := None)
    case Check(t) =>
      if t !in s.tasks || s.tasks[t].generation != s.counter then SetPc(s, t, Done)
      else if !s.storageHeld && s.queue == [] then SetPc(s, t, Done).(written := s.written + [s.counter])
      else SetPc(s, t, Waiting).(queue := s.queue + [Summary(t, s.counter)])
    case Abandon(t) =>
      SetPc(s, t, Done).(summarizer := if s.summarizer == Some(t) then None else s.summarizer,
                         queue := Without(s.queue, t))
    case OtherCallsStorage =>
      if !s.storageHeld && s.queue == [] then s.(storageHeld := true) else s.(queue := s.queue + [Other])
    case StorageReleased => s.(storageHeld := false)
    case Grant =>
      if s.queue == [] then s
      else match s.queue[0]
        case Other => s.(queue := s.queue[1..], storageHeld := true)
        // the write has no await: the writer is done and the lock free again
        case Summary(t, g) => SetPc(s, t, Done).(queue := s.queue[1..], written := s.written + [g])
  }

  function Run(steps: seq<Step>): System {
    if steps == [] then Initial else Apply(Run(steps[..|steps| - 1]), steps[|steps| - 1])
  }

  predicate Legal(steps: seq<Step>) {
    steps == [] || (Legal(steps[..|steps| - 1]) && Enabled(Run(steps[..|steps| - 1]), steps[|steps| - 1]))
  }

  // ---------------------------------------------------------------- what every run keeps

  ghost predicate Increasing(xs: seq<nat>) {
    forall i, j :: 0 <= i < j < |xs| ==> xs[i] < xs[j]
  }

  function Newest(written: seq<nat>): nat {
    if written == [] then 0 else written[|written| - 1]
  }

  /** The summary tasks in line have increasing generations, all above `low`. */
  ghost predicate Ascends(low: nat, q: seq<Waiter>)
    decreases |q|
  {
    q == [] || match q[0]
      case Other => Ascends(low, q[1..])
      case Summary(_, g) => g > low && Ascends(g, q[1..])
  }

  lemma {:induction false} AscendsWeaken(low: nat, high: nat, q: seq<Waiter>)
    requires low <= high && Ascends(high, q)
    ensures Ascends(low, q)
    decreases |q|
  {
    if q != [] && q[0].Other? { AscendsWeaken(low, high, q[1..]); }
  }

  lemma {:induction false} AscendsAppend(low: nat, q: seq<Waiter>, w: Waiter)
    requires Ascends(low, q)
    requires w.Summary? ==> w.generation > low && forall v :: v in q && v.Summary? ==> v.generation < w.generation
    ensures Ascends(low, q + [w])
    decreases |q|
  {
    if q == [] {
      assert (q + [w])[1..] == [];
    } else {
      assert (q + [w])[1..] == q[1..] + [w];
      assert q[0] in q;
      AscendsAppend(if q[0].Other? then low else q[0].generation, q[1..], w);
    }
  }

  lemma {:induction false} AscendsWithout(low: nat, q: seq<Waiter>, t: nat)
    requires Ascends(low, q)
    ensures Ascends(low, Without(q, t))
    ensures forall w :: w in Without(q, t) ==> w in q && (w.Summary? ==> w.task != t)
    decreases |q|
  {
    if q != [] {
      if q[0].Other? {
        AscendsWithout(low, q[1..], t);
      } else {
        AscendsWithout(q[0].generation, q[1..], t);
        if q[0].task == t { AscendsWeaken(low, q[0].generation, Without(q[1..], t)); }
      }
    }
  }

  /** Generations identify tasks, and a generation that was written belongs to a finished task. */
  ghost predicate TasksOk(s: System) {
    && (forall t :: t in s.tasks ==> 0 < s.tasks[t].generation <= s.counter)
    && (forall t, u :: t in s.tasks && u in s.tasks && t != u ==> s.tasks[t].generation != s.tasks[u].generation)
    && (forall t :: t in s.tasks && s.tasks[t].generation in s.written ==> s.tasks[t].pc == Done)
  }

  ghost predicate QueueOk(s: System) {
    forall w :: w in s.queue && w.Summary? ==> w.task in s.tasks && s.tasks[w.task] == Task(w.generation, Waiting)
  }

  ghost predicate Invariant(s: System) {
    && TasksOk(s) && QueueOk(s)
    && Increasing(s.written) && Newest(s.written) <= s.counter
    && Ascends(Newest(s.written), s.queue)
  }

  /** A task that passes the freshness check has the largest generation of all that passed before. */
  lemma CheckedIsNewest(s: System, t: nat)
    requires Invariant(s) && At(s, t, Summarized) && s.tasks[t].generation == s.counter
    ensures Newest(s.written) < s.counter
    ensures forall v :: v in s.queue && v.Summary? ==> v.generation < s.counter
  {
    if s.written != [] { assert Newest(s.written) in s.written; }
    forall v | v in s.queue && v.Summary? ensures v.generation < s.counter {
      assert v.task != t;
    }
  }

  lemma Extend(written: seq<nat>, g: nat)
    requires Increasing(written) && (written == [] || Newest(written) < g)
    ensures Increasing(written + [g]) && Newest(written + [g]) == g
    ensures forall x :: x in written + [g] <==> x in written || x == g
  {
    forall i | 0 <= i < |written| ensures written[i] <= Newest(written) {}
  }

  lemma {:induction false} NothingAbove(written: seq<nat>)
    requires Increasing(written)
    ensures forall x :: x in written ==> x <= Newest(written)
  {
    forall i | 0 <= i < |written| ensures written[i] <= Newest(written) {}
  }

  lemma WrittenNow(s: System, t: nat)
    requires Invariant(s) && At(s, t, Summarized) && s.tasks[t].generation == s.counter && s.queue == []
    ensures Invariant(SetPc(s, t, Done).(written := s.written + [s.counter]))
  {
    CheckedIsNewest(s, t);
    Extend(s.written, s.counter);
  }

  lemma QueuedNow(s: System, t: nat)
    requires Invariant(s) && At(s, t, Summarized) && s.tasks[t].generation == s.counter
    ensures Invariant(SetPc(s, t, Waiting).(queue := s.queue + [Summary(t, s.counter)]))
  {
    CheckedIsNewest(s, t);
    AscendsAppend(Newest(s.written), s.queue, Summary(t, s.counter));
    if s.written != [] { NothingAbove(s.written); }
  }

  lemma CheckKeepsInvariant(s: System, t: nat)
    requires Invariant(s) && Enabled(s, Check(t))
    ensures Invariant(Apply(s, Check(t)))
  {
    if s.tasks[t].generation != s.counter {
      Moves(s, t, Apply(s, Check(t)));
    } else if !s.storageHeld && s.queue == [] {
      WrittenNow(s, t);
    } else {
      QueuedNow(s, t);
    }
  }

  lemma GrantKeepsInvariant(s: System)
    requires Invariant(s) && Enabled(s, Grant)
    ensures Invariant(Apply(s, Grant))
  {
    var head, after := s.queue[0], Apply(s, Grant);
    assert head in s.queue;
    assert forall w :: w in after.queue ==> w in s.queue;
    if head.Summary? {
      AscendsDistinct(head.generation, s.queue[1..]);
      forall w | w in after.queue && w.Summary?
        ensures w.task in after.tasks && after.tasks[w.task] == Task(w.generation, Waiting)
      {
        assert w.generation > head.generation;
      }
    }
  }

  lemma {:induction false} AscendsDistinct(low: nat, q: seq<Waiter>)
    requires Ascends(low, q)
    ensures forall w :: w in q && w.Summary? ==> w.generation > low
    decreases |q|
  {
    if q != [] {
      AscendsDistinct(if q[0].Other? then low else q[0].generation, q[1..]);
    }
  }

  lemma AbandonKeepsInvariant(s: System, t: nat)
    requires Invariant(s) && Enabled(s, Abandon(t))
    ensures Invariant(Apply(s, Abandon(t)))
  {
    AscendsWithout(Newest(s.written), s.queue, t);
  }

  /** A task that is neither queued nor finished may move on. */
  lemma Moves(s: System, t: nat, after: System)
    requires Invariant(s) && t in s.tasks && s.tasks[t].pc != Waiting && s.tasks[t].pc != Done
    requires after.counter == s.counter && after.queue == s.queue && after.written == s.written
    requires exists pc :: after.tasks == s.tasks[t := s.tasks[t].(pc := pc)]
    ensures Invariant(after)
  {
  }

  lemma StepKeepsInvariant(s: System, step: Step)
    requires Invariant(s) && Enabled(s, step)
    ensures Invariant(Apply(s, step))
  {
    match step
    case Check(t) => CheckKeepsInvariant(s, t);
    case Grant => GrantKeepsInvariant(s);
    case Abandon(t) => AbandonKeepsInvariant(s, t);
    case OtherCallsStorage => AscendsAppend(Newest(s.written), s.queue, Other);
    case Schedule(t) => NothingAbove(s.written);
    case Start(t) => Moves(s, t, Apply(s, step));
    case TakeSummarizer(t) => Moves(s, t, Apply(s, step));
    case SummaryReturns(t, _) => Moves(s, t, Apply(s, step));
    case StorageReleased =>
  }

  /** In every interleaving the generations that write are strictly increasing in write order, so a
      superseded summary never overwrites a newer one. */
  lemma {:induction false} WritesAreIncreasing(steps: seq<Step>)
    requires Legal(steps)
    ensures Invariant(Run(steps)) && Increasing(Run(steps).written)
  {
    if steps != [] {
      WritesAreIncreasing(steps[..|steps| - 1]);
      StepKeepsInvariant(Run(steps[..|steps| - 1]), steps[|steps| - 1]);
    }
  }

  // ---------------------------------------------------------------- freshness of a write

  /** Turns scheduled by these steps. */
  function Schedules(steps: seq<Step>): nat {
    if steps == [] then 0
    else if steps[|steps| - 1].Schedule? then Schedules(steps[..|steps| - 1]) + 1
    else Schedules(steps[..|steps| - 1])
  }

  lemma {:induction false} NoSchedules(steps: seq<Step>)
    ensures Schedules(steps) == 0 <==> forall k :: 0 <= k < |steps| ==> !steps[k].Schedule?
  {
    if steps != [] {
      var init := steps[..|steps| - 1];
      NoSchedules(init);
      assert forall k :: 0 <= k < |init| ==> init[k] == steps[k];
    }
  }

  lemma StepCounts(s: System, step: Step)
    ensures Apply(s, step).counter == if step.Schedule? then s.counter + 1 else s.counter
  {
  }

  lemma {:induction false} CounterCounts(steps: seq<Step>, i: nat)
    requires i <= |steps|
    ensures Run(steps).counter == Run(steps[..i]).counter + Schedules(steps[i..])
  {
    if i == |steps| {
      assert steps[..i] == steps && steps[i..] == [];
    } else {
      var init := steps[..|steps| - 1];
      CounterCounts(init, i);
      StepCounts(Run(init), steps[|init|]);
      assert init[..i] == steps[..i] && steps[i..][..|steps| - 1 - i] == init[i..];
    }
  }

  lemma {:induction false} LegalPrefix(steps: seq<Step>, k: nat)
    requires Legal(steps) && k <= |steps|
    ensures Legal(steps[..k])
  {
    if k == |steps| {
      assert steps[..k] == steps;
    } else {
      LegalPrefix(steps[..|steps| - 1], k);
      assert steps[..|steps| - 1][..k] == steps[..k];
    }
  }

  lemma StartsWaiting(s: System, step: Step, t: nat)
    requires Enabled(s, step) && !At(s, t, Waiting) && At(Apply(s, step), t, Waiting)
    ensures step == Check(t) && At(s, t, Summarized)
    ensures s.tasks[t].generation == s.counter == Apply(s, step).tasks[t].generation
  {
  }

  lemma KeepsWaiting(s: System, step: Step, t: nat)
    requires Enabled(s, step) && At(s, t, Waiting) && At(Apply(s, step), t, Waiting)
    ensures Apply(s, step).tasks[t].generation == s.tasks[t].generation
  {
  }

  /** A waiting task passed its freshness check at some step of the run, as the latest generation of that moment. */
  lemma {:induction false} WaitingWasChecked(steps: seq<Step>, t: nat) returns (i: nat)
    requires Legal(steps) && At(Run(steps), t, Waiting)
    ensures i < |steps| && steps[i] == Check(t) && At(Run(steps[..i]), t, Summarized)
    ensures Run(steps).tasks[t].generation == Run(steps[..i]).counter
  {
    var init, last := steps[..|steps| - 1], steps[|steps| - 1];
    if At(Run(init), t, Waiting) {
      i := WaitingWasChecked(init, t);
      assert init[..i] == steps[..i];
      KeepsWaiting(Run(init), last, t);
    } else {
      StartsWaiting(Run(init), last, t);
      i := |init|;
    }
  }

  lemma WriterOf(s: System, step: Step)
    requires Invariant(s) && Enabled(s, step) && Apply(s, step).written != s.written
    ensures !s.storageHeld
    ensures if step.Check? then Apply(s, step).written == s.written + [s.counter] && At(s, step.task, Summarized)
      else
        && step.Grant? && s.queue[0].Summary? && At(s, s.queue[0].task, Waiting)
        && Apply(s, step).written == s.written + [s.tasks[s.queue[0].task].generation]
  {
    if step.Grant? { assert s.queue[0] in s.queue; }
  }

  /** The counter stands still between two points of a run exactly when no turn is scheduled between them. */
  lemma StandsStillExactlyWhen(steps: seq<Step>, i: nat, j: nat)
    requires i <= j <= |steps|
    ensures Run(steps[..i]).counter == Run(steps[..j]).counter <==> forall k :: i <= k < j ==> !steps[k].Schedule?
  {
    var before := steps[..j];
    assert before[..i] == steps[..i];
    CounterCounts(before, i);
    var between := before[i..];
    NoSchedules(between);
    forall k | i <= k < j ensures between[k - i] == steps[k] {}
    forall k | 0 <= k < |between| ensures between[k] == steps[k + i] {}
  }

  lemma LastStep(steps: seq<Step>, j: nat)
    requires Legal(steps) && j < |steps|
    ensures Legal(steps[..j]) && Enabled(Run(steps[..j]), steps[j])
    ensures Run(steps[..j + 1]) == Apply(Run(steps[..j]), steps[j])
  {
    LegalPrefix(steps, j + 1);
    assert steps[..j + 1][..j] == steps[..j];
  }

  /** The documentation says a summary is applied only while its generation is the latest. Over any run, the
      write at step `j` belongs to a task that passed its freshness check at a step `i`, at once or after waiting
      for the storage lock, while no other call holds that, and what it writes is of the generation that was the latest then. It is still the
      latest when it is written exactly when no turn was scheduled in between. */
  lemma WriteIsLatestExactlyUnlessSuperseded(steps: seq<Step>, j: nat) returns (i: nat)
    requires Legal(steps) && j < |steps| && Run(steps[..j + 1]).written != Run(steps[..j]).written
    ensures i <= j && steps[i].Check? && At(Run(steps[..i]), steps[i].task, Summarized)
    ensures i < j ==> steps[j] == Grant && At(Run(steps[..j]), steps[i].task, Waiting)
    ensures Run(steps[..j + 1]).written == Run(steps[..j]).written + [Run(steps[..i]).counter]
    ensures !Run(steps[..j]).storageHeld
    ensures Run(steps[..i]).counter == Run(steps[..j]).counter <==> forall k :: i <= k < j ==> !steps[k].Schedule?
  {
    LastStep(steps, j);
    WritesAreIncreasing(steps[..j]);
    WriterOf(Run(steps[..j]), steps[j]);
    if steps[j].Check? {
      i := j;
    } else {
      i := WaitingWasChecked(steps[..j], Run(steps[..j]).queue[0].task);
      assert steps[..j][..i] == steps[..i];
    }
    StandsStillExactlyWhen(steps, i, j);
  }

  // ---------------------------------------------------------------- where a write comes from

  predicate HasSummary(s: System, t: nat) { At(s, t, Summarized) || At(s, t, Waiting) }

  predicate Began(s: System, t: nat) { At(s, t, Reading) || At(s, t, Summarizing) || HasSummary(s, t) }

  lemma GetsSummary(s: System, step: Step, t: nat)
    requires Enabled(s, step) && !HasSummary(s, t) && HasSummary(Apply(s, step), t)
    ensures step == SummaryReturns(t, true) && At(s, t, Summarizing)
  {
  }

  lemma Begins(s: System, step: Step, t: nat)
    requires Enabled(s, step) && !Began(s, t) && Began(Apply(s, step), t)
    ensures step == Start(t) && t in s.tasks && s.tasks[t].generation == s.counter
  {
  }

  /** A task with a summary got a usable one from the summarizer at some step. */
  lemma {:induction false} SummaryCameFrom(steps: seq<Step>, t: nat) returns (r: nat)
    requires Legal(steps) && HasSummary(Run(steps), t)
    ensures r < |steps| && steps[r] == SummaryReturns(t, true) && At(Run(steps[..r]), t, Summarizing)
  {
    var init := steps[..|steps| - 1];
    if HasSummary(Run(init), t) {
      r := SummaryCameFrom(init, t);
      assert init[..r] == steps[..r];
    } else {
      GetsSummary(Run(init), steps[|init|], t);
      r := |init|;
    }
  }

  /** A task that began was the latest when it started. */
  lemma {:induction false} StartedAsLatest(steps: seq<Step>, t: nat) returns (i: nat)
    requires Legal(steps) && Began(Run(steps), t)
    ensures i < |steps| && steps[i] == Start(t)
    ensures t in Run(steps[..i]).tasks && Run(steps[..i]).tasks[t].generation == Run(steps[..i]).counter
  {
    var init := steps[..|steps| - 1];
    if Began(Run(init), t) {
      i := StartedAsLatest(init, t);
      assert init[..i] == steps[..i];
    } else {
      Begins(Run(init), steps[|init|], t);
      i := |init|;
    }
  }

  /** Over any run, whatever is written comes from a task that started as the latest one and then got a usable
      summary: a task superseded before its start asks for none, and an unusable summary is never written. */
  lemma WriteHasUsableSummary(steps: seq<Step>, j: nat) returns (t: nat, i: nat, r: nat)
    requires Legal(steps) && j < |steps| && Run(steps[..j + 1]).written != Run(steps[..j]).written
    ensures t in Run(steps[..j]).tasks
    ensures Run(steps[..j + 1]).written == Run(steps[..j]).written + [Run(steps[..j]).tasks[t].generation]
    ensures i < r < j && steps[i] == Start(t) && steps[r] == SummaryReturns(t, true)
    ensures t in Run(steps[..i]).tasks && Run(steps[..i]).tasks[t].generation == Run(steps[..i]).counter
  {
    LastStep(steps, j);
    WritesAreIncreasing(steps[..j]);
    WriterOf(Run(steps[..j]), steps[j]);
    t := if steps[j].Check? then steps[j].task else Run(steps[..j]).queue[0].task;
    r := SummaryCameFrom(steps[..j], t);
    assert steps[..j][..r] == steps[..r];
    LegalPrefix(steps, r);
    i := StartedAsLatest(steps[..r], t);
    assert steps[..r][..i] == steps[..i];
  }

  /** A task holds the summarizer exactly while it is being summarized, so at most one is at a time. */
  lemma {:induction false} OneSummarizerAtATime(steps: seq<Step>, t: nat)
    requires Legal(steps)
    ensures At(Run(steps), t, Summarizing) <==> Run(steps).summarizer == Some(t)
    decreases |steps|
  {
    if steps != [] {
      var init := steps[..|steps| - 1];
      forall u: nat ensures At(Run(init), u, Summarizing) <==> Run(init).summarizer == Some(u) {
        OneSummarizerAtATime(init, u);
      }
      WritesAreIncreasing(init);
      SummarizerHeld(Run(init), steps[|init|], t);
    }
  }

  lemma SummarizerHeld(s: System, step: Step, t: nat)
    requires QueueOk(s) && Enabled(s, step)
    requires forall u: nat :: At(s, u, Summarizing) <==> s.summarizer == Some(u)
    ensures At(Apply(s, step), t, Summarizing) <==> Apply(s, step).summarizer == Some(t)
  {
    assert At(s, t, Summarizing) <==> s.summarizer == Some(t);
    if step.Grant? { assert s.queue[0] in s.queue; }
  }

  // ---------------------------------------------------------------- nothing is lost

  /** Where a summary that passed its check is: written, or waiting for the lock in its place in line. */
  ghost predicate KeptInLine(s: System, t: nat, g: nat) {
    g in s.written || (At(s, t, Waiting) && Summary(t, g) in s.queue)
  }

  lemma {:induction false} WithoutOther(q: seq<Waiter>, t: nat, w: Waiter)
    requires w in q && w.Summary? && w.task != t
    ensures w in Without(q, t)
    decreases |q|
  {
    if q[0] != w { WithoutOther(q[1..], t, w); }
  }

  lemma StepKeepsInLine(s: System, step: Step, t: nat, g: nat)
    requires QueueOk(s) && Enabled(s, step) && KeptInLine(s, t, g) && step != Abandon(t)
    ensures KeptInLine(Apply(s, step), t, g)
  {
    if g !in s.written {
      if step.Abandon? { WithoutOther(s.queue, step.task, Summary(t, g)); }
      if step.Grant? {
        assert s.queue[0] in s.queue && s.queue == [s.queue[0]] + s.queue[1..];
      }
    }
  }

  /** Over any run, a summary that passes its check as the latest is written, unless its task is cancelled while it
      waits for the storage lock: until then it keeps its place in line. */
  lemma {:induction false} CheckedSummaryIsWritten(steps: seq<Step>, i: nat, t: nat)
    requires Legal(steps) && i < |steps| && steps[i] == Check(t)
    requires t in Run(steps[..i]).tasks && Run(steps[..i]).tasks[t].generation == Run(steps[..i]).counter
    requires forall k :: i < k < |steps| ==> steps[k] != Abandon(t)
    ensures KeptInLine(Run(steps), t, Run(steps[..i]).counter)
    ensures Run(steps).queue == [] ==> Run(steps[..i]).counter in Run(steps).written
    decreases |steps|
  {
    var init := steps[..|steps| - 1];
    if i < |init| {
      assert init[..i] == steps[..i] && forall k :: 0 <= k < |init| ==> init[k] == steps[k];
      CheckedSummaryIsWritten(init, i, t);
      WritesAreIncreasing(init);
      StepKeepsInLine(Run(init), steps[|init|], t, Run(steps[..i]).counter);
    }
  }

  function OthersIn(q: seq<Waiter>): nat {
    if q == [] then 0 else (if q[0].Other? then 1 else 0) + OthersIn(q[1..])
  }

  function OtherCalls(steps: seq<Step>): nat {
    if steps == [] then 0
    else OtherCalls(steps[..|steps| - 1]) + (if steps[|steps| - 1].OtherCallsStorage? then 1 else 0)
  }

  function Releases(steps: seq<Step>): nat {
    if steps == [] then 0
    else Releases(steps[..|steps| - 1]) + (if steps[|steps| - 1].StorageReleased? then 1 else 0)
  }

  lemma {:induction false} OthersSnoc(q: seq<Waiter>, w: Waiter)
    ensures OthersIn(q + [w]) == OthersIn(q) + (if w.Other? then 1 else 0)
  {
    if q == [] {
      assert (q + [w])[1..] == [];
    } else {
      assert (q + [w])[1..] == q[1..] + [w];
      OthersSnoc(q[1..], w);
    }
  }

  lemma {:induction false} OthersWithout(q: seq<Waiter>, t: nat)
    ensures OthersIn(Without(q, t)) == OthersIn(q)
    decreases |q|
  {
    if q != [] {
      OthersWithout(q[1..], t);
      if !(q[0].Summary? && q[0].task == t) { assert ([q[0]] + Without(q[1..], t))[1..] == Without(q[1..], t); }
    }
  }

  lemma StepServesOthers(s: System, step: Step)
    requires Enabled(s, step)
    ensures var after := Apply(s, step);
      OthersIn(after.queue) + (if after.storageHeld then 1 else 0) + (if step.StorageReleased? then 1 else 0)
      == OthersIn(s.queue) + (if s.storageHeld then 1 else 0) + (if step.OtherCallsStorage? then 1 else 0)
  {
    match step
    case Check(t) => OthersSnoc(s.queue, Summary(t, s.counter));
    case OtherCallsStorage => OthersSnoc(s.queue, Other);
    case Abandon(t) => OthersWithout(s.queue, t);
    case _ =>
  }

  /** Over any run, every other call of the storage has released the lock, holds it, or waits in line for it. */
  lemma {:induction false} OtherCallsAreServed(steps: seq<Step>)
    requires Legal(steps)
    ensures OtherCalls(steps) ==
      Releases(steps) + (if Run(steps).storageHeld then 1 else 0) + OthersIn(Run(steps).queue)
  {
    if steps != [] {
      var init := steps[..|steps| - 1];
      OtherCallsAreServed(init);
      StepServesOthers(Run(init), steps[|init|]);
    }
  }

  lemma Snoc(steps: seq<Step>, step: Step)
    requires Legal(steps) && Enabled(Run(steps), step)
    ensures Legal(steps + [step]) && Run(steps + [step]) == Apply(Run(steps), step)
  {
    assert (steps + [step])[..|steps|] == steps;
  }

  lemma SnocThree(steps: seq<Step>, a: Step, b: Step, c: Step, before: System, after: System)
    requires Legal(steps) && Run(steps) == before && Enabled(before, a) && Enabled(Apply(before, a), b)
    requires Enabled(Apply(Apply(before, a), b), c) && Apply(Apply(Apply(before, a), b), c) == after
    ensures Legal(steps + [a, b, c]) && Run(steps + [a, b, c]) == after
  {
    Snoc(steps, a);
    Snoc(steps + [a], b);
    Snoc(steps + [a] + [b], c);
    assert steps + [a] + [b] + [c] == steps + [a, b, c];
  }

  const STARTED := System(1, map[1 := Task(1, Reading)], None, true, [], [])
  const WAITING := System(1, map[1 := Task(1, Waiting)], None, true, [Summary(1, 1)], [])
  const OVERTAKEN := System(2, map[1 := Task(1, Done), 2 := Task(2, Created)], None, false, [], [1])

  /** Another call holds the storage lock and the first task starts; its summary passes the check and waits; a
      second turn is scheduled before the lock is free. */
  function SupersededRun(): seq<Step> {
    [OtherCallsStorage, Schedule(1), Start(1)]
    + [TakeSummarizer(1), SummaryReturns(1, true), Check(1)]
    + [Schedule(2), StorageReleased, Grant]
  }

  lemma Starts()
    ensures Legal([OtherCallsStorage, Schedule(1), Start(1)]) && Run([OtherCallsStorage, Schedule(1), Start(1)]) == STARTED
  {
    SnocThree([], OtherCallsStorage, Schedule(1), Start(1), Initial, STARTED);
    assert [] + [OtherCallsStorage, Schedule(1), Start(1)] == [OtherCallsStorage, Schedule(1), Start(1)];
  }

  lemma Waits(steps: seq<Step>)
    requires Legal(steps) && Run(steps) == STARTED
    ensures var all := steps + [TakeSummarizer(1), SummaryReturns(1, true), Check(1)];
      Legal(all) && Run(all) == WAITING
  {
    SnocThree(steps, TakeSummarizer(1), SummaryReturns(1, true), Check(1), STARTED, WAITING);
  }

  lemma IsOvertaken(steps: seq<Step>)
    requires Legal(steps) && Run(steps) == WAITING
    ensures var all := steps + [Schedule(2), StorageReleased, Grant];
      Legal(all) && Run(all) == OVERTAKEN
  {
    assert WAITING.queue[1..] == [];
    SnocThree(steps, Schedule(2), StorageReleased, Grant, WAITING, OVERTAKEN);
  }

  /** Concretely: this legal run writes the first summary after a second turn was scheduled. */
  lemma SupersededSummaryCanBeWritten()
    ensures Legal(SupersededRun())
    ensures Run(SupersededRun()).written == [1] && Run(SupersededRun()).counter == 2
  {
    Starts();
    Waits([OtherCallsStorage, Schedule(1), Start(1)]);
    IsOvertaken([OtherCallsStorage, Schedule(1), Start(1)] + [TakeSummarizer(1), SummaryReturns(1, true), Check(1)]);
  }
}
