/** Atomic document writes with a one-version backup (server/storage/atomic.py, 69-176). */
module AtomicFile {
  import opened Utf8
  import opened Wrappers

  /** File content: a document some writer wrote, which reads back as itself, or bytes from outside. */
  datatype Content = Doc(value: string) | Foreign(bytes: Bytes)

  /** What parsing a text gives. Erred: an error other than rejection, as for an integer with too many digits
      or for nesting that exhausts the interpreter's stack. */
  datatype Verdict = Document(doc: string) | Rejected | Erred

  type Parser = Bytes -> Verdict

  /** Bytes whose reading raises an error that `read_json` does not catch. */
  predicate Fails(parse: Parser, bytes: Bytes) { !Decodes(bytes) || parse(bytes).Erred? }

  predicate Rejects(parse: Parser, bytes: Bytes) { Decodes(bytes) && parse(bytes).Rejected? }

  predicate IsForeign(c: Option<Content>) { c.Some? && c.value.Foreign? }

  predicate IsDoc(c: Option<Content>) { c.Some? && c.value.Doc? }

  /** The document and its backup on disk; temporary files are never read. */
  datatype Disk = Disk(primary: Option<Content>, backup: Option<Content>)

  /** Where one writer stands. Staged: its temporary file is complete. The other stages hold the target lock. */
  datatype Stage =
    | Staged(doc: string)
    | Locked(doc: string)
    | Snapshotted(doc: string, previous: Content)   // previous content read and staged for the backup
    | Ready(doc: string)                            // backup replaced, or given up
    | Finished(doc: string)                         // primary replaced, lock released
    | Failed(doc: string)                           // raised; primary untouched by this writer

  /** `committed` lists the documents that became the primary, oldest first; `damaged` says whether
      something outside has overwritten the primary since the last commit. */
  datatype System = System(disk: Disk, writers: map<nat, Stage>, committed: seq<string>, damaged: bool)

  predicate HoldsLock(s: Stage) { s.Locked? || s.Snapshotted? || s.Ready? }

  ghost predicate LockFree(s: System) {
    forall w :: w in s.writers ==> !HoldsLock(s.writers[w])
  }

  function SetStage(s: System, w: nat, stage: Stage): System {
    s.(writers := s.writers[w := stage])
  }

  datatype Step =
    | Stage(writer: nat, doc: string)
    | Lock(writer: nat, backupWanted: bool)
    | ReadPrevious(writer: nat, readFails: bool)
    | ReplaceBackup(writer: nat, replaceFails: bool)
    | ReplacePrimary(writer: nat, replaceFails: bool)
    | Crash                          // every writer is gone, the disk stays
    | Corrupt(bytes: Bytes)          // something outside overwrites the primary

  /** One step is one file-system operation; any of them may fail as the source allows. */
  ghost predicate Enabled(s: System, step: Step) {
    match step
    case Stage(w, _) => w !in s.writers
    case Lock(w, _) => w in s.writers && s.writers[w].Staged? && LockFree(s)
    case ReadPrevious(w, _) => w in s.writers && s.writers[w].Locked?
    case ReplaceBackup(w, _) => w in s.writers && s.writers[w].Snapshotted?
    case ReplacePrimary(w, _) => w in s.writers && s.writers[w].Ready?
    case Crash => true
    case Corrupt(_) => s.disk.primary.Some?
  }

  function Apply(s: System, step: Step): System {
    match step
    case Stage(w, doc) => SetStage(s, w, Staged(doc))
    case Lock(w, backupWanted) =>
      if w !in s.writers then s
      else SetStage(s, w, if backupWanted then Locked(s.writers[w].doc) else Ready(s.writers[w].doc))
    case ReadPrevious(w, readFails) =>
      if w !in s.writers then s
      else SetStage(s, w,
        if readFails || s.disk.primary.None? then Ready(s.writers[w].doc)
        else Snapshotted(s.writers[w].doc, s.disk.primary.value))
    case ReplaceBackup(w, replaceFails) =>
      if w !in s.writers || !s.writers[w].Snapshotted? then s
      else
        var t := SetStage(s, w, Ready(s.writers[w].doc));
        if replaceFails then t else t.(disk := t.disk.(backup := Some(s.writers[w].previous)))
    case ReplacePrimary(w, replaceFails) =>
      if w !in s.writers then s
      else if replaceFails then SetStage(s, w, Failed(s.writers[w].doc))
      else
        SetStage(s, w, Finished(s.writers[w].doc)).(
          disk := s.disk.(primary := Some(Doc(s.writers[w].doc))),
          committed := s.committed + [s.writers[w].doc], damaged := false)
    case Crash => s.(writers := map[])
    case Corrupt(bytes) => s.(disk := s.disk.(primary := Some(Foreign(bytes))), damaged := true)
  }

  const Empty := System(Disk(None, None), map[], [], false)

  function Run(steps: seq<Step>): System {
    if steps == [] then Empty else Apply(Run(steps[..|steps| - 1]), steps[|steps| - 1])
  }

  ghost predicate Legal(steps: seq<Step>) {
    steps == [] || (Legal(steps[..|steps| - 1]) && Enabled(Run(steps[..|steps| - 1]), steps[|steps| - 1]))
  }

  datatype Outcome = Value(doc: string) | Raised

  /** One candidate of a read; a missing file is passed over like a rejected one. */
  function Attempt(parse: Parser, c: Option<Content>): Verdict {
    match c
    case None => Rejected
    case Some(Doc(value)) => Document(value)
    case Some(Foreign(bytes)) => if Decodes(bytes) then parse(bytes) else Erred
  }

  /** `read_json`: the primary, else the backup, else the default. Only a rejection leads on to the next; any
      other failure ends the read where it is met. */
  function ReadJson(parse: Parser, disk: Disk, default: string): Outcome {
    match Attempt(parse, disk.primary)
    case Document(doc) => Value(doc)
    case Erred => Raised
    case Rejected =>
      match Attempt(parse, disk.backup)
      case Document(doc) => Value(doc)
      case Erred => Raised
      case Rejected => Value(default)
  }

  // ---------------------------------------------------------------- what every run keeps

  ghost predicate Earlier(c: Content, committed: seq<string>) {
    c.Doc? ==> exists i :: 0 <= i < |committed| && committed[i] == c.value
  }

  ghost predicate OneHolder(s: System) {
    forall v, w :: v in s.writers && w in s.writers && HoldsLock(s.writers[v]) && HoldsLock(s.writers[w]) ==> v == w
  }

  function Newest(committed: seq<string>): Option<Content> {
    if committed == [] then None else Some(Doc(committed[|committed| - 1]))
  }

  ghost predicate Invariant(s: System) {
    && OneHolder(s)
    && (s.damaged ==> s.disk.primary.Some? && s.disk.primary.value.Foreign?)
    && (!s.damaged ==> s.disk.primary == Newest(s.committed))
    && (s.disk.backup.Some? ==> Earlier(s.disk.backup.value, s.committed))
    && (forall w :: w in s.writers && s.writers[w].Snapshotted? ==> Earlier(s.writers[w].previous, s.committed))
  }

  lemma EarlierGrows(c: Content, committed: seq<string>, doc: string)
    requires Earlier(c, committed)
    ensures Earlier(c, committed + [doc])
  {
    if c.Doc? {
      var i :| 0 <= i < |committed| && committed[i] == c.value;
      assert (committed + [doc])[i] == c.value;
    }
  }

  lemma StepKeepsInvariant(s: System, step: Step)
    requires Invariant(s) && Enabled(s, step)
    ensures Invariant(Apply(s, step))
  {
    var t := Apply(s, step);
    match step
    case ReadPrevious(w, readFails) =>
      if !readFails && s.disk.primary.Some? && !s.damaged {
        assert s.committed[|s.committed| - 1] == s.disk.primary.value.value;
      }
    case ReplacePrimary(w, replaceFails) =>
      if !replaceFails {
        forall c | Earlier(c, s.committed) ensures Earlier(c, t.committed) {
          EarlierGrows(c, s.committed, s.writers[w].doc);
        }
      }
    case _ =>
  }

  lemma {:induction false} EveryRunKeepsInvariant(steps: seq<Step>)
    requires Legal(steps)
    ensures Invariant(Run(steps))
  {
    if steps != [] {
      var init := steps[..|steps| - 1];
      EveryRunKeepsInvariant(init);
      StepKeepsInvariant(Run(init), steps[|init|]);
    }
  }

  /** Over any run of concurrent, failing and crashing writers without outside damage since the last
      commit, a read returns the last committed document, and the default only before the first commit. */
  lemma ReadReturnsLastCommitted(parse: Parser, steps: seq<Step>, default: string)
    requires Legal(steps) && !Run(steps).damaged
    ensures var s := Run(steps);
      s.committed != [] ==> ReadJson(parse, s.disk, default) == Value(s.committed[|s.committed| - 1])
  {
    EveryRunKeepsInvariant(steps);
  }

  /** A crash at any point of one write leaves the old or the new document, never a mixture. */
  lemma CrashLeavesOldOrNew(parse: Parser, steps: seq<Step>, step: Step, default: string)
    requires Legal(steps) && Enabled(Run(steps), step) && !Run(steps).damaged && !step.Corrupt?
    requires Run(steps).committed != []
    ensures var before := Run(steps);
      var after := Apply(Apply(before, step), Crash);
      ReadJson(parse, after.disk, default) ==
        if step.ReplacePrimary? && !step.replaceFails then Value(before.writers[step.writer].doc)
        else ReadJson(parse, before.disk, default)
  {
    EveryRunKeepsInvariant(steps);
    var s := Run(steps);
    assert s.disk.primary == Some(Doc(s.committed[|s.committed| - 1]));
    CrashedPrimary(s, step);
  }

  lemma CrashedPrimary(s: System, step: Step)
    requires Enabled(s, step) && !step.Corrupt?
    ensures Apply(Apply(s, step), Crash).disk.primary ==
      if step.ReplacePrimary? && !step.replaceFails then Some(Doc(s.writers[step.writer].doc)) else s.disk.primary
  {
  }

  /** After outside damage a read raises exactly when the damage fails otherwise than by rejection, or is
      rejected and the backup fails so. Rejected damage gives an earlier committed document when the backup is one
      of the writers' documents, and the default when there is no backup or it is rejected as well. (Bytes from
      outside that parse are returned as they are.) The documentation promises to tolerate corruption. */
  lemma DamagedReadFallsBack(parse: Parser, steps: seq<Step>, default: string)
    requires Legal(steps) && Run(steps).damaged
    ensures var s := Run(steps);
      s.disk.primary.Some? && s.disk.primary.value.Foreign? &&
      var bytes, backup, outcome := s.disk.primary.value.bytes, s.disk.backup, ReadJson(parse, s.disk, default);
      && (outcome.Raised? <==>
            (Fails(parse, bytes) || (Rejects(parse, bytes) && IsForeign(backup) && Fails(parse, backup.value.bytes))))
      && (Rejects(parse, bytes) && IsDoc(backup) ==>
            exists i :: 0 <= i < |s.committed| && outcome == Value(s.committed[i]))
      && (Rejects(parse, bytes) && (backup.None? || (IsForeign(backup) && Rejects(parse, backup.value.bytes))) ==>
            outcome == Value(default))
      && (!Fails(parse, bytes) && !Rejects(parse, bytes) ==> outcome == Value(parse(bytes).doc))
  {
    EveryRunKeepsInvariant(steps);
  }

  // ---------------------------------------------------------------- how old the backup is

  /** A step in which the backup is wanted and its handling does not fail, and nothing outside interferes. */
  predicate Clean(step: Step) {
    match step
    case Lock(_, backupWanted) => backupWanted
    case ReadPrevious(_, readFails) => !readFails
    case ReplaceBackup(_, replaceFails) => !replaceFails
    case Corrupt(_) => false
    case _ => true
  }

  ghost predicate AllClean(steps: seq<Step>) { forall i :: 0 <= i < |steps| ==> Clean(steps[i]) }

  /** One of the two newest committed documents, or nothing before the second commit. */
  ghost predicate Recent(backup: Option<Content>, committed: seq<string>) {
    var n := |committed|;
    match backup
    case None => n <= 1
    case Some(c) => n >= 1 && c.Doc? && (c.value == committed[n - 1] || (n >= 2 && c.value == committed[n - 2]))
  }

  ghost predicate CleanInvariant(s: System) {
    && Invariant(s) && !s.damaged && Recent(s.disk.backup, s.committed)
    && (forall w :: w in s.writers && s.writers[w].Snapshotted? ==> Some(s.writers[w].previous) == Newest(s.committed))
    && (forall w :: w in s.writers && s.writers[w].Ready? ==> s.disk.backup == Newest(s.committed))
  }

  lemma StepKeepsCleanInvariant(s: System, step: Step)
    requires CleanInvariant(s) && Enabled(s, step) && Clean(step)
    ensures CleanInvariant(Apply(s, step))
  {
    StepKeepsInvariant(s, step);
  }

  /** Over any run of concurrent and crashing writers without backup failures and outside damage, the backup is
      the newest or second newest committed document, and missing only before the second commit. */
  lemma {:induction false} BackupIsRecent(steps: seq<Step>)
    requires Legal(steps) && AllClean(steps)
    ensures CleanInvariant(Run(steps))
  {
    if steps != [] {
      var init := steps[..|steps| - 1];
      BackupIsRecent(init);
      StepKeepsCleanInvariant(Run(init), steps[|init|]);
    }
  }

  /** So damage after such a run raises exactly when it fails otherwise than by rejection, and costs at most one
      version when it is rejected. */
  lemma DamageCostsOneVersionExactlyWhenRejected(parse: Parser, steps: seq<Step>, bytes: Bytes, default: string)
    requires Legal(steps) && AllClean(steps) && Run(steps).committed != []
    ensures var c := Run(steps).committed;
      var outcome := ReadJson(parse, Apply(Run(steps), Corrupt(bytes)).disk, default);
      && (outcome.Raised? <==> Fails(parse, bytes))
      && (Rejects(parse, bytes) ==>
            || outcome == Value(c[|c| - 1])
            || (|c| >= 2 && outcome == Value(c[|c| - 2]))
            || (|c| == 1 && outcome == Value(default)))
      && (!Fails(parse, bytes) && !Rejects(parse, bytes) ==> outcome == Value(parse(bytes).doc))
  {
    BackupIsRecent(steps);
  }

  // ---------------------------------------------------------------- one undisturbed write

  /** One write without failures, from any state. */
  function Write(s: System, w: nat, doc: string): System {
    var a := Apply(Apply(Apply(s, Stage(w, doc)), Lock(w, true)), ReadPrevious(w, false));
    Apply(Apply(a, ReplaceBackup(w, false)), ReplacePrimary(w, false))
  }

  /** Its steps; the first write ever has no previous content to replace the backup with. */
  function WriteSteps(s: System, w: nat, doc: string): seq<Step> {
    if s.disk.primary.None? then [Stage(w, doc), Lock(w, true), ReadPrevious(w, false), ReplacePrimary(w, false)]
    else [Stage(w, doc), Lock(w, true), ReadPrevious(w, false), ReplaceBackup(w, false), ReplacePrimary(w, false)]
  }

  lemma Snoc(steps: seq<Step>, step: Step)
    ensures Run(steps + [step]) == Apply(Run(steps), step)
    ensures Legal(steps + [step]) <==> Legal(steps) && Enabled(Run(steps), step)
  {
    assert (steps + [step])[..|steps|] == steps;
  }

  lemma SnocTwo(steps: seq<Step>, a: Step, b: Step)
    ensures Run(steps + [a, b]) == Apply(Apply(Run(steps), a), b)
    ensures Legal(steps) && Enabled(Run(steps), a) && Enabled(Apply(Run(steps), a), b) ==> Legal(steps + [a, b])
  {
    Snoc(steps, a);
    Snoc(steps + [a], b);
    assert steps + [a] + [b] == steps + [a, b];
  }

  /** A new writer that finds the lock free can stage, lock and read the previous content. */
  lemma CanStart(s: System, w: nat, doc: string)
    requires w !in s.writers && LockFree(s)
    ensures var a := Apply(s, Stage(w, doc));
      var b := Apply(a, Lock(w, true));
      Enabled(s, Stage(w, doc)) && Enabled(a, Lock(w, true)) && Enabled(b, ReadPrevious(w, false))
  {
  }

  /** It can then replace the backup, if there was any content, and the primary, which frees the lock. */
  lemma CanFinish(s: System, w: nat, doc: string)
    requires w !in s.writers && LockFree(s)
    ensures var c := Apply(Apply(Apply(s, Stage(w, doc)), Lock(w, true)), ReadPrevious(w, false));
      && (s.disk.primary.Some? ==> Enabled(c, ReplaceBackup(w, false)))
      && (s.disk.primary.None? ==> Apply(c, ReplaceBackup(w, false)) == c)
      && Enabled(Apply(c, ReplaceBackup(w, false)), ReplacePrimary(w, false))
      && LockFree(Write(s, w, doc))
  {
  }

  lemma SnocFour(steps: seq<Step>, a: Step, b: Step, c: Step, d: Step)
    requires Legal(steps) && Enabled(Run(steps), a) && Enabled(Apply(Run(steps), a), b)
    requires var s := Apply(Apply(Run(steps), a), b); Enabled(s, c) && Enabled(Apply(s, c), d)
    ensures Legal(steps + [a, b, c, d])
    ensures Run(steps + [a, b, c, d]) == Apply(Apply(Apply(Apply(Run(steps), a), b), c), d)
  {
    SnocTwo(steps, a, b);
    SnocTwo(steps + [a, b], c, d);
    assert steps + [a, b] + [c, d] == steps + [a, b, c, d];
  }

  /** Whenever the lock is free, a new writer can run to completion. */
  lemma WriteIsLegal(steps: seq<Step>, w: nat, doc: string)
    requires Legal(steps) && w !in Run(steps).writers && LockFree(Run(steps))
    ensures var all := steps + WriteSteps(Run(steps), w, doc);
      Legal(all) && Run(all) == Write(Run(steps), w, doc) && LockFree(Run(all))
  {
    var s := Run(steps);
    CanStart(s, w, doc);
    CanFinish(s, w, doc);
    if s.disk.primary.None? {
      SnocFour(steps, Stage(w, doc), Lock(w, true), ReadPrevious(w, false), ReplacePrimary(w, false));
    } else {
      SnocFour(steps, Stage(w, doc), Lock(w, true), ReadPrevious(w, false), ReplaceBackup(w, false));
      var a := steps + [Stage(w, doc), Lock(w, true), ReadPrevious(w, false), ReplaceBackup(w, false)];
      Snoc(a, ReplacePrimary(w, false));
      assert steps + WriteSteps(s, w, doc) == a + [ReplacePrimary(w, false)];
    }
  }

  /** An undisturbed write moves the current content, whatever it is, into the backup and installs the new
      document. So later damage of the primary is undone by exactly one version if it is rejected, and ends every
      read with an error if it fails otherwise. */
  lemma WriteShiftsOneVersion(parse: Parser, s: System, w: nat, doc: string, bytes: Bytes, default: string)
    requires w !in s.writers
    ensures var t := Write(s, w, doc);
      && t.disk.primary == Some(Doc(doc))
      && t.disk.backup == (if s.disk.primary.Some? then s.disk.primary else s.disk.backup)
      && var outcome := ReadJson(parse, Apply(t, Corrupt(bytes)).disk, default);
         && (Fails(parse, bytes) ==> outcome == Raised)
         && (Rejects(parse, bytes) && IsDoc(s.disk.primary) ==> outcome == Value(s.disk.primary.value.value))
         && (!Fails(parse, bytes) && !Rejects(parse, bytes) ==> outcome == Value(parse(bytes).doc))
  {
  }

  /** The documentation calls the backup the last known-good version. After an undisturbed write it is good
      exactly when the content just replaced was good; a write over a damaged primary replaces a good
      backup by the damage. */
  lemma BackupIsGoodExactlyWhen(s: System, w: nat, doc: string)
    requires w !in s.writers && s.disk.primary.Some?
    ensures var t := Write(s, w, doc);
      t.disk.backup.Some? && (t.disk.backup.value.Doc? <==> s.disk.primary.value.Doc?)
  {
  }

  const NO_TEXT: Bytes := [0xFF]

  /** The text of an integer with `n` digits. */
  function Ones(n: nat): Bytes { seq(n, _ => 0x31) }

  lemma SampleBytes(n: nat)
    ensures !Decodes(NO_TEXT) && Decodes(Ones(n))
  {
    assert NO_TEXT[1..] == [];
    AsciiDecodes(Ones(n));
  }

  /** The run of two writes of `v1` and `v2`. */
  function TwoWrites(): seq<Step> {
    WriteSteps(Empty, 0, "v1") + WriteSteps(Write(Empty, 0, "v1"), 1, "v2")
  }

  lemma TwoWritesIsLegal()
    ensures Legal(TwoWrites()) && LockFree(Run(TwoWrites()))
    ensures Run(TwoWrites()) == Write(Write(Empty, 0, "v1"), 1, "v2")
    ensures Run(TwoWrites()).disk == Disk(Some(Doc("v2")), Some(Doc("v1")))
  {
    WriteIsLegal([], 0, "v1");
    var first := WriteSteps(Empty, 0, "v1");
    assert [] + first == first;
    WriteIsLegal(first, 1, "v2");
  }

  lemma DamageAfter(parse: Parser, steps: seq<Step>, bytes: Bytes, previous: string, default: string)
    requires Legal(steps) && Run(steps).disk.primary.Some? && Run(steps).disk.backup == Some(Doc(previous))
    ensures Legal(steps + [Corrupt(bytes)])
    ensures Run(steps + [Corrupt(bytes)]).disk.backup == Some(Doc(previous))
    ensures Fails(parse, bytes) ==> ReadJson(parse, Run(steps + [Corrupt(bytes)]).disk, default) == Raised
    ensures Rejects(parse, bytes) ==> ReadJson(parse, Run(steps + [Corrupt(bytes)]).disk, default) == Value(previous)
  {
    Snoc(steps, Corrupt(bytes));
  }

  /** Concretely: two writes, then damage by one byte that is not text. The backup holds the first version, but
      the read raises. */
  lemma BinaryDamageIsNotTolerated(parse: Parser, default: string)
    ensures Legal(TwoWrites() + [Corrupt(NO_TEXT)])
    ensures Run(TwoWrites() + [Corrupt(NO_TEXT)]).disk.backup == Some(Doc("v1"))
    ensures ReadJson(parse, Run(TwoWrites() + [Corrupt(NO_TEXT)]).disk, default) == Raised
  {
    SampleBytes(0);
    TwoWritesIsLegal();
    DamageAfter(parse, TwoWrites(), NO_TEXT, "v1", default);
  }

  /** The same with damage that is text: an integer of more digits than the parser's limit for conversion. A parser
      that rejects it gives the first version back. */
  lemma LongNumberIsToleratedExactlyWhenRejected(parse: Parser, digits: nat, default: string)
    requires !parse(Ones(digits)).Document?
    ensures Legal(TwoWrites() + [Corrupt(Ones(digits))])
    ensures ReadJson(parse, Run(TwoWrites() + [Corrupt(Ones(digits))]).disk, default) ==
      if parse(Ones(digits)).Rejected? then Value("v1") else Raised
  {
    SampleBytes(digits);
    TwoWritesIsLegal();
    DamageAfter(parse, TwoWrites(), Ones(digits), "v1", default);
  }

  /** A write over damage, after any run that leaves the lock free. */
  function WriteOverDamage(steps: seq<Step>, bytes: Bytes, w: nat, doc: string): seq<Step> {
    steps + [Corrupt(bytes)] + WriteSteps(Run(steps + [Corrupt(bytes)]), w, doc)
  }

  lemma TwoDamages(parse: Parser, disk: Disk, again: Bytes, bytes: Bytes, default: string)
    requires disk == Disk(Some(Foreign(again)), Some(Foreign(bytes)))
    ensures var outcome := ReadJson(parse, disk, default);
      && (outcome.Raised? <==> (Fails(parse, again) || (Rejects(parse, again) && Fails(parse, bytes))))
      && (Rejects(parse, again) && Rejects(parse, bytes) ==> outcome == Value(default))
  {
  }

  /** When the document is damaged again after such a write, every version the backup could have offered is
      gone, whatever was committed before: the read gives the default when both damages are rejected, and raises
      exactly when the new one fails otherwise, or is rejected and the old one fails. */
  lemma DamageCanReachTheBackup(parse: Parser, steps: seq<Step>, bytes: Bytes, w: nat, doc: string, again: Bytes, default: string)
    requires Legal(steps) && LockFree(Run(steps)) && Run(steps).disk.primary.Some? && w !in Run(steps).writers
    ensures Legal(WriteOverDamage(steps, bytes, w, doc) + [Corrupt(again)])
    ensures var outcome := ReadJson(parse, Run(WriteOverDamage(steps, bytes, w, doc) + [Corrupt(again)]).disk, default);
      && (outcome.Raised? <==> (Fails(parse, again) || (Rejects(parse, again) && Fails(parse, bytes))))
      && (Rejects(parse, again) && Rejects(parse, bytes) ==> outcome == Value(default))
  {
    var damaged := steps + [Corrupt(bytes)];
    Snoc(steps, Corrupt(bytes));
    WriteIsLegal(damaged, w, doc);
    WriteShiftsOneVersion(parse, Run(damaged), w, doc, again, default);
    var all := WriteOverDamage(steps, bytes, w, doc);
    Snoc(all, Corrupt(again));
    TwoDamages(parse, Run(all + [Corrupt(again)]).disk, again, bytes, default);
  }
}
