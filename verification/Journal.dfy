/** Replayable record of file mutations with exact rollback (server/toolkit/journal.py). */
module Journal {
  import opened Selection
  import opened Wrappers

  type Path = string
  type Bytes = seq<bv8>
  type Files = map<Path, Bytes>

  const MAX_JOURNALLED_BYTES := 8 * 1024 * 1024
  const MAX_ENTRIES_PER_SESSION := 500

  datatype Action = Create | Modify | Delete

  datatype Entry = Entry(
    seqNo: nat, path: Path, action: Action,
    before: Option<Bytes>, after: Option<Bytes>, contentOmitted: bool, directory: bool)

  // ---------------------------------------------------------------- files

  function Get(files: Files, p: Path): Option<Bytes> {
    if p in files then Some(files[p]) else None
  }

  function Put(files: Files, p: Path, content: Option<Bytes>): Files {
    match content case Some(bytes) => files[p := bytes] case None => files - {p}
  }

  // ---------------------------------------------------------------- recording

  function Length(content: Option<Bytes>): nat {
    match content case Some(bytes) => |bytes| case None => 0
  }

  function MakeEntry(seqNo: nat, path: Path, action: Action, before: Option<Bytes>, after: Option<Bytes>, directory: bool): Entry {
    var keep := Length(before) <= MAX_JOURNALLED_BYTES && Length(after) <= MAX_JOURNALLED_BYTES;
    Entry(seqNo, path, action, if keep then before else None, if keep then after else None, !keep, directory)
  }

  /** An entry says what was recorded, and holds both images exactly when neither has more than 8 MiB. */
  lemma EntryMeaning(seqNo: nat, path: Path, action: Action, before: Option<Bytes>, after: Option<Bytes>, directory: bool)
    ensures var e := MakeEntry(seqNo, path, action, before, after, directory);
      var fits := (before.Some? ==> |before.value| <= 8_388_608) && (after.Some? ==> |after.value| <= 8_388_608);
      && e.seqNo == seqNo && e.path == path && e.action == action && e.directory == directory
      && e.contentOmitted == !fits
      && (fits ==> e.before == before && e.after == after) && (!fits ==> e.before == None && e.after == None)
  {
  }

  /** The newest entries, at most as many as are retained. */
  function Retain(log: seq<Entry>): seq<Entry> {
    if |log| > MAX_ENTRIES_PER_SESSION then log[|log| - MAX_ENTRIES_PER_SESSION..] else log
  }

  function Newer(log: seq<Entry>, seqNo: nat): seq<Entry> {
    if log == [] then []
    else
      var rest := Newer(log[..|log| - 1], seqNo);
      if log[|log| - 1].seqNo > seqNo then rest + [log[|log| - 1]] else rest
  }

  function UpTo(log: seq<Entry>, seqNo: nat): seq<Entry> {
    if log == [] then []
    else
      var rest := UpTo(log[..|log| - 1], seqNo);
      if log[|log| - 1].seqNo <= seqNo then rest + [log[|log| - 1]] else rest
  }

  /** The entries above the mark, in order. */
  lemma {:induction false} NewerArePicked(log: seq<Entry>, mark: nat) returns (at: seq<nat>)
    ensures Picks(log, Newer(log, mark), at) && forall k: nat :: k < |log| ==> (k in at <==> log[k].seqNo > mark)
  {
    if log == [] {
      at := [];
    } else {
      var init, last := log[..|log| - 1], log[|log| - 1];
      at := NewerArePicked(init, mark);
      assert log == init + [last];
      if last.seqNo > mark {
        PicksTake(init, Newer(init, mark), at, last);
        at := at + [|init|];
      } else {
        PicksSkip(init, Newer(init, mark), at, last);
      }
    }
  }

  /** The entries up to the mark, in order. */
  lemma {:induction false} UpToArePicked(log: seq<Entry>, mark: nat) returns (at: seq<nat>)
    ensures Picks(log, UpTo(log, mark), at) && forall k: nat :: k < |log| ==> (k in at <==> log[k].seqNo <= mark)
  {
    if log == [] {
      at := [];
    } else {
      var init, last := log[..|log| - 1], log[|log| - 1];
      at := UpToArePicked(init, mark);
      assert log == init + [last];
      if last.seqNo <= mark {
        PicksTake(init, UpTo(init, mark), at, last);
        at := at + [|init|];
      } else {
        PicksSkip(init, UpTo(init, mark), at, last);
      }
    }
  }

  // ---------------------------------------------------------------- undoing

  /** Undo steps that raise OSError, by sequence number, with what the failed write left at the path. */
  type Faults = map<nat, Option<Bytes>>

  /** Files after undoing, how many entries were restored, and the paths reported as failed. */
  datatype Undone = Undone(files: Files, restored: nat, failed: seq<Path>)

  function UndoOne(u: Undone, e: Entry, faults: Faults): Undone {
    if e.contentOmitted || e.directory then u.(failed := u.failed + [e.path])
    else if e.seqNo in faults then u.(files := Put(u.files, e.path, faults[e.seqNo]), failed := u.failed + [e.path])
    else if e.action == Create then u.(files := u.files - {e.path}, restored := u.restored + 1)
    else match e.before
      case Some(bytes) => u.(files := u.files[e.path := bytes], restored := u.restored + 1)
      case None => u.(failed := u.failed + [e.path])
  }

  /** Newest entry first. */
  function UndoAll(u: Undone, targets: seq<Entry>, faults: Faults): Undone
    decreases |targets|
  {
    if targets == [] then u
    else UndoAll(UndoOne(u, targets[|targets| - 1], faults), targets[..|targets| - 1], faults)
  }

  /** Every undone entry is either restored or reported; a path nobody recorded is left alone;
      nothing leaves the report once it is in it. */
  lemma {:induction false} UndoAccounts(u: Undone, targets: seq<Entry>, faults: Faults)
    ensures var r := UndoAll(u, targets, faults);
      && r.restored + |r.failed| == u.restored + |u.failed| + |targets|
      && (forall p :: (forall i :: 0 <= i < |targets| ==> targets[i].path != p) ==> Get(r.files, p) == Get(u.files, p))
      && (forall p :: p in u.failed ==> p in r.failed)
    decreases |targets|
  {
    if targets != [] {
      var init, last := targets[..|targets| - 1], targets[|targets| - 1];
      UndoAccounts(UndoOne(u, last, faults), init, faults);
      forall p | forall i :: 0 <= i < |targets| ==> targets[i].path != p
        ensures Get(UndoAll(u, targets, faults).files, p) == Get(u.files, p)
      {
        assert targets[|targets| - 1].path != p;
        forall i | 0 <= i < |init| ensures init[i].path != p { assert init[i] == targets[i]; }
      }
    }
  }

  /** The undo step cannot put the path back, and reports it. */
  predicate Unrecoverable(e: Entry, faults: Faults) {
    e.contentOmitted || e.directory || e.seqNo in faults || (e.action != Create && e.before.None?)
  }

  /** The undo step leaves this at its path: what a failed write left, nothing for a creation, else the pre-image. */
  ghost predicate Leaves(e: Entry, faults: Faults, content: Option<Bytes>) {
    && !e.contentOmitted && !e.directory
    && (e.seqNo in faults ==> content == faults[e.seqNo])
    && (e.seqNo !in faults && e.action == Create ==> content == None)
    && (e.seqNo !in faults && e.action != Create ==> e.before.Some? && content == e.before)
  }

  /** The entry is the oldest of a path whose undo step leaves something there. */
  ghost predicate LastWord(targets: seq<Entry>, i: int, p: Path, faults: Faults, content: Option<Bytes>) {
    && 0 <= i < |targets| && targets[i].path == p && Leaves(targets[i], faults, content)
    && forall j, c :: 0 <= j < i && targets[j].path == p ==> !Leaves(targets[j], faults, c)
  }

  /** What a revert leaves at each path, reported or not: the oldest entry that leaves anything there decides,
      and without one the path keeps its content. */
  lemma {:induction false} EachPathIsDecided(u: Undone, targets: seq<Entry>, faults: Faults, p: Path)
    ensures var r := UndoAll(u, targets, faults);
      || (exists i, content :: LastWord(targets, i, p, faults, content) && Get(r.files, p) == content)
      || (Get(r.files, p) == Get(u.files, p)
          && forall i, c :: 0 <= i < |targets| && targets[i].path == p ==> !Leaves(targets[i], faults, c))
    decreases |targets|
  {
    if targets != [] {
      var init, last := targets[..|targets| - 1], targets[|targets| - 1];
      assert forall j :: 0 <= j < |init| ==> init[j] == targets[j];
      var v := UndoOne(u, last, faults);
      EachPathIsDecided(v, init, faults, p);
      var r := UndoAll(u, targets, faults);
      if i, content :| LastWord(init, i, p, faults, content) && Get(r.files, p) == content {
        assert LastWord(targets, i, p, faults, content);
      } else if last.path == p && !Unrecoverable(last, faults) {
        assert LastWord(targets, |init|, p, faults, if last.action == Create then None else last.before);
      } else if last.path == p && !last.contentOmitted && !last.directory && last.seqNo in faults {
        assert LastWord(targets, |init|, p, faults, faults[last.seqNo]);
      }
    }
  }

  /** The report names exactly the paths that some undo step could not put back. */
  lemma {:induction false} ReportIsExact(u: Undone, targets: seq<Entry>, faults: Faults, p: Path)
    ensures p in UndoAll(u, targets, faults).failed
       <==> p in u.failed || exists i :: 0 <= i < |targets| && targets[i].path == p && Unrecoverable(targets[i], faults)
    decreases |targets|
  {
    if targets != [] {
      var init, last := targets[..|targets| - 1], targets[|targets| - 1];
      assert forall j :: 0 <= j < |init| ==> init[j] == targets[j];
      ReportIsExact(UndoOne(u, last, faults), init, faults, p);
    }
  }

  /** Index of the oldest entry on a path. */
  ghost predicate IsFirst(targets: seq<Entry>, i: nat, p: Path) {
    && i < |targets| && targets[i].path == p
    && forall j :: 0 <= j < i ==> targets[j].path != p
  }

  /** The oldest entry on a path has the last word: unless the path is reported, it ends up holding that
      entry's pre-image (or is absent, for a creation). */
  lemma {:induction false} OldestEntryDecides(u: Undone, targets: seq<Entry>, faults: Faults, i: nat)
    requires i < |targets| && IsFirst(targets, i, targets[i].path)
    requires targets[i].path !in UndoAll(u, targets, faults).failed
    ensures !targets[i].contentOmitted && !targets[i].directory
    ensures targets[i].action == Create || targets[i].before.Some?
    ensures Get(UndoAll(u, targets, faults).files, targets[i].path) ==
            if targets[i].action == Create then None else targets[i].before
    decreases |targets|
  {
    var init, last := targets[..|targets| - 1], targets[|targets| - 1];
    var v := UndoOne(u, last, faults);
    UndoAccounts(v, init, faults);
    if i == |targets| - 1 {
      forall j | 0 <= j < |init| ensures init[j].path != last.path { assert init[j] == targets[j]; }
      assert last.path in v.failed ==> last.path in UndoAll(v, init, faults).failed;
      assert Get(UndoAll(v, init, faults).files, last.path) == Get(v.files, last.path);
    } else {
      assert init[i] == targets[i];
      assert forall j :: 0 <= j < i ==> init[j] == targets[j];
      OldestEntryDecides(v, init, faults, i);
    }
  }

  // ---------------------------------------------------------------- histories

  /** What can happen to the workspace: a journalled mutation of one path by some session, a journalled
      recursive delete, or a change nobody journals. */
  datatype Event =
    | Mutate(session: string, path: Path, after: Option<Bytes>)
    | DeleteTree(session: string, root: Path, victims: set<Path>)
    | Outside(changedPath: Path, content: Option<Bytes>)

  datatype World = World(files: Files, entries: map<string, seq<Entry>>, seqNo: nat)

  function LogOf(entries: map<string, seq<Entry>>, session: string): seq<Entry> {
    if session in entries then entries[session] else []
  }

  function ActionFor(before: Option<Bytes>, after: Option<Bytes>): Action {
    if after.None? then Delete else if before.None? then Create else Modify
  }

  /** The entry an event leaves behind, with the pre-image the path really had. */
  function EntryFor(files: Files, e: Event, seqNo: nat): Entry
    requires !e.Outside?
  {
    match e
    case Mutate(_, path, after) => MakeEntry(seqNo, path, ActionFor(Get(files, path), after), Get(files, path), after, false)
    case DeleteTree(_, root, _) => MakeEntry(seqNo, root, Delete, None, None, true)
  }

  function FilesAfter(files: Files, e: Event): Files {
    match e
    case Mutate(_, path, after) => Put(files, path, after)
    case DeleteTree(_, _, victims) => files - victims
    case Outside(path, content) => Put(files, path, content)
  }

  function Happen(w: World, e: Event): World {
    if e.Outside? then w.(files := FilesAfter(w.files, e))
    else
      var n := w.seqNo + 1;
      World(FilesAfter(w.files, e),
            w.entries[e.session := Retain(LogOf(w.entries, e.session) + [EntryFor(w.files, e, n)])], n)
  }

  function Play(w: World, es: seq<Event>): World {
    if es == [] then w else Happen(Play(w, es[..|es| - 1]), es[|es| - 1])
  }

  /** The entries one session writes during a history, before any are dropped. */
  function Written(w: World, es: seq<Event>, session: string): seq<Entry> {
    if es == [] then []
    else
      var init, e := es[..|es| - 1], es[|es| - 1];
      var before := Written(w, init, session);
      if !e.Outside? && e.session == session
      then before + [EntryFor(Play(w, init).files, e, Play(w, init).seqNo + 1)]
      else before
  }

  ghost predicate NumberedUpTo(log: seq<Entry>, n: nat) {
    forall i :: 0 <= i < |log| ==> log[i].seqNo <= n
  }

  ghost predicate NumberedAfter(log: seq<Entry>, n: nat) {
    forall i :: 0 <= i < |log| ==> log[i].seqNo > n
  }

  ghost predicate WorldOk(w: World) {
    forall s :: s in w.entries ==> NumberedUpTo(w.entries[s], w.seqNo) && |w.entries[s]| <= MAX_ENTRIES_PER_SESSION
  }

  function Keep(log: seq<Entry>, n: nat): seq<Entry> {
    if |log| > n then log[|log| - n..] else log
  }

  lemma HappenKeepsWorld(w: World, e: Event)
    requires WorldOk(w)
    ensures WorldOk(Happen(w, e)) && w.seqNo <= Happen(w, e).seqNo <= w.seqNo + 1
  {
    if !e.Outside? {
      var log := LogOf(w.entries, e.session);
      assert NumberedUpTo(log, w.seqNo) && |log| <= MAX_ENTRIES_PER_SESSION;
    }
  }

  lemma HappenLog(w: World, e: Event, session: string)
    ensures LogOf(Happen(w, e).entries, session) ==
      if !e.Outside? && e.session == session
      then Retain(LogOf(w.entries, session) + [EntryFor(w.files, e, w.seqNo + 1)])
      else LogOf(w.entries, session)
  {
  }

  lemma RetainKeep(all: seq<Entry>, x: Entry)
    ensures Retain(Keep(all, MAX_ENTRIES_PER_SESSION) + [x]) == Keep(all + [x], MAX_ENTRIES_PER_SESSION)
  {
  }

  lemma {:induction false} PlayKeepsWorld(w: World, es: seq<Event>, session: string)
    requires WorldOk(w)
    ensures WorldOk(Play(w, es)) && Play(w, es).seqNo >= w.seqNo
    ensures NumberedAfter(Written(w, es, session), w.seqNo)
  {
    if es != [] {
      PlayKeepsWorld(w, es[..|es| - 1], session);
      HappenKeepsWorld(Play(w, es[..|es| - 1]), es[|es| - 1]);
    }
  }

  /** The retained log is the newest part of what was there and what was written. */
  lemma {:induction false} LogIsNewest(w: World, es: seq<Event>, session: string)
    requires WorldOk(w)
    ensures LogOf(Play(w, es).entries, session)
         == Keep(LogOf(w.entries, session) + Written(w, es, session), MAX_ENTRIES_PER_SESSION)
  {
    var log := LogOf(w.entries, session);
    if es == [] {
      assert log + [] == log;
      assert session in w.entries ==> |w.entries[session]| <= MAX_ENTRIES_PER_SESSION;
    } else {
      var init, e := es[..|es| - 1], es[|es| - 1];
      LogIsNewest(w, init, session);
      HappenLog(Play(w, init), e, session);
      if !e.Outside? && e.session == session {
        var entry := EntryFor(Play(w, init).files, e, Play(w, init).seqNo + 1);
        assert log + Written(w, es, session) == (log + Written(w, init, session)) + [entry];
        RetainKeep(log + Written(w, init, session), entry);
      }
    }
  }

  lemma {:induction false} NewerAppend(a: seq<Entry>, b: seq<Entry>, n: nat)
    ensures Newer(a + b, n) == Newer(a, n) + Newer(b, n)
    ensures UpTo(a + b, n) == UpTo(a, n) + UpTo(b, n)
  {
    if b == [] {
      assert a + b == a;
      assert Newer(a, n) + [] == Newer(a, n) && UpTo(a, n) + [] == UpTo(a, n);
    } else {
      assert (a + b)[..|a + b| - 1] == a + b[..|b| - 1];
      NewerAppend(a, b[..|b| - 1], n);
    }
  }

  lemma {:induction false} NewerOfOld(a: seq<Entry>, n: nat)
    requires NumberedUpTo(a, n)
    ensures Newer(a, n) == [] && UpTo(a, n) == a
  {
    if a != [] { NewerOfOld(a[..|a| - 1], n); }
  }

  lemma {:induction false} NewerOfNew(a: seq<Entry>, n: nat)
    requires NumberedAfter(a, n)
    ensures Newer(a, n) == a && UpTo(a, n) == []
  {
    if a != [] { NewerOfNew(a[..|a| - 1], n); }
  }

  /** A log of old entries followed by new ones, cut to its newest `n`, splits again at the mark. */
  lemma SplitAtMark(old': seq<Entry>, new': seq<Entry>, mark: nat, n: nat)
    requires NumberedUpTo(old', mark) && NumberedAfter(new', mark)
    ensures Newer(Keep(old' + new', n), mark) == Keep(new', n)
    ensures UpTo(Keep(old' + new', n), mark) == Keep(old', if |new'| < n then n - |new'| else 0)
  {
    if |new'| >= n {
      assert Keep(old' + new', n) == Keep(new', n);
      assert NumberedAfter(Keep(new', n), mark);
      NewerOfNew(Keep(new', n), mark);
    } else {
      var kept := Keep(old', n - |new'|);
      assert Keep(old' + new', n) == kept + new';
      assert NumberedUpTo(kept, mark);
      NewerAppend(kept, new', mark);
      NewerOfOld(kept, mark);
      NewerOfNew(new', mark);
      assert [] + new' == new' && kept + [] == kept;
    }
  }

  /** What a revert to the start of a history undoes: the newest of the session's entries, which is all of
      them exactly when no more were written than are retained. It leaves only entries from before. */
  lemma TargetsAreNewestWritten(w: World, es: seq<Event>, session: string)
    requires WorldOk(w)
    ensures var log, written := LogOf(Play(w, es).entries, session), Written(w, es, session);
      && Newer(log, w.seqNo) == Keep(written, MAX_ENTRIES_PER_SESSION)
      && (Newer(log, w.seqNo) == written <==> |written| <= MAX_ENTRIES_PER_SESSION)
      && UpTo(log, w.seqNo) == Keep(LogOf(w.entries, session),
           if |written| < MAX_ENTRIES_PER_SESSION then MAX_ENTRIES_PER_SESSION - |written| else 0)
  {
    LogIsNewest(w, es, session);
    PlayKeepsWorld(w, es, session);
    assert NumberedUpTo(LogOf(w.entries, session), w.seqNo);
    SplitAtMark(LogOf(w.entries, session), Written(w, es, session), w.seqNo, MAX_ENTRIES_PER_SESSION);
  }

  // ---------------------------------------------------------------- the revert theorem

  /** Does an event change the content of a path? */
  ghost predicate Touches(e: Event, p: Path) {
    match e
    case Mutate(_, path, _) => path == p
    case DeleteTree(_, _, victims) => p in victims
    case Outside(path, _) => path == p
  }

  /** The first event that may change the path is a journalled mutation of it by this session. */
  ghost predicate FirstTouchIsOwn(es: seq<Event>, k: nat, p: Path, session: string) {
    && k < |es| && es[k].Mutate? && es[k].session == session && es[k].path == p
    && forall j :: 0 <= j < k ==> !Touches(es[j], p) && !(es[j].DeleteTree? && es[j].root == p)
  }

  lemma {:induction false} UntouchedSoFar(w: World, es: seq<Event>, p: Path)
    requires forall j :: 0 <= j < |es| ==> !Touches(es[j], p)
    ensures Get(Play(w, es).files, p) == Get(w.files, p)
  {
    if es != [] {
      var init := es[..|es| - 1];
      forall j | 0 <= j < |init| ensures !Touches(init[j], p) { assert init[j] == es[j]; }
      UntouchedSoFar(w, init, p);
      assert !Touches(es[|es| - 1], p);
    }
  }

  lemma {:induction false} WrittenPrefix(w: World, es: seq<Event>, session: string, k: nat)
    requires k <= |es|
    ensures |Written(w, es[..k], session)| <= |Written(w, es, session)|
    ensures Written(w, es, session)[..|Written(w, es[..k], session)|] == Written(w, es[..k], session)
    decreases |es|
  {
    if k == |es| {
      assert es[..k] == es;
    } else {
      var init := es[..|es| - 1];
      assert init[..k] == es[..k];
      WrittenPrefix(w, init, session, k);
    }
  }

  lemma {:induction false} WrittenPaths(w: World, es: seq<Event>, session: string, p: Path)
    requires forall j :: 0 <= j < |es| ==> !Touches(es[j], p) && !(es[j].DeleteTree? && es[j].root == p)
    ensures forall i :: 0 <= i < |Written(w, es, session)| ==> Written(w, es, session)[i].path != p
  {
    if es != [] {
      var init, e := es[..|es| - 1], es[|es| - 1];
      assert forall j :: 0 <= j < |init| ==> init[j] == es[j];
      WrittenPaths(w, init, session, p);
      assert !Touches(e, p) && !(e.DeleteTree? && e.root == p);
    }
  }

  /** Where the session's first entry on the path stands, and what it holds. */
  lemma OwnFirstEntry(w: World, es: seq<Event>, k: nat, p: Path, session: string) returns (i: nat)
    requires FirstTouchIsOwn(es, k, p, session)
    ensures i < |Written(w, es, session)| && IsFirst(Written(w, es, session), i, p)
    ensures var entry := Written(w, es, session)[i];
      && (!entry.contentOmitted ==> entry.before == Get(w.files, p))
      && (entry.action == Create ==> Get(w.files, p) == None)
      && (entry.action != Create && entry.action != Delete ==> Get(w.files, p).Some?)
  {
    var front := es[..k];
    assert forall j :: 0 <= j < k ==> front[j] == es[j];
    UntouchedSoFar(w, front, p);
    WrittenPaths(w, front, session, p);
    var upto := es[..k + 1];
    assert upto[..|upto| - 1] == front && upto[k] == es[k];
    i := |Written(w, front, session)|;
    WrittenPrefix(w, es, session, k + 1);
    var some, all := Written(w, upto, session), Written(w, es, session);
    assert some == Written(w, front, session) + [EntryFor(Play(w, front).files, es[k], Play(w, front).seqNo + 1)];
    assert all[i] == all[..|some|][i] == some[i];
    forall j | 0 <= j < i ensures all[j].path != p {
      assert all[j] == all[..|some|][j] == Written(w, front, session)[j];
    }
  }

  /** Exact rollback. Take any history of journalled and outside changes, any undo failures, and a session
      that wrote no more entries than are retained. After reverting to the start of the history, every path
      whose first change was journalled by the session and that is not reported as failed has exactly its
      content from the start; paths the session never journalled keep what they have; every undone entry is
      either restored or reported. */
  lemma RevertRestores(w: World, es: seq<Event>, session: string, faults: Faults)
    requires WorldOk(w) && |Written(w, es, session)| <= MAX_ENTRIES_PER_SESSION
    ensures var now := Play(w, es);
      var targets := Newer(LogOf(now.entries, session), w.seqNo);
      var r := UndoAll(Undone(now.files, 0, []), targets, faults);
      && targets == Written(w, es, session)
      && r.restored + |r.failed| == |targets|
      && (forall p, k :: FirstTouchIsOwn(es, k, p, session) && p !in r.failed ==> Get(r.files, p) == Get(w.files, p))
      && (forall p :: (forall i :: 0 <= i < |targets| ==> targets[i].path != p) ==> Get(r.files, p) == Get(now.files, p))
  {
    var now := Play(w, es);
    TargetsAreNewestWritten(w, es, session);
    var targets := Newer(LogOf(now.entries, session), w.seqNo);
    var start := Undone(now.files, 0, []);
    UndoAccounts(start, targets, faults);
    var r := UndoAll(start, targets, faults);
    forall p, k | FirstTouchIsOwn(es, k, p, session) && p !in r.failed
      ensures Get(r.files, p) == Get(w.files, p)
    {
      var i := OwnFirstEntry(w, es, k, p, session);
      OldestEntryDecides(start, targets, faults, i);
    }
  }

  /** With no failed undo step, nothing too large to keep and no recursive delete, the report is empty. */
  lemma {:induction false} CleanRevert(u: Undone, targets: seq<Entry>)
    requires forall i :: 0 <= i < |targets| ==> !targets[i].contentOmitted && !targets[i].directory
    requires forall i :: 0 <= i < |targets| ==> targets[i].action == Create || targets[i].before.Some?
    ensures UndoAll(u, targets, map[]).failed == u.failed
    decreases |targets|
  {
    if targets != [] {
      var init, last := targets[..|targets| - 1], targets[|targets| - 1];
      assert forall i :: 0 <= i < |init| ==> init[i] == targets[i];
      CleanRevert(UndoOne(u, last, map[]), init);
    }
  }

  predicate Oversized(before: Option<Bytes>, after: Option<Bytes>) {
    Length(before) > MAX_JOURNALLED_BYTES || Length(after) > MAX_JOURNALLED_BYTES
  }

  lemma OneEventTargets(w: World, e: Event)
    requires WorldOk(w) && !e.Outside?
    ensures Play(w, [e]) == Happen(w, e)
    ensures Newer(LogOf(Play(w, [e]).entries, e.session), w.seqNo) == [EntryFor(w.files, e, w.seqNo + 1)]
  {
    assert [e][..0] == [];
    assert Play(w, [][..0]) == w && Written(w, [], e.session) == [];
    assert Written(w, [e], e.session) == [EntryFor(w.files, e, w.seqNo + 1)];
    TargetsAreNewestWritten(w, [e], e.session);
  }

  /** One journalled mutation and its revert, without any fault. The comments promise that a created file is
      deleted on revert however large it is, and that a delete of a large file is undone by an empty file. Each
      mutation is undone exactly when both images fit the limit; beyond it the revert changes no file, so the
      created file stays and the deleted one stays absent, and only the report says so. */
  lemma MutationIsUndoneExactlyWhenRetained(w: World, session: string, p: Path, after: Option<Bytes>)
    requires WorldOk(w)
    ensures var e := Mutate(session, p, after);
      var now := Play(w, [e]);
      var r := UndoAll(Undone(now.files, 0, []), Newer(LogOf(now.entries, session), w.seqNo), map[]);
      var before := Get(w.files, p);
      && (before != after ==> (Get(r.files, p) == before <==> !Oversized(before, after)))
      && (Oversized(before, after) ==> r.files == now.files && Get(r.files, p) == after && r.failed == [p])
  {
    var e := Mutate(session, p, after);
    OneEventTargets(w, e);
    var now, entry := Play(w, [e]), EntryFor(w.files, e, w.seqNo + 1);
    var start := Undone(now.files, 0, []);
    assert [entry][..0] == [];
    assert UndoAll(start, [entry], map[]) == UndoOne(start, entry, map[]);
  }

  // ---------------------------------------------------------------- the class

  class Workspace {
    var files: Files

    constructor (files: Files)
      ensures this.files == files
    {
      this.files := files;
    }
  }

  class MutationJournal {
    var entries: map<string, seq<Entry>>
    var seqNo: nat

    ghost predicate Valid()
      reads this
    {
      forall s :: s in entries ==> NumberedUpTo(entries[s], seqNo) && |entries[s]| <= MAX_ENTRIES_PER_SESSION
    }

    constructor ()
      ensures Valid() && entries == map[] && seqNo == 0
    {
      entries, seqNo := map[], 0;
    }

    method Record(session: string, path: Path, action: Action, before: Option<Bytes>, after: Option<Bytes>, directory: bool)
      returns (entry: Entry)
      requires Valid()
      modifies this
      ensures Valid()
      ensures seqNo == old(seqNo) + 1 && entry == MakeEntry(seqNo, path, action, before, after, directory)
      ensures entries == old(entries)[session := Retain(LogOf(old(entries), session) + [entry])]
    {
      seqNo := seqNo + 1;
      entry := MakeEntry(seqNo, path, action, before, after, directory);
      var log := if session in entries then entries[session] else [];
      log := log + [entry];
      if |log| > MAX_ENTRIES_PER_SESSION { log := log[|log| - MAX_ENTRIES_PER_SESSION..]; }
      entries := entries[session := log];
    }

    method Since(session: string, mark: nat) returns (newer: seq<Entry>)
      ensures newer == Newer(LogOf(entries, session), mark)
    {
      var log := if session in entries then entries[session] else [];
      newer := [];
      for i := 0 to |log|
        invariant newer == Newer(log[..i], mark)
      {
        assert log[..i + 1][..i] == log[..i];
        if log[i].seqNo > mark { newer := newer + [log[i]]; }
      }
      assert log[..|log|] == log;
    }

    /** Undo every entry newer than `mark`, newest first, and forget those entries. */
    method Revert(session: string, mark: nat, workspace: Workspace, faults: Faults)
      returns (restored: nat, failed: seq<Path>, remaining: nat)
      requires Valid()
      modifies this, workspace
      ensures Valid() && seqNo == old(seqNo) && remaining == mark
      ensures Undone(workspace.files, restored, failed)
           == UndoAll(Undone(old(workspace.files), 0, []), Newer(LogOf(old(entries), session), mark), faults)
      ensures entries == if session in old(entries)
                         then old(entries)[session := UpTo(old(entries)[session], mark)] else old(entries)
    {
      var targets := Since(session, mark);
      restored, failed := 0, [];
      var i := |targets|;
      assert targets[..i] == targets;
      while i > 0
        invariant 0 <= i <= |targets|
        invariant entries == old(entries) && seqNo == old(seqNo)
        invariant UndoAll(Undone(workspace.files, restored, failed), targets[..i], faults)
               == UndoAll(Undone(old(workspace.files), 0, []), targets, faults)
      {
        ghost var u := Undone(workspace.files, restored, failed);
        assert targets[..i][..i - 1] == targets[..i - 1] && targets[..i][i - 1] == targets[i - 1];
        i := i - 1;
        var entry := targets[i];
        if entry.contentOmitted || entry.directory {
          failed := failed + [entry.path];
        } else if entry.seqNo in faults {
          workspace.files := Put(workspace.files, entry.path, faults[entry.seqNo]);
          failed := failed + [entry.path];
        } else if entry.action == Create {
          if entry.path in workspace.files { workspace.files := workspace.files - {entry.path}; }
          restored := restored + 1;
        } else if entry.before.Some? {
          workspace.files := workspace.files[entry.path := entry.before.value];
          restored := restored + 1;
        } else {
          failed := failed + [entry.path];
        }
        assert Undone(workspace.files, restored, failed) == UndoOne(u, entry, faults);
      }
      if session in entries {
        var log := entries[session];
        var kept := [];
        for j := 0 to |log|
          invariant kept == UpTo(log[..j], mark) && |kept| <= j
          invariant NumberedUpTo(kept, seqNo)
        {
          assert log[..j + 1][..j] == log[..j];
          if log[j].seqNo <= mark { kept := kept + [log[j]]; }
        }
        assert log[..|log|] == log;
        entries := entries[session := kept];
      }
      remaining := mark;
    }

    method Clear(session: string)
      requires Valid()
      modifies this
      ensures Valid() && seqNo == old(seqNo) && entries == old(entries) - {session}
    {
      entries := entries - {session};
    }
  }
}
