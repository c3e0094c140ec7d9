/** What a reload shows after each repository operation (server/storage/session_store.py, 55-490). */
module SessionLaws {
  import opened Selection
  import opened SessionFile
  import opened SessionStore
  import opened Wrappers

  /** The parts of the fold besides the fields. */
  datatype Parts = Parts(
    messages: seq<Message>, syncs: seq<Record>, usage: seq<Record>,
    workspace: map<string, string>, checkpoint: Option<Record>)

  function PartsOf(log: seq<Record>): Parts {
    Parts(Messages(log), Syncs(log), Usages(log), Workspace(log), LatestCheckpoint(log))
  }

  /** These are the parts a load returns. */
  lemma PartsAreLoaded(log: seq<Record>, id: string)
    requires Fold(log, id).Some?
    ensures var snap := Fold(log, id).value;
      PartsOf(log) == Parts(snap.messages, snap.syncs, snap.usage, snap.workspace, snap.checkpoint)
  {
  }

  // ---------------------------------------------------------------- operations that append

  /** A created message is the newest one, as it was given, and nothing else changes. */
  lemma CreatedMessageIsStored(log: seq<Record>, m: Message, now: string)
    ensures PartsOf(Step(log, CreateMessage(m, now))) == PartsOf(log).(messages := Messages(log) + [m])
  {
    var bump := if m.role == "user" then 1 else 0;
    AppendRecord(log, Msg(m));
    AppendRecord(log + [Msg(m)], StatsRecord(FieldsOf(log), bump, 0, 0, now));
  }

  /** Operations on the fields leave every other part alone. */
  lemma FieldOperationsKeepParts(log: seq<Record>, op: Op)
    requires op.SetModel? || op.MergeMetadata? || op.Update? || op.AddTokens?
    ensures PartsOf(Step(log, op)) == PartsOf(log)
  {
    match op
    case SetModel(model, now) => AppendRecord(log, ModelPatch(model, now));
    case MergeMetadata(updates, now) =>
      if updates != map[] { AppendRecord(log, MetadataPatch(Object(Metadata(FieldsOf(log)) + updates), now)); }
    case Update(dump, now) => AppendRecord(log, UpdatePatch(dump, now));
    case AddTokens(tokens, cost, now) => AppendRecord(log, StatsRecord(FieldsOf(log), 0, tokens, cost, now));
  }

  /** A recorded sync is the newest one, with the number given or one above all others. */
  lemma RecordedSyncIsStored(log: seq<Record>, sequence: Option<int>, body: string)
    ensures var after := Step(log, RecordSync(sequence, body));
      && |Syncs(after)| == |Syncs(log)| + 1
      && var s := Syncs(after)[|Syncs(log)|];
         && PartsOf(after) == PartsOf(log).(syncs := Syncs(log) + [s])
         && s.Sync? && s.body == body
         && (sequence.Some? ==> s.sequence == sequence.value)
         && (sequence.None? ==> forall t :: t in Syncs(log) ==> t.Sync? && t.sequence < s.sequence)
         && FieldsOf(after) == FieldsOf(log)
  {
    var s := Sync(if sequence.Some? then sequence.value else NextSequence(log), body);
    AppendRecord(log, s);
    assert FieldsOf(log) + map[] == FieldsOf(log);
    forall t | t in Syncs(log) ensures t.Sync? && t.sequence < NextSequence(log) {
      NextSequenceIsFresh(log, t);
    }
  }

  /** A checkpoint becomes the latest one, a usage row the newest one, a workspace file the current one of its path. */
  lemma AppendedRecordIsStored(log: seq<Record>, rec: Record)
    requires rec.Checkpoint? || rec.Usage? || rec.WsFile?
    ensures var after := Step(log, Append(rec));
      && (rec.Checkpoint? ==> PartsOf(after) == PartsOf(log).(checkpoint := Some(rec)))
      && (rec.Usage? ==> PartsOf(after) == PartsOf(log).(usage := Usages(log) + [rec]))
      && (rec.WsFile? && rec.path != "" ==> PartsOf(after) == PartsOf(log).(workspace := Workspace(log)[rec.path := rec.body]))
      && FieldsOf(after) == FieldsOf(log)
  {
    AppendRecord(log, rec);
    assert FieldsOf(log) + map[] == FieldsOf(log);
  }

  // ---------------------------------------------------------------- fields after an operation

  /** A model choice sets the model and the time. */
  lemma ModelIsSet(log: seq<Record>, model: Value, now: string, k: Key)
    ensures Lookup(FieldsOf(Step(log, SetModel(model, now))), k) ==
      if k == ModelField then Some(model) else if k == UpdatedAt then Some(Text(now)) else Lookup(FieldsOf(log), k)
  {
    AppendLookup(log, ModelPatch(model, now), k);
  }

  /** A metadata merge puts the updates on top of the stored members, field `metadata` alone with the time. */
  lemma MetadataIsMerged(log: seq<Record>, updates: map<string, string>, now: string, k: Key)
    requires updates != map[]
    ensures var after := FieldsOf(Step(log, MergeMetadata(updates, now)));
      && Lookup(after, MetadataField) == Some(Object(Metadata(FieldsOf(log)) + updates))
      && (k != MetadataField ==> Lookup(after, k) == if k == UpdatedAt then Some(Text(now)) else Lookup(FieldsOf(log), k))
  {
    AppendLookup(log, MetadataPatch(Object(Metadata(FieldsOf(log)) + updates), now), k);
    AppendLookup(log, MetadataPatch(Object(Metadata(FieldsOf(log)) + updates), now), MetadataField);
  }

  /** A session update writes every field of its dump, except that identity and the two tags stay as they were
      and the time is the time of the update. */
  lemma UpdateIsStored(log: seq<Record>, dump: Fields, now: string, k: Key)
    ensures Lookup(FieldsOf(Step(log, Update(dump, now))), k) ==
      if k == UpdatedAt then Some(Text(now))
      else if k in dump && k != SessionId && k != WorkspaceRoot && k != TypeTag && k != VersionTag then Some(dump[k])
      else Lookup(FieldsOf(log), k)
  {
    AppendLookup(log, UpdatePatch(dump, now), k);
  }

  function Moved(k: Key, tokens: int, cost: int): int {
    if k == TotalTokens then tokens else if k == TotalCost then cost else 0
  }

  function Counted(k: Key, bump: int): int {
    if k == MessageCount || k == UserMessageCount then bump else 0
  }

  /** Fields `f` with the time `now` and the counters of `base`, moved. */
  function Shown(f: Fields, base: Fields, bump: int, tokens: int, cost: int, now: string, k: Key): Option<Value> {
    if k == UpdatedAt then Some(Text(now))
    else if IsCountKey(k) then Some(Num(Count(base, k) + Counted(k, bump) + Moved(k, tokens, cost)))
    else Lookup(f, k)
  }

  lemma StatsShown(f: Fields, base: Fields, bump: int, tokens: int, cost: int, now: string, k: Key)
    ensures Lookup(f + Patch(StatsRecord(base, bump, tokens, cost, now)), k) == Shown(f, base, bump, tokens, cost, now, k)
  {
    StatsPatch(base, bump, tokens, cost, now, k);
    MergeLookup(f, Patch(StatsRecord(base, bump, tokens, cost, now)), k);
  }

  /** An increment moves the two totals, keeps the other counters, sets the time, and touches nothing else. */
  lemma TokensAreAdded(log: seq<Record>, tokens: int, cost: int, now: string, k: Key)
    ensures Lookup(FieldsOf(Step(log, AddTokens(tokens, cost, now))), k) ==
      Shown(FieldsOf(log), FieldsOf(log), 0, tokens, cost, now, k)
  {
    AppendFields(log, StatsRecord(FieldsOf(log), 0, tokens, cost, now));
    StatsShown(FieldsOf(log), FieldsOf(log), 0, tokens, cost, now, k);
  }

  /** A message of a user moves both message counters by one, any other message none. */
  lemma CreatedMessageIsCounted(log: seq<Record>, m: Message, now: string, k: Key)
    ensures Lookup(FieldsOf(Step(log, CreateMessage(m, now))), k) ==
      Shown(FieldsOf(log), FieldsOf(log), if m.role == "user" then 1 else 0, 0, 0, now, k)
  {
    var bump := if m.role == "user" then 1 else 0;
    AppendFields(log, Msg(m));
    assert FieldsOf(log) + map[] == FieldsOf(log);
    AppendFields(log + [Msg(m)], StatsRecord(FieldsOf(log), bump, 0, 0, now));
    StatsShown(FieldsOf(log), FieldsOf(log), bump, 0, 0, now, k);
  }

  /** A created session shows its whole dump, with no user message and the time of creation. */
  lemma CreatedSessionIsShown(dump: Fields, now: string, k: Key)
    requires k != TypeTag && k != VersionTag
    ensures Lookup(FieldsOf(CreateLog(dump, now)), k) ==
      if k == UpdatedAt then Some(Text(now)) else if IsCountKey(k) then Some(Num(Count(dump, k))) else Lookup(dump, k)
  {
    var header := Header(dump[VersionTag := Num(1)]);
    assert CreateLog(dump, now) == [header] + [StatsRecord(dump, 0, 0, 0, now)] && [] + [header] == [header];
    AppendLookup([], header, k);
    AppendStats([header], dump, 0, 0, 0, now, k);
  }

  /** And nothing else yet. */
  lemma CreatedSessionIsEmpty(dump: Fields, now: string)
    ensures PartsOf(CreateLog(dump, now)) == Parts([], [], [], map[], None)
  {
    var header, stats := Header(dump[VersionTag := Num(1)]), StatsRecord(dump, 0, 0, 0, now);
    assert CreateLog(dump, now) == [header] + [stats] && [] + [header] == [header];
    AppendRecord([], header);
    AppendRecord([header], stats);
  }

  // ---------------------------------------------------------------- operations that rewrite

  /** The messages of the longer list that a condition keeps. */
  lemma {:induction false} KeptPositions(ms: seq<Message>, doomed: set<string>) returns (at: seq<nat>)
    ensures Picks(ms, KeptMessages(ms, doomed), at)
    ensures forall i: nat :: i < |ms| ==> (i in at <==> ms[i].id !in doomed)
  {
    if ms == [] {
      at := [];
    } else {
      var init, last := ms[..|ms| - 1], ms[|ms| - 1];
      at := KeptPositions(init, doomed);
      assert ms == init + [last];
      if last.id in doomed {
        PicksSkip(init, KeptMessages(init, doomed), at, last);
      } else {
        PicksTake(init, KeptMessages(init, doomed), at, last);
        at := at + [|init|];
      }
    }
  }

  /** After a compaction the messages are exactly those whose id was not given, in order; the other parts stay. */
  lemma CompactionRemovesExactly(log: seq<Record>, metadata: Value, doomed: set<string>, now: string) returns (at: seq<nat>)
    requires !CompactionAborts(log)
    ensures var after := CompactLog(log, metadata, doomed, now);
      && PartsOf(after) == PartsOf(log).(messages := Messages(after))
      && Picks(Messages(log), Messages(after), at)
      && forall i: nat :: i < |Messages(log)| ==> (i in at <==> Messages(log)[i].id !in doomed)
  {
    CompactionCommutesWithFold(log, metadata, doomed, now);
    at := KeptPositions(Messages(log), doomed);
  }

  /** A compaction is refused exactly when the log has no message although what a reload shows counts some. */
  lemma RefusedExactlyWhenMessagesAreLost(log: seq<Record>)
    ensures CompactionAborts(log) <==>
      && (forall i :: 0 <= i < |log| ==> !log[i].Msg?)
      && MessageCount in FieldsOf(log) && FieldsOf(log)[MessageCount].Num? && FieldsOf(log)[MessageCount].n > 0
  {
    InlineAgrees(log, MessageCount);
    NoMessagesExactlyWhen(log);
  }

  lemma {:induction false} NoMessagesExactlyWhen(log: seq<Record>)
    ensures Messages(log) == [] <==> forall i :: 0 <= i < |log| ==> !log[i].Msg?
  {
    if log != [] {
      var init := log[..|log| - 1];
      NoMessagesExactlyWhen(init);
      assert forall i :: 0 <= i < |init| ==> init[i] == log[i];
    }
  }

  lemma {:induction false} ToolDeletionParts(log: seq<Record>)
    ensures var after := WithoutToolMessages(log);
      PartsOf(after) == PartsOf(log).(messages := WithoutTools(Messages(log)))
  {
    if log != [] {
      var init, last := log[..|log| - 1], log[|log| - 1];
      ToolDeletionParts(init);
      assert log == init + [last];
      AppendRecord(init, last);
      if !(last.Msg? && last.message.role == "tool") { AppendRecord(WithoutToolMessages(init), last); }
      if last.Msg? { WithoutToolsSnoc(Messages(init), last.message); }
    }
  }

  function WithoutTools(ms: seq<Message>): seq<Message> {
    if ms == [] then []
    else if ms[|ms| - 1].role == "tool" then WithoutTools(ms[..|ms| - 1])
    else WithoutTools(ms[..|ms| - 1]) + [ms[|ms| - 1]]
  }

  lemma WithoutToolsSnoc(ms: seq<Message>, m: Message)
    ensures WithoutTools(ms + [m]) == if m.role == "tool" then WithoutTools(ms) else WithoutTools(ms) + [m]
  {
    assert (ms + [m])[..|ms|] == ms;
  }

  lemma {:induction false} ToolPositions(ms: seq<Message>) returns (at: seq<nat>)
    ensures Picks(ms, WithoutTools(ms), at)
    ensures forall i: nat :: i < |ms| ==> (i in at <==> ms[i].role != "tool")
  {
    if ms == [] {
      at := [];
    } else {
      var init, last := ms[..|ms| - 1], ms[|ms| - 1];
      at := ToolPositions(init);
      assert ms == init + [last];
      if last.role == "tool" {
        PicksSkip(init, WithoutTools(init), at, last);
      } else {
        PicksTake(init, WithoutTools(init), at, last);
        at := at + [|init|];
      }
    }
  }

  /** After deleting tool results the messages are exactly those of another role, in order; the other parts stay. */
  lemma ToolResultsAreDeleted(log: seq<Record>) returns (at: seq<nat>)
    ensures var after := Step(log, DeleteToolResults);
      && PartsOf(after) == PartsOf(log).(messages := Messages(after))
      && Picks(Messages(log), Messages(after), at)
      && (forall i: nat :: i < |Messages(log)| ==> (i in at <==> Messages(log)[i].role != "tool"))
      && FieldsOf(after) == FieldsOf(log)
  {
    ToolDeletionParts(log);
    at := ToolPositions(Messages(log));
    ToolMessagesKeepFields(log);
  }

  lemma {:induction false} EventPositions(events: seq<Event>) returns (at: seq<nat>)
    ensures Picks(events, WithoutToolEvents(events), at)
    ensures forall i: nat :: i < |events| ==> (i in at <==> events[i].kind != "tool_result")
  {
    if events == [] {
      at := [];
    } else {
      var init, last := events[..|events| - 1], events[|events| - 1];
      at := EventPositions(init);
      assert events == init + [last];
      if last.kind == "tool_result" {
        PicksSkip(init, WithoutToolEvents(init), at, last);
      } else {
        PicksTake(init, WithoutToolEvents(init), at, last);
        at := at + [|init|];
      }
    }
  }

  /** The message with exactly its tool-result events taken out. */
  ghost predicate Stripped(m: Message, n: Message) {
    && n.id == m.id && n.role == m.role && n.content == m.content
    && exists at :: Picks(m.events, n.events, at) && forall i: nat :: i < |m.events| ==> (i in at <==> m.events[i].kind != "tool_result")
  }

  lemma StrippedMessage(m: Message)
    ensures Stripped(m, m.(events := WithoutToolEvents(m.events)))
  {
    var at := EventPositions(m.events);
  }

  lemma {:induction false} StripParts(log: seq<Record>)
    ensures var after := StripAll(log);
      && PartsOf(after) == PartsOf(log).(messages := Messages(after))
      && |Messages(after)| == |Messages(log)|
      && forall i :: 0 <= i < |Messages(log)| ==> Stripped(Messages(log)[i], Messages(after)[i])
  {
    if log != [] {
      var init, last := log[..|log| - 1], log[|log| - 1];
      StripParts(init);
      assert log == init + [last];
      AppendRecord(init, last);
      AppendRecord(StripAll(init), StripRecord(last));
      if last.Msg? { StrippedMessage(last.message); }
    }
  }

  /** Stripping takes exactly the tool-result events out of each message and touches nothing else. */
  lemma ToolEventsAreStripped(log: seq<Record>)
    ensures var after := Step(log, StripToolEvents);
      && PartsOf(after) == PartsOf(log).(messages := Messages(after))
      && |Messages(after)| == |Messages(log)|
      && (forall i :: 0 <= i < |Messages(log)| ==> Stripped(Messages(log)[i], Messages(after)[i]))
      && FieldsOf(after) == FieldsOf(log)
  {
    StripParts(log);
    StrippingKeepsFields(log);
  }

  predicate HasToolEvent(rec: Record) { rec.Msg? && exists e :: e in rec.message.events && e.kind == "tool_result" }

  lemma CarriesExactlyWhen(rec: Record)
    ensures CarriesToolEvent(rec) <==> HasToolEvent(rec)
  {
    if HasToolEvent(rec) {
      var e :| e in rec.message.events && e.kind == "tool_result";
      var i :| 0 <= i < |rec.message.events| && rec.message.events[i] == e;
    }
  }

  /** What stripping reports is the number of messages with a tool-result event. */
  lemma {:induction false} CarriersAreCounted(log: seq<Record>) returns (carriers: seq<Record>, at: seq<nat>)
    ensures |carriers| == Touched(log) && Picks(log, carriers, at)
    ensures forall i: nat :: i < |log| ==> (i in at <==> HasToolEvent(log[i]))
  {
    if log == [] {
      carriers, at := [], [];
    } else {
      var init, last := log[..|log| - 1], log[|log| - 1];
      carriers, at := CarriersAreCounted(init);
      assert log == init + [last];
      CarriesExactlyWhen(last);
      if HasToolEvent(last) {
        PicksTake(init, carriers, at, last);
        carriers, at := carriers + [last], at + [|init|];
      } else {
        PicksSkip(init, carriers, at, last);
      }
    }
  }

  lemma {:induction false} SyncDeletionParts(log: seq<Record>)
    ensures PartsOf(WithoutSyncs(log)) == PartsOf(log).(syncs := [])
  {
    if log != [] {
      var init, last := log[..|log| - 1], log[|log| - 1];
      SyncDeletionParts(init);
      assert log == init + [last];
      AppendRecord(init, last);
      if !last.Sync? { AppendRecord(WithoutSyncs(init), last); }
    }
  }

  /** Deleting syncs leaves none and everything else. */
  lemma SyncsAreDeleted(log: seq<Record>)
    ensures PartsOf(Step(log, DeleteSyncs)) == PartsOf(log).(syncs := [])
    ensures FieldsOf(Step(log, DeleteSyncs)) == FieldsOf(log)
  {
    SyncDeletionParts(log);
    SyncDeletionKeepsFields(log);
  }
}
