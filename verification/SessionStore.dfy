/** The repositories over the session log (server/storage/session_store.py). */
module SessionStore {
  import opened Wrappers
  import opened SessionFile

  const TOOL_RESULT_KIND := "tool_result"

  // ---------------------------------------------------------------- what each operation does to one log

  function CreateLog(dump: Fields, now: string): seq<Record> {
    [Header(dump[VersionTag := Num(1)]), StatsRecord(dump, 0, 0, 0, now)]
  }

  function ModelPatch(model: Value, now: string): Record {
    Meta(Some(map[ModelField := model, UpdatedAt := Text(now)]))
  }

  function MetadataPatch(metadata: Value, now: string): Record {
    Meta(Some(map[MetadataField := metadata, UpdatedAt := Text(now)]))
  }

  function UpdatePatch(dump: Fields, now: string): Record {
    Meta(Some((dump - PATCH_EXCLUDE)[UpdatedAt := Text(now)]))
  }

  function Metadata(fields: Fields): map<string, string> {
    if MetadataField in fields && fields[MetadataField].Object? then fields[MetadataField].members else map[]
  }

  /** Fold written out inside the compaction: the `updated_at` of stats records is left out. */
  function InlinePatch(rec: Record): Fields {
    if rec.Stats? then CountFields(rec.counters) else Patch(rec)
  }

  function InlineFields(records: seq<Record>): Fields {
    if records == [] then map[]
    else InlineFields(records[..|records| - 1]) + InlinePatch(records[|records| - 1])
  }

  predicate Doomed(rec: Record, doomed: set<string>) { rec.Msg? && rec.message.id in doomed }

  function Kept(records: seq<Record>, doomed: set<string>): seq<Record> {
    if records == [] then []
    else
      var last := records[|records| - 1];
      var before := Kept(records[..|records| - 1], doomed);
      if Doomed(last, doomed) then before else before + [last]
  }

  function KeptMessages(ms: seq<Message>, doomed: set<string>): seq<Message> {
    if ms == [] then []
    else
      var last := ms[|ms| - 1];
      var before := KeptMessages(ms[..|ms| - 1], doomed);
      if last.id in doomed then before else before + [last]
  }

  /** The guard against truncating a log that lost its messages. */
  predicate CompactionAborts(log: seq<Record>) {
    Messages(log) == [] && Count(InlineFields(log), MessageCount) > 0
  }

  function CompactLog(log: seq<Record>, metadata: Value, doomed: set<string>, now: string): seq<Record> {
    if CompactionAborts(log) then log
    else
      var kept := Kept(log, doomed);
      if |kept| == |log| && metadata == Null then kept
      else Rewritten(kept, InlineFields(log), metadata, now)
  }

  /** The surviving records, the new metadata, and counters reset to the surviving user messages. */
  function Rewritten(kept: seq<Record>, inline: Fields, metadata: Value, now: string): seq<Record> {
    var users := Num(Users(kept));
    var base := inline[MessageCount := users][UserMessageCount := users];
    kept + [MetadataPatch(metadata, now)] + [StatsRecord(base, 0, 0, 0, now)]
  }

  predicate IsToolMessage(rec: Record) { rec.Msg? && rec.message.role == "tool" }

  function WithoutToolMessages(records: seq<Record>): seq<Record> {
    if records == [] then []
    else
      var last := records[|records| - 1];
      var before := WithoutToolMessages(records[..|records| - 1]);
      if IsToolMessage(last) then before else before + [last]
  }

  function WithoutToolEvents(events: seq<Event>): seq<Event> {
    if events == [] then []
    else
      var last := events[|events| - 1];
      var before := WithoutToolEvents(events[..|events| - 1]);
      if last.kind == TOOL_RESULT_KIND then before else before + [last]
  }

  function StripRecord(rec: Record): Record {
    if rec.Msg? then Msg(rec.message.(events := WithoutToolEvents(rec.message.events))) else rec
  }

  predicate CarriesToolEvent(rec: Record) {
    rec.Msg? && exists i :: 0 <= i < |rec.message.events| && rec.message.events[i].kind == TOOL_RESULT_KIND
  }

  /** How many messages carry a tool-result event. */
  function Touched(records: seq<Record>): nat {
    if records == [] then 0
    else
      var before := Touched(records[..|records| - 1]);
      if CarriesToolEvent(records[|records| - 1]) then before + 1 else before
  }

  function StripAll(records: seq<Record>): seq<Record> {
    if records == [] then []
    else StripAll(records[..|records| - 1]) + [StripRecord(records[|records| - 1])]
  }

  function WithoutSyncs(records: seq<Record>): seq<Record> {
    if records == [] then []
    else
      var last := records[|records| - 1];
      var before := WithoutSyncs(records[..|records| - 1]);
      if last.Sync? then before else before + [last]
  }

  function MaxSequence(syncs: seq<Record>): int
    requires forall s :: s in syncs ==> s.Sync?
  {
    if |syncs| == 0 then 0
    else if |syncs| == 1 then syncs[0].sequence
    else
      var m := MaxSequence(syncs[1..]);
      if m > syncs[0].sequence then m else syncs[0].sequence
  }

  lemma {:induction false} SyncsAreSyncs(log: seq<Record>)
    ensures forall s :: s in Syncs(log) ==> s.Sync?
  {
    if log != [] { SyncsAreSyncs(log[..|log| - 1]); }
  }

  function NextSequence(log: seq<Record>): int {
    SyncsAreSyncs(log);
    MaxSequence(Syncs(log)) + 1
  }

  /** An automatic sequence number is larger than every recorded one. */
  lemma NextSequenceIsFresh(log: seq<Record>, s: Record)
    requires s in Syncs(log)
    ensures s.Sync? && s.sequence < NextSequence(log)
  {
    SyncsAreSyncs(log);
    MaxIsMax(Syncs(log), s);
  }

  lemma {:induction false} MaxIsMax(syncs: seq<Record>, s: Record)
    requires forall x :: x in syncs ==> x.Sync?
    requires s in syncs
    ensures s.sequence <= MaxSequence(syncs)
  {
    if |syncs| > 1 && s in syncs[1..] { MaxIsMax(syncs[1..], s); }
  }

  // ---------------------------------------------------------------- operations as values

  datatype Op =
    | SetModel(model: Value, now: string)
    | MergeMetadata(updates: map<string, string>, now: string)
    | Update(dump: Fields, now: string)
    | AddTokens(tokens: int, cost: int, now: string)
    | CreateMessage(message: Message, now: string)
    | CompactHistory(metadata: Value, doomed: set<string>, now: string)
    | DeleteToolResults
    | StripToolEvents
    | RecordSync(sequence: Option<int>, body: string)
    | DeleteSyncs
    | Append(rec: Record)               // checkpoint, usage and workspace-file records

  function Step(log: seq<Record>, op: Op): seq<Record> {
    match op
    case SetModel(model, now) => log + [ModelPatch(model, now)]
    case MergeMetadata(updates, now) =>
      if updates == map[] then log
      else log + [MetadataPatch(Object(Metadata(FieldsOf(log)) + updates), now)]
    case Update(dump, now) => log + [UpdatePatch(dump, now)]
    case AddTokens(tokens, cost, now) => log + [StatsRecord(FieldsOf(log), 0, tokens, cost, now)]
    case CreateMessage(m, now) =>
      log + [Msg(m)] + [StatsRecord(FieldsOf(log), if m.role == "user" then 1 else 0, 0, 0, now)]
    case CompactHistory(metadata, doomed, now) => CompactLog(log, metadata, doomed, now)
    case DeleteToolResults => WithoutToolMessages(log)
    case StripToolEvents => StripAll(log)
    case RecordSync(sequence, body) =>
      log + [Sync(if sequence.Some? then sequence.value else NextSequence(log), body)]
    case DeleteSyncs => WithoutSyncs(log)
    case Append(rec) => log + [rec]
  }

  /** A dump of the Session model: it has the counters as numbers and no `user_message_count`. */
  ghost predicate IsDump(dump: Fields) {
    && (forall k :: IsCountKey(k) && k != UserMessageCount ==> k in dump && dump[k].Num?)
    && UserMessageCount !in dump
  }

  ghost predicate OpOk(op: Op) {
    && (op.Update? ==> IsDump(op.dump))
    && (op.Append? ==> op.rec.Checkpoint? || op.rec.Usage? || op.rec.WsFile?)
  }

  function Run(log: seq<Record>, ops: seq<Op>): seq<Record> {
    if ops == [] then log else Step(Run(log, ops[..|ops| - 1]), ops[|ops| - 1])
  }

  // ---------------------------------------------------------------- the user message counter

  /** Every counter is there as a number, and the user counter is the number of user messages. */
  ghost predicate Consistent(log: seq<Record>) {
    && (forall k :: IsCountKey(k) ==> k in FieldsOf(log) && FieldsOf(log)[k].Num?)
    && Count(FieldsOf(log), UserMessageCount) == Users(log)
  }

  lemma CreateSeeds(log: seq<Record>, header: Record, dump: Fields, now: string, k: Key)
    requires IsCountKey(k) && log == [header] + [StatsRecord(dump, 0, 0, 0, now)]
    ensures k in FieldsOf(log) && FieldsOf(log)[k] == Num(Count(dump, k))
  {
    AppendStats([header], dump, 0, 0, 0, now, k);
    assert Lookup(FieldsOf(log), k) == Some(Num(Count(dump, k)));
  }

  lemma CreateUsers(log: seq<Record>, header: Record, dump: Fields, now: string)
    requires header.Header? && log == [header] + [StatsRecord(dump, 0, 0, 0, now)]
    ensures Users(log) == 0
  {
    AppendFields([], header);
    assert [] + [header] == [header];
    AppendFields([header], StatsRecord(dump, 0, 0, 0, now));
  }

  lemma CreateIsConsistent(dump: Fields, now: string)
    requires IsDump(dump)
    ensures Consistent(CreateLog(dump, now))
    ensures Count(FieldsOf(CreateLog(dump, now)), MessageCount) == Count(dump, MessageCount)
  {
    var header, log := Header(dump[VersionTag := Num(1)]), CreateLog(dump, now);
    assert log == [header] + [StatsRecord(dump, 0, 0, 0, now)];
    CreateUsers(log, header, dump, now);
    forall k | IsCountKey(k) ensures k in FieldsOf(log) && FieldsOf(log)[k] == Num(Count(dump, k)) {
      CreateSeeds(log, header, dump, now, k);
    }
    CreateSeeds(log, header, dump, now, MessageCount);
    CreateSeeds(log, header, dump, now, UserMessageCount);
  }

  /** What a stats record writes for one key. */
  lemma StatsPatch(base: Fields, u: int, t: int, c: int, now: string, k: Key)
    ensures Lookup(Patch(StatsRecord(base, u, t, c, now)), k) ==
      if k == UpdatedAt then Some(Text(now))
      else if IsCountKey(k) then
        Some(Num(Count(base, k) + (if k == MessageCount || k == UserMessageCount then u
                                   else if k == TotalTokens then t else if k == TotalCost then c else 0)))
      else None
  {
  }

  lemma MergeLookup(f: Fields, g: Fields, k: Key)
    ensures Lookup(f + g, k) == if k in g then Lookup(g, k) else Lookup(f, k)
  {
  }

  /** What the fold shows for one key after a stats record is appended. */
  lemma AppendStats(log: seq<Record>, base: Fields, u: int, t: int, c: int, now: string, k: Key)
    ensures Users(log + [StatsRecord(base, u, t, c, now)]) == Users(log)
    ensures Lookup(FieldsOf(log + [StatsRecord(base, u, t, c, now)]), k) ==
      if k == UpdatedAt then Some(Text(now))
      else if IsCountKey(k) then
        Some(Num(Count(base, k) + (if k == MessageCount || k == UserMessageCount then u
                                   else if k == TotalTokens then t else if k == TotalCost then c else 0)))
      else Lookup(FieldsOf(log), k)
  {
    var rec := StatsRecord(base, u, t, c, now);
    AppendFields(log, rec);
    StatsPatch(base, u, t, c, now, k);
    MergeLookup(FieldsOf(log), Patch(rec), k);
  }

  function Lookup(f: Fields, k: Key): Option<Value> {
    if k in f then Some(f[k]) else None
  }

  lemma {:induction false} KeptFields(log: seq<Record>, doomed: set<string>)
    ensures FieldsOf(Kept(log, doomed)) == FieldsOf(log)
  {
    if log != [] {
      var init, last := log[..|log| - 1], log[|log| - 1];
      KeptFields(init, doomed);
      if Doomed(last, doomed) {
        assert FieldsOf(init) + map[] == FieldsOf(init);
      } else {
        AppendRecord(Kept(init, doomed), last);
      }
    }
  }

  lemma {:induction false} KeptLength(log: seq<Record>, doomed: set<string>)
    ensures |Kept(log, doomed)| <= |log|
    ensures |Kept(log, doomed)| == |log| ==> Kept(log, doomed) == log
  {
    if log != [] { KeptLength(log[..|log| - 1], doomed); }
  }

  /** Filtering messages by id touches no other part of the fold. */
  lemma {:induction false} KeptParts(log: seq<Record>, doomed: set<string>)
    ensures Syncs(Kept(log, doomed)) == Syncs(log) && Usages(Kept(log, doomed)) == Usages(log)
    ensures Workspace(Kept(log, doomed)) == Workspace(log)
    ensures LatestCheckpoint(Kept(log, doomed)) == LatestCheckpoint(log)
    ensures Messages(Kept(log, doomed)) == KeptMessages(Messages(log), doomed)
  {
    if log != [] {
      var init, last := log[..|log| - 1], log[|log| - 1];
      KeptParts(init, doomed);
      if !Doomed(last, doomed) { AppendRecord(Kept(init, doomed), last); }
      if last.Msg? {
        var ms := Messages(init) + [last.message];
        assert ms[..|ms| - 1] == Messages(init);
        assert Messages(log) == ms;
      }
    }
  }

  lemma {:induction false} InlineAgrees(log: seq<Record>, k: Key)
    requires k != UpdatedAt
    ensures k in InlineFields(log) <==> k in FieldsOf(log)
    ensures k in FieldsOf(log) ==> InlineFields(log)[k] == FieldsOf(log)[k]
  {
    if log != [] { InlineAgrees(log[..|log| - 1], k); }
  }

  lemma NoPatch(f: Fields)
    ensures f + map[] == f
  {
  }

  lemma {:induction false} ToolMessagesKeepFields(log: seq<Record>)
    ensures FieldsOf(WithoutToolMessages(log)) == FieldsOf(log)
    ensures Users(WithoutToolMessages(log)) == Users(log)
  {
    if log != [] {
      var init, last := log[..|log| - 1], log[|log| - 1];
      ToolMessagesKeepFields(init);
      if IsToolMessage(last) {
        NoPatch(FieldsOf(init));
      } else {
        AppendFields(WithoutToolMessages(init), last);
      }
    }
  }

  lemma {:induction false} StrippingKeepsFields(log: seq<Record>)
    ensures FieldsOf(StripAll(log)) == FieldsOf(log)
    ensures Users(StripAll(log)) == Users(log)
  {
    if log != [] {
      var init, last := log[..|log| - 1], log[|log| - 1];
      StrippingKeepsFields(init);
      AppendFields(StripAll(init), StripRecord(last));
    }
  }

  lemma {:induction false} SyncDeletionKeepsFields(log: seq<Record>)
    ensures FieldsOf(WithoutSyncs(log)) == FieldsOf(log)
    ensures Users(WithoutSyncs(log)) == Users(log)
  {
    if log != [] {
      var init, last := log[..|log| - 1], log[|log| - 1];
      SyncDeletionKeepsFields(init);
      if last.Sync? {
        NoPatch(FieldsOf(init));
      } else {
        AppendFields(WithoutSyncs(init), last);
      }
    }
  }

  lemma RewrittenUsers(kept: seq<Record>, inline: Fields, metadata: Value, now: string)
    ensures Users(Rewritten(kept, inline, metadata, now)) == Users(kept)
  {
    var users := Num(Users(kept));
    var base := inline[MessageCount := users][UserMessageCount := users];
    AppendFields(kept, MetadataPatch(metadata, now));
    AppendFields(kept + [MetadataPatch(metadata, now)], StatsRecord(base, 0, 0, 0, now));
  }

  lemma RewrittenLookup(kept: seq<Record>, inline: Fields, metadata: Value, now: string, k: Key)
    ensures Lookup(FieldsOf(Rewritten(kept, inline, metadata, now)), k) ==
      if k == MetadataField then Some(metadata)
      else if k == UpdatedAt then Some(Text(now))
      else if k == MessageCount || k == UserMessageCount then Some(Num(Users(kept)))
      else if IsCountKey(k) then Some(Num(Count(inline, k)))
      else Lookup(FieldsOf(kept), k)
  {
    var users := Num(Users(kept));
    var base := inline[MessageCount := users][UserMessageCount := users];
    AppendFields(kept, MetadataPatch(metadata, now));
    AppendStats(kept + [MetadataPatch(metadata, now)], base, 0, 0, 0, now, k);
    if IsCountKey(k) && k != MessageCount && k != UserMessageCount {
      assert Count(base, k) == Count(inline, k);
    }
  }

  ghost predicate Writes(log: seq<Record>, metadata: Value, doomed: set<string>) {
    !CompactionAborts(log) && (|Kept(log, doomed)| < |log| || metadata != Null)
  }

  /** A compaction that writes, field by field: the two message counters become the number of surviving
      user messages, `metadata` and `updated_at` are the new ones, and every other field is as before. */
  lemma CompactLookup(log: seq<Record>, metadata: Value, doomed: set<string>, now: string, k: Key)
    requires Consistent(log) && Writes(log, metadata, doomed)
    ensures var after := CompactLog(log, metadata, doomed, now);
      Lookup(FieldsOf(after), k) ==
        if k == MessageCount || k == UserMessageCount then Some(Num(Users(after)))
        else if k == MetadataField then Some(metadata)
        else if k == UpdatedAt then Some(Text(now))
        else Lookup(FieldsOf(log), k)
  {
    KeptLength(log, doomed);
    KeptFields(log, doomed);
    RewrittenUsers(Kept(log, doomed), InlineFields(log), metadata, now);
    RewrittenLookup(Kept(log, doomed), InlineFields(log), metadata, now, k);
    if k != UpdatedAt { InlineAgrees(log, k); }
    assert IsCountKey(k) ==> Lookup(FieldsOf(log), k) == Some(Num(Count(FieldsOf(log), k)));
  }

  /** How far `message_count` is from the number of user messages. */
  ghost function Drift(log: seq<Record>): int {
    Count(FieldsOf(log), MessageCount) - Users(log)
  }

  ghost predicate CompactionWrites(log: seq<Record>, op: Op) {
    op.CompactHistory? && Writes(log, op.metadata, op.doomed)
  }

  lemma AppendPlain(log: seq<Record>, rec: Record)
    requires Consistent(log) && !IsUser(rec) && (forall k :: k in Patch(rec) ==> !IsCountKey(k))
    ensures Consistent(log + [rec]) && Drift(log + [rec]) == Drift(log)
  {
    AppendFields(log, rec);
  }

  lemma AppendUpdate(log: seq<Record>, dump: Fields, now: string)
    requires Consistent(log) && IsDump(dump)
    ensures Consistent(log + [UpdatePatch(dump, now)])
    ensures Drift(log + [UpdatePatch(dump, now)]) == Count(dump, MessageCount) - Users(log)
  {
    AppendFields(log, UpdatePatch(dump, now));
  }

  lemma AppendBump(log: seq<Record>, fields: Fields, bump: int, tokens: int, cost: int, now: string)
    requires forall k :: IsCountKey(k) ==> k in fields && fields[k].Num?
    requires Users(log) == Count(fields, UserMessageCount) + bump
    ensures Consistent(log + [StatsRecord(fields, bump, tokens, cost, now)])
    ensures Drift(log + [StatsRecord(fields, bump, tokens, cost, now)])
         == Count(fields, MessageCount) - Count(fields, UserMessageCount)
  {
    var after := log + [StatsRecord(fields, bump, tokens, cost, now)];
    forall k ensures IsCountKey(k) ==> Lookup(FieldsOf(after), k).Some? && Lookup(FieldsOf(after), k).value.Num? {
      AppendStats(log, fields, bump, tokens, cost, now, k);
    }
    AppendStats(log, fields, bump, tokens, cost, now, MessageCount);
    AppendStats(log, fields, bump, tokens, cost, now, UserMessageCount);
  }

  lemma CreateEffect(log: seq<Record>, m: Message, now: string)
    requires Consistent(log)
    ensures Consistent(Step(log, CreateMessage(m, now))) && Drift(Step(log, CreateMessage(m, now))) == Drift(log)
  {
    var bump := if IsUser(Msg(m)) then 1 else 0;
    AppendFields(log, Msg(m));
    AppendBump(log + [Msg(m)], FieldsOf(log), bump, 0, 0, now);
    assert Step(log, CreateMessage(m, now)) == log + [Msg(m)] + [StatsRecord(FieldsOf(log), bump, 0, 0, now)];
    AppendFields(log + [Msg(m)], StatsRecord(FieldsOf(log), bump, 0, 0, now));
  }

  lemma CompactEffect(log: seq<Record>, metadata: Value, doomed: set<string>, now: string)
    requires Consistent(log)
    ensures var after := CompactLog(log, metadata, doomed, now);
      && Consistent(after)
      && Drift(after) == if Writes(log, metadata, doomed) then 0 else Drift(log)
  {
    KeptLength(log, doomed);
    if Writes(log, metadata, doomed) { WritingResets(log, CompactLog(log, metadata, doomed, now), metadata, doomed, now); }
  }

  lemma WritingResets(log: seq<Record>, after: seq<Record>, metadata: Value, doomed: set<string>, now: string)
    requires Consistent(log) && Writes(log, metadata, doomed) && after == CompactLog(log, metadata, doomed, now)
    ensures Consistent(after) && Drift(after) == 0
  {
    forall k | IsCountKey(k)
      ensures k in FieldsOf(after) && FieldsOf(after)[k].Num?
    {
      CountSurvives(log, after, metadata, doomed, now, k);
    }
    CompactLookup(log, metadata, doomed, now, MessageCount);
    CompactLookup(log, metadata, doomed, now, UserMessageCount);
  }

  lemma CountSurvives(log: seq<Record>, after: seq<Record>, metadata: Value, doomed: set<string>, now: string, k: Key)
    requires Consistent(log) && Writes(log, metadata, doomed) && after == CompactLog(log, metadata, doomed, now)
    requires IsCountKey(k)
    ensures k in FieldsOf(after) && FieldsOf(after)[k].Num?
  {
    CompactLookup(log, metadata, doomed, now, k);
    assert Lookup(FieldsOf(after), k).Some?;
  }

  /** Every operation keeps the user counter equal to the number of user messages. The drift of the
      other counter moves in two ways only: a session update sets it to whatever its snapshot carried,
      and a compaction that writes clears it. */
  lemma StepEffect(log: seq<Record>, op: Op)
    requires Consistent(log) && OpOk(op)
    ensures Consistent(Step(log, op))
    ensures op.Update? ==> Drift(Step(log, op)) == Count(op.dump, MessageCount) - Users(log)
    ensures CompactionWrites(log, op) ==> Drift(Step(log, op)) == 0
    ensures !op.Update? && !CompactionWrites(log, op) ==> Drift(Step(log, op)) == Drift(log)
  {
    match op
    case SetModel(model, now) => AppendPlain(log, ModelPatch(model, now));
    case MergeMetadata(updates, now) =>
      AppendPlain(log, MetadataPatch(Object(Metadata(FieldsOf(log)) + updates), now));
    case Update(dump, now) => AppendUpdate(log, dump, now);
    case AddTokens(tokens, cost, now) => AppendBump(log, FieldsOf(log), 0, tokens, cost, now);
    case CreateMessage(m, now) => CreateEffect(log, m, now);
    case CompactHistory(metadata, doomed, now) =>
      CompactEffect(log, metadata, doomed, now);
    case DeleteToolResults => ToolMessagesKeepFields(log);
    case StripToolEvents => StrippingKeepsFields(log);
    case RecordSync(sequence, body) =>
      AppendPlain(log, Sync(if sequence.Some? then sequence.value else NextSequence(log), body));
    case DeleteSyncs => SyncDeletionKeepsFields(log);
    case Append(rec) => AppendPlain(log, rec);
  }

  /** Over every run of repository operations from the creation of a session, the folded
      `user_message_count` is the number of user message records in the log. */
  lemma {:induction false} UserCountInvariant(dump: Fields, now: string, ops: seq<Op>)
    requires IsDump(dump) && forall i :: 0 <= i < |ops| ==> OpOk(ops[i])
    ensures Consistent(Run(CreateLog(dump, now), ops))
  {
    CreateIsConsistent(dump, now);
    if ops != [] {
      UserCountInvariant(dump, now, ops[..|ops| - 1]);
      StepEffect(Run(CreateLog(dump, now), ops[..|ops| - 1]), ops[|ops| - 1]);
    }
  }

  // ---------------------------------------------------------------- the other message counter

  /** Position just after the last operation of the run that set the drift, 0 when there is none. */
  ghost function LastSetter(log: seq<Record>, ops: seq<Op>): (n: nat)
    ensures n <= |ops|
  {
    if ops == [] then 0
    else
      var op := ops[|ops| - 1];
      if op.Update? || CompactionWrites(Run(log, ops[..|ops| - 1]), op) then |ops|
      else LastSetter(log, ops[..|ops| - 1])
  }

  /** After any run `message_count` agrees with the user messages exactly when the last operation that
      set it was a compaction, or an update whose snapshot was still exact, or there was none and the
      log agreed at the start. */
  lemma {:induction false} MessageCountExactlyWhen(log: seq<Record>, ops: seq<Op>)
    requires Consistent(log) && forall i :: 0 <= i < |ops| ==> OpOk(ops[i])
    ensures Consistent(Run(log, ops))
    ensures var n := LastSetter(log, ops);
      Drift(Run(log, ops)) == 0 <==>
        if n == 0 then Drift(log) == 0
        else ops[n - 1].Update? ==> Count(ops[n - 1].dump, MessageCount) == Users(Run(log, ops[..n - 1]))
  {
    if ops != [] {
      var init := ops[..|ops| - 1];
      MessageCountExactlyWhen(log, init);
      StepEffect(Run(log, init), ops[|ops| - 1]);
      var n := LastSetter(log, init);
      if n > 0 { assert init[..n - 1] == ops[..n - 1]; }
    }
  }

  /** The lost update: a snapshot taken before a message arrives is written back after it. */
  lemma StaleUpdateLosesMessageCount(dump: Fields, m: Message, now: string)
    requires IsDump(dump) && dump[MessageCount] == Num(0) && m.role == "user"
    ensures Drift(Run(CreateLog(dump, now), [CreateMessage(m, now), Update(dump, now)])) == -1
  {
    var log := CreateLog(dump, now);
    var create, update := CreateMessage(m, now), Update(dump, now);
    RunTwo(log, create, update);
    CreateIsConsistent(dump, now);
    StepEffect(log, create);
    StepEffect(Step(log, create), update);
    CreatedUsers(log, m, now);
    assert Users(log) == 0 by { assert log[..1][..0] == []; assert Users(log[..1]) == 0; }
  }

  lemma RunTwo(log: seq<Record>, a: Op, b: Op)
    ensures Run(log, [a, b]) == Step(Step(log, a), b)
  {
    assert [a, b][..1] == [a] && [a][..0] == [];
    assert Run(log, []) == log && Run(log, [a]) == Step(log, a);
  }

  lemma CreatedUsers(log: seq<Record>, m: Message, now: string)
    ensures Users(Step(log, CreateMessage(m, now))) == Users(log) + (if m.role == "user" then 1 else 0)
  {
    AppendFields(log, Msg(m));
    AppendFields(log + [Msg(m)], StatsRecord(FieldsOf(log), if m.role == "user" then 1 else 0, 0, 0, now));
  }

  // ---------------------------------------------------------------- identity and totals

  lemma CompactKeepsIdentity(log: seq<Record>, metadata: Value, doomed: set<string>, now: string, k: Key)
    requires k == SessionId || k == WorkspaceRoot
    ensures Lookup(FieldsOf(CompactLog(log, metadata, doomed, now)), k) == Lookup(FieldsOf(log), k)
  {
    KeptFields(log, doomed);
    KeptLength(log, doomed);
    RewrittenLookup(Kept(log, doomed), InlineFields(log), metadata, now, k);
  }

  lemma AppendLookup(log: seq<Record>, rec: Record, k: Key)
    ensures Lookup(FieldsOf(log + [rec]), k) == if k in Patch(rec) then Some(Patch(rec)[k]) else Lookup(FieldsOf(log), k)
  {
    AppendFields(log, rec);
  }

  lemma CreateLookup(log: seq<Record>, m: Message, now: string, k: Key)
    requires k != UpdatedAt && k != MessageCount && k != UserMessageCount
    ensures Lookup(FieldsOf(Step(log, CreateMessage(m, now))), k) ==
      if IsCountKey(k) then Some(Num(Count(FieldsOf(log), k))) else Lookup(FieldsOf(log), k)
  {
    AppendLookup(log, Msg(m), k);
    AppendStats(log + [Msg(m)], FieldsOf(log), if m.role == "user" then 1 else 0, 0, 0, now, k);
  }

  /** Operations that append one record without touching a counter or the identity. */
  predicate AppendsPlain(op: Op) {
    op.SetModel? || op.MergeMetadata? || op.RecordSync? || op.Append?
  }

  lemma PlainLookup(log: seq<Record>, op: Op, k: Key)
    requires OpOk(op) && AppendsPlain(op)
    requires k != UpdatedAt && k != MetadataField && k != ModelField
    ensures Lookup(FieldsOf(Step(log, op)), k) == Lookup(FieldsOf(log), k)
  {
    match op
    case SetModel(model, now) => OtherKeyStays(log, ModelPatch(model, now), k);
    case MergeMetadata(updates, now) =>
      if updates != map[] { OtherKeyStays(log, MetadataPatch(Object(Metadata(FieldsOf(log)) + updates), now), k); }
    case RecordSync(sequence, body) =>
      OtherKeyStays(log, Sync(if sequence.Some? then sequence.value else NextSequence(log), body), k);
    case Append(rec) => OtherKeyStays(log, rec, k);
  }

  lemma OtherKeyStays(log: seq<Record>, rec: Record, k: Key)
    requires k !in Patch(rec)
    ensures Lookup(FieldsOf(log + [rec]), k) == Lookup(FieldsOf(log), k)
  {
    AppendLookup(log, rec, k);
  }

  lemma FilterFields(log: seq<Record>, op: Op)
    requires op.DeleteToolResults? || op.StripToolEvents? || op.DeleteSyncs?
    ensures FieldsOf(Step(log, op)) == FieldsOf(log)
  {
    ToolMessagesKeepFields(log);
    StrippingKeepsFields(log);
    SyncDeletionKeepsFields(log);
  }

  lemma StepKeepsIdentity(log: seq<Record>, op: Op, k: Key)
    requires OpOk(op) && (k == SessionId || k == WorkspaceRoot)
    ensures Lookup(FieldsOf(Step(log, op)), k) == Lookup(FieldsOf(log), k)
  {
    if AppendsPlain(op) {
      PlainLookup(log, op, k);
    } else {
      match op
      case Update(dump, now) => AppendLookup(log, UpdatePatch(dump, now), k);
      case AddTokens(tokens, cost, now) => AppendStats(log, FieldsOf(log), 0, tokens, cost, now, k);
      case CreateMessage(m, now) => CreateLookup(log, m, now, k);
      case CompactHistory(metadata, doomed, now) => CompactKeepsIdentity(log, metadata, doomed, now, k);
      case _ => FilterFields(log, op);
    }
  }

  /** Whatever updates carry, no run of operations changes a session's id or workspace. */
  lemma {:induction false} IdentityNeverChanges(log: seq<Record>, ops: seq<Op>, k: Key)
    requires k == SessionId || k == WorkspaceRoot
    requires forall i :: 0 <= i < |ops| ==> OpOk(ops[i])
    ensures Lookup(FieldsOf(Run(log, ops)), k) == Lookup(FieldsOf(log), k)
  {
    if ops != [] {
      IdentityNeverChanges(log, ops[..|ops| - 1], k);
      StepKeepsIdentity(Run(log, ops[..|ops| - 1]), ops[|ops| - 1], k);
    }
  }

  function Bump(op: Op, k: Key): int {
    if op.AddTokens? then (if k == TotalTokens then op.tokens else op.cost) else 0
  }

  lemma CompactKeepsTotal(log: seq<Record>, metadata: Value, doomed: set<string>, now: string, k: Key)
    requires Consistent(log) && (k == TotalTokens || k == TotalCost)
    ensures Count(FieldsOf(CompactLog(log, metadata, doomed, now)), k) == Count(FieldsOf(log), k)
  {
    KeptLength(log, doomed);
    if Writes(log, metadata, doomed) { CompactLookup(log, metadata, doomed, now, k); }
  }

  lemma UpdateSetsTotal(log: seq<Record>, dump: Fields, now: string, k: Key)
    requires IsDump(dump) && (k == TotalTokens || k == TotalCost)
    ensures Lookup(FieldsOf(log + [UpdatePatch(dump, now)]), k) == Some(dump[k])
  {
    AppendLookup(log, UpdatePatch(dump, now), k);
  }

  lemma AddTokensMovesTotal(log: seq<Record>, tokens: int, cost: int, now: string, k: Key)
    requires k == TotalTokens || k == TotalCost
    ensures Count(FieldsOf(log + [StatsRecord(FieldsOf(log), 0, tokens, cost, now)]), k) ==
      Count(FieldsOf(log), k) + if k == TotalTokens then tokens else cost
  {
    AppendStats(log, FieldsOf(log), 0, tokens, cost, now, k);
  }

  lemma StepMovesTotal(log: seq<Record>, op: Op, k: Key)
    requires Consistent(log) && OpOk(op) && (k == TotalTokens || k == TotalCost)
    ensures Count(FieldsOf(Step(log, op)), k) ==
      if op.Update? then Count(op.dump, k) else Count(FieldsOf(log), k) + Bump(op, k)
  {
    if AppendsPlain(op) {
      PlainLookup(log, op, k);
    } else {
      match op
      case Update(dump, now) => UpdateSetsTotal(log, dump, now, k);
      case AddTokens(tokens, cost, now) => AddTokensMovesTotal(log, tokens, cost, now, k);
      case CreateMessage(m, now) => CreateLookup(log, m, now, k);
      case CompactHistory(metadata, doomed, now) => CompactKeepsTotal(log, metadata, doomed, now, k);
      case _ => FilterFields(log, op);
    }
  }

  function TotalBumps(ops: seq<Op>, k: Key): int {
    if ops == [] then 0 else TotalBumps(ops[..|ops| - 1], k) + Bump(ops[|ops| - 1], k)
  }

  /** Position just after the last session update of the run, 0 when there is none. */
  function LastUpdate(ops: seq<Op>): (n: nat)
    ensures n <= |ops|
  {
    if ops == [] then 0
    else if ops[|ops| - 1].Update? then |ops|
    else LastUpdate(ops[..|ops| - 1])
  }

  /** The total the last update left, or the start value. */
  function Carried(start: int, ops: seq<Op>, k: Key): int
    decreases |ops|
  {
    if ops == [] then start
    else if ops[|ops| - 1].Update? then Count(ops[|ops| - 1].dump, k)
    else Carried(start, ops[..|ops| - 1], k)
  }

  /** The increments after the last update. */
  function BumpsSince(ops: seq<Op>, k: Key): int {
    if ops == [] || ops[|ops| - 1].Update? then 0
    else BumpsSince(ops[..|ops| - 1], k) + Bump(ops[|ops| - 1], k)
  }

  lemma {:induction false} SplitAtLastUpdate(start: int, ops: seq<Op>, k: Key)
    ensures var n := LastUpdate(ops);
      && (n == 0 ==> Carried(start, ops, k) == start)
      && (n > 0 ==> ops[n - 1].Update? && Carried(start, ops, k) == Count(ops[n - 1].dump, k))
      && BumpsSince(ops, k) == TotalBumps(ops[n..], k)
    decreases |ops|
  {
    var n := LastUpdate(ops);
    if ops == [] || ops[|ops| - 1].Update? {
      assert ops[n..] == [];
    } else {
      SplitAtLastUpdate(start, ops[..|ops| - 1], k);
      assert ops[n..][..|ops| - n - 1] == ops[..|ops| - 1][n..];
    }
  }

  lemma {:induction false} NoUpdateNoSplit(ops: seq<Op>)
    requires forall i :: 0 <= i < |ops| ==> !ops[i].Update?
    ensures LastUpdate(ops) == 0
  {
    if ops != [] { NoUpdateNoSplit(ops[..|ops| - 1]); }
  }

  lemma {:induction false} TotalBumpsAppend(a: seq<Op>, b: seq<Op>, k: Key)
    ensures TotalBumps(a + b, k) == TotalBumps(a, k) + TotalBumps(b, k)
  {
    if b == [] {
      assert a + b == a;
    } else {
      assert (a + b)[..|a + b| - 1] == a + b[..|b| - 1];
      TotalBumpsAppend(a, b[..|b| - 1], k);
    }
  }

  /** After any run a total is what the snapshot of the last session update carried, or the start value when
      there was no update, plus exactly the increments after it, however messages, compactions and increments
      mix. */
  lemma {:induction false} TotalsAfterRun(log: seq<Record>, ops: seq<Op>, k: Key)
    requires Consistent(log) && (k == TotalTokens || k == TotalCost)
    requires forall i :: 0 <= i < |ops| ==> OpOk(ops[i])
    ensures Consistent(Run(log, ops))
    ensures Count(FieldsOf(Run(log, ops)), k) == Carried(Count(FieldsOf(log), k), ops, k) + BumpsSince(ops, k)
  {
    if ops != [] {
      var init := ops[..|ops| - 1];
      TotalsAfterRun(log, init, k);
      StepEffect(Run(log, init), ops[|ops| - 1]);
      StepMovesTotal(Run(log, init), ops[|ops| - 1], k);
    }
  }

  /** So over a run without a session update no increment is lost. */
  lemma IncrementsAreConserved(log: seq<Record>, ops: seq<Op>, k: Key)
    requires Consistent(log) && (k == TotalTokens || k == TotalCost)
    requires forall i :: 0 <= i < |ops| ==> OpOk(ops[i]) && !ops[i].Update?
    ensures Count(FieldsOf(Run(log, ops)), k) == Count(FieldsOf(log), k) + TotalBumps(ops, k)
  {
    TotalsAfterRun(log, ops, k);
    NoUpdateNoSplit(ops);
    SplitAtLastUpdate(Count(FieldsOf(log), k), ops, k);
    assert ops[0..] == ops;
  }

  /** And over any run all increments are kept exactly when the snapshot of the last update had all those made
      before it. */
  lemma UpdateKeepsIncrementsExactlyWhen(log: seq<Record>, ops: seq<Op>, k: Key)
    requires Consistent(log) && (k == TotalTokens || k == TotalCost)
    requires forall i :: 0 <= i < |ops| ==> OpOk(ops[i])
    ensures var n := LastUpdate(ops);
      && (n > 0 ==> ops[n - 1].Update?)
      && (Count(FieldsOf(Run(log, ops)), k) == Count(FieldsOf(log), k) + TotalBumps(ops, k)
          <==> n == 0 || Count(ops[n - 1].dump, k) == Count(FieldsOf(log), k) + TotalBumps(ops[..n], k))
  {
    TotalsAfterRun(log, ops, k);
    SplitAtLastUpdate(Count(FieldsOf(log), k), ops, k);
    BumpsSplit(ops, LastUpdate(ops), k);
  }

  lemma BumpsSplit(ops: seq<Op>, n: nat, k: Key)
    requires n <= |ops|
    ensures TotalBumps(ops, k) == TotalBumps(ops[..n], k) + TotalBumps(ops[n..], k)
    ensures n == 0 ==> TotalBumps(ops[..n], k) == 0
  {
    TotalBumpsAppend(ops[..n], ops[n..], k);
    assert ops[..n] + ops[n..] == ops;
  }

  /** The lost increment: a snapshot taken before tokens are added is written back after them. */
  lemma StaleUpdateLosesIncrement(dump: Fields, tokens: int, now: string)
    requires IsDump(dump) && tokens != 0
    ensures var log := CreateLog(dump, now);
      var after := Run(log, [AddTokens(tokens, 0, now), Update(dump, now)]);
      && Count(FieldsOf(Run(log, [AddTokens(tokens, 0, now)])), TotalTokens) == Count(dump, TotalTokens) + tokens
      && Count(FieldsOf(after), TotalTokens) == Count(dump, TotalTokens)
  {
    var log := CreateLog(dump, now);
    var add, update := AddTokens(tokens, 0, now), Update(dump, now);
    CreateIsConsistent(dump, now);
    RunTwo(log, add, update);
    assert [add][..0] == [];
    AppendStats([Header(dump[VersionTag := Num(1)])], dump, 0, 0, 0, now, TotalTokens);
    assert log == [Header(dump[VersionTag := Num(1)])] + [StatsRecord(dump, 0, 0, 0, now)];
    StepMovesTotal(log, add, TotalTokens);
    StepEffect(log, add);
    StepMovesTotal(Step(log, add), update, TotalTokens);
  }

  // ---------------------------------------------------------------- compaction and the fold

  /** Compaction commutes with the fold: messages are filtered by id and keep their order, and the
      other parts of the snapshot are identical. */
  lemma CompactionCommutesWithFold(log: seq<Record>, metadata: Value, doomed: set<string>, now: string)
    requires !CompactionAborts(log)
    ensures var after := CompactLog(log, metadata, doomed, now);
      && Messages(after) == KeptMessages(Messages(log), doomed)
      && Syncs(after) == Syncs(log) && Usages(after) == Usages(log)
      && Workspace(after) == Workspace(log) && LatestCheckpoint(after) == LatestCheckpoint(log)
  {
    KeptParts(log, doomed);
    KeptLength(log, doomed);
    var kept := Kept(log, doomed);
    if |kept| < |log| || metadata != Null {
      var users := Num(Users(kept));
      var base := InlineFields(log)[MessageCount := users][UserMessageCount := users];
      AppendRecord(kept, MetadataPatch(metadata, now));
      AppendRecord(kept + [MetadataPatch(metadata, now)], StatsRecord(base, 0, 0, 0, now));
    }
  }

  /** Messages that were not summarized survive, whatever was appended in the meantime. */
  lemma {:induction false} SurvivorsKeepOrder(ms: seq<Message>, doomed: set<string>, i: nat, j: nat)
    requires i < j < |ms| && ms[i].id !in doomed && ms[j].id !in doomed
    ensures exists a, b :: 0 <= a < b < |KeptMessages(ms, doomed)|
              && KeptMessages(ms, doomed)[a] == ms[i] && KeptMessages(ms, doomed)[b] == ms[j]
  {
    var init, last := ms[..|ms| - 1], ms[|ms| - 1];
    if j < |init| {
      SurvivorsKeepOrder(init, doomed, i, j);
      var a, b :| 0 <= a < b < |KeptMessages(init, doomed)|
        && KeptMessages(init, doomed)[a] == init[i] && KeptMessages(init, doomed)[b] == init[j];
      assert KeptMessages(ms, doomed)[a] == ms[i] && KeptMessages(ms, doomed)[b] == ms[j];
    } else {
      var a := SurvivorIndex(init, doomed, i);
      assert KeptMessages(ms, doomed)[a] == ms[i];
      assert KeptMessages(ms, doomed)[|KeptMessages(ms, doomed)| - 1] == ms[j];
    }
  }

  lemma {:induction false} SurvivorIndex(ms: seq<Message>, doomed: set<string>, i: nat) returns (a: nat)
    requires i < |ms| && ms[i].id !in doomed
    ensures a < |KeptMessages(ms, doomed)| && KeptMessages(ms, doomed)[a] == ms[i]
  {
    if i == |ms| - 1 {
      a := |KeptMessages(ms[..|ms| - 1], doomed)|;
    } else {
      a := SurvivorIndex(ms[..|ms| - 1], doomed, i);
    }
  }

  // ---------------------------------------------------------------- the repositories

  datatype Outcome<+T> = Ok(value: T) | NotFound

  class SessionHome {
    /** One log per session id; a missing id is a missing file. */
    var files: map<string, seq<Record>>

    constructor ()
      ensures files == map[]
    {
      files := map[];
    }

    method Create(id: string, dump: Fields, now: string)
      modifies this
      ensures files == old(files)[id := CreateLog(dump, now)]
    {
      files := files[id := [Header(dump[VersionTag := Num(1)]), StatsRecord(dump, 0, 0, 0, now)]];
    }

    method LoadSnapshot(id: string) returns (snap: Option<Snapshot>)
      ensures snap == if id in files then Fold(files[id], id) else None
    {
      if id !in files { return None; }
      snap := FoldRecords(files[id], id);
    }

    method AppendTo(id: string, rec: Record)
      requires id in files
      modifies this
      ensures files == old(files)[id := old(files)[id] + [rec]]
    {
      files := files[id := files[id] + [rec]];
    }

    method SetModel(id: string, model: Value, now: string) returns (found: bool)
      modifies this
      ensures found <==> id in old(files)
      ensures files == if found then old(files)[id := Step(old(files)[id], Op.SetModel(model, now))] else old(files)
    {
      if id !in files { return false; }
      AppendTo(id, ModelPatch(model, now));
      return true;
    }

    /** The metadata written is the stored one with the updates on top; a session without fields is refused. */
    method MergeMetadata(id: string, updates: map<string, string>, now: string)
      returns (merged: Outcome<map<string, string>>)
      modifies this
      ensures updates != map[] ==> (merged.Ok? <==> id in old(files) && FieldsOf(old(files)[id]) != map[])
      ensures files == if merged.Ok? && updates != map[]
                       then old(files)[id := Step(old(files)[id], Op.MergeMetadata(updates, now))] else old(files)
      ensures merged.Ok? ==> id in files && Metadata(FieldsOf(files[id])) == merged.value
      ensures merged.Ok? ==> merged.value == Metadata(FieldsOf(old(files)[id])) + updates
    {
      var snap := LoadSnapshot(id);
      if snap.None? { return NotFound; }
      var current := Metadata(snap.value.fields);
      assert current == Metadata(FieldsOf(files[id]));
      if updates == map[] { return Ok(current); }
      var all := current + updates;
      AppendFields(files[id], MetadataPatch(Object(all), now));
      AppendTo(id, MetadataPatch(Object(all), now));
      return Ok(all);
    }

    method Update(id: string, dump: Fields, now: string) returns (r: Outcome<()>)
      modifies this
      ensures r.Ok? <==> id in old(files)
      ensures files == if r.Ok? then old(files)[id := Step(old(files)[id], Op.Update(dump, now))] else old(files)
    {
      if id !in files { return NotFound; }
      AppendTo(id, UpdatePatch(dump, now));
      return Ok(());
    }

    lemma MergedIsReloaded(f: Fields, stats: Record, id: string)
      requires stats.Stats? && UpdatedAt in stats.counters
      ensures MergeCounters(SetDefaultId(f, id), stats) == SetDefaultId(f + Patch(stats), id)
      ensures UpdatedAt in f + Patch(stats)
    {
    }

    /** The session returned is the one a fresh load would give, so no increment is lost or invented. */
    method AddTokens(id: string, tokens: int, cost: int, now: string) returns (session: Option<Fields>)
      modifies this
      ensures session.Some? <==> id in old(files) && FieldsOf(old(files)[id]) != map[]
      ensures files == if session.Some? then old(files)[id := Step(old(files)[id], Op.AddTokens(tokens, cost, now))]
                       else old(files)
      ensures session.Some? ==> Fold(files[id], id).Some? && Fold(files[id], id).value.fields == session.value
      ensures session.Some? ==>
        Count(session.value, TotalTokens) == Count(FieldsOf(old(files)[id]), TotalTokens) + tokens
    {
      var snap := LoadSnapshot(id);
      if snap.None? { return None; }
      var stats, merged := Increment(files[id], id, snap.value.fields, tokens, cost, now);
      AppendTo(id, stats);
      return Some(merged);
    }

    /** The stats record of an increment, and the loaded fields with it merged in. */
    method Increment(log: seq<Record>, id: string, fields: Fields, tokens: int, cost: int, now: string)
      returns (stats: Record, merged: Fields)
      requires fields == SetDefaultId(FieldsOf(log), id)
      ensures log + [stats] == Step(log, Op.AddTokens(tokens, cost, now))
      ensures Fold(log + [stats], id).Some? && Fold(log + [stats], id).value.fields == merged
      ensures Count(merged, TotalTokens) == Count(FieldsOf(log), TotalTokens) + tokens
    {
      stats := StatsRecord(fields, 0, tokens, cost, now);
      merged := MergeCounters(fields, stats);
      StatsIgnoresId(FieldsOf(log), id, tokens, cost, now);
      MergedIsReloaded(FieldsOf(log), stats, id);
      IncrementReloads(log, id, stats, merged, tokens, cost, now);
    }

    /** Loaded fields with the counters and the time of a stats record on top. */
    function MergeCounters(fields: Fields, stats: Record): Fields
      requires stats.Stats? && UpdatedAt in stats.counters
    {
      (fields + CountFields(stats.counters))[UpdatedAt := stats.counters[UpdatedAt]]
    }

    /** Merging the new counters into the loaded fields gives what a reload of the longer log gives. */
    lemma IncrementReloads(log: seq<Record>, id: string, stats: Record, merged: Fields, tokens: int, cost: int, now: string)
      requires stats == StatsRecord(FieldsOf(log), 0, tokens, cost, now)
      requires merged == SetDefaultId(FieldsOf(log) + Patch(stats), id) && UpdatedAt in FieldsOf(log) + Patch(stats)
      ensures log + [stats] == Step(log, Op.AddTokens(tokens, cost, now))
      ensures Fold(log + [stats], id).Some? && Fold(log + [stats], id).value.fields == merged
      ensures Count(merged, TotalTokens) == Count(FieldsOf(log), TotalTokens) + tokens
    {
      AppendFields(log, stats);
      StatsPatch(FieldsOf(log), 0, tokens, cost, now, TotalTokens);
      MergeLookup(FieldsOf(log), Patch(stats), TotalTokens);
      assert Lookup(merged, TotalTokens) == Some(Num(Count(FieldsOf(log), TotalTokens) + tokens));
    }

    lemma StatsIgnoresId(f: Fields, id: string, tokens: int, cost: int, now: string)
      ensures StatsRecord(SetDefaultId(f, id), 0, tokens, cost, now) == StatsRecord(f, 0, tokens, cost, now)
    {
    }

    method CreateMessage(id: string, m: Message, now: string) returns (r: Outcome<()>)
      modifies this
      ensures r.Ok? <==> id in old(files) && FieldsOf(old(files)[id]) != map[]
      ensures files == if r.Ok? then old(files)[id := Step(old(files)[id], Op.CreateMessage(m, now))] else old(files)
      ensures r.Ok? ==> id in files && Messages(files[id]) == Messages(old(files)[id]) + [m]
    {
      var snap := LoadSnapshot(id);
      if snap.None? { return NotFound; }
      var fields := snap.value.fields;
      var bump := if m.role == "user" then 1 else 0;
      assert StatsRecord(fields, bump, 0, 0, now) == StatsRecord(FieldsOf(files[id]), bump, 0, 0, now);
      CreatedIsNewest(files[id], m, now);
      AppendTo(id, Msg(m));
      AppendTo(id, StatsRecord(fields, bump, 0, 0, now));
      return Ok(());
    }

    lemma CreatedIsNewest(log: seq<Record>, m: Message, now: string)
      ensures Messages(Step(log, Op.CreateMessage(m, now))) == Messages(log) + [m]
    {
      AppendRecord(log, Msg(m));
      AppendRecord(log + [Msg(m)], StatsRecord(FieldsOf(log), if m.role == "user" then 1 else 0, 0, 0, now));
    }

    /** Removes the records of the given messages and resets the counters in one rewrite. */
    method CompactHistory(id: string, metadata: Value, deleteIds: seq<string>, now: string) returns (deleted: nat)
      modifies this
      ensures id !in old(files) ==> files == old(files) && deleted == 0
      ensures id in old(files) ==>
        var doomed := set x | x in deleteIds;
        && files == old(files)[id := CompactLog(old(files)[id], metadata, doomed, now)]
        && deleted == if CompactionAborts(old(files)[id]) then 0 else |old(files)[id]| - |Kept(old(files)[id], doomed)|
    {
      var doomed := set x | x in deleteIds;
      if id !in files { return 0; }
      var records := files[id];
      var fields: Fields := map[];
      for i := 0 to |records|
        invariant fields == InlineFields(records[..i])
      {
        assert records[..i + 1][..i] == records[..i];
        match records[i] {
          case Header(dump) => fields := fields + (dump - {TypeTag, VersionTag});
          case Meta(patch) => if patch.Some? { fields := fields + patch.value; }
          case Stats(counters) => fields := fields + CountFields(counters);
          case _ =>
        }
      }
      assert records[..|records|] == records;
      if Messages(records) == [] && Count(fields, MessageCount) > 0 {
        assert CompactLog(records, metadata, doomed, now) == records;
        assert files == files[id := records];
        return 0;
      }
      var kept := [];
      deleted := 0;
      for i := 0 to |records|
        invariant kept == Kept(records[..i], doomed) && deleted == i - |kept|
      {
        assert records[..i + 1][..i] == records[..i];
        if records[i].Msg? && records[i].message.id in doomed {
          deleted := deleted + 1;
        } else {
          kept := kept + [records[i]];
        }
      }
      if deleted > 0 || metadata != Null {
        var usersLeft := CountUsers(kept);
        kept := kept + [MetadataPatch(metadata, now)];
        var base := fields[MessageCount := Num(usersLeft)][UserMessageCount := Num(usersLeft)];
        kept := kept + [StatsRecord(base, 0, 0, 0, now)];
      }
      files := files[id := kept];
    }

    method CountUsers(records: seq<Record>) returns (n: nat)
      ensures n == Users(records)
    {
      n := 0;
      for i := 0 to |records|
        invariant n == Users(records[..i])
      {
        assert records[..i + 1][..i] == records[..i];
        if IsUser(records[i]) { n := n + 1; }
      }
      assert records[..|records|] == records;
    }

    method DeleteToolResults(id: string) returns (deleted: nat)
      modifies this
      ensures id !in old(files) ==> files == old(files) && deleted == 0
      ensures id in old(files) ==>
        && files == old(files)[id := Step(old(files)[id], Op.DeleteToolResults)]
        && deleted == |old(files)[id]| - |files[id]|
    {
      if id !in files { return 0; }
      var records := files[id];
      var kept := [];
      for i := 0 to |records|
        invariant kept == WithoutToolMessages(records[..i]) && |kept| <= i
        invariant |kept| == i ==> kept == records[..i]
      {
        assert records[..i + 1][..i] == records[..i];
        if !IsToolMessage(records[i]) { kept := kept + [records[i]]; }
      }
      assert records[..|records|] == records;
      deleted := |records| - |kept|;
      if deleted > 0 { files := files[id := kept]; }
      assert files == old(files)[id := kept];
    }

    method StripToolEvents(id: string) returns (touched: nat)
      modifies this
      ensures id !in old(files) ==> files == old(files) && touched == 0
      ensures id in old(files) ==> files == old(files)[id := Step(old(files)[id], Op.StripToolEvents)]
      ensures id in old(files) ==> touched == Touched(old(files)[id]) && (touched == 0 <==> files == old(files))
    {
      if id !in files { return 0; }
      var records := files[id];
      touched := 0;
      var kept := [];
      for i := 0 to |records|
        invariant kept == StripAll(records[..i]) && |kept| == i && touched == Touched(records[..i])
        invariant touched == 0 <==> kept == records[..i]
        invariant files == old(files)
      {
        assert records[..i + 1] == records[..i] + [records[i]];
        assert records[..i + 1][..i] == records[..i];
        var rec := records[i];
        if rec.Msg? {
          var filtered := WithoutToolEvents(rec.message.events);
          FilteredLength(rec.message.events);
          FilteredKinds(rec.message.events);
          assert CarriesToolEvent(rec) <==> |filtered| != |rec.message.events|;
          if |filtered| != |rec.message.events| {
            rec := Msg(rec.message.(events := filtered));
            touched := touched + 1;
          }
        }
        assert rec == StripRecord(records[i]);
        assert touched == 0 <==> kept == records[..i] && rec == records[i];
        kept := kept + [rec];
        assert kept[..i] == StripAll(records[..i]) && kept[i] == rec;
        assert kept == records[..i + 1] <==> kept[..i] == records[..i] && rec == records[i];
      }
      assert records[..|records|] == records;
      if touched > 0 { files := files[id := kept]; }
      if touched == 0 { assert kept == records && old(files)[id := records] == old(files); }
      assert files == old(files)[id := kept];
      assert files[id] == kept && (id in old(files) && old(files)[id] == records);
    }

    lemma {:induction false} FilteredLength(events: seq<Event>)
      ensures |WithoutToolEvents(events)| <= |events|
      ensures |WithoutToolEvents(events)| == |events| <==> WithoutToolEvents(events) == events
    {
      if events != [] { FilteredLength(events[..|events| - 1]); }
    }

    /** The length tells whether there was a tool-result event. */
    lemma {:induction false} FilteredKinds(events: seq<Event>)
      ensures |WithoutToolEvents(events)| == |events| <==> forall i :: 0 <= i < |events| ==> events[i].kind != TOOL_RESULT_KIND
    {
      if events != [] {
        var init, last := events[..|events| - 1], events[|events| - 1];
        FilteredLength(init);
        FilteredKinds(init);
        if last.kind == TOOL_RESULT_KIND {
          assert events[|events| - 1].kind == TOOL_RESULT_KIND;
        } else if forall i :: 0 <= i < |init| ==> init[i].kind != TOOL_RESULT_KIND {
          forall i | 0 <= i < |events| ensures events[i].kind != TOOL_RESULT_KIND {
            assert i < |init| ==> events[i] == init[i];
          }
        } else {
          var i :| 0 <= i < |init| && init[i].kind == TOOL_RESULT_KIND;
          assert events[i] == init[i];
        }
      }
    }

    method RecordSync(id: string, sequence: Option<int>, body: string) returns (r: Outcome<int>)
      modifies this
      ensures r.Ok? <==> id in old(files)
      ensures files == if r.Ok? then old(files)[id := Step(old(files)[id], Op.RecordSync(sequence, body))] else old(files)
      ensures r.Ok? && sequence.None? ==> forall s :: s in Syncs(old(files)[id]) ==> s.Sync? && s.sequence < r.value
    {
      if id !in files { return NotFound; }
      var seqNo := if sequence.Some? then sequence.value else NextSequence(files[id]);
      forall s | s in Syncs(files[id]) ensures s.Sync? && s.sequence < NextSequence(files[id]) {
        NextSequenceIsFresh(files[id], s);
      }
      AppendTo(id, Sync(seqNo, body));
      return Ok(seqNo);
    }

    method DeleteSyncs(id: string)
      modifies this
      ensures files == if id in old(files) then old(files)[id := Step(old(files)[id], Op.DeleteSyncs)] else old(files)
    {
      if id !in files { return; }
      var records := files[id];
      var kept := [];
      for i := 0 to |records|
        invariant kept == WithoutSyncs(records[..i]) && |kept| <= i
        invariant |kept| == i ==> kept == records[..i]
      {
        assert records[..i + 1][..i] == records[..i];
        if !records[i].Sync? { kept := kept + [records[i]]; }
      }
      assert records[..|records|] == records;
      if |kept| != |records| { files := files[id := kept]; }
      assert files == old(files)[id := kept];
    }

    method AppendRecordTo(id: string, rec: Record) returns (r: Outcome<()>)
      modifies this
      ensures r.Ok? <==> id in old(files)
      ensures files == if r.Ok? then old(files)[id := Step(old(files)[id], Op.Append(rec))] else old(files)
    {
      if id !in files { return NotFound; }
      AppendTo(id, rec);
      return Ok(());
    }
  }
}
