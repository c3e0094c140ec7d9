/** The append-only session log and its later-wins fold (server/storage/session_file.py). */
module SessionFile {
  import opened Selection
  import opened Wrappers

  datatype Value = Null | Num(n: int) | Text(s: string) | Flag(b: bool) | Object(members: map<string, string>)

  /** A session's dictionary of fields, and the dictionaries carried by records. */
  type Fields = map<Key, Value>

  /** The keys the storage layer treats specially, and every other session attribute by name. */
  datatype Key =
    | MessageCount | UserMessageCount | TotalTokens | TotalCost | ContextPercent
    | UpdatedAt | SessionId | WorkspaceRoot | TypeTag | VersionTag
    | MetadataField | ModelField | Attribute(name: string)

  datatype Event = Event(kind: string, data: string)
  datatype Message = Message(id: string, role: string, content: string, events: seq<Event>)

  datatype Record =
    | Header(dump: Fields)
    | Meta(patch: Option<Fields>)     // None: the patch is not a dictionary
    | Stats(counters: Fields)
    | Msg(message: Message)
    | Sync(sequence: int, body: string)
    | Usage(body: string)
    | Checkpoint(id: string, body: string)
    | WsFile(path: string, body: string)
    | Unknown

  /** The keys a stats record carries besides `updated_at`. */
  predicate IsCountKey(k: Key) {
    k.MessageCount? || k.UserMessageCount? || k.TotalTokens? || k.TotalCost? || k.ContextPercent?
  }

  const PATCH_EXCLUDE := {SessionId, WorkspaceRoot, TypeTag, VersionTag}

  // ---------------------------------------------------------------- field fold

  function CountFields(f: Fields): Fields {
    map k | k in f && IsCountKey(k) :: f[k]
  }

  function StatsFields(f: Fields): Fields {
    map k | k in f && (IsCountKey(k) || k == UpdatedAt) :: f[k]
  }

  /** What one record writes onto the fields. */
  function Patch(rec: Record): Fields {
    match rec
    case Header(dump) => dump - {TypeTag, VersionTag}
    case Meta(Some(patch)) => patch
    case Stats(counters) => StatsFields(counters)
    case _ => map[]
  }

  function FieldsOf(records: seq<Record>): Fields {
    if records == [] then map[]
    else FieldsOf(records[..|records| - 1]) + Patch(records[|records| - 1])
  }

  lemma {:induction false} FieldsOfAppend(a: seq<Record>, b: seq<Record>)
    ensures FieldsOf(a + b) == FieldsOf(a) + FieldsOf(b)
  {
    if b == [] {
      assert a + b == a;
    } else {
      assert (a + b)[..|a + b| - 1] == a + b[..|b| - 1];
      FieldsOfAppend(a, b[..|b| - 1]);
    }
  }

  // ---------------------------------------------------------------- the other parts of the fold

  function Messages(records: seq<Record>): seq<Message> {
    if records == [] then []
    else
      var last := records[|records| - 1];
      var before := Messages(records[..|records| - 1]);
      if last.Msg? then before + [last.message] else before
  }

  function Syncs(records: seq<Record>): seq<Record> {
    if records == [] then []
    else
      var last := records[|records| - 1];
      var before := Syncs(records[..|records| - 1]);
      if last.Sync? then before + [last] else before
  }

  function Usages(records: seq<Record>): seq<Record> {
    if records == [] then []
    else
      var last := records[|records| - 1];
      var before := Usages(records[..|records| - 1]);
      if last.Usage? then before + [last] else before
  }

  /** Latest wins per path; a record with an empty path is ignored. */
  function Workspace(records: seq<Record>): map<string, string> {
    if records == [] then map[]
    else
      var last := records[|records| - 1];
      var before := Workspace(records[..|records| - 1]);
      if last.WsFile? && last.path != "" then before[last.path := last.body] else before
  }

  function LatestCheckpoint(records: seq<Record>): Option<Record> {
    if records == [] then None
    else if records[|records| - 1].Checkpoint? then Some(records[|records| - 1])
    else LatestCheckpoint(records[..|records| - 1])
  }

  datatype Snapshot = Snapshot(
    fields: Fields, messages: seq<Message>, syncs: seq<Record>, usage: seq<Record>,
    workspace: map<string, string>, checkpoint: Option<Record>)

  function SetDefaultId(fields: Fields, fallbackId: string): Fields {
    if fallbackId != "" && SessionId !in fields then fields[SessionId := Text(fallbackId)] else fields
  }

  /** The specified fold: nothing for an empty log or one that never wrote a field. */
  function Fold(records: seq<Record>, fallbackId: string): Option<Snapshot> {
    if records == [] || FieldsOf(records) == map[] then None
    else Some(Snapshot(
      SetDefaultId(FieldsOf(records), fallbackId), Messages(records), Syncs(records), Usages(records),
      Workspace(records), LatestCheckpoint(records)))
  }

  // ---------------------------------------------------------------- what a snapshot holds

  /** The record writes the field: a header every field of its dump but the two tags, a metadata patch all its
      fields, a stats record the counters and the time it carries. */
  predicate WritesKey(rec: Record, k: Key) {
    match rec
    case Header(dump) => k in dump && k != TypeTag && k != VersionTag
    case Meta(Some(patch)) => k in patch
    case Stats(counters) =>
      k in counters && (k == UpdatedAt || k == MessageCount || k == UserMessageCount
                        || k == TotalTokens || k == TotalCost || k == ContextPercent)
    case _ => false
  }

  function WrittenValue(rec: Record, k: Key): Value
    requires WritesKey(rec, k)
  {
    match rec
    case Header(dump) => dump[k]
    case Meta(Some(patch)) => patch[k]
    case Stats(counters) => counters[k]
  }

  ghost predicate IsLastWriter(records: seq<Record>, i: int, k: Key) {
    && 0 <= i < |records| && WritesKey(records[i], k)
    && forall j :: i < j < |records| ==> !WritesKey(records[j], k)
  }

  /** Each field has the value its last writer gave it, and there are no others. */
  ghost predicate FieldsHold(records: seq<Record>, fields: Fields) {
    && (forall k :: k in fields ==> exists i :: IsLastWriter(records, i, k))
    && (forall k, i :: IsLastWriter(records, i, k) ==> k in fields && fields[k] == WrittenValue(records[i], k))
  }

  ghost predicate SyncRows(records: seq<Record>, rows: seq<Record>) {
    exists at :: Picks(records, rows, at) && forall i: nat :: i < |records| ==> (i in at <==> records[i].Sync?)
  }

  ghost predicate UsageRows(records: seq<Record>, rows: seq<Record>) {
    exists at :: Picks(records, rows, at) && forall i: nat :: i < |records| ==> (i in at <==> records[i].Usage?)
  }

  function AsRecords(ms: seq<Message>): seq<Record> {
    seq(|ms|, i requires 0 <= i < |ms| => Msg(ms[i]))
  }

  ghost predicate MessageRows(records: seq<Record>, ms: seq<Message>) {
    exists at :: Picks(records, AsRecords(ms), at) && forall i: nat :: i < |records| ==> (i in at <==> records[i].Msg?)
  }

  ghost predicate IsLastFile(records: seq<Record>, i: int, path: string) {
    && 0 <= i < |records| && records[i].WsFile? && records[i].path == path && path != ""
    && forall j :: i < j < |records| ==> !(records[j].WsFile? && records[j].path == path)
  }

  ghost predicate WorkspaceHolds(records: seq<Record>, workspace: map<string, string>) {
    && (forall p :: p in workspace ==> exists i :: IsLastFile(records, i, p))
    && (forall p, i :: IsLastFile(records, i, p) ==> p in workspace && workspace[p] == records[i].body)
  }

  ghost predicate CheckpointHolds(records: seq<Record>, checkpoint: Option<Record>) {
    match checkpoint
    case None => forall i :: 0 <= i < |records| ==> !records[i].Checkpoint?
    case Some(c) => exists i :: 0 <= i < |records| && records[i] == c && c.Checkpoint?
                      && forall j :: i < j < |records| ==> !records[j].Checkpoint?
  }

  /** Everything a log says, and nothing else. */
  ghost predicate Holds(records: seq<Record>, snap: Snapshot, fallbackId: string) {
    && SyncRows(records, snap.syncs) && UsageRows(records, snap.usage) && MessageRows(records, snap.messages)
    && WorkspaceHolds(records, snap.workspace) && CheckpointHolds(records, snap.checkpoint)
    && exists written ::
         && FieldsHold(records, written) && written != map[]
         && snap.fields == if fallbackId != "" && SessionId !in written then written[SessionId := Text(fallbackId)] else written
  }

  lemma PatchWrites(rec: Record, k: Key)
    ensures k in Patch(rec) <==> WritesKey(rec, k)
    ensures k in Patch(rec) ==> Patch(rec)[k] == WrittenValue(rec, k)
  {
  }

  lemma LastWriterSnoc(init: seq<Record>, last: Record, i: int, k: Key)
    ensures WritesKey(last, k) ==> (IsLastWriter(init + [last], i, k) <==> i == |init|)
    ensures !WritesKey(last, k) ==> (IsLastWriter(init + [last], i, k) <==> IsLastWriter(init, i, k))
  {
    var all := init + [last];
    assert forall j :: 0 <= j < |init| ==> all[j] == init[j];
    assert all[|init|] == last;
  }

  /** The field is there exactly when it has a last writer, and has the value that one wrote. */
  lemma {:induction false} LastWriterDecides(records: seq<Record>, k: Key) returns (i: int)
    ensures k in FieldsOf(records) ==> IsLastWriter(records, i, k) && FieldsOf(records)[k] == WrittenValue(records[i], k)
    ensures k !in FieldsOf(records) ==> forall j :: !IsLastWriter(records, j, k)
  {
    if records == [] {
      i := 0;
    } else {
      var init, last := records[..|records| - 1], records[|records| - 1];
      assert records == init + [last];
      i := LastWriterDecides(init, k);
      PatchWrites(last, k);
      if WritesKey(last, k) { i := |init|; }
      LastWriterSnoc(init, last, i, k);
      forall j ensures k !in FieldsOf(records) ==> !IsLastWriter(records, j, k) {
        LastWriterSnoc(init, last, j, k);
      }
    }
  }

  lemma FieldsHoldLast(records: seq<Record>)
    ensures FieldsHold(records, FieldsOf(records))
  {
    forall k | k in FieldsOf(records) ensures exists i :: IsLastWriter(records, i, k) {
      var i := LastWriterDecides(records, k);
    }
    forall k, i | IsLastWriter(records, i, k)
      ensures k in FieldsOf(records) && FieldsOf(records)[k] == WrittenValue(records[i], k)
    {
      var j := LastWriterDecides(records, k);
      LastWriterIsUnique(records, i, j, k);
    }
  }

  lemma LastWriterIsUnique(records: seq<Record>, i: int, j: int, k: Key)
    requires IsLastWriter(records, i, k) && IsLastWriter(records, j, k)
    ensures i == j
  {
  }

  lemma {:induction false} SyncPositions(records: seq<Record>) returns (at: seq<nat>)
    ensures Picks(records, Syncs(records), at) && forall i: nat :: i < |records| ==> (i in at <==> records[i].Sync?)
  {
    if records == [] {
      at := [];
    } else {
      var init, last := records[..|records| - 1], records[|records| - 1];
      at := SyncPositions(init);
      assert records == init + [last];
      if last.Sync? {
        PicksTake(init, Syncs(init), at, last);
        at := at + [|init|];
      } else {
        PicksSkip(init, Syncs(init), at, last);
      }
    }
  }

  lemma {:induction false} UsagePositions(records: seq<Record>) returns (at: seq<nat>)
    ensures Picks(records, Usages(records), at) && forall i: nat :: i < |records| ==> (i in at <==> records[i].Usage?)
  {
    if records == [] {
      at := [];
    } else {
      var init, last := records[..|records| - 1], records[|records| - 1];
      at := UsagePositions(init);
      assert records == init + [last];
      if last.Usage? {
        PicksTake(init, Usages(init), at, last);
        at := at + [|init|];
      } else {
        PicksSkip(init, Usages(init), at, last);
      }
    }
  }

  lemma {:induction false} MessagePositions(records: seq<Record>) returns (at: seq<nat>)
    ensures Picks(records, AsRecords(Messages(records)), at)
    ensures forall i: nat :: i < |records| ==> (i in at <==> records[i].Msg?)
  {
    if records == [] {
      at := [];
    } else {
      var init, last := records[..|records| - 1], records[|records| - 1];
      at := MessagePositions(init);
      assert records == init + [last];
      if last.Msg? {
        PicksTake(init, AsRecords(Messages(init)), at, last);
        assert AsRecords(Messages(records)) == AsRecords(Messages(init)) + [last];
        at := at + [|init|];
      } else {
        PicksSkip(init, AsRecords(Messages(init)), at, last);
      }
    }
  }

  lemma {:induction false} LastFileDecides(records: seq<Record>, p: string)
    ensures p in Workspace(records) ==> exists i :: IsLastFile(records, i, p) && Workspace(records)[p] == records[i].body
    ensures (exists i :: IsLastFile(records, i, p)) ==> p in Workspace(records)
  {
    if records != [] {
      var init, last := records[..|records| - 1], records[|records| - 1];
      LastFileDecides(init, p);
      if last.WsFile? && last.path == p {
        if p != "" { assert IsLastFile(records, |init|, p); }
      } else {
        if p in Workspace(init) {
          var i :| IsLastFile(init, i, p) && Workspace(init)[p] == init[i].body;
          assert IsLastFile(records, i, p);
        }
        if i :| IsLastFile(records, i, p) {
          assert init[i] == records[i];
          assert IsLastFile(init, i, p);
        }
      }
    }
  }

  lemma WorkspaceHoldsLast(records: seq<Record>)
    ensures WorkspaceHolds(records, Workspace(records))
  {
    forall p | p in Workspace(records) ensures exists i :: IsLastFile(records, i, p) {
      LastFileDecides(records, p);
    }
    forall p, i | IsLastFile(records, i, p) ensures p in Workspace(records) && Workspace(records)[p] == records[i].body {
      LastFileDecides(records, p);
      var j :| IsLastFile(records, j, p) && Workspace(records)[p] == records[j].body;
      LastFileIsUnique(records, i, j, p);
    }
  }

  lemma LastFileIsUnique(records: seq<Record>, i: int, j: int, p: string)
    requires IsLastFile(records, i, p) && IsLastFile(records, j, p)
    ensures i == j
  {
  }

  lemma {:induction false} CheckpointHoldsLast(records: seq<Record>)
    ensures CheckpointHolds(records, LatestCheckpoint(records))
  {
    if records != [] {
      var init := records[..|records| - 1];
      CheckpointHoldsLast(init);
      if !records[|init|].Checkpoint? {
        match LatestCheckpoint(init) {
          case None =>
            forall i | 0 <= i < |records| ensures !records[i].Checkpoint? { assert i < |init| ==> init[i] == records[i]; }
          case Some(c) =>
            var i :| 0 <= i < |init| && init[i] == c && c.Checkpoint? && forall j :: i < j < |init| ==> !init[j].Checkpoint?;
            forall j | i < j < |records| ensures !records[j].Checkpoint? { assert j < |init| ==> init[j] == records[j]; }
            assert records[i] == c;
        }
      }
    }
  }

  /** What a fold shows, in terms of the records alone. */
  lemma FoldHolds(records: seq<Record>, fallbackId: string)
    ensures var snap := Fold(records, fallbackId);
      && (snap.None? <==> forall k, i :: 0 <= i < |records| ==> !WritesKey(records[i], k))
      && (snap.Some? ==> Holds(records, snap.value, fallbackId))
  {
    FieldsHoldLast(records);
    if Fold(records, fallbackId).Some? {
      FoldFields(records, fallbackId);
      var syncs := SyncPositions(records);
      var usage := UsagePositions(records);
      var messages := MessagePositions(records);
      WorkspaceHoldsLast(records);
      CheckpointHoldsLast(records);
      assert FieldsOf(records) != map[];
    } else {
      forall k, i | 0 <= i < |records| ensures !WritesKey(records[i], k) {
        if WritesKey(records[i], k) { SomeLastWriter(records, i, k); }
      }
    }
  }

  lemma FoldFields(records: seq<Record>, fallbackId: string)
    requires Fold(records, fallbackId).Some?
    ensures exists k, i :: 0 <= i < |records| && WritesKey(records[i], k)
  {
    FieldsHoldLast(records);
    SomeField(FieldsOf(records));
    var k :| k in FieldsOf(records);
    var i :| IsLastWriter(records, i, k);
    assert WritesKey(records[i], k);
  }

  lemma SomeField(fields: Fields)
    ensures fields == map[] || exists k :: k in fields
  {
    if !exists k :: k in fields { assert fields == map[]; }
  }

  /** A field that some record writes has a last writer. */
  lemma {:induction false} SomeLastWriter(records: seq<Record>, i: nat, k: Key)
    requires i < |records| && WritesKey(records[i], k)
    ensures exists j :: IsLastWriter(records, j, k)
    decreases |records| - i
  {
    if !IsLastWriter(records, i, k) {
      var j :| i < j < |records| && WritesKey(records[j], k);
      SomeLastWriter(records, j, k);
    }
  }

  method FoldRecords(records: seq<Record>, fallbackId: string) returns (snap: Option<Snapshot>)
    ensures snap == Fold(records, fallbackId)
    ensures snap.None? <==> forall k, i :: 0 <= i < |records| ==> !WritesKey(records[i], k)
    ensures snap.Some? ==> Holds(records, snap.value, fallbackId)
  {
    snap := FoldAll(records, fallbackId);
    FoldHolds(records, fallbackId);
  }

  /** The one pass over the records. */
  method FoldAll(records: seq<Record>, fallbackId: string) returns (snap: Option<Snapshot>)
    ensures snap == Fold(records, fallbackId)
  {
    if records == [] { return None; }
    var fields: Fields := map[];
    var messages, syncs, usage := [], [], [];
    var workspace: map<string, string> := map[];
    var checkpoint: Option<Record> := None;
    for i := 0 to |records|
      invariant fields == FieldsOf(records[..i]) && messages == Messages(records[..i])
      invariant syncs == Syncs(records[..i]) && usage == Usages(records[..i])
      invariant workspace == Workspace(records[..i]) && checkpoint == LatestCheckpoint(records[..i])
    {
      assert records[..i + 1][..i] == records[..i];
      var rec := records[i];
      match rec {
        case Header(dump) => fields := fields + (dump - {TypeTag, VersionTag});
        case Meta(patch) => if patch.Some? { fields := fields + patch.value; }
        case Stats(counters) => fields := fields + StatsFields(counters);
        case Msg(message) => messages := messages + [message];
        case Sync(_, _) => syncs := syncs + [rec];
        case Usage(_) => usage := usage + [rec];
        case Checkpoint(_, _) => checkpoint := Some(rec);
        case WsFile(path, body) => if path != "" { workspace := workspace[path := body]; }
        case Unknown =>
      }
    }
    assert records[..|records|] == records;
    if fields == map[] { return None; }
    if fallbackId != "" && SessionId !in fields { fields := fields[SessionId := Text(fallbackId)]; }
    return Some(Snapshot(fields, messages, syncs, usage, workspace, checkpoint));
  }

  // ---------------------------------------------------------------- counters

  /** `int(fields.get(key, 0))` for a field that holds a number or is missing. */
  function Count(fields: Fields, key: Key): int {
    if key in fields && fields[key].Num? then fields[key].n else 0
  }

  /** Counter snapshot; cost is kept in micro-units, so adding is exact. */
  function StatsRecord(fields: Fields, bumpUser: int, bumpTokens: int, bumpCost: int, now: string): Record {
    Stats(map[
      UpdatedAt := Text(now),
      MessageCount := Num(Count(fields, MessageCount) + bumpUser),
      UserMessageCount := Num(Count(fields, UserMessageCount) + bumpUser),
      TotalTokens := Num(Count(fields, TotalTokens) + bumpTokens),
      TotalCost := Num(Count(fields, TotalCost) + bumpCost),
      ContextPercent := Num(Count(fields, ContextPercent))])
  }

  // ---------------------------------------------------------------- how appending and filtering act on the fold

  lemma AppendFields(log: seq<Record>, rec: Record)
    ensures FieldsOf(log + [rec]) == FieldsOf(log) + Patch(rec)
    ensures Users(log + [rec]) == Users(log) + (if IsUser(rec) then 1 else 0)
  {
    assert (log + [rec])[..|log|] == log;
  }

  lemma AppendRecord(log: seq<Record>, rec: Record)
    ensures FieldsOf(log + [rec]) == FieldsOf(log) + Patch(rec)
    ensures Messages(log + [rec]) == if rec.Msg? then Messages(log) + [rec.message] else Messages(log)
    ensures Syncs(log + [rec]) == if rec.Sync? then Syncs(log) + [rec] else Syncs(log)
    ensures Usages(log + [rec]) == if rec.Usage? then Usages(log) + [rec] else Usages(log)
    ensures Workspace(log + [rec]) ==
            if rec.WsFile? && rec.path != "" then Workspace(log)[rec.path := rec.body] else Workspace(log)
    ensures LatestCheckpoint(log + [rec]) == if rec.Checkpoint? then Some(rec) else LatestCheckpoint(log)
    ensures Users(log + [rec]) == Users(log) + (if IsUser(rec) then 1 else 0)
  {
    assert (log + [rec])[..|log|] == log;
  }

  predicate IsUser(rec: Record) { rec.Msg? && rec.message.role == "user" }

  /** Number of message records with role user. */
  function Users(records: seq<Record>): nat {
    if records == [] then 0
    else Users(records[..|records| - 1]) + (if IsUser(records[|records| - 1]) then 1 else 0)
  }
}
