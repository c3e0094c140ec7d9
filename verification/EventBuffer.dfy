/** The bounded replay buffer of a session's event channel (server/api/websocket.py). */
module EventBuffer {
  import opened Wrappers

  datatype Payload = Payload(sequence: int, body: string)

  /** One session's share of the connection manager's dictionaries. */
  datatype Channel = Channel(
    connected: bool, buffer: Option<seq<Payload>>, disconnectAt: Option<nat>, sequence: Option<int>)

  /** What an observer of the channel has seen: every payload sent since the buffer exists, and how many
      of them had been sent at the disconnect that is still to be replayed from. */
  datatype History = History(sent: seq<Payload>, departed: Option<nat>)

  /** Runs between two awaits: nothing else happens inside one step. */
  datatype Step =
    | Send(body: string)          // send_event up to its first await
    | SendFails                   // send_text raised for a client that was attached when delivery began
    | Disconnect
    | Register                    // a client attaches; it may go on to wait for the stored sequence
    | InitSequence(stored: int)   // the stored sequence arrives
    | Replay
    | DropBuffer

  // ---------------------------------------------------------------- one step

  function Last(s: seq<Payload>, n: nat): seq<Payload> {
    if |s| > n then s[|s| - n..] else s
  }

  function Buffered(ch: Channel): seq<Payload> {
    match ch.buffer case Some(buf) => buf case None => []
  }

  function Shift(marked: Option<nat>, excess: nat): Option<nat> {
    match marked
    case None => None
    case Some(m) => Some(if m > excess then m - excess else 0)
  }

  function NextSequence(ch: Channel): int {
    (match ch.sequence case Some(n) => n case None => 0) + 1
  }

  function Append(ch: Channel, body: string, cap: nat): Channel {
    var n := NextSequence(ch);
    var buf := Buffered(ch) + [Payload(n, body)];
    var excess := if |buf| > cap then |buf| - cap else 0;
    ch.(buffer := Some(buf[excess..]), disconnectAt := Shift(ch.disconnectAt, excess), sequence := Some(n))
  }

  function Leave(ch: Channel): Channel {
    match ch.buffer
    case None => ch.(connected := false)
    case Some(buf) => ch.(connected := false, disconnectAt := Some(|buf|))
  }

  /** Payloads a replay delivers. */
  function Replayed(ch: Channel): seq<Payload> {
    var buf := Buffered(ch);
    match ch.disconnectAt
    case None => buf
    case Some(m) => if m <= |buf| then buf[m..] else []
  }

  function After(ch: Channel, s: Step, cap: nat): Channel {
    match s
    case Send(body) => Append(ch, body, cap)
    case SendFails => Leave(ch)
    case Disconnect => Leave(ch)
    case Register => ch.(connected := true)
    case InitSequence(stored) => ch.(sequence := Some(stored))
    case Replay => if Buffered(ch) == [] then ch else ch.(disconnectAt := None)
    case DropBuffer => ch.(buffer := None, disconnectAt := None, sequence := None)
  }

  function Observe(h: History, ch: Channel, s: Step): History {
    match s
    case Send(body) => h.(sent := h.sent + [Payload(NextSequence(ch), body)])
    case SendFails => if ch.buffer.Some? then h.(departed := Some(|h.sent|)) else h
    case Disconnect => if ch.buffer.Some? then h.(departed := Some(|h.sent|)) else h
    case Register => h
    case InitSequence(_) => h
    case Replay => if Buffered(ch) == [] then h else h.(departed := None)
    case DropBuffer => History([], None)
  }

  // ---------------------------------------------------------------- what every run keeps

  /** The buffer is the last payloads sent, and the marker is the departure point counted in the buffer. */
  ghost predicate Linked(ch: Channel, h: History, cap: nat) {
    && (ch.buffer.None? <==> h.sent == [])
    && Buffered(ch) == Last(h.sent, cap)
    && (ch.disconnectAt.None? <==> h.departed.None?)
    && (h.departed.Some? ==>
          && h.departed.value <= |h.sent|
          && var evicted := |h.sent| - |Buffered(ch)|;
             ch.disconnectAt.value == if h.departed.value > evicted then h.departed.value - evicted else 0)
  }

  lemma StepKeepsLinked(ch: Channel, h: History, s: Step, cap: nat)
    requires cap > 0 && Linked(ch, h, cap)
    ensures Linked(After(ch, s, cap), Observe(h, ch, s), cap)
  {
  }

  /** Replay delivers exactly the payloads sent after the departure that are still buffered. */
  lemma ReplayCoversExactly(ch: Channel, h: History, cap: nat)
    requires Linked(ch, h, cap)
    ensures var d := match h.departed case Some(n) => n case None => 0;
      var evicted := |h.sent| - |Buffered(ch)|;
      evicted <= |h.sent| && d <= |h.sent| && Replayed(ch) == h.sent[if d > evicted then d else evicted..]
  {
  }

  function Run(ch: Channel, h: History, steps: seq<Step>, cap: nat): (Channel, History) {
    if steps == [] then (ch, h)
    else
      var (c, g) := Run(ch, h, steps[..|steps| - 1], cap);
      (After(c, steps[|steps| - 1], cap), Observe(g, c, steps[|steps| - 1]))
  }

  const Fresh := Channel(false, None, None, None)

  /** Over every interleaving from a fresh channel, however many evictions, failed sends and reconnects:
      the buffer holds the last payloads, and a replay covers exactly what was sent after the departure
      and is still buffered. */
  lemma {:induction false} EveryRunIsLinked(steps: seq<Step>, cap: nat)
    requires cap > 0
    ensures var (ch, h) := Run(Fresh, History([], None), steps, cap);
      && Linked(ch, h, cap)
      && var d := match h.departed case Some(n) => n case None => 0;
         var evicted := |h.sent| - |Buffered(ch)|;
         evicted <= |h.sent| && d <= |h.sent| && Replayed(ch) == h.sent[if d > evicted then d else evicted..]
  {
    if steps != [] {
      var init := steps[..|steps| - 1];
      EveryRunIsLinked(init, cap);
      var (c, g) := Run(Fresh, History([], None), init, cap);
      StepKeepsLinked(c, g, steps[|steps| - 1], cap);
    }
    var (ch, h) := Run(Fresh, History([], None), steps, cap);
    ReplayCoversExactly(ch, h, cap);
  }

  ghost predicate AllSends(steps: seq<Step>) { forall i :: 0 <= i < |steps| ==> steps[i].Send? }

  lemma RunSnoc(ch: Channel, h: History, steps: seq<Step>, s: Step, cap: nat)
    ensures var (c, g) := Run(ch, h, steps, cap);
      Run(ch, h, steps + [s], cap) == (After(c, s, cap), Observe(g, c, s))
  {
    assert (steps + [s])[..|steps|] == steps;
  }

  lemma {:induction false} SendsAreCounted(ch: Channel, h: History, sends: seq<Step>, cap: nat)
    requires cap > 0 && Linked(ch, h, cap) && AllSends(sends)
    ensures var (c, g) := Run(ch, h, sends, cap);
      Linked(c, g, cap) && h.sent <= g.sent && |g.sent| == |h.sent| + |sends| && g.departed == h.departed
  {
    if sends != [] {
      var init, last := sends[..|sends| - 1], sends[|sends| - 1];
      SendsAreCounted(ch, h, init, cap);
      var (c, g) := Run(ch, h, init, cap);
      StepKeepsLinked(c, g, last, cap);
      assert init + [last] == sends;
    }
  }

  /** A payload whose delivery fails counts as sent before the departure, and so does everything sent between
      its send and the failure, however much that is: none of it is replayed. */
  lemma FailedPayloadIsNotReplayed(ch: Channel, h: History, sends: seq<Step>, cap: nat)
    requires cap > 0 && Linked(ch, h, cap) && AllSends(sends) && sends != []
    ensures var (c, g) := Run(ch, h, sends + [SendFails], cap);
      && Linked(c, g, cap) && |g.sent| == |h.sent| + |sends| && g.departed == Some(|g.sent|)
      && Replayed(c) == []
  {
    SendsAreCounted(ch, h, sends, cap);
    RunSnoc(ch, h, sends, SendFails, cap);
    var (b, f) := Run(ch, h, sends, cap);
    StepKeepsLinked(b, f, SendFails, cap);
  }

  /** Nor is it after any later sends: a replay then delivers nothing but those. */
  lemma ReplayAfterDepartureIsLater(ch: Channel, h: History, later: seq<Step>, cap: nat)
    requires cap > 0 && Linked(ch, h, cap) && h.departed == Some(|h.sent|) && AllSends(later)
    ensures var (c, g) := Run(ch, h, later, cap);
      && |g.sent| == |h.sent| + |later|
      && |Replayed(c)| <= |later| && Replayed(c) == g.sent[|g.sent| - |Replayed(c)|..]
  {
    SendsAreCounted(ch, h, later, cap);
    var (c, g) := Run(ch, h, later, cap);
    ReplayCoversExactly(c, g, cap);
  }

  /** The bodies sent since the buffer was last dropped. */
  function Bodies(steps: seq<Step>): seq<string> {
    if steps == [] then []
    else match steps[|steps| - 1]
      case Send(body) => Bodies(steps[..|steps| - 1]) + [body]
      case DropBuffer => []
      case _ => Bodies(steps[..|steps| - 1])
  }

  /** What is recorded as sent, and so what is buffered and replayed, carries exactly the bodies sent, in order. */
  lemma {:induction false} SentBodies(steps: seq<Step>, cap: nat)
    ensures var sent := Run(Fresh, History([], None), steps, cap).1.sent;
      |sent| == |Bodies(steps)| && forall i :: 0 <= i < |sent| ==> sent[i].body == Bodies(steps)[i]
  {
    if steps != [] { SentBodies(steps[..|steps| - 1], cap); }
  }

  /** The newest attaching or detaching step decides. */
  predicate Attached(steps: seq<Step>) {
    steps != [] && match steps[|steps| - 1]
      case Register => true
      case SendFails => false
      case Disconnect => false
      case _ => Attached(steps[..|steps| - 1])
  }

  lemma {:induction false} ConnectedExactlyWhenAttached(steps: seq<Step>, cap: nat)
    ensures Run(Fresh, History([], None), steps, cap).0.connected == Attached(steps)
  {
    if steps != [] { ConnectedExactlyWhenAttached(steps[..|steps| - 1], cap); }
  }

  // ---------------------------------------------------------------- sequence numbers

  ghost predicate Contiguous(sent: seq<Payload>) {
    forall i :: 0 < i < |sent| ==> sent[i].sequence == sent[i - 1].sequence + 1
  }

  /** The stored counter is the last one handed out. */
  ghost predicate Counted(ch: Channel, h: History) {
    h.sent != [] ==> ch.sequence == Some(h.sent[|h.sent| - 1].sequence)
  }

  lemma {:induction false} ContiguousIsIncreasing(sent: seq<Payload>, i: nat, j: nat)
    requires Contiguous(sent) && i <= j < |sent|
    ensures sent[j].sequence == sent[i].sequence + (j - i)
    decreases j - i
  {
    if i < j { ContiguousIsIncreasing(sent, i, j - 1); }
  }

  /** A stored sequence that arrives while payloads are already numbered, and differs from the counter. */
  ghost predicate LateInit(h: History, s: Step) {
    s.InitSequence? && h.sent != [] && s.stored != h.sent[|h.sent| - 1].sequence
  }

  ghost predicate NoLateInit(steps: seq<Step>, cap: nat) {
    steps == [] ||
    (var init := steps[..|steps| - 1];
     NoLateInit(init, cap) && !LateInit(Run(Fresh, History([], None), init, cap).1, steps[|steps| - 1]))
  }

  lemma StepKeepsNumbering(ch: Channel, h: History, s: Step, cap: nat)
    requires Contiguous(h.sent) && Counted(ch, h) && !LateInit(h, s)
    ensures Contiguous(Observe(h, ch, s).sent) && Counted(After(ch, s, cap), Observe(h, ch, s))
  {
  }

  /** In a run without a late initialisation the sequence numbers of the channel are contiguous. */
  lemma {:induction false} SequencesAreContiguous(steps: seq<Step>, cap: nat)
    requires NoLateInit(steps, cap)
    ensures var (ch, h) := Run(Fresh, History([], None), steps, cap); Contiguous(h.sent) && Counted(ch, h)
  {
    if steps != [] {
      var init := steps[..|steps| - 1];
      SequencesAreContiguous(init, cap);
      var (c, g) := Run(Fresh, History([], None), init, cap);
      StepKeepsNumbering(c, g, steps[|steps| - 1], cap);
    }
  }

  /** After a stored sequence arrives over numbered payloads, the next payload continues the numbering
      exactly when the stored value is the counter, and is still above every earlier number exactly when
      the stored value is not below it. */
  lemma LateInitBreaksNumbering(ch: Channel, h: History, stored: int, body: string, cap: nat)
    requires cap > 0 && Contiguous(h.sent) && Counted(ch, h) && h.sent != []
    ensures var last := h.sent[|h.sent| - 1].sequence;
      var init := After(ch, InitSequence(stored), cap);
      var sent := Observe(Observe(h, ch, InitSequence(stored)), init, Send(body)).sent;
      && (Contiguous(sent) <==> stored == last)
      && ((forall i :: 0 <= i < |sent| - 1 ==> sent[i].sequence < sent[|sent| - 1].sequence) <==> stored >= last)
  {
    var sent := h.sent + [Payload(stored + 1, body)];
    var n := |h.sent|;
    assert sent[n].sequence == stored + 1 && sent[n - 1] == h.sent[n - 1];
    forall i | 0 <= i < n ensures sent[i].sequence <= h.sent[n - 1].sequence {
      ContiguousIsIncreasing(h.sent, i, n - 1);
    }
    if stored == h.sent[n - 1].sequence {
      forall i | 0 < i < |sent| ensures sent[i].sequence == sent[i - 1].sequence + 1 {
        assert i < n ==> sent[i] == h.sent[i] && sent[i - 1] == h.sent[i - 1];
      }
    }
  }

  /** A client attaches, an event is sent while the stored sequence is still being read, and the read
      answers 0: the next event repeats sequence number 1. */
  lemma DuplicateSequence()
    ensures Run(Fresh, History([], None), [Register, Send("a"), InitSequence(0), Send("b")], 5000).1.sent
         == [Payload(1, "a"), Payload(1, "b")]
  {
    var steps := [Register, Send("a"), InitSequence(0), Send("b")];
    assert steps[..3] == [Register, Send("a"), InitSequence(0)] && steps[..3][..2] == [Register, Send("a")];
    assert [Register, Send("a")][..1] == [Register] && [Register][..0] == [];
    assert Run(Fresh, History([], None), [Register], 5000).1.sent == [];
    assert Run(Fresh, History([], None), [Register, Send("a")], 5000).1.sent == [Payload(1, "a")];
  }

  // ---------------------------------------------------------------- the class

  class ConnectionManager {
    var connections: set<string>
    var eventBuffers: map<string, seq<Payload>>
    var disconnectAt: map<string, nat>
    var sequences: map<string, int>
    const maxBufferedEvents: nat

    constructor (cap: nat)
      ensures maxBufferedEvents == cap && forall sid :: ChannelOf(sid) == Fresh
    {
      connections, eventBuffers, disconnectAt, sequences := {}, map[], map[], map[];
      maxBufferedEvents := cap;
    }

    function ChannelOf(sid: string): Channel
      reads this
    {
      Channel(sid in connections,
              if sid in eventBuffers then Some(eventBuffers[sid]) else None,
              if sid in disconnectAt then Some(disconnectAt[sid]) else None,
              if sid in sequences then Some(sequences[sid]) else None)
    }

    method NextSequenceFor(sid: string) returns (n: int)
      modifies this`sequences
      ensures n == NextSequence(old(ChannelOf(sid)))
      ensures sequences == old(sequences)[sid := n]
    {
      n := (if sid in sequences then sequences[sid] else 0) + 1;
      sequences := sequences[sid := n];
    }

    /** The part of `send_event` before its first await. */
    method BeginSend(sid: string, body: string)
      modifies this
      ensures ChannelOf(sid) == After(old(ChannelOf(sid)), Send(body), maxBufferedEvents)
      ensures forall other :: other != sid ==> ChannelOf(other) == old(ChannelOf(other))
    {
      var n := NextSequenceFor(sid);
      var buf := if sid in eventBuffers then eventBuffers[sid] else [];
      buf := buf + [Payload(n, body)];
      if |buf| > maxBufferedEvents {
        var excess := |buf| - maxBufferedEvents;
        buf := buf[excess..];
        if sid in disconnectAt {
          var marked := disconnectAt[sid];
          disconnectAt := disconnectAt[sid := if marked > excess then marked - excess else 0];
        }
      }
      eventBuffers := eventBuffers[sid := buf];
    }

    /** The end of `send_event`: delivery went to the client that was attached after the payload was stored,
        if there was one; a delivery that raised detaches whoever is attached now. */
    method FinishSend(sid: string, attached: bool, sendFails: bool)
      modifies this
      ensures ChannelOf(sid) ==
        if attached && sendFails then After(old(ChannelOf(sid)), SendFails, maxBufferedEvents) else old(ChannelOf(sid))
      ensures forall other :: other != sid ==> ChannelOf(other) == old(ChannelOf(other))
    {
      if attached && sendFails { DisconnectClient(sid); }
    }

    method DisconnectClient(sid: string)
      modifies this
      ensures ChannelOf(sid) == After(old(ChannelOf(sid)), Disconnect, maxBufferedEvents)
      ensures forall other :: other != sid ==> ChannelOf(other) == old(ChannelOf(other))
    {
      connections := connections - {sid};
      if sid in eventBuffers { disconnectAt := disconnectAt[sid := |eventBuffers[sid]|]; }
    }

    /** Attaches a client and says whether the stored sequence still has to be read. */
    method BeginRegister(sid: string) returns (mustInit: bool)
      modifies this
      ensures ChannelOf(sid) == After(old(ChannelOf(sid)), Register, maxBufferedEvents)
      ensures mustInit <==> old(ChannelOf(sid)).sequence.None?
      ensures forall other :: other != sid ==> ChannelOf(other) == old(ChannelOf(other))
    {
      connections := connections + {sid};
      mustInit := sid !in sequences;
    }

    method FinishInit(sid: string, stored: int)
      modifies this
      ensures ChannelOf(sid) == After(old(ChannelOf(sid)), InitSequence(stored), maxBufferedEvents)
      ensures forall other :: other != sid ==> ChannelOf(other) == old(ChannelOf(other))
    {
      sequences := sequences[sid := stored];
    }

    method DropBufferOf(sid: string)
      modifies this
      ensures ChannelOf(sid) == After(old(ChannelOf(sid)), DropBuffer, maxBufferedEvents)
      ensures forall other :: other != sid ==> ChannelOf(other) == old(ChannelOf(other))
    {
      eventBuffers := eventBuffers - {sid};
      disconnectAt := disconnectAt - {sid};
      sequences := sequences - {sid};
    }

    /** Chooses what to replay; delivery follows on the new socket. */
    method ReplayEvents(sid: string) returns (newEvents: seq<Payload>)
      modifies this
      ensures newEvents == Replayed(old(ChannelOf(sid)))
      ensures ChannelOf(sid) == After(old(ChannelOf(sid)), Replay, maxBufferedEvents)
      ensures forall other :: other != sid ==> ChannelOf(other) == old(ChannelOf(other))
    {
      if sid !in eventBuffers || eventBuffers[sid] == [] { return []; }
      var buf := eventBuffers[sid];
      var start := if sid in disconnectAt then disconnectAt[sid] else 0;
      disconnectAt := disconnectAt - {sid};
      return if start <= |buf| then buf[start..] else [];
    }
  }
}
