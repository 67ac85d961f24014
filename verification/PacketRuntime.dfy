/** The classes of netlab/packet.py. */
module PacketRuntime {
  import opened Options
  import opened Walks
  import opened PacketFlow
  import opened PacketRuns

  class BranchStream {
    const branchId: nat
    /** The place of the stream in the dictionary. */
    ghost const place: nat
    var route: seq<Node>
    var source: Node
    var destination: Node
    var currentPacket: Option<Packet>
    var completedPackets: nat
    var droppedPackets: nat
    var paused: bool
    var outageReason: Option<Reason>
    ghost var decisions: nat
    ghost var earlier: nat

    ghost function State(): Stream
      reads this
    {
      Stream(route, currentPacket, completedPackets, droppedPackets, paused, outageReason, decisions, earlier)
    }

    ghost predicate Valid()
      reads this
    {
      Lawful(State()) && source == route[0] && destination == route[|route|-1]
    }

    constructor (branchId: nat, route: seq<Node>, ghost place: nat)
      requires |route| > 0
      ensures Valid() && this.branchId == branchId && this.place == place && State() == Stream(route, None, 0, 0, false, None, 0, 0)
    {
      this.branchId, this.route, source, destination := branchId, route, route[0], route[|route|-1];
      this.place := place;
      currentPacket, completedPackets, droppedPackets, paused, outageReason := None, 0, 0, false, None;
      decisions, earlier := 0, 0;
    }

    /** `new_packet` */
    method CreatePacket(sequenceNumber: nat) returns (packet: Packet)
      requires |route| > 0
      modifies this
      ensures State() == NewPacket(old(State()), sequenceNumber)
      ensures packet == Packet(sequenceNumber, route, 0, Queued, None, 0) && currentPacket == Some(packet)
      ensures source == old(source) && destination == old(destination)
    {
      packet := Packet(sequenceNumber, route, 0, Queued, None, 0);
      currentPacket := Some(packet);
      paused := false;
      outageReason := None;
    }

    /** The body of the loop of `clear_outage`, but for the event. */
    method Clear()
      requires Valid()
      modifies this
      ensures Valid() && State() == Cleared(old(State()))
      ensures !paused && outageReason == None
      ensures route == old(route) && completedPackets == old(completedPackets) && droppedPackets == old(droppedPackets)
      ensures currentPacket ==
                if old(currentPacket).Some? && old(currentPacket).value.status == PausedOutage then
                  Some(old(currentPacket).value.(status := Retrying, retries := old(currentPacket).value.retries + 1, reason := None))
                else old(currentPacket)
    {
      ClearedLawful(State());
      paused := false;
      outageReason := None;
      if currentPacket.Some? && currentPacket.value.status == PausedOutage {
        var packet := currentPacket.value;
        currentPacket := Some(packet.(status := Retrying, retries := packet.retries + 1, reason := None));
      }
    }

    /** The assignments of `replace_route`, with the new packet. */
    method SetRoute(newRoute: seq<Node>, sequenceNumber: nat)
      requires Valid() && |newRoute| >= 2
      modifies this
      ensures Valid() && State() == Rerouted(old(State()), newRoute, sequenceNumber)
      ensures route == newRoute && source == newRoute[0] && destination == newRoute[|newRoute|-1]
      ensures currentPacket == Some(Packet(sequenceNumber, newRoute, 0, Queued, None, 0))
      ensures completedPackets == old(completedPackets) && droppedPackets == old(droppedPackets)
      ensures !paused && outageReason == None
    {
      ReroutedLawful(State(), newRoute, sequenceNumber);
      route, source, destination := newRoute, newRoute[0], newRoute[|newRoute|-1];
      decisions, earlier := 0, completedPackets;
      var packet := CreatePacket(sequenceNumber);
    }

    /** `step_stream` from the line that reads the cursor; the event says what happened. */
    method Transmit(gate: Gate) returns (kind: EventKind)
      requires Valid() && !Idle(State())
      modifies this
      ensures Valid() && State() == Moved(old(State()), gate)
      ensures kind == KindOf(old(State()), gate)
      ensures var p := old(currentPacket.value);
              if p.hop + 1 >= |p.route| then
                && currentPacket == Some(p.(status := Delivered)) && completedPackets == old(completedPackets) + 1
                && kind == PacketDelivered
              else
                var verdict, last := gate(p.route[p.hop], p.route[p.hop+1]), p.hop + 2 == |p.route|;
                && currentPacket == Some(
                     if !verdict.feasible then p.(status := PausedOutage, reason := Some(verdict.reason))
                     else p.(status := if last then Delivered else Advanced, hop := p.hop + 1, reason := None))
                && completedPackets == old(completedPackets) + (if verdict.feasible && last then 1 else 0)
                && paused == !verdict.feasible && outageReason == (if verdict.feasible then None else Some(verdict.reason))
                && kind == (if !verdict.feasible then PacketPaused else if last then PacketDelivered else PacketAdvanced)
    {
      hide Lawful;
      MovedLawful(State(), gate);
      MovedKeepsRoute(State(), gate);
      var packet := currentPacket.value;
      if packet.hop + 1 >= |packet.route| {
        currentPacket := Some(packet.(status := Delivered));
        completedPackets := completedPackets + 1;
        return PacketDelivered;
      }
      var src, dst := packet.route[packet.hop], packet.route[packet.hop+1];
      var decision := gate(src, dst);
      if !decision.feasible {
        currentPacket := Some(packet.(status := PausedOutage, reason := Some(decision.reason)));
        paused, outageReason := true, Some(decision.reason);
        return PacketPaused;
      }
      packet := packet.(status := Transmitting, hop := packet.hop + 1, reason := None);
      paused, outageReason := false, None;
      decisions := decisions + 1;
      if packet.hop + 1 >= |packet.route| {
        currentPacket := Some(packet.(status := Delivered));
        completedPackets := completedPackets + 1;
        return PacketDelivered;
      }
      currentPacket := Some(packet.(status := Advanced));
      kind := PacketAdvanced;
    }
  }

  datatype EventKind = PacketCreated | PacketDelivered | PacketPaused | PacketAdvanced | RetryEnabled | RouteRecomputed

  /** The event a transmission ends in. */
  function KindOf(s: Stream, gate: Gate): (kind: EventKind)
    requires !Idle(s)
    ensures Moved(s, gate).completed == s.completed + (if kind == PacketDelivered then 1 else 0)
    ensures Moved(s, gate).packet.Some? && var status := Moved(s, gate).packet.value.status;
            && (kind == PacketDelivered <==> status == Delivered) && (kind == PacketPaused <==> status == PausedOutage)
            && (kind == PacketAdvanced <==> status == Advanced)
  {
    var p := s.packet.value;
    if AtEnd(p) then PacketDelivered
    else if !Verdict0(s, gate).feasible then PacketPaused
    else if AtEnd(p.(hop := p.hop + 1)) then PacketDelivered
    else PacketAdvanced
  }

  /** The event a step of a stream ends in. */
  function KindAt(s: Stream, gate: Gate): EventKind {
    KindOf(if Idle(s) then NewPacket(s, 0) else s, gate)
  }

  /** The event tells of a step of this stream. */
  predicate Tells(e: RuntimeEvent, s: Stream, gate: Gate, branchId: nat) {
    e.kind == KindAt(s, gate) && e.entity == branchId
  }

  /** Which number the new packet gets makes no difference to the event. */
  lemma KindOfNew(s: Stream, number: nat, gate: Gate)
    ensures Idle(s) ==> KindOf(NewPacket(s, number), gate) == KindAt(s, gate) && KindAt(NewPacket(s, number), gate) == KindAt(s, gate)
  {
  }

  lemma KindOfFilled(before: Stream, mid: Stream, gate: Gate)
    requires Filled(before, mid)
    ensures KindAt(mid, gate) == KindAt(before, gate)
  {
  }

  lemma MovedKeepsRoute(s: Stream, gate: Gate)
    requires Lawful(s) && !Idle(s)
    ensures Moved(s, gate).route == s.route && |s.route| > 0
  {
  }

  datatype RuntimeEvent = RuntimeEvent(kind: EventKind, entity: nat, sequence: nat)

  // ---------------------------------------------------------------- sums over the streams

  function Total(states: seq<Stream>): nat {
    if states == [] then 0 else Total(states[..|states|-1]) + Held(states[|states|-1])
  }

  lemma {:induction false} TotalUpdate(states: seq<Stream>, i: nat, s: Stream)
    requires i < |states|
    ensures Total(states[i := s]) == Total(states) - Held(states[i]) + Held(s)
    decreases |states|
  {
    var n := |states| - 1;
    if i == n {
      assert states[i := s][..n] == states[..n];
    } else {
      TotalUpdate(states[..n], i, s);
      assert states[i := s][..n] == states[..n][i := s];
    }
  }

  /** Packets delivered so far. */
  function CompletedIn(states: seq<Stream>): nat {
    if states == [] then 0 else CompletedIn(states[..|states|-1]) + states[|states|-1].completed
  }

  lemma {:induction false} CompletedUpdate(states: seq<Stream>, i: nat, s: Stream)
    requires i < |states|
    ensures CompletedIn(states[i := s]) == CompletedIn(states) - states[i].completed + s.completed
    decreases |states|
  {
    var n := |states| - 1;
    if i == n {
      assert states[i := s][..n] == states[..n];
    } else {
      CompletedUpdate(states[..n], i, s);
      assert states[i := s][..n] == states[..n][i := s];
    }
  }

  /** Streams with a packet that has not arrived. */
  function UnderWay(states: seq<Stream>): nat {
    if states == [] then 0 else UnderWay(states[..|states|-1]) + (if Idle(states[|states|-1]) then 0 else 1)
  }

  /** The packets held are those delivered and those under way. */
  lemma {:induction false} TotalSplits(states: seq<Stream>)
    ensures Total(states) == CompletedIn(states) + UnderWay(states)
  {
    if states != [] {
      TotalSplits(states[..|states|-1]);
    }
  }

  /** A stream nothing has happened to. */
  ghost predicate Untouched(s: Stream) {
    |s.route| > 0 && s == Stream(s.route, None, 0, 0, false, None, 0, 0)
  }

  lemma {:induction false} UntouchedHoldNothing(states: seq<Stream>)
    requires forall k :: 0 <= k < |states| ==> Untouched(states[k])
    ensures Total(states) == 0 && CompletedIn(states) == 0
  {
    if states != [] {
      UntouchedHoldNothing(states[..|states|-1]);
    }
  }

  lemma UntouchedBalanced(states: seq<Stream>)
    requires forall k :: 0 <= k < |states| ==> Untouched(states[k])
    ensures Balanced(states, 0, 0, 0, []) && RecordedAs(states, [], states)
  {
    UntouchedHoldNothing(states);
  }

  /** Events of one kind. */
  function Count(events: seq<RuntimeEvent>, kind: EventKind): nat {
    if events == [] then 0
    else Count(events[..|events|-1], kind) + (if events[|events|-1].kind == kind then 1 else 0)
  }

  lemma CountMore(events: seq<RuntimeEvent>, e: RuntimeEvent, kind: EventKind)
    ensures Count(events + [e], kind) == Count(events, kind) + (if e.kind == kind then 1 else 0)
  {
    assert (events + [e])[..|events|] == events;
  }

  /** Events are numbered in the order in which they happen. */
  ghost predicate Numbered(events: seq<RuntimeEvent>) {
    forall k :: 0 <= k < |events| ==> events[k].sequence == k + 1
  }

  /** No two streams hold packets of the same number, and no number is ahead of the counter. */
  ghost predicate Numbering(states: seq<Stream>, sequence: nat) {
    && (forall i :: 0 <= i < |states| && states[i].packet.Some? ==> 1 <= states[i].packet.value.number <= sequence)
    && (forall i, j :: 0 <= i < j < |states| && states[i].packet.Some? && states[j].packet.Some? ==>
          states[i].packet.value.number != states[j].packet.value.number)
  }

  /** The stream holds the packet it held, or one with the next number. */
  ghost predicate NumberFits(before: Stream, now: Stream, sequence: nat, created: nat) {
    now.packet.Some? ==>
      || (before.packet.Some? && now.packet.value.number == before.packet.value.number)
      || (created == 1 && now.packet.value.number == sequence + 1)
  }

  lemma NumberingUpdate(states: seq<Stream>, sequence: nat, i: nat, s: Stream, created: nat)
    requires Numbering(states, sequence) && i < |states| && NumberFits(states[i], s, sequence, created)
    ensures Numbering(states[i := s], sequence + created)
  {
  }

  lemma StepFits(s: Stream, sequence: nat, gate: Gate)
    ensures NumberFits(s, StepOf(s, sequence + 1, gate), sequence, if Idle(s) then 1 else 0)
  {
  }

  lemma RerouteFits(s: Stream, route: seq<Node>, sequence: nat)
    ensures NumberFits(s, Rerouted(s, route, sequence + 1), sequence, 1)
  {
  }

  /** The laws of the runtime: every created packet is delivered, under way or abandoned by a new route, and every
      delivery has its event. */
  ghost predicate Balanced(states: seq<Stream>, sequence: nat, abandoned: nat, eventSequence: nat, events: seq<RuntimeEvent>) {
    && (forall k :: 0 <= k < |states| ==> Lawful(states[k]))
    && sequence == Total(states) + abandoned && Numbering(states, sequence)
    && eventSequence == |events| && Numbered(events)
    && Count(events, PacketDelivered) == CompletedIn(states)
  }

  lemma NumberedApart(states: seq<Stream>, sequence: nat, abandoned: nat, eventSequence: nat, events: seq<RuntimeEvent>)
    requires Balanced(states, sequence, abandoned, eventSequence, events)
    ensures Numbering(states, sequence)
  {
  }

  lemma EventsMore(events: seq<RuntimeEvent>, e: RuntimeEvent)
    requires Numbered(events) && e.sequence == |events| + 1
    ensures Numbered(events + [e])
  {
  }

  /** Replacing one state by another keeps the balance when the counters follow. */
  lemma BalanceUpdate(states: seq<Stream>, sequence: nat, abandoned: nat, eventSequence: nat, events: seq<RuntimeEvent>,
                      i: nat, s: Stream, created: nat, lost: nat, e: RuntimeEvent)
    requires Balanced(states, sequence, abandoned, eventSequence, events) && i < |states| && Lawful(s)
    requires created + Held(states[i]) == Held(s) + lost && NumberFits(states[i], s, sequence, created)
    requires e.sequence == eventSequence + 1
    requires s.completed == states[i].completed + (if e.kind == PacketDelivered then 1 else 0)
    ensures Balanced(states[i := s], sequence + created, abandoned + lost, eventSequence + 1, events + [e])
  {
    TotalUpdate(states, i, s);
    NumberingUpdate(states, sequence, i, s, created);
    CompletedUpdate(states, i, s);
    CountMore(events, e, PacketDelivered);
    EventsMore(events, e);
  }

  lemma StepBalanced(states: seq<Stream>, sequence: nat, abandoned: nat, eventSequence: nat, events: seq<RuntimeEvent>,
                     i: nat, gate: Gate, e: RuntimeEvent)
    requires Balanced(states, sequence, abandoned, eventSequence, events) && i < |states|
    requires e.sequence == eventSequence + 1
    requires StepOf(states[i], sequence + 1, gate).completed == states[i].completed + (if e.kind == PacketDelivered then 1 else 0)
    ensures Balanced(states[i := StepOf(states[i], sequence + 1, gate)], sequence + (if Idle(states[i]) then 1 else 0),
                     abandoned, eventSequence + 1, events + [e])
  {
    var s := states[i];
    StepFits(s, sequence, gate);
    StepLawful(s, sequence + 1, gate);
    StepBalance(s, sequence + 1, gate);
    BalanceUpdate(states, sequence, abandoned, eventSequence, events, i, StepOf(s, sequence + 1, gate),
                  if Idle(s) then 1 else 0, 0, e);
  }

  lemma RerouteBalanced(states: seq<Stream>, sequence: nat, abandoned: nat, eventSequence: nat, events: seq<RuntimeEvent>,
                        i: nat, route: seq<Node>, e: RuntimeEvent)
    requires Balanced(states, sequence, abandoned, eventSequence, events) && i < |states| && |route| >= 2
    requires e.sequence == eventSequence + 1 && e.kind == RouteRecomputed
    ensures Balanced(states[i := Rerouted(states[i], route, sequence + 1)], sequence + 1,
                     abandoned + (if Idle(states[i]) then 0 else 1), eventSequence + 1, events + [e])
  {
    var s := states[i];
    RerouteFits(s, route, sequence);
    ReroutedLawful(s, route, sequence + 1);
    ReroutedBalance(s, route, sequence + 1);
    BalanceUpdate(states, sequence, abandoned, eventSequence, events, i, Rerouted(s, route, sequence + 1),
                  1, if Idle(s) then 0 else 1, e);
  }

  /** After `ensure_packets` a stream has a packet, a new one if it had none. */
  ghost predicate Filled(before: Stream, now: Stream) {
    now.packet.Some? && now == FillOf(before, now.packet.value.number)
  }

  ghost predicate FilledUpTo(before: seq<Stream>, now: seq<Stream>, i: nat) {
    && |now| == |before| && i <= |now|
    && (forall j :: 0 <= j < i ==> Filled(before[j], now[j]))
    && (forall j :: i <= j < |now| ==> now[j] == before[j])
  }

  lemma FillOne(before: seq<Stream>, now: seq<Stream>, i: nat, number: nat)
    requires FilledUpTo(before, now, i) && i < |now|
    ensures now[i].packet.None? ==> FilledUpTo(before, now[i := NewPacket(now[i], number)], i + 1)
    ensures now[i].packet.Some? ==> FilledUpTo(before, now, i + 1)
  {
  }

  /** A step ends in the transmission of the packet under way, or of a new one. */
  lemma StepCounts(s: Stream, number: nat, gate: Gate)
    ensures var ready := if Idle(s) then NewPacket(s, number) else s;
            && !Idle(ready) && StepOf(s, number, gate) == Moved(ready, gate)
            && StepOf(s, number, gate).completed == s.completed + (if KindOf(ready, gate) == PacketDelivered then 1 else 0)
  {
  }

  lemma CreatedThenStepped(states: seq<Stream>, i: nat, number: nat, gate: Gate)
    requires i < |states| && Idle(states[i])
    ensures var mid := states[i := NewPacket(states[i], number)];
            && !Idle(mid[i])
            && mid[i := StepOf(mid[i], number + 1, gate)] == states[i := StepOf(states[i], number, gate)]
  {
  }

  /** The first i streams have been stepped. */
  ghost predicate SteppedUpTo(before: seq<Stream>, now: seq<Stream>, numbers: seq<nat>, gate: Gate, i: nat) {
    && |now| == |before| && |numbers| == i <= |now|
    && (forall j :: 0 <= j < i ==> now[j] == StepOf(before[j], numbers[j], gate))
    && (forall j :: i <= j < |now| ==> now[j] == before[j])
  }

  /** Only the first stream has been stepped; the others have a packet. */
  ghost predicate SteppedFirst(before: seq<Stream>, now: seq<Stream>, numbers: seq<nat>, gate: Gate) {
    && |now| == |before| == |numbers|
    && (now != [] ==> now[0] == StepOf(before[0], numbers[0], gate))
    && (forall j :: 1 <= j < |now| ==> now[j] == FillOf(before[j], numbers[j]))
  }

  /** The two ways to step are operations of a run. */
  lemma SteppedIsPerformed(before: seq<Stream>, now: seq<Stream>, numbers: seq<nat>, gate: Gate)
    ensures SteppedUpTo(before, now, numbers, gate, |before|) ==> now == Performed(before, StepEach(gate, numbers))
    ensures SteppedFirst(before, now, numbers, gate) ==> now == Performed(before, StepFirst(gate, numbers))
  {
  }

  lemma OneIsPerformed(before: seq<Stream>, place: nat, route: seq<Node>, number: nat)
    requires place < |before|
    ensures before[place := Cleared(before[place])] == Performed(before, ClearOne(place))
    ensures before[place := Rerouted(before[place], route, number)] == Performed(before, RerouteOne(place, route, number))
  {
  }

  lemma ClearedIsPerformed(before: seq<Stream>, now: seq<Stream>)
    requires ClearedUpTo(before, now, |before|)
    ensures now == Performed(before, ClearEach)
  {
  }

  lemma StepOne(before: seq<Stream>, now: seq<Stream>, numbers: seq<nat>, gate: Gate, i: nat, number: nat)
    requires SteppedUpTo(before, now, numbers, gate, i) && i < |now|
    ensures SteppedUpTo(before, now[i := StepOf(now[i], number, gate)], numbers + [number], gate, i + 1)
  {
  }

  /** The number of the packet a step sends on. */
  ghost function FilledNumber(before: Stream, mid: Stream, number: nat): nat {
    if before.packet.None? && mid.packet.Some? then mid.packet.value.number else number
  }

  /** Giving a stream its packet first makes no difference to the step. */
  lemma FilledStep(before: Stream, mid: Stream, number: nat, gate: Gate)
    requires Filled(before, mid)
    ensures StepOf(mid, number, gate) == StepOf(before, FilledNumber(before, mid, number), gate)
  {
  }

  lemma FilledSteps(before: seq<Stream>, mid: seq<Stream>, now: seq<Stream>, numbers: seq<nat>, gate: Gate) returns (own: seq<nat>)
    requires FilledUpTo(before, mid, |mid|) && SteppedUpTo(mid, now, numbers, gate, |mid|)
    ensures SteppedUpTo(before, now, own, gate, |before|)
  {
    own := seq(|mid|, j requires 0 <= j < |mid| => FilledNumber(before[j], mid[j], numbers[j]));
    forall j | 0 <= j < |mid| ensures now[j] == StepOf(before[j], own[j], gate) {
      FilledStep(before[j], mid[j], numbers[j], gate);
    }
  }

  ghost predicate ClearedUpTo(before: seq<Stream>, now: seq<Stream>, i: nat) {
    && |now| == |before| && i <= |now|
    && (forall j :: 0 <= j < i ==> now[j] == Cleared(before[j]))
    && (forall j :: i <= j < |now| ==> now[j] == before[j])
  }

  /** No stream has this branch name. */
  ghost predicate Unknown(streams: seq<BranchStream>, branchId: nat) {
    forall j :: 0 <= j < |streams| ==> streams[j].branchId != branchId
  }

  /** The events of clearing the first i streams, numbered on from first. */
  function Retries(streams: seq<BranchStream>, i: nat, first: nat): seq<RuntimeEvent>
    requires i <= |streams|
  {
    seq(i, j requires 0 <= j < i => RuntimeEvent(RetryEnabled, streams[j].branchId, first + j + 1))
  }

  /** KeyError, ValueError, or success. */
  datatype Outcome = UnknownBranch | ShortRoute | Replaced

  class Runtime {
    /** mode == "chain" */
    const chain: bool
    var streams: seq<BranchStream>
    var sequence: nat
    var eventSequence: nat
    var events: seq<RuntimeEvent>
    /** Undelivered packets replaced by `replace_route`. */
    ghost var abandoned: nat
    /** The streams as they were at first, and what was done to them since. */
    ghost var initial: seq<Stream>
    ghost var history: seq<Operation>

    ghost function States(): (states: seq<Stream>)
      reads this`streams, streams
      ensures |states| == |streams| && forall i :: 0 <= i < |streams| ==> states[i] == streams[i].State()
    {
      var all := streams;
      seq(|all|, i requires 0 <= i < |all| reads all => all[i].State())
    }

    ghost predicate Shape()
      reads this`streams, streams
    {
      forall i :: 0 <= i < |streams| ==> streams[i].place == i && streams[i].Valid()
    }

    ghost predicate Valid()
      reads this`streams, this`sequence, this`eventSequence, this`events, this`abandoned, streams
    {
      Shape() && Balanced(States(), sequence, abandoned, eventSequence, events)
    }

    /** The streams are where the history leads from the beginning. */
    ghost predicate Recorded()
      reads this`streams, this`initial, this`history, streams
    {
      RecordedAs(initial, history, States())
    }

    constructor (chain: bool, streams: seq<BranchStream>)
      requires forall i :: 0 <= i < |streams| ==> streams[i].place == i && streams[i].Valid() && Untouched(streams[i].State())
      ensures Valid() && Recorded() && this.chain == chain && this.streams == streams
      ensures sequence == 0 && abandoned == 0 && events == [] && initial == States() && history == []
    {
      this.chain, this.streams := chain, streams;
      sequence, eventSequence, events, abandoned, history := 0, 0, [], 0, [];
      new;
      hide Balanced, Lawful, RecordedAs;
      initial := States();
      UntouchedBalanced(States());
    }

    /** The operation that led from the streams before to the present ones is added to the history. */
    ghost method Record(before: seq<Stream>, op: Operation)
      requires Valid() && RecordedAs(initial, history, before) && States() == Performed(before, op)
      requires op.RerouteOne? ==> |op.route| >= 2
      modifies this`history
      ensures Valid() && Recorded() && history == old(history) + [op] && States() == old(States())
    {
      hide Balanced, RecordedAs, Performed;
      RecordedMore(initial, history, before, op);
      history := history + [op];
    }

    /** `_event` */
    method Emit(kind: EventKind, entity: nat) returns (event: RuntimeEvent)
      modifies this`eventSequence, this`events
      ensures eventSequence == old(eventSequence) + 1
      ensures event == RuntimeEvent(kind, entity, eventSequence) && events == old(events) + [event]
    {
      eventSequence := eventSequence + 1;
      event := RuntimeEvent(kind, entity, eventSequence);
      events := events + [event];
    }

    /** When one stream changes, so does one state. */
    twostate lemma OneChanged(i: nat)
      requires old(Shape()) && streams == old(streams) && i < |streams|
      requires forall j :: 0 <= j < |streams| && j != i ==> unchanged(streams[j])
      ensures States() == old(States())[i := streams[i].State()]
      ensures streams[i].Valid() ==> Shape()
    {
    }

    /** A new packet for one stream that has none under way, with its event. */
    method Create(stream: BranchStream, ghost i: nat)
      requires Valid() && i < |streams| && streams[i] == stream && Idle(stream.State())
      modifies this`sequence, this`eventSequence, this`events, stream
      ensures Valid() && sequence == old(sequence) + 1
      ensures States() == old(States())[i := NewPacket(old(States())[i], sequence)]
    {
      hide Balanced;
      ghost var before := States();
      sequence := sequence + 1;
      var packet := stream.CreatePacket(sequence);
      var event := Emit(PacketCreated, stream.branchId);
      NewPacketLawful(before[i], sequence);
      OneChanged(i);
      BalanceUpdate(before, old(sequence), abandoned, old(eventSequence), old(events), i, States()[i], 1, 0, event);
    }

    /** `ensure_packets` */
    method EnsurePackets()
      requires Valid()
      modifies this`sequence, this`eventSequence, this`events, streams
      ensures Valid() && FilledUpTo(old(States()), States(), |streams|)
    {
      hide Balanced, Lawful;
      ghost var before := States();
      var i := 0;
      while i < |streams|
        invariant 0 <= i <= |streams| && Valid() && FilledUpTo(before, States(), i)
      {
        FillOne(before, States(), i, sequence + 1);
        if streams[i].currentPacket.None? {
          Create(streams[i], i);
        }
        i := i + 1;
      }
    }

    /** A stream without a packet gets one; `step_stream` reports no event for that. */
    method Refill(stream: BranchStream)
      requires stream.Valid() && (stream.currentPacket.None? || !Idle(stream.State()))
      modifies this`sequence, stream
      ensures stream.Valid() && !Idle(stream.State())
      ensures var s := old(stream.State());
              && stream.State() == (if Idle(s) then NewPacket(s, old(sequence) + 1) else s)
              && sequence == old(sequence) + (if Idle(s) then 1 else 0)
    {
      ghost var s := stream.State();
      if stream.currentPacket.None? {
        sequence := sequence + 1;
        var packet := stream.CreatePacket(sequence);
        NewPacketLawful(s, sequence);
      }
    }

    /** The packet is sent on, and what happened is handed back. */
    method Advance(stream: BranchStream, gate: Gate, ghost i: nat) returns (kind: EventKind)
      requires Shape() && i < |streams| && streams[i] == stream
      requires stream.currentPacket.None? || !Idle(stream.State())
      modifies this`sequence, stream
      ensures Shape()
      ensures States() == old(States())[i := StepOf(old(States())[i], old(sequence) + 1, gate)]
      ensures sequence == old(sequence) + (if Idle(old(States())[i]) then 1 else 0)
      ensures stream.completedPackets == old(stream.completedPackets) + (if kind == PacketDelivered then 1 else 0)
      ensures kind == KindAt(old(States())[i], gate)
    {
      hide StepOf, Moved, NewPacket, Lawful, KindOf;
      KindOfNew(stream.State(), sequence + 1, gate);
      StepCounts(stream.State(), sequence + 1, gate);
      Refill(stream);
      kind := stream.Transmit(gate);
      OneChanged(i);
    }

    /** `step_stream` for a stream whose packet, if any, has not arrived. */
    method SendOn(stream: BranchStream, gate: Gate, ghost i: nat) returns (event: RuntimeEvent)
      requires Valid() && i < |streams| && streams[i] == stream
      requires stream.currentPacket.None? || !Idle(stream.State())
      modifies this`sequence, this`eventSequence, this`events, stream
      ensures Valid()
      ensures States() == old(States())[i := StepOf(old(States())[i], old(sequence) + 1, gate)]
      ensures sequence == old(sequence) + (if Idle(old(States())[i]) then 1 else 0)
      ensures Tells(event, old(States())[i], gate, stream.branchId)
    {
      hide StepOf, Balanced, Lawful, Idle, KindAt;
      ghost var before := States();
      var kind := Advance(stream, gate, i);
      event := Emit(kind, stream.branchId);
      StepBalanced(before, old(sequence), abandoned, old(eventSequence), old(events), i, gate, event);
    }

    /** `step_stream` for a stream whose packet has arrived. */
    method Renew(stream: BranchStream, gate: Gate, ghost i: nat) returns (event: RuntimeEvent)
      requires Valid() && i < |streams| && streams[i] == stream
      requires stream.currentPacket.Some? && Idle(stream.State())
      modifies this`sequence, this`eventSequence, this`events, stream
      ensures Valid() && sequence == old(sequence) + 1
      ensures States() == old(States())[i := StepOf(old(States())[i], old(sequence) + 1, gate)]
      ensures Tells(event, old(States())[i], gate, stream.branchId)
    {
      hide StepOf, NewPacket, Balanced, KindAt, Lawful, States;
      ghost var before := States();
      KindOfNew(before[i], sequence + 1, gate);
      CreatedThenStepped(before, i, sequence + 1, gate);
      Create(stream, i);
      event := SendOn(stream, gate, i);
    }

    /** `step_stream` */
    method StepStream(stream: BranchStream, gate: Gate, ghost i: nat) returns (event: RuntimeEvent)
      requires Valid() && i < |streams| && streams[i] == stream
      modifies this`sequence, this`eventSequence, this`events, stream
      ensures Valid()
      ensures States() == old(States())[i := StepOf(old(States())[i], old(sequence) + 1, gate)]
      ensures sequence == old(sequence) + (if Idle(old(States())[i]) then 1 else 0)
      ensures Tells(event, old(States())[i], gate, stream.branchId)
    {
      hide KindAt;
      if stream.currentPacket.Some? && stream.currentPacket.value.status == Delivered {
        event := Renew(stream, gate, i);
      } else {
        event := SendOn(stream, gate, i);
      }
    }

    /** The loop of `step` over all streams. */
    method StepAll(gate: Gate) returns (emitted: seq<RuntimeEvent>, ghost numbers: seq<nat>)
      requires Valid()
      modifies this`sequence, this`eventSequence, this`events, streams
      ensures Valid() && |emitted| == |streams|
      ensures SteppedUpTo(old(States()), States(), numbers, gate, |streams|)
      ensures forall j :: 0 <= j < |streams| ==> Tells(emitted[j], old(States())[j], gate, streams[j].branchId)
    {
      hide StepOf, Balanced, Lawful, KindAt, States, Shape;
      ghost var before := States();
      emitted, numbers := [], [];
      var i := 0;
      while i < |streams|
        invariant 0 <= i <= |streams| && Valid() && |emitted| == i
        invariant SteppedUpTo(before, States(), numbers, gate, i)
        invariant forall j :: 0 <= j < i ==> Tells(emitted[j], before[j], gate, streams[j].branchId)
      {
        StepOne(before, States(), numbers, gate, i, sequence + 1);
        numbers := numbers + [sequence + 1];
        var event := StepStream(streams[i], gate, i);
        emitted := emitted + [event];
        i := i + 1;
      }
    }

    /** The first stream moves, if there is one. */
    method StepOnlyFirst(gate: Gate, ghost before: seq<Stream>) returns (emitted: seq<RuntimeEvent>, ghost numbers: seq<nat>)
      requires Valid() && FilledUpTo(before, States(), |streams|)
      modifies this`sequence, this`eventSequence, this`events, streams
      ensures Valid() && SteppedFirst(before, States(), numbers, gate)
      ensures |emitted| == if |streams| > 0 then 1 else 0
      ensures |streams| > 0 ==> Tells(emitted[0], before[0], gate, streams[0].branchId)
    {
      ghost var mid, number := States(), sequence + 1;
      emitted := [];
      numbers := seq(|mid|, j requires 0 <= j < |mid| =>
        if j == 0 then FilledNumber(before[0], mid[0], number)
        else if mid[j].packet.Some? then mid[j].packet.value.number else 0);
      if |streams| > 0 {
        var event := StepStream(streams[0], gate, 0);
        FilledStep(before[0], mid[0], number, gate);
        KindOfFilled(before[0], mid[0], gate);
        emitted := [event];
      }
    }

    /** The streams after `step`. */
    method StepStreams(gate: Gate) returns (emitted: seq<RuntimeEvent>, ghost numbers: seq<nat>)
      requires Valid()
      modifies this`sequence, this`eventSequence, this`events, streams
      ensures Valid()
      ensures chain ==> SteppedFirst(old(States()), States(), numbers, gate)
      ensures !chain ==> SteppedUpTo(old(States()), States(), numbers, gate, |streams|)
      ensures |emitted| == if chain && |streams| > 0 then 1 else |streams|
      ensures forall j :: 0 <= j < |emitted| ==> Tells(emitted[j], old(States())[j], gate, streams[j].branchId)
    {
      ghost var before := States();
      EnsurePackets();
      if chain {
        emitted, numbers := StepOnlyFirst(gate, before);
      } else {
        ghost var mid := States();
        emitted, numbers := StepAll(gate);
        numbers := FilledSteps(before, mid, States(), numbers, gate);
        forall j | 0 <= j < |emitted| ensures Tells(emitted[j], before[j], gate, streams[j].branchId) {
          KindOfFilled(before[j], mid[j], gate);
        }
      }
    }

    /** `step`: in chain mode only the first stream moves, otherwise every stream does. */
    method Step(gate: Gate) returns (emitted: seq<RuntimeEvent>, ghost numbers: seq<nat>)
      requires Valid() && Recorded()
      modifies this`sequence, this`eventSequence, this`events, this`history, streams
      ensures Valid() && Recorded() && Numbering(States(), sequence)
      ensures history == old(history) + [if chain then StepFirst(gate, numbers) else StepEach(gate, numbers)]
      ensures chain ==> SteppedFirst(old(States()), States(), numbers, gate)
      ensures !chain ==> SteppedUpTo(old(States()), States(), numbers, gate, |streams|)
      ensures |emitted| == if chain && |streams| > 0 then 1 else |streams|
      ensures forall j :: 0 <= j < |emitted| ==> Tells(emitted[j], old(States())[j], gate, streams[j].branchId)
    {
      hide Performed, RecordedAs, SteppedUpTo, SteppedFirst, Balanced, Lawful, Numbering;
      ghost var before := States();
      emitted, numbers := StepStreams(gate);
      SteppedIsPerformed(before, States(), numbers, gate);
      assert Numbering(States(), sequence) by { NumberedApart(States(), sequence, abandoned, eventSequence, events); }
      ghost var op := if chain then StepFirst(gate, numbers) else StepEach(gate, numbers);
      Record(before, op);
    }

    // -------------------------------------------------------------- outages and routes

    /** One round of `clear_outage`. */
    method ClearStream(stream: BranchStream, ghost i: nat)
      requires Valid() && i < |streams| && streams[i] == stream
      modifies this`eventSequence, this`events, stream
      ensures Valid() && States() == old(States())[i := Cleared(old(States())[i])]
      ensures eventSequence == old(eventSequence) + 1
      ensures events == old(events) + [RuntimeEvent(RetryEnabled, stream.branchId, eventSequence)]
    {
      ghost var before, s := States(), stream.State();
      stream.Clear();
      var event := Emit(RetryEnabled, stream.branchId);
      OneChanged(i);
      ClearedBalance(s);
      BalanceUpdate(before, sequence, abandoned, old(eventSequence), old(events), i, stream.State(), 0, 0, event);
    }

    method ClearAll()
      requires Valid()
      modifies this`eventSequence, this`events, streams
      ensures Valid() && ClearedUpTo(old(States()), States(), |streams|)
      ensures events == old(events) + Retries(streams, |streams|, old(eventSequence))
    {
      hide Balanced, Cleared, Lawful;
      ghost var before := States();
      var i := 0;
      while i < |streams|
        invariant 0 <= i <= |streams| && Valid() && ClearedUpTo(before, States(), i)
        invariant eventSequence == old(eventSequence) + i
        invariant events == old(events) + Retries(streams, i, old(eventSequence))
      {
        ClearStream(streams[i], i);
        i := i + 1;
      }
    }

    /** self.streams.get(branch_id) */
    method Find(branchId: nat) returns (place: Option<nat>)
      ensures place.Some? ==> place.value < |streams| && streams[place.value].branchId == branchId
      ensures place.None? <==> Unknown(streams, branchId)
    {
      var i := 0;
      while i < |streams|
        invariant 0 <= i <= |streams| && forall j :: 0 <= j < i ==> streams[j].branchId != branchId
      {
        if streams[i].branchId == branchId {
          return Some(i);
        }
        i := i + 1;
      }
      place := None;
    }

    /** `clear_outage`: a named branch that exists, otherwise all of them, even when the name is unknown. */
    method ClearOutage(branchId: Option<nat>) returns (ghost place: nat)
      requires Valid() && Recorded()
      modifies this`eventSequence, this`events, this`history, streams
      ensures Valid() && Recorded()
      ensures history == old(history) +
                [if branchId == None || Unknown(streams, branchId.value) then ClearEach else ClearOne(place)]
      ensures branchId == None || Unknown(streams, branchId.value) ==> ClearedUpTo(old(States()), States(), |streams|)
      ensures branchId != None && !Unknown(streams, branchId.value) ==>
                && place < |streams| && streams[place].branchId == branchId.value
                && States() == old(States())[place := Cleared(old(States())[place])]
      ensures events == old(events) +
                (if branchId == None || Unknown(streams, branchId.value) then Retries(streams, |streams|, old(eventSequence))
                 else [RuntimeEvent(RetryEnabled, branchId.value, old(eventSequence) + 1)])
    {
      hide Balanced, Cleared, Lawful, RecordedAs, ClearedUpTo, Performed, Shape, Retries;
      place := 0;
      ghost var before, op := States(), ClearEach;
      var found: Option<nat> := None;
      if branchId.Some? {
        found := Find(branchId.value);
      }
      if found.Some? {
        place := found.value;
        ClearStream(streams[found.value], found.value);
        OneIsPerformed(before, place, [], 0);
        op := ClearOne(place);
      } else {
        ClearAll();
        ClearedIsPerformed(before, States());
      }
      Record(before, op);
    }

    /** `replace_route` */
    method ReplaceRoute(branchId: nat, route: seq<Node>) returns (outcome: Outcome, ghost place: nat)
      requires Valid() && Recorded()
      modifies this`sequence, this`eventSequence, this`events, this`abandoned, this`history, streams
      ensures Valid() && Recorded()
      ensures history == old(history) + (if outcome == Replaced then [RerouteOne(place, route, sequence)] else [])
      ensures outcome == if Unknown(streams, branchId) then UnknownBranch else if |route| < 2 then ShortRoute else Replaced
      ensures outcome != Replaced ==>
                && States() == old(States()) && sequence == old(sequence) && abandoned == old(abandoned)
                && eventSequence == old(eventSequence) && events == old(events)
      ensures outcome == Replaced ==>
                && place < |streams| && streams[place].branchId == branchId
                && States() == old(States())[place := Rerouted(old(States())[place], route, sequence)]
                && sequence == old(sequence) + 1
                && abandoned == old(abandoned) + (if Idle(old(States())[place]) then 0 else 1)
                && events == old(events) + [RuntimeEvent(RouteRecomputed, branchId, old(eventSequence) + 1)]
      ensures outcome == Replaced ==> var stream := streams[place];
                && stream.route == route && stream.source == route[0] && stream.destination == route[|route|-1]
                && stream.currentPacket == Some(Packet(sequence, route, 0, Queued, None, 0))
                && stream.completedPackets == old(streams[place].completedPackets)
                && stream.droppedPackets == old(streams[place].droppedPackets)
    {
      hide Balanced, Rerouted, Lawful, RecordedAs, Idle, Performed, Shape;
      place := 0;
      ghost var before := States();
      var found := Find(branchId);
      if found.None? {
        return UnknownBranch, 0;
      }
      if |route| < 2 {
        return ShortRoute, 0;
      }
      place := found.value;
      Reroute(streams[found.value], route, found.value);
      OneIsPerformed(before, place, route, sequence);
      Record(before, RerouteOne(place, route, sequence));
      ReroutedStartsOver(before[place], route, sequence);
      EndsFollow(place);
      outcome := Replaced;
    }

    /** A stream runs from the first to the last node of its route. */
    lemma EndsFollow(i: nat)
      requires Shape() && i < |streams|
      ensures streams[i].State() == States()[i] && |streams[i].route| > 0
      ensures streams[i].source == streams[i].route[0] && streams[i].destination == streams[i].route[|streams[i].route|-1]
    {
    }

    /** The new route and its first packet. */
    method Install(stream: BranchStream, route: seq<Node>, ghost i: nat)
      requires Shape() && i < |streams| && streams[i] == stream && |route| >= 2
      modifies this`sequence, stream
      ensures Shape() && sequence == old(sequence) + 1
      ensures States() == old(States())[i := Rerouted(old(States())[i], route, sequence)]
    {
      hide Rerouted, Lawful;
      sequence := sequence + 1;
      stream.SetRoute(route, sequence);
      OneChanged(i);
    }

    method Reroute(stream: BranchStream, route: seq<Node>, ghost i: nat)
      requires Valid() && i < |streams| && streams[i] == stream && |route| >= 2
      modifies this`sequence, this`eventSequence, this`events, this`abandoned, stream
      ensures Valid() && sequence == old(sequence) + 1
      ensures States() == old(States())[i := Rerouted(old(States())[i], route, sequence)]
      ensures abandoned == old(abandoned) + (if Idle(old(States())[i]) then 0 else 1)
      ensures events == old(events) + [RuntimeEvent(RouteRecomputed, stream.branchId, old(eventSequence) + 1)]
    {
      hide Rerouted, Balanced, Lawful, Idle, States;
      ghost var before := States();
      Install(stream, route, i);
      ghost var now, lost := States(), if Idle(before[i]) then 0 else 1;
      abandoned := abandoned + lost;
      var event := Emit(RouteRecomputed, stream.branchId);
      RerouteBalanced(before, old(sequence), old(abandoned), old(eventSequence), old(events), i, route, event);
      assert Shape() && States() == now;
    }

    /** The field delivered_packets of `summary`. */
    method DeliveredPackets() returns (delivered: nat)
      requires Valid()
      ensures delivered == Count(events, PacketDelivered)
      ensures sequence == delivered + UnderWay(States()) + abandoned
    {
      delivered := 0;
      var i := 0;
      while i < |streams|
        invariant 0 <= i <= |streams| && delivered == CompletedIn(States()[..i])
      {
        assert States()[..i+1][..i] == States()[..i];
        delivered := delivered + streams[i].completedPackets;
        i := i + 1;
      }
      assert States()[..i] == States();
      TotalSplits(States());
    }
  }

  /** Branches do not interfere: whatever other branches two runtimes have and whatever was done to those, a branch
      that started alike and was stepped, cleared and rerouted alike, under gates that agree on its hops, shows the same. */
  lemma RuntimesDoNotInterfere(a: Runtime, b: Runtime, k: nat)
    requires a.Recorded() && b.Recorded() && k < |a.initial| && k < |b.initial|
    requires Shown(a.initial[k]) == Shown(b.initial[k]) && SameView(a.initial, a.history, b.history, k)
    ensures k < |a.streams| && k < |b.streams| && Shown(a.streams[k].State()) == Shown(b.streams[k].State())
  {
    BranchesDoNotInterfere(a.initial, a.history, b.initial, b.history, k);
  }

  /** A branch that was open in every recorded round has delivered in step with the rounds. */
  lemma OpenRuntimeDelivers(a: Runtime, k: nat)
    requires a.Recorded() && k < |a.initial| && Untouched(a.initial[k])
    requires |a.initial[k].route| >= 2 && OpenFor(a.history, k, a.initial[k].route)
    ensures k < |a.streams| && a.streams[k].completedPackets == Rounds(a.history) / (|a.initial[k].route| - 1)
  {
    OpenBranchDelivers(a.initial, a.history, k);
  }

  /** A branch that got a new route has delivered on it in step with the rounds since in which it was open. */
  lemma ReroutedRuntimeDelivers(a: Runtime, ops: seq<Operation>, k: nat, route: seq<Node>, number: nat, more: seq<Operation>)
    requires a.Recorded() && k < |a.initial| && a.history == ops + [RerouteOne(k, route, number)] + more && OpenFor(more, k, route)
    ensures k < |a.streams| && a.streams[k].route == route && |route| >= 2
    ensures a.streams[k].completedPackets == Played(a.initial, ops)[k].completed + Rounds(more) / (|route| - 1)
  {
    var op := RerouteOne(k, route, number);
    assert a.history[|ops|] == op;
    assert ProperRun(ops) by {
      assert forall o :: o in ops ==> o in a.history;
    }
    ReroutedBranchDelivers(a.initial, ops, k, route, number, more);
  }

  /** Every branch that names a relay has a stream. */
  ghost predicate Streamed(branches: seq<seq<Node>>, streams: seq<BranchStream>, k: nat)
    requires k <= |branches|
  {
    forall j {:trigger Unknown(streams, j)} :: 0 <= j < k && branches[j] != [] ==> !Unknown(streams, j)
  }

  lemma StreamedMore(branches: seq<seq<Node>>, streams: seq<BranchStream>, k: nat, stream: BranchStream)
    requires k < |branches| && Streamed(branches, streams, k) && stream.branchId == k
    ensures Streamed(branches, streams + [stream], k + 1)
  {
    var more := streams + [stream];
    forall j | 0 <= j < k + 1 && branches[j] != [] ensures !Unknown(more, j) {
      if j < k {
        assert !Unknown(streams, j);
        var i :| 0 <= i < |streams| && streams[i].branchId == j;
        assert more[i].branchId == j;
      } else {
        assert more[|streams|].branchId == j;
      }
    }
  }

  /** `from_branches`: one stream for every branch that names a relay. */
  method FromBranches(branches: seq<seq<Node>>, chain: bool, source: Node) returns (runtime: Runtime)
    ensures runtime.Valid() && runtime.Recorded() && runtime.history == []
    ensures fresh(runtime) && runtime.chain == chain && runtime.sequence == 0
    ensures forall i, j :: 0 <= i < j < |runtime.streams| ==> runtime.streams[i].branchId < runtime.streams[j].branchId
    ensures forall i :: 0 <= i < |runtime.streams| ==>
              && runtime.streams[i].branchId < |branches| && branches[runtime.streams[i].branchId] != []
              && runtime.streams[i].State() == Stream([source] + branches[runtime.streams[i].branchId], None, 0, 0, false, None, 0, 0)
    ensures Streamed(branches, runtime.streams, |branches|)
  {
    var streams: seq<BranchStream> := [];
    for k := 0 to |branches|
      invariant Streamed(branches, streams, k)
      invariant forall i, j :: 0 <= i < j < |streams| ==> streams[i].branchId < streams[j].branchId
      invariant forall i :: 0 <= i < |streams| ==>
                  && streams[i].place == i && streams[i].Valid() && streams[i].branchId < k && branches[streams[i].branchId] != []
                  && streams[i].State() == Stream([source] + branches[streams[i].branchId], None, 0, 0, false, None, 0, 0)
    {
      var route := [source] + branches[k];
      if |route| < 2 { continue; }
      var stream := new BranchStream(k, route, |streams|);
      StreamedMore(branches, streams, k, stream);
      streams := streams + [stream];
    }
    runtime := new Runtime(chain, streams);
  }
}
