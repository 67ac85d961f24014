/** What one stream of netlab/packet.py goes through, as values: a step under a gate, a cleared outage, a new route. */
module PacketFlow {
  import opened Arithmetic
  import opened Options
  import opened Walks

  type Reason = string

  /** The statuses the state machine assigns. */
  datatype Status = Queued | WaitingForLink | Transmitting | Advanced | Delivered | PausedOutage | Retrying

  datatype Packet = Packet(number: nat, route: seq<Node>, hop: nat, status: Status, reason: Option<Reason>, retries: nat)

  datatype Verdict = Verdict(feasible: bool, reason: Reason)

  type Gate = (Node, Node) -> Verdict

  /** A stream; decisions counts the feasible verdicts since its route was installed, and earlier the packets
      completed before that. */
  datatype Stream = Stream(route: seq<Node>, packet: Option<Packet>, completed: nat, dropped: nat, paused: bool,
                           reason: Option<Reason>, decisions: nat, earlier: nat)

  // ---------------------------------------------------------------- transitions

  /** `new_packet` */
  function NewPacket(s: Stream, number: nat): Stream {
    s.(packet := Some(Packet(number, s.route, 0, Queued, None, 0)), paused := false, reason := None)
  }

  /** No packet, or one that has arrived. */
  predicate Idle(s: Stream) {
    s.packet.None? || s.packet.value.status == Delivered
  }

  /** The packet has passed its last hop. */
  predicate AtEnd(p: Packet) {
    p.hop + 1 >= |p.route|
  }

  /** The gate is asked about the packet's next hop. */
  function Verdict0(s: Stream, gate: Gate): Verdict
    requires s.packet.Some? && !AtEnd(s.packet.value)
  {
    var p := s.packet.value;
    gate(p.route[p.hop], p.route[p.hop+1])
  }

  /** The rest of `step_stream`, for a packet that has not arrived. */
  function Moved(s: Stream, gate: Gate): Stream
    requires s.packet.Some?
  {
    var p := s.packet.value;
    if AtEnd(p) then
      s.(packet := Some(p.(status := Delivered)), completed := s.completed + 1)
    else
      var verdict := Verdict0(s, gate);
      if !verdict.feasible then
        s.(packet := Some(p.(status := PausedOutage, reason := Some(verdict.reason))),
           paused := true, reason := Some(verdict.reason))
      else
        var q := p.(hop := p.hop + 1, reason := None);
        s.(packet := Some(q.(status := if AtEnd(q) then Delivered else Advanced)),
           completed := s.completed + (if AtEnd(q) then 1 else 0), paused := false, reason := None,
           decisions := s.decisions + 1)
  }

  /** `step_stream` */
  function StepOf(s: Stream, number: nat, gate: Gate): Stream {
    Moved(if Idle(s) then NewPacket(s, number) else s, gate)
  }

  /** One stream of `ensure_packets`. */
  function FillOf(s: Stream, number: nat): Stream {
    if s.packet.None? then NewPacket(s, number) else s
  }

  /** One stream of `clear_outage`. */
  function Cleared(s: Stream): Stream {
    var t := s.(paused := false, reason := None);
    if s.packet.Some? && s.packet.value.status == PausedOutage then
      t.(packet := Some(s.packet.value.(status := Retrying, retries := s.packet.value.retries + 1, reason := None)))
    else t
  }

  /** `replace_route` */
  function Rerouted(s: Stream, route: seq<Node>, number: nat): Stream {
    NewPacket(s.(route := route, decisions := 0, earlier := s.completed), number)
  }

  // ---------------------------------------------------------------- laws of one stream

  /** The hops of an undelivered packet; 0 when there is none. */
  function Progress(s: Stream): nat {
    if Idle(s) then 0 else s.packet.value.hop
  }

  /** A packet keeps to the route of its stream, and every feasible verdict is accounted for by a completed
      packet or by the hops of the one under way. */
  ghost predicate Lawful(s: Stream) {
    && |s.route| > 0 && s.dropped == 0 && s.earlier <= s.completed
    && (s.packet.Some? ==>
          && s.packet.value.route == s.route && s.packet.value.hop < |s.route|
          && (s.packet.value.status == Delivered ==> s.packet.value.hop + 1 == |s.route|)
          && (s.packet.value.status != Delivered ==> s.packet.value.hop + 1 < |s.route| || |s.route| == 1)
          && (s.packet.value.status == PausedOutage ==> s.packet.value.hop + 1 < |s.route|)
          && (s.paused <==> s.packet.value.status == PausedOutage))
    && s.decisions == Hops(s) + Progress(s)
  }

  /** The hops of the packets completed on the current route. */
  ghost function Hops(s: Stream): int
    requires s.earlier <= s.completed
  {
    Times(s.completed - s.earlier, |s.route| - 1)
  }

  /** n routes of the given number of hops. */
  ghost function Times(n: nat, hops: int): int {
    if n == 0 then 0 else Times(n - 1, hops) + hops
  }

  lemma {:induction false} TimesIsProduct(n: nat, hops: int)
    ensures Times(n, hops) == n * hops
  {
    if n > 0 {
      TimesIsProduct(n - 1, hops);
    }
  }

  lemma NewPacketLawful(s: Stream, number: nat)
    requires Lawful(s) && Idle(s)
    ensures Lawful(NewPacket(s, number)) && !Idle(NewPacket(s, number))
  {
  }

  lemma MovedLawful(s: Stream, gate: Gate)
    requires Lawful(s) && !Idle(s)
    ensures Lawful(Moved(s, gate))
  {
    if |s.route| == 1 { TimesIsProduct(s.completed - s.earlier, 0); }
  }

  lemma StepLawful(s: Stream, number: nat, gate: Gate)
    requires Lawful(s)
    ensures Lawful(StepOf(s, number, gate))
  {
    if Idle(s) {
      NewPacketLawful(s, number);
      MovedLawful(NewPacket(s, number), gate);
    } else {
      MovedLawful(s, gate);
    }
  }

  lemma ClearedLawful(s: Stream)
    requires Lawful(s)
    ensures Lawful(Cleared(s)) && !Cleared(s).paused
  {
  }

  /** Field by field: a new route starts over with a new packet on it, and keeps the counters. */
  lemma ReroutedStartsOver(s: Stream, route: seq<Node>, number: nat)
    ensures var t := Rerouted(s, route, number);
            && t.route == route && t.packet == Some(Packet(number, route, 0, Queued, None, 0))
            && t.completed == s.completed && t.dropped == s.dropped && !t.paused && t.reason == None
            && t.decisions == 0 && t.earlier == s.completed
  {
  }

  lemma ReroutedLawful(s: Stream, route: seq<Node>, number: nat)
    requires Lawful(s) && |route| >= 2
    ensures Lawful(Rerouted(s, route, number))
  {
  }

  /** The packet a step sends on: the one under way, or a new one. */
  ghost function Carried(s: Stream, number: nat): Packet {
    if s.packet.Some? && s.packet.value.status != Delivered then s.packet.value else Packet(number, s.route, 0, Queued, None, 0)
  }

  /** Field by field: a refused hop halts the packet and its stream for the reason given; an open one moves the packet on,
      and delivers it at the end of the route. */
  lemma CursorFollowsGate(s: Stream, number: nat, gate: Gate)
    requires Lawful(s) && |s.route| >= 2
    ensures var p, after := Carried(s, number), StepOf(s, number, gate);
            && p.hop + 1 < |s.route|
            && var verdict, last := gate(s.route[p.hop], s.route[p.hop+1]), p.hop + 2 == |s.route|;
            && after.route == s.route && after.dropped == s.dropped && after.earlier == s.earlier
            && after.packet == Some(
                 if !verdict.feasible then p.(status := PausedOutage, reason := Some(verdict.reason))
                 else p.(status := if last then Delivered else Advanced, hop := p.hop + 1, reason := None))
            && after.completed == s.completed + (if verdict.feasible && last then 1 else 0)
            && after.paused == !verdict.feasible
            && after.reason == (if verdict.feasible then None else Some(verdict.reason))
            && after.decisions == s.decisions + (if verdict.feasible then 1 else 0)
  {
  }

  // ---------------------------------------------------------------- accounting of packets

  /** Packets completed or under way. */
  function Held(s: Stream): nat {
    s.completed + (if Idle(s) then 0 else 1)
  }

  /** A step creates a packet exactly when none is under way, and loses none. */
  lemma StepBalance(s: Stream, number: nat, gate: Gate)
    ensures Held(StepOf(s, number, gate)) == Held(s) + (if Idle(s) then 1 else 0)
  {
  }

  lemma ClearedBalance(s: Stream)
    ensures Held(Cleared(s)) == Held(s)
  {
  }

  /** A new route abandons the packet under way without counting it. */
  lemma ReroutedBalance(s: Stream, route: seq<Node>, number: nat)
    ensures Held(Rerouted(s, route, number)) == Held(s) + (if Idle(s) then 1 else 0)
    ensures Rerouted(s, route, number).dropped == s.dropped && Rerouted(s, route, number).completed == s.completed
  {
  }

  // ---------------------------------------------------------------- throughput

  /** The gate lets every hop of the route pass. */
  ghost predicate Open(route: seq<Node>, gate: Gate) {
    forall i, j {:trigger route[i], route[j]} :: 0 <= i < |route| && 0 <= j < |route| && j == i + 1 ==> gate(route[i], route[j]).feasible
  }

  /** The stream after one step for every gate of the run. */
  ghost function After(s: Stream, numbers: seq<nat>, gates: seq<Gate>): Stream
    requires |numbers| == |gates|
    decreases |gates|
  {
    if gates == [] then s
    else StepOf(After(s, numbers[..|gates|-1], gates[..|gates|-1]), numbers[|gates|-1], gates[|gates|-1])
  }

  /** Under an open gate a step is one feasible verdict. */
  lemma OpenStep(s: Stream, number: nat, gate: Gate)
    requires Lawful(s) && |s.route| >= 2 && Open(s.route, gate)
    ensures var t := StepOf(s, number, gate);
            t.route == s.route && t.earlier == s.earlier && t.decisions == s.decisions + 1
  {
    CursorFollowsGate(s, number, gate);
  }

  ghost predicate Progressed(s: Stream, t: Stream, n: nat) {
    Lawful(t) && t.route == s.route && t.earlier == s.earlier && t.decisions == s.decisions + n
  }

  lemma {:induction false} OpenRun(s: Stream, numbers: seq<nat>, gates: seq<Gate>)
    requires |numbers| == |gates| && Lawful(s) && |s.route| >= 2
    requires forall g :: g in gates ==> Open(s.route, g)
    ensures Progressed(s, After(s, numbers, gates), |gates|)
    decreases |gates|
  {
    if gates != [] {
      var n := |gates| - 1;
      assert gates[n] in gates;
      OpenRun(s, numbers[..n], gates[..n]);
      var t := After(s, numbers[..n], gates[..n]);
      StepLawful(t, numbers[n], gates[n]);
      OpenStep(t, numbers[n], gates[n]);
    }
  }

  lemma Quotient(n: nat, q: nat, r: nat, d: nat)
    requires d > 0 && n == Times(q, d) + r && r < d
    ensures q == n / d
  {
    TimesIsProduct(q, d);
    DivisionUnique(n, q, r, d);
  }

  /** Under gates that let every hop pass, the packets completed on a route are the hops gone, divided by its length:
      n steps of a stream with nothing on its way deliver floor(n / hops) packets. */
  lemma OpenRunDelivers(s: Stream, numbers: seq<nat>, gates: seq<Gate>)
    requires |numbers| == |gates| && Lawful(s) && |s.route| >= 2
    requires forall g :: g in gates ==> Open(s.route, g)
    ensures var t, hops := After(s, numbers, gates), |s.route| - 1;
            && t.completed - s.earlier == (s.decisions + |gates|) / hops
            && t.completed - s.completed == (s.decisions + |gates|) / hops - s.decisions / hops
            && (s.packet.None? && s.completed == s.earlier ==> t.completed - s.completed == |gates| / hops)
  {
    hide After, Lawful;
    OpenRun(s, numbers, gates);
    CompletedIsQuotient(s, s.decisions);
    CompletedIsQuotient(After(s, numbers, gates), s.decisions + |gates|);
    FreshHasNone(s);
  }

  lemma FreshHasNone(s: Stream)
    requires Lawful(s)
    ensures s.packet.None? && s.completed == s.earlier ==> s.decisions == 0
  {
  }

  lemma CompletedIsQuotient(t: Stream, n: nat)
    requires Lawful(t) && |t.route| >= 2 && t.decisions == n
    ensures t.completed - t.earlier == n / (|t.route| - 1)
  {
    Quotient(n, t.completed - t.earlier, Progress(t), |t.route| - 1);
  }

  // ---------------------------------------------------------------- what a branch shows

  /** Everything but the sequence numbers, which the branches draw from one counter. */
  function Shown(s: Stream): Stream {
    if s.packet.Some? then s.(packet := Some(s.packet.value.(number := 0))) else s
  }

  /** The gates give the same verdicts on the hops of the route. */
  ghost predicate Agree(route: seq<Node>, g: Gate, h: Gate) {
    forall i, j {:trigger route[i], route[j]} :: 0 <= i < |route| && 0 <= j < |route| && j == i + 1 ==> g(route[i], route[j]) == h(route[i], route[j])
  }

  lemma NewPacketIsLocal(s: Stream, t: Stream, m: nat, n: nat)
    requires Shown(s) == Shown(t)
    ensures Shown(NewPacket(s, m)) == Shown(NewPacket(t, n)) && Idle(s) == Idle(t)
  {
  }

  lemma MovedIsLocal(s: Stream, t: Stream, g: Gate, h: Gate)
    requires Lawful(s) && Lawful(t) && !Idle(s) && !Idle(t) && Shown(s) == Shown(t) && Agree(s.route, g, h)
    ensures Shown(Moved(s, g)) == Shown(Moved(t, h))
  {
    var p, q := s.packet.value, t.packet.value;
    assert p.(number := 0) == q.(number := 0);
    if !AtEnd(p) {
      assert Verdict0(s, g) == Verdict0(t, h);
    }
  }

  /** What a branch shows after a step depends only on what it showed before and on the gate at its own hops. */
  lemma StepIsLocal(s: Stream, t: Stream, m: nat, n: nat, g: Gate, h: Gate)
    requires Lawful(s) && Lawful(t) && Shown(s) == Shown(t) && Agree(s.route, g, h)
    ensures Shown(StepOf(s, m, g)) == Shown(StepOf(t, n, h))
  {
    NewPacketIsLocal(s, t, m, n);
    if Idle(s) {
      NewPacketLawful(s, m);
      NewPacketLawful(t, n);
      MovedIsLocal(NewPacket(s, m), NewPacket(t, n), g, h);
    } else {
      MovedIsLocal(s, t, g, h);
    }
  }

  lemma ClearIsLocal(s: Stream, t: Stream)
    requires Shown(s) == Shown(t)
    ensures Shown(Cleared(s)) == Shown(Cleared(t))
  {
  }

  lemma FillIsLocal(s: Stream, t: Stream, m: nat, n: nat)
    requires Shown(s) == Shown(t)
    ensures Shown(FillOf(s, m)) == Shown(FillOf(t, n))
  {
  }

  lemma RerouteIsLocal(s: Stream, t: Stream, route: seq<Node>, m: nat, n: nat)
    requires Shown(s) == Shown(t)
    ensures Shown(Rerouted(s, route, m)) == Shown(Rerouted(t, route, n))
  {
  }

  /** What can happen to one branch. */
  datatype Event = Step(number: nat, gate: Gate) | Fill(number: nat) | Clear | Reroute(route: seq<Node>, number: nat)

  function Applied(s: Stream, e: Event): Stream {
    match e
    case Step(number, gate) => StepOf(s, number, gate)
    case Fill(number) => FillOf(s, number)
    case Clear => Cleared(s)
    case Reroute(route, number) => Rerouted(s, route, number)
  }

  ghost function Through(s: Stream, events: seq<Event>): Stream
    decreases |events|
  {
    if events == [] then s else Applied(Through(s, events[..|events|-1]), events[|events|-1])
  }

  lemma ThroughMore(s: Stream, events: seq<Event>, e: Event)
    ensures Through(s, events + [e]) == Applied(Through(s, events), e)
  {
    assert (events + [e])[..|events|] == events;
  }

  /** New routes have two ends. */
  ghost predicate Proper(e: Event) {
    e.Reroute? ==> |e.route| >= 2
  }

  /** Two events of different runs that look the same to a branch with this route. */
  ghost predicate Alike(route: seq<Node>, e: Event, f: Event) {
    match e
    case Step(_, g) => f.Step? && Agree(route, g, f.gate)
    case Fill(_) => f.Fill?
    case Clear => f.Clear?
    case Reroute(r, _) => f.Reroute? && f.route == r
  }

  /** Step by step two runs look the same to a branch that starts as s. */
  ghost predicate AllAlike(s: Stream, events: seq<Event>, others: seq<Event>) {
    && |events| == |others|
    && forall k :: 0 <= k < |events| ==> Alike(Through(s, events[..k]).route, events[k], others[k])
  }

  lemma AppliedLawful(s: Stream, e: Event)
    requires Lawful(s) && Proper(e)
    ensures Lawful(Applied(s, e))
  {
    match e
    case Step(number, gate) => StepLawful(s, number, gate);
    case Fill(number) => if s.packet.None? { NewPacketLawful(s, number); }
    case Clear => ClearedLawful(s);
    case Reroute(route, number) => ReroutedLawful(s, route, number);
  }

  lemma {:induction false} ThroughLawful(s: Stream, events: seq<Event>)
    requires Lawful(s) && forall e :: e in events ==> Proper(e)
    ensures Lawful(Through(s, events))
    decreases |events|
  {
    if events != [] {
      ThroughLawful(s, events[..|events|-1]);
      assert events[|events|-1] in events;
      AppliedLawful(Through(s, events[..|events|-1]), events[|events|-1]);
    }
  }

  lemma AppliedIsLocal(s: Stream, t: Stream, e: Event, f: Event)
    requires Lawful(s) && Lawful(t) && Shown(s) == Shown(t) && Alike(s.route, e, f)
    ensures Shown(Applied(s, e)) == Shown(Applied(t, f))
  {
    match e
    case Step(m, g) => StepIsLocal(s, t, m, f.number, g, f.gate);
    case Fill(m) => FillIsLocal(s, t, m, f.number);
    case Clear => ClearIsLocal(s, t);
    case Reroute(route, m) => RerouteIsLocal(s, t, route, m, f.number);
  }

  /** One branch after two sequences of events that look the same to it shows the same, whatever the numbers drawn and
      whatever the gates say elsewhere. */
  lemma {:induction false} EventsAreLocal(s: Stream, t: Stream, events: seq<Event>, others: seq<Event>)
    requires Lawful(s) && Lawful(t) && Shown(s) == Shown(t) && AllAlike(s, events, others)
    requires forall e :: e in events ==> Proper(e)
    requires forall e :: e in others ==> Proper(e)
    ensures Shown(Through(s, events)) == Shown(Through(t, others))
    decreases |events|
  {
    if events != [] {
      var n := |events| - 1;
      forall k | 0 <= k < n ensures Alike(Through(s, events[..n][..k]).route, events[..n][k], others[..n][k]) {
        assert events[..n][..k] == events[..k];
        assert Alike(Through(s, events[..k]).route, events[k], others[k]);
      }
      EventsAreLocal(s, t, events[..n], others[..n]);
      ThroughLawful(s, events[..n]);
      ThroughLawful(t, others[..n]);
      assert Alike(Through(s, events[..n]).route, events[n], others[n]);
      AppliedIsLocal(Through(s, events[..n]), Through(t, others[..n]), events[n], others[n]);
    }
  }
}
