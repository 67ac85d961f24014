/** Runs over all branches of netlab/packet.py at once, and what one branch sees of them. */
module PacketRuns {
  import opened Walks
  import opened PacketFlow

  /** What is done to the streams: all are stepped, or the first one with the others given packets (chain mode); an
      outage is cleared on one or on all; one gets a new route. The numbers are those drawn for the streams. */
  datatype Operation =
    | StepEach(gate: Gate, numbers: seq<nat>)
    | StepFirst(gate: Gate, numbers: seq<nat>)
    | ClearOne(place: nat)
    | ClearEach
    | RerouteOne(place: nat, route: seq<Node>, number: nat)

  function NumberAt(numbers: seq<nat>, k: nat): nat {
    if k < |numbers| then numbers[k] else 0
  }

  /** What the stream in place k sees of an operation. */
  function Seen(op: Operation, k: nat): seq<Event> {
    match op
    case StepEach(gate, numbers) => [Step(NumberAt(numbers, k), gate)]
    case StepFirst(gate, numbers) => if k == 0 then [Step(NumberAt(numbers, k), gate)] else [Fill(NumberAt(numbers, k))]
    case ClearOne(place) => if k == place then [Clear] else []
    case ClearEach => [Clear]
    case RerouteOne(place, route, number) => if k == place then [Reroute(route, number)] else []
  }

  /** What it sees of a run. */
  function SeenBy(ops: seq<Operation>, k: nat): seq<Event> {
    if ops == [] then [] else SeenBy(ops[..|ops|-1], k) + Seen(ops[|ops|-1], k)
  }

  /** The streams after an operation. */
  function Performed(states: seq<Stream>, op: Operation): (after: seq<Stream>)
    ensures |after| == |states|
  {
    match op
    case StepEach(gate, numbers) =>
      seq(|states|, k requires 0 <= k < |states| => StepOf(states[k], NumberAt(numbers, k), gate))
    case StepFirst(gate, numbers) =>
      seq(|states|, k requires 0 <= k < |states| =>
        if k == 0 then StepOf(states[k], NumberAt(numbers, k), gate) else FillOf(states[k], NumberAt(numbers, k)))
    case ClearOne(place) => if place < |states| then states[place := Cleared(states[place])] else states
    case ClearEach => seq(|states|, k requires 0 <= k < |states| => Cleared(states[k]))
    case RerouteOne(place, route, number) =>
      if place < |states| then states[place := Rerouted(states[place], route, number)] else states
  }

  ghost function Played(states: seq<Stream>, ops: seq<Operation>): (after: seq<Stream>)
    ensures |after| == |states|
    decreases |ops|
  {
    if ops == [] then states else Performed(Played(states, ops[..|ops|-1]), ops[|ops|-1])
  }

  lemma PlayedMore(states: seq<Stream>, ops: seq<Operation>, op: Operation)
    ensures Played(states, ops + [op]) == Performed(Played(states, ops), op)
  {
    assert (ops + [op])[..|ops|] == ops;
  }

  /** New routes have two ends. */
  ghost predicate ProperRun(ops: seq<Operation>) {
    forall op :: op in ops && op.RerouteOne? ==> |op.route| >= 2
  }

  /** The operations lead from lawful streams to these. */
  ghost predicate RecordedAs(states: seq<Stream>, ops: seq<Operation>, now: seq<Stream>) {
    (forall i :: 0 <= i < |states| ==> Lawful(states[i])) && ProperRun(ops) && now == Played(states, ops)
  }

  lemma RecordedMore(states: seq<Stream>, ops: seq<Operation>, now: seq<Stream>, op: Operation)
    requires RecordedAs(states, ops, now) && (op.RerouteOne? ==> |op.route| >= 2)
    ensures RecordedAs(states, ops + [op], Performed(now, op))
  {
    PlayedMore(states, ops, op);
  }

  lemma PerformedIsSeen(states: seq<Stream>, op: Operation, k: nat)
    requires k < |states|
    ensures Performed(states, op)[k] == if Seen(op, k) == [] then states[k] else Applied(states[k], Seen(op, k)[0])
  {
  }

  /** In a run over all streams, each goes through what it sees, and nothing else. */
  lemma {:induction false} PlayedIsSeen(states: seq<Stream>, ops: seq<Operation>, k: nat)
    requires k < |states|
    ensures Played(states, ops)[k] == Through(states[k], SeenBy(ops, k))
    decreases |ops|
  {
    if ops != [] {
      var n := |ops| - 1;
      PlayedIsSeen(states, ops[..n], k);
      PerformedIsSeen(Played(states, ops[..n]), ops[n], k);
      var before, seen := SeenBy(ops[..n], k), Seen(ops[n], k);
      if seen == [] {
        assert before + seen == before;
      } else {
        assert seen == [seen[0]];
        ThroughMore(states[k], before, seen[0]);
      }
    }
  }

  lemma {:induction false} SeenIsProper(ops: seq<Operation>, k: nat)
    requires ProperRun(ops)
    ensures forall e :: e in SeenBy(ops, k) ==> Proper(e)
    decreases |ops|
  {
    if ops != [] {
      SeenIsProper(ops[..|ops|-1], k);
      assert ops[|ops|-1] in ops;
    }
  }

  /** Two runs over different streams look the same to the stream in place k. */
  ghost predicate SameView(states: seq<Stream>, ops: seq<Operation>, others: seq<Operation>, k: nat)
    requires k < |states|
  {
    AllAlike(states[k], SeenBy(ops, k), SeenBy(others, k))
  }

  /** Branches do not interfere: in two runs of whole runtimes, with any other branches, any outages, clearings and new
      routes on them, any shared numbering, and gates that agree only on the hops of branch k whenever it is stepped,
      that branch shows the same in the end. */
  lemma BranchesDoNotInterfere(states: seq<Stream>, ops: seq<Operation>, strangers: seq<Stream>, others: seq<Operation>, k: nat)
    requires k < |states| && k < |strangers| && Lawful(states[k]) && Lawful(strangers[k])
    requires Shown(states[k]) == Shown(strangers[k])
    requires ProperRun(ops) && ProperRun(others) && SameView(states, ops, others, k)
    ensures Shown(Played(states, ops)[k]) == Shown(Played(strangers, others)[k])
  {
    PlayedIsSeen(states, ops, k);
    PlayedIsSeen(strangers, others, k);
    SeenIsProper(ops, k);
    SeenIsProper(others, k);
    EventsAreLocal(states[k], strangers[k], SeenBy(ops, k), SeenBy(others, k));
  }

  // ---------------------------------------------------------------- throughput of a run

  /** How often all streams are stepped. */
  function Rounds(ops: seq<Operation>): nat {
    if ops == [] then 0 else Rounds(ops[..|ops|-1]) + (if ops[|ops|-1].StepEach? then 1 else 0)
  }

  /** Whenever streams are stepped all are, under gates that let every hop of this route pass; branch k keeps its route. */
  ghost predicate OpenFor(ops: seq<Operation>, k: nat, route: seq<Node>) {
    forall op :: op in ops ==>
      && !op.StepFirst? && (op.StepEach? ==> Open(route, op.gate)) && (op.RerouteOne? ==> op.place != k)
  }

  lemma OperationProgresses(states: seq<Stream>, op: Operation, k: nat, s: Stream, n: nat)
    requires k < |states| && Progressed(s, states[k], n) && |s.route| >= 2 && OpenFor([op], k, s.route)
    ensures Progressed(s, Performed(states, op)[k], n + (if op.StepEach? then 1 else 0))
  {
    assert op in [op];
    if op.StepEach? {
      StepLawful(states[k], NumberAt(op.numbers, k), op.gate);
      OpenStep(states[k], NumberAt(op.numbers, k), op.gate);
    } else {
      ClearedLawful(states[k]);
    }
  }

  lemma {:induction false} RunProgresses(states: seq<Stream>, ops: seq<Operation>, k: nat)
    requires k < |states| && Lawful(states[k]) && |states[k].route| >= 2 && OpenFor(ops, k, states[k].route)
    ensures Progressed(states[k], Played(states, ops)[k], Rounds(ops))
    decreases |ops|
  {
    if ops != [] {
      var n := |ops| - 1;
      RunProgresses(states, ops[..n], k);
      assert ops[n] in ops;
      OperationProgresses(Played(states, ops[..n]), ops[n], k, states[k], Rounds(ops[..n]));
    }
  }

  /** Over a run of a whole runtime, a branch whose hops are open whenever it is stepped delivers in step with the
      rounds, whatever happens to the other branches and however often outages are cleared. */
  lemma OpenBranchDelivers(states: seq<Stream>, ops: seq<Operation>, k: nat)
    requires k < |states| && Lawful(states[k]) && |states[k].route| >= 2 && OpenFor(ops, k, states[k].route)
    ensures var s, t, hops := states[k], Played(states, ops)[k], |states[k].route| - 1;
            && t.completed - s.completed == (s.decisions + Rounds(ops)) / hops - s.decisions / hops
            && (s.packet.None? && s.completed == s.earlier ==> t.completed - s.completed == Rounds(ops) / hops)
  {
    hide Played, Lawful, OpenFor;
    var s, t := states[k], Played(states, ops)[k];
    RunProgresses(states, ops, k);
    CompletedIsQuotient(s, s.decisions);
    CompletedIsQuotient(t, s.decisions + Rounds(ops));
    FreshHasNone(s);
  }

  lemma {:induction false} PlayedOn(states: seq<Stream>, ops: seq<Operation>, more: seq<Operation>)
    ensures Played(states, ops + more) == Played(Played(states, ops), more)
    decreases |more|
  {
    if more == [] {
      assert ops + more == ops;
    } else {
      var n := |more| - 1;
      PlayedOn(states, ops, more[..n]);
      PlayedMore(states, ops + more[..n], more[n]);
      assert ops + more == (ops + more[..n]) + [more[n]];
    }
  }

  lemma PlayedLawful(states: seq<Stream>, ops: seq<Operation>, k: nat)
    requires k < |states| && Lawful(states[k]) && ProperRun(ops)
    ensures Lawful(Played(states, ops)[k])
  {
    PlayedIsSeen(states, ops, k);
    SeenIsProper(ops, k);
    ThroughLawful(states[k], SeenBy(ops, k));
  }

  /** A branch without a feasible verdict since its route was installed. */
  lemma StartingOverDelivers(states: seq<Stream>, ops: seq<Operation>, k: nat)
    requires k < |states| && Lawful(states[k]) && |states[k].route| >= 2 && OpenFor(ops, k, states[k].route)
    requires states[k].decisions == 0
    ensures var t := Played(states, ops)[k];
            t.route == states[k].route && t.completed == states[k].completed + Rounds(ops) / (|states[k].route| - 1)
  {
    hide Played, Lawful, OpenFor;
    OpenBranchDelivers(states, ops, k);
    RunProgresses(states, ops, k);
  }

  lemma StartedOver(states: seq<Stream>, k: nat, route: seq<Node>, number: nat)
    requires k < |states| && Lawful(states[k]) && |route| >= 2
    ensures var t := Performed(states, RerouteOne(k, route, number))[k];
            Lawful(t) && t.route == route && t.decisions == 0 && t.completed == states[k].completed
  {
    ReroutedLawful(states[k], route, number);
    ReroutedStartsOver(states[k], route, number);
  }

  /** After a branch got a new route, in the middle of any run, that route is what it delivers on: n rounds with its hops
      open complete n div hops packets more, whatever was under way before. */
  lemma ReroutedBranchDelivers(states: seq<Stream>, ops: seq<Operation>, k: nat, route: seq<Node>, number: nat, more: seq<Operation>)
    requires k < |states| && Lawful(states[k]) && ProperRun(ops) && |route| >= 2 && OpenFor(more, k, route)
    ensures var before, after := Played(states, ops)[k], Played(states, ops + [RerouteOne(k, route, number)] + more)[k];
            after.route == route && after.completed == before.completed + Rounds(more) / (|route| - 1)
  {
    hide Played, Lawful, OpenFor, Performed;
    var run, op := Played(states, ops), RerouteOne(k, route, number);
    PlayedLawful(states, ops, k);
    StartedOver(run, k, route, number);
    PlayedMore(states, ops, op);
    PlayedOn(states, ops + [op], more);
    StartingOverDelivers(Performed(run, op), more, k);
  }
}
