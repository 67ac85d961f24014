/** The shield in closed loop: netlab/marl.py feeds its output back into the snapshot at every step. */
module SwarmLoop {
  import opened Options
  import opened Geometry
  import opened SafetyShield

  /** The positions an output commands. */
  function Accepted(output: Output): map<Entity, Vec> {
    if output.Command? && output.positions.Some? then output.positions.value else map[]
  }

  /** The commanded, simulated and measured position of every commanded UAV are replaced. */
  function Moved(uavs: map<Entity, Uav>, positions: map<Entity, Vec>): map<Entity, Uav> {
    map id | id in uavs ::
      if id in positions then
        uavs[id].(commanded := Some(positions[id]), simulated := Some(positions[id]), measured := Some(positions[id]))
      else uavs[id]
  }

  /** One tick of the loop: the snapshot after any action has gone through the shield. */
  ghost function Next(sqrt: real -> real, feasible: LinkModel, c: Config, uavs: map<Entity, Uav>, action: Action): map<Entity, Uav> {
    Moved(uavs, Accepted(Handed(sqrt, c, uavs, action, Accepts(sqrt, feasible, true, c, uavs, action))))
  }

  // ---------------------------------------------------------------- safety

  /** An offset from the centre of a side, which is at least one long. */
  predicate WithinHalf(offset: real, side: real) {
    -side / 2.0 <= offset <= side / 2.0 || -0.5 <= offset <= 0.5
  }

  /** The position lies within the altitude limits, and with a geofence within the service region. */
  predicate InRegion(c: Config, v: Vec) {
    && c.minAltitude <= v.z <= c.maxAltitude
    && (c.geofence ==> WithinHalf(v.x - c.centerX, c.length) && WithinHalf(v.y - c.centerY, c.width))
  }

  /** In the configuration's own numbers: every flying UAV is in the region, any two are the minimum separation apart, and
      every required hop is feasible. */
  ghost predicate Safe(feasible: LinkModel, c: Config, uavs: map<Entity, Uav>) {
    && (forall id :: id in uavs && uavs[id].active && !uavs[id].failed ==> InRegion(c, CurrentPosition(uavs[id])))
    && FlyApart(c, uavs, map[]) && HopsHold(feasible, c, uavs, map[])
  }

  /** The same as the shield computes it: between the service bounds, ... */
  predicate Inside(c: Config, v: Vec) {
    var b := ServiceBounds(c);
    && (c.geofence ==> b.minX <= v.x <= b.maxX && b.minY <= v.y <= b.maxY)
    && b.minAlt <= v.z <= b.maxAlt
  }

  /** ... not too close, and connected. */
  ghost predicate Guarded(sqrt: real -> real, feasible: LinkModel, c: Config, uavs: map<Entity, Uav>) {
    && (forall id :: id in uavs && Flying(uavs[id]) ==> Inside(c, CurrentPosition(uavs[id])))
    && Separated(sqrt, c, FallbackPositions(uavs))
    && Connected(feasible, c, uavs, FallbackPositions(uavs))
  }

  lemma InsideIs(c: Config, v: Vec)
    ensures Inside(c, v) <==> InRegion(c, v)
  {
  }

  /** The shield guards what the configuration says. */
  lemma GuardedIsSafe(sqrt: real -> real, feasible: LinkModel, c: Config, uavs: map<Entity, Uav>)
    requires IsSqrt(sqrt)
    ensures Guarded(sqrt, feasible, c, uavs) <==> Safe(feasible, c, uavs)
  {
    hide Inside, InRegion, CurrentPosition, FlyApart, HopsHold, Separated, Connected;
    HoldIsComplete(uavs);
    SeparatedIs(sqrt, c, uavs, map[]);
    ConnectedIs(feasible, c, uavs, map[]);
    forall id | id in uavs ensures Inside(c, CurrentPosition(uavs[id])) <==> InRegion(c, CurrentPosition(uavs[id])) {
      InsideIs(c, CurrentPosition(uavs[id]));
    }
  }

  lemma CorrectedInside(c: Config, current: Vec, target: Vec)
    requires Inside(c, current)
    ensures Inside(c, Corrected(c, target))
  {
    var b := ServiceBounds(c);
    ClampInside(target.z, b.minAlt, b.maxAlt);
    if c.geofence {
      ClampInside(target.x, b.minX, b.maxX);
      ClampInside(target.y, b.minY, b.maxY);
    }
  }

  /** A projected command stays inside, whatever was asked for. */
  lemma SteppedInside(sqrt: real -> real, c: Config, current: Vec, target: Vec)
    requires IsSqrt(sqrt) && Inside(c, current)
    ensures Inside(c, Stepped(sqrt, c, current, Corrected(c, target)))
  {
    LimitsPositive(c);
    CorrectedInside(c, current, target);
    var corrected := Corrected(c, target);
    var step := ProjectStep(sqrt, current, corrected, MaxDistance(c));
    StepBetween(sqrt, current, corrected, MaxDistance(c));
    VerticalLimit(sqrt, current, step, MaxVerticalStep(c));
    BoxTrans(current, step, LimitVertical(current, step, MaxVerticalStep(c)), corrected);
  }

  /** What a tick leaves as the current position of a UAV. */
  lemma PositionAfter(uavs: map<Entity, Uav>, positions: map<Entity, Vec>, id: Entity)
    requires id in uavs
    ensures CurrentPosition(Moved(uavs, positions)[id])
         == if id in positions then positions[id] else CurrentPosition(uavs[id])
    ensures Flying(Moved(uavs, positions)[id]) == Flying(uavs[id])
  {
  }

  /** The positions after a tick are the complete positions the shield has judged. */
  lemma CompleteIsNext(uavs: map<Entity, Uav>, positions: map<Entity, Vec>)
    ensures FallbackPositions(Moved(uavs, positions)) == Complete(uavs, positions)
  {
    forall id | id in uavs
      ensures CurrentPosition(Moved(uavs, positions)[id])
           == if id in positions then positions[id] else CurrentPosition(uavs[id])
    {
      PositionAfter(uavs, positions, id);
    }
  }

  /** Holding position changes nothing that matters. */
  lemma HoldIsComplete(uavs: map<Entity, Uav>)
    ensures Complete(uavs, FallbackPositions(uavs)) == FallbackPositions(uavs)
    ensures Complete(uavs, map[]) == FallbackPositions(uavs)
  {
  }

  lemma LinkEndMoved(c: Config, uavs: map<Entity, Uav>, positions: map<Entity, Vec>, id: Entity, v: Vec)
    ensures LinkEnd(c, uavs, id, v) == LinkEnd(c, Moved(uavs, positions), id, v)
  {
  }

  lemma HopMoved(feasible: LinkModel, c: Config, uavs: map<Entity, Uav>, positions: map<Entity, Vec>, at: map<Entity, Vec>,
                 edge: (Entity, Entity))
    ensures HopFeasible(feasible, c, uavs, at, edge) == HopFeasible(feasible, c, Moved(uavs, positions), at, edge)
  {
    var known := EntityPositions(c, at);
    if edge.0 in known && edge.1 in known {
      LinkEndMoved(c, uavs, positions, edge.0, known[edge.0]);
      LinkEndMoved(c, uavs, positions, edge.1, known[edge.1]);
    }
  }

  /** The link test sees only names, positions and flags. */
  lemma ConnectedMoved(feasible: LinkModel, c: Config, uavs: map<Entity, Uav>, positions: map<Entity, Vec>, at: map<Entity, Vec>)
    ensures Connected(feasible, c, uavs, at) <==> Connected(feasible, c, Moved(uavs, positions), at)
  {
    forall k | 0 <= k < |c.edges|
      ensures HopFeasible(feasible, c, uavs, at, c.edges[k]) == HopFeasible(feasible, c, Moved(uavs, positions), at, c.edges[k])
    {
      HopMoved(feasible, c, uavs, positions, at, c.edges[k]);
    }
  }

  /** A commanded position is the projection of what was asked for. */
  lemma CommandsInside(sqrt: real -> real, c: Config, uavs: map<Entity, Uav>, action: Action, id: Entity)
    requires IsSqrt(sqrt) && action.desired.Positions? && id in Commands(sqrt, c, uavs, action)
    requires Inside(c, CurrentPosition(uavs[id]))
    ensures Inside(c, Commands(sqrt, c, uavs, action)[id])
  {
    SteppedInside(sqrt, c, CurrentPosition(uavs[id]), Enu(action.desired.targets[id], action.frame).value);
  }

  lemma TickGuards(sqrt: real -> real, feasible: LinkModel, c: Config, uavs: map<Entity, Uav>, action: Action)
    requires IsSqrt(sqrt) && Guarded(sqrt, feasible, c, uavs)
    ensures Guarded(sqrt, feasible, c, Next(sqrt, feasible, c, uavs, action))
  {
    var accepts := Accepts(sqrt, feasible, true, c, uavs, action);
    var positions := Accepted(Handed(sqrt, c, uavs, action, accepts));
    var next := Moved(uavs, positions);
    CompleteIsNext(uavs, positions);
    HoldIsComplete(uavs);
    ConnectedMoved(feasible, c, uavs, positions, Complete(uavs, positions));
    forall id | id in next && Flying(next[id]) ensures Inside(c, CurrentPosition(next[id])) {
      PositionAfter(uavs, positions, id);
      if accepts && action.desired.Positions? && id in positions {
        CommandsInside(sqrt, c, uavs, action, id);
      }
    }
  }

  /** The shield keeps the swarm safe under every action: accepted, projected, rejected or malformed. */
  lemma TickKeepsSafe(sqrt: real -> real, feasible: LinkModel, c: Config, uavs: map<Entity, Uav>, action: Action)
    requires IsSqrt(sqrt) && Safe(feasible, c, uavs)
    ensures Safe(feasible, c, Next(sqrt, feasible, c, uavs, action))
  {
    hide Safe, Guarded, Next;
    GuardedIsSafe(sqrt, feasible, c, uavs);
    TickGuards(sqrt, feasible, c, uavs, action);
    GuardedIsSafe(sqrt, feasible, c, Next(sqrt, feasible, c, uavs, action));
  }

  /** A run of the loop under arbitrary actions. */
  ghost predicate Run(sqrt: real -> real, feasible: LinkModel, c: Config, states: seq<map<Entity, Uav>>, actions: seq<Action>) {
    && |states| == |actions| + 1
    && forall k :: 0 <= k < |actions| ==> states[k+1] == Next(sqrt, feasible, c, states[k], actions[k])
  }

  /** Every state of a run that starts safe is safe. */
  lemma {:induction false} RunKeepsSafe(sqrt: real -> real, feasible: LinkModel, c: Config, states: seq<map<Entity, Uav>>,
                                        actions: seq<Action>, n: nat)
    requires IsSqrt(sqrt) && Run(sqrt, feasible, c, states, actions) && n < |states|
    requires Safe(feasible, c, states[0])
    ensures Safe(feasible, c, states[n])
  {
    if n > 0 {
      RunKeepsSafe(sqrt, feasible, c, states, actions, n - 1);
      TickKeepsSafe(sqrt, feasible, c, states[n-1], actions[n-1]);
      assert states[n-1+1] == Next(sqrt, feasible, c, states[n-1], actions[n-1]);
    }
  }

  /** Spelled out: in every state of a run that starts safe two flying UAVs are the minimum separation apart but for
      1e-9, stay between the altitude limits, and, with a geofence of sides no shorter than one, within half a side of its
      centre. */
  lemma RunInNumbers(sqrt: real -> real, feasible: LinkModel, c: Config, states: seq<map<Entity, Uav>>, actions: seq<Action>,
                     n: nat, a: Entity, b: Entity)
    requires IsSqrt(sqrt) && Run(sqrt, feasible, c, states, actions) && n < |states| && Safe(feasible, c, states[0])
    requires a != b && a in states[n] && states[n][a].active && !states[n][a].failed
    requires b in states[n] && states[n][b].active && !states[n][b].failed
    ensures var v, w := CurrentPosition(states[n][a]), CurrentPosition(states[n][b]);
            && Dist(sqrt, v, w) >= c.minimumSeparation - 0.000000001 && c.minAltitude <= v.z <= c.maxAltitude
            && (c.geofence && c.length >= 1.0 && c.width >= 1.0 ==>
                  && -c.length / 2.0 <= v.x - c.centerX <= c.length / 2.0
                  && -c.width / 2.0 <= v.y - c.centerY <= c.width / 2.0)
  {
    RunKeepsSafe(sqrt, feasible, c, states, actions, n);
    var v, w := CurrentPosition(states[n][a]), CurrentPosition(states[n][b]);
    DistDecides(sqrt, v, w, c.minimumSeparation - 0.000000001);
    assert Apart(Whereabouts(states[n], map[], a), Whereabouts(states[n], map[], b), c.minimumSeparation - 0.000000001);
  }

  // ---------------------------------------------------------------- motion

  lemma StaysNear(v: Vec, d: real)
    requires d >= 0.0
    ensures Near(v, v, d)
  {
  }

  lemma SteppedLength(sqrt: real -> real, c: Config, current: Vec, corrected: Vec)
    requires IsSqrt(sqrt)
    ensures Near(Stepped(sqrt, c, current, corrected), current, Max(MaxDistance(c), TINY))
    ensures Abs(Stepped(sqrt, c, current, corrected).z - current.z) <= MaxVerticalStep(c)
  {
    hide Near;
    LimitsPositive(c);
    StepLength(sqrt, current, corrected, MaxDistance(c));
    VerticalLimit(sqrt, current, ProjectStep(sqrt, current, corrected, MaxDistance(c)), MaxVerticalStep(c));
    DistDecides(sqrt, Stepped(sqrt, c, current, corrected), current, Max(MaxDistance(c), TINY));
  }

  /** Whatever the action, a tick moves a UAV by no more than the per-update limits. */
  lemma TickLimitsMotion(sqrt: real -> real, feasible: LinkModel, c: Config, uavs: map<Entity, Uav>, action: Action, id: Entity)
    requires IsSqrt(sqrt) && id in uavs
    ensures id in Next(sqrt, feasible, c, uavs, action)
    ensures var before, after := CurrentPosition(uavs[id]), CurrentPosition(Next(sqrt, feasible, c, uavs, action)[id]);
            Near(after, before, Max(MaxDistance(c), TINY)) && Abs(after.z - before.z) <= MaxVerticalStep(c)
  {
    hide Acceptable, Near;
    var accepts := Accepts(sqrt, feasible, true, c, uavs, action);
    var positions := Accepted(Handed(sqrt, c, uavs, action, accepts));
    var current := CurrentPosition(uavs[id]);
    PositionAfter(uavs, positions, id);
    LimitsPositive(c);
    StaysNear(current, Max(MaxDistance(c), TINY));
    if accepts && action.desired.Positions? && id in positions {
      SteppedLength(sqrt, c, current, Corrected(c, Enu(action.desired.targets[id], action.frame).value));
    }
  }

  /** In numbers: a tick moves a UAV no farther than the speed divided by the update rate, or than the tolerance of
      1e-12, and no higher or lower than the vertical speed divided by the rate. */
  lemma TickInNumbers(sqrt: real -> real, feasible: LinkModel, c: Config, uavs: map<Entity, Uav>, action: Action, id: Entity)
    requires IsSqrt(sqrt) && id in uavs && c.maxSpeed >= 0.01 && c.maxVertical >= 0.01 && c.updateRate >= 0.1
    ensures id in Next(sqrt, feasible, c, uavs, action)
    ensures var before, after := CurrentPosition(uavs[id]), CurrentPosition(Next(sqrt, feasible, c, uavs, action)[id]);
            && (Near(after, before, c.maxSpeed / c.updateRate) || Near(after, before, 0.000000000001))
            && -(c.maxVertical / c.updateRate) <= after.z - before.z <= c.maxVertical / c.updateRate
  {
    hide Near, Next;
    TickLimitsMotion(sqrt, feasible, c, uavs, action, id);
    LimitsPerUpdate(c);
    var before, after := CurrentPosition(uavs[id]), CurrentPosition(Next(sqrt, feasible, c, uavs, action)[id]);
  }

  /** What a tick writes: a UAV the shield hands a position on for is commanded, simulated and measured there, and nothing
      else of it changes; every other UAV is as it was. */
  lemma TickWrites(sqrt: real -> real, feasible: LinkModel, c: Config, uavs: map<Entity, Uav>, action: Action, id: Entity)
    requires id in uavs
    ensures id in Next(sqrt, feasible, c, uavs, action)
    ensures var out := Handed(sqrt, c, uavs, action, Accepts(sqrt, feasible, true, c, uavs, action));
            var u, v := uavs[id], Next(sqrt, feasible, c, uavs, action)[id];
            if out.Command? && out.positions.Some? && id in out.positions.value then
              && v.commanded == Some(out.positions.value[id]) && v.simulated == v.commanded && v.measured == v.commanded
              && v.active == u.active && v.failed == u.failed && v.soc == u.soc
              && v.position == u.position && v.desired == u.desired
            else v == u
  {
    hide Accepts, Handed;
  }

  // ---------------------------------------------------------------- the environment

  /** One component of where a policy's velocity vector points, clipped to [-1, 1]. */
  function Ahead(at: real, raw: real, maxSpeed: real, dt: real): real {
    at + Clamp(raw, -1.0, 1.0) * maxSpeed * dt
  }

  function Heading(position: Vec, raw: Vec, maxSpeed: real, dt: real): Vec {
    Vec(Ahead(position.x, raw.x, maxSpeed, dt), Ahead(position.y, raw.y, maxSpeed, dt), Ahead(position.z, raw.z, maxSpeed, dt))
  }

  /** In numbers: a component of at least 1 means full speed ahead, one of at most -1 full speed back, and one between
      that part of it. */
  predicate Follows(raw: real, from: real, to: real, maxSpeed: real, dt: real) {
    && (raw >= 1.0 ==> to == from + maxSpeed * dt) && (raw <= -1.0 ==> to == from - maxSpeed * dt)
    && (-1.0 <= raw <= 1.0 ==> to == from + raw * (maxSpeed * dt))
  }

  lemma FullSpeed(at: real, raw: real, maxSpeed: real, dt: real)
    ensures Follows(raw, at, Ahead(at, raw, maxSpeed, dt), maxSpeed, dt)
  {
    assert raw * maxSpeed * dt == raw * (maxSpeed * dt);
    assert -1.0 * maxSpeed * dt == -(maxSpeed * dt);
  }

  lemma HeadingFollows(position: Vec, raw: Vec, maxSpeed: real, dt: real)
    ensures var h := Heading(position, raw, maxSpeed, dt);
            && Follows(raw.x, position.x, h.x, maxSpeed, dt) && Follows(raw.y, position.y, h.y, maxSpeed, dt)
            && Follows(raw.z, position.z, h.z, maxSpeed, dt)
  {
    hide Follows, Ahead;
    FullSpeed(position.x, raw.x, maxSpeed, dt);
    FullSpeed(position.y, raw.y, maxSpeed, dt);
    FullSpeed(position.z, raw.z, maxSpeed, dt);
  }

  /** uavs[agent].get("measured_position", uavs[agent].get("position", [0, 0, 0])) */
  function AgentPosition(u: Uav): Vec {
    if u.measured.Some? then u.measured.value
    else if u.position.Some? then u.position.value
    else Vec(0.0, 0.0, 0.0)
  }

  function Wished(uavs: map<Entity, Uav>, agents: set<Entity>, raw: map<Entity, Vec>, maxSpeed: real, dt: real): map<Entity, Vec> {
    map a | a in agents && a in uavs ::
      Heading(AgentPosition(uavs[a]), if a in raw then raw[a] else Vec(0.0, 0.0, 0.0), maxSpeed, dt)
  }

  /** An agent wishes to go where its action points from its measured position, or else its position; without an action
      it wishes to stay. */
  lemma WishesFollow(uavs: map<Entity, Uav>, agents: set<Entity>, raw: map<Entity, Vec>, maxSpeed: real, dt: real, a: Entity, at: Vec)
    requires a in agents && a in uavs
    requires uavs[a].measured == Some(at) || (uavs[a].measured == None && uavs[a].position == Some(at))
    ensures var wished := Wished(uavs, agents, raw, maxSpeed, dt);
            && a in wished
            && (a !in raw ==> wished[a] == at)
            && (a in raw ==> Follows(raw[a].x, at.x, wished[a].x, maxSpeed, dt) && Follows(raw[a].y, at.y, wished[a].y, maxSpeed, dt)
                             && Follows(raw[a].z, at.z, wished[a].z, maxSpeed, dt))
  {
    hide Follows, Heading;
    HeadingFollows(at, if a in raw then raw[a] else Vec(0.0, 0.0, 0.0), maxSpeed, dt);
    StandsStill(at, maxSpeed, dt);
  }

  lemma StandsStill(at: Vec, maxSpeed: real, dt: real)
    ensures Heading(at, Vec(0.0, 0.0, 0.0), maxSpeed, dt) == at
  {
    assert 0.0 * maxSpeed * dt == 0.0;
  }

  class NetlabParallelEnv {
    const sqrt: real -> real
    const feasible: LinkModel
    const config: Config
    const maxSteps: nat
    var uavs: map<Entity, Uav>
    var agents: set<Entity>
    var stepCount: nat

    /** Agents name UAVs of the snapshot. */
    ghost predicate Valid()
      reads this
    {
      agents <= uavs.Keys && IsSqrt(sqrt)
    }

    /** `__init__` followed by `reset`: the active UAVs become agents. */
    constructor (sqrt: real -> real, feasible: LinkModel, config: Config, maxSteps: nat, uavs: map<Entity, Uav>)
      requires IsSqrt(sqrt)
      ensures Valid() && this.uavs == uavs && this.config == config && this.feasible == feasible && this.sqrt == sqrt
      ensures stepCount == 0 && forall a :: a in agents <==> a in uavs && uavs[a].active
    {
      this.sqrt, this.feasible, this.config, this.maxSteps := sqrt, feasible, config, maxSteps;
      this.uavs, stepCount := uavs, 0;
      agents := set a | a in uavs && uavs[a].active;
    }

    /** `step`: valid says whether the action built here passes its own validation; it does not when the snapshot is stale. */
    method Step(actions: map<Entity, Vec>, dt: real, valid: bool) returns (accepted: bool)
      requires Valid()
      modifies this
      ensures Valid() && stepCount == old(stepCount) + 1
      ensures var action := Action(valid, ENU, Positions(Wished(old(uavs), old(agents), actions, config.maxSpeed, dt)));
              && uavs == Next(sqrt, feasible, config, old(uavs), action)
              && (accepted <==> Accepts(sqrt, feasible, true, config, old(uavs), action))
      ensures agents == if stepCount >= maxSteps then {} else old(agents)
      ensures old(Safe(feasible, config, uavs)) ==> Safe(feasible, config, uavs)
    {
      stepCount := stepCount + 1;
      var action := Action(valid, ENU, Positions(Wished(uavs, agents, actions, config.maxSpeed, dt)));
      if Safe(feasible, config, uavs) {
        TickKeepsSafe(sqrt, feasible, config, uavs, action);
      }
      var shield := ApplySafetyShield(sqrt, feasible, true, config, uavs, action);
      uavs := Moved(uavs, Accepted(shield.output));
      accepted := shield.accepted;
      if stepCount >= maxSteps {
        agents := {};
      }
    }
  }
}
