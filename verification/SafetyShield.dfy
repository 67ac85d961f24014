/** netlab/safety_shield.py: which actions pass, what they become, and what replaces the others. */
module SafetyShield {
  import opened Options
  import opened Geometry

  datatype Entity = Entity(name: string)

  datatype Frame = ENU | NED | ECEF | WGS84 | IsaacStage

  /** A snapshot entry of one UAV; a position field that is missing or unusable is None. */
  datatype Uav = Uav(active: bool, failed: bool, soc: real, measured: Option<Vec>, simulated: Option<Vec>,
                     position: Option<Vec>, commanded: Option<Vec>, desired: Option<Vec>)

  /** The field desired_positions of the payload: missing, not a map of finite triples, or such a map. */
  datatype Desired = Absent | Malformed | Positions(targets: map<Entity, Vec>)

  /** valid stands for an empty result of AlgorithmAction.validate. */
  datatype Action = Action(valid: bool, frame: Frame, desired: Desired)

  datatype Config = Config(geofence: bool, centerX: real, centerY: real, length: real, width: real,
                           minAltitude: real, maxAltitude: real, updateRate: real, maxSpeed: real, maxVertical: real,
                           minimumSeparation: real, reserve: real, edges: seq<(Entity, Entity)>,
                           station: Entity, stationPosition: Vec, stationActive: bool, stationFailed: bool)

  /** One end of a link, as the feasibility test sees it. */
  datatype End = End(id: Entity, position: Vec, active: bool, failed: bool)

  /** The analytical link model with its thresholds: whether a link is feasible. */
  type LinkModel = (End, End) -> bool

  datatype Issue =
    | ActionInvalid
    | OutputRejected
    | UnknownEntity(id: Entity)
    | InactiveOrFailed(id: Entity)
    | CoordinateFrame(id: Entity)
    | GeofenceProjected(id: Entity)
    | AltitudeProjected(id: Entity)
    | MotionProjected(id: Entity)
    | MinimumSeparation(pair: set<Entity>)
    | BatteryReserve(id: Entity)
    | CommunicationFeasibility

  /** The severity "ERROR"; the projections are warnings. */
  predicate IsError(i: Issue) {
    !i.GeofenceProjected? && !i.AltitudeProjected? && !i.MotionProjected?
  }

  /** The action handed on: an empty dictionary, or a frame with its desired positions. */
  datatype Output = NoAction | Command(frame: Frame, positions: Option<map<Entity, Vec>>, fallback: bool)

  datatype Decision = Decision(accepted: bool, output: Output, issues: seq<Issue>, projected: bool, fallbackApplied: bool)

  // ---------------------------------------------------------------- small helpers of the module

  predicate Flying(u: Uav) {
    u.active && !u.failed
  }

  /** `_current_position` */
  function CurrentPosition(u: Uav): Vec {
    if u.measured.Some? then u.measured.value
    else if u.simulated.Some? then u.simulated.value
    else if u.position.Some? then u.position.value
    else if u.commanded.Some? then u.commanded.value
    else if u.desired.Some? then u.desired.value
    else Vec(0.0, 0.0, 0.0)
  }

  /** The first field that is usable counts, in this order. */
  lemma FirstUsableCounts(u: Uav)
    ensures var fields := [u.measured, u.simulated, u.position, u.commanded, u.desired];
            && (forall k :: 0 <= k < 5 && fields[k].Some? && (forall j :: 0 <= j < k ==> fields[j].None?) ==>
                  CurrentPosition(u) == fields[k].value)
            && ((forall k :: 0 <= k < 5 ==> fields[k].None?) ==> CurrentPosition(u) == Vec(0.0, 0.0, 0.0))
  {
    var fields := [u.measured, u.simulated, u.position, u.commanded, u.desired];
    assert fields[0] == u.measured && fields[1] == u.simulated && fields[2] == u.position && fields[3] == u.commanded;
    assert fields[4] == u.desired;
  }

  /** `_enu`; None stands for the error. */
  function Enu(v: Vec, frame: Frame): Option<Vec> {
    match frame
    case ENU => Some(v)
    case IsaacStage => Some(v)
    case NED => Some(Vec(v.y, v.x, -v.z))
    case ECEF => None
    case WGS84 => None
  }

  datatype Bounds = Bounds(minX: real, maxX: real, minY: real, maxY: real, minAlt: real, maxAlt: real)

  /** `_service_bounds` */
  function ServiceBounds(c: Config): Bounds {
    var length, width := Max(1.0, c.length), Max(1.0, c.width);
    Bounds(c.centerX - length / 2.0, c.centerX + length / 2.0, c.centerY - width / 2.0, c.centerY + width / 2.0,
           c.minAltitude, c.maxAltitude)
  }

  function UpdateRate(c: Config): real {
    Max(0.1, c.updateRate)
  }

  function MaxDistance(c: Config): real {
    Max(0.01, c.maxSpeed) / UpdateRate(c)
  }

  function MaxVerticalStep(c: Config): real {
    Max(0.01, c.maxVertical) / UpdateRate(c)
  }

  function RequiredSeparation(c: Config): real {
    Max(0.0, c.minimumSeparation)
  }

  lemma LimitsPositive(c: Config)
    ensures MaxDistance(c) > 0.0 && MaxVerticalStep(c) > 0.0
  {
    Quotient(Max(0.01, c.maxSpeed), UpdateRate(c));
    Quotient(Max(0.01, c.maxVertical), UpdateRate(c));
  }

  lemma Quotient(a: real, b: real)
    requires a > 0.0 && b > 0.0
    ensures a / b > 0.0
  {
  }

  // ---------------------------------------------------------------- projection of one target

  /** The target clipped to the service region, or to its altitudes only. */
  function Corrected(c: Config, target: Vec): Vec {
    var b := ServiceBounds(c);
    if c.geofence then
      Vec(Clamp(target.x, b.minX, b.maxX), Clamp(target.y, b.minY, b.maxY), Clamp(target.z, b.minAlt, b.maxAlt))
    else target.(z := Clamp(target.z, b.minAlt, b.maxAlt))
  }

  function Stepped(sqrt: real -> real, c: Config, current: Vec, corrected: Vec): Vec {
    LimitVertical(current, ProjectStep(sqrt, current, corrected, MaxDistance(c)), MaxVerticalStep(c))
  }

  /** A target is left alone exactly when it lies inside the bounds; with altitudes the wrong way round, only the lower
      one is. */
  lemma CorrectedKeeps(c: Config, target: Vec)
    ensures var b := ServiceBounds(c);
            Corrected(c, target) == target <==>
              && (c.geofence ==> b.minX <= target.x <= b.maxX && b.minY <= target.y <= b.maxY)
              && (b.minAlt <= target.z <= b.maxAlt || (b.maxAlt < b.minAlt && target.z == b.minAlt))
  {
    var b := ServiceBounds(c);
    ClampInside(target.x, b.minX, b.maxX);
    ClampInside(target.y, b.minY, b.maxY);
    if b.minAlt <= b.maxAlt { ClampInside(target.z, b.minAlt, b.maxAlt); }
  }

  /** A target is reached in one step exactly when it is within the motion limits (or the tolerance). */
  lemma SteppedKeeps(sqrt: real -> real, c: Config, current: Vec, target: Vec)
    requires IsSqrt(sqrt)
    ensures Stepped(sqrt, c, current, target) == target <==>
              && Dist(sqrt, target, current) <= Max(MaxDistance(c), TINY)
              && Abs(target.z - current.z) <= MaxVerticalStep(c)
  {
    LimitsPositive(c);
    var step := ProjectStep(sqrt, current, target, MaxDistance(c));
    StepLength(sqrt, current, target, MaxDistance(c));
    VerticalLimit(sqrt, current, step, MaxVerticalStep(c));
  }

  /** The number x, moved into the interval of the given length around the centre, a length below 1 counting as 1. */
  predicate Centred(x: real, centre: real, length: real, y: real) {
    var half := if length < 1.0 then 0.5 else length / 2.0;
    if x < centre - half then y == centre - half else if x > centre + half then y == centre + half else y == x
  }

  /** Where a target is clipped to: the nearest point of the service region, or of its altitudes. */
  lemma CorrectedIsNearest(c: Config, target: Vec)
    ensures var v := Corrected(c, target);
            && (c.geofence ==> Centred(target.x, c.centerX, c.length, v.x) && Centred(target.y, c.centerY, c.width, v.y))
            && (!c.geofence ==> v.x == target.x && v.y == target.y)
            && (c.minAltitude <= c.maxAltitude ==>
                  v.z == if target.z < c.minAltitude then c.minAltitude
                         else if target.z > c.maxAltitude then c.maxAltitude else target.z)
  {
  }

  /** The limits of one update are the speeds divided by the rate, where a speed below 0.01 and a rate below 0.1 count as
      that. */
  lemma LimitsPerUpdate(c: Config)
    ensures c.maxSpeed >= 0.01 && c.updateRate >= 0.1 ==> MaxDistance(c) == c.maxSpeed / c.updateRate
    ensures c.maxVertical >= 0.01 && c.updateRate >= 0.1 ==> MaxVerticalStep(c) == c.maxVertical / c.updateRate
    ensures c.maxSpeed < 0.01 ==> MaxDistance(c) == MaxDistance(c.(maxSpeed := 0.01))
    ensures c.maxVertical < 0.01 ==> MaxVerticalStep(c) == MaxVerticalStep(c.(maxVertical := 0.01))
    ensures c.updateRate < 0.1 ==> MaxDistance(c) == MaxDistance(c.(updateRate := 0.1))
    ensures c.updateRate < 0.1 ==> MaxVerticalStep(c) == MaxVerticalStep(c.(updateRate := 0.1))
  {
  }

  /** In numbers: a target is reached in one update exactly when it is no farther than the speed allows, or within the
      tolerance, and no higher or lower than the vertical speed allows. */
  lemma ReachedWithinLimits(sqrt: real -> real, c: Config, current: Vec, target: Vec)
    requires IsSqrt(sqrt) && c.maxSpeed >= 0.01 && c.maxVertical >= 0.01 && c.updateRate >= 0.1
    ensures Stepped(sqrt, c, current, target) == target <==>
              && (Near(target, current, c.maxSpeed / c.updateRate) || Near(target, current, 0.000000000001))
              && -(c.maxVertical / c.updateRate) <= target.z - current.z <= c.maxVertical / c.updateRate
  {
    hide Stepped, Near;
    LimitsPerUpdate(c);
    SteppedKeeps(sqrt, c, current, target);
    DistDecides(sqrt, target, current, MaxDistance(c));
    DistDecides(sqrt, target, current, TINY);
  }

  /** What is raised for the target of a known UAV. */
  ghost predicate TargetIssue(sqrt: real -> real, c: Config, u: Uav, id: Entity, target: Vec, frame: Frame, i: Issue) {
    if !Flying(u) then i == InactiveOrFailed(id)
    else if Enu(target, frame) == None then i == CoordinateFrame(id)
    else
      var raw := Enu(target, frame).value;
      var corrected := Corrected(c, raw);
      || (i == GeofenceProjected(id) && c.geofence && corrected != raw)
      || (i == AltitudeProjected(id) && !c.geofence && corrected != raw)
      || (i == MotionProjected(id) && Dist(sqrt, Stepped(sqrt, c, CurrentPosition(u), corrected), corrected) > 0.000000001)
  }

  predicate Commanded(uavs: map<Entity, Uav>, targets: map<Entity, Vec>, frame: Frame, id: Entity) {
    id in targets && id in uavs && Flying(uavs[id]) && Enu(targets[id], frame).Some?
  }

  /** The positions commanded to those of ids that can be commanded. */
  function Normalized(sqrt: real -> real, c: Config, uavs: map<Entity, Uav>, targets: map<Entity, Vec>, frame: Frame,
                      ids: set<Entity>): map<Entity, Vec> {
    map id | id in ids && Commanded(uavs, targets, frame, id) ::
      Stepped(sqrt, c, CurrentPosition(uavs[id]), Corrected(c, Enu(targets[id], frame).value))
  }

  ghost predicate Warned(issues: seq<Issue>) {
    exists i :: i in issues && !IsError(i)
  }

  /** Clipping to the service region or its altitudes. */
  method ClipTarget(c: Config, id: Entity, target: Vec) returns (corrected: Vec, issues: seq<Issue>)
    ensures corrected == Corrected(c, target)
    ensures issues == if corrected == target then [] else [if c.geofence then GeofenceProjected(id) else AltitudeProjected(id)]
  {
    corrected, issues := target, [];
    var b := ServiceBounds(c);
    if c.geofence {
      var clipped := Vec(Clamp(corrected.x, b.minX, b.maxX), Clamp(corrected.y, b.minY, b.maxY),
                         Clamp(corrected.z, b.minAlt, b.maxAlt));
      if clipped != corrected {
        issues := [GeofenceProjected(id)];
        corrected := clipped;
      }
    } else {
      var clippedAltitude := Clamp(corrected.z, b.minAlt, b.maxAlt);
      if clippedAltitude != corrected.z {
        issues := [AltitudeProjected(id)];
        corrected := corrected.(z := clippedAltitude);
      }
    }
  }

  /** The motion limits. */
  method LimitMotion(sqrt: real -> real, c: Config, id: Entity, current: Vec, corrected: Vec)
    returns (stepped: Vec, issues: seq<Issue>)
    ensures stepped == Stepped(sqrt, c, current, corrected)
    ensures issues == if Dist(sqrt, stepped, corrected) > 0.000000001 then [MotionProjected(id)] else []
  {
    stepped := ProjectStep(sqrt, current, corrected, MaxDistance(c));
    var verticalDelta := stepped.z - current.z;
    var maxVerticalStep := MaxVerticalStep(c);
    if Abs(verticalDelta) > maxVerticalStep {
      stepped := stepped.(z := current.z + (if verticalDelta < 0.0 then -maxVerticalStep else maxVerticalStep));
    }
    issues := if Dist(sqrt, stepped, corrected) > 0.000000001 then [MotionProjected(id)] else [];
  }

  /** One round of the loop over the desired positions. */
  method ProjectTarget(sqrt: real -> real, c: Config, u: Uav, id: Entity, target: Vec, frame: Frame)
    returns (stepped: Option<Vec>, issues: seq<Issue>, projected: bool)
    ensures forall i :: i in issues <==> TargetIssue(sqrt, c, u, id, target, frame, i)
    ensures stepped.Some? <==> Flying(u) && Enu(target, frame).Some?
    ensures stepped.Some? ==> stepped.value == Stepped(sqrt, c, CurrentPosition(u), Corrected(c, Enu(target, frame).value))
    ensures projected <==> Warned(issues)
  {
    if !u.active || u.failed {
      return None, [InactiveOrFailed(id)], false;
    }
    var targetEnu := Enu(target, frame);
    if targetEnu.None? {
      return None, [CoordinateFrame(id)], false;
    }
    var corrected, clips := ClipTarget(c, id, targetEnu.value);
    var step, limits := LimitMotion(sqrt, c, id, CurrentPosition(u), corrected);
    stepped, issues, projected := Some(step), clips + limits, clips != [] || limits != [];
    assert projected ==> issues[0] in issues && !IsError(issues[0]);
  }

  ghost predicate ProjectionIssue(sqrt: real -> real, c: Config, uavs: map<Entity, Uav>, targets: map<Entity, Vec>,
                                  frame: Frame, ids: set<Entity>, i: Issue) {
    exists id :: id in ids && id in targets && id in uavs && TargetIssue(sqrt, c, uavs[id], id, targets[id], frame, i)
  }

  /** The command differs from the target: it was clipped, or falls short of the clipped target. */
  predicate Altered(sqrt: real -> real, c: Config, uavs: map<Entity, Uav>, targets: map<Entity, Vec>, frame: Frame, id: Entity) {
    Commanded(uavs, targets, frame, id)
    && var raw := Enu(targets[id], frame).value;
    var corrected := Corrected(c, raw);
    corrected != raw || Dist(sqrt, Stepped(sqrt, c, CurrentPosition(uavs[id]), corrected), corrected) > 0.000000001
  }

  /** A warning is raised exactly when some command was altered. */
  lemma WarnedIffAltered(sqrt: real -> real, c: Config, uavs: map<Entity, Uav>, targets: map<Entity, Vec>, frame: Frame,
                         issues: seq<Issue>)
    requires forall i :: i in issues <==> ProjectionIssue(sqrt, c, uavs, targets, frame, targets.Keys * uavs.Keys, i)
    ensures Warned(issues) <==> exists id :: Altered(sqrt, c, uavs, targets, frame, id)
  {
    if Warned(issues) {
      var i :| i in issues && !IsError(i);
      var id :| id in targets && id in uavs && TargetIssue(sqrt, c, uavs[id], id, targets[id], frame, i);
      assert Altered(sqrt, c, uavs, targets, frame, id);
    }
    if id :| Altered(sqrt, c, uavs, targets, frame, id) {
      var raw := Enu(targets[id], frame).value;
      var i := if Corrected(c, raw) == raw then MotionProjected(id)
               else if c.geofence then GeofenceProjected(id) else AltitudeProjected(id);
      assert TargetIssue(sqrt, c, uavs[id], id, targets[id], frame, i);
      assert i in issues;
    }
  }

  /** The loop over the desired positions of known UAVs. */
  method ProjectTargets(sqrt: real -> real, c: Config, uavs: map<Entity, Uav>, targets: map<Entity, Vec>, frame: Frame)
    returns (normalized: map<Entity, Vec>, issues: seq<Issue>, projected: bool)
    ensures normalized == Normalized(sqrt, c, uavs, targets, frame, targets.Keys * uavs.Keys)
    ensures forall i :: i in issues <==> ProjectionIssue(sqrt, c, uavs, targets, frame, targets.Keys * uavs.Keys, i)
    ensures projected <==> Warned(issues)
  {
    normalized, issues, projected := map[], [], false;
    var todo := targets.Keys * uavs.Keys;
    ghost var all, done: set<Entity> := todo, {};
    while todo != {}
      invariant todo + done == all
      invariant normalized == Normalized(sqrt, c, uavs, targets, frame, done)
      invariant forall i :: i in issues <==> ProjectionIssue(sqrt, c, uavs, targets, frame, done, i)
      invariant projected <==> Warned(issues)
    {
      var id :| id in todo;
      todo := todo - {id};
      var stepped, more, moved := ProjectTarget(sqrt, c, uavs[id], id, targets[id], frame);
      NormalizedMore(sqrt, c, uavs, targets, frame, done, id);
      forall i ensures ProjectionIssue(sqrt, c, uavs, targets, frame, done + {id}, i) <==> i in issues + more {
        ProjectionMore(sqrt, c, uavs, targets, frame, done, id, i);
      }
      if stepped.Some? {
        normalized := normalized[id := stepped.value];
      }
      WarningMore(issues, more);
      issues, projected := issues + more, projected || moved;
      done := done + {id};
    }
  }

  lemma WarningMore(issues: seq<Issue>, more: seq<Issue>)
    ensures Warned(issues + more) <==> Warned(issues) || Warned(more)
  {
    if i :| i in issues && !IsError(i) { assert i in issues + more; }
    if i :| i in more && !IsError(i) { assert i in issues + more; }
  }

  lemma NormalizedMore(sqrt: real -> real, c: Config, uavs: map<Entity, Uav>, targets: map<Entity, Vec>, frame: Frame,
                       done: set<Entity>, id: Entity)
    requires id in targets && id in uavs
    ensures var before, after := Normalized(sqrt, c, uavs, targets, frame, done), Normalized(sqrt, c, uavs, targets, frame, done + {id});
            if Commanded(uavs, targets, frame, id) then
              after == before[id := Stepped(sqrt, c, CurrentPosition(uavs[id]), Corrected(c, Enu(targets[id], frame).value))]
            else after == before
  {
  }

  lemma ProjectionMore(sqrt: real -> real, c: Config, uavs: map<Entity, Uav>, targets: map<Entity, Vec>, frame: Frame,
                       done: set<Entity>, id: Entity, i: Issue)
    requires id in targets && id in uavs
    ensures ProjectionIssue(sqrt, c, uavs, targets, frame, done + {id}, i)
       <==> ProjectionIssue(sqrt, c, uavs, targets, frame, done, i) || TargetIssue(sqrt, c, uavs[id], id, targets[id], frame, i)
  {
  }

  // ---------------------------------------------------------------- the whole swarm

  /** The commanded positions, and the current ones of flying UAVs that are not commanded. */
  function Complete(uavs: map<Entity, Uav>, normalized: map<Entity, Vec>): map<Entity, Vec> {
    map id | id in uavs && Flying(uavs[id]) :: if id in normalized then normalized[id] else CurrentPosition(uavs[id])
  }

  /** `_fallback_positions` */
  function FallbackPositions(uavs: map<Entity, Uav>): map<Entity, Vec> {
    map id | id in uavs && Flying(uavs[id]) :: CurrentPosition(uavs[id])
  }

  /** Two positions violate the minimum separation. */
  predicate TooClose(sqrt: real -> real, c: Config, a: Vec, b: Vec) {
    Dist(sqrt, a, b) + 0.000000001 < RequiredSeparation(c)
  }

  /** In numbers: two positions are too close exactly when they are not the minimum separation apart, but for the
      tolerance. */
  lemma TooCloseIs(sqrt: real -> real, c: Config, a: Vec, b: Vec)
    requires IsSqrt(sqrt)
    ensures TooClose(sqrt, c, a, b) <==> !Apart(a, b, c.minimumSeparation - 0.000000001)
  {
    hide Apart;
    DistDecides(sqrt, a, b, c.minimumSeparation - 0.000000001);
    assert Dist(sqrt, a, b) >= 0.0;
  }

  ghost predicate SeparationIssue(sqrt: real -> real, c: Config, positions: map<Entity, Vec>, i: Issue) {
    exists a, b :: a in positions && b in positions && a != b && i == MinimumSeparation({a, b})
                   && TooClose(sqrt, c, positions[a], positions[b])
  }

  lemma DistanceSymmetric(sqrt: real -> real, a: Vec, b: Vec)
    ensures Dist(sqrt, a, b) == Dist(sqrt, b, a)
  {
    SquareOfDifference(a.x, b.x);
    SquareOfDifference(a.y, b.y);
    SquareOfDifference(a.z, b.z);
  }

  lemma SquareOfDifference(a: real, b: real)
    ensures Square(a - b) == Square(b - a)
  {
  }

  /** The pairs of one entity with those not yet paired. */
  ghost predicate PairIssue(sqrt: real -> real, c: Config, positions: map<Entity, Vec>, first: Entity, others: set<Entity>, i: Issue)
    requires first in positions && others <= positions.Keys
  {
    exists b :: b in others && i == MinimumSeparation({first, b}) && TooClose(sqrt, c, positions[first], positions[b])
  }

  method PairsOf(sqrt: real -> real, c: Config, positions: map<Entity, Vec>, first: Entity, others: set<Entity>)
    returns (issues: seq<Issue>)
    requires first in positions && others <= positions.Keys
    ensures forall i :: i in issues <==> PairIssue(sqrt, c, positions, first, others, i)
  {
    issues := [];
    var todo := others;
    ghost var done: set<Entity> := {};
    while todo != {}
      invariant todo + done == others
      invariant forall i :: i in issues <==> PairIssue(sqrt, c, positions, first, done, i)
    {
      var second :| second in todo;
      todo := todo - {second};
      if TooClose(sqrt, c, positions[first], positions[second]) {
        issues := issues + [MinimumSeparation({first, second})];
      }
      done := done + {second};
    }
  }

  /** Every unordered pair is compared once. */
  ghost predicate ComparedIssue(sqrt: real -> real, c: Config, positions: map<Entity, Vec>, rest: set<Entity>, i: Issue) {
    exists a, b :: a in positions && b in positions && a != b && (a !in rest || b !in rest)
                   && i == MinimumSeparation({a, b}) && TooClose(sqrt, c, positions[a], positions[b])
  }

  lemma OneMoreCompared(sqrt: real -> real, c: Config, positions: map<Entity, Vec>, rest: set<Entity>, first: Entity, i: Issue)
    requires first in rest && rest <= positions.Keys
    ensures ComparedIssue(sqrt, c, positions, rest - {first}, i)
       <==> ComparedIssue(sqrt, c, positions, rest, i) || PairIssue(sqrt, c, positions, first, rest - {first}, i)
  {
    if ComparedIssue(sqrt, c, positions, rest - {first}, i) && !ComparedIssue(sqrt, c, positions, rest, i) {
      var a, b :| a in positions && b in positions && a != b && (a !in rest - {first} || b !in rest - {first})
                  && i == MinimumSeparation({a, b}) && TooClose(sqrt, c, positions[a], positions[b]);
      DistanceSymmetric(sqrt, positions[a], positions[b]);
      var other := if a == first then b else a;
      assert {a, b} == {first, other};
      assert other in rest - {first} && TooClose(sqrt, c, positions[first], positions[other]);
    }
    if PairIssue(sqrt, c, positions, first, rest - {first}, i) {
      var b :| b in rest - {first} && i == MinimumSeparation({first, b}) && TooClose(sqrt, c, positions[first], positions[b]);
      assert first !in rest - {first};
    }
  }

  /** The two nested loops over the sorted names. */
  method CheckSeparation(sqrt: real -> real, c: Config, positions: map<Entity, Vec>) returns (issues: seq<Issue>)
    ensures forall i :: i in issues <==> SeparationIssue(sqrt, c, positions, i)
    ensures IsSqrt(sqrt) ==>
              forall a, b :: a in positions && b in positions && a != b ==>
                (MinimumSeparation({a, b}) in issues <==> !Apart(positions[a], positions[b], c.minimumSeparation - 0.000000001))
  {
    issues := [];
    var rest := positions.Keys;
    while rest != {}
      invariant rest <= positions.Keys
      invariant forall i :: i in issues <==> ComparedIssue(sqrt, c, positions, rest, i)
    {
      var first :| first in rest;
      var more := PairsOf(sqrt, c, positions, first, rest - {first});
      forall i ensures i in issues + more <==> ComparedIssue(sqrt, c, positions, rest - {first}, i) {
        OneMoreCompared(sqrt, c, positions, rest, first, i);
      }
      rest := rest - {first};
      issues := issues + more;
    }
    if IsSqrt(sqrt) {
      forall a, b | a in positions && b in positions && a != b
        ensures MinimumSeparation({a, b}) in issues <==> !Apart(positions[a], positions[b], c.minimumSeparation - 0.000000001)
      {
        PairRaised(sqrt, c, positions, a, b);
      }
    }
  }

  lemma PairRaised(sqrt: real -> real, c: Config, positions: map<Entity, Vec>, a: Entity, b: Entity)
    requires IsSqrt(sqrt) && a in positions && b in positions && a != b
    ensures SeparationIssue(sqrt, c, positions, MinimumSeparation({a, b}))
       <==> !Apart(positions[a], positions[b], c.minimumSeparation - 0.000000001)
  {
    TooCloseIs(sqrt, c, positions[a], positions[b]);
    DistanceSymmetric(sqrt, positions[a], positions[b]);
    if SeparationIssue(sqrt, c, positions, MinimumSeparation({a, b})) {
      var x, y :| x in positions && y in positions && x != y && MinimumSeparation({a, b}) == MinimumSeparation({x, y})
                  && TooClose(sqrt, c, positions[x], positions[y]);
      assert x in {a, b} && y in {a, b};
    }
  }

  method CheckBattery(c: Config, uavs: map<Entity, Uav>, normalized: map<Entity, Vec>) returns (issues: seq<Issue>)
    requires normalized.Keys <= uavs.Keys
    ensures forall i :: i in issues <==> i.BatteryReserve? && i.id in normalized && uavs[i.id].soc <= c.reserve
  {
    issues := [];
    var todo := normalized.Keys;
    while todo != {}
      invariant todo <= normalized.Keys
      invariant forall i :: i in issues <==>
                  i.BatteryReserve? && i.id in normalized && i.id !in todo && uavs[i.id].soc <= c.reserve
    {
      var id :| id in todo;
      todo := todo - {id};
      if uavs[id].soc <= c.reserve {
        issues := issues + [BatteryReserve(id)];
      }
    }
  }

  method CheckKnown(uavs: map<Entity, Uav>, targets: map<Entity, Vec>) returns (issues: seq<Issue>)
    ensures forall i :: i in issues <==> i.UnknownEntity? && i.id in targets && i.id !in uavs
  {
    issues := [];
    var todo := targets.Keys - uavs.Keys;
    while todo != {}
      invariant todo <= targets.Keys - uavs.Keys
      invariant forall i :: i in issues <==> i.UnknownEntity? && i.id in targets && i.id !in uavs && i.id !in todo
    {
      var id :| id in todo;
      todo := todo - {id};
      issues := issues + [UnknownEntity(id)];
    }
  }

  // ---------------------------------------------------------------- links

  /** {station_id: station_position, **positions} */
  function EntityPositions(c: Config, positions: map<Entity, Vec>): map<Entity, Vec> {
    map[c.station := c.stationPosition] + positions
  }

  /** What the link test is told about one end. */
  function LinkEnd(c: Config, uavs: map<Entity, Uav>, id: Entity, position: Vec): End {
    if id == c.station then End(id, position, c.stationActive, c.stationFailed)
    else if id in uavs then End(id, position, uavs[id].active, uavs[id].failed)
    else End(id, position, true, false)
  }

  /** One required hop: both ends have a position and the link between them is feasible. */
  predicate HopFeasible(feasible: LinkModel, c: Config, uavs: map<Entity, Uav>, positions: map<Entity, Vec>, edge: (Entity, Entity)) {
    var at := EntityPositions(c, positions);
    && edge.0 in at && edge.1 in at
    && feasible(LinkEnd(c, uavs, edge.0, at[edge.0]), LinkEnd(c, uavs, edge.1, at[edge.1]))
  }

  /** `_connectivity_preview`: a verdict for every required hop, and whether all hold. */
  method ConnectivityPreview(feasible: LinkModel, c: Config, uavs: map<Entity, Uav>, positions: map<Entity, Vec>)
    returns (preview: seq<bool>, allFeasible: bool)
    ensures |preview| == |c.edges|
    ensures forall k :: 0 <= k < |c.edges| ==> preview[k] == HopFeasible(feasible, c, uavs, positions, c.edges[k])
    ensures allFeasible <==> forall k :: 0 <= k < |preview| ==> preview[k]
  {
    preview, allFeasible := [], true;
    var at := EntityPositions(c, positions);
    for k := 0 to |c.edges|
      invariant |preview| == k
      invariant forall j :: 0 <= j < k ==> preview[j] == HopFeasible(feasible, c, uavs, positions, c.edges[j])
      invariant allFeasible <==> forall j :: 0 <= j < k ==> preview[j]
    {
      var (src, dst) := c.edges[k];
      if src !in at || dst !in at {
        preview, allFeasible := preview + [false], false;
        continue;
      }
      var ok := feasible(LinkEnd(c, uavs, src, at[src]), LinkEnd(c, uavs, dst, at[dst]));
      preview, allFeasible := preview + [ok], allFeasible && ok;
    }
  }

  // ---------------------------------------------------------------- the decision

  /** No two positions are closer than the minimum separation allows. */
  ghost predicate Separated(sqrt: real -> real, c: Config, positions: map<Entity, Vec>) {
    forall a, b :: a in positions && b in positions && a != b ==> !TooClose(sqrt, c, positions[a], positions[b])
  }

  /** Every required hop is feasible. */
  ghost predicate Connected(feasible: LinkModel, c: Config, uavs: map<Entity, Uav>, positions: map<Entity, Vec>) {
    forall k :: 0 <= k < |c.edges| ==> HopFeasible(feasible, c, uavs, positions, c.edges[k])
  }

  /** Every target can be commanded: known, flying and in a frame that can be converted. */
  ghost predicate AllCommanded(uavs: map<Entity, Uav>, targets: map<Entity, Vec>, frame: Frame) {
    forall id :: id in targets ==> Commanded(uavs, targets, frame, id)
  }

  function Commands(sqrt: real -> real, c: Config, uavs: map<Entity, Uav>, action: Action): map<Entity, Vec>
    requires action.desired.Positions?
  {
    Normalized(sqrt, c, uavs, action.desired.targets, action.frame, action.desired.targets.Keys * uavs.Keys)
  }

  /** What an action with desired positions has to meet. */
  ghost predicate Acceptable(sqrt: real -> real, feasible: LinkModel, requireConnectivity: bool, c: Config,
                             uavs: map<Entity, Uav>, action: Action)
    requires action.desired.Positions?
  {
    var commands := Commands(sqrt, c, uavs, action);
    && AllCommanded(uavs, action.desired.targets, action.frame)
    && Separated(sqrt, c, Complete(uavs, commands))
    && (forall id :: id in commands ==> uavs[id].soc > c.reserve)
    && (requireConnectivity ==> Connected(feasible, c, uavs, Complete(uavs, commands)))
  }

  ghost predicate NoErrors(issues: seq<Issue>) {
    forall i :: i in issues ==> !IsError(i)
  }

  lemma NoErrorsMore(issues: seq<Issue>, more: seq<Issue>)
    ensures NoErrors(issues + more) <==> NoErrors(issues) && NoErrors(more)
  {
    if NoErrors(issues + more) {
      forall i | i in issues ensures !IsError(i) { assert i in issues + more; }
      forall i | i in more ensures !IsError(i) { assert i in issues + more; }
    }
  }

  /** The errors among the projections are the targets that cannot be commanded. */
  lemma ProjectionErrors(sqrt: real -> real, c: Config, uavs: map<Entity, Uav>, targets: map<Entity, Vec>, frame: Frame,
                         unknown: seq<Issue>, issues: seq<Issue>)
    requires forall i :: i in unknown <==> i.UnknownEntity? && i.id in targets && i.id !in uavs
    requires forall i :: i in issues <==> ProjectionIssue(sqrt, c, uavs, targets, frame, targets.Keys * uavs.Keys, i)
    ensures NoErrors(unknown) && NoErrors(issues) <==> AllCommanded(uavs, targets, frame)
  {
    if AllCommanded(uavs, targets, frame) {
    } else {
      var id :| id in targets && !Commanded(uavs, targets, frame, id);
      if id !in uavs {
        assert UnknownEntity(id) in unknown;
      } else {
        var i := if Flying(uavs[id]) then CoordinateFrame(id) else InactiveOrFailed(id);
        assert TargetIssue(sqrt, c, uavs[id], id, targets[id], frame, i);
        assert i in issues;
      }
    }
  }

  lemma SeparationErrors(sqrt: real -> real, c: Config, positions: map<Entity, Vec>, issues: seq<Issue>)
    requires forall i :: i in issues <==> SeparationIssue(sqrt, c, positions, i)
    ensures NoErrors(issues) <==> Separated(sqrt, c, positions)
  {
    if !Separated(sqrt, c, positions) {
      var a, b :| a in positions && b in positions && a != b && TooClose(sqrt, c, positions[a], positions[b]);
      assert SeparationIssue(sqrt, c, positions, MinimumSeparation({a, b}));
      assert MinimumSeparation({a, b}) in issues;
    }
  }

  lemma BatteryErrors(c: Config, uavs: map<Entity, Uav>, normalized: map<Entity, Vec>, issues: seq<Issue>)
    requires normalized.Keys <= uavs.Keys
    requires forall i :: i in issues <==> i.BatteryReserve? && i.id in normalized && uavs[i.id].soc <= c.reserve
    ensures NoErrors(issues) <==> forall id :: id in normalized ==> uavs[id].soc > c.reserve
  {
    if id :| id in normalized && uavs[id].soc <= c.reserve {
      assert BatteryReserve(id) in issues;
    }
  }

  /** The checks on a map of desired positions. */
  method CheckPositions(sqrt: real -> real, feasible: LinkModel, requireConnectivity: bool, c: Config,
                        uavs: map<Entity, Uav>, action: Action)
    returns (normalized: map<Entity, Vec>, issues: seq<Issue>, projected: bool)
    requires action.desired.Positions?
    ensures normalized == Commands(sqrt, c, uavs, action)
    ensures NoErrors(issues) <==> Acceptable(sqrt, feasible, requireConnectivity, c, uavs, action)
    ensures projected <==> exists id :: Altered(sqrt, c, uavs, action.desired.targets, action.frame, id)
  {
    var targets := action.desired.targets;
    var unknown := CheckKnown(uavs, targets);
    var projections;
    normalized, projections, projected := ProjectTargets(sqrt, c, uavs, targets, action.frame);
    ProjectionErrors(sqrt, c, uavs, targets, action.frame, unknown, projections);
    WarnedIffAltered(sqrt, c, uavs, targets, action.frame, projections);
    var complete := Complete(uavs, normalized);
    var separation := CheckSeparation(sqrt, c, complete);
    SeparationErrors(sqrt, c, complete, separation);
    var battery := CheckBattery(c, uavs, normalized);
    BatteryErrors(c, uavs, normalized, battery);
    var preview, connectivityOk := ConnectivityPreview(feasible, c, uavs, complete);
    var links := if requireConnectivity && !connectivityOk then [CommunicationFeasibility] else [];
    assert connectivityOk <==> Connected(feasible, c, uavs, complete);
    NoErrorsMore(unknown, projections);
    NoErrorsMore(unknown + projections, separation);
    NoErrorsMore(unknown + projections + separation, battery);
    NoErrorsMore(unknown + projections + separation + battery, links);
    assert NoErrors(links) <==> (requireConnectivity ==> connectivityOk) by {
      assert links != [] ==> links[0] in links;
    }
    issues := unknown + projections + separation + battery + links;
  }

  /** What the shield hands on. */
  function Handed(sqrt: real -> real, c: Config, uavs: map<Entity, Uav>, action: Action, accepted: bool): Output {
    if !action.valid || action.desired.Malformed? then NoAction
    else if action.desired.Absent? then Command(action.frame, None, false)
    else if accepted then Command(ENU, Some(Commands(sqrt, c, uavs, action)), false)
    else Command(action.frame, Some(FallbackPositions(uavs)), true)
  }

  /** Which actions pass. */
  ghost predicate Accepts(sqrt: real -> real, feasible: LinkModel, requireConnectivity: bool, c: Config,
                          uavs: map<Entity, Uav>, action: Action) {
    && action.valid && !action.desired.Malformed?
    && (action.desired.Positions? ==> Acceptable(sqrt, feasible, requireConnectivity, c, uavs, action))
  }

  // ---------------------------------------------------------------- the frame of a fallback

  /** A hold position, which is an ENU position, is recovered when it is read in this frame. */
  predicate ReadsBack(position: Vec, frame: Frame) {
    frame == ENU || frame == IsaacStage || (frame == NED && position.x == position.y && position.z == 0.0)
  }

  lemma EnuKeeps(position: Vec, frame: Frame)
    ensures Enu(position, frame) == Some(position) <==> ReadsBack(position, frame)
  {
  }

  /** What is handed on for a rejected action is the present position of every flying UAV under that action's frame label:
      read in that frame, every position is the present one exactly when the frame is ENU or the stage's, or NED with every
      flying UAV on x == y, z == 0. */
  ghost predicate HoldsUnderLabel(uavs: map<Entity, Uav>, frame: Frame, out: Output) {
    && out.Command? && out.fallback && out.frame == frame && out.positions.Some?
    && (forall id :: id in out.positions.value <==> id in uavs && uavs[id].active && !uavs[id].failed)
    && ((forall id :: id in out.positions.value && id in uavs ==>
           Enu(out.positions.value[id], out.frame) == Some(CurrentPosition(uavs[id])))
        <==> forall id :: id in uavs && uavs[id].active && !uavs[id].failed ==> ReadsBack(CurrentPosition(uavs[id]), frame))
  }

  lemma FallbackReadBack(sqrt: real -> real, c: Config, uavs: map<Entity, Uav>, action: Action)
    requires action.valid && action.desired.Positions?
    ensures HoldsUnderLabel(uavs, action.frame, Handed(sqrt, c, uavs, action, false))
  {
    var positions := FallbackPositions(uavs);
    forall id | id in positions
      ensures Enu(positions[id], action.frame) == Some(CurrentPosition(uavs[id]))
         <==> ReadsBack(CurrentPosition(uavs[id]), action.frame)
    {
      EnuKeeps(positions[id], action.frame);
    }
  }

  // ---------------------------------------------------------------- the decision, field by field

  /** Where a UAV is once the commands are carried out. */
  ghost function Whereabouts(uavs: map<Entity, Uav>, commands: map<Entity, Vec>, id: Entity): Vec
    requires id in uavs
  {
    if id in commands then commands[id] else CurrentPosition(uavs[id])
  }

  /** Any two flying UAVs are the minimum separation apart, but for the tolerance. */
  ghost predicate FlyApart(c: Config, uavs: map<Entity, Uav>, commands: map<Entity, Vec>) {
    forall a, b :: a in uavs && b in uavs && a != b
                   && uavs[a].active && !uavs[a].failed && uavs[b].active && !uavs[b].failed ==>
      Apart(Whereabouts(uavs, commands, a), Whereabouts(uavs, commands, b), c.minimumSeparation - 0.000000001)
  }

  /** The end is a flying UAV, or the station; a UAV that bears the station's name stands in its place under its flags. */
  ghost predicate EndIs(c: Config, uavs: map<Entity, Uav>, commands: map<Entity, Vec>, id: Entity, e: End) {
    && e.id == id
    && (if id in uavs && uavs[id].active && !uavs[id].failed then e.position == Whereabouts(uavs, commands, id)
        else id == c.station && e.position == c.stationPosition)
    && (if id == c.station then e.active == c.stationActive && e.failed == c.stationFailed else e.active && !e.failed)
  }

  ghost predicate HopHolds(feasible: LinkModel, c: Config, uavs: map<Entity, Uav>, commands: map<Entity, Vec>, edge: (Entity, Entity)) {
    exists src, dst :: EndIs(c, uavs, commands, edge.0, src) && EndIs(c, uavs, commands, edge.1, dst) && feasible(src, dst)
  }

  /** The link of every required hop is feasible. */
  ghost predicate HopsHold(feasible: LinkModel, c: Config, uavs: map<Entity, Uav>, commands: map<Entity, Vec>) {
    forall k :: 0 <= k < |c.edges| ==> HopHolds(feasible, c, uavs, commands, c.edges[k])
  }

  /** What an action has to meet: it is well formed, targets flying UAVs with enough charge in a frame that can be
      converted, leaves the swarm separated and, if required, every hop feasible. */
  ghost predicate Meets(feasible: LinkModel, requireConnectivity: bool, c: Config, uavs: map<Entity, Uav>, action: Action,
                        commands: map<Entity, Vec>) {
    && action.valid && !action.desired.Malformed?
    && (action.desired.Positions? ==>
          && (forall id :: id in action.desired.targets ==>
                id in uavs && uavs[id].active && !uavs[id].failed && uavs[id].soc > c.reserve)
          && (action.desired.targets != map[] ==> action.frame == ENU || action.frame == NED || action.frame == IsaacStage)
          && FlyApart(c, uavs, commands) && (requireConnectivity ==> HopsHold(feasible, c, uavs, commands)))
  }

  lemma SeparatedIs(sqrt: real -> real, c: Config, uavs: map<Entity, Uav>, commands: map<Entity, Vec>)
    requires IsSqrt(sqrt)
    ensures Separated(sqrt, c, Complete(uavs, commands)) <==> FlyApart(c, uavs, commands)
  {
    hide Apart, TooClose;
    var at := Complete(uavs, commands);
    forall a, b | a in at && b in at
      ensures TooClose(sqrt, c, at[a], at[b]) <==> !Apart(at[a], at[b], c.minimumSeparation - 0.000000001)
    {
      TooCloseIs(sqrt, c, at[a], at[b]);
    }
    if Separated(sqrt, c, at) {
      forall a, b | a in uavs && b in uavs && a != b
                    && uavs[a].active && !uavs[a].failed && uavs[b].active && !uavs[b].failed
        ensures Apart(Whereabouts(uavs, commands, a), Whereabouts(uavs, commands, b), c.minimumSeparation - 0.000000001)
      {
        assert a in at && b in at && !TooClose(sqrt, c, at[a], at[b]);
      }
    }
    if FlyApart(c, uavs, commands) {
      forall a, b | a in at && b in at && a != b ensures !TooClose(sqrt, c, at[a], at[b]) {
        assert Apart(Whereabouts(uavs, commands, a), Whereabouts(uavs, commands, b), c.minimumSeparation - 0.000000001);
      }
    }
  }

  lemma HopIs(feasible: LinkModel, c: Config, uavs: map<Entity, Uav>, commands: map<Entity, Vec>, edge: (Entity, Entity))
    ensures HopFeasible(feasible, c, uavs, Complete(uavs, commands), edge) <==> HopHolds(feasible, c, uavs, commands, edge)
  {
    var at := EntityPositions(c, Complete(uavs, commands));
    if edge.0 in at && edge.1 in at {
      assert EndIs(c, uavs, commands, edge.0, LinkEnd(c, uavs, edge.0, at[edge.0]));
      assert EndIs(c, uavs, commands, edge.1, LinkEnd(c, uavs, edge.1, at[edge.1]));
    }
  }

  lemma ConnectedIs(feasible: LinkModel, c: Config, uavs: map<Entity, Uav>, commands: map<Entity, Vec>)
    ensures Connected(feasible, c, uavs, Complete(uavs, commands)) <==> HopsHold(feasible, c, uavs, commands)
  {
    hide HopFeasible, HopHolds;
    forall k | 0 <= k < |c.edges|
      ensures HopFeasible(feasible, c, uavs, Complete(uavs, commands), c.edges[k]) <==> HopHolds(feasible, c, uavs, commands, c.edges[k])
    {
      HopIs(feasible, c, uavs, commands, c.edges[k]);
    }
  }

  /** The commands of an action, if it has desired positions. */
  function CommandsOf(sqrt: real -> real, c: Config, uavs: map<Entity, Uav>, action: Action): map<Entity, Vec> {
    if action.desired.Positions? then Commands(sqrt, c, uavs, action) else map[]
  }

  /** Field by field: which actions pass. */
  lemma AcceptsIs(sqrt: real -> real, feasible: LinkModel, requireConnectivity: bool, c: Config, uavs: map<Entity, Uav>, action: Action)
    requires IsSqrt(sqrt)
    ensures Accepts(sqrt, feasible, requireConnectivity, c, uavs, action)
       <==> Meets(feasible, requireConnectivity, c, uavs, action, CommandsOf(sqrt, c, uavs, action))
  {
    hide Separated, FlyApart, Connected, HopsHold, Stepped, Corrected, Complete;
    if action.valid && action.desired.Positions? {
      var targets, commands := action.desired.targets, Commands(sqrt, c, uavs, action);
      SeparatedIs(sqrt, c, uavs, commands);
      ConnectedIs(feasible, c, uavs, commands);
      if AllCommanded(uavs, targets, action.frame) {
        assert forall id :: id in targets <==> id in commands;
      }
    }
  }

  lemma AllKeysCommanded(sqrt: real -> real, feasible: LinkModel, requireConnectivity: bool, c: Config,
                         uavs: map<Entity, Uav>, action: Action)
    requires action.desired.Positions? && Acceptable(sqrt, feasible, requireConnectivity, c, uavs, action)
    ensures Commands(sqrt, c, uavs, action).Keys == action.desired.targets.Keys
  {
    assert forall id :: id in action.desired.targets <==> id in Commands(sqrt, c, uavs, action);
  }

  /** `apply_safety_shield` */
  method ApplySafetyShield(sqrt: real -> real, feasible: LinkModel, requireConnectivity: bool, c: Config,
                           uavs: map<Entity, Uav>, action: Action)
    returns (decision: Decision)
    ensures decision.accepted <==> Accepts(sqrt, feasible, requireConnectivity, c, uavs, action)
    ensures decision.accepted <==> NoErrors(decision.issues)
    ensures IsSqrt(sqrt) ==>
              (decision.accepted <==> Meets(feasible, requireConnectivity, c, uavs, action, CommandsOf(sqrt, c, uavs, action)))
    ensures decision.accepted && action.desired.Positions? ==>
              && decision.output == Command(ENU, Some(Commands(sqrt, c, uavs, action)), false)
              && decision.output.positions.value.Keys == action.desired.targets.Keys
    ensures decision.output == Handed(sqrt, c, uavs, action, decision.accepted)
    ensures decision.fallbackApplied <==> !decision.accepted
    ensures !decision.accepted && action.valid && action.desired.Positions? ==>
              HoldsUnderLabel(uavs, action.frame, decision.output)
    ensures decision.projected <==>
              action.valid && action.desired.Positions? && exists id :: Altered(sqrt, c, uavs, action.desired.targets, action.frame, id)
  {
    hide FlyApart, HopsHold, Normalized, Altered, Acceptable, FallbackPositions, IsSqrt, HoldsUnderLabel;
    if IsSqrt(sqrt) {
      AcceptsIs(sqrt, feasible, requireConnectivity, c, uavs, action);
    }
    if !action.valid {
      assert ActionInvalid in [ActionInvalid];
      return Decision(false, NoAction, [ActionInvalid], false, true);
    }
    if action.desired.Absent? {
      return Decision(true, Command(action.frame, None, false), [], false, false);
    }
    if action.desired.Malformed? {
      assert OutputRejected in [OutputRejected];
      return Decision(false, NoAction, [OutputRejected], false, true);
    }
    var normalized, issues, projected := CheckPositions(sqrt, feasible, requireConnectivity, c, uavs, action);
    var hardErrors := HasError(issues);
    if hardErrors {
      FallbackReadBack(sqrt, c, uavs, action);
      return Decision(false, Command(action.frame, Some(FallbackPositions(uavs)), true), issues, projected, true);
    }
    AllKeysCommanded(sqrt, feasible, requireConnectivity, c, uavs, action);
    decision := Decision(true, Command(ENU, Some(normalized), false), issues, projected, false);
  }

  /** bool([issue for issue in issues if issue.severity == "ERROR"]) */
  method HasError(issues: seq<Issue>) returns (found: bool)
    ensures found <==> !NoErrors(issues)
  {
    for k := 0 to |issues|
      invariant forall j :: 0 <= j < k ==> !IsError(issues[j])
    {
      if IsError(issues[k]) {
        return true;
      }
    }
    found := false;
  }

  /** A NED action for a UAV at (1, 2, 3) with an exhausted battery is rejected, and makes it hold at a position
      that reads as (2, 1, -3). */
  lemma FallbackMisread(sqrt: real -> real, feasible: LinkModel, requireConnectivity: bool, c: Config,
                        id: Entity, u: Uav, target: Vec)
    requires Flying(u) && CurrentPosition(u) == Vec(1.0, 2.0, 3.0) && u.soc <= c.reserve
    ensures var uavs, action := map[id := u], Action(true, NED, Positions(map[id := target]));
            var out := Handed(sqrt, c, uavs, action, Accepts(sqrt, feasible, requireConnectivity, c, uavs, action));
            && !Accepts(sqrt, feasible, requireConnectivity, c, uavs, action)
            && out.Command? && out.positions.Some? && id in out.positions.value
            && Enu(out.positions.value[id], out.frame) == Some(Vec(2.0, 1.0, -3.0))
  {
    var uavs, action := map[id := u], Action(true, NED, Positions(map[id := target]));
    assert id in Commands(sqrt, c, uavs, action);
    assert !Acceptable(sqrt, feasible, requireConnectivity, c, uavs, action);
  }
}
