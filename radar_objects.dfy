/**
 * The simulation as the program runs it: targets are objects updated in place
 * once per frame, and the scope owns the list of live targets and the spawn
 * cooldown, which the main loop changes every frame.
 */
module RadarObjects {
  import opened RadarModel
  import opened ListOps

  /** One tracked object. */
  class Target {
    var angle: real
    var distance: real
    var vAngle: real
    var vDist: real
    var kind: Kind
    var color: Rgb
    var history: seq<Sample>

    /** The target's fields as a value. */
    function State(): TargetState
      reads this
    {
      TargetState(angle, distance, vAngle, vDist, kind, color, history)
    }

    /** The trail never holds more than TrailCap samples. */
    ghost predicate Valid()
      reads this
    {
      |history| <= TrailCap
    }

    constructor (angle: real, distance: real, vAngle: real, vDist: real, kind: Kind)
      ensures Valid()
      ensures State() == TargetState(angle, distance, vAngle, vDist, kind, TargetGreen, [])
    {
      this.angle := angle;
      this.distance := distance;
      this.vAngle := vAngle;
      this.vDist := vDist;
      this.kind := kind;
      this.color := TargetGreen;
      this.history := [];
    }

    /** Advances the target by one frame; false means it is to be removed. */
    method Update() returns (alive: bool)
      modifies this
      ensures State() == Step(old(State())).next
      ensures alive == Step(old(State())).alive
      ensures old(Valid()) ==> Valid()
    {
      angle := Mod360(angle + vAngle);
      distance := distance + vDist;
      if kind == Jet {
        if distance < JetBounce && vDist < 0.0 {
          vDist := -vDist;
        }
        if distance > JetEscape {
          return false;
        }
      } else {
        if distance < ImpactRange {
          return false;
        }
      }
      history := history + [(angle, distance)];
      if |history| > TrailCap {
        history := history[1..];
      }
      return true;
    }

    /** What this target puts on the screen: nothing unless it is inside the scope. */
    method Draw() returns (p: Option<Picture>)
      ensures p.Some? <==> distance <= Radius
      ensures p == Render(State())
    {
      if distance <= Radius {
        var predAngle := Mod360(angle + vAngle * LookAhead);
        var predDist := distance + vDist * LookAhead;
        p := Some(Picture(history, (angle, distance), kind, color, (predAngle, predDist)));
      } else {
        p := None;
      }
    }
  }

  /** The states of a list of targets, in order. */
  function States(ts: seq<Target>): (r: seq<TargetState>)
    reads set t | t in ts
    ensures |r| == |ts|
  {
    if ts == [] then [] else States(ts[..|ts| - 1]) + [ts[|ts| - 1].State()]
  }

  /** Position `i` of the states of a list is the state of its `i`-th target. */
  lemma {:induction false} StatesAt(ts: seq<Target>, i: nat)
    requires i < |ts|
    ensures States(ts)[i] == ts[i].State()
    decreases |ts|
  {
    var n := |ts| - 1;
    if i < n {
      StatesAt(ts[..n], i);
    }
  }

  /** Keeping the same elements of a list of targets and of the list of their states. */
  lemma {:induction false} StatesOfSurvivors(ts: seq<Target>, ss: seq<TargetState>, alive: seq<bool>)
    requires |ts| == |ss| == |alive|
    requires forall k :: 0 <= k < |ts| ==> ts[k].State() == ss[k]
    ensures |Survivors(ts, alive)| == |Survivors(ss, alive)|
    ensures forall k :: 0 <= k < |Survivors(ts, alive)| ==> Survivors(ts, alive)[k].State() == Survivors(ss, alive)[k]
    decreases |ts|
  {
    if |ts| > 0 {
      var n := |ts| - 1;
      StatesOfSurvivors(ts[..n], ss[..n], alive[..n]);
    }
  }

  /**
   * Updates the `i`-th target of a list of distinct targets, whose first `i`
   * targets have already moved from their states in `before` to those in
   * `after` and whose others still hold their states in `before`.
   */
  method UpdateAt(ts: seq<Target>, i: nat, ghost before: seq<TargetState>, ghost after: seq<TargetState>, ghost flags: seq<bool>)
      returns (alive: bool)
    requires Distinct(ts) && i < |ts| == |before| == |after| == |flags|
    requires after[i] == Step(before[i]).next && flags[i] == Step(before[i]).alive
    requires forall k {:trigger ts[k].Valid()} :: 0 <= k < |ts| ==> ts[k].Valid()
    requires forall k {:trigger ts[k].State()} :: 0 <= k < i ==> ts[k].State() == after[k]
    requires forall k {:trigger ts[k].State()} :: i <= k < |ts| ==> ts[k].State() == before[k]
    modifies ts[i]
    ensures forall k {:trigger ts[k].Valid()} :: 0 <= k < |ts| ==> ts[k].Valid()
    ensures forall k {:trigger ts[k].State()} :: 0 <= k < i + 1 ==> ts[k].State() == after[k]
    ensures forall k {:trigger ts[k].State()} :: i + 1 <= k < |ts| ==> ts[k].State() == before[k]
    ensures alive == flags[i]
  {
    DistinctOthers(ts, i);
    alive := ts[i].Update();
  }

  /** The radar scope: the live targets and the spawn cooldown. */
  class Scope {
    var targets: seq<Target>
    var spawnCooldown: int

    /** Targets are distinct objects with bounded trails; the cooldown is in range. */
    ghost predicate Valid()
      reads this, set t | t in targets
    {
      && Distinct(targets)
      && (forall i :: 0 <= i < |targets| ==> targets[i].Valid())
      && 0 <= spawnCooldown <= CooldownFrames
    }

    constructor ()
      ensures Valid() && targets == [] && spawnCooldown == 0
    {
      targets := [];
      spawnCooldown := 0;
    }

    /**
     * Where the roster pass stands after visiting the first `i` targets of
     * `snapshot`, the roster as it was when the pass began: the targets visited
     * have moved from their states in `before` to those in `after` and the
     * others have not moved; the roster holds the visited targets whose flag
     * is set, in order, followed by those not yet visited; and one picture has
     * been drawn per visited survivor.
     */
    ghost predicate Visited(snapshot: seq<Target>, before: seq<TargetState>, after: seq<TargetState>, flags: seq<bool>,
                            i: nat, drawings: seq<Option<Picture>>)
      reads this, set t | t in snapshot
    {
      && Distinct(snapshot) && |before| == |after| == |flags| == |snapshot| && i <= |snapshot|
      && (forall k {:trigger snapshot[k].Valid()} :: 0 <= k < |snapshot| ==> snapshot[k].Valid())
      && (forall k {:trigger snapshot[k].State()} :: 0 <= k < i ==> snapshot[k].State() == after[k])
      && (forall k {:trigger snapshot[k].State()} :: i <= k < |snapshot| ==> snapshot[k].State() == before[k])
      && targets == Pruned(snapshot, flags, i)
      && var shown := Survivors(after[..i], flags[..i]);
         |drawings| == |shown| && forall k :: 0 <= k < |shown| ==> drawings[k] == Render(shown[k])
    }

    /**
     * The removal step of the roster pass for the `i`-th target of
     * `snapshot`: the roster loses that target exactly when its update
     * reported it dead.
     */
    method Settle(snapshot: seq<Target>, ghost flags: seq<bool>, i: nat, alive: bool)
      requires Distinct(snapshot) && |snapshot| == |flags| && i < |snapshot| && alive == flags[i]
      requires targets == Pruned(snapshot, flags, i)
      modifies this`targets
      ensures targets == Pruned(snapshot, flags, i + 1)
    {
      if !alive {
        PrunedShape(snapshot, flags, i);
        targets := RemoveFirst(targets, snapshot[i]);
      }
    }

    /**
     * The loop body of the roster pass for the `i`-th target of `snapshot`:
     * update it; remove it from the roster if it reported dead, draw it
     * otherwise.
     */
    method Visit(snapshot: seq<Target>, ghost before: seq<TargetState>, ghost after: seq<TargetState>, ghost flags: seq<bool>,
                 i: nat, drawings: seq<Option<Picture>>) returns (drawings': seq<Option<Picture>>)
      requires Visited(snapshot, before, after, flags, i, drawings) && i < |snapshot|
      requires after[i] == Step(before[i]).next && flags[i] == Step(before[i]).alive
      modifies this`targets, snapshot[i]
      ensures Visited(snapshot, before, after, flags, i + 1, drawings')
    {
      var t := snapshot[i];
      var alive := UpdateAt(snapshot, i, before, after, flags);
      Settle(snapshot, flags, i, alive);
      SurvivorsExtend(after, flags, i);
      if alive {
        var p := t.Draw();
        drawings' := drawings + [p];
      } else {
        drawings' := drawings;
      }
    }

    /** The start of the roster pass: nothing visited yet, the roster is the snapshot. */
    lemma PassBegins(snapshot: seq<Target>, before: seq<TargetState>, after: seq<TargetState>, flags: seq<bool>)
      requires Valid() && targets == snapshot
      requires before == States(snapshot) && after == StepAll(before) && flags == AliveFlags(before)
      ensures Visited(snapshot, before, after, flags, 0, [])
    {
      forall k | 0 <= k < |snapshot| ensures snapshot[k].State() == before[k] {
        StatesAt(snapshot, k);
      }
      assert flags[..0] == [] && after[..0] == [];
    }

    /**
     * The end of the roster pass: with every target of `snapshot` visited,
     * the roster holds the survivors, distinct and with bounded trails, the
     * targets hold the states `after`, and there is one picture per survivor.
     */
    lemma PassDone(snapshot: seq<Target>, before: seq<TargetState>, after: seq<TargetState>, flags: seq<bool>,
                   drawings: seq<Option<Picture>>)
      requires Visited(snapshot, before, after, flags, |snapshot|, drawings)
      requires 0 <= spawnCooldown <= CooldownFrames
      ensures Valid() && targets == Survivors(snapshot, flags) && States(snapshot) == after
      ensures |drawings| == |targets| && forall j :: 0 <= j < |targets| ==> drawings[j] == Render(targets[j].State())
    {
      var n := |snapshot|;
      PrunedShape(snapshot, flags, n);
      assert snapshot[..n] == snapshot && flags[..n] == flags && after[..n] == after;
      assert snapshot[n..] == [];
      assert targets == Survivors(snapshot, flags) + [] == Survivors(snapshot, flags);
      SurvivorsDistinct(snapshot, flags);
      SurvivorsFromList(snapshot, flags);
      forall j | 0 <= j < |targets| ensures targets[j].Valid() {
        var k :| 0 <= k < |snapshot| && snapshot[k] == targets[j];
        assert snapshot[k].Valid();
      }
      StatesOfSurvivors(snapshot, after, flags);
      forall k | 0 <= k < n ensures States(snapshot)[k] == after[k] {
        StatesAt(snapshot, k);
      }
    }

    /**
     * The roster pass of one frame: every target of the list as it stood is
     * updated once; those reported dead are removed, the others kept in order
     * and drawn.
     */
    method UpdateTargets() returns (drawings: seq<Option<Picture>>)
      requires Valid()
      modifies this, set t | t in targets
      ensures Valid()
      ensures States(old(targets)) == StepAll(old(States(targets)))
      ensures targets == Survivors(old(targets), AliveFlags(old(States(targets))))
      ensures spawnCooldown == old(spawnCooldown)
      ensures |drawings| == |targets|
      ensures forall i :: 0 <= i < |targets| ==> drawings[i] == Render(targets[i].State())
    {
      var snapshot := targets;
      ghost var before := States(snapshot);
      ghost var after := StepAll(before);
      ghost var flags := AliveFlags(before);
      PassBegins(snapshot, before, after, flags);
      drawings := [];
      var i := 0;
      while i < |snapshot|
        invariant Visited(snapshot, before, after, flags, i, drawings)
        invariant spawnCooldown == old(spawnCooldown)
      {
        StepAllAt(before, i);
        drawings := Visit(snapshot, before, after, flags, i, drawings);
        i := i + 1;
      }
      PassDone(snapshot, before, after, flags, drawings);
    }

    /** Appends one target, leaving everything else as it was. */
    method Append(t: Target)
      requires Valid() && t.Valid() && t !in targets
      modifies this
      ensures Valid()
      ensures targets == old(targets) + [t] && spawnCooldown == old(spawnCooldown)
    {
      targets := targets + [t];
    }

    /** Spawns one jet outside the scope, flying inward; the draws are the random bearing and distance. */
    method SpawnPlane(angle: int, dist: real)
      requires Valid() && 0 <= angle <= 359 && Radius + 50.0 <= dist <= Radius + 150.0
      modifies this
      ensures Valid() && spawnCooldown == old(spawnCooldown)
      ensures |targets| == |old(targets)| + 1 && targets[..|old(targets)|] == old(targets)
      ensures fresh(targets[|old(targets)|]) && targets[|old(targets)|].State() == PlaneLaunch(angle, dist)
    {
      var t := new Target(angle as real, dist, 0.0, -KmhToPixelPerFrame(JetSpeedKmh), Jet);
      Append(t);
    }

    /** Spawns one missile outside the scope, flying inward. */
    method SpawnMissiles(angle: int, dist: real)
      requires Valid() && 0 <= angle <= 359 && Radius + 50.0 <= dist <= Radius + 150.0
      modifies this
      ensures Valid() && spawnCooldown == old(spawnCooldown)
      ensures |targets| == |old(targets)| + 1 && targets[..|old(targets)|] == old(targets)
      ensures fresh(targets[|old(targets)|]) && targets[|old(targets)|].State() == MissileLaunch(angle, dist)
    {
      var t := new Target(angle as real, dist, 0.0, -KmhToPixelPerFrame(MissileSpeedKmh), Missile);
      Append(t);
    }

    /** Adds one drone of a swarm, started from its draw of bearing and distance. */
    method AddDrone(draw: (real, real)) returns (t: Target)
      requires Valid() && SwarmDraw(draw)
      modifies this
      ensures Valid() && spawnCooldown == old(spawnCooldown)
      ensures fresh(t) && targets == old(targets) + [t] && t.State() == DroneLaunch(draw)
    {
      t := new Target(draw.0, draw.1, 0.0, -KmhToPixelPerFrame(DroneSpeedKmh), Drone);
      Append(t);
    }

    /** Spawns `count` drones, one per draw of bearing and distance. */
    method SpawnSwarm(count: nat, draws: seq<(real, real)>)
      requires Valid() && |draws| == count
      requires forall i :: 0 <= i < |draws| ==> SwarmDraw(draws[i])
      modifies this
      ensures Valid() && spawnCooldown == old(spawnCooldown)
      ensures |targets| == |old(targets)| + count && targets[..|old(targets)|] == old(targets)
      ensures forall k :: |old(targets)| <= k < |targets| ==> fresh(targets[k])
      ensures States(targets[|old(targets)|..]) == SwarmLaunch(draws)
    {
      var n := 0;
      ghost var made: seq<Target> := [];
      while n < count
        invariant 0 <= n <= count && Valid() && spawnCooldown == old(spawnCooldown)
        invariant targets == old(targets) + made && |made| == n
        invariant forall k :: 0 <= k < n ==> fresh(made[k])
        invariant States(made) == SwarmLaunch(draws[..n])
      {
        var t := AddDrone(draws[n]);
        assert (made + [t])[..n] == made;
        assert draws[..n + 1][..n] == draws[..n];
        made := made + [t];
        n := n + 1;
      }
      assert targets[|old(targets)|..] == made;
      assert draws[..count] == draws;
    }

    /** One frame of the spawn cooldown. */
    method StepCooldown()
      requires Valid()
      modifies this`spawnCooldown
      ensures Valid() && spawnCooldown == NextCooldown(old(spawnCooldown))
    {
      if spawnCooldown <= 0 {
        spawnCooldown := CooldownFrames;
      } else {
        spawnCooldown := spawnCooldown - 1;
      }
    }
  }
}
