/**
 * The per-frame simulation behind the radar scope, as values: the scope's
 * constants, one target's kinematic state, the update rule that advances it by
 * one frame, the projection drawn ahead of it, the speed conversion, the spawn
 * parameters and the spawn-cooldown counter.
 */
module RadarModel {

  /** Radius of the scope in pixels. */
  const Radius: real := 350.0
  /** The real-world range, in km, that the scope radius stands for. */
  const RealRadiusKm: real := 100.0
  const KmPerPixel: real := RealRadiusKm / Radius
  const FramesPerSecond: real := 60.0
  const SecondsPerHour: real := 3600.0

  /** Longest trail a target keeps. */
  const TrailCap: nat := 20
  /** An inbound jet turns round once it is closer than this. */
  const JetBounce: real := Radius * 0.6
  /** A jet further out than this has left the area. */
  const JetEscape: real := Radius * 1.5
  /** A drone or missile closer than this has hit the centre. */
  const ImpactRange: real := 10.0
  /** How many frames ahead the guide line is projected. */
  const LookAhead: real := 10.0
  /** Value the spawn cooldown is reset to. */
  const CooldownFrames: int := 120

  /** Speeds, in km/h, that the spawners give each kind. */
  const JetSpeedKmh: real := 2000.0
  const MissileSpeedKmh: real := 3000.0
  const DroneSpeedKmh: real := 300.0

  datatype Option<T> = None | Some(value: T)

  /** What a target is; the update rule and the spawner depend on it. */
  datatype Kind = Jet | Drone | Missile

  datatype Rgb = Rgb(red: int, green: int, blue: int)
  /** Every target is drawn in this colour. */
  const TargetGreen: Rgb := Rgb(0, 255, 0)

  /** A polar position: bearing in degrees, distance from the centre in pixels. */
  type Sample = (real, real)

  /** Everything a target holds; `history` is its trail, oldest sample first. */
  datatype TargetState = TargetState(
    angle: real,
    distance: real,
    vAngle: real,
    vDist: real,
    kind: Kind,
    color: Rgb,
    history: seq<Sample>)

  /** The state after one update, and whether the target is still alive. */
  datatype StepResult = StepResult(next: TargetState, alive: bool)

  // ---------------------------------------------------------------------------
  // Bearings modulo a full turn

  /** `x` and `y` differ by a whole number of turns. */
  predicate SameBearing(x: real, y: real) {
    ((x - y) / 360.0).Floor as real == (x - y) / 360.0
  }

  /** The floating-point `x % 360` of the source, for the positive modulus 360. */
  function Mod360(x: real): (r: real)
    ensures 0.0 <= r < 360.0
    ensures SameBearing(x, r)
  {
    x - 360.0 * (x / 360.0).Floor as real
  }

  /** A number whose floor is itself is an integer; sums of integers are integers. */
  lemma IntegralSum(a: real, b: real)
    requires a.Floor as real == a && b.Floor as real == b
    ensures (a + b).Floor as real == a + b
  {
    assert a + b == (a.Floor + b.Floor) as real;
  }

  lemma SameBearingTrans(x: real, y: real, z: real)
    requires SameBearing(x, y) && SameBearing(y, z)
    ensures SameBearing(x, z)
  {
    IntegralSum((x - y) / 360.0, (y - z) / 360.0);
    assert (x - z) / 360.0 == (x - y) / 360.0 + (y - z) / 360.0;
  }

  /** Mod360 is the only bearing in [0, 360) equivalent to its argument. */
  lemma Mod360Unique(x: real, r: real)
    requires 0.0 <= r < 360.0 && SameBearing(x, r)
    ensures r == Mod360(x)
  {
    var m := ((x - r) / 360.0).Floor;
    assert x / 360.0 == m as real + r / 360.0;
    assert 0.0 <= r / 360.0 < 1.0;
    assert (x / 360.0).Floor == m;
  }

  /** Being a whole number of turns apart is symmetric. */
  lemma SameBearingSym(x: real, y: real)
    requires SameBearing(x, y)
    ensures SameBearing(y, x)
  {
    var k := ((x - y) / 360.0).Floor;
    assert (y - x) / 360.0 == (-k) as real;
  }

  /** Equivalent bearings reduce to the same value. */
  lemma Mod360Congruent(x: real, y: real)
    requires SameBearing(x, y)
    ensures Mod360(x) == Mod360(y)
  {
    SameBearingSym(x, y);
    SameBearingTrans(y, x, Mod360(x));
    Mod360Unique(y, Mod360(x));
  }

  /** Reducing an intermediate bearing does not change the final one. */
  lemma Mod360Absorbs(x: real, y: real)
    ensures Mod360(Mod360(x) + y) == Mod360(x + y)
  {
    var r := Mod360(Mod360(x) + y);
    assert SameBearing(x + y, Mod360(x) + y) by {
      assert (x + y) - (Mod360(x) + y) == x - Mod360(x);
    }
    SameBearingTrans(x + y, Mod360(x) + y, r);
    Mod360Unique(x + y, r);
  }

  // ---------------------------------------------------------------------------
  // The trail

  /** The last `n` entries of `t`, or all of `t` when it is shorter. */
  function Newest<T>(t: seq<T>, n: nat): seq<T> {
    if |t| <= n then t else t[|t| - n..]
  }

  /** Appends a sample to a trail and evicts the oldest one once it exceeds the cap. */
  function PushTrail(h: seq<Sample>, s: Sample): (r: seq<Sample>)
    ensures |r| > 0 && r[|r| - 1] == s
    ensures |h| < TrailCap ==> r == h + [s]
    ensures |h| >= TrailCap ==> r == h[1..] + [s]
    ensures |h| <= TrailCap ==> |r| <= TrailCap && r == Newest(h + [s], TrailCap)
  {
    var t := h + [s];
    if |t| > TrailCap then t[1..] else t
  }

  // ---------------------------------------------------------------------------
  // One frame of a target

  /** The lifecycle rule: whether a target of this kind is alive at this distance. */
  predicate Survives(kind: Kind, distance: real) {
    if kind == Jet then distance <= JetEscape else ImpactRange <= distance
  }

  /** The update turns an inbound jet round: it has just come inside JetBounce. */
  predicate Bounces(s: TargetState) {
    s.kind == Jet && s.distance + s.vDist < JetBounce && s.vDist < 0.0
  }

  /** One update of a target: move, apply the kind's policy, extend the trail if alive. */
  function Step(s: TargetState): (r: StepResult)
    ensures 0.0 <= r.next.angle < 360.0
    ensures r.next.angle == Mod360(s.angle + s.vAngle)
    ensures r.next.distance == s.distance + s.vDist
    ensures r.next.vAngle == s.vAngle && r.next.kind == s.kind && r.next.color == s.color
    ensures r.next.vDist == if Bounces(s) then -s.vDist else s.vDist
    ensures Bounces(s) ==> r.next.vDist > 0.0
    ensures r.alive <==> Survives(s.kind, r.next.distance)
    ensures !r.alive ==> r.next.history == s.history
    ensures r.alive ==> r.next.history == PushTrail(s.history, (r.next.angle, r.next.distance))
    ensures |s.history| <= TrailCap ==> |r.next.history| <= TrailCap
  {
    var angle := Mod360(s.angle + s.vAngle);
    var distance := s.distance + s.vDist;
    var vDist := if s.kind == Jet && distance < JetBounce && s.vDist < 0.0 then -s.vDist else s.vDist;
    var moved := s.(angle := angle, distance := distance, vDist := vDist);
    if s.kind == Jet && distance > JetEscape then
      StepResult(moved, false)
    else if s.kind != Jet && distance < ImpactRange then
      StepResult(moved, false)
    else
      StepResult(moved.(history := PushTrail(s.history, (angle, distance))), true)
  }

  /**
   * `n` consecutive frames of one target, stopping at the frame whose update
   * reports it dead (the roster drops it then, so it is never updated again).
   */
  function Run(s: TargetState, n: nat): (r: StepResult)
    ensures n > 0 ==> 0.0 <= r.next.angle < 360.0
    ensures r.next.vAngle == s.vAngle && r.next.kind == s.kind && r.next.color == s.color
    ensures |s.history| <= TrailCap ==> |r.next.history| <= TrailCap
    ensures !r.alive ==> n > 0
    decreases n
  {
    if n == 0 then StepResult(s, true)
    else
      var first := Step(s);
      if first.alive then
        Run(first.next, n - 1)
      else
        first
  }

  // ---------------------------------------------------------------------------
  // Drawing

  /** The point the guide line is drawn to: LookAhead frames ahead at the current velocities. */
  function Predict(s: TargetState): (p: Sample)
    ensures 0.0 <= p.0 < 360.0 && SameBearing(s.angle + s.vAngle * LookAhead, p.0)
    ensures p.1 == s.distance + s.vDist * LookAhead
  {
    (Mod360(s.angle + s.vAngle * LookAhead), s.distance + s.vDist * LookAhead)
  }

  /** What is drawn of one target, in polar positions: trail, marker, label, guide line. */
  datatype Picture = Picture(trail: seq<Sample>, marker: Sample, kind: Kind, color: Rgb, guide: Sample)

  /** A target is drawn only while it is inside the scope. */
  function Render(s: TargetState): (p: Option<Picture>)
    ensures p.Some? <==> s.distance <= Radius
    ensures p.Some? ==> p.value.trail == s.history && p.value.marker == (s.angle, s.distance)
    ensures p.Some? ==> p.value.kind == s.kind && p.value.color == s.color && p.value.guide == Predict(s)
  {
    if s.distance <= Radius then Some(Picture(s.history, (s.angle, s.distance), s.kind, s.color, Predict(s)))
    else None
  }

  // ---------------------------------------------------------------------------
  // Speeds and spawning

  /** Converts a speed in km/h to pixels per frame: RealRadiusKm is Radius pixels, 60 frames a second. */
  function KmhToPixelPerFrame(kmh: real): (r: real)
    ensures r * FramesPerSecond * SecondsPerHour * KmPerPixel == kmh
    ensures r > 0.0 <==> kmh > 0.0
  {
    kmh / SecondsPerHour / KmPerPixel / FramesPerSecond
  }

  /** The target a plane spawn creates from its random bearing and distance. */
  function PlaneLaunch(angle: int, dist: real): (s: TargetState)
    requires 0 <= angle <= 359 && Radius + 50.0 <= dist <= Radius + 150.0
    ensures s.kind == Jet && s.color == TargetGreen && s.history == []
    ensures 0.0 <= s.angle < 360.0 && Radius < s.distance <= JetEscape
    ensures Radius + 50.0 <= s.distance <= Radius + 150.0
    ensures s.vAngle == 0.0 && s.vDist < 0.0
    ensures s.vDist * FramesPerSecond * SecondsPerHour * KmPerPixel == -JetSpeedKmh
  {
    TargetState(angle as real, dist, 0.0, -KmhToPixelPerFrame(JetSpeedKmh), Jet, TargetGreen, [])
  }

  /** The target a missile spawn creates from its random bearing and distance. */
  function MissileLaunch(angle: int, dist: real): (s: TargetState)
    requires 0 <= angle <= 359 && Radius + 50.0 <= dist <= Radius + 150.0
    ensures s.kind == Missile && s.color == TargetGreen && s.history == []
    ensures 0.0 <= s.angle < 360.0 && Radius < s.distance
    ensures Radius + 50.0 <= s.distance <= Radius + 150.0
    ensures s.vAngle == 0.0 && s.vDist < 0.0
    ensures s.vDist * FramesPerSecond * SecondsPerHour * KmPerPixel == -MissileSpeedKmh
  {
    TargetState(angle as real, dist, 0.0, -KmhToPixelPerFrame(MissileSpeedKmh), Missile, TargetGreen, [])
  }

  /** A random draw for one drone of a swarm: bearing and distance. */
  predicate SwarmDraw(d: (real, real)) {
    0.0 <= d.0 <= 360.0 && Radius + 100.0 <= d.1 <= Radius + 300.0
  }

  /** The target one drone of a swarm starts as. */
  function DroneLaunch(d: (real, real)): (s: TargetState)
    requires SwarmDraw(d)
    ensures s.kind == Drone && s.color == TargetGreen && s.history == []
    ensures s.angle == d.0 && s.distance == d.1 && Radius < s.distance
    ensures Radius + 100.0 <= s.distance <= Radius + 300.0
    ensures s.vAngle == 0.0 && s.vDist < 0.0
    ensures s.vDist * FramesPerSecond * SecondsPerHour * KmPerPixel == -DroneSpeedKmh
  {
    TargetState(d.0, d.1, 0.0, -KmhToPixelPerFrame(DroneSpeedKmh), Drone, TargetGreen, [])
  }

  /** The drones a swarm spawn creates, one per draw, in order. */
  function SwarmLaunch(draws: seq<(real, real)>): (r: seq<TargetState>)
    requires forall i :: 0 <= i < |draws| ==> SwarmDraw(draws[i])
    ensures |r| == |draws|
  {
    if draws == [] then [] else SwarmLaunch(draws[..|draws| - 1]) + [DroneLaunch(draws[|draws| - 1])]
  }

  /**
   * The `i`-th drone of a swarm starts from the `i`-th draw: a drone outside
   * the scope, between 100 and 300 pixels beyond its edge, flying straight in.
   */
  lemma {:induction false} SwarmLaunchAt(draws: seq<(real, real)>, i: nat)
    requires forall i :: 0 <= i < |draws| ==> SwarmDraw(draws[i])
    requires i < |draws|
    ensures SwarmLaunch(draws)[i] == DroneLaunch(draws[i])
    ensures SwarmLaunch(draws)[i].kind == Drone && SwarmLaunch(draws)[i].vAngle == 0.0
    ensures SwarmLaunch(draws)[i].vDist < 0.0
    ensures Radius + 100.0 <= SwarmLaunch(draws)[i].distance <= Radius + 300.0
    decreases |draws|
  {
    var n := |draws| - 1;
    if i < n {
      SwarmLaunchAt(draws[..n], i);
    }
  }

  // ---------------------------------------------------------------------------
  // The spawn cooldown

  /** One frame of the spawn cooldown: reset when run out, count down otherwise. */
  function NextCooldown(c: int): (r: int)
    ensures 0 <= c <= CooldownFrames ==> 0 <= r <= CooldownFrames
    ensures r == CooldownFrames <== c <= 0
    ensures c > 0 ==> r < c
    ensures 0 <= c <= CooldownFrames ==> (r == CooldownFrames <==> c <= 0)
  {
    if c <= 0 then CooldownFrames else c - 1
  }

  /** The cooldown after `n` frames. */
  function CooldownAfter(c: int, n: nat): int
    decreases n
  {
    if n == 0 then c else CooldownAfter(NextCooldown(c), n - 1)
  }

  // ---------------------------------------------------------------------------
  // One roster pass, as values

  /** The per-target alive flags of one roster pass over targets in these states. */
  function AliveFlags(ss: seq<TargetState>): (r: seq<bool>)
    ensures |r| == |ss|
  {
    if ss == [] then [] else AliveFlags(ss[..|ss| - 1]) + [Step(ss[|ss| - 1]).alive]
  }

  /** The states of targets after one update each. */
  function StepAll(ss: seq<TargetState>): (r: seq<TargetState>)
    ensures |r| == |ss|
  {
    if ss == [] then [] else StepAll(ss[..|ss| - 1]) + [Step(ss[|ss| - 1]).next]
  }

  /** Position `i` of one roster pass holds the update of the `i`-th target. */
  lemma {:induction false} StepAllAt(ss: seq<TargetState>, i: nat)
    requires i < |ss|
    ensures StepAll(ss)[i] == Step(ss[i]).next && AliveFlags(ss)[i] == Step(ss[i]).alive
    decreases |ss|
  {
    var n := |ss| - 1;
    if i < n {
      StepAllAt(ss[..n], i);
    }
  }
}
