/**
 * What happens to one target over many frames: how long drones and missiles
 * live, the single turn of an inbound jet, the guide line as a ten-frame
 * extrapolation, and the period of the spawn cooldown.
 */
module RadarRuns {
  import opened RadarModel

  /** Running `a` frames and then `b` more is running `a + b` frames. */
  lemma {:induction false} RunSplit(s: TargetState, a: nat, b: nat)
    requires Run(s, a).alive
    ensures Run(s, a + b) == Run(Run(s, a).next, b)
    decreases a
  {
    if a > 0 {
      RunSplit(Step(s).next, a - 1, b);
    }
  }

  /** A coordinate after `n` frames at a constant rate `v`, added frame by frame. */
  function Drift(x: real, v: real, n: nat): real
    decreases n
  {
    if n == 0 then x else Drift(x + v, v, n - 1)
  }

  /** Frame-by-frame drift is the straight line `x + n * v`. */
  lemma {:induction false} DriftLinear(x: real, v: real, n: nat)
    ensures Drift(x, v, n) == x + n as real * v
    decreases n
  {
    if n > 0 {
      DriftLinear(x + v, v, n - 1);
    }
  }

  /** Shifting the start shifts every later coordinate by the same amount. */
  lemma {:induction false} DriftShift(x: real, c: real, v: real, n: nat)
    ensures Drift(x + c, v, n) == Drift(x, v, n) + c
    decreases n
  {
    if n > 0 {
      DriftShift(x + v, c, v, n - 1);
    }
  }

  /** Moving at a non-positive rate never gets further than the first frame did. */
  lemma DriftNotAboveFirst(x: real, v: real, n: nat)
    requires v <= 0.0 && n >= 1
    ensures Drift(x, v, n) <= x + v
  {
    DriftLinear(x, v, n);
    assert (n - 1) as real * v <= 0.0;
  }

  /** Moving at a non-negative rate never gets nearer than the first frame did. */
  lemma DriftNotBelowFirst(x: real, v: real, n: nat)
    requires v >= 0.0 && n >= 1
    ensures Drift(x, v, n) >= x + v
  {
    DriftLinear(x, v, n);
    assert (n - 1) as real * v >= 0.0;
  }

  /** Reducing the starting bearing first does not change the bearing reached. */
  lemma BearingOfDrift(x: real, v: real, n: nat)
    ensures Mod360(Drift(Mod360(x), v, n)) == Mod360(Drift(x, v, n))
  {
    var c := Mod360(x) - x;
    DriftShift(x, c, v, n);
    assert x + c == Mod360(x);
    SameBearingSym(x, Mod360(x));
    assert SameBearing(Drift(x, v, n) + c, Drift(x, v, n)) by {
      assert (Drift(x, v, n) + c - Drift(x, v, n)) / 360.0 == (Mod360(x) - x) / 360.0;
    }
    Mod360Congruent(Drift(x, v, n) + c, Drift(x, v, n));
  }

  /** One frame of a target that survives it, then `n - 1` more. */
  lemma RunFirst(s: TargetState, n: nat)
    requires n >= 1
    ensures Run(s, n) == if Step(s).alive then Run(Step(s).next, n - 1) else Step(s)
  {
  }

  /**
   * A drone or missile that is not moving outward stays alive exactly as long
   * as its distance, moved on frame by frame, stays at least ImpactRange; its
   * velocity never changes.
   */
  lemma {:induction false} NonJetDescent(s: TargetState, n: nat)
    requires s.kind != Jet && s.vDist <= 0.0 && n >= 1
    ensures Run(s, n).alive <==> Drift(s.distance, s.vDist, n) >= ImpactRange
    ensures Run(s, n).next.vDist == s.vDist
    ensures Run(s, n).alive ==> Run(s, n).next.distance == Drift(s.distance, s.vDist, n)
    ensures Run(s, n).alive ==> Run(s, n).next.angle == Mod360(Drift(s.angle, s.vAngle, n))
    decreases n
  {
    RunFirst(s, n);
    var first := Step(s);
    DriftNotAboveFirst(s.distance, s.vDist, n);
    if n > 1 && first.alive {
      NonJetDescent(first.next, n - 1);
      BearingOfDrift(s.angle + s.vAngle, s.vAngle, n - 1);
    }
  }

  /**
   * A jet moving outward (or holding its distance) never turns round again:
   * its radial velocity is kept for good, and it is removed exactly when its
   * distance passes JetEscape.
   */
  lemma {:induction false} OutboundJet(s: TargetState, n: nat)
    requires s.kind == Jet && s.vDist >= 0.0 && n >= 1
    ensures Run(s, n).alive <==> Drift(s.distance, s.vDist, n) <= JetEscape
    ensures Run(s, n).next.vDist == s.vDist
    ensures Run(s, n).alive ==> Run(s, n).next.distance == Drift(s.distance, s.vDist, n)
    ensures Run(s, n).alive ==> Run(s, n).next.angle == Mod360(Drift(s.angle, s.vAngle, n))
    decreases n
  {
    RunFirst(s, n);
    var first := Step(s);
    DriftNotBelowFirst(s.distance, s.vDist, n);
    if n > 1 && first.alive {
      OutboundJet(first.next, n - 1);
      BearingOfDrift(s.angle + s.vAngle, s.vAngle, n - 1);
    }
  }

  /**
   * An inbound jet inside JetEscape keeps flying straight in, alive and with
   * its velocity unchanged, as long as it has not come inside JetBounce.
   */
  lemma {:induction false} InboundJet(s: TargetState, n: nat)
    requires s.kind == Jet && s.vDist < 0.0 && s.distance <= JetEscape
    requires Drift(s.distance, s.vDist, n) >= JetBounce
    ensures Run(s, n).alive && Run(s, n).next.vDist == s.vDist
    ensures Run(s, n).next.distance == Drift(s.distance, s.vDist, n)
    ensures n > 0 ==> Run(s, n).next.angle == Mod360(Drift(s.angle, s.vAngle, n))
    decreases n
  {
    if n > 0 {
      RunFirst(s, n);
      DriftNotAboveFirst(s.distance, s.vDist, n);
      if n > 1 {
        InboundJet(Step(s).next, n - 1);
        BearingOfDrift(s.angle + s.vAngle, s.vAngle, n - 1);
      }
    }
  }

  /**
   * The guide line ends where the target will be after LookAhead frames, for
   * every target that neither dies nor turns round within them.
   */
  lemma PredictionIsLookAhead(s: TargetState)
    requires
      || (s.kind != Jet && s.vDist <= 0.0 && s.distance + 10.0 * s.vDist >= ImpactRange)
      || (s.kind == Jet && s.vDist >= 0.0 && s.distance + 10.0 * s.vDist <= JetEscape)
      || (s.kind == Jet && s.vDist < 0.0 && s.distance <= JetEscape && s.distance + 10.0 * s.vDist >= JetBounce)
    ensures Run(s, 10).alive
    ensures (Run(s, 10).next.angle, Run(s, 10).next.distance) == Predict(s)
  {
    var p := Predict(s);
    assert p.1 == Drift(s.distance, s.vDist, 10) by {
      DriftLinear(s.distance, s.vDist, 10);
      assert s.vDist * LookAhead == 10.0 * s.vDist;
    }
    assert p.0 == Mod360(Drift(s.angle, s.vAngle, 10)) by {
      DriftLinear(s.angle, s.vAngle, 10);
      assert s.vAngle * LookAhead == 10.0 * s.vAngle;
    }
    if s.kind != Jet {
      NonJetDescent(s, 10);
    } else if s.vDist >= 0.0 {
      OutboundJet(s, 10);
    } else {
      InboundJet(s, 10);
    }
  }

  /** A drone or missile that keeps flying straight in is alive after `n` frames at distance `d + n * v`. */
  lemma NonJetAliveAt(s: TargetState, n: nat)
    requires s.kind != Jet && s.vDist <= 0.0 && n >= 1
    requires s.distance + n as real * s.vDist >= ImpactRange
    ensures Run(s, n).alive && Run(s, n).next.kind == s.kind && Run(s, n).next.vDist == s.vDist
    ensures Run(s, n).next.distance == s.distance + n as real * s.vDist
  {
    var d := Drift(s.distance, s.vDist, n);
    assert d == s.distance + n as real * s.vDist by {
      DriftLinear(s.distance, s.vDist, n);
    }
    NonJetDescent(s, n);
    assert Run(s, n).alive && Run(s, n).next.distance == d;
  }

  /** A single frame is a single update. */
  lemma RunOne(s: TargetState)
    ensures Run(s, 1) == Step(s)
  {
  }

  /**
   * A drone or missile flying straight in is removed by the first update that
   * takes it inside ImpactRange, and not before.
   */
  lemma NonJetImpact(s: TargetState, n: nat)
    requires s.kind != Jet && s.vDist <= 0.0 && n >= 1
    requires s.distance + n as real * s.vDist >= ImpactRange
    requires s.distance + (n + 1) as real * s.vDist < ImpactRange
    ensures Run(s, n).alive && !Run(s, n + 1).alive
    ensures Run(s, n + 1).next.distance == s.distance + (n + 1) as real * s.vDist
  {
    NonJetAliveAt(s, n);
    var last := Run(s, n).next;
    RunSplit(s, n, 1);
    RunOne(last);
    assert last.distance + last.vDist == s.distance + (n + 1) as real * s.vDist;
  }

  /**
   * A drone spawned 200 px outside the scope at 2 px per frame inward is still
   * alive, exactly at ImpactRange, after 270 updates and is removed by the 271st.
   */
  lemma DroneScenario(s: TargetState)
    requires s.kind == Drone && s.distance == Radius + 200.0 && s.vDist == -2.0
    ensures Run(s, 270).alive && Run(s, 270).next.distance == ImpactRange
    ensures !Run(s, 271).alive && Run(s, 271).next.distance < ImpactRange
  {
    NonJetAliveAt(s, 270);
    NonJetImpact(s, 270);
  }

  /** A jet that keeps flying straight in is alive after `n` frames at distance `d + n * v`. */
  lemma InboundJetAt(s: TargetState, n: nat)
    requires s.kind == Jet && s.vDist < 0.0 && s.distance <= JetEscape
    requires s.distance + n as real * s.vDist >= JetBounce
    ensures Run(s, n).alive && Run(s, n).next.kind == Jet && Run(s, n).next.vDist == s.vDist
    ensures Run(s, n).next.distance == s.distance + n as real * s.vDist
  {
    var d := Drift(s.distance, s.vDist, n);
    assert d == s.distance + n as real * s.vDist by {
      DriftLinear(s.distance, s.vDist, n);
    }
    InboundJet(s, n);
    assert Run(s, n).alive && Run(s, n).next.distance == d;
  }

  /** An outbound jet still inside JetEscape after `n` frames is alive at distance `d + n * v`. */
  lemma OutboundJetAt(s: TargetState, n: nat)
    requires s.kind == Jet && s.vDist >= 0.0 && n >= 1
    requires s.distance + n as real * s.vDist <= JetEscape
    ensures Run(s, n).alive && Run(s, n).next.kind == Jet && Run(s, n).next.vDist == s.vDist
    ensures Run(s, n).next.distance == s.distance + n as real * s.vDist
  {
    var d := Drift(s.distance, s.vDist, n);
    assert d == s.distance + n as real * s.vDist by {
      DriftLinear(s.distance, s.vDist, n);
    }
    OutboundJet(s, n);
    assert Run(s, n).alive && Run(s, n).next.distance == d;
  }

  /** Frame `n` of the inbound leg of the jet scenario, for `n` up to 300. */
  lemma JetScenarioInboundAt(s: TargetState, n: nat)
    requires s.kind == Jet && s.distance == Radius + 100.0 && s.vDist == -0.8 && n <= 300
    ensures Run(s, n).alive && Run(s, n).next.vDist == -0.8
    ensures Run(s, n).next.distance == Radius + 100.0 - n as real * 0.8
  {
    assert s.distance + n as real * s.vDist >= JetBounce by {
      assert n as real * s.vDist >= -240.0;
    }
    InboundJetAt(s, n);
  }

  /** The inbound leg of the jet scenario: 300 frames straight in, ending exactly at JetBounce. */
  lemma JetScenarioInbound(s: TargetState)
    requires s.kind == Jet && s.distance == Radius + 100.0 && s.vDist == -0.8
    ensures forall n :: 0 <= n <= 300 ==> Run(s, n).alive && Run(s, n).next.vDist == -0.8
    ensures Run(s, 300).next.distance == JetBounce && Run(s, 300).next.kind == Jet
  {
    forall n | 0 <= n <= 300 ensures Run(s, n).alive && Run(s, n).next.vDist == -0.8 {
      JetScenarioInboundAt(s, n);
    }
    JetScenarioInboundAt(s, 300);
  }

  /**
   * A jet flying outward is removed by the first update that takes it past
   * JetEscape, and not before.
   */
  lemma OutboundJetEscape(s: TargetState, n: nat)
    requires s.kind == Jet && s.vDist >= 0.0 && n >= 1
    requires s.distance + n as real * s.vDist <= JetEscape
    requires s.distance + (n + 1) as real * s.vDist > JetEscape
    ensures Run(s, n).alive && !Run(s, n + 1).alive
    ensures Run(s, n + 1).next.distance == s.distance + (n + 1) as real * s.vDist
  {
    OutboundJetAt(s, n);
    var last := Run(s, n).next;
    RunSplit(s, n, 1);
    RunOne(last);
    assert last.distance + last.vDist == s.distance + (n + 1) as real * s.vDist;
  }

  /** The outbound leg: from 209.2 px at 0.8 px per frame, alive for 394 frames, gone on the 395th. */
  lemma JetScenarioOutbound(out: TargetState)
    requires out.kind == Jet && out.distance == 209.2 && out.vDist == 0.8
    ensures forall m :: 0 <= m <= 395 ==> Run(out, m).next.vDist == 0.8
    ensures Run(out, 394).alive && Run(out, 394).next.distance <= JetEscape
    ensures !Run(out, 395).alive && Run(out, 395).next.distance > JetEscape
  {
    forall m | 0 <= m <= 395 ensures Run(out, m).next.vDist == 0.8 {
      if m > 0 {
        OutboundJet(out, m);
      }
    }
    OutboundJetAt(out, 394);
    OutboundJetEscape(out, 394);
  }

  /** The turn of the jet scenario: the 301st update takes the jet inside JetBounce and reverses it. */
  lemma JetScenarioTurn(s: TargetState)
    requires s.kind == Jet && s.distance == Radius + 100.0 && s.vDist == -0.8
    ensures Run(s, 301).alive && Run(s, 301).next.kind == Jet
    ensures Run(s, 301).next.distance == 209.2 && Run(s, 301).next.vDist == 0.8
  {
    JetScenarioInbound(s);
    var turn := Run(s, 300).next;
    RunSplit(s, 300, 1);
    RunOne(turn);
  }

  /** After the turn the jet scenario keeps velocity 0.8 until it is removed by update 696. */
  lemma JetScenarioLate(s: TargetState)
    requires s.kind == Jet && s.distance == Radius + 100.0 && s.vDist == -0.8
    ensures Run(s, 695).alive && Run(s, 695).next.distance <= JetEscape && Run(s, 695).next.vDist == 0.8
    ensures !Run(s, 696).alive && Run(s, 696).next.distance > JetEscape && Run(s, 696).next.vDist == 0.8
  {
    JetScenarioTurn(s);
    var out := Run(s, 301).next;
    JetScenarioOutbound(out);
    RunSplit(s, 301, 394);
    RunSplit(s, 301, 395);
  }

  /**
   * A jet spawned 100 px outside the scope at 0.8 px per frame inward flies in
   * for 300 updates, turns round on the 301st (the first that takes it inside
   * JetBounce), never turns again, and is removed by update 696, the first that
   * takes it past JetEscape.
   */
  lemma JetScenario(s: TargetState)
    requires s.kind == Jet && s.distance == Radius + 100.0 && s.vDist == -0.8
    ensures forall n :: 0 <= n <= 300 ==> Run(s, n).alive && Run(s, n).next.vDist == -0.8
    ensures Run(s, 300).next.distance == JetBounce
    ensures Run(s, 301).alive && Run(s, 301).next.distance < JetBounce && Run(s, 301).next.vDist == 0.8
    ensures Run(s, 695).alive && Run(s, 695).next.distance <= JetEscape && Run(s, 695).next.vDist == 0.8
    ensures !Run(s, 696).alive && Run(s, 696).next.distance > JetEscape && Run(s, 696).next.vDist == 0.8
  {
    JetScenarioInbound(s);
    JetScenarioTurn(s);
    JetScenarioLate(s);
  }

  /** Counting down from `c` takes `c` frames. */
  lemma {:induction false} CooldownCountdown(c: int, n: nat)
    requires n <= c
    ensures CooldownAfter(c, n) == c - n
    decreases n
  {
    if n > 0 {
      CooldownCountdown(c - 1, n - 1);
    }
  }

  /**
   * Starting from 0 as the main loop does, the counter is reset on the first
   * frame and reaches 0 again exactly 121 frames later: its period is 121.
   */
  lemma CooldownCycle(n: nat)
    requires 1 <= n <= CooldownFrames + 1
    ensures CooldownAfter(0, n) == CooldownFrames + 1 - n
    ensures CooldownAfter(0, n) == 0 <==> n == CooldownFrames + 1
  {
    CooldownCountdown(CooldownFrames, n - 1);
  }

  /** From any value in [0, CooldownFrames] the counter never leaves that range. */
  lemma {:induction false} CooldownStaysInRange(c: int, n: nat)
    requires 0 <= c <= CooldownFrames
    ensures 0 <= CooldownAfter(c, n) <= CooldownFrames
    decreases n
  {
    if n > 0 {
      CooldownStaysInRange(NextCooldown(c), n - 1);
    }
  }

  /** The speed conversion is linear. */
  lemma KmhLinear(a: real, x: real, y: real)
    ensures KmhToPixelPerFrame(a * x + y) == a * KmhToPixelPerFrame(x) + KmhToPixelPerFrame(y)
  {
    var f := KmhToPixelPerFrame(x);
    var g := KmhToPixelPerFrame(y);
    var h := KmhToPixelPerFrame(a * x + y);
    var k := FramesPerSecond * SecondsPerHour * KmPerPixel;
    assert h * k == a * (f * k) + g * k;
    assert (a * f + g) * k == a * (f * k) + g * k;
  }
}
