# Radar scope simulation — a Dafny model

`radar_gui.py` draws a radar scope and moves targets (jets, drones and
missiles) across it frame by frame. This project models the simulation
behind the picture:

- the per-frame update of one target: its bearing and distance, the jet's
  single turn and the two lifecycle rules (a jet that leaves the area, a
  drone or missile that reaches the centre);
- the target's trail, a FIFO buffer capped at 20 samples;
- the guide line drawn ten frames ahead, and the rule that only targets
  inside the scope are drawn;
- the km/h to pixels-per-frame conversion;
- the three spawners: a plane, a missile, and a swarm of drones;
- the roster pass, which updates every target of a snapshot of the list once
  and removes the targets reported dead;
- the spawn-cooldown counter.

Files:

- `radar_model.dfy` (module `RadarModel`) holds the values and the pure rules:
  - the constants, `TargetState` and `Step` (one update as a function);
  - `Run` (several frames), `Predict`, `Render` and the speed conversion;
  - the launch states, the cooldown step, and the roster pass as values (`StepAll`, `AliveFlags`).
- `list_ops.dfy` (module `ListOps`) holds the list operations the roster pass relies on:
  - keeping the flagged elements (`Survivors`);
  - the list's remove-first-occurrence (`RemoveFirst`);
  - the state of the list part-way through the pass (`Pruned`).
- `radar_runs.dfy` (module `RadarRuns`) holds multi-frame properties:
  - how long drones and missiles live;
  - the single turn of a jet;
  - the guide line as a ten-frame look-ahead;
  - the period of the cooldown.
- `radar_objects.dfy` (module `RadarObjects`) is the program as it runs, with objects updated in place:
  - class `Target`, whose `Update` and `Draw` are proved against `Step` and `Render`;
  - class `Scope`, which owns the target list and the cooldown. Its roster pass (`UpdateTargets`) is proved to leave exactly the survivors, in order, each updated once. The spawners and the cooldown step are here too.

Behaviour the model takes from the code, where a reader might expect otherwise:

- **Jet removal.** A jet is removed on the update whose *new* distance is beyond 1.5 × radius. An update that starts beyond that line but moves back inside keeps the jet.
- **The drone's last frame.** A drone started 200 px outside the scope at 2 px per frame inward is still alive after 270 updates. At that point it sits exactly at the impact range of 10 px, and the test is `< 10`. It is removed by update 271.
- **The spawn cooldown.** The counter is reset and counted down, but nothing reads it; spawning happens only on key presses.
  - Started at 0 as the main loop does, it is reset on the first frame. It returns to 0 after 121 frames, not 120.
- **Removal takes the first equal element.** Removal from the list uses `list.remove`, which drops the first *equal* element. The model requires the targets in the list to be distinct objects, which holds in the program: every spawn creates a new `Target`.

## Model

| member | source | states |
|---|---|---|
| RadarModel.Mod360 | radar_gui.py:32 | the reduced bearing lies in [0, 360) and differs from the argument by a whole number of turns |
| RadarModel.Mod360Unique | radar_gui.py:32 | the reduced bearing is the only value in [0, 360) a whole number of turns from the argument |
| RadarModel.Mod360Congruent | radar_gui.py:32 | bearings a whole number of turns apart reduce to the same value |
| RadarModel.Mod360Absorbs | radar_gui.py:32 | reducing the old bearing before adding the turn rate does not change the reduced result |
| RadarModel.PushTrail | radar_gui.py:50-52 | the new sample is last; below the cap it is appended; at the cap the oldest sample is dropped; a trail within the cap stays within it and holds the newest 20 samples |
| RadarModel.Step | radar_gui.py:31-54 | the bearing becomes (old + rate) mod 360 in [0, 360) and the distance old + rate, alive or not; the rate of turn, kind and colour never change; the radial velocity is negated exactly when an inbound jet comes inside 0.6 × radius, and is then positive; the target lives iff a jet's new distance is at most 1.5 × radius, or another kind's is at least 10; a dead target keeps its trail, a live one pushes the new position; the trail stays within 20 |
| RadarModel.Run | radar_gui.py:31-54 | over any number of frames the bearing stays in [0, 360); the rate of turn, kind and colour never change; the trail stays within 20; a death report comes only from an update |
| RadarModel.Predict | radar_gui.py:80-81 | the guide point is ten frames ahead: bearing (angle + 10 × rate) mod 360 in [0, 360), distance + 10 × radial velocity, unclamped |
| RadarModel.Render | radar_gui.py:66-84 | a target is drawn iff its distance is at most the radius; then it is drawn with its trail, position, kind, colour and the guide point |
| RadarModel.KmhToPixelPerFrame | radar_gui.py:93-96 | converting back (× 60 frames × 3600 s × km per pixel) gives the km/h speed; the result is positive iff the speed is |
| RadarModel.PlaneLaunch | radar_gui.py:110-119 | the new jet has a bearing in [0, 360), a distance 50 to 150 px outside the scope, no turn rate, and an inward velocity of 2000 km/h; it is green and has no trail |
| RadarModel.MissileLaunch | radar_gui.py:121-130 | the new missile has a bearing in [0, 360), a distance 50 to 150 px outside the scope, no turn rate, and an inward velocity of 3000 km/h; it is green and has no trail |
| RadarModel.DroneLaunch | radar_gui.py:104-108 | a drone takes the drawn bearing and distance, 100 to 300 px outside the scope, with no turn rate and an inward velocity of 300 km/h; it is green and has no trail |
| RadarModel.SwarmLaunchAt | radar_gui.py:102-108 | the i-th drone of a swarm starts from the i-th draw, is a drone with no turn rate and an inward velocity, and lies 100 to 300 px outside the scope |
| RadarModel.NextCooldown | radar_gui.py:165-168 | the counter is reset to 120 exactly when it was at most 0, otherwise it decreases; from [0, 120] it stays in [0, 120] |
| RadarModel.StepAllAt | radar_gui.py:157-158 | position i of a roster pass is the update of the i-th target, and its alive flag is that update's report |
| ListOps.Survivors | radar_gui.py:157-162 | filtering keeps at most the elements given; if every flag is set the list is unchanged, if none is set it is empty |
| ListOps.SurvivorsFromList | radar_gui.py:157-162 | every element kept comes from the list |
| ListOps.SurvivorsKeepAlive | radar_gui.py:157-162 | every element whose update reported alive is kept |
| ListOps.SurvivorsDropDead | radar_gui.py:157-162 | in a list of distinct elements, an element reported dead is not kept |
| ListOps.SurvivorsDistinct | radar_gui.py:157-162 | filtering a list of distinct elements gives a list of distinct elements |
| ListOps.RemoveFirst | radar_gui.py:160 | removal shortens the list by exactly one |
| ListOps.RemoveFirstCount | radar_gui.py:160 | removal takes away exactly one occurrence of the element and keeps every other element |
| ListOps.RemoveFirstAfter | radar_gui.py:160 | removing an element that first occurs after a prefix joins the prefix and the rest, in order |
| ListOps.PrunedShape | radar_gui.py:157-162 | part-way through the pass over the snapshot, the live list is the survivors visited so far, in order, followed by the targets not yet visited, and the next target is still in it |
| RadarRuns.RunSplit | radar_gui.py:157-162 | running a frames and then b more, when the target is alive after a, is running a + b frames |
| RadarRuns.NonJetDescent | radar_gui.py:44-47 | a drone or missile not moving outward is alive after n frames iff its distance, moved on frame by frame, stays at least 10; its velocity never changes, and its bearing and distance are the straight-line ones |
| RadarRuns.OutboundJet | radar_gui.py:36-42 | a jet moving outward never turns again; it is alive after n frames iff its distance stays within 1.5 × radius |
| RadarRuns.InboundJet | radar_gui.py:36-42 | an inbound jet that has not yet come inside 0.6 × radius keeps flying straight in, alive, with its velocity unchanged |
| RadarRuns.PredictionIsLookAhead | radar_gui.py:80-81 | for a target that neither dies nor turns within ten frames, the guide point is exactly where ten updates take it |
| RadarRuns.NonJetAliveAt | radar_gui.py:44-47 | a drone or missile that stays at least 10 px out is alive after n frames at distance d + n × v |
| RadarRuns.NonJetImpact | radar_gui.py:44-47 | a drone or missile is removed by the first update that takes it inside 10 px, and not before |
| RadarRuns.DroneScenario | radar_gui.py:44-47 | a drone started 200 px outside the scope at 2 px per frame is alive at exactly 10 px after 270 updates and removed by update 271 |
| RadarRuns.InboundJetAt | radar_gui.py:36-42 | an inbound jet that has not come inside 0.6 × radius is alive after n frames at distance d + n × v |
| RadarRuns.OutboundJetAt | radar_gui.py:36-42 | an outbound jet within 1.5 × radius is alive after n frames at distance d + n × v |
| RadarRuns.OutboundJetEscape | radar_gui.py:36-42 | an outbound jet is removed by the first update that takes it beyond 1.5 × radius, and not before |
| RadarRuns.JetScenarioInbound | radar_gui.py:36-42 | a jet started 100 px outside the scope at 0.8 px per frame inward stays alive and inbound for 300 updates, ending exactly at 0.6 × radius |
| RadarRuns.JetScenarioOutbound | radar_gui.py:36-42 | once turned, the jet keeps 0.8 px per frame outward, is alive after 394 more updates and is removed by the 395th |
| RadarRuns.JetScenarioTurn | radar_gui.py:36-42 | the 301st update takes the jet inside 0.6 × radius and reverses it, once |
| RadarRuns.JetScenarioLate | radar_gui.py:36-42 | after the turn the jet is alive through update 695 and is removed by update 696 |
| RadarRuns.JetScenario | radar_gui.py:36-42 | the jet's whole life: inbound for 300 updates, one turn on the 301st, never again, removed by update 696 |
| RadarRuns.CooldownCountdown | radar_gui.py:165-168 | from a positive value the counter counts down one per frame |
| RadarRuns.CooldownCycle | radar_gui.py:165-168 | started at 0, the counter is reset on the first frame and is 0 again exactly 121 frames later |
| RadarRuns.CooldownStaysInRange | radar_gui.py:165-168 | from any value in [0, 120] the counter stays in [0, 120] for any number of frames |
| RadarRuns.KmhLinear | radar_gui.py:93-96 | the speed conversion is linear |
| RadarObjects.Target.constructor | radar_gui.py:22-29 | a new target holds the given position, velocities and kind, is green and has an empty trail |
| RadarObjects.Target.Update | radar_gui.py:31-54 | the fields after the call are the state `Step` gives for the fields before it, the result is its alive report, and a trail within 20 stays within 20 |
| RadarObjects.Target.Draw | radar_gui.py:63-84 | a picture is made iff the distance is at most the radius, and it is `Render` of the target's state; no field changes |
| RadarObjects.UpdateAt | radar_gui.py:157-158 | updating the i-th of distinct targets moves that target from its state before the pass to its state after, and leaves every other target as it was |
| RadarObjects.Scope.constructor | radar_gui.py:100 | the scope starts with no targets and a cooldown of 0 |
| RadarObjects.Scope.Settle | radar_gui.py:159-160 | a target reported dead is removed from the live list, which then matches the walk one step further |
| RadarObjects.Scope.Visit | radar_gui.py:157-162 | one iteration of the pass updates the next target of the snapshot, removes it if dead and draws it if alive |
| RadarObjects.Scope.PassBegins | radar_gui.py:157 | at the start of the pass the live list is the snapshot and no target has moved |
| RadarObjects.Scope.PassDone | radar_gui.py:157-162 | at the end of the pass the live list holds exactly the survivors of the snapshot, in order, every target of the snapshot has been updated once, and one picture was made per survivor |
| RadarObjects.Scope.UpdateTargets | radar_gui.py:157-162 | every target of the list as it stood is updated exactly once; the list becomes the targets reported alive, in their original order; the cooldown is untouched; the pictures are the renderings of the survivors |
| RadarObjects.Scope.Append | radar_gui.py:119 | appending a new target extends the list by it and keeps the scope's invariant |
| RadarObjects.Scope.SpawnPlane | radar_gui.py:110-119 | exactly one new jet is appended, in the state `PlaneLaunch` gives for the draws, and the earlier targets are kept |
| RadarObjects.Scope.SpawnMissiles | radar_gui.py:121-130 | exactly one new missile is appended, in the state `MissileLaunch` gives for the draws, and the earlier targets are kept |
| RadarObjects.Scope.AddDrone | radar_gui.py:104-108 | one new drone is appended in the state `DroneLaunch` gives for its draw |
| RadarObjects.Scope.SpawnSwarm | radar_gui.py:102-108 | exactly `count` new drones are appended, one per draw and in the order drawn, and the earlier targets are kept |
| RadarObjects.Scope.StepCooldown | radar_gui.py:165-168 | the cooldown becomes `NextCooldown` of its old value and stays in [0, 120] |

## Left out

- Drawing and input are not modelled:
  - all pygame calls (window, fill, circles, lines, fonts, blit, flip, clock, event polling);
  - the range rings, the sweep line and its angle, and the crosshairs.
  - A picture is kept as polar positions and the kind.
- `polar_to_cartesian` and `get_pos` are not modelled. They are trigonometry with truncation to whole pixels.
- The random draws are not modelled. They become parameters constrained to the ranges the program draws from:
  - the bearing and distance of each spawn;
  - the swarm size, which the program draws from 10 to 50; the model accepts any count.
- The key presses that call the spawners are not modelled. The spawners are methods a caller invokes.
- Floating point is not modelled; the model uses exact reals.
  - Rounding is not captured.
  - Neither is Python's `%` returning 360.0 for tiny negative arguments.
- The label strings are not modelled.
  - The emoji test for a jet becomes the `Kind` enumeration.
  - A swarm always spawns drones, because every call uses the default label.
  - The label text drawn beside a target is represented by its kind.
- The unused `arrival_time` parameter and the unused `labels` list are not modelled.
- No single method runs a whole frame. A frame is `UpdateTargets` followed by `StepCooldown`; each states its own change to the scope.
- RadarObjects.Scope.UpdateTargets: requires the targets in the list to be distinct objects, because `list.remove` removes the first equal element. The program never puts one target in the list twice.
