/**
 * The sweep section of drawRadar as values: the beam advance, the sweep id,
 * the paint pass over the tracked aircraft with its paintedRotation records,
 * blip pruning and the drawn alpha, and the clamp of the controls.
 */
module Sweep {
  import opened Wrappers
  import opened Angles
  import opened Tracks
  import opened JsArray

  /** SWEEP_SPEED_DEG_PER_SEC: 90 degrees per second, i.e. 90 milli-degrees per millisecond. */
  const SWEEP_SPEED: int := 90
  /** rotationPeriodMs: (360 / 90) * 1000. */
  const ROTATION_PERIOD_MS: int := 4000
  /** Number.MAX_SAFE_INTEGER. */
  const MAX_SAFE_INTEGER: int := 0x1F_FFFF_FFFF_FFFF
  /** The bounds of sweepTolerance, 0.75 and 2.5 degrees. */
  const MIN_TOLERANCE: int := 750
  const MAX_TOLERANCE: int := 2500

  function Max(a: int, b: int): int {
    if a >= b then a else b
  }

  /** Math.min(hi, Math.max(lo, v)), the clamp of the controls. */
  function Clamp(lo: int, hi: int, v: int): (r: int)
    requires lo <= hi
    ensures lo <= r <= hi
    ensures lo <= v <= hi ==> r == v
    ensures v < lo ==> r == lo
    ensures v > hi ==> r == hi
  {
    Min(hi, Max(lo, v))
  }

  // ---------------------------------------------------------------------------
  // The beam

  /** sweepAdvance for a frame of dt milliseconds, in milli-degrees. */
  function SweepAdvance(dt: int): int {
    SWEEP_SPEED * dt
  }

  /** (sweepAngle + sweepAdvance) % 360 */
  function NextAngle(angle: int, advance: int): int {
    JsRem(angle + advance, FULL)
  }

  /**
   * Math.min(2.5, Math.max(0.75, sweepAdvance * 0.6)); for an advance of
   * 90 * dt milli-degrees the product 0.6 * advance = 54 * dt is exact.
   */
  function SweepTolerance(advance: int): int {
    Min(MAX_TOLERANCE, Max(MIN_TOLERANCE, advance * 6 / 10))
  }

  /** How far past the previous beam angle a bearing may lie and still be painted. */
  function Reach(previous: int, angle: int, advance: int): int {
    ForwardAngleDelta(previous, angle) + SweepTolerance(advance)
  }

  /** The sweep id after a frame: one more on a wrap, back to 0 past MAX_SAFE_INTEGER - 1. */
  function NextSweepId(id: int, wrapped: bool): int {
    if !wrapped then id
    else if id + 1 > MAX_SAFE_INTEGER - 1 then 0
    else id + 1
  }

  /**
   * A frame of dt >= 0 milliseconds leaves the beam on a bearing. While the
   * frame advances less than a full turn the beam wraps (the new angle is
   * below the old one) exactly when it passes north, and it moves on by the
   * advance. The tolerance lies in [0.75, 2.5] degrees and the sweep id
   * either stays, grows by one, or restarts at 0.
   */
  lemma SweepStep(angle: int, dt: int, id: int)
    requires IsAngle(angle) && dt >= 0 && 0 <= id <= MAX_SAFE_INTEGER - 1
    ensures IsAngle(NextAngle(angle, SweepAdvance(dt)))
    ensures SweepAdvance(dt) < FULL ==>
      (NextAngle(angle, SweepAdvance(dt)) < angle <==> angle + SweepAdvance(dt) >= FULL)
    ensures SweepAdvance(dt) < FULL ==>
      ForwardAngleDelta(angle, NextAngle(angle, SweepAdvance(dt))) == SweepAdvance(dt)
    ensures MIN_TOLERANCE <= SweepTolerance(SweepAdvance(dt)) <= MAX_TOLERANCE
    ensures NextSweepId(id, false) == id
    ensures NextSweepId(id, true) == if id < MAX_SAFE_INTEGER - 1 then id + 1 else 0
    ensures 0 <= NextSweepId(id, true) <= MAX_SAFE_INTEGER - 1
  {
    var advance := SweepAdvance(dt);
    var next := NextAngle(angle, advance);
    if advance < FULL {
      if angle + advance < FULL {
        TurnValue(angle + advance, 0, angle + advance);
      } else {
        TurnValue(angle + advance, 1, angle + advance - FULL);
      }
      ForwardAngleDeltaIsTurn(angle, next);
      assert (angle + advance) % FULL == next;
    }
  }

  // ---------------------------------------------------------------------------
  // The paint pass

  /**
   * A blip: when it was spawned and the heading it is drawn with, with the
   * bearing and distance it is drawn at (the screen position is computed
   * from these) and its tag, craft.hex || craft.flight.
   */
  datatype Blip = Blip(spawn: int, heading: int, bearing: int, distance: int, tag: string)

  function BlipOf(craft: Craft, now: int): Blip {
    Blip(now, craft.heading, craft.bearing, craft.distance,
         if craft.hex != "" then craft.hex else craft.flight)
  }

  /** craft.key || getCraftKey(craft) */
  function KeyOf(craft: Craft): string {
    if craft.key != "" then craft.key else GetCraftKey(craft.hex, craft.flight, craft.position)
  }

  /** The beam crossed the craft's bearing this frame. */
  predicate Crossed(craft: Craft, previous: int, reach: int) {
    ForwardAngleDelta(previous, craft.bearing) <= reach
  }

  /**
   * The state the paint loop carries: paintedRotation, the new blips, the keys
   * painted (in order) and lastPingedAircraft.
   */
  datatype Pass = Pass(painted: map<string, int>, blips: seq<Blip>, keys: seq<string>, pinged: Option<Craft>)

  /** The body of the paint loop for one craft. */
  function PaintStep(acc: Pass, craft: Craft, id: int, previous: int, reach: int, now: int): Pass {
    var key := KeyOf(craft);
    if key in acc.painted && acc.painted[key] == id then acc
    else if Crossed(craft, previous, reach) then
      Pass(acc.painted[key := id], acc.blips + [BlipOf(craft, now)], acc.keys + [key], Some(craft))
    else acc
  }

  /** The paint loop over the tracked aircraft, in order. */
  function PaintPass(tracks: seq<Craft>, id: int, previous: int, reach: int, now: int, acc: Pass): Pass
    decreases |tracks|
  {
    if tracks == [] then acc
    else PaintPass(tracks[1..], id, previous, reach, now, PaintStep(acc, tracks[0], id, previous, reach, now))
  }

  /** The pass only appends: one blip, spawned now, per key painted. */
  lemma {:induction false} PaintPassAppends(tracks: seq<Craft>, id: int, previous: int, reach: int, now: int, acc: Pass)
    requires |acc.blips| == |acc.keys|
    ensures var r := PaintPass(tracks, id, previous, reach, now, acc);
      |r.blips| == |r.keys| && acc.blips <= r.blips && acc.keys <= r.keys
      && |r.keys| - |acc.keys| <= |tracks|
      && (forall j :: |acc.blips| <= j < |r.blips| ==> r.blips[j].spawn == now)
  {
    if tracks != [] {
      var next := PaintStep(acc, tracks[0], id, previous, reach, now);
      PaintPassAppends(tracks[1..], id, previous, reach, now, next);
    }
  }

  /** A record that already holds the current id keeps it. */
  lemma {:induction false} PaintPassKeepsCurrent(tracks: seq<Craft>, id: int, previous: int, reach: int, now: int,
                                                 acc: Pass, key: string)
    requires key in acc.painted && acc.painted[key] == id
    ensures var r := PaintPass(tracks, id, previous, reach, now, acc);
      key in r.painted && r.painted[key] == id
  {
    if tracks != [] {
      PaintPassKeepsCurrent(tracks[1..], id, previous, reach, now,
                            PaintStep(acc, tracks[0], id, previous, reach, now), key);
    }
  }

  /** After the pass every crossed craft's key records the current sweep id. */
  lemma {:induction false} PaintPassCovers(tracks: seq<Craft>, id: int, previous: int, reach: int, now: int, acc: Pass)
    ensures var r := PaintPass(tracks, id, previous, reach, now, acc);
      forall c :: c in tracks && Crossed(c, previous, reach) ==> KeyOf(c) in r.painted && r.painted[KeyOf(c)] == id
  {
    if tracks != [] {
      var next := PaintStep(acc, tracks[0], id, previous, reach, now);
      var r := PaintPass(tracks, id, previous, reach, now, acc);
      PaintPassCovers(tracks[1..], id, previous, reach, now, next);
      if Crossed(tracks[0], previous, reach) {
        PaintPassKeepsCurrent(tracks[1..], id, previous, reach, now, next, KeyOf(tracks[0]));
      }
      forall c | c in tracks && Crossed(c, previous, reach)
        ensures KeyOf(c) in r.painted && r.painted[KeyOf(c)] == id
      {
        if c != tracks[0] {
          assert c in tracks[1..];
        }
      }
    }
  }

  /**
   * The records the pass changes are exactly the keys it paints: each now
   * holds the current sweep id, and every other record is left as it was.
   */
  lemma {:induction false} PaintPassRecords(tracks: seq<Craft>, id: int, previous: int, reach: int, now: int, acc: Pass)
    requires |acc.blips| == |acc.keys|
    ensures |acc.keys| <= |PaintPass(tracks, id, previous, reach, now, acc).keys|
    ensures var r := PaintPass(tracks, id, previous, reach, now, acc);
      var newKeys := r.keys[|acc.keys|..];
      (forall k :: k in newKeys ==> k in r.painted && r.painted[k] == id)
      && (forall k :: k in r.painted <==> k in acc.painted || k in newKeys)
      && (forall k :: k in acc.painted && k !in newKeys ==> r.painted[k] == acc.painted[k])
  {
    PaintPassAppends(tracks, id, previous, reach, now, acc);
    if tracks != [] {
      var next := PaintStep(acc, tracks[0], id, previous, reach, now);
      var r := PaintPass(tracks, id, previous, reach, now, acc);
      PaintPassRecords(tracks[1..], id, previous, reach, now, next);
      PaintPassAppends(tracks[1..], id, previous, reach, now, next);
      if next != acc {
        var key := KeyOf(tracks[0]);
        assert next.keys == acc.keys + [key];
        assert r.keys[|acc.keys|..] == [key] + r.keys[|next.keys|..];
        PaintPassKeepsCurrent(tracks[1..], id, previous, reach, now, next, key);
      }
    }
  }

  /** A key is painted only when it does not already record the current sweep id. */
  lemma {:induction false} PaintPassUnmarked(tracks: seq<Craft>, id: int, previous: int, reach: int, now: int,
                                             acc: Pass)
    requires |acc.blips| == |acc.keys|
    ensures |acc.keys| <= |PaintPass(tracks, id, previous, reach, now, acc).keys|
    ensures var r := PaintPass(tracks, id, previous, reach, now, acc);
      forall k :: k in r.keys[|acc.keys|..] ==> !(k in acc.painted && acc.painted[k] == id)
  {
    PaintPassAppends(tracks, id, previous, reach, now, acc);
    if tracks != [] {
      var next := PaintStep(acc, tracks[0], id, previous, reach, now);
      var r := PaintPass(tracks, id, previous, reach, now, acc);
      PaintPassUnmarked(tracks[1..], id, previous, reach, now, next);
      PaintPassAppends(tracks[1..], id, previous, reach, now, next);
      var later := r.keys[|next.keys|..];
      if next != acc {
        var key := KeyOf(tracks[0]);
        assert next.keys == acc.keys + [key];
        assert r.keys[|acc.keys|..] == [key] + later;
      }
    }
  }

  /** Each key is painted at most once per pass. */
  lemma {:induction false} PaintPassOnce(tracks: seq<Craft>, id: int, previous: int, reach: int, now: int, acc: Pass)
    requires |acc.blips| == |acc.keys|
    ensures |acc.keys| <= |PaintPass(tracks, id, previous, reach, now, acc).keys|
    ensures var newKeys := PaintPass(tracks, id, previous, reach, now, acc).keys[|acc.keys|..];
      forall i, j :: 0 <= i < j < |newKeys| ==> newKeys[i] != newKeys[j]
  {
    PaintPassAppends(tracks, id, previous, reach, now, acc);
    if tracks != [] {
      var next := PaintStep(acc, tracks[0], id, previous, reach, now);
      var r := PaintPass(tracks, id, previous, reach, now, acc);
      PaintPassOnce(tracks[1..], id, previous, reach, now, next);
      PaintPassAppends(tracks[1..], id, previous, reach, now, next);
      if next != acc {
        var key := KeyOf(tracks[0]);
        var newKeys := r.keys[|acc.keys|..];
        var later := r.keys[|next.keys|..];
        PaintPassUnmarked(tracks[1..], id, previous, reach, now, next);
        assert next.keys == acc.keys + [key];
        assert newKeys == [key] + later;
        assert key !in later;
        forall i, j | 0 <= i < j < |newKeys| ensures newKeys[i] != newKeys[j] {
          if i > 0 {
            assert newKeys[i] == later[i - 1] && newKeys[j] == later[j - 1];
          } else {
            assert newKeys[j] in later;
          }
        }
      }
    }
  }

  /** Only crossed crafts are painted: each painted key is the key of a craft the beam crossed. */
  lemma {:induction false} PaintPassCrossedOnly(tracks: seq<Craft>, id: int, previous: int, reach: int, now: int,
                                                acc: Pass)
    requires |acc.blips| == |acc.keys|
    ensures |acc.keys| <= |PaintPass(tracks, id, previous, reach, now, acc).keys|
    ensures var r := PaintPass(tracks, id, previous, reach, now, acc);
      forall k :: k in r.keys[|acc.keys|..] ==> exists c :: c in tracks && Crossed(c, previous, reach) && KeyOf(c) == k
  {
    PaintPassAppends(tracks, id, previous, reach, now, acc);
    if tracks != [] {
      var next := PaintStep(acc, tracks[0], id, previous, reach, now);
      var r := PaintPass(tracks, id, previous, reach, now, acc);
      PaintPassCrossedOnly(tracks[1..], id, previous, reach, now, next);
      PaintPassAppends(tracks[1..], id, previous, reach, now, next);
      var later := r.keys[|next.keys|..];
      if next != acc {
        assert next.keys == acc.keys + [KeyOf(tracks[0])];
        assert r.keys[|acc.keys|..] == [KeyOf(tracks[0])] + later;
      }
      forall k | k in r.keys[|acc.keys|..]
        ensures exists c :: c in tracks && Crossed(c, previous, reach) && KeyOf(c) == k
      {
        if k in later {
          var c :| c in tracks[1..] && Crossed(c, previous, reach) && KeyOf(c) == k;
          assert c in tracks;
        } else {
          assert k == KeyOf(tracks[0]) && Crossed(tracks[0], previous, reach);
        }
      }
    }
  }

  /** Every craft the beam crossed has its key (a non-empty one of its own) recording the sweep id. */
  ghost predicate CrossedPainted(tracks: seq<Craft>, previous: int, reach: int, painted: map<string, int>, id: int) {
    forall c :: c in tracks && Crossed(c, previous, reach) ==> c.key in painted && painted[c.key] == id
  }

  /**
   * Once every crossed craft's key records the current id, the pass changes
   * nothing: re-running it within the same sweep adds no blip.
   */
  lemma {:induction false} PaintPassSettled(tracks: seq<Craft>, id: int, previous: int, reach: int, now: int, acc: Pass)
    requires forall c :: c in tracks && Crossed(c, previous, reach) ==>
      KeyOf(c) in acc.painted && acc.painted[KeyOf(c)] == id
    ensures PaintPass(tracks, id, previous, reach, now, acc) == acc
  {
    if tracks != [] {
      assert PaintStep(acc, tracks[0], id, previous, reach, now) == acc;
      PaintPassSettled(tracks[1..], id, previous, reach, now, acc);
    }
  }

  /** Painting the same tracks twice within one sweep id paints nothing the second time. */
  lemma PaintPassIdempotent(tracks: seq<Craft>, id: int, previous: int, reach: int, now: int, later: int,
                            acc: Pass)
    ensures var r := PaintPass(tracks, id, previous, reach, now, acc);
      var again := Pass(r.painted, [], [], r.pinged);
      PaintPass(tracks, id, previous, reach, later, again) == again
  {
    var r := PaintPass(tracks, id, previous, reach, now, acc);
    PaintPassCovers(tracks, id, previous, reach, now, acc);
    PaintPassSettled(tracks, id, previous, reach, later, Pass(r.painted, [], [], r.pinged));
  }

  // ---------------------------------------------------------------------------
  // Blip lifetime

  /** activeBlips.filter((blip) => now - blip.spawn < rotationPeriod) */
  function Live(blips: seq<Blip>, now: int): seq<Blip> {
    Filter(blips, (b: Blip) => now - b.spawn < ROTATION_PERIOD_MS)
  }

  /** Pruning keeps exactly the blips younger than one rotation. */
  lemma LiveKeepsYoung(blips: seq<Blip>, now: int)
    ensures forall b :: b in Live(blips, now) <==> b in blips && now - b.spawn < ROTATION_PERIOD_MS
    ensures |Live(blips, now)| <= |blips|
  {
    FilterMembers(blips, (b: Blip) => now - b.spawn < ROTATION_PERIOD_MS);
  }

  /** Pruning keeps the order, so this frame's blips stay after the older ones. */
  lemma LiveOfAppend(blips: seq<Blip>, more: seq<Blip>, now: int)
    ensures Live(blips + more, now) == Live(blips, now) + Live(more, now)
  {
    FilterAppend(blips, more, (b: Blip) => now - b.spawn < ROTATION_PERIOD_MS);
  }

  /** The drawn opacity Math.max(0, 1 - age), age being (now - spawn) / rotationPeriod. */
  function Alpha(now: int, spawn: int): real {
    var age := (now - spawn) as real / ROTATION_PERIOD_MS as real;
    if 1.0 - age >= 0.0 then 1.0 - age else 0.0
  }

  /** A blip spawned no later than now is drawn with an opacity in [0, 1], above 0 while it is live. */
  lemma AlphaBounds(now: int, spawn: int)
    requires spawn <= now
    ensures 0.0 <= Alpha(now, spawn) <= 1.0
    ensures now - spawn < ROTATION_PERIOD_MS ==> Alpha(now, spawn) > 0.0
  {
  }
}
