/**
 * The radar scope's state object and the operations of app.js that change it:
 * one animation frame of drawRadar (beam, sweep id, paint pass, blip
 * pruning), processAircraftData, the clamped controls and the fetch step of
 * pollData with its failure reset.
 */
module Radar {
  import opened Wrappers
  import opened JsNumber
  import opened Angles
  import opened Tracks
  import opened Sweep
  import opened Server

  /** INBOUND_ALERT_DISTANCE_KM */
  const INBOUND_ALERT_DISTANCE_KM: int := 5
  /** The receiver location used when none is stored: 54 N, 1 W, in micro-degrees. */
  const DEFAULT_RECEIVER_LAT: int := 54_000_000
  const DEFAULT_RECEIVER_LON: int := -1_000_000

  /**
   * The parsed aircraft.json: Malformed when the body is falsy or its
   * `aircraft` member is not an array, else the array's elements.
   */
  datatype Feed = Malformed | Aircraft(entries: seq<Entry>)

  /** The outcome of fetchJson(buildUrl('aircraft.json')): a rejected fetch, or the parsed body. */
  datatype Fetch = Failed | Fetched(feed: Feed)

  /**
   * The paint records a frame starts from may only name tracked crafts, and
   * each record holds a sweep id no later than the current one.
   */
  lemma PaintKeepsRecords(tracks: seq<Craft>, id: int, previous: int, reach: int, now: int, start: Pass)
    requires start.blips == [] && start.keys == [] && 0 <= id
    requires forall k :: k in start.painted ==> 0 <= start.painted[k] <= id
    requires forall c :: c in tracks ==> c.key != ""
    ensures var r := PaintPass(tracks, id, previous, reach, now, start);
      (forall k :: k in r.painted ==> 0 <= r.painted[k] <= id)
      && ((forall k :: k in start.painted ==> k in KeysOf(tracks)) ==> forall k :: k in r.painted ==> k in KeysOf(tracks))
      && CrossedPainted(tracks, previous, reach, r.painted, id)
  {
    var r := PaintPass(tracks, id, previous, reach, now, start);
    PaintPassRecords(tracks, id, previous, reach, now, start);
    PaintPassCrossedOnly(tracks, id, previous, reach, now, start);
    PaintPassCovers(tracks, id, previous, reach, now, start);
    assert r.keys[0..] == r.keys;
    forall c | c in tracks ensures KeyOf(c) == c.key {
    }
  }

  /** After pruning, every blip of the frame was spawned no later than now and is younger than a rotation. */
  lemma PrunedBlipsAreLive(older: seq<Blip>, tracks: seq<Craft>, id: int, previous: int, reach: int, now: int,
                           start: Pass, last: int)
    requires start.blips == [] && start.keys == []
    requires forall b :: b in older ==> b.spawn <= last
    requires last <= now
    ensures var r := PaintPass(tracks, id, previous, reach, now, start);
      forall b :: b in Live(older + r.blips, now) ==> b.spawn <= now && now - b.spawn < ROTATION_PERIOD_MS
  {
    var r := PaintPass(tracks, id, previous, reach, now, start);
    PaintPassAppends(tracks, id, previous, reach, now, start);
    LiveKeepsYoung(older + r.blips, now);
    forall b | b in older + r.blips ensures b.spawn <= now {
      if b !in older {
        var j :| 0 <= j < |r.blips| && r.blips[j] == b;
      }
    }
  }

  /** Some element of the feed's array is null. */
  predicate HasNull(entries: seq<Entry>) {
    exists e :: e in entries && e.NullEntry?
  }

  /** The fetch was rejected, or processing its feed throws on a null element. */
  predicate FetchFailed(fetch: Fetch) {
    fetch.Failed? || (fetch.feed.Aircraft? && HasNull(fetch.feed.entries))
  }

  /** The records of the given keys only. */
  function Restrict(painted: map<string, int>, keys: set<string>): (r: map<string, int>)
    ensures forall k :: k in r <==> k in painted && k in keys
    ensures forall k :: k in r ==> r[k] == painted[k]
  {
    map k | k in painted && k in keys :: painted[k]
  }

  /**
   * The entry loop of processAircraftData: it throws on a null element;
   * otherwise it returns the feed's crafts and the positions of those with
   * a hex code.
   */
  method CollectTracks(entries: seq<Entry>, receiver: Position, rangeKm: int,
                       previous: map<string, Position>, geo: Geodesy)
    returns (thrown: bool, aircraft: seq<Craft>, nextPositions: map<string, Position>)
    ensures thrown <==> HasNull(entries)
    ensures !thrown ==>
      aircraft == FeedTracks(entries, receiver, rangeKm, previous, geo) && nextPositions == PositionsOf(aircraft)
  {
    aircraft := [];
    nextPositions := map[];
    var i := 0;
    while i < |entries|
      invariant 0 <= i <= |entries|
      invariant forall e :: e in entries[..i] ==> e.Entry?
      invariant aircraft == FeedTracks(entries[..i], receiver, rangeKm, previous, geo)
      invariant nextPositions == PositionsOf(aircraft)
    {
      var entry := entries[i];
      if entry.NullEntry? {
        return true, aircraft, nextPositions;
      }
      FeedTracksStep(entries, i, receiver, rangeKm, previous, geo);
      var craft := TrackOf(entry, receiver, rangeKm, previous, geo);
      if craft.Some? {
        var c := craft.value;
        PositionsOfStep(aircraft, c);
        aircraft := aircraft + [c];
        if c.hex != "" {
          nextPositions := nextPositions[c.hex := c.position];
        }
      }
      i := i + 1;
    }
    assert entries[..i] == entries;
    thrown := false;
  }

  lemma FeedTracksStep(entries: seq<Entry>, i: int, receiver: Position, rangeKm: int,
                       previous: map<string, Position>, geo: Geodesy)
    requires 0 <= i < |entries| && entries[i].Entry?
    requires forall e :: e in entries[..i] ==> e.Entry?
    ensures forall e :: e in entries[..i + 1] ==> e.Entry?
    ensures var t := TrackOf(entries[i], receiver, rangeKm, previous, geo);
      FeedTracks(entries[..i + 1], receiver, rangeKm, previous, geo)
      == FeedTracks(entries[..i], receiver, rangeKm, previous, geo) + (if t.Some? then [t.value] else [])
  {
    assert entries[..i + 1] == entries[..i] + [entries[i]];
    assert entries[..i + 1][..i] == entries[..i];
  }

  lemma PositionsOfStep(crafts: seq<Craft>, c: Craft)
    ensures PositionsOf(crafts + [c]) == if c.hex != "" then PositionsOf(crafts)[c.hex := c.position]
                                         else PositionsOf(crafts)
  {
    assert (crafts + [c])[..|crafts|] == crafts;
  }

  /** The scope's state, the fields of app.js's `state` that the core reads and writes. */
  class RadarScope {
    var sweepAngle: int
    var currentSweepId: int
    var paintedRotation: map<string, int>
    var activeBlips: seq<Blip>
    var trackedAircraft: seq<Craft>
    var previousPositions: map<string, Position>
    var lastPingedAircraft: Option<Craft>
    var lastFrameTime: int
    var rangeStepIndex: int
    var beepVolume: int
    var inboundAlertDistanceKm: int
    var dataConnectionOk: bool
    /** state.server.basePath; the empty string stands for null. */
    var basePath: string
    var receiver: Position

    /**
     * The beam is on a bearing, the sweep id is below MAX_SAFE_INTEGER and
     * no paint record is later than it, the controls are within their
     * clamps, every tracked craft carries a key and every blip was spawned
     * within the last rotation.
     */
    ghost predicate Valid()
      reads this
    {
      IsAngle(sweepAngle)
      && 0 <= currentSweepId <= MAX_SAFE_INTEGER - 1
      && (forall k :: k in paintedRotation ==> 0 <= paintedRotation[k] <= currentSweepId)
      && 0 <= rangeStepIndex < |RANGE_STEPS|
      && 0 <= beepVolume <= 20
      && 1 <= inboundAlertDistanceKm <= 20
      && (forall c :: c in trackedAircraft ==> c.key != "")
      && (forall b :: b in activeBlips ==> b.spawn <= lastFrameTime && lastFrameTime - b.spawn < ROTATION_PERIOD_MS)
    }

    /** Every paint record names a tracked craft. */
    ghost predicate PaintedTracked()
      reads this
    {
      forall k :: k in paintedRotation ==> k in KeysOf(trackedAircraft)
    }

    /**
     * The initial state: the stored base path or the default one, the stored
     * receiver location with `Number(stored) || default` (coordinates in
     * micro-degrees, NaN when the stored text does not parse).
     */
    constructor(now: int, storedBasePath: Option<string>, storedLat: Num, storedLon: Num)
      ensures Valid() && PaintedTracked()
      ensures sweepAngle == 0 && currentSweepId == 0 && lastFrameTime == now
      ensures paintedRotation == map[] && activeBlips == [] && trackedAircraft == []
      ensures previousPositions == map[] && lastPingedAircraft.None? && !dataConnectionOk
      ensures rangeStepIndex == 3 && beepVolume == 10 && inboundAlertDistanceKm == INBOUND_ALERT_DISTANCE_KM
      ensures basePath == if storedBasePath.Some? && storedBasePath.value != "" then storedBasePath.value
                          else DEFAULT_BASE_PATH
      ensures receiver == Position(if Truthy(storedLat) then storedLat.value else DEFAULT_RECEIVER_LAT,
                                   if Truthy(storedLon) then storedLon.value else DEFAULT_RECEIVER_LON)
    {
      sweepAngle := 0;
      currentSweepId := 0;
      paintedRotation := map[];
      activeBlips := [];
      trackedAircraft := [];
      previousPositions := map[];
      lastPingedAircraft := None;
      lastFrameTime := now;
      rangeStepIndex := 3;
      beepVolume := 10;
      inboundAlertDistanceKm := INBOUND_ALERT_DISTANCE_KM;
      dataConnectionOk := false;
      basePath := if storedBasePath.Some? && storedBasePath.value != "" then storedBasePath.value
                  else DEFAULT_BASE_PATH;
      receiver := Position(if Truthy(storedLat) then storedLat.value else DEFAULT_RECEIVER_LAT,
                           if Truthy(storedLon) then storedLon.value else DEFAULT_RECEIVER_LON);
    }

    /**
     * One animation frame at time `now` (the loop's performance.now()): the
     * beam advances by the elapsed time, the sweep id counts a completed
     * turn (restarting at 0 and forgetting the paint records past
     * MAX_SAFE_INTEGER - 1), the tracked crafts the beam crossed are painted
     * once per sweep, and the blips older than a rotation are dropped.
     */
    method Frame(now: int)
      requires Valid() && now >= lastFrameTime
      modifies this
      ensures Valid()
      ensures lastFrameTime == now
      ensures sweepAngle == NextAngle(old(sweepAngle), SweepAdvance(now - old(lastFrameTime)))
      ensures currentSweepId == NextSweepId(old(currentSweepId), sweepAngle < old(sweepAngle))
      ensures var start := Pass(if currentSweepId < old(currentSweepId) then map[] else old(paintedRotation),
                                [], [], old(lastPingedAircraft));
        var reach := Reach(old(sweepAngle), sweepAngle, SweepAdvance(now - old(lastFrameTime)));
        var r := PaintPass(trackedAircraft, currentSweepId, old(sweepAngle), reach, now, start);
        paintedRotation == r.painted && lastPingedAircraft == r.pinged
        && activeBlips == Live(old(activeBlips) + r.blips, now)
      ensures CrossedPainted(trackedAircraft, old(sweepAngle),
                             Reach(old(sweepAngle), sweepAngle, SweepAdvance(now - old(lastFrameTime))),
                             paintedRotation, currentSweepId)
      ensures old(PaintedTracked()) ==> PaintedTracked()
      ensures trackedAircraft == old(trackedAircraft) && previousPositions == old(previousPositions)
      ensures rangeStepIndex == old(rangeStepIndex) && beepVolume == old(beepVolume)
      ensures inboundAlertDistanceKm == old(inboundAlertDistanceKm) && dataConnectionOk == old(dataConnectionOk)
      ensures basePath == old(basePath) && receiver == old(receiver)
    {
      ghost var olderBlips := activeBlips;
      ghost var olderLast := lastFrameTime;
      var previous, reach := AdvanceBeam(now);
      ghost var start := Pass(paintedRotation, [], [], lastPingedAircraft);
      var newBlips := PaintTracked(previous, reach, now);
      activeBlips := Live(activeBlips + newBlips, now);
      PaintKeepsRecords(trackedAircraft, currentSweepId, previous, reach, now, start);
      PrunedBlipsAreLive(olderBlips, trackedAircraft, currentSweepId, previous, reach, now, start, olderLast);
    }

    /**
     * The sweep update of drawRadar: the beam moves on by the elapsed time;
     * on a wrap the sweep id counts up, and past MAX_SAFE_INTEGER - 1 it
     * restarts at 0 and the paint records are cleared. Returns the previous
     * angle and how far past it a bearing counts as crossed.
     */
    method AdvanceBeam(now: int) returns (previous: int, reach: int)
      requires Valid() && now >= lastFrameTime
      modifies this
      ensures previous == old(sweepAngle) && lastFrameTime == now
      ensures sweepAngle == NextAngle(previous, SweepAdvance(now - old(lastFrameTime)))
      ensures reach == Reach(previous, sweepAngle, SweepAdvance(now - old(lastFrameTime)))
      ensures currentSweepId == NextSweepId(old(currentSweepId), sweepAngle < previous)
      ensures paintedRotation == if currentSweepId < old(currentSweepId) then map[] else old(paintedRotation)
      ensures IsAngle(sweepAngle) && 0 <= currentSweepId <= MAX_SAFE_INTEGER - 1
      ensures forall k :: k in paintedRotation ==> 0 <= paintedRotation[k] <= currentSweepId
      ensures activeBlips == old(activeBlips) && lastPingedAircraft == old(lastPingedAircraft)
      ensures trackedAircraft == old(trackedAircraft) && previousPositions == old(previousPositions)
      ensures rangeStepIndex == old(rangeStepIndex) && beepVolume == old(beepVolume)
      ensures inboundAlertDistanceKm == old(inboundAlertDistanceKm) && dataConnectionOk == old(dataConnectionOk)
      ensures basePath == old(basePath) && receiver == old(receiver)
    {
      var dt := now - lastFrameTime;
      lastFrameTime := now;
      var advance := SweepAdvance(dt);
      previous := sweepAngle;
      SweepStep(previous, dt, currentSweepId);
      sweepAngle := NextAngle(previous, advance);
      var wrapped := sweepAngle < previous;
      reach := Reach(previous, sweepAngle, advance);
      if wrapped {
        currentSweepId := currentSweepId + 1;
        if currentSweepId > MAX_SAFE_INTEGER - 1 {
          currentSweepId := 0;
          paintedRotation := map[];
        }
      }
    }

    /**
     * The paint loop of drawRadar: each tracked craft whose key does not
     * record the current sweep id and whose bearing the beam crossed gets a
     * blip, its key records the id, and it becomes the last pinged craft.
     * Returns the new blips in order.
     */
    method PaintTracked(previous: int, reach: int, now: int) returns (newBlips: seq<Blip>)
      modifies this
      ensures var r := PaintPass(trackedAircraft, currentSweepId, previous, reach, now,
                                 Pass(old(paintedRotation), [], [], old(lastPingedAircraft)));
        paintedRotation == r.painted && lastPingedAircraft == r.pinged && newBlips == r.blips
      ensures sweepAngle == old(sweepAngle) && currentSweepId == old(currentSweepId)
      ensures lastFrameTime == old(lastFrameTime) && activeBlips == old(activeBlips)
      ensures trackedAircraft == old(trackedAircraft) && previousPositions == old(previousPositions)
      ensures rangeStepIndex == old(rangeStepIndex) && beepVolume == old(beepVolume)
      ensures inboundAlertDistanceKm == old(inboundAlertDistanceKm) && dataConnectionOk == old(dataConnectionOk)
      ensures basePath == old(basePath) && receiver == old(receiver)
    {
      ghost var start := Pass(paintedRotation, [], [], lastPingedAircraft);
      newBlips := [];
      ghost var newKeys: seq<string> := [];
      var i := 0;
      while i < |trackedAircraft|
        invariant 0 <= i <= |trackedAircraft|
        invariant PaintPass(trackedAircraft[i..], currentSweepId, previous, reach, now,
                            Pass(paintedRotation, newBlips, newKeys, lastPingedAircraft))
                  == PaintPass(trackedAircraft, currentSweepId, previous, reach, now, start)
        invariant sweepAngle == old(sweepAngle) && currentSweepId == old(currentSweepId)
        invariant lastFrameTime == old(lastFrameTime) && activeBlips == old(activeBlips)
        invariant trackedAircraft == old(trackedAircraft) && previousPositions == old(previousPositions)
        invariant rangeStepIndex == old(rangeStepIndex) && beepVolume == old(beepVolume)
        invariant inboundAlertDistanceKm == old(inboundAlertDistanceKm) && dataConnectionOk == old(dataConnectionOk)
        invariant basePath == old(basePath) && receiver == old(receiver)
      {
        var craft := trackedAircraft[i];
        var key := KeyOf(craft);
        if !(key in paintedRotation && paintedRotation[key] == currentSweepId) {
          var distanceFromPrevious := ForwardAngleDelta(previous, craft.bearing);
          if distanceFromPrevious <= reach {
            newBlips := newBlips + [BlipOf(craft, now)];
            newKeys := newKeys + [key];
            paintedRotation := paintedRotation[key := currentSweepId];
            lastPingedAircraft := Some(craft);
          }
        }
        assert trackedAircraft[i..][1..] == trackedAircraft[i + 1..];
        i := i + 1;
      }
      assert trackedAircraft[i..] == [];
    }

    /**
     * processAircraftData: a null element throws before anything changes; a
     * malformed feed only empties the tracked list; otherwise the tracked
     * crafts are the feed's entries within range, the previous positions
     * are theirs, and the paint records of crafts no longer tracked go.
     */
    method ProcessAircraftData(feed: Feed, geo: Geodesy) returns (thrown: bool)
      requires Valid() && ValidGeodesy(geo)
      modifies this
      ensures Valid()
      ensures thrown <==> feed.Aircraft? && HasNull(feed.entries)
      ensures thrown ==>
        trackedAircraft == old(trackedAircraft) && previousPositions == old(previousPositions)
        && paintedRotation == old(paintedRotation)
      ensures feed.Malformed? ==>
        trackedAircraft == [] && previousPositions == old(previousPositions)
        && paintedRotation == old(paintedRotation)
      ensures feed.Aircraft? && !thrown ==>
        trackedAircraft == FeedTracks(feed.entries, receiver, RANGE_STEPS[rangeStepIndex], old(previousPositions), geo)
        && previousPositions == PositionsOf(trackedAircraft)
        && paintedRotation == Restrict(old(paintedRotation), KeysOf(trackedAircraft))
        && PaintedTracked()
      ensures sweepAngle == old(sweepAngle) && currentSweepId == old(currentSweepId)
      ensures activeBlips == old(activeBlips) && lastPingedAircraft == old(lastPingedAircraft)
      ensures lastFrameTime == old(lastFrameTime) && rangeStepIndex == old(rangeStepIndex)
      ensures beepVolume == old(beepVolume) && inboundAlertDistanceKm == old(inboundAlertDistanceKm)
      ensures dataConnectionOk == old(dataConnectionOk) && basePath == old(basePath) && receiver == old(receiver)
    {
      thrown := false;
      if feed.Malformed? {
        trackedAircraft := [];
        return;
      }
      var aircraft, nextPositions;
      thrown, aircraft, nextPositions :=
        CollectTracks(feed.entries, receiver, RANGE_STEPS[rangeStepIndex], previousPositions, geo);
      if thrown {
        return;
      }
      TracksInRange(feed.entries, receiver, RANGE_STEPS[rangeStepIndex], previousPositions, geo);
      trackedAircraft := aircraft;
      previousPositions := nextPositions;
      if |paintedRotation| > 0 {
        ForgetUntracked();
      }
    }

    /** The pruning of paintedRotation: the records of keys no tracked craft carries are deleted. */
    method ForgetUntracked()
      modifies this
      ensures paintedRotation == Restrict(old(paintedRotation), KeysOf(trackedAircraft))
      ensures sweepAngle == old(sweepAngle) && currentSweepId == old(currentSweepId)
      ensures activeBlips == old(activeBlips) && lastPingedAircraft == old(lastPingedAircraft)
      ensures lastFrameTime == old(lastFrameTime) && rangeStepIndex == old(rangeStepIndex)
      ensures trackedAircraft == old(trackedAircraft) && previousPositions == old(previousPositions)
      ensures beepVolume == old(beepVolume) && inboundAlertDistanceKm == old(inboundAlertDistanceKm)
      ensures dataConnectionOk == old(dataConnectionOk) && basePath == old(basePath) && receiver == old(receiver)
    {
      var activeKeys := KeysOf(trackedAircraft);
      var painted := paintedRotation;
      var remaining := painted.Keys;
      while remaining != {}
        invariant remaining <= paintedRotation.Keys
        invariant forall k :: k in painted <==> k in paintedRotation && (k in remaining || k in activeKeys)
        invariant forall k :: k in painted ==> painted[k] == paintedRotation[k]
        decreases |remaining|
      {
        var key :| key in remaining;
        if key !in activeKeys {
          painted := painted - {key};
        }
        remaining := remaining - {key};
      }
      paintedRotation := painted;
    }

    /** adjustVolume: the beep volume moves by delta, clamped to [0, 20]. */
    method AdjustVolume(delta: int)
      requires Valid()
      modifies this
      ensures Valid()
      ensures beepVolume == Clamp(0, 20, old(beepVolume) + delta)
      ensures paintedRotation == old(paintedRotation) && rangeStepIndex == old(rangeStepIndex)
      ensures inboundAlertDistanceKm == old(inboundAlertDistanceKm) && trackedAircraft == old(trackedAircraft)
      ensures activeBlips == old(activeBlips) && sweepAngle == old(sweepAngle)
      ensures currentSweepId == old(currentSweepId) && lastFrameTime == old(lastFrameTime)
      ensures previousPositions == old(previousPositions) && lastPingedAircraft == old(lastPingedAircraft)
      ensures dataConnectionOk == old(dataConnectionOk) && basePath == old(basePath) && receiver == old(receiver)
    {
      var nextVolume := Clamp(0, 20, beepVolume + delta);
      if nextVolume != beepVolume {
        beepVolume := nextVolume;
      }
    }

    /**
     * adjustRange: the range step moves by delta, clamped to the steps; a
     * change of range forgets every paint record.
     */
    method AdjustRange(delta: int)
      requires Valid()
      modifies this
      ensures Valid()
      ensures rangeStepIndex == Clamp(0, |RANGE_STEPS| - 1, old(rangeStepIndex) + delta)
      ensures paintedRotation == if rangeStepIndex != old(rangeStepIndex) then map[] else old(paintedRotation)
      ensures old(PaintedTracked()) ==> PaintedTracked()
      ensures beepVolume == old(beepVolume) && inboundAlertDistanceKm == old(inboundAlertDistanceKm)
      ensures trackedAircraft == old(trackedAircraft) && activeBlips == old(activeBlips)
      ensures sweepAngle == old(sweepAngle) && currentSweepId == old(currentSweepId)
      ensures lastFrameTime == old(lastFrameTime)
      ensures previousPositions == old(previousPositions) && lastPingedAircraft == old(lastPingedAircraft)
      ensures dataConnectionOk == old(dataConnectionOk) && basePath == old(basePath) && receiver == old(receiver)
    {
      var nextIndex := Clamp(0, |RANGE_STEPS| - 1, rangeStepIndex + delta);
      if nextIndex != rangeStepIndex {
        rangeStepIndex := nextIndex;
        paintedRotation := map[];
      }
    }

    /** adjustAlertRadius: the inbound alert radius moves by delta kilometres, clamped to [1, 20]. */
    method AdjustAlertRadius(delta: int)
      requires Valid()
      modifies this
      ensures Valid()
      ensures inboundAlertDistanceKm == Clamp(1, 20, old(inboundAlertDistanceKm) + delta)
      ensures paintedRotation == old(paintedRotation) && rangeStepIndex == old(rangeStepIndex)
      ensures beepVolume == old(beepVolume) && trackedAircraft == old(trackedAircraft)
      ensures activeBlips == old(activeBlips) && sweepAngle == old(sweepAngle)
      ensures currentSweepId == old(currentSweepId) && lastFrameTime == old(lastFrameTime)
      ensures previousPositions == old(previousPositions) && lastPingedAircraft == old(lastPingedAircraft)
      ensures dataConnectionOk == old(dataConnectionOk) && basePath == old(basePath) && receiver == old(receiver)
    {
      var nextValue := Clamp(1, 20, inboundAlertDistanceKm + delta);
      if nextValue != inboundAlertDistanceKm {
        inboundAlertDistanceKm := nextValue;
      }
    }

    /**
     * The fetch step of one pollData iteration: the fetched feed is
     * processed and the connection marked up; a rejected fetch, or a feed
     * whose processing throws, marks it down and resets the tracks, the
     * positions, the paint records, the blips and the base path.
     */
    method PollStep(fetch: Fetch, geo: Geodesy)
      requires Valid() && ValidGeodesy(geo)
      modifies this
      ensures Valid()
      ensures FetchFailed(fetch) ==>
        !dataConnectionOk && trackedAircraft == [] && previousPositions == map[]
        && paintedRotation == map[] && activeBlips == [] && basePath == ""
      ensures !FetchFailed(fetch) ==> dataConnectionOk && basePath == old(basePath) && activeBlips == old(activeBlips)
      ensures fetch == Fetched(Malformed) ==>
        trackedAircraft == [] && previousPositions == old(previousPositions) && paintedRotation == old(paintedRotation)
      ensures !FetchFailed(fetch) && fetch.feed.Aircraft? ==>
        trackedAircraft == FeedTracks(fetch.feed.entries, receiver, RANGE_STEPS[rangeStepIndex],
                                      old(previousPositions), geo)
        && previousPositions == PositionsOf(trackedAircraft)
        && paintedRotation == Restrict(old(paintedRotation), KeysOf(trackedAircraft))
      ensures sweepAngle == old(sweepAngle) && currentSweepId == old(currentSweepId)
      ensures lastPingedAircraft == old(lastPingedAircraft) && lastFrameTime == old(lastFrameTime)
      ensures rangeStepIndex == old(rangeStepIndex) && beepVolume == old(beepVolume)
      ensures inboundAlertDistanceKm == old(inboundAlertDistanceKm) && receiver == old(receiver)
    {
      var thrown := false;
      if fetch.Fetched? {
        thrown := ProcessAircraftData(fetch.feed, geo);
      }
      if fetch.Failed? || thrown {
        dataConnectionOk := false;
        trackedAircraft := [];
        previousPositions := map[];
        paintedRotation := map[];
        activeBlips := [];
        basePath := "";
      } else {
        dataConnectionOk := true;
      }
    }
  }
}
