/**
 * Aircraft tracks of the radar scope: the feed entries, the crafts built from
 * them in processAircraftData, and the pure helpers getCraftKey,
 * getBeepFrequencyForAltitude and calculateHeading.
 *
 * Coordinates are micro-degrees, distances metres and bearings milli-degrees.
 * The great-circle distance and bearing (haversine, calculateBearing) are
 * trigonometry on floating point and come in as the functions of a Geodesy.
 */
module Tracks {
  import opened Wrappers
  import opened JsText
  import opened JsNumber
  import opened Angles
  import opened JsArray

  /** A latitude and longitude in micro-degrees. */
  datatype Position = Position(lat: int, lon: int)

  /**
   * One element of the feed's aircraft array. NullEntry is a null element;
   * a missing field, or one of the wrong type, is None (a latitude or
   * longitude that is NaN or infinite counts as missing: haversine turns it
   * into a non-finite distance and the entry is skipped either way).
   */
  datatype Entry =
    | NullEntry
    | Entry(lat: Option<int>, lon: Option<int>, hex: Option<string>, flight: Option<string>,
            altBaro: Option<int>, groundSpeed: Option<int>)

  /** A tracked aircraft as processAircraftData builds it. */
  datatype Craft = Craft(flight: string, hex: string, position: Position, distance: int,
                         bearing: int, heading: int, altitude: int, groundSpeed: int, key: string)

  /**
   * The great-circle helpers: distance in metres from the first position to
   * the second (None when not finite) and the initial bearing in milli-degrees.
   */
  datatype Geodesy = Geodesy(distance: (Position, Position) -> Option<int>,
                             bearing: (Position, Position) -> int)

  /** The bearing function returns bearings in [0, 360), as calculateBearing's final `% 360` does. */
  ghost predicate ValidGeodesy(geo: Geodesy) {
    forall p: Position, q: Position :: IsAngle(geo.bearing(p, q))
  }

  // ---------------------------------------------------------------------------
  // getCraftKey

  /** Number.prototype.toFixed(3) of a coordinate given in micro-degrees. */
  function Fixed3(micro: int): (s: string)
    ensures s != [] && ',' !in s
  {
    var n := (Abs(micro) + 500) / 1000;
    var t := (if micro < 0 then "-" else "") + NatToString(n / 1000) + "." + Pad3(n % 1000);
    assert ',' !in NatToString(n / 1000) by { NoCommaInDigits(NatToString(n / 1000)); }
    t
  }

  /** The three decimals of a fraction in thousandths, with leading zeros. */
  function Pad3(r: nat): (s: string)
    requires r < 1000
    ensures |s| == 3 && AllDigits(s)
  {
    [DigitChar(r / 100), DigitChar(r / 10 % 10), DigitChar(r % 10)]
  }

  lemma NoCommaInDigits(s: string)
    requires AllDigits(s)
    ensures ',' !in s
  {
    forall i | 0 <= i < |s| ensures s[i] != ',' {
      assert IsDigit(s[i]);
    }
  }

  /** getCraftKey: the hex code, else the flight, else "lat,lon" to three decimals. */
  function GetCraftKey(hex: string, flight: string, position: Position): string {
    if hex != "" then hex
    else if flight != "" then flight
    else Fixed3(position.lat) + "," + Fixed3(position.lon)
  }

  /**
   * The key is never empty; a non-empty hex code wins, then a non-empty
   * flight, and the fallback key holds exactly one comma, between the two
   * rounded coordinates.
   */
  lemma GetCraftKeyPriority(hex: string, flight: string, position: Position)
    ensures GetCraftKey(hex, flight, position) != ""
    ensures hex != "" ==> GetCraftKey(hex, flight, position) == hex
    ensures hex == "" && flight != "" ==> GetCraftKey(hex, flight, position) == flight
    ensures hex == "" && flight == "" ==>
      Split(GetCraftKey(hex, flight, position), ',') == [Fixed3(position.lat), Fixed3(position.lon)]
  {
    if hex == "" && flight == "" {
      var a, b := Fixed3(position.lat), Fixed3(position.lon);
      assert a + "," + b == a + [','] + b;
      SplitAround(a, ',', b);
      SplitWithout(a, ',');
      SplitWithout(b, ',');
    }
  }

  // ---------------------------------------------------------------------------
  // getBeepFrequencyForAltitude

  const ALT_LOW_FEET: int := 10000
  const ALT_HIGH_FEET: int := 30000
  const FREQ_LOW: int := 800
  const FREQ_MID: int := 1200
  const FREQ_HIGH: int := 1800

  /** getBeepFrequencyForAltitude; None is a null altitude. */
  function BeepFrequency(altitude: Option<int>): int {
    if altitude.None? || altitude.value < 0 then FREQ_MID
    else if altitude.value < ALT_LOW_FEET then FREQ_LOW
    else if altitude.value < ALT_HIGH_FEET then FREQ_MID
    else FREQ_HIGH
  }

  /**
   * The tone is one of the three bands, the middle one for an unknown or
   * negative altitude, and it never falls as a known altitude climbs.
   */
  lemma BeepFrequencyBands(a: int, b: int)
    ensures BeepFrequency(None) == FREQ_MID
    ensures BeepFrequency(Some(a)) in {FREQ_LOW, FREQ_MID, FREQ_HIGH}
    ensures a < 0 ==> BeepFrequency(Some(a)) == FREQ_MID
    ensures 0 <= a <= b ==> BeepFrequency(Some(a)) <= BeepFrequency(Some(b))
    ensures 0 <= a ==> (BeepFrequency(Some(a)) == FREQ_LOW <==> a < ALT_LOW_FEET)
    ensures 0 <= a ==> (BeepFrequency(Some(a)) == FREQ_HIGH <==> a >= ALT_HIGH_FEET)
  {
  }

  // ---------------------------------------------------------------------------
  // calculateHeading

  /**
   * calculateHeading: the bearing from the receiver when there is no previous
   * position, else the course from the previous position (`course`, None when
   * it is not finite), falling back to the bearing.
   */
  function CalculateHeading(previous: Option<Position>, bearing: int, course: Option<int>): (h: int)
    ensures previous.None? || course.None? ==> h == bearing
    ensures previous.Some? && course.Some? ==> h == course.value
    ensures IsAngle(bearing) && (course.Some? ==> IsAngle(course.value)) ==> IsAngle(h)
  {
    if previous.None? then bearing
    else if course.Some? then course.value
    else bearing
  }

  // ---------------------------------------------------------------------------
  // processAircraftData, one entry at a time

  /** The range steps of the range control, in kilometres. */
  const RANGE_STEPS: seq<int> := [5, 10, 25, 50, 100, 150, 200, 300]

  /** The craft an entry becomes, or None when it is skipped (no coordinates, or beyond range). */
  function TrackOf(entry: Entry, receiver: Position, rangeKm: int,
                   previous: map<string, Position>, geo: Geodesy): Option<Craft>
    requires entry.Entry?
  {
    if entry.lat.None? || entry.lon.None? then None
    else
      var position := Position(entry.lat.value, entry.lon.value);
      var distance := geo.distance(receiver, position);
      if distance.None? || distance.value > rangeKm * 1000 then None
      else
        var bearing := geo.bearing(receiver, position);
        var hex := if entry.hex.Some? then ToUpper(Trim(entry.hex.value)) else "";
        var flight := if entry.flight.Some? then Trim(entry.flight.value) else "";
        var prev := if hex != "" && hex in previous then Some(previous[hex]) else None;
        var heading := CalculateHeading(prev, bearing,
                                        if prev.Some? then Some(geo.bearing(prev.value, position)) else None);
        var altitude := if entry.altBaro.Some? then entry.altBaro.value else -1;
        var speed := if entry.groundSpeed.Some? then entry.groundSpeed.value else -1;
        Some(Craft(flight, hex, position, distance.value, bearing, heading, altitude, speed,
                   GetCraftKey(hex, flight, position)))
  }

  /**
   * An entry is skipped exactly when it has no coordinates or its distance
   * is not finite or beyond the range; a kept craft lies within range, keeps
   * the entry's coordinates, has a non-empty key computed by getCraftKey, and
   * its bearing and heading are bearings.
   */
  lemma TrackOfKeeps(entry: Entry, receiver: Position, rangeKm: int,
                     previous: map<string, Position>, geo: Geodesy)
    requires entry.Entry? && ValidGeodesy(geo)
    ensures var t := TrackOf(entry, receiver, rangeKm, previous, geo);
      t.None? <==> (entry.lat.None? || entry.lon.None?
                    || geo.distance(receiver, Position(entry.lat.value, entry.lon.value)).None?
                    || geo.distance(receiver, Position(entry.lat.value, entry.lon.value)).value > rangeKm * 1000)
    ensures var t := TrackOf(entry, receiver, rangeKm, previous, geo);
      t.Some? ==> (t.value.distance <= rangeKm * 1000
        && t.value.position == Position(entry.lat.value, entry.lon.value)
        && t.value.key == GetCraftKey(t.value.hex, t.value.flight, t.value.position)
        && t.value.key != ""
        && IsAngle(t.value.bearing) && IsAngle(t.value.heading))
  {
    var t := TrackOf(entry, receiver, rangeKm, previous, geo);
    if t.Some? {
      GetCraftKeyPriority(t.value.hex, t.value.flight, t.value.position);
      var p := Position(entry.lat.value, entry.lon.value);
      assert IsAngle(geo.bearing(receiver, p));
      if t.value.hex in previous {
        assert IsAngle(geo.bearing(previous[t.value.hex], p));
      }
    }
  }

  /** The crafts of a feed without null elements, in feed order. */
  function FeedTracks(entries: seq<Entry>, receiver: Position, rangeKm: int,
                  previous: map<string, Position>, geo: Geodesy): seq<Craft>
    requires forall e :: e in entries ==> e.Entry?
  {
    if entries == [] then []
    else
      var init := entries[..|entries| - 1];
      var last := TrackOf(entries[|entries| - 1], receiver, rangeKm, previous, geo);
      FeedTracks(init, receiver, rangeKm, previous, geo) + (if last.Some? then [last.value] else [])
  }

  /** The crafts of a feed are the values an entry-wise track function keeps. */
  lemma {:induction false} FeedTracksAreKept(entries: seq<Entry>, receiver: Position, rangeKm: int,
                                             previous: map<string, Position>, geo: Geodesy,
                                             track: Entry --> Option<Craft>)
    requires forall e :: e in entries ==> e.Entry?
    requires forall e: Entry :: e.Entry? ==> track.requires(e) && track(e) == TrackOf(e, receiver, rangeKm, previous, geo)
    ensures FeedTracks(entries, receiver, rangeKm, previous, geo) == Kept(entries, track)
  {
    if entries != [] {
      var n := |entries| - 1;
      assert forall e :: e in entries[..n] ==> e in entries;
      FeedTracksAreKept(entries[..n], receiver, rangeKm, previous, geo, track);
    }
  }

  /** The crafts are exactly the kept entries. */
  lemma TracksAreKeptEntries(entries: seq<Entry>, receiver: Position, rangeKm: int,
                             previous: map<string, Position>, geo: Geodesy)
    requires forall e :: e in entries ==> e.Entry?
    ensures |FeedTracks(entries, receiver, rangeKm, previous, geo)| <= |entries|
    ensures forall c :: c in FeedTracks(entries, receiver, rangeKm, previous, geo) <==>
      exists j :: 0 <= j < |entries| && TrackOf(entries[j], receiver, rangeKm, previous, geo) == Some(c)
  {
    var track := (e: Entry) requires e.Entry? => TrackOf(e, receiver, rangeKm, previous, geo);
    FeedTracksAreKept(entries, receiver, rangeKm, previous, geo, track);
    KeptMembers(entries, track);
    assert forall j :: 0 <= j < |entries| ==> track(entries[j]) == TrackOf(entries[j], receiver, rangeKm, previous, geo);
  }

  /** Every craft of a feed is in range and carries its getCraftKey key. */
  lemma TracksInRange(entries: seq<Entry>, receiver: Position, rangeKm: int,
                      previous: map<string, Position>, geo: Geodesy)
    requires forall e :: e in entries ==> e.Entry?
    requires ValidGeodesy(geo)
    ensures forall c :: c in FeedTracks(entries, receiver, rangeKm, previous, geo) ==>
      c.distance <= rangeKm * 1000 && c.key == GetCraftKey(c.hex, c.flight, c.position) && c.key != ""
      && IsAngle(c.bearing) && IsAngle(c.heading)
  {
    TracksAreKeptEntries(entries, receiver, rangeKm, previous, geo);
    forall c | c in FeedTracks(entries, receiver, rangeKm, previous, geo)
      ensures c.distance <= rangeKm * 1000 && c.key == GetCraftKey(c.hex, c.flight, c.position)
        && c.key != "" && IsAngle(c.bearing) && IsAngle(c.heading)
    {
      var j :| 0 <= j < |entries| && TrackOf(entries[j], receiver, rangeKm, previous, geo) == Some(c);
      TrackOfKeeps(entries[j], receiver, rangeKm, previous, geo);
    }
  }

  // ---------------------------------------------------------------------------
  // The previous-position map and the live keys

  /** nextPositions: the position of each craft with a hex code, a later craft overwriting an earlier one. */
  function PositionsOf(crafts: seq<Craft>): map<string, Position> {
    if crafts == [] then map[]
    else
      var last := crafts[|crafts| - 1];
      var m := PositionsOf(crafts[..|crafts| - 1]);
      if last.hex != "" then m[last.hex := last.position] else m
  }

  /** The map holds exactly the non-empty hex codes of the crafts. */
  lemma {:induction false} PositionsOfKeys(crafts: seq<Craft>)
    ensures forall h :: h in PositionsOf(crafts) <==> h != "" && exists i :: 0 <= i < |crafts| && crafts[i].hex == h
  {
    if crafts != [] {
      var n := |crafts| - 1;
      var init := crafts[..n];
      PositionsOfKeys(init);
      forall h | h != "" && exists i :: 0 <= i < |crafts| && crafts[i].hex == h
        ensures h in PositionsOf(crafts)
      {
        var i :| 0 <= i < |crafts| && crafts[i].hex == h;
        if i < n {
          assert init[i].hex == h;
        }
      }
      forall h | h in PositionsOf(crafts)
        ensures h != "" && exists i :: 0 <= i < |crafts| && crafts[i].hex == h
      {
        if h in PositionsOf(init) {
          var i :| 0 <= i < |init| && init[i].hex == h;
          assert crafts[i].hex == h;
        }
      }
    }
  }

  /** Each hex code maps to the position of the last craft carrying it. */
  lemma {:induction false} PositionsOfLast(crafts: seq<Craft>, h: string)
    requires h in PositionsOf(crafts)
    ensures exists i :: (0 <= i < |crafts| && crafts[i].hex == h && PositionsOf(crafts)[h] == crafts[i].position
      && forall j :: i < j < |crafts| ==> crafts[j].hex != h)
  {
    PositionsOfKeys(crafts);
    assert crafts != [] && h != "";
    var n := |crafts| - 1;
    var init := crafts[..n];
    if crafts[n].hex == h && h != "" {
      assert PositionsOf(crafts)[h] == crafts[n].position;
    } else {
      PositionsOfLast(init, h);
      var i :| 0 <= i < |init| && init[i].hex == h && PositionsOf(init)[h] == init[i].position
        && forall j :: i < j < |init| ==> init[j].hex != h;
      assert crafts[i] == init[i];
      forall j | i < j < |crafts| ensures crafts[j].hex != h {
        if j < n {
          assert crafts[j] == init[j];
        }
      }
    }
  }

  /** The keys of the tracked crafts (activeKeys). */
  function KeysOf(crafts: seq<Craft>): set<string> {
    set c | c in crafts :: c.key
  }
}
