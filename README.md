# radar1090html5 core, modelled in Dafny

radar1090html5 is a browser radar scope for a dump1090 ADS-B receiver. It
comes with a small Node helper that finds Ollama servers on the local
network. This project models the sequential logic of both, and proves what
that logic promises.

**The radar scope (`app.js`).**
- The scope keeps one `state` object, modelled as the class
  `Radar.RadarScope` with the same fields.
- `Frame` is one animation frame. The beam advances by the elapsed time and
  a completed turn counts a new sweep id. Every tracked aircraft that the
  beam crossed is painted once per sweep: it gets a blip and its key records
  the sweep id in `paintedRotation`. Blips older than one rotation are
  dropped.
- `ProcessAircraftData` rebuilds the tracked list from a feed. It skips
  entries without coordinates or beyond the range, swaps in the new
  previous-position map, and deletes the paint records of vanished aircraft.
- The volume, range and alert-radius controls are clamped.
  `PollStep` models the failure path of `pollData`, which resets the state.
- The pure helpers are modelled as functions:
  - `forwardAngleDelta` (module `Angles`);
  - `getCraftKey`, `getBeepFrequencyForAltitude` and `calculateHeading`
    (module `Tracks`);
  - `buildUrl` and the base-path candidate order of
    `determineServerBasePath` (module `Server`).
- The sweep's arithmetic and the paint loop are modelled as functions, with
  their properties as lemmas (module `Sweep`).
- Angles are integers in milli-degrees (`FULL == 360_000`), coordinates in
  micro-degrees, distances in metres and times in milliseconds.
- The great-circle distance and bearing are a `Geodesy` parameter. The only
  thing assumed about it is that bearings lie in [0, 360).

**The discovery helper (`ollama-discovery-helper.js`).**
- `Ipv4` models `countBits`, `ipToInt`, `intToIp`, `netmaskToPrefix` and
  `isPrivate`. JavaScript's 32-bit operators are written out in module
  `JsNumber` (`ToInt32`, `ToUint32`, `JsAnd`, `JsOr`, `JsShl`, `JsUShr`).
- `Cidr` models `parseCidr` and `expandCidr`.
- `HelperArgs` models the environment defaults and `parseArgs`.
- `Discovery` models `uniqueHosts`, the candidate trimming of
  `discoverOllamaHosts` and its latency sort of the endpoints.
- The JavaScript built-ins the code relies on are modelled on sequences:
  - `Number.parseInt`, `toString` and `toString(2)` (module `JsNumber`);
  - `split`, `join`, `trim` and `toUpperCase` (module `JsText`);
  - `filter` and `map` (module `JsArray`).

The main results:
- `ipToInt` and `intToIp` are inverse. `expandCidr` of an `a.b.c.d/p` block
  (section 3.1 of RFC 4632) lists exactly its 2^(32-p) - 2 host addresses in
  ascending order. The /0, /31 and /32 blocks list none.
- `isPrivate` holds exactly for the blocks of section 3 of RFC 1918.
- `parseArgs` is a loop proved equal to a recursive specification. From the
  defaults, no argument list can push the concurrency or the host limit
  below 1.
- `uniqueHosts` keeps the first occurrence of each host, in order.
- A frame paints each key at most once per sweep id, and only crossed
  aircraft are painted. Painting again within the same sweep id paints
  nothing.
- After a feed with an `aircraft` array, every paint record names a tracked
  aircraft. A feed without that array empties the tracked list but keeps
  the paint records and the previous positions (app.js:593-596), so records
  of aircraft no longer tracked can remain until the next well-formed feed.

## Model

| member | source | states |
|---|---|---|
| Angles.JsRem | app.js:325 | JavaScript `%` for a positive modulus: the remainder has the dividend's sign and agrees with Euclidean `%` on non-negative dividends |
| Angles.ForwardAngleDeltaIsTurn | app.js:324-326 | for two bearings the delta is a bearing. It is the unique clockwise turn in [0, 360) that takes `from` onto `to`, and it is 0 exactly when they agree |
| Angles.ForwardAngleDeltaValue | app.js:324-326 | the delta between two bearings is `to - from`, plus 360 when `to` is behind `from` |
| Angles.ForwardAngleDeltaAcrossNorth | app.js:324-326 | from 350 to 10 degrees the delta is 20 degrees |
| Angles.HeadingDifferenceIsSmallerTurn | app.js:671-674 | the heading difference of evaluateInbound is the smaller of the two turns between the course back to the receiver and the heading, so it lies in [0, 180] |
| Sweep.Clamp | app.js:396 | `Math.min(hi, Math.max(lo, v))` lies in [lo, hi]. It is v inside the range and the nearer bound outside it |
| Sweep.SweepStep | app.js:769-784 | after a frame the beam is on a bearing. For an advance below a full turn it wraps exactly when it passes north, and it moves by the advance. The tolerance lies in [0.75, 2.5] degrees. The sweep id is unchanged without a wrap; with one it grows by 1, or restarts at 0 past MAX_SAFE_INTEGER - 1 |
| Sweep.PaintPassAppends | app.js:819-848 | the paint loop only appends: one blip per painted key, each spawned at `now` |
| Sweep.PaintPassKeepsCurrent | app.js:819-845 | a record that already holds the current sweep id keeps it |
| Sweep.PaintPassCovers | app.js:819-845 | after the loop, the key of every crossed aircraft records the current sweep id |
| Sweep.PaintPassRecords | app.js:819-845 | the records the loop changes are exactly the painted keys, each now holding the current id. Every other record is unchanged |
| Sweep.PaintPassUnmarked | app.js:821 | a key is painted only when its record did not already hold the current sweep id |
| Sweep.PaintPassOnce | app.js:819-845 | no key is painted twice in one pass |
| Sweep.PaintPassCrossedOnly | app.js:822-825 | every painted key is the key of a tracked aircraft whose bearing lies within the beam's reach (`sweepDelta + sweepTolerance`) past the previous angle |
| Sweep.PaintPassSettled | app.js:821 | once every crossed aircraft's key records the current id, the loop changes nothing |
| Sweep.PaintPassIdempotent | app.js:819-845 | running the paint loop a second time within the same sweep id adds no blip and changes no record |
| Sweep.LiveKeepsYoung | app.js:851-852 | pruning keeps exactly the blips younger than one rotation period |
| Sweep.LiveOfAppend | app.js:847-852 | pruning keeps the order, so this frame's blips stay after the older ones |
| Sweep.AlphaBounds | app.js:855-857 | the drawn opacity lies in [0, 1] and is positive while the blip is younger than a rotation |
| Tracks.Fixed3 | app.js:338-339 | `toFixed(3)` of a coordinate is non-empty and has no comma |
| Tracks.GetCraftKeyPriority | app.js:335-341 | the key is never empty. A non-empty hex wins, then a non-empty flight. Otherwise it is the two rounded coordinates joined by one comma |
| Tracks.BeepFrequencyBands | app.js:343-348 | a null or negative altitude gives FREQ_MID. Otherwise below 10000 ft gives FREQ_LOW, from 30000 ft FREQ_HIGH, and FREQ_MID in between; over non-negative altitudes the tone never falls as altitude rises (from -1 to 0 ft it falls from FREQ_MID to FREQ_LOW) |
| Tracks.CalculateHeading | app.js:318-322 | the heading is a bearing in [0, 360) whenever the bearing from the receiver and the course are; it falls back to the bearing from the receiver without a previous position or a finite course |
| Tracks.TrackOfKeeps | app.js:603-633 | an entry is skipped exactly when it lacks coordinates, or its distance is not finite or is beyond the range. A kept aircraft is within range, keeps the entry's coordinates, carries its getCraftKey key, and has a bearing and a heading in [0, 360) |
| Tracks.FeedTracksAreKept | app.js:603-646 | the tracked list is the entries' tracks in feed order, with the skipped entries left out |
| Tracks.TracksAreKeptEntries | app.js:603-646 | an aircraft is tracked exactly when some entry of the feed produces it; there are at most as many aircraft as entries |
| Tracks.TracksInRange | app.js:603-633 | every tracked aircraft is within range, with a non-empty getCraftKey key and a bearing and heading in [0, 360) |
| Tracks.PositionsOfKeys | app.js:643-645 | `nextPositions` holds exactly the non-empty hex codes of the tracked aircraft |
| Tracks.PositionsOfLast | app.js:643-645 | each hex code maps to the position of the last aircraft that carries it |
| Radar.PaintKeepsRecords | app.js:819-845 | across the paint loop, records stay within [0, current id] and keep naming tracked aircraft only, and every crossed aircraft's key records the current id |
| Radar.PrunedBlipsAreLive | app.js:847-852 | after appending and pruning, every blip was spawned no later than now and is younger than a rotation |
| Radar.CollectTracks | app.js:603-646 | the entry loop throws exactly when an element of the array is null. Otherwise it yields the feed's tracks and the hex-keyed positions of those tracks |
| Radar.RadarScope.constructor | app.js:62-91 | the initial state: beam at 0, sweep id 0, empty maps and lists, range step 3, volume 10, alert radius 5 km, the stored base path or the default one, and the stored receiver location or 54 N 1 W |
| Radar.RadarScope.Frame | app.js:768-852 | one frame: the new angle and sweep id, the paint records and last-pinged aircraft that the paint loop yields, and the pruned blips. The invariant is kept, every crossed aircraft is painted, paint records keep naming tracked aircraft, and nothing else changes |
| Radar.RadarScope.AdvanceBeam | app.js:769-784 | the beam advances by the elapsed time and the sweep id counts a wrap. Past MAX_SAFE_INTEGER - 1 it restarts at 0 and the paint records are cleared. Returns the previous angle and the reach |
| Radar.RadarScope.PaintTracked | app.js:819-845 | the paint loop over the tracked aircraft yields the paint records, the last pinged aircraft and the new blips of the paint-pass function; nothing else changes |
| Radar.RadarScope.ProcessAircraftData | app.js:592-658 | see below the table |
| Radar.RadarScope.ForgetUntracked | app.js:651-658 | deletes exactly the paint records whose key no tracked aircraft carries |
| Radar.RadarScope.AdjustVolume | app.js:395-402 | the volume becomes the clamp to [0, 20] of volume + delta; every other field is unchanged |
| Radar.RadarScope.AdjustRange | app.js:404-415 | the range step becomes the clamp to the steps of index + delta. The paint records are cleared exactly when the step changes; every other field is unchanged |
| Radar.RadarScope.AdjustAlertRadius | app.js:417-424 | the alert radius becomes the clamp to [1, 20] of radius + delta; every other field is unchanged |
| Radar.RadarScope.PollStep | app.js:544-557 | see below the table |
| Server.StripSlashesOfPadded | app.js:496 | a base path with no slash at either end, padded with any runs of slashes, strips back to itself |
| Server.StripSlashesSplits | app.js:496 | every base path is its stripped form between two runs of slashes, and the stripped form has no slash at either end |
| Server.StripSlashesIdempotent | app.js:496 | stripping twice is stripping once |
| Server.BuildUrlDefault | app.js:494-499 | without a base path the URL uses `dump1090-fa/data`, the same as setting it explicitly |
| Server.BuildUrlIgnoresSlashes | app.js:494-499 | slashes around a base path do not change the URL |
| Server.BasePathCandidatesOrder | app.js:569-571 | a non-empty current base path is tried first. The candidates are the two options plus the current path, each exactly once, so there are 2 or 3 of them |
| Ipv4.CountBitsIsPopcount | ollama-discovery-helper.js:16 | countBits (the pieces of the binary text split at '1', minus one) is the number of one bits |
| Ipv4.IpToInt | ollama-discovery-helper.js:17 | ipToInt of any text lies in [0, 2^32) |
| Ipv4.OctetIsShiftAndMask | ollama-discovery-helper.js:18 | the byte intToIp prints is `(n >>> shift) & 0xff` under the JavaScript operators |
| Ipv4.IpToIntOfDottedQuad | ollama-discovery-helper.js:17 | ipToInt reads the canonical text of a.b.c.d as its 32-bit value |
| Ipv4.IpToIntOfParsed | ollama-discovery-helper.js:17 | ipToInt of any four-part text whose parts parse to bytes a, b, c and d is the value of a.b.c.d, even where `<< 8` wraps to a negative int32 |
| Ipv4.QuadArithmetic | ollama-discovery-helper.js:17 | the final `>>> 0` undoes the signed wrap of the last `<< 8` |
| Ipv4.IntToIpOfQuadValue | ollama-discovery-helper.js:18 | intToIp of the value of a.b.c.d prints a.b.c.d |
| Ipv4.IpToIntOfIntToIp | ollama-discovery-helper.js:17-18 | `ipToInt(intToIp(n)) == n` for every n in [0, 2^32) |
| Ipv4.IntToIpUnsigned | ollama-discovery-helper.js:18 | intToIp reads its argument modulo 2^32 |
| Ipv4.IpToIntOfIntToIpMod | ollama-discovery-helper.js:17-18 | for any integer n, ipToInt(intToIp(n)) is n modulo 2^32 |
| Ipv4.IntToIpOfIpToInt | ollama-discovery-helper.js:17-18 | `intToIp(ipToInt(s)) == s` for every canonical dotted quad s |
| Ipv4.NetmaskToPrefixOfMask | ollama-discovery-helper.js:20 | the netmask of p leading one bits, printed by intToIp, gives prefix length p |
| Ipv4.NetmaskToPrefixOf24 | ollama-discovery-helper.js:20 | 255.255.255.0 gives 24 |
| Ipv4.IsPrivateOfDottedQuad | ollama-discovery-helper.js:22-31 | for a canonical address, isPrivate holds exactly for 10/8, 172.16/12 and 192.168/16. A null or empty address is not private |
| Ipv4.IsPrivateOfParts | ollama-discovery-helper.js:22-31 | for text a.b.rest, with a second dot after the part b, isPrivate holds exactly when a is "10", or a is "192" and b is "168", or a is "172" and b parses to 16..31 |
| Ipv4.IsPrivateOfTwoParts | ollama-discovery-helper.js:22-31 | for text a.b with a single dot, isPrivate holds exactly when a is "10", or a is "172" and b parses to 16..31; "192.168" is not private, because the "192.168." prefix needs a second dot |
| Cidr.ParseCidr | ollama-discovery-helper.js:120-128 | an accepted CIDR is a dotted quad of 1-3 digit parts, a '/' and 1-2 prefix digits whose value is at most 32. The result is that ip text and that prefix |
| Cidr.ParseCidrAccepts | ollama-discovery-helper.js:120-128 | every `quad/digits` text is accepted exactly when its prefix is at most 32, and then yields its ip text and prefix; together with Cidr.ParseCidr this is both directions |
| Cidr.ParseCidrOfCanonical | ollama-discovery-helper.js:120-128 | the canonical text a.b.c.d/p parses back to its ip text and p when p <= 32, and is rejected when p > 32 |
| Cidr.HostsBetween | ollama-discovery-helper.js:137-141 | the counting loop lists intToIp of every integer strictly between the network and broadcast values, in order |
| Cidr.ExpandCidr | ollama-discovery-helper.js:130-142 | nothing for a rejected CIDR. Otherwise the integers between network and broadcast: none for /0 (signed broadcast -1), /31 and /32, and for /1 to /31 the block's host addresses |
| Cidr.ExpandedBlock | ollama-discovery-helper.js:133-141 | the listed range of a parsed block, prefix by prefix: empty for /0, /31 and /32, and the block's hosts otherwise |
| Cidr.RangeOfPrefixZero | ollama-discovery-helper.js:134-136 | for /0 the mask is 0, the network 0 and the broadcast the signed -1 |
| Cidr.RangeOfPrefix | ollama-discovery-helper.js:134-136 | for /1 to /32 the network and broadcast span exactly the 2^(32-p) addresses of the block |
| Cidr.BlockHostValues | ollama-discovery-helper.js:138-139 | the i-th host lies strictly between the network and broadcast addresses and keeps the network bits of the base address |
| Cidr.BlockHostReadBack | ollama-discovery-helper.js:138-139 | the i-th listed host reads back as network + 1 + i, so the list strictly ascends |
| Cidr.BlockHostCount | ollama-discovery-helper.js:138 | a /1 to /31 block lists 2^(32-p) - 2 hosts |
| Cidr.HostsReadBack | ollama-discovery-helper.js:138-139 | every listed host of a non-negative range reads back as its address |
| HelperArgs.HostListMembers | ollama-discovery-helper.js:88-91 | the hosts of a list are exactly the non-empty trimmed comma-separated pieces |
| HelperArgs.HostListWellFormed | ollama-discovery-helper.js:88-91 | every listed host is non-empty, without commas, and without whitespace at either end |
| HelperArgs.HostListOfOne | ollama-discovery-helper.js:88-91 | text without a comma lists its trimmed self, or nothing when that is empty |
| HelperArgs.DefaultsWithoutEnvironment | ollama-discovery-helper.js:7-14 | with no environment variable set, the defaults are port 8081, Ollama port 11434, no CIDR, rescan 120000 ms, timeout 2500 ms, concurrency 20, 512 hosts, no extra hosts, and once false |
| HelperArgs.AtLeastOne | ollama-discovery-helper.js:78 | `Math.max(1, n)` is NaN exactly for NaN, otherwise at least 1 and at least n, and n itself when n >= 1 |
| HelperArgs.ParseArgs | ollama-discovery-helper.js:33-103 | the index loop returns the recursive specification `ParseFrom(argv, 2, defaults)` |
| HelperArgs.NumericFlag | ollama-discovery-helper.js:57-86 | a numeric flag consumes its value and changes its own setting only. A truthy parse sets it, clamped to at least 1 for concurrency and max-hosts. NaN or 0 (or a missing value) keeps the previous setting |
| HelperArgs.NumericFlagOfDecimal | ollama-discovery-helper.js:57-86 | the decimal text of a positive n sets the setting to exactly n |
| HelperArgs.ValueFlagConsumes | ollama-discovery-helper.js:52-95 | a value flag consumes the next element whatever it says; the loop resumes two places on |
| HelperArgs.CidrTakesHelp | ollama-discovery-helper.js:52-56 | `--cidr --help` sets the CIDR to "--help" and does not exit |
| HelperArgs.OnceAndUnknown | ollama-discovery-helper.js:96-99 | `--once` sets once and consumes nothing; an unknown argument is skipped |
| HelperArgs.UsageNeedsHelp | ollama-discovery-helper.js:48-51 | the usage exit happens only if a help flag appears at or after i. A help flag reached as an argument always exits |
| HelperArgs.StepKeepsSettled | ollama-discovery-helper.js:46-100 | one argument keeps the ports and intervals truthy, concurrency and max-hosts at least 1, and the hosts well-formed, appending only at the end |
| HelperArgs.ParseFromKeepsSettled | ollama-discovery-helper.js:46-100 | from a settled config, every argument list yields a settled config whose hosts extend the old ones with well-formed hosts |
| HelperArgs.DefaultsSettled | ollama-discovery-helper.js:7-44 | the defaults with no environment variable set are settled, so every config parseArgs returns from them is settled |
| Discovery.UniqueHosts | ollama-discovery-helper.js:194-203 | the forEach loop with its `seen` set returns the first-occurrence list |
| Discovery.FirstsMembers | ollama-discovery-helper.js:194-203 | the kept hosts are exactly the non-empty input hosts, each once |
| Discovery.FirstsOrder | ollama-discovery-helper.js:194-203 | the kept hosts appear in the order of their first occurrences |
| Discovery.FirstsPrefix | ollama-discovery-helper.js:208 | deduplicating the CIDR hosts followed by the extra hosts keeps the deduplicated CIDR hosts in front |
| Discovery.TrimmedPrefix | ollama-discovery-helper.js:209-212 | the trimmed list is a prefix of the candidates. For a non-negative maxHosts it keeps min(length, maxHosts) hosts; with a NaN maxHosts nothing is cut; a negative one cuts from the end as `slice` does |
| Discovery.Candidates | ollama-discovery-helper.js:206-212 | the CIDR is the configured one, or else the derived one. The candidates are the trimmed, deduplicated CIDR hosts followed by the extra hosts |
| Discovery.HostsFromCidr | ollama-discovery-helper.js:207 | `cidr ? expandCidr(cidr) : []` is the expansion of the CIDR |
| Discovery.CandidatesShape | ollama-discovery-helper.js:208-212 | the candidates are distinct, non-empty hosts taken from either list, at most maxHosts of them. When all deduplicated CIDR hosts fit, they come first |
| Discovery.PresentMembers | ollama-discovery-helper.js:224-226 | the endpoints kept are exactly the non-null probe results |
| Discovery.InsertPermutes | ollama-discovery-helper.js:227 | inserting one probe adds exactly that probe |
| Discovery.InsertSorted | ollama-discovery-helper.js:227 | inserting into a latency-sorted list keeps it sorted |
| Discovery.SortByLatencySorts | ollama-discovery-helper.js:227 | the sort returns a permutation of its input in ascending latency |
| Discovery.InsertWithLatency | ollama-discovery-helper.js:227 | inserting a probe changes the probes of any one latency only by placing the new probe, if it has that latency, ahead of them |
| Discovery.SortByLatencyStable | ollama-discovery-helper.js:227 | the sort is stable: for every latency, the probes with that latency appear in their input order |
| Discovery.EndpointsSorted | ollama-discovery-helper.js:224-227 | the endpoints are the non-null results, each as often as returned, in ascending latency |
| JsText.TrimIsMaximalStrip | ollama-discovery-helper.js:90 | `trim()` returns a slice s[i..j] with only whitespace outside it and non-whitespace at both of its ends; trimming twice is trimming once |
| JsText.SplitJoin | ollama-discovery-helper.js:17-18 | splitting a join gives the parts back when no part holds the separator |
| JsText.JoinSplit | ollama-discovery-helper.js:17-18 | joining a split gives the text back |
| JsText.ToUpper | app.js:611 | upper-casing keeps the length, turns each lower-case ASCII letter into its upper-case letter (code minus 32), and changes nothing else |
| JsNumber.ParseIntOfNatToString | ollama-discovery-helper.js:58 | `Number.parseInt` reads the decimal text of a non-negative integer back as that integer |
| JsNumber.ToInt32 | ollama-discovery-helper.js:17 | ToInt32 lies in [-2^31, 2^31) and agrees with the argument modulo 2^32 |
| JsNumber.PopcountOfRun | ollama-discovery-helper.js:20 | a run of n - k one bits above k zero bits has n - k one bits |

The two rows marked "see below the table" state the following.

- **Radar.RadarScope.ProcessAircraftData** (app.js:592-658):
  - a null element throws before anything changes;
  - a feed without an aircraft array only empties the tracked list;
  - otherwise the tracked aircraft are the feed's tracks, `previousPositions` holds exactly their hex-keyed positions, and the paint records are restricted to the live keys, so every record names a tracked aircraft;
  - the invariant is kept and nothing else changes.
- **Radar.RadarScope.PollStep** (app.js:544-557):
  - a rejected fetch, or a feed that throws, marks the connection down and empties the tracks, the positions, the paint records and the blips, and nulls the base path;
  - otherwise the connection is up and the feed is processed as above.

## Left out

- The great-circle distance and bearing (`haversine`, `calculateBearing`, app.js:297-316) are the `Geodesy` parameter. The model assumes only that bearings lie in [0, 360). The cosine and sine of `evaluateInbound` are left out, and only its heading-difference fold is modelled (`Angles.HeadingDifference`).
- Floating point:
  - Angles are whole milli-degrees, coordinates whole micro-degrees and distances whole metres.
  - Frame times are whole milliseconds, so `sweepAdvance * 0.6` is exact (54 milli-degrees per millisecond).
  - `Number.parseInt` is exact beyond 2^53.
- Tracks.Fixed3: `toFixed(3)` rounds a whole number of micro-degrees half away from zero, as `toFixed` does for an exact decimal. Its contract keeps only what the key depends on: the text is non-empty and has no comma.
- Tracks.GetCraftKeyPriority: the "na" branch for a non-finite coordinate is not modelled. Every tracked aircraft has finite coordinates, since the entries without them are skipped first.
- Rendering is left out: the canvas, the blip markers, compass labels, gradients and screen positions. A blip keeps the bearing and distance its position is drawn from.
- DOM updates and messages are left out: `showMessage`, `updateRangeInfo`, `updateStatus`, `updateAircraftInfo`, and the inbound alert message.
- Audio is left out: the stream element and `playBeep`. The beep's tone is modelled (`Tracks.BeepFrequency`) but not the sound.
- Networking and storage are parameters:
  - `fetchJson` is the `Fetch` argument of `PollStep`;
  - `localStorage` supplies the constructor's stored values;
  - `fetchReceiverLocation` and the probing loop of `determineServerBasePath` are left out, and only the candidate order of the latter is modelled;
  - the host checks and the base-path search at the top of the `pollData` loop (app.js:529-543) and its timers are left out.
- Radar.RadarScope.PollStep:
  - `state.server.basePath = null` is modelled as the empty string, which every use reads the same way (`basePath ||`);
  - a feed whose `aircraft` array holds a null element throws inside processAircraftData after nothing has changed, and is treated like a rejected fetch.
- Radar.RadarScope.Frame:
  - the two `performance.now()` reads of one frame (the animation loop's and drawRadar's) are one instant `now`;
  - `state.rotationPeriodMs` is the constant 4000 it is set to at load.
- Radar.RadarScope.ProcessAircraftData: the feed is already parsed into `Entry` values. A field of the wrong type is a missing one. `Number.isInteger(alt_baro)` and `typeof gs` are decided when the feed is parsed.
- Helper I/O and concurrency are left out:
  - `probeHost`'s fetch and abort timer are left out: the probe results are an input, in the order `mapWithConcurrency`'s workers completed them;
  - `deriveDefaultCidr` reads the network interfaces and is a parameter of `Discovery.Candidates`;
  - `startServer`, the log output, `printUsage` and `process.exit` are left out, and the usage exit is the `Usage` result.
- HelperArgs.Defaults: the environment is the `Environment` parameter, and parseArgs takes the defaults as an argument because the module computes them once at load.
- HelperArgs.DefaultsSettled:
  - "concurrency and maxHosts are always at least 1" is proved for the defaults with no environment variable set;
  - a non-numeric PROBE_CONCURRENCY or MAX_HOSTS makes the default NaN, and `Math.max(1, NaN || NaN)` keeps it NaN (`HelperArgs.AtLeastOne` states this).
- Discovery.SortByLatency:
  - latencies are whole milliseconds from `Date.now()` differences, so `latencyMs || 0` is the latency itself;
  - the sort is modelled as a stable insertion sort, as `Array.prototype.sort` is stable.
- JsText.IsWhitespace lists the WhiteSpace and LineTerminator characters that `trim` removes. `toUpperCase` covers ASCII letters only.
