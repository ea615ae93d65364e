/**
 * The dump1090 server address of the radar scope: buildUrl, the slash
 * stripping it applies to the base path, and the order in which
 * determineServerBasePath tries the candidate base paths.
 */
module Server {
  import opened JsNumber
  import opened JsArray

  /** DEFAULT_BASE_PATH, the dump1090-fa data directory. */
  const DEFAULT_BASE_PATH: string := "dump1090-fa/data"
  /** SERVER_PATH_OPTIONS */
  const SERVER_PATH_OPTIONS: seq<string> := [DEFAULT_BASE_PATH, "data"]

  /** state.server: port 0 stands for a falsy port; basePath "" for a null one. */
  datatype Endpoint = Endpoint(protocol: string, host: string, port: nat, basePath: string)

  // ---------------------------------------------------------------------------
  // replace(/^\/+|\/+$/g, '')

  predicate AllSlashes(s: string) {
    forall k :: 0 <= k < |s| ==> s[k] == '/'
  }

  /** The string neither starts nor ends with a slash. */
  predicate Unslashed(s: string) {
    s == [] || (s[0] != '/' && s[|s| - 1] != '/')
  }

  function StripLeading(s: string): (r: string)
    ensures r == [] || r[0] != '/'
  {
    if s != [] && s[0] == '/' then StripLeading(s[1..]) else s
  }

  function StripTrailing(s: string): (r: string)
    ensures r == [] || r[|r| - 1] != '/'
  {
    if s != [] && s[|s| - 1] == '/' then StripTrailing(s[..|s| - 1]) else s
  }

  /** The base path without its leading and trailing runs of slashes. */
  function StripSlashes(s: string): string {
    StripTrailing(StripLeading(s))
  }

  lemma {:induction false} StripLeadingOfSlashes(x: string, r: string)
    requires AllSlashes(x)
    ensures StripLeading(x + r) == StripLeading(r)
  {
    if x != [] {
      assert (x + r)[1..] == x[1..] + r;
      StripLeadingOfSlashes(x[1..], r);
    } else {
      assert x + r == r;
    }
  }

  lemma {:induction false} StripTrailingOfSlashes(r: string, y: string)
    requires AllSlashes(y)
    ensures StripTrailing(r + y) == StripTrailing(r)
  {
    if y != [] {
      var n := |y| - 1;
      assert (r + y)[..|r + y| - 1] == r + y[..n];
      StripTrailingOfSlashes(r, y[..n]);
    } else {
      assert r + y == r;
    }
  }

  lemma {:induction false} StripTrailingOfAllSlashes(y: string)
    requires AllSlashes(y)
    ensures StripTrailing(y) == []
  {
    if y != [] {
      StripTrailingOfAllSlashes(y[..|y| - 1]);
    }
  }

  /**
   * Stripping removes exactly the surrounding slash runs: a string without
   * leading or trailing slashes, padded with any runs of slashes on either
   * side, strips back to itself.
   */
  lemma StripSlashesOfPadded(x: string, b: string, y: string)
    requires AllSlashes(x) && AllSlashes(y) && Unslashed(b)
    ensures StripSlashes(x + b + y) == b
  {
    assert x + b + y == x + (b + y);
    StripLeadingOfSlashes(x, b + y);
    if b == [] {
      assert b + y == y && y + [] == y;
      StripLeadingOfSlashes(y, []);
      StripTrailingOfAllSlashes(y);
    } else {
      StripTrailingOfSlashes(b, y);
    }
  }

  /**
   * Every base path is its stripped form padded with runs of slashes, and
   * the stripped form neither starts nor ends with a slash; with
   * StripSlashesOfPadded this determines the stripped form uniquely.
   */
  lemma StripSlashesSplits(s: string) returns (x: string, y: string)
    ensures AllSlashes(x) && AllSlashes(y) && s == x + StripSlashes(s) + y
    ensures Unslashed(StripSlashes(s))
  {
    var u := StripLeading(s);
    x := StripLeadingSplits(s);
    y := StripTrailingSplits(u);
    var t := StripTrailing(u);
    if t != [] {
      assert t[0] == u[0];
    }
    assert s == x + (t + y);
  }

  /** Stripping a stripped base path changes nothing. */
  lemma StripSlashesIdempotent(s: string)
    ensures StripSlashes(StripSlashes(s)) == StripSlashes(s)
  {
    var x, y := StripSlashesSplits(s);
    StripUnslashed(StripSlashes(s));
  }

  lemma {:induction false} StripLeadingSplits(s: string) returns (x: string)
    ensures AllSlashes(x) && s == x + StripLeading(s)
  {
    if s != [] && s[0] == '/' {
      var x' := StripLeadingSplits(s[1..]);
      x := [s[0]] + x';
      assert s == [s[0]] + s[1..];
    } else {
      x := [];
    }
  }

  lemma {:induction false} StripTrailingSplits(s: string) returns (y: string)
    ensures AllSlashes(y) && s == StripTrailing(s) + y
  {
    if s != [] && s[|s| - 1] == '/' {
      var n := |s| - 1;
      var y' := StripTrailingSplits(s[..n]);
      y := y' + [s[n]];
      assert s == s[..n] + [s[n]];
    } else {
      y := [];
    }
  }

  // ---------------------------------------------------------------------------
  // buildUrl

  /** protocol://host, then :port when the port is truthy. */
  function Origin(e: Endpoint): string {
    e.protocol + "://" + e.host + (if e.port != 0 then ":" + NatToString(e.port) else "")
  }

  /** buildUrl: the base path (or the default one) without surrounding slashes, between the origin and the path. */
  function BuildUrl(e: Endpoint, path: string): string {
    Origin(e) + "/" + StripSlashes(if e.basePath != "" then e.basePath else DEFAULT_BASE_PATH) + "/" + path
  }

  /** The URL of an endpoint whose base path strips to b. */
  lemma BuildUrlOfStripped(e: Endpoint, path: string, b: string)
    requires StripSlashes(if e.basePath != "" then e.basePath else DEFAULT_BASE_PATH) == b
    ensures BuildUrl(e, path) == Origin(e) + "/" + b + "/" + path
  {
  }

  /** Without a base path the URL is the one of the default base path. */
  lemma BuildUrlDefault(e: Endpoint, path: string)
    requires e.basePath == ""
    ensures BuildUrl(e, path) == Origin(e) + "/" + DEFAULT_BASE_PATH + "/" + path
    ensures BuildUrl(e, path) == BuildUrl(e.(basePath := DEFAULT_BASE_PATH), path)
  {
    DefaultStrips();
    BuildUrlOfStripped(e, path, DEFAULT_BASE_PATH);
    var d := e.(basePath := DEFAULT_BASE_PATH);
    assert Origin(d) == Origin(e);
    BuildUrlOfStripped(d, path, DEFAULT_BASE_PATH);
  }

  lemma DefaultStrips()
    ensures StripSlashes(DEFAULT_BASE_PATH) == DEFAULT_BASE_PATH
  {
    assert Unslashed(DEFAULT_BASE_PATH);
    StripUnslashed(DEFAULT_BASE_PATH);
  }

  lemma StripUnslashed(b: string)
    requires Unslashed(b)
    ensures StripSlashes(b) == b
  {
    StripSlashesOfPadded([], b, []);
    assert [] + b + [] == b;
  }

  /** Slashes around a base path do not change the URL. */
  lemma BuildUrlIgnoresSlashes(e: Endpoint, x: string, b: string, y: string, path: string)
    requires AllSlashes(x) && AllSlashes(y) && Unslashed(b) && b != []
    ensures BuildUrl(e.(basePath := x + b + y), path) == Origin(e) + "/" + b + "/" + path
    ensures BuildUrl(e.(basePath := x + b + y), path) == BuildUrl(e.(basePath := b), path)
  {
    var padded := e.(basePath := x + b + y);
    var plain := e.(basePath := b);
    StripSlashesOfPadded(x, b, y);
    StripUnslashed(b);
    assert Origin(padded) == Origin(e) && Origin(plain) == Origin(e);
    BuildUrlOfStripped(padded, path, b);
    BuildUrlOfStripped(plain, path, b);
  }

  // ---------------------------------------------------------------------------
  // determineServerBasePath

  /** The base paths to try, in order: the current one first, then the other options. */
  function BasePathCandidates(basePath: string): seq<string> {
    if basePath != "" then [basePath] + Filter(SERVER_PATH_OPTIONS, (option: string) => option != basePath)
    else SERVER_PATH_OPTIONS
  }

  /**
   * The current base path, when there is one, is tried first; the
   * candidates are the options together with it, each exactly once.
   */
  lemma BasePathCandidatesOrder(basePath: string)
    ensures var c := BasePathCandidates(basePath);
      (basePath != "" ==> c != [] && c[0] == basePath)
      && (basePath == "" ==> c == SERVER_PATH_OPTIONS)
      && (forall p :: p in c <==> p in SERVER_PATH_OPTIONS || (p == basePath && p != ""))
      && (forall i, j :: 0 <= i < j < |c| ==> c[i] != c[j])
      && |c| == if basePath == "" || basePath in SERVER_PATH_OPTIONS then 2 else 3
  {
    var keep := (option: string) => option != basePath;
    var c := BasePathCandidates(basePath);
    assert SERVER_PATH_OPTIONS[0] != SERVER_PATH_OPTIONS[1];
    if basePath != "" {
      var rest := Filter(SERVER_PATH_OPTIONS, keep);
      FilterMembers(SERVER_PATH_OPTIONS, keep);
      assert SERVER_PATH_OPTIONS == [DEFAULT_BASE_PATH] + ["data"];
      FilterAppend([DEFAULT_BASE_PATH], ["data"], keep);
      assert Filter(["data"], keep) == (if keep("data") then ["data"] else []) + Filter([], keep);
      assert Filter([DEFAULT_BASE_PATH], keep)
          == (if keep(DEFAULT_BASE_PATH) then [DEFAULT_BASE_PATH] else []) + Filter([], keep);
    }
  }
}
