/**
 * The command line of the Ollama discovery helper: the defaults taken from
 * the environment, the comma-separated host lists, and parseArgs, the
 * flag loop over process.argv.
 */
module HelperArgs {
  import opened Wrappers
  import opened JsNumber
  import opened JsText
  import opened JsArray

  /** The configuration object parseArgs builds; a falsy number is NaN or 0. */
  datatype Config = Config(port: Num, ollamaPort: Num, cidr: Option<string>,
                           rescanMs: Num, timeoutMs: Num, concurrency: Num,
                           maxHosts: Num, hosts: seq<string>, once: bool)

  /** The outcome of parseArgs: the usage text and exit, or a configuration. */
  datatype Invocation = Usage | Run(config: Config)

  /** The environment variables the defaults read; None for an unset one. */
  datatype Environment = Environment(port: Option<string>, listenPort: Option<string>,
                                     ollamaPort: Option<string>, timeoutMs: Option<string>,
                                     rescanMs: Option<string>, concurrency: Option<string>,
                                     scanCidr: Option<string>, maxHosts: Option<string>,
                                     extraHosts: Option<string>)

  // ---------------------------------------------------------------------------
  // Host lists

  /** text.split(',').map((h) => h.trim()).filter(Boolean) */
  function HostList(text: string): seq<string> {
    Hosts(Split(text, ','))
  }

  /** The trimmed pieces that are not empty. */
  function Hosts(parts: seq<string>): seq<string> {
    Filter(Map(parts, Trim), NonEmpty)
  }

  /** Boolean(h) for a string. */
  predicate NonEmpty(h: string) {
    h != ""
  }

  /** A host as the lists hold it: non-empty, without commas or surrounding whitespace. */
  predicate IsListedHost(h: string) {
    h != "" && ',' !in h && !IsWhitespace(h[0]) && !IsWhitespace(h[|h| - 1])
  }

  /** The hosts of a list are exactly the trimmed comma-separated pieces of the text that are not empty. */
  lemma HostListMembers(text: string)
    ensures forall h :: h in HostList(text) <==> h != "" && exists p :: p in Split(text, ',') && Trim(p) == h
  {
    HostsMembers(Split(text, ','));
  }

  lemma {:induction false} HostsMembers(parts: seq<string>)
    ensures forall h :: h in Hosts(parts) <==> h != "" && exists p :: p in parts && Trim(p) == h
  {
    var trimmed := Map(parts, Trim);
    FilterMembers(trimmed, NonEmpty);
    forall h | h in Hosts(parts) ensures h != "" && exists p :: p in parts && Trim(p) == h {
      var k :| 0 <= k < |trimmed| && trimmed[k] == h;
      assert parts[k] in parts && Trim(parts[k]) == h;
    }
    forall h, p | h != "" && p in parts && Trim(p) == h ensures h in Hosts(parts) {
      var k :| 0 <= k < |parts| && parts[k] == p;
      assert trimmed[k] == h;
      assert h in trimmed && NonEmpty(h);
    }
  }

  /** Every host of a list is non-empty, without commas or surrounding whitespace. */
  lemma HostListWellFormed(text: string)
    ensures forall h :: h in HostList(text) ==> IsListedHost(h)
  {
    HostsWellFormed(Split(text, ','));
  }

  lemma {:induction false} HostsWellFormed(parts: seq<string>)
    requires forall k :: 0 <= k < |parts| ==> ',' !in parts[k]
    ensures forall h :: h in Hosts(parts) ==> IsListedHost(h)
  {
    var trimmed := Map(parts, Trim);
    FilterMembers(trimmed, NonEmpty);
    forall h | h in trimmed && h != "" ensures IsListedHost(h) {
      var k :| 0 <= k < |trimmed| && trimmed[k] == h;
      TrimmedPiece(parts[k]);
    }
  }

  /** A non-empty trimmed piece of a comma split is a well-formed host. */
  lemma {:induction false} TrimmedPiece(p: string)
    requires ',' !in p && Trim(p) != ""
    ensures IsListedHost(Trim(p))
  {
    var u := TrimStart(p);
    var t := TrimEnd(u);
    SliceMembers(p, |p| - |u|, |p|);
    SliceMembers(u, 0, |t|);
    assert t[0] == u[0];
  }

  lemma SliceMembers<T>(s: seq<T>, i: nat, j: nat)
    requires i <= j <= |s|
    ensures forall x :: x in s[i..j] ==> x in s
  {
    forall x | x in s[i..j] ensures x in s {
      var k :| 0 <= k < j - i && s[i..j][k] == x;
      assert s[i + k] == x;
    }
  }

  /** A list without commas holds its trimmed text alone, or nothing when that is empty. */
  lemma {:induction false} HostListOfOne(text: string)
    requires ',' !in text
    ensures HostList(text) == if Trim(text) == "" then [] else [Trim(text)]
  {
    SplitWithout(text, ',');
    var keep := NonEmpty;
    var m := Map([text], Trim);
    assert m == [Trim(text)];
    assert Filter(m, keep) == (if keep(m[0]) then [m[0]] else []) + Filter(m[1..], keep);
    assert m[1..] == [];
  }

  // ---------------------------------------------------------------------------
  // The defaults

  /** process.env.X || fallback, for a variable whose value is a string. */
  function EnvOr(value: Option<string>, fallback: string): string {
    if value.Some? && value.value != "" then value.value else fallback
  }

  /** The config object parseArgs starts from: DEFAULT_PORT ... EXTRA_HOSTS, and once false. */
  function Defaults(env: Environment): Config {
    Config(port := ParseInt(EnvOr(env.port, EnvOr(env.listenPort, "8081"))),
           ollamaPort := ParseInt(EnvOr(env.ollamaPort, "11434")),
           cidr := if env.scanCidr.Some? && env.scanCidr.value != "" then env.scanCidr else None,
           rescanMs := ParseInt(EnvOr(env.rescanMs, "120000")),
           timeoutMs := ParseInt(EnvOr(env.timeoutMs, "2500")),
           concurrency := ParseInt(EnvOr(env.concurrency, "20")),
           maxHosts := ParseInt(EnvOr(env.maxHosts, "512")),
           hosts := HostList(EnvOr(env.extraHosts, "")),
           once := false)
  }

  const UNSET: Environment := Environment(None, None, None, None, None, None, None, None, None)

  /** Without environment overrides the helper listens on 8081, probes port 11434, and so on. */
  lemma DefaultsWithoutEnvironment()
    ensures Defaults(UNSET)
      == Config(Int(8081), Int(11434), None, Int(120000), Int(2500), Int(20), Int(512), [], false)
  {
    Literal8081();
    Literal11434();
    Literal120000();
    Literal2500();
    Literal20();
    Literal512();
    EmptyHostList();
  }

  lemma EmptyHostList()
    ensures HostList("") == []
  {
    HostListOfOne("");
  }

  lemma Literal8081()
    ensures ParseInt("8081") == Int(8081)
  {
    assert NatToString(80) == "80";
    assert NatToString(808) == "808";
    assert NatToString(8081) == "8081";
    ParseIntOfNatToString(8081);
  }

  lemma Literal11434()
    ensures ParseInt("11434") == Int(11434)
  {
    assert NatToString(11) == "11";
    assert NatToString(114) == "114";
    assert NatToString(1143) == "1143";
    assert NatToString(11434) == "11434";
    ParseIntOfNatToString(11434);
  }

  lemma Literal120000()
    ensures ParseInt("120000") == Int(120000)
  {
    assert NatToString(12) == "12";
    assert NatToString(120) == "120";
    assert NatToString(1200) == "1200";
    assert NatToString(12000) == "12000";
    assert NatToString(120000) == "120000";
    ParseIntOfNatToString(120000);
  }

  lemma Literal2500()
    ensures ParseInt("2500") == Int(2500)
  {
    assert NatToString(25) == "25";
    assert NatToString(250) == "250";
    assert NatToString(2500) == "2500";
    ParseIntOfNatToString(2500);
  }

  lemma Literal20()
    ensures ParseInt("20") == Int(20)
  {
    assert NatToString(20) == "20";
    ParseIntOfNatToString(20);
  }

  lemma Literal512()
    ensures ParseInt("512") == Int(512)
  {
    assert NatToString(51) == "51";
    assert NatToString(512) == "512";
    ParseIntOfNatToString(512);
  }

  // ---------------------------------------------------------------------------
  // parseArgs

  /** The arguments parseArgs tells apart; any other argument is ignored. */
  datatype Flag = HelpFlag | CidrFlag | PortFlag | OllamaPortFlag | RescanFlag | TimeoutFlag
                | ConcurrencyFlag | MaxHostsFlag | HostsFlag | OnceFlag | Unknown

  /** The flag an argument spells. */
  function FlagOf(arg: string): Flag {
    if arg == "--help" || arg == "-h" then HelpFlag
    else if arg == "--cidr" then CidrFlag
    else if arg == "--port" then PortFlag
    else if arg == "--ollama-port" then OllamaPortFlag
    else if arg == "--rescan-ms" then RescanFlag
    else if arg == "--timeout-ms" then TimeoutFlag
    else if arg == "--concurrency" then ConcurrencyFlag
    else if arg == "--max-hosts" then MaxHostsFlag
    else if arg == "--hosts" then HostsFlag
    else if arg == "--once" then OnceFlag
    else Unknown
  }

  /** The flags that take the next element of argv as their value. */
  predicate TakesValue(flag: Flag) {
    !(flag.HelpFlag? || flag.OnceFlag? || flag.Unknown?)
  }

  /** Number.parseInt(argv[i + 1], 10), where an element past the end is undefined and parses to NaN. */
  function ParseValue(value: Option<string>): Num {
    if value.Some? then ParseInt(value.value) else NaN
  }

  /** n || fallback */
  function OrElse(n: Num, fallback: Num): Num {
    if Truthy(n) then n else fallback
  }

  /** Math.max(1, n): NaN stays NaN. */
  function AtLeastOne(n: Num): (r: Num)
    ensures r.NaN? <==> n.NaN?
    ensures r.Int? ==> r.value >= 1 && r.value >= n.value && (n.value >= 1 ==> r == n)
  {
    if n.NaN? then NaN else Int(if n.value < 1 then 1 else n.value)
  }

  /** The result of one pass of the loop body: the usage exit, or the new config and how far i advances. */
  datatype Outcome = Help | Next(config: Config, advance: nat)

  /** One pass of the loop body, for the argument and the element after it (None past the end). */
  function Step(arg: string, value: Option<string>, c: Config): Outcome {
    match FlagOf(arg)
    case HelpFlag => Help
    case CidrFlag => Next(c.(cidr := value), 2)
    case PortFlag => Next(c.(port := OrElse(ParseValue(value), c.port)), 2)
    case OllamaPortFlag => Next(c.(ollamaPort := OrElse(ParseValue(value), c.ollamaPort)), 2)
    case RescanFlag => Next(c.(rescanMs := OrElse(ParseValue(value), c.rescanMs)), 2)
    case TimeoutFlag => Next(c.(timeoutMs := OrElse(ParseValue(value), c.timeoutMs)), 2)
    case ConcurrencyFlag => Next(c.(concurrency := AtLeastOne(OrElse(ParseValue(value), c.concurrency))), 2)
    case MaxHostsFlag => Next(c.(maxHosts := AtLeastOne(OrElse(ParseValue(value), c.maxHosts))), 2)
    case HostsFlag => Next(c.(hosts := c.hosts + HostList(if value.Some? then value.value else "")), 2)
    case OnceFlag => Next(c.(once := true), 1)
    case Unknown => Next(c, 1)
  }

  /** The element after index i, if there is one. */
  function After(argv: seq<string>, i: nat): Option<string> {
    if i + 1 < |argv| then Some(argv[i + 1]) else None
  }

  /** The loop of parseArgs from index i on, with the config built so far. */
  function ParseFrom(argv: seq<string>, i: nat, c: Config): Invocation
    decreases |argv| - i
  {
    if i >= |argv| then Run(c)
    else
      match Step(argv[i], After(argv, i), c)
      case Help => Usage
      case Next(next, advance) => ParseFrom(argv, i + advance, next)
  }

  lemma ParseFromStep(argv: seq<string>, i: nat, c: Config, next: Config, j: nat)
    requires i < |argv| && i < j && Step(argv[i], After(argv, i), c) == Next(next, j - i)
    ensures ParseFrom(argv, i, c) == ParseFrom(argv, j, next)
  {
  }

  /**
   * parseArgs: the arguments after the node binary and the script path are
   * read from index 2 on, starting from the defaults, the values
   * Defaults(env) the module computes once when it loads.
   */
  method ParseArgs(argv: seq<string>, defaults: Config) returns (r: Invocation)
    ensures r == ParseFrom(argv, 2, defaults)
  {
    var config := defaults;
    var i: nat := 2;
    while i < |argv|
      invariant ParseFrom(argv, i, config) == ParseFrom(argv, 2, defaults)
      decreases |argv| - i
    {
      var value := After(argv, i);
      ghost var before, at := config, i;
      match FlagOf(argv[i]) {
        case HelpFlag =>
          return Usage;
        case CidrFlag =>
          config := config.(cidr := value);
          assert Step(argv[at], value, before) == Next(config, 2);
          i := i + 1;
        case PortFlag =>
          config := config.(port := OrElse(ParseValue(value), config.port));
          assert Step(argv[at], value, before) == Next(config, 2);
          i := i + 1;
        case OllamaPortFlag =>
          config := config.(ollamaPort := OrElse(ParseValue(value), config.ollamaPort));
          assert Step(argv[at], value, before) == Next(config, 2);
          i := i + 1;
        case RescanFlag =>
          config := config.(rescanMs := OrElse(ParseValue(value), config.rescanMs));
          assert Step(argv[at], value, before) == Next(config, 2);
          i := i + 1;
        case TimeoutFlag =>
          config := config.(timeoutMs := OrElse(ParseValue(value), config.timeoutMs));
          assert Step(argv[at], value, before) == Next(config, 2);
          i := i + 1;
        case ConcurrencyFlag =>
          config := config.(concurrency := AtLeastOne(OrElse(ParseValue(value), config.concurrency)));
          assert Step(argv[at], value, before) == Next(config, 2);
          i := i + 1;
        case MaxHostsFlag =>
          config := config.(maxHosts := AtLeastOne(OrElse(ParseValue(value), config.maxHosts)));
          assert Step(argv[at], value, before) == Next(config, 2);
          i := i + 1;
        case HostsFlag =>
          var extra := HostList(if value.Some? then value.value else "");
          config := config.(hosts := config.hosts + extra);
          assert Step(argv[at], value, before) == Next(config, 2);
          i := i + 1;
        case OnceFlag =>
          config := config.(once := true);
          assert Step(argv[at], value, before) == Next(config, 1);
        case Unknown =>
          assert Step(argv[at], value, before) == Next(config, 1);
      }
      i := i + 1;
      ParseFromStep(argv, at, before, config, i);
    }
    return Run(config);
  }

  // ---------------------------------------------------------------------------
  // What parseArgs promises

  /** The flags whose value is a number. */
  predicate IsNumeric(flag: Flag) {
    flag.PortFlag? || flag.OllamaPortFlag? || flag.RescanFlag? || flag.TimeoutFlag?
    || flag.ConcurrencyFlag? || flag.MaxHostsFlag?
  }

  /** The setting a numeric flag assigns. */
  function NumberSetting(flag: Flag, c: Config): Num
    requires IsNumeric(flag)
  {
    match flag
    case PortFlag => c.port
    case OllamaPortFlag => c.ollamaPort
    case RescanFlag => c.rescanMs
    case TimeoutFlag => c.timeoutMs
    case ConcurrencyFlag => c.concurrency
    case MaxHostsFlag => c.maxHosts
  }

  /** The config with the setting of a numeric flag replaced. */
  function WithNumber(flag: Flag, c: Config, n: Num): Config
    requires IsNumeric(flag)
  {
    match flag
    case PortFlag => c.(port := n)
    case OllamaPortFlag => c.(ollamaPort := n)
    case RescanFlag => c.(rescanMs := n)
    case TimeoutFlag => c.(timeoutMs := n)
    case ConcurrencyFlag => c.(concurrency := n)
    case MaxHostsFlag => c.(maxHosts := n)
  }

  /** The bound the flag applies: Math.max(1, ...) for the concurrency and the host limit. */
  function Bounded(flag: Flag, n: Num): Num {
    if flag.ConcurrencyFlag? || flag.MaxHostsFlag? then AtLeastOne(n) else n
  }

  /**
   * A numeric flag changes its own setting and nothing else, consumes its
   * value, and sets the number it parses; a value that parses to NaN or 0
   * (or a missing one) keeps the previous setting.
   */
  lemma NumericFlag(arg: string, value: Option<string>, c: Config)
    requires IsNumeric(FlagOf(arg))
    ensures var flag := FlagOf(arg);
      var next := Step(arg, value, c);
      next.Next? && next.advance == 2
      && next.config == WithNumber(flag, c, NumberSetting(flag, next.config))
      && (Truthy(ParseValue(value)) ==> NumberSetting(flag, next.config) == Bounded(flag, ParseValue(value)))
      && (!Truthy(ParseValue(value)) ==> NumberSetting(flag, next.config) == Bounded(flag, NumberSetting(flag, c)))
  {
  }

  /** The decimal text of a positive number sets exactly that number. */
  lemma NumericFlagOfDecimal(arg: string, n: nat, c: Config)
    requires IsNumeric(FlagOf(arg)) && n > 0
    ensures Step(arg, Some(NatToString(n)), c) == Next(WithNumber(FlagOf(arg), c, Int(n)), 2)
  {
    ParseIntOfNatToString(n);
    NumericFlag(arg, Some(NatToString(n)), c);
  }

  /**
   * A value flag consumes the next element whatever it says: the loop
   * resumes two places on, so `--cidr --help` sets the CIDR to "--help".
   */
  lemma ValueFlagConsumes(argv: seq<string>, i: nat, c: Config)
    requires i < |argv| && TakesValue(FlagOf(argv[i]))
    ensures Step(argv[i], After(argv, i), c).Next?
    ensures ParseFrom(argv, i, c) == ParseFrom(argv, i + 2, Step(argv[i], After(argv, i), c).config)
  {
  }

  lemma CidrTakesHelp(c: Config)
    ensures ParseFrom(["node", "helper", "--cidr", "--help"], 2, c) == Run(c.(cidr := Some("--help")))
  {
    var argv := ["node", "helper", "--cidr", "--help"];
    assert FlagOf(argv[2]) == CidrFlag;
    assert After(argv, 2) == Some("--help");
  }

  /** --once sets once and consumes nothing; an unknown argument is skipped. */
  lemma OnceAndUnknown(argv: seq<string>, i: nat, c: Config)
    requires i < |argv|
    ensures FlagOf(argv[i]).OnceFlag? ==> ParseFrom(argv, i, c) == ParseFrom(argv, i + 1, c.(once := true))
    ensures FlagOf(argv[i]).Unknown? ==> ParseFrom(argv, i, c) == ParseFrom(argv, i + 1, c)
  {
  }

  /** The usage exit happens exactly when a help flag is reached as an argument, not as a value. */
  lemma {:induction false} UsageNeedsHelp(argv: seq<string>, i: nat, c: Config)
    ensures ParseFrom(argv, i, c) == Usage ==> exists k :: i <= k < |argv| && FlagOf(argv[k]).HelpFlag?
    ensures i < |argv| && FlagOf(argv[i]).HelpFlag? ==> ParseFrom(argv, i, c) == Usage
    decreases |argv| - i
  {
    if i < |argv| {
      var step := Step(argv[i], After(argv, i), c);
      if step.Next? {
        UsageNeedsHelp(argv, i + step.advance, step.config);
      }
    }
  }

  /**
   * A configuration every numeric setting of which is usable: the ports
   * and intervals truthy, the concurrency and the host limit at least 1,
   * and the hosts well formed.
   */
  ghost predicate Settled(c: Config) {
    Truthy(c.port) && Truthy(c.ollamaPort) && Truthy(c.rescanMs) && Truthy(c.timeoutMs)
    && c.concurrency.Int? && c.concurrency.value >= 1
    && c.maxHosts.Int? && c.maxHosts.value >= 1
    && forall h :: h in c.hosts ==> IsListedHost(h)
  }

  /** One argument keeps a settled configuration settled and only adds hosts after the existing ones. */
  lemma StepKeepsSettled(arg: string, value: Option<string>, c: Config)
    requires Settled(c)
    ensures Step(arg, value, c).Next? ==>
      Settled(Step(arg, value, c).config) && c.hosts <= Step(arg, value, c).config.hosts
  {
    var flag := FlagOf(arg);
    if flag.HostsFlag? {
      var extra := HostList(if value.Some? then value.value else "");
      HostListWellFormed(if value.Some? then value.value else "");
      assert Step(arg, value, c) == Next(c.(hosts := c.hosts + extra), 2);
    } else if flag.ConcurrencyFlag? || flag.MaxHostsFlag? {
      NumericFlag(arg, value, c);
    }
  }

  /**
   * No argument list can unsettle the configuration: the concurrency and
   * the host limit stay at least 1, the ports and intervals stay truthy,
   * and the hosts only grow, by well-formed hosts appended at the end.
   */
  lemma {:induction false} ParseFromKeepsSettled(argv: seq<string>, i: nat, c: Config)
    requires Settled(c)
    ensures ParseFrom(argv, i, c).Run? ==>
      Settled(ParseFrom(argv, i, c).config) && c.hosts <= ParseFrom(argv, i, c).config.hosts
    decreases |argv| - i
  {
    if i < |argv| {
      var step := Step(argv[i], After(argv, i), c);
      StepKeepsSettled(argv[i], After(argv, i), c);
      if step.Next? {
        ParseFromKeepsSettled(argv, i + step.advance, step.config);
      }
    }
  }

  /** Without environment overrides the defaults are settled, and so is every configuration parseArgs returns. */
  lemma DefaultsSettled()
    ensures Settled(Defaults(UNSET))
  {
    var d := Config(Int(8081), Int(11434), None, Int(120000), Int(2500), Int(20), Int(512), [], false);
    assert Settled(d);
    DefaultsWithoutEnvironment();
  }
}
