/** Command-line classification: where the options end and the child command
    begins, the UDP address built from `--host` / `--port`, and the choice
    between running a command and viewing a UDP stream. Printing the usage text
    and calling `process::exit` become `Stop` outcomes. */
module Config {
  import opened Prelude
  import opened Net
  import opened Commands

  /** Why `collect` exits the process instead of returning a configuration. */
  datatype ConfigError =
    | UnknownArgument(arg: string)
    | InvalidPort
    | InvalidHost
    | HostWithoutPort
    | ViewModeNeedsUdp
    | ExecutableRequired

  datatype Stop =
    | Help                  // `--help` / `-?`: usage text, exit code 0
    | Error(e: ConfigError) // `error!`: message and usage text, exit code -1
    | MissingProgramName    // argv is empty: the `expect` on argv[0] panics

  /** The code `print_usage!` passes to `process::exit`. */
  function UsageExitCode(s: Stop): (code: int)
    requires !s.MissingProgramName?
    ensures code == 0 <==> s.Help?
    ensures s.Error? ==> code == -1
  {
    if s.Help? then 0 else -1
  }

  /** `AppConfig`; the address of `View`, called `udp` in the program, is `addr` here. */
  datatype AppConfig =
    | Run(command: Command, udp: Option<SocketAddr>, gui: bool)
    | View(addr: SocketAddr, gui: bool)

  /** What `collect` produces: a configuration, or an exit. */
  datatype Collected = Configured(config: AppConfig) | Exited(stop: Stop)

  /** The library parsers `make_udp` relies on: `str::parse::<u16>` and
      `str::parse::<IpAddr>`, each None where the library reports an error. */
  datatype Parsers = Parsers(port: string -> Option<u16>, ip: string -> Option<IpAddr>)

  /** The variables the matcher closure in `collect` captures and updates. */
  datatype Flags = Flags(viewOnly: bool, gui: bool, host: Option<OsArg>, port: Option<OsArg>)

  const NO_FLAGS: Flags := Flags(false, false, None, None)

  const DOUBLE_DASH: OsArg := OsArg("--", true)

  predicate StartsWithDash(s: string) {
    |s| > 0 && s[0] == '-'
  }

  /** What one call of the matcher closure does: carry on with updated flags
      and the arguments left after any it consumed, or exit. */
  datatype MatchStep = Continue(flags: Flags, rest: seq<OsArg>) | Exit(stop: Stop)

  /** `args.next()` as seen by the matcher: the next argument, if any. */
  function NextArg(rest: seq<OsArg>): Option<OsArg> {
    if rest == [] then None else Some(rest[0])
  }

  /** The arguments left after `args.next()`. */
  function AfterNext(rest: seq<OsArg>): seq<OsArg> {
    if rest == [] then [] else rest[1..]
  }

  /** The options the matcher closure of `collect` knows. */
  datatype OptionName = ViewOnlyFlag | GuiFlag | HostOption | PortOption | HelpFlag | Unknown

  /** The arms of the matcher's `match` on the option text. */
  function OptionNamed(arg: string): OptionName {
    if arg == "-" then ViewOnlyFlag
    else if arg == "--gui" then GuiFlag
    else if arg == "--host" || arg == "-h" then HostOption
    else if arg == "--port" || arg == "-p" then PortOption
    else if arg == "--help" || arg == "-?" then HelpFlag
    else Unknown
  }

  /** Every known option starts with '-' and is not "--", so `read_args`
      hands it to the matcher. */
  lemma KnownOptionsReachMatcher(arg: string)
    requires OptionNamed(arg) != Unknown
    ensures StartsWithDash(arg) && arg != "--"
  {
  }

  /** The matcher closure of `collect`, applied to option `arg` with the
      arguments `rest` that follow it. */
  function Matcher(arg: string, rest: seq<OsArg>, f: Flags): (r: MatchStep)
    ensures r.Exit? <==> OptionNamed(arg) == HelpFlag || OptionNamed(arg) == Unknown
    ensures (arg == "--help" || arg == "-?") ==> r == Exit(Help)
    ensures OptionNamed(arg) == Unknown ==> r == Exit(Error(UnknownArgument(arg)))
    ensures r.Continue? ==>
      && r.flags.viewOnly == (f.viewOnly || arg == "-")
      && r.flags.gui == (f.gui || arg == "--gui")
      && r.flags.host == (if arg == "--host" || arg == "-h" then NextArg(rest) else f.host)
      && r.flags.port == (if arg == "--port" || arg == "-p" then NextArg(rest) else f.port)
    ensures r.Continue? && (arg == "-" || arg == "--gui") ==> r.rest == rest
    ensures r.Continue? && OptionNamed(arg) in {HostOption, PortOption} ==>
      (rest == [] ==> r.rest == []) && (rest != [] ==> [rest[0]] + r.rest == rest)
  {
    match OptionNamed(arg)
    case ViewOnlyFlag => Continue(f.(viewOnly := true), rest)
    case GuiFlag => Continue(f.(gui := true), rest)
    case HostOption => Continue(f.(host := NextArg(rest)), AfterNext(rest))
    case PortOption => Continue(f.(port := NextArg(rest)), AfterNext(rest))
    case HelpFlag => Exit(Help)
    case Unknown => Exit(Error(UnknownArgument(arg)))
  }

  /** Result of `read_args` together with the matcher's final flags. */
  datatype ArgsResult = Stopped(stop: Stop) | Parsed(flags: Flags, command: Option<Command>)

  /** The loop of `read_args` over the arguments after argv[0], as a function:
      a non-UTF-8 argument or one not starting with '-' is the command and the
      rest its arguments; "--" hands the rest to the argument-list conversion;
      any other argument goes to the matcher. */
  function ScanArgs(rest: seq<OsArg>, f: Flags): ArgsResult
    decreases |rest|
  {
    if rest == [] then Parsed(f, None)
    else
      var arg := rest[0];
      if !arg.utf8 then Parsed(f, New(FromOsString(arg, rest[1..])))
      else if !StartsWithDash(arg.text) then Parsed(f, New(FromString(arg.text, rest[1..])))
      else if arg.text == "--" then Parsed(f, New(FromArgsOs(rest[1..])))
      else
        match Matcher(arg.text, rest[1..], f)
        case Exit(stop) => Stopped(stop)
        case Continue(f', rest') => ScanArgs(rest', f')
  }

  /** `read_args` with the matcher of `collect`: skip argv[0], then examine the
      arguments one by one until the command is found, they run out, or the
      matcher exits. */
  method ReadArgs(argv: seq<OsArg>) returns (r: ArgsResult)
    ensures argv == [] ==> r == Stopped(MissingProgramName)
    ensures argv != [] ==> r == ScanArgs(argv[1..], NO_FLAGS)
  {
    if argv == [] {
      return Stopped(MissingProgramName);
    }
    var args := argv[1..];
    var flags := NO_FLAGS;
    while args != []
      invariant ScanArgs(args, flags) == ScanArgs(argv[1..], NO_FLAGS)
      decreases |args|
    {
      var arg := args[0];
      var tail := args[1..];
      if !arg.utf8 {
        return Parsed(flags, New(FromOsString(arg, tail)));
      }
      if !StartsWithDash(arg.text) {
        return Parsed(flags, New(FromString(arg.text, tail)));
      }
      if arg.text == "--" {
        return Parsed(flags, New(FromArgsOs(tail)));
      }
      match Matcher(arg.text, tail, flags) {
        case Exit(stop) =>
          return Stopped(stop);
        case Continue(f', rest') =>
          flags, args := f', rest';
      }
    }
    return Parsed(flags, None);
  }

  /** `make_udp`: no port and no host gives no address; a host without a port
      is an error; otherwise the port must be UTF-8 and parse as a `u16`, and
      the host is `::1` for "localhost", the parsed address for anything else,
      and `::1` (run mode) or `::` (view mode) when absent. */
  function MakeUdp(host: Option<OsArg>, port: Option<OsArg>, viewOnly: bool, parse: Parsers)
    : (r: Result<Option<SocketAddr>, ConfigError>)
    ensures port.None? && host.None? ==> r == Ok(None)
    ensures port.None? && host.Some? ==> r == Err(HostWithoutPort)
    ensures port.Some? && (!port.value.utf8 || parse.port(port.value.text).None?) ==> r == Err(InvalidPort)
    ensures port.Some? && r.Ok? ==>
      && r.value.Some?
      && port.value.utf8
      && parse.port(port.value.text) == Some(r.value.value.port)
    ensures port.Some? && r.Ok? && host.None? ==>
      r.value.value.ip == (if viewOnly then IPV6_UNSPECIFIED else IPV6_LOCALHOST)
    ensures port.Some? && r.Ok? && host == Some(OsArg("localhost", true)) ==>
      r.value.value.ip == IPV6_LOCALHOST
    ensures port.Some? && r.Ok? && host.Some? && host.value.text != "localhost" ==>
      Some(r.value.value.ip) == parse.ip(host.value.text)
    ensures port.Some? && port.value.utf8 && parse.port(port.value.text).Some? ==>
      (r.Err? <==>
        host.Some? && (!host.value.utf8 || (host.value.text != "localhost" && parse.ip(host.value.text).None?)))
    ensures port.Some? && port.value.utf8 && parse.port(port.value.text).Some? && r.Err? ==>
      r.error == InvalidHost
    ensures r.Err? ==> r.error in {InvalidPort, InvalidHost, HostWithoutPort}
  {
    match port
    case None =>
      if host.None? then Ok(None) else Err(HostWithoutPort)
    case Some(p) =>
      if !p.utf8 then Err(InvalidPort)
      else
        match parse.port(p.text)
        case None => Err(InvalidPort)
        case Some(portNumber) =>
          match host
          case None =>
            Ok(Some(SocketAddr(if viewOnly then IPV6_UNSPECIFIED else IPV6_LOCALHOST, portNumber)))
          case Some(h) =>
            if !h.utf8 then Err(InvalidHost)
            else if h.text == "localhost" then Ok(Some(SocketAddr(IPV6_LOCALHOST, portNumber)))
            else
              match parse.ip(h.text)
              case None => Err(InvalidHost)
              case Some(ip) => Ok(Some(SocketAddr(ip, portNumber)))
  }

  /** The final `match` of `collect`: view mode needs an address and then
      ignores any command; run mode needs a command and keeps the optional
      address. */
  function SelectMode(viewOnly: bool, command: Option<Command>, udp: Option<SocketAddr>, gui: bool)
    : (r: Result<AppConfig, ConfigError>)
    ensures viewOnly ==> (r.Ok? <==> udp.Some?)
    ensures !viewOnly ==> (r.Ok? <==> command.Some?)
    ensures viewOnly && udp.None? ==> r == Err(ViewModeNeedsUdp)
    ensures !viewOnly && command.None? ==> r == Err(ExecutableRequired)
    ensures r.Ok? ==> r.value.gui == gui && (r.value.View? <==> viewOnly)
    ensures r.Ok? && r.value.View? ==> Some(r.value.addr) == udp
    ensures r.Ok? && r.value.Run? ==> Some(r.value.command) == command && r.value.udp == udp
  {
    match (viewOnly, command, udp)
    case (true, _, None) => Err(ViewModeNeedsUdp)
    case (false, None, _) => Err(ExecutableRequired)
    case (false, Some(c), _) => Ok(Run(c, udp, gui))
    case (true, _, Some(a)) => Ok(View(a, gui))
  }

  /** What `collect` yields for the argument vector `argv`. */
  function Configure(argv: seq<OsArg>, parse: Parsers): (r: Collected)
    ensures argv == [] ==> r == Exited(MissingProgramName)
    ensures argv != [] && ScanArgs(argv[1..], NO_FLAGS).Stopped? ==>
      r == Exited(ScanArgs(argv[1..], NO_FLAGS).stop)
    ensures r.Configured? ==>
      && argv != []
      && var scanned := ScanArgs(argv[1..], NO_FLAGS);
      && scanned.Parsed?
      && r.config.gui == scanned.flags.gui
      && (r.config.View? <==> scanned.flags.viewOnly)
      && (r.config.Run? ==> Some(r.config.command) == scanned.command)
    ensures argv != [] && ScanArgs(argv[1..], NO_FLAGS).Parsed? ==>
      var flags := ScanArgs(argv[1..], NO_FLAGS).flags;
      var udp := MakeUdp(flags.host, flags.port, flags.viewOnly, parse);
      && (udp.Err? ==> r == Exited(Error(udp.error)))
      && (r.Configured? && r.config.Run? ==> udp == Ok(r.config.udp))
      && (r.Configured? && r.config.View? ==> udp == Ok(Some(r.config.addr)))
      && (udp.Ok? && !flags.viewOnly && ScanArgs(argv[1..], NO_FLAGS).command.None? ==>
            r == Exited(Error(ExecutableRequired)))
      && (udp == Ok(None) && flags.viewOnly ==> r == Exited(Error(ViewModeNeedsUdp)))
      && (udp.Ok? ==>
            (r.Configured? <==>
               if flags.viewOnly then udp.value.Some? else ScanArgs(argv[1..], NO_FLAGS).command.Some?))
  {
    var scanned := if argv == [] then Stopped(MissingProgramName) else ScanArgs(argv[1..], NO_FLAGS);
    match scanned
    case Stopped(stop) => Exited(stop)
    case Parsed(f, command) =>
      match MakeUdp(f.host, f.port, f.viewOnly, parse)
      case Err(e) => Exited(Error(e))
      case Ok(udp) =>
        match SelectMode(f.viewOnly, command, udp, f.gui)
        case Err(e) => Exited(Error(e))
        case Ok(config) => Configured(config)
  }

  /** `AppConfig::collect`. */
  method Collect(argv: seq<OsArg>, parse: Parsers) returns (r: Collected)
    ensures r == Configure(argv, parse)
  {
    var scanned := ReadArgs(argv);
    match scanned {
      case Stopped(stop) =>
        return Exited(stop);
      case Parsed(f, command) =>
        var udp := MakeUdp(f.host, f.port, f.viewOnly, parse);
        if udp.Err? {
          return Exited(Error(udp.error));
        }
        var mode := SelectMode(f.viewOnly, command, udp.value, f.gui);
        if mode.Err? {
          return Exited(Error(mode.error));
        }
        return Configured(mode.value);
    }
  }

  // ---- The shape of an argument vector, as read by `read_args` ----

  /** An argument `read_args` takes as the command. */
  predicate IsCommandWord(a: OsArg) {
    !a.utf8 || !StartsWithDash(a.text)
  }

  /** A known option that consumes no value. */
  predicate IsSwitch(a: OsArg) {
    a.utf8 && (OptionNamed(a.text) == ViewOnlyFlag || OptionNamed(a.text) == GuiFlag)
  }

  predicate IsHostOption(a: OsArg) {
    a.utf8 && OptionNamed(a.text) == HostOption
  }

  predicate IsPortOption(a: OsArg) {
    a.utf8 && OptionNamed(a.text) == PortOption
  }

  /** A known option that consumes the argument after it. */
  predicate TakesValue(a: OsArg) {
    IsHostOption(a) || IsPortOption(a)
  }

  /** A run of known options, each value-taking option followed by its value. */
  predicate OptionRun(p: seq<OsArg>)
    decreases |p|
  {
    || p == []
    || (IsSwitch(p[0]) && OptionRun(p[1..]))
    || (TakesValue(p[0]) && |p| >= 2 && OptionRun(p[2..]))
  }

  /** A known option that takes no value: the scan carries on after it with
      the matcher's flags. */
  lemma ScanSwitch(all: seq<OsArg>, f: Flags)
    requires |all| > 0 && IsSwitch(all[0])
    ensures Matcher(all[0].text, all[1..], f).Continue?
    ensures ScanArgs(all, f) == ScanArgs(all[1..], Matcher(all[0].text, all[1..], f).flags)
    ensures ScanArgs(all, f) ==
      ScanArgs(all[1..], if all[0].text == "-" then f.(viewOnly := true) else f.(gui := true))
  {
    KnownOptionsReachMatcher(all[0].text);
  }

  /** A known option followed by its value: the scan carries on after both
      with the matcher's flags. */
  lemma ScanValueOption(all: seq<OsArg>, f: Flags)
    requires |all| >= 2 && TakesValue(all[0])
    ensures Matcher(all[0].text, all[1..], f).Continue?
    ensures ScanArgs(all, f) == ScanArgs(all[2..], Matcher(all[0].text, all[1..], f).flags)
    ensures ScanArgs(all, f) ==
      ScanArgs(all[2..], if IsHostOption(all[0]) then f.(host := Some(all[1])) else f.(port := Some(all[1])))
  {
    KnownOptionsReachMatcher(all[0].text);
    assert all[1..][1..] == all[2..];
  }

  /** A switch at the front of the arguments only updates the flags. */
  lemma SwitchStep(p: seq<OsArg>, q: seq<OsArg>, f: Flags) returns (f': Flags)
    requires p != [] && IsSwitch(p[0])
    ensures ScanArgs(p + q, f) == ScanArgs(p[1..] + q, f')
  {
    var all := p + q;
    assert all[0] == p[0];
    ScanSwitch(all, f);
    assert all[1..] == p[1..] + q;
    f' := Matcher(all[0].text, all[1..], f).flags;
  }

  /** A value-taking option and its value at the front of the arguments only
      update the flags. */
  lemma ValueOptionStep(p: seq<OsArg>, q: seq<OsArg>, f: Flags) returns (f': Flags)
    requires |p| >= 2 && TakesValue(p[0])
    ensures ScanArgs(p + q, f) == ScanArgs(p[2..] + q, f')
  {
    var all := p + q;
    assert all[0] == p[0] && all[1] == p[1];
    ScanValueOption(all, f);
    assert all[2..] == p[2..] + q;
    f' := Matcher(all[0].text, all[1..], f).flags;
  }

  /** A run of known options only updates the flags: the scan then carries on
      with the arguments after the run. */
  lemma {:induction false} SkipOptionRun(p: seq<OsArg>, q: seq<OsArg>, f: Flags) returns (f': Flags)
    requires OptionRun(p)
    ensures ScanArgs(p + q, f) == ScanArgs(q, f')
    decreases |p|
  {
    if p == [] {
      assert p + q == q;
      f' := f;
    } else {
      if IsSwitch(p[0]) {
        var f1 := SwitchStep(p, q, f);
        f' := SkipOptionRun(p[1..], q, f1);
      } else {
        var f1 := ValueOptionStep(p, q, f);
        f' := SkipOptionRun(p[2..], q, f1);
      }
    }
  }

  /** A command word first: it is the command and the rest its arguments. */
  lemma CommandWordFirst(c: OsArg, tail: seq<OsArg>, f: Flags)
    requires IsCommandWord(c)
    ensures ScanArgs([c] + tail, f) == Parsed(f, Some(Command(c, tail)))
  {
    assert ([c] + tail)[1..] == tail;
  }

  /** "--" first: the argument-list conversion gets the rest. */
  lemma DoubleDashFirst(tail: seq<OsArg>, f: Flags)
    ensures ScanArgs([DOUBLE_DASH] + tail, f) ==
      Parsed(f, if tail == [] then None else Some(Command(tail[0], tail[1..])))
  {
    assert ([DOUBLE_DASH] + tail)[1..] == tail;
  }

  /** Nothing left, or only a value-taking option with no value. */
  lemma TrailingOption(last: seq<OsArg>, f: Flags)
    requires last == [] || (|last| == 1 && TakesValue(last[0]))
    ensures ScanArgs(last, f).Parsed? && ScanArgs(last, f).command.None?
    ensures last != [] && IsHostOption(last[0]) ==> ScanArgs(last, f).flags.host.None?
    ensures last != [] && IsPortOption(last[0]) ==> ScanArgs(last, f).flags.port.None?
  {
    if last != [] {
      KnownOptionsReachMatcher(last[0].text);
    }
  }

  /** After any run of known options, the first command word is the command
      and everything after it, options included, its arguments. */
  lemma CommandAfterOptions(p: seq<OsArg>, c: OsArg, tail: seq<OsArg>, f: Flags)
    requires OptionRun(p) && IsCommandWord(c)
    ensures ScanArgs(p + [c] + tail, f).Parsed?
    ensures ScanArgs(p + [c] + tail, f).command == Some(Command(c, tail))
  {
    assert p + [c] + tail == p + ([c] + tail);
    var f' := SkipOptionRun(p, [c] + tail, f);
    CommandWordFirst(c, tail, f');
  }

  /** After any run of known options, "--" makes the next argument the command
      whatever it looks like, or leaves no command when nothing follows. */
  lemma DoubleDashAfterOptions(p: seq<OsArg>, tail: seq<OsArg>, f: Flags)
    requires OptionRun(p)
    ensures ScanArgs(p + [DOUBLE_DASH] + tail, f).Parsed?
    ensures ScanArgs(p + [DOUBLE_DASH] + tail, f).command ==
      (if tail == [] then None else Some(Command(tail[0], tail[1..])))
  {
    assert p + [DOUBLE_DASH] + tail == p + ([DOUBLE_DASH] + tail);
    var f' := SkipOptionRun(p, [DOUBLE_DASH] + tail, f);
    DoubleDashFirst(tail, f');
  }

  /** Running out of arguments after known options leaves no command, and a
      trailing `--host`/`--port` with no value resets that field to None. */
  lemma OptionsOnly(p: seq<OsArg>, last: seq<OsArg>, f: Flags)
    requires OptionRun(p)
    requires last == [] || (|last| == 1 && TakesValue(last[0]))
    ensures ScanArgs(p + last, f).Parsed?
    ensures ScanArgs(p + last, f).command.None?
    ensures last != [] && IsHostOption(last[0]) ==> ScanArgs(p + last, f).flags.host.None?
    ensures last != [] && IsPortOption(last[0]) ==> ScanArgs(p + last, f).flags.port.None?
  {
    var f' := SkipOptionRun(p, last, f);
    TrailingOption(last, f');
  }

  /** Extending a run of known options by one more option at the front. */
  lemma OptionRunCons(rest: seq<OsArg>, d: nat, k: nat)
    requires d + k <= |rest|
    requires (d == 1 && IsSwitch(rest[0])) || (d == 2 && TakesValue(rest[0]))
    requires OptionRun(rest[d..][..k])
    ensures OptionRun(rest[..d + k])
  {
    assert rest[..d + k][d..] == rest[d..][..k];
  }

  /** Conversely, a command found by `read_args` always follows a run of known
      options, directly or after "--", and its arguments are the remaining
      arguments in order; `k` is the command's position. */
  lemma {:induction false} CommandFollowsOptions(rest: seq<OsArg>, f: Flags) returns (k: nat)
    requires ScanArgs(rest, f).Parsed? && ScanArgs(rest, f).command.Some?
    ensures k < |rest|
    ensures rest[k..] == [ScanArgs(rest, f).command.value.command] + ScanArgs(rest, f).command.value.args
    ensures || (OptionRun(rest[..k]) && IsCommandWord(rest[k]))
            || (k >= 1 && rest[k - 1] == DOUBLE_DASH && OptionRun(rest[..k - 1]))
    decreases |rest|
  {
    var arg := rest[0];
    if !arg.utf8 || !StartsWithDash(arg.text) {
      k := 0;
      assert rest[..0] == [] && OptionRun(rest[..0]);
      assert IsCommandWord(rest[0]);
    } else if arg.text == "--" {
      k := 1;
      assert rest[..0] == [] && OptionRun(rest[..0]);
      assert rest[0] == DOUBLE_DASH;
    } else {
      var d, f' := FrontOption(rest, f);
      var k' := CommandFollowsOptions(rest[d..], f');
      k := d + k';
      assert rest[k..] == rest[d..][k'..];
      CommandFollowsOptionsCons(rest, d, k');
    }
  }

  /** A scan that finds a command past a leading dash argument other than "--"
      has passed a known option there, with its value if it takes one. */
  lemma FrontOption(rest: seq<OsArg>, f: Flags) returns (d: nat, f': Flags)
    requires rest != [] && rest[0].utf8 && StartsWithDash(rest[0].text) && rest[0].text != "--"
    requires ScanArgs(rest, f).Parsed? && ScanArgs(rest, f).command.Some?
    ensures d <= |rest|
    ensures (d == 1 && IsSwitch(rest[0])) || (d == 2 && TakesValue(rest[0]))
    ensures ScanArgs(rest, f) == ScanArgs(rest[d..], f')
  {
    var step := Matcher(rest[0].text, rest[1..], f);
    assert step.Continue?;
    d := if OptionNamed(rest[0].text) == ViewOnlyFlag || OptionNamed(rest[0].text) == GuiFlag then 1 else 2;
    f' := step.flags;
    assert step.rest == rest[d..];
  }

  /** The step of `CommandFollowsOptions`: a command placed after the option
      at the front, as the disjunction states, is placed so in the whole list. */
  lemma CommandFollowsOptionsCons(rest: seq<OsArg>, d: nat, k': nat)
    requires d + k' < |rest|
    requires (d == 1 && IsSwitch(rest[0])) || (d == 2 && TakesValue(rest[0]))
    requires || (OptionRun(rest[d..][..k']) && IsCommandWord(rest[d..][k']))
             || (k' >= 1 && rest[d..][k' - 1] == DOUBLE_DASH && OptionRun(rest[d..][..k' - 1]))
    ensures || (OptionRun(rest[..d + k']) && IsCommandWord(rest[d + k']))
            || (d + k' >= 1 && rest[d + k' - 1] == DOUBLE_DASH && OptionRun(rest[..d + k' - 1]))
  {
    if OptionRun(rest[d..][..k']) && IsCommandWord(rest[d..][k']) {
      OptionRunCons(rest, d, k');
    } else {
      OptionRunCons(rest, d, k' - 1);
    }
  }

  /** Flags that can differ only in the field the value-taking option `o` sets. */
  predicate SameExceptSetBy(f: Flags, g: Flags, o: OsArg) {
    && f.viewOnly == g.viewOnly
    && f.gui == g.gui
    && (IsHostOption(o) ==> f.port == g.port)
    && (IsPortOption(o) ==> f.host == g.host)
  }

  /** The base case of `LaterOptionDecides`: the value-taking option itself. */
  lemma LaterOptionFirst(tail: seq<OsArg>, f: Flags, g: Flags)
    requires |tail| >= 2 && TakesValue(tail[0]) && SameExceptSetBy(f, g, tail[0])
    ensures ScanArgs(tail, f) == ScanArgs(tail, g)
  {
    ScanValueOption(tail, f);
    ScanValueOption(tail, g);
  }

  /** A switch first updates two such flag sets alike, so they still differ at
      most in the field `o` sets. */
  lemma SwitchKeepsSameExcept(mid: seq<OsArg>, tail: seq<OsArg>, f: Flags, g: Flags, o: OsArg)
    returns (f': Flags, g': Flags)
    requires mid != [] && IsSwitch(mid[0]) && TakesValue(o) && SameExceptSetBy(f, g, o)
    ensures SameExceptSetBy(f', g', o)
    ensures ScanArgs(mid + tail, f) == ScanArgs(mid[1..] + tail, f')
    ensures ScanArgs(mid + tail, g) == ScanArgs(mid[1..] + tail, g')
  {
    var all := mid + tail;
    assert all[0] == mid[0];
    assert all[1..] == mid[1..] + tail;
    ScanSwitch(all, f);
    ScanSwitch(all, g);
    var viewOnly := mid[0].text == "-";
    f' := if viewOnly then f.(viewOnly := true) else f.(gui := true);
    g' := if viewOnly then g.(viewOnly := true) else g.(gui := true);
  }

  /** A value-taking option and its value first update two such flag sets
      alike, so they still differ at most in the field `o` sets. */
  lemma ValueKeepsSameExcept(mid: seq<OsArg>, tail: seq<OsArg>, f: Flags, g: Flags, o: OsArg)
    returns (f': Flags, g': Flags)
    requires |mid| >= 2 && TakesValue(mid[0]) && TakesValue(o) && SameExceptSetBy(f, g, o)
    ensures SameExceptSetBy(f', g', o)
    ensures ScanArgs(mid + tail, f) == ScanArgs(mid[2..] + tail, f')
    ensures ScanArgs(mid + tail, g) == ScanArgs(mid[2..] + tail, g')
  {
    var all := mid + tail;
    assert all[0] == mid[0] && all[1] == mid[1];
    assert all[2..] == mid[2..] + tail;
    ScanValueOption(all, f);
    ScanValueOption(all, g);
    var host := IsHostOption(mid[0]);
    f' := if host then f.(host := Some(mid[1])) else f.(port := Some(mid[1]));
    g' := if host then g.(host := Some(mid[1])) else g.(port := Some(mid[1]));
  }

  /** Scanning a run of known options and then a value-taking option makes two
      flag sets that differ only in that option's field equal. */
  lemma {:induction false} LaterOptionDecides(mid: seq<OsArg>, tail: seq<OsArg>, f: Flags, g: Flags)
    requires OptionRun(mid) && |tail| >= 2 && TakesValue(tail[0])
    requires SameExceptSetBy(f, g, tail[0])
    ensures ScanArgs(mid + tail, f) == ScanArgs(mid + tail, g)
    decreases |mid|
  {
    if mid == [] {
      assert mid + tail == tail;
      LaterOptionFirst(tail, f, g);
    } else {
      if IsSwitch(mid[0]) {
        var f', g' := SwitchKeepsSameExcept(mid, tail, f, g, tail[0]);
        LaterOptionDecides(mid[1..], tail, f', g');
      } else {
        var f', g' := ValueKeepsSameExcept(mid, tail, f, g, tail[0]);
        LaterOptionDecides(mid[2..], tail, f', g');
      }
    }
  }

  /** A later `--host` or `--port` replaces the value of an earlier one, with
      any run of known options between them. */
  lemma RepeatedOptionOverwrites(o1: OsArg, v1: OsArg, mid: seq<OsArg>, o2: OsArg, v2: OsArg, rest: seq<OsArg>, f: Flags)
    requires (IsHostOption(o1) && IsHostOption(o2)) || (IsPortOption(o1) && IsPortOption(o2))
    requires OptionRun(mid)
    ensures ScanArgs([o1, v1] + mid + [o2, v2] + rest, f) == ScanArgs(mid + [o2, v2] + rest, f)
  {
    var tail := [o2, v2] + rest;
    var all := [o1, v1] + mid + [o2, v2] + rest;
    assert all == [o1, v1] + (mid + tail);
    assert mid + [o2, v2] + rest == mid + tail;
    assert all[0] == o1 && all[1] == v1;
    ScanValueOption(all, f);
    assert all[2..] == mid + tail;
    assert tail[0] == o2;
    LaterOptionDecides(mid, tail,
      if IsHostOption(o1) then f.(host := Some(v1)) else f.(port := Some(v1)), f);
  }

  /** An unknown option stops the scan with an error, whatever follows it. */
  lemma UnknownOptionStops(a: OsArg, rest: seq<OsArg>, f: Flags)
    requires a.utf8 && StartsWithDash(a.text) && a.text != "--"
    requires !IsSwitch(a) && !IsHostOption(a) && !IsPortOption(a)
    requires a.text != "--help" && a.text != "-?"
    ensures ScanArgs([a] + rest, f) == Stopped(Error(UnknownArgument(a.text)))
  {
  }

  // ---- Whole command lines, as in the usage text ----

  /** `stdio-inspect --port 9000 <executable>`: `collect` yields a run of the
      executable with address `[::1]:9000` and no GUI. */
  lemma RunWithPort(prog: OsArg, p: OsArg, exe: OsArg, parse: Parsers)
    requires p.utf8 && parse.port(p.text) == Some(9000)
    requires IsCommandWord(exe)
    ensures Configure([prog, OsArg("--port", true), p, exe], parse) ==
      Configured(Run(Command(exe, []), Some(SocketAddr(IPV6_LOCALHOST, 9000)), false))
  {
    var argv := [prog, OsArg("--port", true), p, exe];
    var rest := argv[1..];
    assert rest == [OsArg("--port", true), p, exe];
    assert OptionNamed("--port") == PortOption;
    ScanValueOption(rest, NO_FLAGS);
    var f := NO_FLAGS.(port := Some(p));
    assert rest[1..] == [p, exe];
    assert Matcher(rest[0].text, rest[1..], NO_FLAGS).flags == f;
    assert rest[2..] == [exe] + [];
    CommandWordFirst(exe, [], f);
    assert ScanArgs(rest, NO_FLAGS) == Parsed(f, Some(Command(exe, [])));
    assert MakeUdp(f.host, f.port, false, parse) == Ok(Some(SocketAddr(IPV6_LOCALHOST, 9000)));
  }

  /** `stdio-inspect --port 9000 -`: `collect` yields view mode with address
      `[::]:9000` and no GUI. */
  lemma ViewWithPort(prog: OsArg, p: OsArg, parse: Parsers)
    requires p.utf8 && parse.port(p.text) == Some(9000)
    ensures Configure([prog, OsArg("--port", true), p, OsArg("-", true)], parse) ==
      Configured(View(SocketAddr(IPV6_UNSPECIFIED, 9000), false))
  {
    var dash := OsArg("-", true);
    var argv := [prog, OsArg("--port", true), p, dash];
    var rest := argv[1..];
    assert rest == [OsArg("--port", true), p, dash];
    assert OptionNamed("--port") == PortOption && OptionNamed("-") == ViewOnlyFlag;
    ScanValueOption(rest, NO_FLAGS);
    var f1 := NO_FLAGS.(port := Some(p));
    assert rest[1..] == [p, dash];
    assert Matcher(rest[0].text, rest[1..], NO_FLAGS).flags == f1;
    var last := rest[2..];
    assert last == [dash];
    ScanSwitch(last, f1);
    var f := f1.(viewOnly := true);
    assert last[1..] == [];
    assert ScanArgs(rest, NO_FLAGS) == Parsed(f, None);
    assert MakeUdp(f.host, f.port, true, parse) == Ok(Some(SocketAddr(IPV6_UNSPECIFIED, 9000)));
  }

  /** View mode ignores a command given after its options. */
  lemma ViewIgnoresCommand(prog: OsArg, p: OsArg, exe: OsArg, parse: Parsers)
    requires p.utf8 && parse.port(p.text) == Some(9000)
    requires IsCommandWord(exe)
    ensures Configure([prog, OsArg("-", true), OsArg("-p", true), p, exe], parse) ==
      Configured(View(SocketAddr(IPV6_UNSPECIFIED, 9000), false))
  {
    var argv := [prog, OsArg("-", true), OsArg("-p", true), p, exe];
    var rest := argv[1..];
    assert rest == [OsArg("-", true), OsArg("-p", true), p, exe];
    assert OptionNamed("-") == ViewOnlyFlag && OptionNamed("-p") == PortOption;
    ScanSwitch(rest, NO_FLAGS);
    var f1 := NO_FLAGS.(viewOnly := true);
    assert Matcher(rest[0].text, rest[1..], NO_FLAGS).flags == f1;
    var more := rest[1..];
    assert more == [OsArg("-p", true), p, exe];
    ScanValueOption(more, f1);
    var f := f1.(port := Some(p));
    assert more[1..] == [p, exe];
    assert Matcher(more[0].text, more[1..], f1).flags == f;
    assert more[2..] == [exe] + [];
    CommandWordFirst(exe, [], f);
    assert ScanArgs(rest, NO_FLAGS) == Parsed(f, Some(Command(exe, [])));
    assert MakeUdp(f.host, f.port, true, parse) == Ok(Some(SocketAddr(IPV6_UNSPECIFIED, 9000)));
  }

  /** With no options and a command, the command runs with no UDP address. */
  lemma PlainCommand(prog: OsArg, exe: OsArg, args: seq<OsArg>, parse: Parsers)
    requires IsCommandWord(exe)
    ensures Configure([prog, exe] + args, parse) == Configured(Run(Command(exe, args), None, false))
  {
    assert ([prog, exe] + args)[1..] == [exe] + args;
  }

  /** Without a command or view mode, the program name alone is an error. */
  lemma NoCommand(prog: OsArg, parse: Parsers)
    ensures Configure([prog], parse) == Exited(Error(ExecutableRequired))
  {
  }
}
