# stdio-inspect in Dafny

stdio-inspect runs a child command and sits between it and the terminal. It
proxies the child's standard input, output and error, and publishes every chunk
it reads as a fixed-size `Message` frame on a channel. A UDP sender that would
consume those frames is only partly written: src/main.rs does not declare the
`udp` module and keeps the channel's receiver `_rx` without ever reading it. The
command line selects one of two configurations:

- `stdio-inspect [OPTIONS] <executable> [ARGS]` runs a command, with an
  optional UDP address for its streams.
- `stdio-inspect [OPTIONS] -` selects view mode, with the UDP address to listen
  on. src/main.rs does not implement view mode yet: it reaches `todo!()`.

This project models the program's core:

- **Frame size** (`Communicator`, `communicator.dfy`). The chunk size is computed
  at build time from the `BUFFER_SIZE` variable. `Message` is the frame:
  a stream kind, a zero-padded byte array and a length.
- **Accumulator** (`UdpSender`, `sender.dfy`). This is the sender's state: the
  last stream kind and the bytes buffered for it. `tick` flushes the buffered
  bytes into one `send_data` call and resets the buffer.
- **Commands** (`Commands`, `command.dfy`):
  - the `Command` value and its three `TryFrom` conversions;
  - `Command::new`;
  - the exit code returned by `run`;
  - the read/publish/write loop of `proxy_stream`.
- **Configuration** (`Config`, `config.dfy`):
  - `read_args`, the argument scanner, together with the matcher closure of
    `collect`;
  - `make_udp`, which builds the optional UDP address;
  - the final choice between `Run` and `View`.

  Paths that print the usage text and call `process::exit` become `Stop`
  outcomes.

Shared value types are in `prelude.dfy` (`Option`, `Result`, the fixed-width
integers `u8`, `u16`, `i32`) and `net.dfy` (IP and socket addresses).

Effectful loops are methods proved against specification functions:

- `ReadArgs` is proved against `ScanArgs`.
- `ProxyStream` is proved against `StopIndex`, `Chunks` and `Concat`.
- `GetBufferSize` is proved against `Decimal` and `DigitRun`.

The scanner's grammar is proved in both directions:

- `CommandAfterOptions`, `DoubleDashAfterOptions` and `OptionsOnly` show what
  `read_args` returns for a run of known options followed by a command, by
  "--", or by nothing.
- `CommandFollowsOptions` shows that every command it finds was placed in one
  of those ways.

## Model

| member | source | states |
|---|---|---|
| Communicator.GetBufferSize | src/communicator.rs:1-23 | An unset or empty BUFFER_SIZE gives 8. A non-digit before any overflow gives 8. An all-digit value within `usize` gives its decimal value. A run of digits before the first non-digit that exceeds `usize` fails the build (with overflow checks on). |
| Communicator.DigitRun | src/communicator.rs:13-17 | The loop's stopping point: the longest all-digit prefix, followed by a non-digit or by the end. |
| Communicator.DecimalPrefixBound | src/communicator.rs:18-19 | Accumulating more digits never decreases the value, so `r` only grows. |
| Communicator.OverflowPersists | src/communicator.rs:13-21 | Once the digits read so far overflow `usize`, every longer prefix of the digit run overflows too. So the build fails even if a non-digit comes later. |
| Communicator.DecimalLeadingZero | src/communicator.rs:18-19 | Leading '0' bytes do not change the size. |
| Communicator.NewMessage | src/communicator.rs:42-48 | Callers must pass a chunk of at most DATA_BUFFER_SIZE bytes (the assertion). The frame keeps the kind, has `len` equal to the chunk length, carries exactly the chunk, and is zero after `len`. |
| UdpSender.Accumulator.constructor | src/udp/sender.rs:6-13 | Starts with no stream kind, an empty buffer and ACCUMULATOR_CAPACITY = 4 × DATA_BUFFER_SIZE. |
| UdpSender.Accumulator.Tick | src/udp/sender.rs:36-47 | With no kind recorded, nothing changes. Otherwise exactly one `send_data(addr, kind, data)` is logged with the old buffer, the kind is cleared, and a fresh empty buffer of ACCUMULATOR_CAPACITY replaces the old one. "No kind ⇒ empty buffer" is preserved. |
| UdpSender.Accumulator.SendDataTo | src/udp/sender.rs:54-56 | Each call is appended to the log of datagrams with the accumulator's address. |
| UdpSender.TickTwice | src/udp/sender.rs:36-47 | Two ticks in a row send at most one datagram. The log only grows at its end. |
| Commands.TryFrom | src/command.rs:62-74 | An argument list succeeds exactly when it is non-empty; its head is the executable and its tail the arguments. Both pair conversions always succeed; a `String` becomes a valid-UTF-8 argument. |
| Commands.New | src/command.rs:23-28 | `Some` exactly when the conversion succeeds, with the converted value. |
| Commands.RunExitCode | src/command.rs:44-48 | The child's exit code, or 0 when the child has none (killed by a signal). |
| Commands.StopIndex | src/command.rs:89-107 | The index of the first read outcome that leaves the loop: end of stream, a failed write, or a non-interrupted error. Every earlier outcome keeps the loop going. |
| Commands.ReadIntoFrame | src/command.rs:88-95 | The bytes read occupy the front of the reused buffer. The frame published for them carries exactly those bytes, tagged with the stream kind, and the rest of its data field is zeros. |
| Commands.ProxyOnce | src/command.rs:90-106 | One pass of the loop. It ends the loop exactly on an empty read, a non-interrupted read error or a failed write, with the matching ending. It publishes a frame exactly for a non-empty read, carrying the bytes read followed by zeros. It writes the whole chunk, or only a strict prefix of it when the write fails. |
| Commands.ProxyStream | src/command.rs:76-110 | Published frames are valid and tagged with the loop's kind. The loop ends on end of stream, on a read error other than Interrupted (panic), or on a failed write (panic). Interrupted reads are retried. The written bytes are the concatenation of all chunks read before the stop, followed by the part of the failed chunk that was written before a failed write. The published payloads are those chunks in order, plus the chunk whose write failed. |
| Config.UsageExitCode | src/config.rs:26-71 | The exit code is 0 exactly for help; every `error!` exits with -1. |
| Config.Matcher | src/config.rs:79-86 | `-` sets view mode and `--gui` sets the GUI flag, and neither consumes an argument. `--host`/`-h` and `--port`/`-p` take the next argument as their value, or None when there is none, and consume it. Every other flag is left as it was. `--help`/`-?` exits with help, and any other argument exits with "Unknown argument". |
| Config.KnownOptionsReachMatcher | src/config.rs:79-86 | Every option the matcher knows starts with '-' and is not "--", so `read_args` passes it to the matcher. |
| Config.ScanSwitch | src/config.rs:79-81 | At the front of the arguments, `-` sets `viewOnly` and `--gui` sets `gui`; the scan carries on with the next argument. |
| Config.ScanValueOption | src/config.rs:82-83 | At the front of the arguments, `--host`/`-h` sets `host` and `--port`/`-p` sets `port` to the next argument; the scan carries on after that value. |
| Config.SkipOptionRun | src/config.rs:111-122 | A run of known options only changes the flags; scanning continues with what follows the run. |
| Config.CommandWordFirst | src/config.rs:113-123 | A first argument that is not UTF-8 or does not start with '-' is the command; the rest are its arguments. |
| Config.DoubleDashFirst | src/config.rs:118-119 | "--" gives the rest to the argument-list conversion. |
| Config.TrailingOption | src/config.rs:82-83 | No command is found when the arguments run out, even after a value-taking option with no value. Such an option resets its field to None. |
| Config.CommandAfterOptions | src/config.rs:111-127 | After any run of known options, the first command word is the command. Everything after it, options included, becomes its arguments. |
| Config.DoubleDashAfterOptions | src/config.rs:111-127 | After any run of known options, "--" makes the next argument the command, whatever it looks like. When nothing follows, there is no command. |
| Config.OptionsOnly | src/config.rs:111-127 | Known options alone, possibly ending with a value-less `--host`/`--port`, yield no command. |
| Config.CommandFollowsOptions | src/config.rs:111-127 | Converse: any command found sits after a run of known options, either directly or after "--". Its arguments are exactly the remaining arguments in order. |
| Config.LaterOptionDecides | src/config.rs:79-86 | Two flag sets that differ only in the field a later `--host` or `--port` sets give the same scan once that option is reached, whatever run of known options comes first. |
| Config.RepeatedOptionOverwrites | src/config.rs:82-83 | A later `--host` or `--port` replaces an earlier one, with any run of known options between them. |
| Config.UnknownOptionStops | src/config.rs:85 | An unknown dash argument exits with "Unknown argument", whatever follows. |
| Config.ReadArgs | src/config.rs:97-128 | An empty argv is the `expect` failure on argv[0]. Otherwise the loop returns what `ScanArgs` specifies for the arguments after argv[0]. |
| Config.MakeUdp | src/config.rs:130-168 | Neither option gives no address. A host without a port is an error. A port must be UTF-8 and a valid `u16`. The host is: ::1 for "localhost"; the parsed address otherwise; ::1 (run) or :: (view) when absent. Given a valid port, the result is an error exactly when the host is present and invalid (not UTF-8, or neither "localhost" nor a parsable address), and that error is `InvalidHost`. |
| Config.SelectMode | src/config.rs:88-93 | View mode succeeds exactly when there is an address, and then ignores any command. Run mode succeeds exactly when there is a command, and keeps the optional address. `gui` is carried through. |
| Config.Configure | src/config.rs:74-94 | An empty argv is the `expect` failure. A matcher exit is the result. An error from `make_udp` on the scanned host, port and view flag exits with that error. A missing command in run mode, or a missing address in view mode, exits with its error. Conversely, when the scan succeeds and `make_udp` succeeds, the result is a configuration exactly when view mode has an address, or run mode has a command. A configuration agrees with the scanned flags on `gui` and view mode. A run configuration carries the scanned command and `make_udp`'s optional address, and a view configuration carries `make_udp`'s address. |
| Config.Collect | src/config.rs:74-94 | `collect` computes exactly `Configure`. |
| Config.RunWithPort | src/config.rs:47-48 | `collect` turns `--port 9000 <executable>` into `Run` of the executable with no arguments, address [::1]:9000 and no GUI. |
| Config.ViewWithPort | src/config.rs:49-50 | `collect` turns `--port 9000 -` into `View` on address [::]:9000 with no GUI. |
| Config.ViewIgnoresCommand | src/config.rs:92 | View mode ignores a command given after its options. |
| Config.PlainCommand | src/config.rs:91 | A command with no options runs with no UDP address and no GUI. |
| Config.NoCommand | src/config.rs:90 | With no command and no view mode, `<executable> required` is reported. |

## Left out

- `start_sender` (src/udp/sender.rs:8-27) is not modelled: the spawned task, its `select!` between a 500 ms sleep and the channel, and `yield_now`. Concurrency and timing are not modelled. Its initial accumulator is `Accumulator.constructor`.
- `Accumulator::push` is left out because its body in the program is `todo!()`. The program therefore does no batching yet: nothing fills the accumulator, and there is no size limit, no flush on a change of stream kind and no datagram format.
- UdpSender.Accumulator.SendDataTo: `send_data`'s body is `todo!()` and would panic. The model records the call in a ghost log instead.
- `Command::run` is represented only by its exit-code mapping (`RunExitCode`). Spawning the child, piping its streams, the three spawned proxy tasks and `wait` are process I/O and are not modelled. Neither are the panics of `expect` on spawn and wait.
- Commands.ProxyStream: the reader, writer and channel are replaced by a script of read outcomes.
  - Each successful read carries what the following `write_all` does: it writes the whole chunk, or it fails after writing only a prefix of it. The written bytes include that prefix.
  - Publishing on the broadcast channel cannot affect the loop, since its error is discarded. The model returns the published frames and does not model channel subscribers.
  - When the script runs out, the loop reports `AwaitingRead`.
  - `read` is assumed to return at most the buffer's size.
- `DATA_BUFFER_SIZE` is fixed to 8, the value for an unset BUFFER_SIZE. Other builds are covered by `GetBufferSize` only.
- `usize` is taken to be 64 bits wide.
- Communicator.GetBufferSize: the model follows a build with overflow checks on, where an overflowing `r *= 10` or `r += …` stops the constant evaluation and so the build. A build with overflow checks off (the release profile) would wrap modulo 2^64 instead; that wrap is not modelled.
- A `Vec`'s reserved capacity is only a field (`capacity`). `Vec::with_capacity(n)` promises at least n; the model records exactly n.
- `OsString` is modelled as text plus a flag that says whether it is valid UTF-8.
- Parsing a `u16` port and an `IpAddr` host is library code. It is modelled as the two functions in `Parsers`, given as input.
- The usage and error text written to standard error is not modelled. `process::exit` becomes a `Stop` outcome, and `UsageExitCode` gives its code.
- An empty argv is a panic in the program (the `expect` on argv[0]). The model reports it as `Stop.MissingProgramName`.
- src/main.rs is not part of this model: the channel of capacity 32 and the unfinished wiring of the parts. It does not act on the UDP address yet. Run mode drops `udp`, and view mode reaches `todo!()`, so `collect`'s address is never used to send or listen.
