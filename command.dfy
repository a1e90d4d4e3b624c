/** The child command (an executable and its arguments), the conversions that
    build it, the exit-code mapping of `run`, and one stream-proxy loop driven
    by a script of read outcomes. */
module Commands {
  import opened Prelude
  import opened Communicator

  /** An `OsString` command-line argument: its text, and whether it is valid
      UTF-8 (`into_string` succeeds). */
  datatype OsArg = OsArg(text: string, utf8: bool)

  /** `Command`: the executable and the iterator of remaining arguments. */
  datatype Command = Command(command: OsArg, args: seq<OsArg>)

  /** The three inputs `Command` can be built from. */
  datatype CommandSource =
    | FromArgsOs(rest: seq<OsArg>)
    | FromOsString(exe: OsArg, rest: seq<OsArg>)
    | FromString(name: string, rest: seq<OsArg>)

  /** The three `TryFrom` conversions. An argument list gives up its first
      element as the executable and fails when empty; a pair always succeeds. */
  function TryFrom(input: CommandSource): (r: Result<Command, ()>)
    ensures input.FromArgsOs? ==>
      && (r.Ok? <==> input.rest != [])
      && (r.Ok? ==> [r.value.command] + r.value.args == input.rest)
    ensures input.FromOsString? ==> r == Ok(Command(input.exe, input.rest))
    ensures input.FromString? ==> r == Ok(Command(OsArg(input.name, true), input.rest))
  {
    match input
    case FromArgsOs(rest) =>
      if rest == [] then Err(()) else Ok(Command(rest[0], rest[1..]))
    case FromOsString(exe, rest) => Ok(Command(exe, rest))
    case FromString(name, rest) => Ok(Command(OsArg(name, true), rest))
  }

  /** `Command::new`: the conversion's value, or None when it fails. */
  function New(input: CommandSource): (r: Option<Command>)
    ensures r.Some? <==> TryFrom(input).Ok?
    ensures r.Some? ==> r.value == TryFrom(input).value
  {
    match TryFrom(input)
    case Ok(c) => Some(c)
    case Err(_) => None
  }

  /** The exit code `run` returns for the child's status code, which is absent
      when the child was ended by a signal. */
  function RunExitCode(status: Option<i32>): (code: i32)
    ensures status.Some? ==> code == status.value
    ensures status.None? ==> code == 0
  {
    match status
    case Some(c) => c
    case None => 0
  }

  datatype ErrorKind = Interrupted | Other

  /** What `write_all` of a chunk does: write all of it, or fail after writing
      the first `accepted` bytes of it (fewer than the whole chunk). */
  datatype WriteOutcome = WroteAll | WriteFailed(accepted: nat)

  /** What one `read` into the proxy's buffer returns: `Ok(n)` with the n bytes
      it placed in the buffer (none at end of stream), together with what the
      following `write_all` of them does; or an error of some kind. */
  datatype ReadOutcome =
    | Read(bytes: seq<u8>, write: WriteOutcome)
    | ReadErr(kind: ErrorKind)

  /** An outcome the environment can produce: a read fills at most the buffer,
      and a failed `write_all` has left part of its chunk unwritten. */
  predicate Feasible(o: ReadOutcome) {
    o.Read? ==>
      && |o.bytes| <= DATA_BUFFER_SIZE
      && (o.bytes != [] && o.write.WriteFailed? ==> o.write.accepted < |o.bytes|)
  }

  /** How a proxy loop ended: end of stream returns normally, the two others
      panic; `AwaitingRead` means the script ran out while the loop still runs. */
  datatype ProxyEnd = EndOfStream | ReadPanic | WritePanic | AwaitingRead

  /** Does this outcome leave the loop? */
  predicate EndsLoop(o: ReadOutcome) {
    match o
    case Read(bytes, write) => bytes == [] || write.WriteFailed?
    case ReadErr(kind) => kind == Other
  }

  /** Position of the first outcome that leaves the loop, or the script length. */
  function StopIndex(script: seq<ReadOutcome>): (k: nat)
    ensures k <= |script|
    ensures forall i :: 0 <= i < k ==> !EndsLoop(script[i])
    ensures k < |script| ==> EndsLoop(script[k])
  {
    if script == [] || EndsLoop(script[0]) then 0 else 1 + StopIndex(script[1..])
  }

  /** An outcome that keeps the loop going lies before the stop index. */
  lemma StopIndexStep(script: seq<ReadOutcome>, i: nat)
    requires i < |script| && i <= StopIndex(script) && !EndsLoop(script[i])
    ensures i + 1 <= StopIndex(script)
  {
  }

  /** An outcome that leaves the loop, reached by the loop, is the stop index. */
  lemma StopIndexAt(script: seq<ReadOutcome>, i: nat)
    requires i < |script| && i <= StopIndex(script) && EndsLoop(script[i])
    ensures StopIndex(script) == i
  {
  }

  /** The bookkeeping of one successful read whose write succeeds: the chunk
      joins both the published payloads and the written bytes. */
  lemma ReadStep(script: seq<ReadOutcome>, i: nat, published: seq<Message>, m: Message, written: seq<u8>)
    requires i < |script| && script[i].Read?
    requires Frames(published)
    requires ValidMessage(m) && Payload(m) == script[i].bytes
    requires Payloads(published) == Chunks(script[..i])
    requires written == Concat(Chunks(script[..i]))
    ensures Frames(published + [m])
    ensures Payloads(published + [m]) == Chunks(script[..i + 1])
    ensures written + Payload(m) == Concat(Chunks(script[..i + 1]))
  {
    ChunksSnoc(script, i);
    PayloadsSnoc(published, m);
    ConcatSnoc(Chunks(script[..i]), script[i].bytes);
  }

  /** A failed read adds no chunk. */
  lemma ReadErrStep(script: seq<ReadOutcome>, i: nat)
    requires i < |script| && script[i].ReadErr?
    ensures Chunks(script[..i + 1]) == Chunks(script[..i])
  {
    ChunksSnoc(script, i);
  }

  /** How a loop that stopped at outcome `o` ends. */
  function EndFor(o: ReadOutcome): ProxyEnd {
    match o
    case Read(bytes, _) => if bytes == [] then EndOfStream else WritePanic
    case ReadErr(_) => ReadPanic
  }

  /** The byte chunks of the successful reads in a script, in order. */
  function Chunks(script: seq<ReadOutcome>): seq<seq<u8>> {
    if script == [] then []
    else
      var last := script[|script| - 1];
      Chunks(script[..|script| - 1]) + (if last.Read? then [last.bytes] else [])
  }

  /** Concatenation of chunks, in order. */
  function Concat(chunks: seq<seq<u8>>): seq<u8> {
    if chunks == [] then [] else Concat(chunks[..|chunks| - 1]) + chunks[|chunks| - 1]
  }

  /** Every message is a well-formed frame. */
  predicate Frames(ms: seq<Message>) {
    forall m :: m in ms ==> ValidMessage(m)
  }

  /** The payloads of a sequence of messages, in order. */
  function Payloads(ms: seq<Message>): seq<seq<u8>>
    requires Frames(ms)
  {
    if ms == [] then [] else Payloads(ms[..|ms| - 1]) + [Payload(ms[|ms| - 1])]
  }

  lemma ChunksSnoc(script: seq<ReadOutcome>, i: nat)
    requires i < |script|
    ensures Chunks(script[..i + 1]) ==
      Chunks(script[..i]) + (if script[i].Read? then [script[i].bytes] else [])
  {
    assert script[..i + 1][..i] == script[..i];
  }

  lemma ConcatSnoc(chunks: seq<seq<u8>>, c: seq<u8>)
    ensures Concat(chunks + [c]) == Concat(chunks) + c
  {
    assert (chunks + [c])[..|chunks|] == chunks;
  }

  lemma PayloadsSnoc(ms: seq<Message>, m: Message)
    requires Frames(ms)
    requires ValidMessage(m)
    ensures Frames(ms + [m])
    ensures Payloads(ms + [m]) == Payloads(ms) + [Payload(m)]
  {
    assert (ms + [m])[..|ms|] == ms;
  }

  /** One successful read: the bytes land at the front of the reused buffer,
      and the frame published for them carries exactly those bytes. */
  method ReadIntoFrame(kind: StreamKind, buffer: array<u8>, bytes: seq<u8>) returns (m: Message)
    requires buffer.Length == DATA_BUFFER_SIZE && |bytes| <= DATA_BUFFER_SIZE
    modifies buffer
    ensures buffer[..|bytes|] == bytes
    ensures ValidMessage(m) && m.kind == kind && Payload(m) == bytes
    ensures forall i :: m.len <= i < DATA_BUFFER_SIZE ==> m.data[i] == 0
  {
    forall j | 0 <= j < |bytes| {
      buffer[j] := bytes[j];
    }
    var chunk := buffer[..|bytes|];
    assert chunk == bytes;
    m := NewMessage(kind, chunk);
  }

  /** One pass of `proxy_stream`'s loop on read outcome `o`: the frame it
      publishes, if any, and how the loop ends, if it does. An empty read ends
      it normally, a read error other than Interrupted or a failed write ends
      it with a panic, and any other outcome lets it go on. */
  method ProxyOnce(kind: StreamKind, buffer: array<u8>, o: ReadOutcome)
    returns (stop: Option<ProxyEnd>, frame: Option<Message>, out: seq<u8>)
    requires buffer.Length == DATA_BUFFER_SIZE
    requires Feasible(o)
    modifies buffer
    ensures stop.Some? <==> EndsLoop(o)
    ensures stop.Some? ==> stop.value == EndFor(o)
    ensures frame.Some? <==> o.Read? && o.bytes != []
    ensures frame.Some? ==> ValidMessage(frame.value) && frame.value.kind == kind && Payload(frame.value) == o.bytes
    ensures frame.Some? ==> forall i :: frame.value.len <= i < DATA_BUFFER_SIZE ==> frame.value.data[i] == 0
    ensures frame.None? ==> out == []
    ensures frame.Some? && stop.None? ==> out == o.bytes
    ensures frame.Some? && stop.Some? ==> out == o.bytes[..o.write.accepted] && |out| < |o.bytes|
  {
    match o {
      case ReadErr(errorKind) =>
        frame, out := None, [];
        stop := if errorKind != Interrupted then Some(ReadPanic) else None;
      case Read(bytes, write) =>
        if |bytes| == 0 {
          return Some(EndOfStream), None, [];
        }
        var msg := ReadIntoFrame(kind, buffer, bytes);
        frame := Some(msg);
        match write {
          case WroteAll =>
            stop, out := None, Payload(msg);
          case WriteFailed(accepted) =>
            stop, out := Some(WritePanic), Payload(msg)[..accepted];
        }
    }
  }

  /** `proxy_stream`'s loop for stream `kind`: read into a reused buffer of
      DATA_BUFFER_SIZE bytes; stop at end of stream; retry an interrupted read;
      panic on any other read error; otherwise publish one message with the
      bytes read, then write the same bytes, panicking when the write fails
      (after writing part of them, perhaps).
      The result of publishing is discarded, so it never affects the loop.
      Returns how the loop ended, the messages published and the bytes written. */
  method ProxyStream(kind: StreamKind, script: seq<ReadOutcome>)
    returns (end: ProxyEnd, published: seq<Message>, written: seq<u8>)
    requires forall i :: 0 <= i < |script| ==> Feasible(script[i])
    ensures Frames(published) && forall m :: m in published ==> m.kind == kind
    ensures end == (if StopIndex(script) == |script| then AwaitingRead else EndFor(script[StopIndex(script)]))
    ensures end == WritePanic ==>
      var o := script[StopIndex(script)];
      o.Read? && o.bytes != [] && o.write.WriteFailed? && o.write.accepted < |o.bytes|
    ensures written == Concat(Chunks(script[..StopIndex(script)])) +
        (if end == WritePanic then script[StopIndex(script)].bytes[..script[StopIndex(script)].write.accepted] else [])
    ensures Payloads(published) == Chunks(script[..StopIndex(script)]) +
        (if end == WritePanic then [script[StopIndex(script)].bytes] else [])
  {
    ghost var k := StopIndex(script);
    var buffer := new u8[DATA_BUFFER_SIZE](_ => 0);
    published, written := [], [];
    var i := 0;
    while i < |script|
      invariant i <= k
      invariant Frames(published) && forall m :: m in published ==> m.kind == kind
      invariant written == Concat(Chunks(script[..i]))
      invariant Payloads(published) == Chunks(script[..i])
    {
      var stop, frame, out := ProxyOnce(kind, buffer, script[i]);
      if stop.Some? {
        StopIndexAt(script, i);
        end := stop.value;
        if frame.Some? {
          PayloadsSnoc(published, frame.value);
          published := published + [frame.value];
        }
        written := written + out;
        return;
      }
      if frame.Some? {
        ReadStep(script, i, published, frame.value, written);
        published := published + [frame.value];
        written := written + Payload(frame.value);
      } else {
        ReadErrStep(script, i);
      }
      StopIndexStep(script, i);
      i := i + 1;
    }
    end := AwaitingRead;
  }
}
