/**
 * The console sink of the runtime logger (libstd/rt/logging.rs): the
 * on/off console flag kept by the native runtime, and StdErrLogger::log,
 * which drops messages while the flag is off and otherwise writes the
 * message, cut to 2048 bytes plus a "[...]" marker, and a newline to stderr.
 */
module Logging {

  newtype Byte = b: int | 0 <= b < 256
  type Bytes = seq<Byte>

  /** The two ways a message reaches the logger: owned text (`~str`) on the
      left, a static string (`&'static str`) on the right. */
  datatype Either<L, R> = Left(left: L) | Right(right: R)
  type Message = Either<Bytes, Bytes>

  /** Longest text written unshortened. */
  const BufBytes: nat := 2048
  /** "[...]" in ASCII. */
  const Marker: Bytes := [0x5B, 0x2E, 0x2E, 0x2E, 0x5D]
  /** "\n" in ASCII. */
  const Newline: Bytes := [0x0A]

  function Min(a: nat, b: nat): nat
  {
    if a <= b then a else b
  }

  /** The text of a message, whichever variant carries it. */
  function Text(msg: Message): Bytes
  {
    match msg
    case Left(s) => s
    case Right(s) => s
  }

  /** The text as written: unchanged up to BufBytes bytes, otherwise its
      first BufBytes bytes followed by the marker. */
  function Truncate(s: Bytes): (r: Bytes)
    ensures |s| <= BufBytes ==> r == s
    ensures |s| > BufBytes ==> |r| == BufBytes + |Marker| && r[BufBytes..] == Marker
    ensures |r| <= BufBytes + |Marker|
    ensures r[..Min(|s|, BufBytes)] == s[..Min(|s|, BufBytes)]
  {
    if |s| > BufBytes then s[..BufBytes] + Marker else s
  }

  /** Everything one enabled log call sends to stderr. */
  function LogLine(msg: Message): Bytes
  {
    Truncate(Text(msg)) + Newline
  }

  /** The marker is added exactly when the text is longer than BufBytes; the
      written text's length tells the two cases apart, as an unchanged text
      is at most BufBytes long and a shortened one exactly BufBytes + 5. */
  lemma TruncatedIffLong(s: Bytes)
    ensures |s| > BufBytes <==> |Truncate(s)| > BufBytes
    ensures |s| > BufBytes <==> |Truncate(s)| == BufBytes + |Marker|
    ensures |s| <= BufBytes <==> Truncate(s) == s[..Min(|s|, BufBytes)]
  {
  }

  /** An owned and a static message with the same text are written alike. */
  lemma OwnedAndStaticAlike(s: Bytes)
    ensures LogLine(Left(s)) == LogLine(Right(s))
  {
  }

  /** A written line is the written text and one newline at its end. */
  lemma LogLineShape(msg: Message)
    ensures |LogLine(msg)| == |Truncate(Text(msg))| + 1
    ensures LogLine(msg)[..|LogLine(msg)| - 1] == Truncate(Text(msg))
    ensures LogLine(msg)[|LogLine(msg)| - 1] == Newline[0]
  {
  }

  /** The boundary cases: 2049 bytes become 2048 plus the marker, 2048 bytes
      pass unchanged, and the empty message is a bare newline. */
  lemma TruncateBoundaries(s: Bytes)
    requires |s| == BufBytes + 1
    ensures Truncate(s) == s[..BufBytes] + Marker
    ensures Truncate(s[..BufBytes]) == s[..BufBytes]
    ensures LogLine(Left([])) == Newline
  {
  }

  /**
   * The console state the native runtime keeps (rust_log_console_on/off,
   * rust_should_log_console) and the stderr stream, as the bytes written to
   * it so far; `Log` is StdErrLogger::log.
   */
  class Console {
    var consoleOn: bool
    var stderr: Bytes

    /** The flag's initial value is the native runtime's choice. */
    constructor (initiallyOn: bool)
      ensures consoleOn == initiallyOn && stderr == []
    {
      consoleOn := initiallyOn;
      stderr := [];
    }

    method ConsoleOn()
      modifies this
      ensures consoleOn && stderr == old(stderr)
    {
      consoleOn := true;
    }

    method ConsoleOff()
      modifies this
      ensures !consoleOn && stderr == old(stderr)
    {
      consoleOn := false;
    }

    method ShouldLogConsole() returns (b: bool)
      ensures b == consoleOn
    {
      b := consoleOn;
    }

    /** Writes the text and then a newline (the flush is not modelled). */
    method Print(s: Bytes)
      modifies this
      ensures consoleOn == old(consoleOn)
      ensures stderr == old(stderr) + s + Newline
    {
      stderr := stderr + s;
      stderr := stderr + Newline;
    }

    /** Drops the message while console logging is off; otherwise writes its
        text, shortened to BufBytes bytes plus the marker, and a newline. The
        flag is never changed. */
    method Log(msg: Message)
      modifies this
      ensures consoleOn == old(consoleOn)
      ensures stderr == if old(consoleOn) then old(stderr) + LogLine(msg) else old(stderr)
    {
      var on := ShouldLogConsole();
      if !on {
        return;
      }
      var s: Bytes;
      match msg {
        case Left(owned) => s := owned;
        case Right(borrowed) => s := borrowed;
      }
      if |s| > BufBytes {
        var cut := s[..BufBytes] + Marker;
        Print(cut);
      } else {
        Print(s);
      }
    }
  }

  /** After console_off a log call writes nothing, whatever the message. */
  method LogAfterConsoleOff(initiallyOn: bool, msg: Message) returns (written: Bytes)
    ensures written == []
  {
    var console := new Console(initiallyOn);
    console.ConsoleOff();
    console.Log(msg);
    written := console.stderr;
  }

  /** After console_on a log call writes exactly one line, ending in the one
      newline it adds. */
  method LogAfterConsoleOn(initiallyOn: bool, msg: Message) returns (written: Bytes)
    ensures written == Truncate(Text(msg)) + Newline
    ensures |written| <= BufBytes + |Marker| + 1
  {
    var console := new Console(initiallyOn);
    console.ConsoleOn();
    console.Log(msg);
    written := console.stderr;
  }
}
