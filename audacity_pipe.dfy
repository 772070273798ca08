/** The named-pipe transport of the bridge: which pipes it uses on each
    platform, the frame it writes, and how it assembles a reply from the
    lines it reads back.  The pipes themselves are abstracted: whether each
    exists, whether opening or writing fails, and the finite sequence of
    results `readline()` gives before the stream runs dry. */
module AudacityPipe {
  import opened Strings
  import opened Wrappers
  import SecurityUtils

  // ---------------------------------------------------------------------
  // Platform constants

  /** `sys.platform == 'win32'`, or a POSIX system with the caller's uid. */
  datatype Platform = Win32 | Posix(uid: nat)

  const PipeBase: string := "/tmp/audacity_script_pipe."

  /** The not-found reply, written in two parts. */
  const NotFoundMessage: string :=
    "Error: Audacity pipes not found. " + "Is Audacity running with mod-script-pipe enabled?"

  const CommunicationPrefix: string := "Error communicating with Audacity: "

  function DigitChar(d: nat): (c: char)
    requires d < 10
  {
    "0123456789"[d]
  }

  function DigitValue(c: char): nat
    requires '0' <= c <= '9'
  {
    (c - '0') as nat
  }

  /** A string of decimal digits. */
  predicate Digits(s: string) {
    forall k :: 0 <= k < |s| ==> '0' <= s[k] <= '9'
  }

  /** `str(n)` for a non-negative integer. */
  function DecimalString(n: nat): (s: string)
    ensures |s| >= 1 && Digits(s)
    ensures |s| > 1 ==> s[0] != '0'
  {
    if n < 10 then [DigitChar(n)]
    else DecimalString(n / 10) + [DigitChar(n % 10)]
  }

  /** `str(n)`'s form: at least one digit, and no leading zero unless the
      zero is the only digit. */
  predicate CanonicalDigits(s: string) {
    |s| >= 1 && Digits(s) && (|s| == 1 || s[0] != '0')
  }

  /** The value of a string of decimal digits. */
  function DecimalValue(s: string): nat
    requires Digits(s)
  {
    if |s| == 0 then 0 else 10 * DecimalValue(s[..|s| - 1]) + DigitValue(s[|s| - 1])
  }

  /** Reading back `str(n)` gives `n`. */
  lemma {:induction false} DecimalRoundTrip(n: nat)
    ensures DecimalValue(DecimalString(n)) == n
  {
    var s := DecimalString(n);
    if n < 10 {
      DigitRoundTrip(n);
      assert s[..0] == [];
    } else {
      var q, d := n / 10, n % 10;
      assert s[..|s| - 1] == DecimalString(q);
      DecimalRoundTrip(q);
      DigitRoundTrip(d);
      assert n == 10 * q + d;
    }
  }

  /** Conversely, a canonical digit string is `str` of its value, so a
      canonical form that reads back as `n` is exactly `str(n)`. */
  lemma {:induction false} CanonicalIsDecimal(s: string)
    requires CanonicalDigits(s)
    ensures s == DecimalString(DecimalValue(s))
    decreases |s|
  {
    var front, last := s[..|s| - 1], s[|s| - 1];
    assert s == front + [last];
    CharRoundTrip(last);
    if |s| > 1 {
      LeadingNonZero(s);
      assert front[0] == s[0];
      CanonicalIsDecimal(front);
      var n := DecimalValue(s);
      assert n / 10 == DecimalValue(front) && n % 10 == DigitValue(last);
    } else {
      assert front == [];
    }
  }

  /** A digit string whose first digit is not zero has a positive value,
      and with two digits or more a value of ten or more. */
  lemma {:induction false} LeadingNonZero(s: string)
    requires |s| >= 1 && Digits(s) && s[0] != '0'
    ensures DecimalValue(s) >= 1
    ensures |s| > 1 ==> DecimalValue(s) >= 10
    decreases |s|
  {
    if |s| > 1 {
      var front := s[..|s| - 1];
      assert front[0] == s[0];
      LeadingNonZero(front);
    } else {
      assert s[..0] == [];
    }
  }

  lemma CharRoundTrip(c: char)
    requires '0' <= c <= '9'
    ensures DigitValue(c) < 10 && DigitChar(DigitValue(c)) == c
  {
  }

  lemma DigitRoundTrip(d: nat)
    requires d < 10
    ensures '0' <= DigitChar(d) <= '9' && DigitValue(DigitChar(d)) == d
  {
  }

  /** `WRITE_NAME`: the pipe the bridge writes commands to.  On a POSIX
      system it is the base, `to.`, and the uid in canonical decimal. */
  function WriteName(p: Platform): (name: string)
    ensures p.Win32? ==> name == "\\\\.\\pipe\\ToSrvPipe"
    ensures p.Posix? ==>
      |name| > |PipeBase| + 3 && name[..|PipeBase| + 3] == PipeBase + "to."
      && CanonicalDigits(name[|PipeBase| + 3..]) && DecimalValue(name[|PipeBase| + 3..]) == p.uid
  {
    match p
    case Win32 => "\\\\.\\pipe\\ToSrvPipe"
    case Posix(uid) => PosixName(PipeBase + "to.", uid)
  }

  /** `READ_NAME`: the pipe the bridge reads replies from.  On a POSIX
      system it is the base, `from.`, and the uid in canonical decimal. */
  function ReadName(p: Platform): (name: string)
    ensures p.Win32? ==> name == "\\\\.\\pipe\\FromSrvPipe"
    ensures p.Posix? ==>
      |name| > |PipeBase| + 5 && name[..|PipeBase| + 5] == PipeBase + "from."
      && CanonicalDigits(name[|PipeBase| + 5..]) && DecimalValue(name[|PipeBase| + 5..]) == p.uid
  {
    match p
    case Win32 => "\\\\.\\pipe\\FromSrvPipe"
    case Posix(uid) => PosixName(PipeBase + "from.", uid)
  }

  /** `prefix + str(uid)`. */
  function PosixName(prefix: string, uid: nat): (name: string)
    ensures |name| > |prefix| && name[..|prefix|] == prefix
    ensures CanonicalDigits(name[|prefix|..]) && DecimalValue(name[|prefix|..]) == uid
  {
    var digits := DecimalString(uid);
    DecimalRoundTrip(uid);
    assert (prefix + digits)[..|prefix|] == prefix;
    assert (prefix + digits)[|prefix|..] == digits;
    prefix + digits
  }

  /** `EOL`: the terminator of an outbound command, a newline on POSIX
      systems and carriage return, newline and NUL on Windows. */
  function Eol(p: Platform): (eol: string)
    ensures p.Posix? <==> eol == "\n"
    ensures p.Win32? <==> eol == "\r\n\0"
  {
    if p.Win32? then "\r\n\0" else "\n"
  }

  /** `command + EOL`, the string handed to the single `write` of an
      exchange: the command unchanged, then the terminator. */
  function Frame(command: string, p: Platform): (f: string)
    ensures |f| == |command| + |Eol(p)|
    ensures f[..|command|] == command && f[|command|..] == Eol(p)
  {
    assert (command + Eol(p))[..|command|] == command;
    assert (command + Eol(p))[|command|..] == Eol(p);
    command + Eol(p)
  }

  /** On every platform the two pipes are distinct, and on a POSIX system
      each user has pipes of their own. */
  lemma PipeNamesDistinct(p: Platform, q: Platform)
    ensures WriteName(p) != ReadName(p)
    ensures p.Posix? && q.Posix? && p.uid != q.uid ==>
      WriteName(p) != WriteName(q) && ReadName(p) != ReadName(q)
  {
    if p.Win32? {
      assert WriteName(p)[9] != ReadName(p)[9];
    } else {
      assert WriteName(p)[|PipeBase|] == 't' && ReadName(p)[|PipeBase|] == 'f';
    }
    if p.Posix? && q.Posix? && p.uid != q.uid {
      DecimalRoundTrip(p.uid);
      DecimalRoundTrip(q.uid);
      SuffixDiffers(PipeBase + "to.", DecimalString(p.uid), DecimalString(q.uid));
      SuffixDiffers(PipeBase + "from.", DecimalString(p.uid), DecimalString(q.uid));
    }
  }

  lemma SuffixDiffers(prefix: string, a: string, b: string)
    requires a != b
    ensures prefix + a != prefix + b
  {
    assert (prefix + a)[|prefix|..] == a;
    assert (prefix + b)[|prefix|..] == b;
  }

  /** The frame is the command followed by the platform's terminator, so
      on a POSIX system the string handed to `write` for a one-line command
      is exactly one line, and on Windows one line ending in `\r` followed
      by a NUL. */
  lemma FrameLines(command: string, p: Platform)
    requires '\n' !in command
    ensures IndexOf(Frame(command, p), '\n') == |command| + |Eol(p)| - (if p.Win32? then 2 else 1)
    ensures Frame(command, p)[..|command|] == command
    ensures p.Posix? ==> IndexOf(Frame(command, p), '\n') == |Frame(command, p)| - 1
  {
    IndexOfConcat(command, Eol(p), '\n');
    assert IndexOf(command, '\n') == |command|;
    if p.Win32? {
      assert IndexOf("\r\n\0", '\n') == 1;
    } else {
      assert IndexOf("\n", '\n') == 0;
    }
  }

  // ---------------------------------------------------------------------
  // The environment of one exchange

  /** One result of `from_pipe.readline()`: a line (the empty string once
      the stream has run dry), or an exception. */
  datatype ReadEvent = Line(text: string) | Failure(message: string)

  /** How opening and writing the outbound pipe goes. */
  datatype WriteStep = Written | OpenFailed(message: string) | WriteFailed(message: string)

  /** What the exchange finds: whether each pipe path exists, how the
      write goes, whether opening the inbound pipe raises, and the results
      of the `readline()` calls before the stream runs dry.  After the last
      of them every `readline()` returns the empty string. */
  datatype PipeEnv = PipeEnv(
    writeExists: bool,
    readExists: bool,
    write: WriteStep,
    readOpenFailure: Option<string>,
    inbound: seq<ReadEvent>)

  /** What the caller of `_send_command` sees: a returned string, or no
      return at all because the read loop never ends. */
  datatype Reply = Replied(text: string) | Diverges

  /** The read loop's outcome: it broke on a terminator with this
      response, an exception escaped `readline()`, or it spins forever. */
  datatype ReadResult = Terminated(response: string) | Raised(message: string) | Spins

  // ---------------------------------------------------------------------
  // Specification of the read loop

  /** The `while True` loop from a point where `response` has been read
      and `events` are still to come.  A line equal to `"\n"` ends the loop
      only when the response is non-empty; every other line is appended.
      Once `events` is exhausted, `readline()` returns `""` forever, which
      is never a terminator. */
  function ReadLoop(events: seq<ReadEvent>, response: string): (r: ReadResult)
    ensures r.Terminated? ==> |r.response| > 0
    ensures r.Terminated? ==> |response| <= |r.response|
    decreases |events|
  {
    if |events| == 0 then Spins
    else match events[0]
      case Failure(m) => Raised(m)
      case Line(l) =>
        if l == "\n" && |response| > 0 then Terminated(response)
        else
          ReadLoop(events[1..], response + l)
  }

  predicate AllLines(events: seq<ReadEvent>) {
    forall k :: 0 <= k < |events| ==> events[k].Line?
  }

  /** The text of a run of lines, concatenated. */
  function Concat(events: seq<ReadEvent>): string
    requires AllLines(events)
  {
    if |events| == 0 then "" else events[0].text + Concat(events[1..])
  }

  /** The `j`-th event is a terminator: lines only before it, it is
      `"\n"`, and something has been accumulated by then. */
  predicate TerminatesAt(events: seq<ReadEvent>, j: nat, response: string) {
    j < |events| && AllLines(events[..j]) && events[j] == Line("\n")
    && |response + Concat(events[..j])| > 0
  }

  /** The first terminator of `events`. */
  predicate FirstTerminator(events: seq<ReadEvent>, j: nat, response: string) {
    TerminatesAt(events, j, response) && forall i :: 0 <= i < j ==> !TerminatesAt(events, i, response)
  }

  /** The reply the exchange yields, given its environment: the command
      plays no part in it.  The call fails to return only when the read
      loop outlives the stream, and every failure comes back as a string
      starting with `Error`. */
  function ExchangeReply(env: PipeEnv): (r: Reply)
    ensures r == Diverges <==> Ready(env) && ReadLoop(env.inbound, "") == Spins
    ensures r.Replied? && !(Ready(env) && ReadLoop(env.inbound, "").Terminated?) ==>
      StartsWith(r.text, "Error")
  {
    ErrorPrefixes(if env.write.OpenFailed? || env.write.WriteFailed? then env.write.message
      else if env.readOpenFailure.Some? then env.readOpenFailure.value
      else if ReadLoop(env.inbound, "").Raised? then ReadLoop(env.inbound, "").message
      else "");
    if !env.writeExists || !env.readExists then Replied(NotFoundMessage)
    else if env.write.OpenFailed? || env.write.WriteFailed? then
      Replied(CommunicationPrefix + env.write.message)
    else if env.readOpenFailure.Some? then Replied(CommunicationPrefix + env.readOpenFailure.value)
    else match ReadLoop(env.inbound, "")
      case Terminated(r) => Replied(Strip(r))
      case Raised(m) => Replied(CommunicationPrefix + m)
      case Spins => Diverges
  }

  /** Both fixed error strings of the transport start with `Error`. */
  lemma ErrorPrefixes(m: string)
    ensures StartsWith(NotFoundMessage, "Error")
    ensures StartsWith(CommunicationPrefix + m, "Error")
  {
    assert (CommunicationPrefix + m)[..5] == CommunicationPrefix[..5];
    var head := "Error: Audacity pipes not found. ";
    assert NotFoundMessage[..5] == head[..5];
  }

  /** The strings handed to `write` on the outbound pipe: the frame, once,
      when both pipes exist and opening and writing succeed. */
  function Delivered(command: string, p: Platform, env: PipeEnv): seq<string> {
    if env.writeExists && env.readExists && env.write.Written? then [Frame(command, p)] else []
  }

  /** The pipes the exchange opens, in order. */
  function Opened(p: Platform, env: PipeEnv): seq<string> {
    if !env.writeExists || !env.readExists || env.write.OpenFailed? then []
    else if env.write.WriteFailed? || env.readOpenFailure.Some? then [WriteName(p)]
    else [WriteName(p), ReadName(p)]
  }

  // ---------------------------------------------------------------------
  // The exchange

  /** `_send_command(command)`: checks that both pipes exist, writes the
      frame, then reads lines until the terminator and returns the
      stripped response; any exception becomes an error string. */
  method SendCommand(command: string, p: Platform, env: PipeEnv)
    returns (reply: Reply, delivered: seq<string>, openedPipes: seq<string>)
    ensures reply == ExchangeReply(env)
    ensures delivered == Delivered(command, p, env)
    ensures openedPipes == Opened(p, env)
  {
    delivered, openedPipes := [], [];
    if !env.writeExists || !env.readExists {
      return Replied(NotFoundMessage), delivered, openedPipes;
    }
    if env.write.OpenFailed? {
      return Replied(CommunicationPrefix + env.write.message), delivered, openedPipes;
    }
    openedPipes := [WriteName(p)];
    if env.write.WriteFailed? {
      return Replied(CommunicationPrefix + env.write.message), delivered, openedPipes;
    }
    delivered := [Frame(command, p)];
    if env.readOpenFailure.Some? {
      return Replied(CommunicationPrefix + env.readOpenFailure.value), delivered, openedPipes;
    }
    openedPipes := openedPipes + [ReadName(p)];
    var response := "";
    var i := 0;
    while i < |env.inbound|
      invariant 0 <= i <= |env.inbound|
      invariant ReadLoop(env.inbound[i..], response) == ReadLoop(env.inbound, "")
    {
      if env.inbound[i].Failure? {
        return Replied(CommunicationPrefix + env.inbound[i].message), delivered, openedPipes;
      }
      var line := env.inbound[i].text;
      if line == "\n" && |response| > 0 {
        return Replied(Strip(response)), delivered, openedPipes;
      }
      assert env.inbound[i + 1..] == env.inbound[i..][1..];
      response := response + line;
      i := i + 1;
    }
    reply := Diverges;
  }

  /** `get_track_info()`. */
  method GetTrackInfo(p: Platform, env: PipeEnv) returns (reply: Reply, delivered: seq<string>)
    ensures reply == ExchangeReply(env)
    ensures delivered == Delivered("GetInfo: Type=Tracks", p, env)
  {
    var openedPipes;
    reply, delivered, openedPipes := SendCommand("GetInfo: Type=Tracks", p, env);
  }

  /** `list_available_commands()`. */
  method ListAvailableCommands(p: Platform, env: PipeEnv) returns (reply: Reply, delivered: seq<string>)
    ensures reply == ExchangeReply(env)
    ensures delivered == Delivered("Help: Command=Help", p, env)
  {
    var openedPipes;
    reply, delivered, openedPipes := SendCommand("Help: Command=Help", p, env);
  }

  // ---------------------------------------------------------------------
  // Properties of the read loop

  /** A terminator one event later is a terminator of the remaining events
      once the first line has been appended. */
  lemma ShiftTerminator(events: seq<ReadEvent>, j: nat, response: string)
    requires |events| > 0 && events[0].Line?
    ensures TerminatesAt(events, j + 1, response) <==> TerminatesAt(events[1..], j, response + events[0].text)
  {
    if j + 1 < |events| {
      var head, rest := events[..j + 1], events[1..][..j];
      assert head[1..] == rest;
      assert AllLines(head) <==> AllLines(rest) by {
        if AllLines(rest) {
          forall k | 0 <= k < |head| ensures head[k].Line? {
            if k > 0 { assert head[k] == rest[k - 1]; }
          }
        }
      }
      if AllLines(head) {
        ConcatShift(events, j);
        assert response + Concat(head) == response + events[0].text + Concat(rest);
      }
    }
  }

  /** The text read up to event `j + 1` is the first line followed by the
      text of the remaining events up to `j`. */
  lemma ConcatShift(events: seq<ReadEvent>, j: nat)
    requires j + 1 <= |events| && AllLines(events[..j + 1])
    ensures AllLines(events[1..][..j])
    ensures Concat(events[..j + 1]) == events[0].text + Concat(events[1..][..j])
  {
    assert events[..j + 1][1..] == events[1..][..j];
  }

  /** The loop ends at the first terminator, with everything read before
      it (the terminator itself is not appended). */
  lemma {:induction false} TerminatesAtFirst(events: seq<ReadEvent>, j: nat, response: string)
    requires FirstTerminator(events, j, response)
    ensures ReadLoop(events, response) == Terminated(response + Concat(events[..j]))
    decreases j
  {
    if j == 0 {
      assert events[..0] == [];
    } else {
      assert events[..j][0] == events[0];
      var l := events[0].text;
      assert !TerminatesAt(events, 0, response);
      assert events[..0] == [];
      forall i | 0 <= i <= j - 1 ensures TerminatesAt(events, i + 1, response) <==> TerminatesAt(events[1..], i, response + l) {
        ShiftTerminator(events, i, response);
      }
      TerminatesAtFirst(events[1..], j - 1, response + l);
      ConcatShift(events, j - 1);
      assert response + l + Concat(events[1..][..j - 1]) == response + (l + Concat(events[1..][..j - 1]));
    }
  }

  /** Conversely, a loop that ends did so at its first terminator. */
  lemma {:induction false} TerminatedAtFirst(events: seq<ReadEvent>, response: string) returns (j: nat)
    requires ReadLoop(events, response).Terminated?
    ensures FirstTerminator(events, j, response)
    ensures ReadLoop(events, response).response == response + Concat(events[..j])
    decreases |events|
  {
    var l := events[0].text;
    if l == "\n" && |response| > 0 {
      j := 0;
      assert events[..0] == [];
    } else {
      var j' := TerminatedAtFirst(events[1..], response + l);
      j := j' + 1;
      assert events[..0] == [];
      assert !TerminatesAt(events, 0, response);
      forall i | 0 <= i <= j' ensures TerminatesAt(events, i + 1, response) <==> TerminatesAt(events[1..], i, response + l) {
        ShiftTerminator(events, i, response);
      }
      assert FirstTerminator(events, j, response) by {
        forall i | 0 <= i < j ensures !TerminatesAt(events, i, response) {
          if i > 0 { assert !TerminatesAt(events[1..], i - 1, response + l); }
        }
      }
      ConcatShift(events, j');
      assert response + l + Concat(events[1..][..j']) == response + (l + Concat(events[1..][..j']));
    }
  }

  /** The loop never ends exactly when no exception is raised and no
      terminator arrives before the stream runs dry. */
  lemma {:induction false} SpinsExactly(events: seq<ReadEvent>, response: string)
    ensures ReadLoop(events, response) == Spins <==>
      AllLines(events) && forall j :: 0 <= j < |events| ==> !TerminatesAt(events, j, response)
    decreases |events|
  {
    if |events| > 0 && events[0].Line? {
      var l := events[0].text;
      assert events[..0] == [];
      SpinsExactly(events[1..], response + l);
      forall i | 0 <= i < |events| - 1 ensures TerminatesAt(events, i + 1, response) <==> TerminatesAt(events[1..], i, response + l) {
        ShiftTerminator(events, i, response);
      }
      assert AllLines(events) <==> AllLines(events[1..]) by {
        if AllLines(events[1..]) {
          forall k | 0 <= k < |events| ensures events[k].Line? {
            if k > 0 { assert events[k] == events[1..][k - 1]; }
          }
        }
      }
      if l == "\n" && |response| > 0 {
        assert TerminatesAt(events, 0, response);
      } else if AllLines(events[1..]) {
        assert !TerminatesAt(events, 0, response);
        forall j | 0 <= j < |events| ensures !TerminatesAt(events, j, response) <==> (j == 0 || !TerminatesAt(events[1..], j - 1, response + l)) {
        }
      }
    } else if |events| > 0 {
      assert !events[0].Line?;
    }
  }

  /** The loop ends with response `r` exactly when `r` is what was read
      before the first terminator. */
  lemma TerminatedExactly(events: seq<ReadEvent>, response: string, r: string)
    ensures ReadLoop(events, response) == Terminated(r) <==>
      exists j: nat :: FirstTerminator(events, j, response) && r == response + Concat(events[..j])
  {
    if ReadLoop(events, response) == Terminated(r) {
      var j := TerminatedAtFirst(events, response);
    }
    if exists j: nat :: FirstTerminator(events, j, response) && r == response + Concat(events[..j]) {
      var j: nat :| FirstTerminator(events, j, response) && r == response + Concat(events[..j]);
      TerminatesAtFirst(events, j, response);
    }
  }

  /** The text a loop ends with extends the text it started from. */
  lemma ReadLoopExtends(events: seq<ReadEvent>, response: string)
    ensures ReadLoop(events, response).Terminated? ==> response <= ReadLoop(events, response).response
  {
    if ReadLoop(events, response).Terminated? {
      var j := TerminatedAtFirst(events, response);
      assert (response + Concat(events[..j]))[..|response|] == response;
    }
  }

  /** An exception from `readline()` before any terminator escapes the loop. */
  lemma {:induction false} RaisesAtFirst(events: seq<ReadEvent>, j: nat, response: string, m: string)
    requires j < |events| && events[j] == Failure(m) && AllLines(events[..j])
    requires forall i :: 0 <= i < j ==> !TerminatesAt(events, i, response)
    ensures ReadLoop(events, response) == Raised(m)
    decreases j
  {
    if j > 0 {
      assert events[..j][0] == events[0];
      var l := events[0].text;
      assert events[..0] == [];
      assert !TerminatesAt(events, 0, response);
      forall i | 0 <= i < j - 1 ensures !TerminatesAt(events[1..], i, response + l) {
        ShiftTerminator(events, i, response);
      }
      assert events[1..][..j - 1] == events[..j][1..];
      RaisesAtFirst(events[1..], j - 1, response + l, m);
    }
  }

  // ---------------------------------------------------------------------
  // Properties of the exchange

  /** Both pipes exist, the write succeeds and the inbound pipe opens. */
  predicate Ready(env: PipeEnv) {
    env.writeExists && env.readExists && env.write.Written? && env.readOpenFailure.None?
  }

  /** When both pipes exist, the write succeeds and the inbound pipe
      opens, the reply is the text of the lines read before the first
      terminator, stripped. */
  lemma ExchangeSucceeds(env: PipeEnv, j: nat)
    requires Ready(env) && FirstTerminator(env.inbound, j, "")
    ensures ExchangeReply(env) == Replied(Strip(Concat(env.inbound[..j])))
  {
    TerminatesAtFirst(env.inbound, j, "");
    assert "" + Concat(env.inbound[..j]) == Concat(env.inbound[..j]);
  }

  /** When either pipe is missing the exchange opens nothing, writes
      nothing and replies with the not-found message. */
  lemma NotFound(command: string, p: Platform, env: PipeEnv)
    requires !env.writeExists || !env.readExists
    ensures ExchangeReply(env) == Replied(NotFoundMessage)
    ensures Opened(p, env) == [] && Delivered(command, p, env) == []
  {
  }

  /** The bridge's listing example: two track lines and a blank line give
      the two lines without their final newline. */
  lemma TrackListing(env: PipeEnv)
    requires Ready(env) && env.inbound == [Line("Track1\n"), Line("Track2\n"), Line("\n")]
    ensures ExchangeReply(env) == Replied("Track1\nTrack2")
  {
    var ev := env.inbound;
    assert "" + "Track1\n" == "Track1\n";
    assert ReadLoop(ev, "") == ReadLoop(ev[1..], "Track1\n");
    assert ReadLoop(ev[1..], "Track1\n") == ReadLoop(ev[2..], "Track1\n" + "Track2\n");
    assert ReadLoop(ev[2..], "Track1\n" + "Track2\n") == Terminated("Track1\n" + "Track2\n");
    TrackText();
  }

  lemma TrackText()
    ensures Strip("Track1\n" + "Track2\n") == "Track1\nTrack2"
  {
    assert "Track1\n" + "Track2\n" == "" + "Track1\nTrack2" + "\n";
    StripPadded("", "Track1\nTrack2", "\n");
  }

  /** A blank line before any content is kept and later stripped, not
      taken as the terminator. */
  lemma LeadingBlankLine(env: PipeEnv)
    requires Ready(env) && env.inbound == [Line("\n"), Line("OK\n"), Line("\n")]
    ensures ExchangeReply(env) == Replied("OK")
  {
    var ev := env.inbound;
    assert "" + "\n" == "\n";
    assert ReadLoop(ev, "") == ReadLoop(ev[1..], "\n");
    assert ReadLoop(ev[1..], "\n") == ReadLoop(ev[2..], "\n" + "OK\n");
    assert ReadLoop(ev[2..], "\n" + "OK\n") == Terminated("\n" + "OK\n");
    assert "\n" + "OK\n" == "\n" + "OK" + "\n";
    StripPadded("\n", "OK", "\n");
  }

  /** Without a blank line after some content, and without an exception,
      the loop outlives the stream: `readline()` returns `""` for ever and
      `_send_command` never returns. */
  lemma NoBlankLineDiverges(env: PipeEnv)
    requires Ready(env) && AllLines(env.inbound)
    requires forall j :: 0 <= j < |env.inbound| ==> env.inbound[j] != Line("\n")
    ensures ExchangeReply(env) == Diverges
  {
    SpinsExactly(env.inbound, "");
  }

  /** An exception while reading, before any terminator, is reported as
      an error string carrying its message. */
  lemma ReadFailureReported(env: PipeEnv, j: nat, m: string)
    requires Ready(env) && j < |env.inbound| && env.inbound[j] == Failure(m)
    requires AllLines(env.inbound[..j])
    requires forall i :: 0 <= i < j ==> !TerminatesAt(env.inbound, i, "")
    ensures ExchangeReply(env) == Replied(CommunicationPrefix + m)
  {
    RaisesAtFirst(env.inbound, j, "", m);
  }

  /** A failure opening the outbound pipe or writing to it is reported as
      an error string carrying its message; nothing reaches the pipe, and
      only a pipe whose open succeeded counts as opened. */
  lemma WriteFailureReported(command: string, p: Platform, env: PipeEnv)
    requires env.writeExists && env.readExists && !env.write.Written?
    ensures ExchangeReply(env) == Replied(CommunicationPrefix + env.write.message)
    ensures Delivered(command, p, env) == []
    ensures Opened(p, env) == (if env.write.OpenFailed? then [] else [WriteName(p)])
  {
  }

  /** A failure opening the inbound pipe, after the frame was written, is
      reported as an error string carrying its message. */
  lemma ReadOpenFailureReported(command: string, p: Platform, env: PipeEnv)
    requires env.writeExists && env.readExists && env.write.Written? && env.readOpenFailure.Some?
    ensures ExchangeReply(env) == Replied(CommunicationPrefix + env.readOpenFailure.value)
    ensures Delivered(command, p, env) == [Frame(command, p)]
    ensures Opened(p, env) == [WriteName(p)]
  {
  }

  /** `_send_command` does not consult the safety gate: the export command
      the gate refuses is handed to `write` all the same. */
  lemma ForwardsUnvalidated(p: Platform, env: PipeEnv)
    requires Ready(env)
    ensures !SecurityUtils.ValidateCommand("Export: Filename=\"/tmp/test.wav\"")
    ensures Delivered("Export: Filename=\"/tmp/test.wav\"", p, env)
      == ["Export: Filename=\"/tmp/test.wav\"" + Eol(p)]
  {
    SecurityUtils.RejectedExamples();
  }

  /** The two fixed commands the wrappers send pass the safety gate, in
      its corrected single-line form and so also as written. */
  lemma FixedCommandsPassGate()
    ensures SecurityUtils.ValidateSingleLine("GetInfo: Type=Tracks")
    ensures SecurityUtils.ValidateSingleLine("Help: Command=Help")
  {
    SecurityUtils.TrackQueryAccepted();
    SecurityUtils.HelpCommandAccepted();
    SecurityUtils.NoLineBreak();
  }

  // ---------------------------------------------------------------------
  // Line breaks inside an accepted command

  /** As written, a command the gate accepts can be handed to `write` as
      two command lines on a POSIX system: the allow-listed one, then one
      the gate refuses on its own. */
  lemma SmuggledFrame(uid: nat)
    ensures SecurityUtils.ValidateCommand("Help: Command=Help" + "\n" + "Export: Filename=/tmp/x.wav")
    ensures !SecurityUtils.ValidateCommand("Export: Filename=/tmp/x.wav")
    ensures Frame("Help: Command=Help" + "\n" + "Export: Filename=/tmp/x.wav", Posix(uid))
      == "Help: Command=Help" + "\n" + "Export: Filename=/tmp/x.wav" + "\n"
    ensures IndexOf(Frame("Help: Command=Help" + "\n" + "Export: Filename=/tmp/x.wav", Posix(uid)), '\n')
      == |"Help: Command=Help"|
  {
    SecurityUtils.NewlineSmuggled();
    SecurityUtils.NoLineBreak();
    TwoLineFrame("Help: Command=Help", "Export: Filename=/tmp/x.wav", uid);
  }

  /** A command made of two lines keeps its first line break in the frame. */
  lemma TwoLineFrame(a: string, b: string, uid: nat)
    requires '\n' !in a
    ensures Frame(a + "\n" + b, Posix(uid)) == a + "\n" + b + "\n"
    ensures IndexOf(Frame(a + "\n" + b, Posix(uid)), '\n') == |a|
  {
    var f := Frame(a + "\n" + b, Posix(uid));
    assert f == a + ("\n" + b + "\n");
    IndexOfConcat(a, "\n" + b + "\n", '\n');
    assert IndexOf(a, '\n') == |a|;
    assert IndexOf("\n" + b + "\n", '\n') == 0;
  }

  /** With the corrected gate, an accepted command is the only line of
      the string handed to `write` on a POSIX system, and its first line on
      Windows. */
  lemma SingleLineFrame(command: string, p: Platform)
    requires SecurityUtils.ValidateSingleLine(command)
    ensures Frame(command, p)[..|command|] == command
    ensures p.Posix? ==> IndexOf(Frame(command, p), '\n') == |Frame(command, p)| - 1
    ensures p.Win32? ==> IndexOf(Frame(command, p), '\n') == |command| + 1
  {
    FrameLines(command, p);
  }
}
