# Audacity scripting bridge — a verified model

The bridge lets a tool-calling client drive the Audacity audio editor
through its `mod-script-pipe` named pipes. This project models the core of
that bridge in Dafny and proves properties of the model. The core has four
parts.

- **The command safety gate** (`validate_command`). An allow-list of verbs,
  a stripped first field, and the anchored pattern
  `^[A-Za-z0-9]+(:[ \t]*[A-Za-z0-9]+=[^;"']+)*$` under Python's `re`
  semantics. Python's `$` also matches before one final newline.
- **Path confinement** (`sanitize_path`). This is `os.path.abspath`,
  `os.path.join`, `normpath` and `commonpath`, modelled lexically on POSIX
  paths, including the two-slash root that `normpath` keeps.
- **The pipe exchange** (`_send_command` and the two fixed-command tools).
  - The platform's pipe names and line terminator.
  - The existence check, then a single frame write.
  - The `readline` loop, which ends at the first blank line after some
    content.
  - `strip()` of the response, and exceptions turned into error strings.
- **The metrics store**.
  - `Metrics` is a class: `add_call` updates its three fields in place.
  - The 95th percentile and the summary.
  - The success rule of the `track_performance` wrapper.
  - The `redact_path` regular-expression substitution.

Modules:

- `Strings`: Python whitespace, `strip`, `startswith`, first index of a
  character.
- `PosixPath`: the `posixpath` functions that `sanitize_path` calls.
- `SecurityUtils`, `AudacityPipe`, `Metrics`: the three source files.
- `Bridge`: how the transport's replies would be counted if a tool were
  wrapped by `track_performance`.

The file system, the process's uid, the working directory, the clock and
the pipes' behaviour are parameters.

- A `Platform` value carries `sys.platform` and `os.getuid()`.
- A `PipeEnv` value carries:
  - whether each pipe path exists;
  - how opening and writing go;
  - the sequence of `readline()` results before the stream runs dry.

After that sequence, every `readline()` returns `""`. The read loop never
ends on `""`, so such an exchange is modelled as `Diverges`.

Four things the code does not do:

- `_send_command` forwards any command without calling `validate_command`.
  `AudacityPipe.ForwardsUnvalidated` states this.
- There is no read timeout.
- The loop does not stop at end of stream.
- No tool is wrapped by `track_performance`, and nothing outside
  metrics.py uses the metrics store, so no reply of `_send_command` is
  ever counted. The `Bridge` lemmas state what the counting would be if
  the wrapper were applied, as the instrumentation is evidently meant to
  be.

## Model

| member | source | states |
|---|---|---|
| SecurityUtils.ValidateCommand | mcp_server/security_utils.py:16-30 | an accepted command is non-empty and all value characters; with a colon its first field is an allow-listed verb of letters and digits; without one it is a bare verb, possibly followed by one newline |
| SecurityUtils.FirstField | mcp_server/security_utils.py:25 | `command.split(":")[0]`: the prefix of the command up to its first colon, which holds no colon, and the whole command when there is none |
| Strings.Strip | mcp_server/security_utils.py:25 | `str.strip()`: a slice of the input with only whitespace cut from either end, and no whitespace left at either end |
| SecurityUtils.ValidateCommandMeaning | mcp_server/security_utils.py:22-30 | accepted exactly when the anchored pattern matches (Python `$`) and, if there is a colon, the stripped text before the first colon is in the allow-list |
| SecurityUtils.RecogniseCommandCorrect | mcp_server/security_utils.py:14 | the linear scanner accepts exactly the strings of the pattern's language (a verb followed by well-formed `:key=value` groups) |
| SecurityUtils.MatchesCommandRegex | mcp_server/security_utils.py:14 | `COMMAND_REGEX.match` accepts exactly the strings of the pattern's language, or such a string followed by one newline (Python's `$`) |
| SecurityUtils.RecogniseSound | mcp_server/security_utils.py:14 | every scanned string has a witness verb and parameter list rendering to it |
| SecurityUtils.RecogniseComplete | mcp_server/security_utils.py:14 | every verb with well-formed parameter groups is scanned as accepted |
| SecurityUtils.BareVerbAccepted | mcp_server/security_utils.py:25-30 | any letters-and-digits verb is accepted, allow-listed or not, and so is that verb plus one newline |
| SecurityUtils.AllowListedParamsAccepted | mcp_server/security_utils.py:7-10 | an allow-listed verb with one or more well-formed parameter groups is accepted |
| SecurityUtils.UnlistedVerbRefused | mcp_server/security_utils.py:25-28 | a verb outside the allow-list followed by a colon is refused whatever follows |
| SecurityUtils.HelpCommandAccepted | mcp_server/tests/test_security.py:5-8 | `Help: Command=Help` is accepted |
| SecurityUtils.TrackQueryAccepted | mcp_server/tests/test_security.py:5-8 | `GetInfo: Type=Tracks` is accepted |
| SecurityUtils.RejectedExamples | mcp_server/tests/test_security.py:10-13 | the `;`-chained injection and the quoted export command are refused |
| SecurityUtils.NewlineSmuggled | mcp_server/security_utils.py:14 | as written, `Help: Command=Help` + newline + `Export: Filename=/tmp/x.wav` is accepted although its second line alone is refused |
| SecurityUtils.ValidateSingleLine | mcp_server/security_utils.py:16-30 | the corrected gate accepts only commands the original accepts |
| SecurityUtils.SingleLineMeaning | mcp_server/security_utils.py:14-30 | the corrected gate accepts exactly the pattern's language without line breaks, with an allow-listed verb whenever there are parameters |
| SecurityUtils.SmugglingRefused | mcp_server/security_utils.py:14 | the corrected gate refuses the two-line command |
| SecurityUtils.SanitizePath | mcp_server/security_utils.py:32-41 | a result is returned exactly when the absolute base has a single-slash root and its components are a prefix of the target's; the result is the normalised absolute target |
| SecurityUtils.TargetComponents | mcp_server/security_utils.py:36-37 | a relative path's target components are its segments resolved (`.`, `..`, empty) on top of the base's components |
| SecurityUtils.NoParentStaysInside | mcp_server/security_utils.py:32-41 | a relative path without `..` segments is always kept under a single-rooted base |
| SecurityUtils.DoubleSlashBaseRejects | mcp_server/security_utils.py:36-39 | a base that normalises to a `//` root refuses every path, since `commonpath` answers with one slash |
| SecurityUtils.NameInsideBase | mcp_server/security_utils.py:32-41 | plain names under a normal base give `base/names` |
| SecurityUtils.FileInWorkspace | mcp_server/tests/test_security.py:15-17 | `file.wav` under `/home/user/workspace` gives `/home/user/workspace/file.wav` |
| SecurityUtils.ParentTraversalRefused | mcp_server/tests/test_security.py:18 | `../etc/passwd` is refused |
| SecurityUtils.NestedTraversalRefused | mcp_server/tests/test_security.py:19 | `subdir/../../etc/passwd` is refused |
| SecurityUtils.SiblingPrefixRefused | mcp_server/security_utils.py:39 | containment is by whole segments: `../workspace2/x` is refused |
| PosixPath.Normpath | mcp_server/security_utils.py:36-37 | `os.path.normpath` of an absolute path is absolute; `NormpathShape` states its root and components |
| PosixPath.Abspath | mcp_server/security_utils.py:36-37 | `os.path.abspath` gives an absolute path; `TargetComponents` states its components |
| PosixPath.Join | mcp_server/security_utils.py:37 | `os.path.join` with two arguments; its properties are stated by `JoinNames` |
| PosixPath.CommonPath | mcp_server/security_utils.py:39 | `os.path.commonpath` of two absolute paths is absolute; `CommonPathIsBase` states when it equals the first |
| PosixPath.Components | mcp_server/security_utils.py:39 | the segments `commonpath` compares: none is empty, `.` or holds a slash |
| PosixPath.SplitJoin | mcp_server/security_utils.py:36-37 | splitting on `/` undoes joining slash-free segments |
| PosixPath.ResolveAppend | mcp_server/security_utils.py:36-37 | normalising a concatenation of segments resolves its halves in turn |
| PosixPath.NormpathShape | mcp_server/security_utils.py:36-37 | a normalised path's components are the resolved segments and its root is kept |
| PosixPath.CommonPathIsBase | mcp_server/security_utils.py:39 | `commonpath([a, t]) == a` for normalised `a` iff `a` has a one-slash root and its components prefix `t`'s |
| PosixPath.JoinNames | mcp_server/security_utils.py:37 | joining names onto a rendered path appends them as segments |
| AudacityPipe.WriteName | mcp_server/mcp_audacity.py:15-25 | on Windows the fixed `ToSrvPipe` name; on POSIX the pipe base, `to.`, and the caller's uid as canonical decimal digits (no leading zero) |
| AudacityPipe.ReadName | mcp_server/mcp_audacity.py:15-25 | on Windows the fixed `FromSrvPipe` name; on POSIX the pipe base, `from.`, and the caller's uid as canonical decimal digits (no leading zero) |
| AudacityPipe.CanonicalIsDecimal | mcp_server/mcp_audacity.py:23-24 | canonical digits are `str` of their value, so the POSIX suffix is exactly `str(os.getuid())` |
| AudacityPipe.Eol | mcp_server/mcp_audacity.py:15-25 | the terminator is a newline exactly on POSIX and carriage return, newline, NUL exactly on Windows |
| AudacityPipe.Frame | mcp_server/mcp_audacity.py:35 | the string handed to `write` is the command unchanged followed by the platform's terminator |
| AudacityPipe.ReadLoop | mcp_server/mcp_audacity.py:39-44 | a loop that ends has read something, and returns text at least as long as what had been read when it started |
| AudacityPipe.ReadLoopExtends | mcp_server/mcp_audacity.py:41-44 | the text a loop ends with has the text read when it started as a prefix |
| AudacityPipe.ExchangeReply | mcp_server/mcp_audacity.py:29-48 | the call fails to return exactly when both pipes work and the read loop outlives the stream; every reply other than a read response starts with `Error` |
| AudacityPipe.ExchangeSucceeds | mcp_server/mcp_audacity.py:38-45 | when both pipes work, the reply is the lines read before the first blank line after some text, concatenated and stripped |
| AudacityPipe.NotFound | mcp_server/mcp_audacity.py:29-30 | with either pipe missing, nothing is opened or written and the reply is the not-found message |
| AudacityPipe.WriteFailureReported | mcp_server/mcp_audacity.py:33-48 | a failure opening the outbound pipe or writing to it yields `Error communicating with Audacity: ` plus its message; nothing is written, and the outbound pipe counts as opened only when its open succeeded |
| AudacityPipe.ReadOpenFailureReported | mcp_server/mcp_audacity.py:38-48 | a failure opening the inbound pipe yields the same prefix plus its message, after the frame was written and with only the outbound pipe opened |
| AudacityPipe.DecimalString | mcp_server/mcp_audacity.py:23-24 | `str(uid)`: one digit or more, without a leading zero |
| AudacityPipe.DecimalRoundTrip | mcp_server/mcp_audacity.py:23-24 | `str(uid)` reads back as `uid` |
| AudacityPipe.PipeNamesDistinct | mcp_server/mcp_audacity.py:16-25 | the write and read pipe names differ on every platform, and differ between POSIX users |
| AudacityPipe.FrameLines | mcp_server/mcp_audacity.py:35 | a command without newline is the first line of the string handed to `write`; on POSIX that string's only newline is its last character |
| AudacityPipe.SendCommand | mcp_server/mcp_audacity.py:27-48 | the reply, the text written and the pipes opened are those of the exchange's specification functions, including the not-found and exception paths |
| AudacityPipe.GetTrackInfo | mcp_server/mcp_audacity.py:64-66 | the exchange with the fixed `GetInfo: Type=Tracks` frame |
| AudacityPipe.ListAvailableCommands | mcp_server/mcp_audacity.py:69-71 | the exchange with the fixed `Help: Command=Help` frame |
| AudacityPipe.TerminatedExactly | mcp_server/mcp_audacity.py:40-45 | the loop ends with response r iff there is a first blank line after non-empty content and r is the concatenation before it |
| AudacityPipe.TerminatedAtFirst | mcp_server/mcp_audacity.py:40-45 | a terminated loop stopped at its first terminator, having accumulated the lines before it |
| AudacityPipe.SpinsExactly | mcp_server/mcp_audacity.py:40-44 | the loop outlives the stream iff there is no exception and no terminator among the lines |
| AudacityPipe.RaisesAtFirst | mcp_server/mcp_audacity.py:40-48 | an exception before any terminator ends the loop with that exception |
| AudacityPipe.TrackListing | mcp_server/tests/test_mcp.py:6-19 | the lines `Track1`, `Track2` and a blank line give `Track1\nTrack2` |
| AudacityPipe.LeadingBlankLine | mcp_server/mcp_audacity.py:42 | a blank line before any content is kept and later stripped, not a terminator |
| AudacityPipe.NoBlankLineDiverges | mcp_server/mcp_audacity.py:40-44 | without a blank line and without exception the call never returns |
| AudacityPipe.ReadFailureReported | mcp_server/mcp_audacity.py:46-48 | an exception while reading yields the communication error string with its message |
| AudacityPipe.ForwardsUnvalidated | mcp_server/mcp_audacity.py:27-36 | a command the gate refuses is written to the pipe all the same |
| AudacityPipe.FixedCommandsPassGate | mcp_server/mcp_audacity.py:63-71 | both fixed commands pass the corrected (and hence the original) gate |
| AudacityPipe.SmuggledFrame | mcp_server/mcp_audacity.py:35 | as written, an accepted command is handed to `write` on POSIX as two lines, the second refused on its own |
| AudacityPipe.SingleLineFrame | mcp_server/mcp_audacity.py:35 | a command the corrected gate accepts is the only line of the POSIX string handed to `write`, and its first line on Windows |
| Metrics.MatchAt | mcp_server/metrics.py:13 | a match starts exactly where a slash meets a segment character or a drive prefix `X:\` meets a drive-path character; the first alternative wins and runs over whole slash-and-segment groups up to a character that extends none; otherwise the drive match runs up to the first non-drive-path character |
| Metrics.PosixMatch | mcp_server/metrics.py:13 | the greedy first alternative covers exactly slash-and-segment groups and stops where neither a segment character nor another group follows |
| Metrics.PosixExtentUnique | mcp_server/metrics.py:13 | two whole matches of the first alternative at the same place have the same length, so the extent in `MatchAt`'s contract fixes the match |
| Metrics.DriveExtentUnique | mcp_server/metrics.py:13 | the same for the drive alternative |
| Metrics.Redact | mcp_server/metrics.py:10-14 | no match is left anywhere in the result, and text in which none starts is returned unchanged; `LeftmostReplaced` and `NoMatchKept` fix the result itself |
| Metrics.Substitute | mcp_server/metrics.py:14 | the left-to-right scan of `re.sub`; its properties are stated by `SubstituteKeeps`, `CleanUnchanged` and `RedactedIsClean` |
| Metrics.SubstituteKeeps | mcp_server/metrics.py:14 | the substitution keeps, character for character, the text before the first position where a match starts |
| Metrics.LeftmostReplaced | mcp_server/metrics.py:14 | the leftmost match becomes exactly one `[REDACTED_PATH]`: the text before it is kept and the rest is redacted from just after the match |
| Metrics.NoMatchKept | mcp_server/metrics.py:10-14 | text in which no match starts is returned unchanged, so with `LeftmostReplaced` every redaction is determined |
| Metrics.NoPathUnchanged | mcp_server/metrics.py:10-14 | text without `/` and without `X:\` is returned unchanged |
| Metrics.CleanUnchanged | mcp_server/metrics.py:14 | the left-to-right substitution returns text in which no match starts unchanged |
| Metrics.RedactedIsClean | mcp_server/metrics.py:14 | no match starts anywhere in the output of the left-to-right substitution |
| Metrics.RedactIdempotent | mcp_server/metrics.py:10-14 | redacting twice is redacting once |
| Metrics.WholePathRedacted | mcp_server/metrics.py:14 | a text that is one whole path becomes `[REDACTED_PATH]` |
| Metrics.Metrics.constructor | mcp_server/metrics.py:18-21 | a new store is empty and satisfies the invariant |
| Metrics.Metrics.AddCall | mcp_server/metrics.py:23-27 | appends the duration, adds one call, adds one error exactly when unsuccessful, and keeps the invariant |
| Metrics.Metrics.CountersAgree | mcp_server/metrics.py:18-27 | under the invariant there is one latency per call and no more errors than calls, with equality iff every call failed |
| Metrics.FailuresBound | mcp_server/metrics.py:26-27 | failures never outnumber calls |
| Metrics.Metrics.GetP95 | mcp_server/metrics.py:29-34 | 0 without calls; otherwise an element of the latencies with at most `P95Index` latencies below it and more than that many at most it |
| Metrics.P95Index | mcp_server/metrics.py:33-34 | the clamped index is in bounds and equals `n * 95 / 100`: the clamp never changes it |
| Metrics.SortAsc | mcp_server/metrics.py:32 | `sorted` on the latencies; `SortAscSpec` states that it is ascending and a permutation |
| Metrics.SortAscSpec | mcp_server/metrics.py:32 | the sorted list is ascending, a permutation of the latencies, and keeps every rank count |
| Metrics.SortedRank | mcp_server/metrics.py:32-34 | in an ascending list the element at k has at most k elements below and more than k at most it |
| Metrics.RankUnique | mcp_server/metrics.py:32-34 | that rank condition determines the value, so the percentile does not depend on the sorting algorithm |
| Metrics.Metrics.GetSummary | mcp_server/metrics.py:36-42 | the counters as they are; the error rate is 0 without calls, else errors divided by calls; the p95 scaled by 1000 |
| Metrics.Metrics.RateBounded | mcp_server/metrics.py:40 | under the invariant the error rate is in [0, 1], and 1 exactly when every call failed |
| Metrics.Succeeded | mcp_server/metrics.py:50-58 | a call fails when it raises an `Exception` or returns a string whose first five characters are `Error`; any other return, or an interrupting `BaseException`, counts as a success |
| Metrics.TrackPerformance | mcp_server/metrics.py:46-64 | records the call once with the `Succeeded` flag, and hands the outcome back unchanged |
| Bridge.TransportFailuresCounted | mcp_server/metrics.py:53-54 | if a tool were wrapped: missing pipes, failed opens or writes and read exceptions come back as strings the wrapper would count as errors |
| Bridge.TrackListingSucceeds | mcp_server/metrics.py:50-55 | if a tool were wrapped: the track listing reply would count as a success |

## Findings

| source | as written | input that shows it | evidently intended | confidence | as-written member | corrected member |
|---|---|---|---|---|---|---|
| mcp_server/security_utils.py:14 | the value class `[^;"']` admits line breaks, so an accepted command may hold several lines | `Help: Command=Help` + `\n` + `Export: Filename=/tmp/x.wav` | an accepted command is one line whose verb is allow-listed when it has parameters, as the refusal of `;`-chaining suggests | medium, not executed | SecurityUtils.NewlineSmuggled | SecurityUtils.ValidateSingleLine |

The POSIX frame of that command carries a second command line that the gate
refuses on its own (`AudacityPipe.SmuggledFrame`). The corrected gate has
three proved properties:

- It still accepts the fixed commands.
- It refuses the two-line command.
- Every frame it admits is a single line (`AudacityPipe.SingleLineFrame`).

The bridge's pipe functions do not call the gate themselves, so the
impact depends on the caller.

## Left out

- Metrics.Metrics.GetP95: durations are integers, not floats.
  - The index is `(n * 95) / 100` in exact arithmetic. This is the same as
    `int(n * 0.95)` for any list length a process can hold.
  - For a positive count that index is already below `n`, so the
    `min(idx, n - 1)` clamp never changes it (`P95Index`).
  - The sort is insertion sort. `RankUnique` shows the result does not
    depend on the algorithm.
- Metrics.Metrics.GetSummary: the error rate is an exact `real` quotient,
  not a float.
  - The `*1000` scaling is done on integers.
  - With no calls the rate is `0.0`, where Python returns the integer `0`.
- Metrics.TrackPerformance: the wrapped call's outcome and its duration
  are parameters.
  - `Raised` stands for an `Exception`. A `BaseException` that is not one
    (`KeyboardInterrupt`, `SystemExit`) is the separate `Interrupted`
    outcome, which the source records as a success.
  - `time.perf_counter`, `functools.wraps`, the debug log line and the
    redacted function name are not modelled.
  - A call that never returns records nothing, as in the source.
- The global `metrics` singleton, the loggers and the FastMCP tool
  registration are not modelled.
  - `audacity_command` only forwards its argument to `_send_command`; it is
    covered by `SendCommand`.
- AudacityPipe.SendCommand:
  - `os.path.exists`, the pipes' open, write, flush and `readline` results
    are parameters (`PipeEnv`).
  - A finite sequence of `readline()` results stands for the stream.
  - An exchange that would loop forever is reported as `Diverges` instead
    of being run.
  - Exception messages are opaque strings.
  - A `Failure` or a failed open or write stands for an `Exception`. A
    `BaseException` that is not one escapes `except Exception` at
    mcp_audacity.py:46 instead of becoming an error string. That path is
    not modelled.
  - The model states the string handed to `write`. On Windows the pipe is
    opened in text mode, so each `\n` written becomes `\r\n`: the bytes
    that reach the pipe are the command with its newlines translated, then
    `\r\r\n` and a NUL. This translation is not modelled.
- SecurityUtils.ValidateCommand: the `isinstance(command, str)` test is
  not modelled. Dafny's types make every argument a string.
- SecurityUtils.SanitizePath: only POSIX path semantics are modelled.
  - Windows drive letters, symbolic links and the file system are out of
    scope.
  - `os.getcwd()` is a parameter.
  - `commonpath` raising `ValueError` (mixed absolute and relative paths)
    cannot happen, because both arguments are absolute.
- Metrics.Redact: characters are compared by code point. Python's `re` has
  no case folding here, so nothing is lost.
