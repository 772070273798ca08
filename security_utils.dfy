/** The command safety gate and the path confinement check of the
    scripting bridge: which command strings may be forwarded to the audio
    editor, and which caller-supplied paths stay inside a base directory. */
module SecurityUtils {
  import opened Strings
  import opened PosixPath
  import opened Wrappers

  /** Verbs that may carry parameters. */
  const SafeCommands: set<string> := {
    "Help", "GetInfo", "SelectAll", "SelectNone", "Play", "Stop", "Pause",
    "Record", "Undo", "Redo", "SetTrack", "GetTrackVisualState"
  }

  // ---------------------------------------------------------------------
  // The command grammar  ^[A-Za-z0-9]+(:[ \t]*[A-Za-z0-9]+=[^;"']+)*$

  predicate IsAlnum(c: char) {
    'A' <= c <= 'Z' || 'a' <= c <= 'z' || '0' <= c <= '9'
  }

  predicate IsBlank(c: char) {
    c == ' ' || c == '\t'
  }

  /** The value class `[^;"']`: everything except the three injection
      characters, so spaces, `:`, `=` and newlines are all values. */
  predicate IsValueChar(c: char) {
    c != ';' && c != '"' && c != '\''
  }

  predicate AlnumRun(s: string) {
    |s| > 0 && forall k :: 0 <= k < |s| ==> IsAlnum(s[k])
  }

  predicate BlankRun(s: string) {
    forall k :: 0 <= k < |s| ==> IsBlank(s[k])
  }

  predicate AllValue(s: string) {
    forall k :: 0 <= k < |s| ==> IsValueChar(s[k])
  }

  predicate ValueRun(s: string) {
    |s| > 0 && AllValue(s)
  }

  /** One repetition of the parameter group: `:`, blanks, a key, `=`, a value. */
  datatype Param = Param(blanks: string, key: string, value: string)

  predicate WellFormedParam(p: Param) {
    BlankRun(p.blanks) && AlnumRun(p.key) && ValueRun(p.value)
  }

  function RenderParam(p: Param): string {
    ":" + p.blanks + p.key + "=" + p.value
  }

  function RenderParams(ps: seq<Param>): string {
    if |ps| == 0 then "" else RenderParam(ps[0]) + RenderParams(ps[1..])
  }

  /** The strings the pattern between `^` and `$` describes: a verb and any
      number of well-formed parameter groups. */
  ghost predicate InCommandLanguage(s: string) {
    exists verb: string, ps: seq<Param> ::
      AlnumRun(verb) && (forall p <- ps :: WellFormedParam(p)) && s == verb + RenderParams(ps)
  }

  /** Python `re.match` of the anchored pattern: `$` matches at the end or
      just before one final newline. */
  ghost predicate CommandRegexMatches(s: string) {
    InCommandLanguage(s) || (|s| > 0 && s[|s| - 1] == '\n' && InCommandLanguage(s[..|s| - 1]))
  }

  /** Length of the run of letters and digits at the front of `s`. */
  function AlnumPrefix(s: string): (n: nat)
    ensures n <= |s|
    ensures forall k :: 0 <= k < n ==> IsAlnum(s[k])
    ensures n == |s| || !IsAlnum(s[n])
  {
    if |s| == 0 || !IsAlnum(s[0]) then 0 else 1 + AlnumPrefix(s[1..])
  }

  /** Length of the run of spaces and tabs at the front of `s`. */
  function BlankPrefix(s: string): (n: nat)
    ensures n <= |s|
    ensures forall k :: 0 <= k < n ==> IsBlank(s[k])
    ensures n == |s| || !IsBlank(s[n])
  {
    if |s| == 0 || !IsBlank(s[0]) then 0 else 1 + BlankPrefix(s[1..])
  }

  /** What may follow the first `:` of a well-formed command: blanks, a key,
      `=`, and a value that runs to the end. */
  predicate ParamTail(t: string) {
    var b := BlankPrefix(t);
    var k := b + AlnumPrefix(t[b..]);
    b < k < |t| - 1 && t[k] == '=' && ValueRun(t[k + 1..])
  }

  /** Scanner for the pattern between `^` and `$`.  Every character of a
      parameter group belongs to the value class, so after the first group
      the rest of the string only has to be a value. */
  predicate RecogniseCommand(s: string) {
    var v := AlnumPrefix(s);
    0 < v && (v == |s| || (s[v] == ':' && ParamTail(s[v + 1..])))
  }

  /** `COMMAND_REGEX.match(s)`: the scanner on the whole string, or on the
      string without one final newline.  It accepts exactly what the
      anchored pattern matches under Python's `$`. */
  predicate MatchesCommandRegex(s: string): (ok: bool)
    ensures ok <==> CommandRegexMatches(s)
  {
    RecogniseCommandCorrect(s);
    if |s| > 0 then
      RecogniseCommandCorrect(s[..|s| - 1]);
      RecogniseCommand(s) || (s[|s| - 1] == '\n' && RecogniseCommand(s[..|s| - 1]))
    else
      RecogniseCommand(s)
  }

  /** `command.split(":")[0]`: the text before the first colon. */
  function FirstField(command: string): (f: string)
    ensures f <= command && ':' !in f
    ensures |f| < |command| <==> ':' in command
    ensures |f| < |command| ==> command[|f|] == ':'
  {
    command[..IndexOf(command, ':')]
  }

  /** `validate_command`: rejects the empty command, rejects any command with
      a colon whose stripped verb is not allow-listed, and otherwise accepts
      exactly what the pattern matches. */
  function ValidateCommand(command: string): (ok: bool)
    ensures ok ==> |command| > 0
    ensures ok ==> AllValue(command)
    ensures ok && ':' in command ==> AlnumRun(FirstField(command)) && FirstField(command) in SafeCommands
    ensures ok && ':' !in command ==>
      AlnumRun(command) || (AlnumRun(command[..|command| - 1]) && command[|command| - 1] == '\n')
  {
    if |command| == 0 then false
    else if Strip(FirstField(command)) !in SafeCommands && ':' in command then false
    else
      ValidatedShape(command);
      MatchesCommandRegex(command)
  }

  // ---------------------------------------------------------------------
  // The scanner agrees with the pattern

  lemma {:induction false} AlnumPrefixOf(a: string, b: string)
    requires forall k :: 0 <= k < |a| ==> IsAlnum(a[k])
    requires |b| == 0 || !IsAlnum(b[0])
    ensures AlnumPrefix(a + b) == |a|
    decreases |a|
  {
    if |a| == 0 {
      assert a + b == b;
    } else {
      assert (a + b)[1..] == a[1..] + b;
      AlnumPrefixOf(a[1..], b);
    }
  }

  lemma {:induction false} BlankPrefixOf(a: string, b: string)
    requires BlankRun(a)
    requires |b| == 0 || !IsBlank(b[0])
    ensures BlankPrefix(a + b) == |a|
    decreases |a|
  {
    if |a| == 0 {
      assert a + b == b;
    } else {
      assert (a + b)[1..] == a[1..] + b;
      BlankPrefixOf(a[1..], b);
    }
  }

  lemma AllValueConcat(a: string, b: string)
    requires AllValue(a) && AllValue(b)
    ensures AllValue(a + b)
  {
    forall k | 0 <= k < |a + b| ensures IsValueChar((a + b)[k]) {
      if k >= |a| { assert (a + b)[k] == b[k - |a|]; }
    }
  }

  /** A rendered well-formed parameter consists of value characters only. */
  lemma RenderedParamIsValue(p: Param)
    requires WellFormedParam(p)
    ensures AllValue(RenderParam(p))
  {
    assert AllValue(p.blanks) by {
      forall k | 0 <= k < |p.blanks| ensures IsValueChar(p.blanks[k]) { assert IsBlank(p.blanks[k]); }
    }
    assert AllValue(p.key) by {
      forall k | 0 <= k < |p.key| ensures IsValueChar(p.key[k]) { assert IsAlnum(p.key[k]); }
    }
    AllValueConcat(":", p.blanks);
    AllValueConcat(":" + p.blanks, p.key);
    AllValueConcat(":" + p.blanks + p.key, "=");
    AllValueConcat(":" + p.blanks + p.key + "=", p.value);
  }

  /** Rendered well-formed parameters consist of value characters only. */
  lemma {:induction false} RenderedParamsAreValues(ps: seq<Param>)
    requires forall p <- ps :: WellFormedParam(p)
    ensures AllValue(RenderParams(ps))
    decreases |ps|
  {
    if |ps| > 0 {
      assert ps[0] in ps;
      assert forall q <- ps[1..] :: q in ps;
      RenderedParamsAreValues(ps[1..]);
      RenderedParamIsValue(ps[0]);
      AllValueConcat(RenderParam(ps[0]), RenderParams(ps[1..]));
    }
  }

  /** A well-formed group followed by further value characters is a
      parameter tail. */
  lemma ParamTailOf(p: Param, rest: string)
    requires WellFormedParam(p) && AllValue(rest)
    ensures ParamTail(p.blanks + (p.key + ("=" + (p.value + rest))))
  {
    var t := p.blanks + (p.key + ("=" + (p.value + rest)));
    BlankPrefixOf(p.blanks, p.key + ("=" + (p.value + rest)));
    var b := |p.blanks|;
    assert t[b..] == p.key + ("=" + (p.value + rest));
    AlnumPrefixOf(p.key, "=" + (p.value + rest));
    var k := b + |p.key|;
    assert t[k] == '=';
    assert t[k + 1..] == p.value + rest;
    AllValueConcat(p.value, rest);
  }

  /** Every string of the pattern's language is accepted by the scanner. */
  lemma RecogniseComplete(verb: string, ps: seq<Param>)
    requires AlnumRun(verb) && forall p <- ps :: WellFormedParam(p)
    ensures RecogniseCommand(verb + RenderParams(ps))
  {
    var s := verb + RenderParams(ps);
    AlnumPrefixOf(verb, RenderParams(ps));
    if |ps| > 0 {
      var p := ps[0];
      assert p in ps;
      var rest := RenderParams(ps[1..]);
      assert forall q <- ps[1..] :: q in ps;
      RenderedParamsAreValues(ps[1..]);
      ParamTailOf(p, rest);
      TailAfterVerb(verb, p, rest);
    } else {
      assert s == verb;
    }
  }

  lemma TailAfterVerb(verb: string, p: Param, rest: string)
    ensures (verb + (RenderParam(p) + rest))[|verb|] == ':'
    ensures (verb + (RenderParam(p) + rest))[|verb| + 1..] == p.blanks + (p.key + ("=" + (p.value + rest)))
  {
    assert RenderParam(p) + rest == [':'] + (p.blanks + (p.key + ("=" + (p.value + rest))));
  }

  /** Every string the scanner accepts is in the pattern's language: a verb
      and at most one parameter group, whose value absorbs the rest. */
  lemma RecogniseSound(s: string)
    requires RecogniseCommand(s)
    ensures InCommandLanguage(s)
  {
    var v := AlnumPrefix(s);
    var verb := s[..v];
    assert AlnumRun(verb);
    if v == |s| {
      assert s == verb + RenderParams([]);
      InLanguageWitness(s, verb, []);
    } else {
      var p := ParamOfTail(s[v + 1..]);
      assert RenderParams([p]) == RenderParam(p) + RenderParams([]);
      assert s == verb + RenderParams([p]);
      InLanguageWitness(s, verb, [p]);
    }
  }

  lemma InLanguageWitness(s: string, verb: string, ps: seq<Param>)
    requires AlnumRun(verb) && (forall p <- ps :: WellFormedParam(p)) && s == verb + RenderParams(ps)
    ensures InCommandLanguage(s)
  {
  }

  /** The scanner decides exactly the pattern's language. */
  lemma RecogniseCommandCorrect(s: string)
    ensures RecogniseCommand(s) <==> InCommandLanguage(s)
  {
    if RecogniseCommand(s) {
      RecogniseSound(s);
    }
    if InCommandLanguage(s) {
      var verb, ps :| AlnumRun(verb) && (forall p <- ps :: WellFormedParam(p)) && s == verb + RenderParams(ps);
      RecogniseComplete(verb, ps);
    }
  }

  /** What a string the scanner accepts looks like. */
  lemma RecognisedShape(s: string)
    requires RecogniseCommand(s)
    ensures AllValue(s)
    ensures IndexOf(s, ':') == AlnumPrefix(s)
    ensures AlnumRun(s[..AlnumPrefix(s)])
  {
    ShapeOfParts(s, AlnumPrefix(s));
  }

  /** The same, given where the verb ends. */
  lemma ShapeOfParts(s: string, v: nat)
    requires 0 < v <= |s| && forall k :: 0 <= k < v ==> IsAlnum(s[k])
    requires v < |s| ==> s[v] == ':' && ParamTail(s[v + 1..])
    ensures AllValue(s)
    ensures IndexOf(s, ':') == v
    ensures AlnumRun(s[..v])
  {
    var a := s[..v];
    AlnumIsValue(a);
    if v < |s| {
      RecognisedGroupIsValue(s, v);
      var b := s[v..];
      assert b[0] == ':';
      assert s == a + b;
      ColonAt(a, b);
    } else {
      assert a == s;
      IndexOfConcat(a, "", ':');
      assert a + "" == a;
    }
  }

  /** The first colon of `a + b` when `a` has none and `b` starts with one. */
  lemma ColonAt(a: string, b: string)
    requires ':' !in a && |b| > 0 && b[0] == ':'
    ensures IndexOf(a + b, ':') == |a|
  {
    IndexOfConcat(a, b, ':');
    assert IndexOf(b, ':') == 0;
  }

  /** Letters and digits are value characters, and none is a colon. */
  lemma AlnumIsValue(x: string)
    requires forall k :: 0 <= k < |x| ==> IsAlnum(x[k])
    ensures ':' !in x && AllValue(x)
  {
    assert ':' !in x by {
      forall k | 0 <= k < |x| ensures x[k] != ':' { assert IsAlnum(x[k]); }
    }
    assert AllValue(x) by {
      forall k | 0 <= k < |x| ensures IsValueChar(x[k]) { assert IsAlnum(x[k]); }
    }
  }

  /** A recognised command with a parameter group is all value characters. */
  lemma RecognisedGroupIsValue(s: string, v: nat)
    requires v < |s| && s[v] == ':' && ParamTail(s[v + 1..])
    requires AllValue(s[..v])
    ensures AllValue(s)
  {
    var p := ParamOfTail(s[v + 1..]);
    RenderedParamIsValue(p);
    AllValueConcat(s[..v], RenderParam(p));
    assert s == s[..v] + RenderParam(p);
  }

  /** The group a parameter tail holds: its blanks, its key, and a value
      running to the end. */
  lemma ParamOfTail(t: string) returns (p: Param)
    requires ParamTail(t)
    ensures WellFormedParam(p) && RenderParam(p) == ":" + t
  {
    var b := BlankPrefix(t);
    var k := b + AlnumPrefix(t[b..]);
    p := Param(t[..b], t[b..k], t[k + 1..]);
    assert AlnumRun(p.key) by {
      forall j | 0 <= j < |p.key| ensures IsAlnum(p.key[j]) { assert p.key[j] == t[b..][j]; }
    }
    RenderSplit(t, b, k);
  }

  lemma RenderSplit(t: string, b: nat, k: nat)
    requires b <= k < |t| && t[k] == '='
    ensures ":" + t == ":" + t[..b] + t[b..k] + "=" + t[k + 1..]
  {
    assert t == t[..b] + t[b..k] + [t[k]] + t[k + 1..];
  }

  /** The facts `ValidateCommand` promises about a command that passes the
      allow-list test and matches the pattern. */
  lemma ValidatedShape(command: string)
    requires |command| > 0
    requires ':' in command ==> Strip(FirstField(command)) in SafeCommands
    ensures MatchesCommandRegex(command) ==> AllValue(command)
    ensures MatchesCommandRegex(command) && ':' in command ==>
      AlnumRun(FirstField(command)) && FirstField(command) in SafeCommands
    ensures MatchesCommandRegex(command) && ':' !in command ==>
      AlnumRun(command) || (AlnumRun(command[..|command| - 1]) && command[|command| - 1] == '\n')
  {
    if MatchesCommandRegex(command) {
      if RecogniseCommand(command) {
        RecognisedVerb(command);
      } else {
        NewlineVerb(command);
      }
    }
  }

  /** The verb of a recognised command is its first field, and is the whole
      command when there is no colon. */
  lemma RecognisedVerb(s: string)
    requires RecogniseCommand(s)
    ensures AllValue(s)
    ensures ':' in s ==> AlnumRun(FirstField(s)) && Strip(FirstField(s)) == FirstField(s)
    ensures ':' !in s ==> AlnumRun(s)
  {
    RecognisedShape(s);
    var v := AlnumPrefix(s);
    if ':' in s {
      assert FirstField(s) == s[..v];
      StripTrimmed(FirstField(s));
    } else {
      assert s[..v] == s;
    }
  }

  /** The same facts for a recognised command followed by one newline. */
  lemma NewlineVerb(command: string)
    requires |command| > 0 && command[|command| - 1] == '\n'
    requires RecogniseCommand(command[..|command| - 1])
    ensures AllValue(command)
    ensures ':' in command ==> AlnumRun(FirstField(command)) && Strip(FirstField(command)) == FirstField(command)
    ensures ':' !in command ==> AlnumRun(command[..|command| - 1])
  {
    var s := command[..|command| - 1];
    assert command == s + "\n";
    NewlineVerbOf(s);
  }

  lemma NewlineVerbOf(s: string)
    requires RecogniseCommand(s)
    ensures AllValue(s + "\n")
    ensures ':' in s + "\n" ==> AlnumRun(FirstField(s + "\n")) && Strip(FirstField(s + "\n")) == FirstField(s + "\n")
    ensures ':' !in s + "\n" ==> AlnumRun(s)
  {
    RecognisedVerb(s);
    AllValueConcat(s, "\n");
    FirstFieldBeforeNewline(s);
  }

  /** A final newline adds no colon and leaves the first field alone. */
  lemma FirstFieldBeforeNewline(s: string)
    ensures (':' in s + "\n") == (':' in s)
    ensures ':' in s ==> FirstField(s + "\n") == FirstField(s)
  {
    IndexOfConcat(s, "\n", ':');
    assert IndexOf("\n", ':') == 1;
    var i := IndexOf(s, ':');
    if ':' in s {
      assert (s + "\n")[..i] == s[..i];
    }
  }

  // ---------------------------------------------------------------------
  // Properties of validate_command

  /** The meaning of `validate_command`: non-empty, matched by the pattern,
      and allow-listed whenever it carries a colon. */
  lemma ValidateCommandMeaning(command: string)
    ensures ValidateCommand(command) <==>
      CommandRegexMatches(command) && (':' in command ==> Strip(FirstField(command)) in SafeCommands)
  {
    if |command| == 0 {
      assert !RecogniseCommand(command);
    }
  }

  /** A bare verb of letters and digits is accepted whether or not it is
      allow-listed, and so is that verb followed by one newline. */
  lemma BareVerbAccepted(verb: string)
    requires AlnumRun(verb)
    ensures ValidateCommand(verb)
    ensures ValidateCommand(verb + "\n")
  {
    assert verb == verb + RenderParams([]);
    RecogniseComplete(verb, []);
    assert ':' !in verb by {
      forall k | 0 <= k < |verb| ensures verb[k] != ':' { assert IsAlnum(verb[k]); }
    }
    var s := verb + "\n";
    assert s[..|s| - 1] == verb;
    assert ':' !in s by {
      forall k | 0 <= k < |s| ensures s[k] != ':' { if k < |verb| { assert s[k] == verb[k]; } }
    }
  }

  /** An allow-listed verb followed by one or more well-formed parameter
      groups is accepted. */
  lemma AllowListedParamsAccepted(verb: string, ps: seq<Param>)
    requires verb in SafeCommands
    requires AlnumRun(verb) && |ps| >= 1 && forall p <- ps :: WellFormedParam(p)
    ensures ValidateCommand(verb + RenderParams(ps))
  {
    RecogniseComplete(verb, ps);
    VerbIsFirstField(verb, ps);
  }

  /** The first field of a verb followed by parameter groups is the verb,
      and it has no whitespace to strip. */
  lemma VerbIsFirstField(verb: string, ps: seq<Param>)
    requires AlnumRun(verb) && |ps| >= 1
    ensures ':' in verb + RenderParams(ps)
    ensures Strip(FirstField(verb + RenderParams(ps))) == verb
  {
    assert RenderParams(ps)[0] == ':';
    VerbBeforeColon(verb, RenderParams(ps));
  }

  lemma VerbBeforeColon(verb: string, rest: string)
    requires AlnumRun(verb) && |rest| > 0 && rest[0] == ':'
    ensures ':' in verb + rest
    ensures Strip(FirstField(verb + rest)) == verb
  {
    var s := verb + rest;
    assert ':' !in verb by {
      forall k | 0 <= k < |verb| ensures verb[k] != ':' { assert IsAlnum(verb[k]); }
    }
    ColonAt(verb, rest);
    assert s[..|verb|] == verb;
    assert s[|verb|] == ':';
    StripTrimmed(verb);
  }

  /** The allow-listed help command of the bridge's documentation and tests. */
  lemma HelpCommandAccepted()
    ensures ValidateCommand("Help: Command=Help")
  {
    var p := Param(" ", "Command", "Help");
    assert "Help: Command=Help" == "Help" + RenderParams([p]);
    AllowListedParamsAccepted("Help", [p]);
  }

  /** The allow-listed track query of the bridge's documentation and tests. */
  lemma TrackQueryAccepted()
    ensures ValidateCommand("GetInfo: Type=Tracks")
  {
    var q := Param(" ", "Type", "Tracks");
    assert RenderParams([q]) == ": Type=Tracks";
    assert "GetInfo: Type=Tracks" == "GetInfo" + ": Type=Tracks";
    AllowListedParamsAccepted("GetInfo", [q]);
  }

  /** The injection attempt and the export command of the bridge's tests. */
  lemma RejectedExamples()
    ensures !ValidateCommand("Help: Command=Help; Export: Filename=\"/etc/passwd\"")
    ensures !ValidateCommand("Export: Filename=\"/tmp/test.wav\"")
  {
    assert !IsValueChar("Help: Command=Help; Export: Filename=\"/etc/passwd\""[18]);
    assert !IsValueChar("Export: Filename=\"/tmp/test.wav\""[17]);
  }

  // ---------------------------------------------------------------------
  // Line breaks inside a parameter value

  /** As written, the gate passes a second command on a line of its own:
      the value class admits `\n`, so an allow-listed first line can carry
      a command the gate refuses when it stands alone. */
  lemma NewlineSmuggled()
    ensures ValidateCommand("Help: Command=Help" + "\n" + "Export: Filename=/tmp/x.wav")
    ensures !ValidateCommand("Export: Filename=/tmp/x.wav")
  {
    var p := Param(" ", "Command", "Help\n" + "Export: Filename=/tmp/x.wav");
    SmuggledParam();
    SmuggledText();
    AllowListedParamsAccepted("Help", [p]);
    ExportRefused();
  }

  /** The smuggled command's single parameter is well formed: its value
      class admits the newline. */
  lemma SmuggledParam()
    ensures WellFormedParam(Param(" ", "Command", "Help\n" + "Export: Filename=/tmp/x.wav"))
  {
    assert AllValue("Help\n");
    assert AllValue("Export: Filename=/tmp/x.wav");
    AllValueConcat("Help\n", "Export: Filename=/tmp/x.wav");
    assert AlnumRun("Command");
  }

  /** The smuggled command is the verb `Help` rendered with that parameter;
      stated apart to keep the string reasoning small. */
  lemma SmuggledText()
    ensures "Help: Command=Help" + "\n" + "Export: Filename=/tmp/x.wav"
      == "Help" + RenderParams([Param(" ", "Command", "Help\n" + "Export: Filename=/tmp/x.wav")])
  {
    var p := Param(" ", "Command", "Help\n" + "Export: Filename=/tmp/x.wav");
    var head := ":" + " " + "Command" + "=";
    assert RenderParams([p]) == RenderParam(p) + RenderParams([]);
    assert RenderParam(p) == head + ("Help\n" + "Export: Filename=/tmp/x.wav");
    assert "Help: Command=Help" + "\n" == "Help" + head + "Help\n";
  }

  lemma ExportRefused()
    ensures !ValidateCommand("Export: Filename=/tmp/x.wav")
  {
    assert "Export: Filename=/tmp/x.wav" == "Export" + ": Filename=/tmp/x.wav";
    ExportUnlisted();
    UnlistedVerbRefused("Export", ": Filename=/tmp/x.wav");
  }

  /** `Export` is a well-formed verb outside the allow-list. */
  lemma ExportUnlisted()
    ensures AlnumRun("Export") && "Export" !in SafeCommands
  {
  }

  /** A verb outside the allow-list followed by a colon is refused,
      whatever follows. */
  lemma UnlistedVerbRefused(verb: string, rest: string)
    requires AlnumRun(verb) && verb !in SafeCommands
    requires |rest| > 0 && rest[0] == ':'
    ensures !ValidateCommand(verb + rest)
  {
    VerbBeforeColon(verb, rest);
  }

  /** The gate as evidently intended: the same checks, and no line break
      anywhere in the command. */
  function ValidateSingleLine(command: string): (ok: bool)
    ensures ok ==> ValidateCommand(command)
  {
    ValidateCommand(command) && '\n' !in command && '\r' !in command
  }

  /** What the corrected gate accepts: exactly the single-line strings of
      the pattern's language, without the final-newline allowance of `$`,
      whose verb is allow-listed whenever they carry parameters. */
  lemma SingleLineMeaning(command: string)
    ensures ValidateSingleLine(command) <==>
      InCommandLanguage(command) && '\n' !in command && '\r' !in command
      && (':' in command ==> Strip(FirstField(command)) in SafeCommands)
  {
    ValidateCommandMeaning(command);
    if '\n' !in command && |command| > 0 {
      assert command[|command| - 1] in command;
    }
  }

  /** The corrected gate refuses the smuggling command. */
  lemma SmugglingRefused()
    ensures !ValidateSingleLine("Help: Command=Help" + "\n" + "Export: Filename=/tmp/x.wav")
  {
    assert ("Help: Command=Help" + "\n" + "Export: Filename=/tmp/x.wav")[18] == '\n';
  }

  /** The bridge's fixed commands hold no line break. */
  lemma NoLineBreak()
    ensures '\n' !in "GetInfo: Type=Tracks" && '\r' !in "GetInfo: Type=Tracks"
    ensures '\n' !in "Help: Command=Help" && '\r' !in "Help: Command=Help"
  {
    var getInfo, help := "GetInfo: Type=Tracks", "Help: Command=Help";
    assert forall k :: 0 <= k < |getInfo| ==> ' ' <= getInfo[k] <= '~';
    assert forall k :: 0 <= k < |help| ==> ' ' <= help[k] <= '~';
  }

  // ---------------------------------------------------------------------
  // sanitize_path

  /** `sanitize_path(path, base_dir)`: the absolute, normalised target when
      `commonpath` of it and the absolute base is the base itself, and
      nothing otherwise.  `cwd` is the working directory `abspath` uses. */
  function SanitizePath(path: string, baseDir: string, cwd: string): (r: Option<string>)
    requires IsAbs(cwd)
    ensures r.Some? <==>
      NormRoot(Abspath(baseDir, cwd)) == "/" &&
      Components(Abspath(baseDir, cwd)) <= Components(Abspath(Join(Abspath(baseDir, cwd), path), cwd))
    ensures r.Some? ==> r.value == Abspath(Join(Abspath(baseDir, cwd), path), cwd) && Normal(Components(r.value))
  {
    var absBase := Abspath(baseDir, cwd);
    var absTarget := Abspath(Join(absBase, path), cwd);
    NormalisedShape(if IsAbs(baseDir) then baseDir else Join(cwd, baseDir));
    NormalisedShape(if IsAbs(Join(absBase, path)) then Join(absBase, path) else Join(cwd, Join(absBase, path)));
    CommonPathIsBase(absBase, absTarget);
    if CommonPath(absBase, absTarget) == absBase then Some(absTarget) else None
  }

  /** A normalised path is its root followed by its normal components. */
  lemma NormalisedShape(p: string)
    requires IsAbs(p)
    ensures Normpath(p) == NormRoot(Normpath(p)) + JoinSegments(Components(Normpath(p)))
    ensures Normal(Components(Normpath(p)))
  {
    NormpathShape(p);
  }

  /** For a relative `path`, the target's components are the base's
      components with `path`'s segments resolved on top of them. */
  lemma TargetComponents(path: string, baseDir: string, cwd: string)
    requires IsAbs(cwd) && !IsAbs(path)
    ensures Components(Abspath(Join(Abspath(baseDir, cwd), path), cwd))
         == Resolve(Components(Abspath(baseDir, cwd)), Split(path))
  {
    var a := Abspath(baseDir, cwd);
    NormalisedShape(if IsAbs(baseDir) then baseDir else Join(cwd, baseDir));
    JoinedSegments(NormRoot(a), Components(a), path);
    NormpathShape(Join(a, path));
  }

  /** A relative path with no `..` segment never leaves a single-rooted base. */
  lemma NoParentStaysInside(path: string, baseDir: string, cwd: string)
    requires IsAbs(cwd) && !IsAbs(path)
    requires forall q <- Split(path) :: q != ".."
    requires NormRoot(Abspath(baseDir, cwd)) == "/"
    ensures SanitizePath(path, baseDir, cwd).Some?
  {
    TargetComponents(path, baseDir, cwd);
    ResolveWithoutParent(Components(Abspath(baseDir, cwd)), Split(path));
  }

  /** A base whose normal form starts with exactly two slashes confines
      nothing: `commonpath` answers with one slash, so no target is ever
      accepted. */
  lemma DoubleSlashBaseRejects(path: string, baseDir: string, cwd: string)
    requires IsAbs(cwd)
    requires NormRoot(Abspath(baseDir, cwd)) == "//"
    ensures SanitizePath(path, baseDir, cwd) == None
  {
  }

  /** A relative path of plain names under a normal base resolves to
      `base/path`. */
  lemma NameInsideBase(names: seq<string>, baseSegs: seq<string>, cwd: string)
    requires IsAbs(cwd)
    requires Normal(names) && |names| >= 1 && Normal(baseSegs) && |baseSegs| >= 1
    ensures SanitizePath(JoinSegments(names), "/" + JoinSegments(baseSegs), cwd)
         == Some("/" + JoinSegments(baseSegs) + "/" + JoinSegments(names))
  {
    RenderedIsFixed(baseSegs, cwd);
    JoinNames(baseSegs, names);
    RenderedIsFixed(baseSegs + names, cwd);
    assert baseSegs <= baseSegs + names;
  }

  /** The bridge's test of a plain file name under a workspace directory. */
  lemma FileInWorkspace(cwd: string)
    requires IsAbs(cwd)
    ensures SanitizePath("file.wav", "/home/user/workspace", cwd) == Some("/home/user/workspace" + "/" + "file.wav")
  {
    assert "file.wav" == JoinSegments(["file.wav"]);
    WorkspaceRendered();
    NameInsideBase(["file.wav"], ["home", "user", "workspace"], cwd);
  }

  /** The bridge's traversal test `../etc/passwd` under `/home/user/workspace`. */
  lemma ParentTraversalRefused(cwd: string)
    requires IsAbs(cwd)
    ensures SanitizePath("../etc/passwd", "/home/user/workspace", cwd) == None
  {
    var parts := ["..", "etc", "passwd"];
    assert "../etc/passwd" == ".." + "/" + "etc/passwd";
    assert "etc/passwd" == "etc" + "/" + "passwd";
    LeavesWorkspace(parts, ["home", "user", "etc", "passwd"]);
    Escapes("../etc/passwd", parts, ["home", "user", "etc", "passwd"], cwd);
  }

  /** The bridge's traversal test `subdir/../../etc/passwd`. */
  lemma NestedTraversalRefused(cwd: string)
    requires IsAbs(cwd)
    ensures SanitizePath("subdir/../../etc/passwd", "/home/user/workspace", cwd) == None
  {
    var parts := ["subdir", "..", "..", "etc", "passwd"];
    NestedTraversalSegments();
    LeavesWorkspace(parts[2..], ["home", "user", "etc", "passwd"]);
    assert parts[1..] == [".."] + parts[2..];
    Escapes("subdir/../../etc/passwd", parts, ["home", "user", "etc", "passwd"], cwd);
  }

  /** Containment is by whole segments: `/home/user/workspace2/x` shares the
      base's characters but not its last segment. */
  lemma SiblingPrefixRefused(cwd: string)
    requires IsAbs(cwd)
    ensures SanitizePath("../workspace2/x", "/home/user/workspace", cwd) == None
  {
    var parts := ["..", "workspace2", "x"];
    assert "../workspace2/x" == ".." + "/" + "workspace2/x";
    assert "workspace2/x" == "workspace2" + "/" + "x";
    LeavesWorkspace(parts, ["home", "user", "workspace2", "x"]);
    Escapes("../workspace2/x", parts, ["home", "user", "workspace2", "x"], cwd);
  }

  lemma NestedTraversalSegments()
    ensures "subdir/../../etc/passwd" == JoinSegments(["subdir", "..", "..", "etc", "passwd"])
    ensures "subdir/../../etc/passwd"[0] != '/'
    ensures forall q <- ["subdir", "..", "..", "etc", "passwd"] :: '/' !in q
  {
    var path, parts := "subdir/../../etc/passwd", ["subdir", "..", "..", "etc", "passwd"];
    assert JoinSegments(parts[3..]) == "etc" + "/" + "passwd";
    assert JoinSegments(parts[2..]) == ".." + "/" + JoinSegments(parts[3..]);
    assert JoinSegments(parts[1..]) == ".." + "/" + JoinSegments(parts[2..]);
    assert JoinSegments(parts) == "subdir" + "/" + JoinSegments(parts[1..]);
    assert path == "subdir" + "/" + (".." + "/" + (".." + "/" + ("etc" + "/" + "passwd")));
  }

  /** `..` followed by two names, resolved on the workspace segments. */
  lemma LeavesWorkspace(parts: seq<string>, resolved: seq<string>)
    requires |parts| == 3 && parts[0] == ".." && IsName(parts[1]) && IsName(parts[2])
    requires resolved == ["home", "user", parts[1], parts[2]]
    ensures Resolve(["home", "user", "workspace"], parts) == resolved
  {
    var ws := ["home", "user", "workspace"];
    assert ws[..2] == ["home", "user"];
    assert Resolve(ws, parts) == Resolve(["home", "user"], parts[1..]);
    assert Resolve(["home", "user"], parts[1..]) == Resolve(["home", "user"] + [parts[1]], parts[2..]);
    assert Resolve(["home", "user"] + [parts[1]], parts[2..]) == Resolve(["home", "user"] + [parts[1]] + [parts[2]], []);
    assert ["home", "user"] + [parts[1]] + [parts[2]] == resolved;
  }

  lemma WorkspaceBase(cwd: string)
    requires IsAbs(cwd)
    ensures Abspath("/home/user/workspace", cwd) == "/home/user/workspace"
    ensures Components("/home/user/workspace") == ["home", "user", "workspace"]
  {
    WorkspaceRendered();
    RenderedIsFixed(["home", "user", "workspace"], cwd);
  }

  lemma WorkspaceRendered()
    ensures "/home/user/workspace" == "/" + JoinSegments(["home", "user", "workspace"])
    ensures Normal(["home", "user", "workspace"])
  {
    var base := "/home/user/workspace";
    var bs := ["home", "user", "workspace"];
    assert JoinSegments(bs[1..]) == "user" + "/" + "workspace";
    assert JoinSegments(bs) == "home" + "/" + JoinSegments(bs[1..]);
    assert base == "/" + ("home" + "/" + ("user" + "/" + "workspace"));
  }

  /** A relative path whose segments, resolved on `/home/user/workspace`,
      leave it is refused. */
  lemma Escapes(path: string, parts: seq<string>, resolved: seq<string>, cwd: string)
    requires IsAbs(cwd)
    requires |parts| >= 1 && path == JoinSegments(parts) && forall q <- parts :: '/' !in q
    requires |path| > 0 && path[0] != '/'
    requires Resolve(["home", "user", "workspace"], parts) == resolved
    requires |resolved| >= 3 && resolved[2] != "workspace"
    ensures SanitizePath(path, "/home/user/workspace", cwd) == None
  {
    WorkspaceBase(cwd);
    SplitJoin(parts);
    TargetComponents(path, "/home/user/workspace", cwd);
  }
}
