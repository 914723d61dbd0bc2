/** The console host's own command line: reading it, and the one that starts a pseudoconsole host. */
module ConsoleArguments {
  import opened Basics
  import opened CommandLine
  import opened Numerals

  datatype Settings = Settings(
    clientCommandline: string,
    textMeasurement: string,
    ambiguousIsWide: bool,
    forceNoHandoff: bool,
    forceV1: bool,
    headless: bool,
    width: int,
    height: int,
    runAsComServer: bool,
    createServerHandle: bool,
    serverHandle: nat,
    signalHandle: nat,
    inheritCursor: bool)

  const DEFAULTS := Settings("", "", false, false, false, false, 0, 0, false, true, 0, 0, false)

  /** The low 16 bits, as a signed number. */
  function Short(v: int): int {
    (v + 0x8000) % 0x1_0000 - 0x8000
  }

  // ----- what the tokens mean

  /** The value of a size: a number of at most 32767 and nothing after it. */
  function SizeOf(token: string): Option<int> {
    var r := Stoi(token);
    if r.None? || r.value.0 > 0x7FFF || r.value.1 != |token| then None else Some(Short(r.value.0))
  }

  /** The value of a handle that must not have been given before; 0 if it is refused. */
  function HandleOf(token: string, given: nat): nat {
    if "0x" <= token && given == 0 then Wcstoul(token) else 0
  }

  /** What a token at the front of the line is. */
  datatype Kind =
    | BareServer | Server | Signal | ForceV1 | ForceNoHandoff | ComServer | FilePath | Width | Height | Feature
    | Headless | InheritCursor | TextMeasurement | AmbiguousIsWide | ClientFollows | ClientStarts

  function KindOf(token: string): Kind {
    if "0x" <= token then BareServer
    else if token == "--server" then Server
    else if token == "--signal" then Signal
    else if token == "-ForceV1" then ForceV1
    else if token == "-ForceNoHandoff" then ForceNoHandoff
    else if token == "-Embedding" then ComServer
    else if "\\??\\" <= token then FilePath
    else if token == "--width" then Width
    else if token == "--height" then Height
    else if token == "--feature" then Feature
    else if token == "--headless" then Headless
    else if token == "--inheritcursor" then InheritCursor
    else if token == "--textMeasurement" then TextMeasurement
    else if token == "--ambiguousIsWide" then AmbiguousIsWide
    else if token == "--" then ClientFollows
    else ClientStarts
  }

  predicate TakesValue(k: Kind) {
    k.Server? || k.Signal? || k.Width? || k.Height? || k.Feature? || k.TextMeasurement?
  }

  predicate StartsClient(k: Kind) {
    k.ClientFollows? || k.ClientStarts?
  }

  /** The effect of an option; nothing if its value is refused.  A bare server handle is its own value. */
  function Applied(k: Kind, value: string, s: Settings): Option<Settings>
    requires !StartsClient(k)
  {
    match k
    case BareServer | Server =>
      var h := HandleOf(value, s.serverHandle);
      if h == 0 then None else Some(s.(serverHandle := h, createServerHandle := false))
    case Signal =>
      var h := HandleOf(value, s.signalHandle);
      if h == 0 then None else Some(s.(signalHandle := h))
    case Width =>
      var v := SizeOf(value);
      if v.None? then None else Some(s.(width := v.value))
    case Height =>
      var v := SizeOf(value);
      if v.None? then None else Some(s.(height := v.value))
    case Feature => if value == "pty" then Some(s) else None
    case TextMeasurement => Some(s.(textMeasurement := value))
    case ForceV1 => Some(s.(forceV1 := true))
    case ForceNoHandoff => Some(s.(forceNoHandoff := true))
    case ComServer => Some(s.(runAsComServer := true))
    case FilePath => Some(s)
    case Headless => Some(s.(headless := true))
    case InheritCursor => Some(s.(inheritCursor := true))
    case AmbiguousIsWide => Some(s.(ambiguousIsWide := true))
  }

  /** The settings, or nothing if the line is refused. */
  function Parse(args: seq<string>, s: Settings): Option<Settings> {
    if args == [] then Some(s)
    else
      var k := KindOf(args[0]);
      if StartsClient(k) then Some(s.(clientCommandline := Joined(ClientTokens(k, args))))
      else if TakesValue(k) && |args| == 1 then None
      else
        var n := if TakesValue(k) then 2 else 1;
        var next := Applied(k, args[n - 1], s);
        if next.None? then None else Parse(args[n..], next.value)
  }

  function ClientTokens(k: Kind, args: seq<string>): seq<string>
    requires args != []
  {
    if k.ClientFollows? then args[1..] else args
  }

  // ----- the object

  class Arguments {
    const commandline: string
    var settings: Settings

    constructor (line: string)
      ensures commandline == line && settings == DEFAULTS
    {
      commandline := line;
      settings := DEFAULTS;
    }

    /** ParseCommandline: what the tokens after the program's name mean, read from the front.  A line that is
        accepted has been consumed to its last token. */
    method ParseCommandline() returns (ok: bool, ghost left: seq<string>)
      modifies this`settings
      ensures ok ==> left == []
      ensures ok == Parse(Tokens(commandline), old(settings)).Some?
      ensures ok ==> Parse(Tokens(commandline), old(settings)) == Some(settings)
      ensures ok <==> Acceptable(Tokens(commandline), old(settings))
      ensures ok ==> LineSets(Tokens(commandline), old(settings), settings)
    {
      ok, left := ParseTokens();
      AcceptedIff(Tokens(commandline), old(settings));
      if ok {
        AcceptedSets(Tokens(commandline), old(settings), settings);
      }
    }

    method ParseTokens() returns (ok: bool, ghost left: seq<string>)
      modifies this`settings
      ensures ok ==> left == []
      ensures ok == Parse(Tokens(commandline), old(settings)).Some?
      ensures ok ==> Parse(Tokens(commandline), old(settings)) == Some(settings)
    {
      ok, left := true, [];
      if |commandline| == 0 {
        return;
      }
      var args := Tokens(commandline);
      while |args| > 0
        invariant ok && Parse(args, settings) == Parse(Tokens(commandline), old(settings))
        decreases |args|
      {
        var last;
        ok, args, last := ParseNext(args);
        if !ok || last {
          return ok, args;
        }
      }
    }

    /** The loop's body. */
    method ParseNext(args: seq<string>) returns (ok: bool, left: seq<string>, last: bool)
      requires args != []
      modifies this`settings
      ensures !ok ==> Parse(args, old(settings)).None?
      ensures ok && last ==> left == [] && Parse(args, old(settings)) == Some(settings)
      ensures ok && !last ==> |left| < |args| && Parse(args, old(settings)) == Parse(left, settings)
    {
      ok, left, last := true, args, false;
      match KindOf(args[0]) {
        case BareServer =>
          left := left[1..];
          ok := SetServerHandle(args[0]);
        case ForceV1 | ForceNoHandoff | ComServer | FilePath | Headless | InheritCursor | AmbiguousIsWide =>
          SetFlag(KindOf(args[0]), args[0]);
          left := left[1..];
        case Width =>
          var v;
          ok, v, left := GetShortValue(left, settings.width);
          settings := settings.(width := v);
        case Height =>
          var v;
          ok, v, left := GetShortValue(left, settings.height);
          settings := settings.(height := v);
        case Feature =>
          ok, left := HandleFeatureValue(left);
        case Server | Signal | TextMeasurement =>
          ok, left := ReadValue(left);
        case ClientFollows =>
          left := GetClientCommandline(left, true);
          last := true;
        case ClientStarts =>
          left := GetClientCommandline(left, false);
          last := true;
      }
    }

    method SetFlag(k: Kind, ghost value: string)
      requires !StartsClient(k) && !TakesValue(k) && !k.BareServer?
      modifies this`settings
      ensures Applied(k, value, old(settings)) == Some(settings)
    {
      match k {
        case ForceV1 => settings := settings.(forceV1 := true);
        case ForceNoHandoff => settings := settings.(forceNoHandoff := true);
        case ComServer => settings := settings.(runAsComServer := true);
        case FilePath =>
        case Headless => settings := settings.(headless := true);
        case InheritCursor => settings := settings.(inheritCursor := true);
        case AmbiguousIsWide => settings := settings.(ambiguousIsWide := true);
      }
    }

    method ReadValue(args: seq<string>) returns (ok: bool, left: seq<string>)
      requires args != [] && var k := KindOf(args[0]); k.Server? || k.Signal? || k.TextMeasurement?
      modifies this`settings
      ensures ok <==> |args| > 1 && Applied(KindOf(args[0]), args[1], old(settings)).Some?
      ensures ok ==> left == args[2..] && Applied(KindOf(args[0]), args[1], old(settings)) == Some(settings)
    {
      var value;
      ok, value, left := GetArgumentValue(args);
      if !ok {
        return;
      }
      match KindOf(args[0]) {
        case Server =>
          ok := SetServerHandle(value);
        case Signal =>
          var h;
          ok, h := ParseHandleArg(value, settings.signalHandle);
          settings := settings.(signalHandle := h);
        case TextMeasurement =>
          settings := settings.(textMeasurement := value);
      }
    }

    method SetServerHandle(value: string) returns (ok: bool)
      modifies this`settings
      ensures ok == Applied(Server, value, old(settings)).Some?
      ensures ok ==> settings == Applied(Server, value, old(settings)).value
    {
      var h;
      ok, h := ParseHandleArg(value, settings.serverHandle);
      settings := settings.(serverHandle := h);
      if ok {
        settings := settings.(createServerHandle := false);
      }
    }

    /** _GetClientCommandline: the remaining tokens, escaped and joined with single spaces. */
    method GetClientCommandline(args: seq<string>, skipFirst: bool) returns (left: seq<string>)
      requires args != [] && (skipFirst ==> args[0] == "--")
      modifies this`settings
      ensures left == []
      ensures settings == old(settings).(clientCommandline := Joined(if skipFirst then args[1..] else args))
    {
      var rest := if skipFirst then args[1..] else args;
      settings := settings.(clientCommandline := "");
      var j := 0;
      assert rest[0..] == rest;
      while j < |rest|
        invariant j <= |rest| && settings == old(settings).(clientCommandline := settings.clientCommandline)
        invariant settings.clientCommandline + Joined(rest[j..]) == Joined(rest)
      {
        ghost var before := settings.clientCommandline;
        JoinedStep(before, rest, j);
        var escaped := EscapeArgument(rest[j]);
        settings := settings.(clientCommandline := settings.clientCommandline + escaped);
        if j + 1 < |rest| {
          settings := settings.(clientCommandline := settings.clientCommandline + " ");
        }
        j := j + 1;
      }
      assert settings.clientCommandline + "" == settings.clientCommandline;
      left := [];
    }

    /** s_GetArgumentValue for text. */
    static method GetArgumentValue(args: seq<string>) returns (ok: bool, value: string, left: seq<string>)
      requires args != []
      ensures ok <==> |args| > 1
      ensures ok ==> value == args[1] && left == args[2..]
      ensures !ok ==> left == args
    {
      ok, value, left := |args| > 1, "", args;
      if ok {
        left := left[1..];
        value := left[0];
        left := left[1..];
      }
    }

    /** s_GetArgumentValue for sizes. */
    static method GetShortValue(args: seq<string>, given: int) returns (ok: bool, value: int, left: seq<string>)
      requires args != []
      ensures ok <==> |args| > 1 && SizeOf(args[1]).Some?
      ensures value == if ok then SizeOf(args[1]).value else given
      ensures left == if |args| > 1 then args[2..] else args
    {
      ok, value, left := |args| > 1, given, args;
      if ok {
        left := left[1..];
        var r := Stoi(left[0]);
        if r.None? || r.value.0 > 0x7FFF || r.value.1 != |left[0]| {
          ok := false;
        } else {
          value := Short(r.value.0);
        }
        left := left[1..];
      }
    }

    /** s_HandleFeatureValue. */
    static method HandleFeatureValue(args: seq<string>) returns (ok: bool, left: seq<string>)
      requires args != []
      ensures ok <==> |args| > 1 && args[1] == "pty"
      ensures left == if |args| > 1 then args[2..] else args
    {
      ok, left := false, args;
      if |args| > 1 {
        left := left[1..];
        ok := left[0] == "pty";
        left := left[1..];
      }
    }

    /** s_ParseHandleArg. */
    static method ParseHandleArg(text: string, given: nat) returns (ok: bool, h: nat)
      ensures ok <==> HandleOf(text, given) != 0
      ensures ok ==> h == HandleOf(text, given)
    {
      h := given;
      if !("0x" <= text) {
        ok := false;
      } else if given == 0 {
        h := Wcstoul(text);
        ok := h != 0;
      } else {
        ok := false;
      }
    }
  }

  lemma {:induction false} JoinedStep(before: string, args: seq<string>, j: nat)
    requires j < |args|
    ensures before + Joined(args[j..])
         == before + Escaped(args[j]) + (if j + 1 < |args| then " " else "") + Joined(args[j + 1..])
  {
    assert args[j..][0] == args[j] && args[j..][1..] == args[j + 1..];
    var word, more := Escaped(args[j]), Joined(args[j + 1..]);
    if j + 1 < |args| {
      assert before + (word + (" " + more)) == before + word + " " + more;
    } else {
      assert before + (word + "") == before + word + "" + "";
    }
  }

  // ----- the line as a whole

  /** CommandLineToArgvW without the program's name, which ends at the first quote if it starts with one, and
      otherwise at the first blank. */
  function Tokens(line: string): seq<string> {
    if line == "" then []
    else if line[0] == QUOTE then Split(After(line[1..], QUOTE), Between)
    else Split(AfterName(line), Between)
  }

  function After(s: string, c: char): string {
    if s == "" then "" else if s[0] == c then s[1..] else After(s[1..], c)
  }

  function AfterName(s: string): string {
    if s == "" || Blank(s[0]) then s else AfterName(s[1..])
  }

  // ----- what an accepted line sets

  function Length(k: Kind, args: seq<string>): (n: nat)
    ensures args != [] ==> 0 < n <= |args|
  {
    if TakesValue(k) && |args| > 1 then 2 else 1
  }

  /** The tokens that are the client's own command line, if there are any. */
  function Client(args: seq<string>): Option<seq<string>> {
    if args == [] then None
    else
      var k := KindOf(args[0]);
      if StartsClient(k) then Some(ClientTokens(k, args)) else Client(args[Length(k, args)..])
  }

  /** How often a server handle is given before that. */
  function Servers(args: seq<string>): nat {
    if args == [] then 0
    else
      var k := KindOf(args[0]);
      if StartsClient(k) then 0
      else (if k.Server? || k.BareServer? then 1 else 0) + Servers(args[Length(k, args)..])
  }

  function Given(handle: nat): nat {
    if handle == 0 then 0 else 1
  }

  /** The client's command line of an accepted line splits into exactly the tokens that are the client's; and
      a server handle was given at most once, in which case none is to be created. */
  lemma {:induction false} Accepted(args: seq<string>, s: Settings, t: Settings)
    requires Parse(args, s) == Some(t)
    ensures Client(args).Some? ==> Split(t.clientCommandline, Between) == Client(args).value
    ensures Client(args).None? ==> t.clientCommandline == s.clientCommandline
    ensures Given(s.serverHandle) + Servers(args) == Given(t.serverHandle)
    ensures t.createServerHandle == (s.createServerHandle && Servers(args) == 0)
    decreases |args|
  {
    if args != [] {
      var k := KindOf(args[0]);
      if StartsClient(k) {
        SplitJoined(ClientTokens(k, args));
      } else {
        var next := AcceptedStep(args, s, t);
        Accepted(args[Length(k, args)..], next, t);
      }
    }
  }

  lemma {:induction false} AcceptedStep(args: seq<string>, s: Settings, t: Settings) returns (next: Settings)
    requires args != [] && !StartsClient(KindOf(args[0])) && Parse(args, s) == Some(t)
    ensures var k := KindOf(args[0]); var one := if k.Server? || k.BareServer? then 1 else 0;
      && Parse(args[Length(k, args)..], next) == Some(t)
      && next.clientCommandline == s.clientCommandline
      && Given(s.serverHandle) + one == Given(next.serverHandle)
      && next.createServerHandle == (s.createServerHandle && one == 0)
  {
    var k := KindOf(args[0]);
    var n := Length(k, args);
    next := Applied(k, args[n - 1], s).value;
    AppliedServer(k, args[n - 1], s);
  }

  lemma {:induction false} AppliedServer(k: Kind, value: string, s: Settings)
    requires !StartsClient(k) && Applied(k, value, s).Some?
    ensures var t := Applied(k, value, s).value; var one := if k.Server? || k.BareServer? then 1 else 0;
      && t.clientCommandline == s.clientCommandline
      && Given(s.serverHandle) + one == Given(t.serverHandle)
      && t.createServerHandle == (s.createServerHandle && one == 0)
  {
    match k
    case BareServer =>
    case Server =>
    case Signal =>
    case Width =>
    case Height =>
    case _ =>
  }

  // ----- the same, said in the tokens themselves

  predicate NamesValue(token: string) {
    || token == "--server" || token == "--signal" || token == "--width" || token == "--height"
    || token == "--feature" || token == "--textMeasurement"
  }

  predicate NamesFlag(token: string) {
    || token == "-ForceV1" || token == "-ForceNoHandoff" || token == "-Embedding"
    || token == "--headless" || token == "--inheritcursor" || token == "--ambiguousIsWide"
  }

  /** The host's own tokens at the front of the line, each with its value, or itself if it takes none. */
  function Options(args: seq<string>): seq<(string, string)> {
    if args == [] then []
    else if NamesValue(args[0]) then if |args| == 1 then [] else [(args[0], args[1])] + Options(args[2..])
    else if NamesFlag(args[0]) || "0x" <= args[0] || "\\??\\" <= args[0] then [(args[0], args[0])] + Options(args[1..])
    else []
  }

  /** The tokens after them. */
  function Others(args: seq<string>): seq<string> {
    if args == [] then []
    else if NamesValue(args[0]) then if |args| == 1 then [] else Others(args[2..])
    else if NamesFlag(args[0]) || "0x" <= args[0] || "\\??\\" <= args[0] then Others(args[1..])
    else args
  }

  predicate Named(opts: seq<(string, string)>, name: string) {
    opts != [] && (opts[0].0 == name || Named(opts[1..], name))
  }

  /** The value that was given last. */
  function LastValue(opts: seq<(string, string)>, name: string): Option<string> {
    if opts == [] then None
    else
      var later := LastValue(opts[1..], name);
      if later.Some? then later else if opts[0].0 == name then Some(opts[0].1) else None
  }

  /** ... of the server's handle, which may stand without a name. */
  function LastServer(opts: seq<(string, string)>): Option<string> {
    if opts == [] then None
    else
      var later := LastServer(opts[1..]);
      if later.Some? then later
      else if opts[0].0 == "--server" || "0x" <= opts[0].0 then Some(opts[0].1) else None
  }

  /** The number of a handle's text; 0 without the prefix. */
  function HandleNumber(v: string): nat {
    if "0x" <= v then Wcstoul(v) else 0
  }

  /** The number of a size's text, as far as it is one. */
  function SizeNumber(v: string): int {
    var r := Stoi(v);
    if r.None? then 0 else Short(r.value.0)
  }

  /** What the host's own tokens set: each flag exactly if it is named, each value to the one given last. */
  ghost predicate FlagsSet(opts: seq<(string, string)>, s: Settings, t: Settings) {
    && (t.forceV1 <==> s.forceV1 || Named(opts, "-ForceV1"))
    && (t.forceNoHandoff <==> s.forceNoHandoff || Named(opts, "-ForceNoHandoff"))
    && (t.runAsComServer <==> s.runAsComServer || Named(opts, "-Embedding"))
    && (t.headless <==> s.headless || Named(opts, "--headless"))
    && (t.inheritCursor <==> s.inheritCursor || Named(opts, "--inheritcursor"))
    && (t.ambiguousIsWide <==> s.ambiguousIsWide || Named(opts, "--ambiguousIsWide"))
  }

  ghost predicate ValuesSet(opts: seq<(string, string)>, s: Settings, t: Settings) {
    && (var v := LastValue(opts, "--width"); t.width == if v.None? then s.width else SizeNumber(v.value))
    && (var v := LastValue(opts, "--height"); t.height == if v.None? then s.height else SizeNumber(v.value))
    && (var v := LastValue(opts, "--signal"); t.signalHandle == if v.None? then s.signalHandle else HandleNumber(v.value))
    && (var v := LastValue(opts, "--textMeasurement"); t.textMeasurement == if v.None? then s.textMeasurement else v.value)
    && (var v := LastServer(opts); t.serverHandle == if v.None? then s.serverHandle else HandleNumber(v.value))
    && (t.createServerHandle <==> s.createServerHandle && LastServer(opts).None?)
    && (forall i :: 0 <= i < |opts| && opts[i].0 == "--feature" ==> opts[i].1 == "pty")
  }

  /** What kind a token is, from its text. */
  lemma {:induction false} KindFromText(token: string)
    ensures var k := KindOf(token);
      && (k.BareServer? <==> "0x" <= token) && (k.FilePath? <==> "\\??\\" <= token)
      && (k.Server? <==> token == "--server") && (k.Signal? <==> token == "--signal")
      && (k.Width? <==> token == "--width") && (k.Height? <==> token == "--height")
      && (k.Feature? <==> token == "--feature") && (k.TextMeasurement? <==> token == "--textMeasurement")
  {
    if token == "--server" { KindServer(); }
    if token == "--signal" { KindSignal(); }
    if token == "--width" { KindWidth(); }
    if token == "--height" { KindHeight(); }
    if token == "--feature" { KindFeature(); }
    if token == "--textMeasurement" { KindTextMeasurement(); }
    if "\\??\\" <= token { assert token[0] == '\\'; }
  }

  lemma {:induction false} FlagFromText(token: string)
    ensures var k := KindOf(token);
      && (k.ForceV1? <==> token == "-ForceV1") && (k.ForceNoHandoff? <==> token == "-ForceNoHandoff")
      && (k.ComServer? <==> token == "-Embedding") && (k.Headless? <==> token == "--headless")
      && (k.InheritCursor? <==> token == "--inheritcursor") && (k.AmbiguousIsWide? <==> token == "--ambiguousIsWide")
  {
    if token == "-ForceV1" { KindForceV1(); }
    if token == "-ForceNoHandoff" { KindForceNoHandoff(); }
    if token == "-Embedding" { KindEmbedding(); }
    if token == "--headless" { KindHeadless(); }
    if token == "--inheritcursor" { KindInheritCursor(); }
    if token == "--ambiguousIsWide" { KindAmbiguousIsWide(); }
  }

  lemma {:induction false} KindForceV1()
    ensures KindOf("-ForceV1") == ForceV1
  {
    var t := "-ForceV1";
    assert t[0] == '-' && t[1] == 'F';
  }

  lemma {:induction false} KindForceNoHandoff()
    ensures KindOf("-ForceNoHandoff") == ForceNoHandoff
  {
    var t := "-ForceNoHandoff";
    assert t[0] == '-' && t[1] == 'F' && t[6] == 'N';
  }

  lemma {:induction false} KindEmbedding()
    ensures KindOf("-Embedding") == ComServer
  {
    var t := "-Embedding";
    assert t[0] == '-' && t[1] == 'E';
  }

  lemma {:induction false} KindFeature()
    ensures KindOf("--feature") == Feature
  {
    var t := "--feature";
    assert t[0] == '-' && t[2] == 'f' && t[3] == 'e';
  }

  /** An own token and its value, with the token's kind. */
  datatype Opt = Opt(kind: Kind, value: string)

  function Opts(args: seq<string>): seq<Opt> {
    if args == [] then []
    else
      var k := KindOf(args[0]);
      if StartsClient(k) || (TakesValue(k) && |args| == 1) then []
      else [Opt(k, args[Length(k, args) - 1])] + Opts(args[Length(k, args)..])
  }

  predicate OfKind(opts: seq<Opt>, k: Kind) {
    opts != [] && (opts[0].kind == k || OfKind(opts[1..], k))
  }

  function LastOf(opts: seq<Opt>, which: Kind -> bool): Option<string> {
    if opts == [] then None
    else
      var later := LastOf(opts[1..], which);
      if later.Some? then later else if which(opts[0].kind) then Some(opts[0].value) else None
  }

  /** The effect of one option. */
  type Effect = (Opt, Settings) -> Option<Settings>

  function Effects(): Effect {
    (o: Opt, s: Settings) => if StartsClient(o.kind) then None else Applied(o.kind, o.value, s)
  }

  /** All the options, one after the other. */
  function Fold(step: Effect, opts: seq<Opt>, s: Settings): Option<Settings> {
    if opts == [] then Some(s)
    else
      var next := step(opts[0], s);
      if next.None? then None else Fold(step, opts[1..], next.value)
  }

  lemma {:induction false} FoldCons(step: Effect, o: Opt, more: seq<Opt>, s: Settings)
    requires step(o, s).Some?
    ensures Fold(step, [o] + more, s) == Fold(step, more, step(o, s).value)
  {
    assert ([o] + more)[0] == o && ([o] + more)[1..] == more;
  }

  lemma {:induction false} FoldFlag(step: Effect, opts: seq<Opt>, s: Settings, t: Settings, k: Kind, get: Settings -> bool)
    requires Fold(step, opts, s) == Some(t)
    requires forall o, a :: step(o, a).Some? ==> (get(step(o, a).value) <==> get(a) || o.kind == k)
    ensures get(t) <==> get(s) || OfKind(opts, k)
  {
    if opts != [] {
      FoldFlag(step, opts[1..], step(opts[0], s).value, t, k, get);
    }
  }

  lemma {:induction false} FoldLast<T>(step: Effect, opts: seq<Opt>, s: Settings, t: Settings, which: Kind -> bool, get: Settings -> T,
                                       val: string -> T)
    requires Fold(step, opts, s) == Some(t)
    requires forall o, a :: step(o, a).Some? ==> get(step(o, a).value) == if which(o.kind) then val(o.value) else get(a)
    ensures var v := LastOf(opts, which); get(t) == if v.None? then get(s) else val(v.value)
  {
    if opts != [] {
      FoldLast(step, opts[1..], step(opts[0], s).value, t, which, get, val);
    }
  }

  lemma {:induction false} FoldEach(step: Effect, opts: seq<Opt>, s: Settings, t: Settings, good: Opt -> bool)
    requires Fold(step, opts, s) == Some(t) && forall o, a :: step(o, a).Some? ==> good(o)
    ensures forall i :: 0 <= i < |opts| ==> good(opts[i])
  {
    if opts != [] {
      FoldEach(step, opts[1..], step(opts[0], s).value, t, good);
      forall i | 0 <= i < |opts| ensures good(opts[i]) {
        if i > 0 {
          assert opts[i] == opts[1..][i - 1];
        }
      }
    }
  }

  lemma {:induction false} ParseApplies(args: seq<string>, s: Settings, t: Settings)
    requires Parse(args, s) == Some(t)
    ensures Fold(Effects(), Opts(args), s) == Some(t.(clientCommandline := s.clientCommandline))
    decreases |args|
  {
    if args != [] && !StartsClient(KindOf(args[0])) {
      var k := KindOf(args[0]);
      var n := Length(k, args);
      var o, next := Opt(k, args[n - 1]), Applied(k, args[n - 1], s).value;
      AppliedServer(k, args[n - 1], s);
      ParseApplies(args[n..], next, t);
      FoldCons(Effects(), o, Opts(args[n..]), s);
      assert Opts(args) == [o] + Opts(args[n..]);
    }
  }

  /** The effects on the flags, and on the values. */
  lemma {:induction false} EffectOnFlags(o: Opt, s: Settings)
    requires Effects()(o, s).Some?
    ensures var t := Effects()(o, s).value;
      && (t.forceV1 <==> s.forceV1 || o.kind == ForceV1) && (t.forceNoHandoff <==> s.forceNoHandoff || o.kind == ForceNoHandoff)
      && (t.runAsComServer <==> s.runAsComServer || o.kind == ComServer)
  {
    match o.kind
    case BareServer =>
    case Server =>
    case Signal =>
    case Width =>
    case Height =>
    case ForceV1 =>
    case ForceNoHandoff =>
    case ComServer =>
    case _ =>
  }

  lemma {:induction false} EffectOnLooks(o: Opt, s: Settings)
    requires Effects()(o, s).Some?
    ensures var t := Effects()(o, s).value;
      && (t.headless <==> s.headless || o.kind == Headless) && (t.inheritCursor <==> s.inheritCursor || o.kind == InheritCursor)
      && (t.ambiguousIsWide <==> s.ambiguousIsWide || o.kind == AmbiguousIsWide)
  {
    match o.kind
    case BareServer =>
    case Server =>
    case Signal =>
    case Width =>
    case Height =>
    case Headless =>
    case InheritCursor =>
    case AmbiguousIsWide =>
    case _ =>
  }

  lemma {:induction false} EffectOnValues(o: Opt, s: Settings)
    requires Effects()(o, s).Some?
    ensures var t := Effects()(o, s).value;
      && t.width == (if o.kind == Width then SizeNumber(o.value) else s.width)
      && t.height == (if o.kind == Height then SizeNumber(o.value) else s.height)
      && t.textMeasurement == (if o.kind == TextMeasurement then o.value else s.textMeasurement)
      && (o.kind == Feature ==> o.value == "pty")
  {
  }

  lemma {:induction false} EffectOnHandles(o: Opt, s: Settings)
    requires Effects()(o, s).Some?
    ensures var t := Effects()(o, s).value;
      && t.signalHandle == (if o.kind == Signal then HandleNumber(o.value) else s.signalHandle)
      && t.serverHandle == (if o.kind == Server || o.kind == BareServer then HandleNumber(o.value) else s.serverHandle)
      && (t.createServerHandle <==> if o.kind == Server || o.kind == BareServer then false else s.createServerHandle)
  {
  }

  lemma {:induction false} FlagsAreSet(opts: seq<Opt>, s: Settings, t: Settings)
    requires Fold(Effects(), opts, s) == Some(t)
    ensures && (t.forceV1 <==> s.forceV1 || OfKind(opts, ForceV1))
            && (t.forceNoHandoff <==> s.forceNoHandoff || OfKind(opts, ForceNoHandoff))
            && (t.runAsComServer <==> s.runAsComServer || OfKind(opts, ComServer))
  {
    forall o, a | Effects()(o, a).Some? {
      EffectOnFlags(o, a);
    }
    FoldFlag(Effects(), opts, s, t, ForceV1, (x: Settings) => x.forceV1);
    FoldFlag(Effects(), opts, s, t, ForceNoHandoff, (x: Settings) => x.forceNoHandoff);
    FoldFlag(Effects(), opts, s, t, ComServer, (x: Settings) => x.runAsComServer);
  }

  lemma {:induction false} LooksAreSet(opts: seq<Opt>, s: Settings, t: Settings)
    requires Fold(Effects(), opts, s) == Some(t)
    ensures && (t.headless <==> s.headless || OfKind(opts, Headless))
            && (t.inheritCursor <==> s.inheritCursor || OfKind(opts, InheritCursor))
            && (t.ambiguousIsWide <==> s.ambiguousIsWide || OfKind(opts, AmbiguousIsWide))
  {
    forall o, a | Effects()(o, a).Some? {
      EffectOnLooks(o, a);
    }
    FoldFlag(Effects(), opts, s, t, Headless, (x: Settings) => x.headless);
    FoldFlag(Effects(), opts, s, t, InheritCursor, (x: Settings) => x.inheritCursor);
    FoldFlag(Effects(), opts, s, t, AmbiguousIsWide, (x: Settings) => x.ambiguousIsWide);
  }

  function Just(k: Kind): Kind -> bool {
    (x: Kind) => x == k
  }

  function AnyServer(): Kind -> bool {
    (x: Kind) => x == Server || x == BareServer
  }

  lemma {:induction false} ValuesAreSet(opts: seq<Opt>, s: Settings, t: Settings)
    requires Fold(Effects(), opts, s) == Some(t)
    ensures && (var v := LastOf(opts, Just(Width)); t.width == if v.None? then s.width else SizeNumber(v.value))
            && (var v := LastOf(opts, Just(Height)); t.height == if v.None? then s.height else SizeNumber(v.value))
            && (var v := LastOf(opts, Just(TextMeasurement));
                t.textMeasurement == if v.None? then s.textMeasurement else v.value)
            && (forall i :: 0 <= i < |opts| ==> (opts[i].kind == Feature ==> opts[i].value == "pty"))
  {
    forall o, a | Effects()(o, a).Some? {
      EffectOnValues(o, a);
    }
    FoldLast(Effects(), opts, s, t, Just(Width), (x: Settings) => x.width, (v: string) => SizeNumber(v));
    FoldLast(Effects(), opts, s, t, Just(Height), (x: Settings) => x.height, (v: string) => SizeNumber(v));
    FoldLast(Effects(), opts, s, t, Just(TextMeasurement), (x: Settings) => x.textMeasurement, (v: string) => v);
    FoldEach(Effects(), opts, s, t, (o: Opt) => o.kind == Feature ==> o.value == "pty");
  }

  lemma {:induction false} HandlesAreSet(opts: seq<Opt>, s: Settings, t: Settings)
    requires Fold(Effects(), opts, s) == Some(t)
    ensures && (var v := LastOf(opts, Just(Signal)); t.signalHandle == if v.None? then s.signalHandle else HandleNumber(v.value))
            && (var v := LastOf(opts, AnyServer()); t.serverHandle == if v.None? then s.serverHandle else HandleNumber(v.value))
            && (t.createServerHandle <==> s.createServerHandle && LastOf(opts, AnyServer()).None?)
  {
    forall o, a | Effects()(o, a).Some? {
      EffectOnHandles(o, a);
    }
    FoldLast(Effects(), opts, s, t, Just(Signal), (x: Settings) => x.signalHandle, (v: string) => HandleNumber(v));
    FoldLast(Effects(), opts, s, t, AnyServer(), (x: Settings) => x.serverHandle, (v: string) => HandleNumber(v));
    FoldLast(Effects(), opts, s, t, AnyServer(), (x: Settings) => x.createServerHandle, (v: string) => false);
  }

  /** Kinds and texts tell the same. */
  lemma {:induction false} SameSplit(token: string)
    ensures TakesValue(KindOf(token)) <==> NamesValue(token)
    ensures StartsClient(KindOf(token)) <==> !(NamesValue(token) || NamesFlag(token) || "0x" <= token || "\\??\\" <= token)
    ensures KindOf(token).ClientFollows? <==> token == "--"
  {
    KindFromText(token);
    FlagFromText(token);
    if token == "--" {
      assert token[0] == '-' && |token| == 2;
    }
  }

  /** The two lists go together. */
  ghost predicate Matching(o: seq<(string, string)>, p: seq<Opt>, kind: string -> Kind) {
    |o| == |p| && forall i :: 0 <= i < |o| ==> p[i] == Opt(kind(o[i].0), o[i].1)
  }

  lemma {:induction false} MatchingCons(a: (string, string), o: seq<(string, string)>, p: seq<Opt>, kind: string -> Kind)
    requires Matching(o, p, kind)
    ensures Matching([a] + o, [Opt(kind(a.0), a.1)] + p, kind)
  {
  }

  lemma {:induction false} OptionsOpts(args: seq<string>)
    ensures Matching(Options(args), Opts(args), KindOf)
    decreases |args|
  {
    if args != [] {
      var k := KindOf(args[0]);
      SameSplit(args[0]);
      if !StartsClient(k) && !(TakesValue(k) && |args| == 1) {
        var n := Length(k, args);
        OptionsOpts(args[n..]);
        MatchingCons((args[0], args[n - 1]), Options(args[n..]), Opts(args[n..]), KindOf);
      }
    }
  }

  lemma {:induction false} NamedOfKind(o: seq<(string, string)>, p: seq<Opt>, kind: string -> Kind, name: string, k: Kind)
    requires Matching(o, p, kind) && forall token :: kind(token) == k <==> token == name
    ensures Named(o, name) <==> OfKind(p, k)
    decreases |o|
  {
    if o != [] {
      NamedOfKind(o[1..], p[1..], kind, name, k);
    }
  }

  lemma {:induction false} ValueOfKind(o: seq<(string, string)>, p: seq<Opt>, kind: string -> Kind, name: string, k: Kind)
    requires Matching(o, p, kind) && forall token :: kind(token) == k <==> token == name
    ensures LastValue(o, name) == LastOf(p, Just(k))
    decreases |o|
  {
    if o != [] {
      ValueOfKind(o[1..], p[1..], kind, name, k);
    }
  }

  lemma {:induction false} ServerOfKind(o: seq<(string, string)>, p: seq<Opt>, kind: string -> Kind)
    requires Matching(o, p, kind)
    requires forall token :: kind(token) == Server || kind(token) == BareServer <==> token == "--server" || "0x" <= token
    ensures LastServer(o) == LastOf(p, AnyServer())
    decreases |o|
  {
    if o != [] {
      ServerOfKind(o[1..], p[1..], kind);
    }
  }

  lemma {:induction false} FlagNames(o: seq<(string, string)>, p: seq<Opt>)
    requires Matching(o, p, KindOf)
    ensures && (Named(o, "-ForceV1") <==> OfKind(p, ForceV1)) && (Named(o, "-ForceNoHandoff") <==> OfKind(p, ForceNoHandoff))
            && (Named(o, "-Embedding") <==> OfKind(p, ComServer)) && (Named(o, "--headless") <==> OfKind(p, Headless))
            && (Named(o, "--inheritcursor") <==> OfKind(p, InheritCursor))
            && (Named(o, "--ambiguousIsWide") <==> OfKind(p, AmbiguousIsWide))
  {
    forall token {
      FlagFromText(token);
    }
    NamedOfKind(o, p, KindOf, "-ForceV1", ForceV1);
    NamedOfKind(o, p, KindOf, "-ForceNoHandoff", ForceNoHandoff);
    NamedOfKind(o, p, KindOf, "-Embedding", ComServer);
    NamedOfKind(o, p, KindOf, "--headless", Headless);
    NamedOfKind(o, p, KindOf, "--inheritcursor", InheritCursor);
    NamedOfKind(o, p, KindOf, "--ambiguousIsWide", AmbiguousIsWide);
  }

  lemma {:induction false} ValueNames(o: seq<(string, string)>, p: seq<Opt>)
    requires Matching(o, p, KindOf)
    ensures && LastValue(o, "--width") == LastOf(p, Just(Width)) && LastValue(o, "--height") == LastOf(p, Just(Height))
            && LastValue(o, "--signal") == LastOf(p, Just(Signal))
            && LastValue(o, "--textMeasurement") == LastOf(p, Just(TextMeasurement)) && LastServer(o) == LastOf(p, AnyServer())
    ensures forall i :: 0 <= i < |o| ==> (o[i].0 == "--feature" <==> p[i].kind == Feature)
  {
    forall token {
      KindFromText(token);
    }
    ValueOfKind(o, p, KindOf, "--width", Width);
    ValueOfKind(o, p, KindOf, "--height", Height);
    ValueOfKind(o, p, KindOf, "--signal", Signal);
    ValueOfKind(o, p, KindOf, "--textMeasurement", TextMeasurement);
    ServerOfKind(o, p, KindOf);
  }

  lemma {:induction false} OthersAreClient(args: seq<string>, s: Settings, t: Settings)
    requires Parse(args, s) == Some(t)
    ensures var rest := Others(args);
      if rest == [] then t.clientCommandline == s.clientCommandline
      else Split(t.clientCommandline, Between) == if rest[0] == "--" then rest[1..] else rest
    decreases |args|
  {
    if args != [] {
      var k := KindOf(args[0]);
      SameSplit(args[0]);
      if StartsClient(k) {
        SplitJoined(ClientTokens(k, args));
      } else {
        var next := AcceptedStep(args, s, t);
        OthersAreClient(args[Length(k, args)..], next, t);
      }
    }
  }

  /** The settings of an accepted line are those that its tokens set; the other tokens are the client's. */
  ghost predicate LineSets(args: seq<string>, s: Settings, t: Settings) {
    && FlagsSet(Options(args), s, t) && ValuesSet(Options(args), s, t)
    && var rest := Others(args);
       if rest == [] then t.clientCommandline == s.clientCommandline
       else Split(t.clientCommandline, Between) == if rest[0] == "--" then rest[1..] else rest
  }

  lemma {:induction false} AcceptedSets(args: seq<string>, s: Settings, t: Settings)
    requires Parse(args, s) == Some(t)
    ensures LineSets(args, s, t)
  {
    var t0, o, p := t.(clientCommandline := s.clientCommandline), Options(args), Opts(args);
    ParseApplies(args, s, t);
    OptionsOpts(args);
    FlagsAreSet(p, s, t0);
    LooksAreSet(p, s, t0);
    FlagNames(o, p);
    ValuesAreSet(p, s, t0);
    HandlesAreSet(p, s, t0);
    ValueNames(o, p);
    OthersAreClient(args, s, t);
  }

  // ----- which lines are accepted

  /** The last own token should have a value and has none. */
  predicate Lacking(args: seq<string>) {
    if args == [] then false
    else if NamesValue(args[0]) then |args| == 1 || Lacking(args[2..])
    else if NamesFlag(args[0]) || "0x" <= args[0] || "\\??\\" <= args[0] then Lacking(args[1..])
    else false
  }

  predicate IsServer(o: (string, string)) {
    o.0 == "--server" || "0x" <= o.0
  }

  predicate IsSignal(o: (string, string)) {
    o.0 == "--signal"
  }

  /** A value that the token takes: a handle with its prefix that is not 0, a number up to 32767, the only feature. */
  predicate GoodValue(o: (string, string)) {
    && (IsServer(o) || IsSignal(o) ==> HandleNumber(o.1) != 0)
    && (o.0 == "--width" || o.0 == "--height" ==> var r := Stoi(o.1); r.Some? && r.value.0 <= 32767 && r.value.1 == |o.1|)
    && (o.0 == "--feature" ==> o.1 == "pty")
  }

  function HowMany(opts: seq<(string, string)>, which: ((string, string)) -> bool): nat {
    if opts == [] then 0 else (if which(opts[0]) then 1 else 0) + HowMany(opts[1..], which)
  }

  predicate AllGood(opts: seq<(string, string)>) {
    forall i :: 0 <= i < |opts| ==> GoodValue(opts[i])
  }

  /** Every own token has a value that it takes, and no handle is given twice. */
  ghost predicate Acceptable(args: seq<string>, s: Settings) {
    && !Lacking(args) && AllGood(Options(args))
    && Given(s.serverHandle) + HowMany(Options(args), IsServer) <= 1
    && Given(s.signalHandle) + HowMany(Options(args), IsSignal) <= 1
  }

  lemma {:induction false} AcceptedIff(args: seq<string>, s: Settings)
    ensures Parse(args, s).Some? <==> Acceptable(args, s)
    decreases |args|
  {
    if args != [] {
      var k := KindOf(args[0]);
      SameSplit(args[0]);
      if !StartsClient(k) && !(TakesValue(k) && |args| == 1) {
        var n := Length(k, args);
        var o, more := (args[0], args[n - 1]), Options(args[n..]);
        assert Options(args) == [o] + more;
        OneMore(o, more);
        AppliedIff(o, s);
        if Applied(k, o.1, s).Some? {
          AcceptedIff(args[n..], Applied(k, o.1, s).value);
        }
      }
    }
  }

  lemma {:induction false} OneMore(o: (string, string), more: seq<(string, string)>)
    ensures AllGood([o] + more) <==> GoodValue(o) && AllGood(more)
    ensures HowMany([o] + more, IsServer) == (if IsServer(o) then 1 else 0) + HowMany(more, IsServer)
    ensures HowMany([o] + more, IsSignal) == (if IsSignal(o) then 1 else 0) + HowMany(more, IsSignal)
  {
    var all := [o] + more;
    assert all[0] == o && all[1..] == more;
    assert AllGood(all) ==> AllGood(more) by {
      if AllGood(all) {
        forall i | 0 <= i < |more| ensures GoodValue(more[i]) {
          assert more[i] == all[i + 1];
        }
      }
    }
  }

  lemma {:induction false} AppliedIff(o: (string, string), s: Settings)
    requires !StartsClient(KindOf(o.0))
    ensures var r := Applied(KindOf(o.0), o.1, s);
      && (r.Some? <==> GoodValue(o) && (IsServer(o) ==> s.serverHandle == 0) && (IsSignal(o) ==> s.signalHandle == 0))
      && (r.Some? ==> && Given(r.value.serverHandle) == Given(s.serverHandle) + (if IsServer(o) then 1 else 0)
                      && Given(r.value.signalHandle) == Given(s.signalHandle) + (if IsSignal(o) then 1 else 0))
  {
    KindFromText(o.0);
    KindAppliedIff(KindOf(o.0), o.1, s);
  }

  lemma {:induction false} KindAppliedIff(k: Kind, v: string, s: Settings)
    requires !StartsClient(k)
    ensures var r := Applied(k, v, s); var server, signal := k.Server? || k.BareServer?, k.Signal?;
      && (r.Some? <==> && (server ==> HandleNumber(v) != 0 && s.serverHandle == 0)
                       && (signal ==> HandleNumber(v) != 0 && s.signalHandle == 0)
                       && (k.Width? || k.Height? ==> var n := Stoi(v); n.Some? && n.value.0 <= 32767 && n.value.1 == |v|)
                       && (k.Feature? ==> v == "pty"))
      && (r.Some? ==> && Given(r.value.serverHandle) == Given(s.serverHandle) + (if server then 1 else 0)
                      && Given(r.value.signalHandle) == Given(s.signalHandle) + (if signal then 1 else 0))
  {
    match k
    case BareServer =>
    case Server =>
    case Signal =>
    case Width =>
    case Height =>
    case Feature =>
    case _ =>
  }

  // ----- the line that starts a pseudoconsole host

  datatype Launch = Launch(
    inheritCursor: bool,
    ambiguousIsWide: bool,
    textMeasurement: string,
    width: int,
    height: int,
    signal: nat,
    server: nat)

  /** The line that is printed for a launch: the options up to the sizes are each followed by a blank. */
  function Printed(path: string, l: Launch): string {
    "\"" + path + "\"" + " " + PrintedOptions(l) + PrintedValues(l)
  }

  function PrintedOptions(l: Launch): string {
    "--headless "
    + (if l.inheritCursor then "--inheritcursor " else "")
    + (if l.ambiguousIsWide then "--ambiguousIsWide " else "")
    + (if l.textMeasurement == "" then "" else "--textMeasurement " + l.textMeasurement + " ")
  }

  function PrintedValues(l: Launch): string {
    InLine("--width", Decimal(l.width), InLine("--height", Decimal(l.height),
      InLine("--signal", "0x" + Numeral(l.signal, 16), "--server" + " " + ("0x" + Numeral(l.server, 16)))))
  }

  function InLine(option: string, value: string, rest: string): string {
    option + " " + value + " " + rest
  }

  /** A token that needs no escaping. */
  predicate Plain(token: string) {
    token != "" && forall i :: 0 <= i < |token| ==> !Blank(token[i]) && token[i] != QUOTE && token[i] != BS
  }

  function Spaced(tokens: seq<string>): string {
    if tokens == [] then "" else " " + tokens[0] + Spaced(tokens[1..])
  }

  /** Plain tokens that each follow a blank are split as they are. */
  lemma {:induction false} SplitSpaced(tokens: seq<string>)
    requires forall i :: 0 <= i < |tokens| ==> Plain(tokens[i])
    ensures Split(Spaced(tokens), Between) == tokens
  {
    if tokens != [] {
      var token, rest := tokens[0], Spaced(tokens[1..]);
      var s := Spaced(tokens);
      assert s == [' '] + (token + rest) && s[1..] == token + rest;
      PlainBody(token, 0);
      assert !HasBlank(token);
      ReadArgument(token, rest);
      SplitSpaced(tokens[1..]);
      if |tokens| > 1 {
        assert rest[0] == ' ';
        assert Split(rest, Between) == Split(rest[1..], Between);
      }
    }
  }

  function Optional(given: bool, tokens: seq<string>): seq<string> {
    if given then tokens else []
  }

  function OptionTokens(l: Launch): seq<string> {
    ["--headless"] + Optional(l.inheritCursor, ["--inheritcursor"]) + Optional(l.ambiguousIsWide, ["--ambiguousIsWide"])
    + Optional(l.textMeasurement != "", ["--textMeasurement", l.textMeasurement])
  }

  function ValueTokens(l: Launch): seq<string> {
    ["--width", Decimal(l.width)] + (["--height", Decimal(l.height)]
    + (["--signal", "0x" + Numeral(l.signal, 16)] + ["--server", "0x" + Numeral(l.server, 16)]))
  }

  lemma {:induction false} SpacedJoin(a: seq<string>, b: seq<string>)
    ensures Spaced(a + b) == Spaced(a) + Spaced(b)
    decreases |a|
  {
    if a == [] {
      assert a + b == b;
    } else {
      assert (a + b)[0] == a[0] && (a + b)[1..] == a[1..] + b;
      SpacedJoin(a[1..], b);
    }
  }

  /** The text is the tokens, each followed by a blank. */
  ghost predicate Trailed(text: string, tokens: seq<string>) {
    " " + text == Spaced(tokens) + " "
  }

  lemma {:induction false} TrailedJoin(p: string, t: seq<string>, q: string, u: seq<string>)
    requires Trailed(p, t) && Trailed(q, u)
    ensures Trailed(p + q, t + u)
  {
    SpacedJoin(t, u);
    calc {
      " " + (p + q);
      (" " + p) + q;
      Spaced(t) + " " + q;
      Spaced(t) + (" " + q);
      Spaced(t) + (Spaced(u) + " ");
      Spaced(t) + Spaced(u) + " ";
    }
  }

  lemma {:induction false} TrailedOne(p: string)
    ensures Trailed(p + " ", [p])
  {
    assert [p][1..] == [];
  }

  lemma {:induction false} TrailedPair(p: string, q: string)
    ensures Trailed(p + " " + q + " ", [p, q])
  {
    TrailedOne(p);
    TrailedOne(q);
    TrailedJoin(p + " ", [p], q + " ", [q]);
    assert p + " " + (q + " ") == p + " " + q + " " && [p] + [q] == [p, q];
  }

  lemma {:induction false} OptionsTrailed(l: Launch)
    ensures Trailed(PrintedOptions(l), OptionTokens(l))
  {
    var a, b, c := Optional(l.inheritCursor, ["--inheritcursor"]), Optional(l.ambiguousIsWide, ["--ambiguousIsWide"]),
      Optional(l.textMeasurement != "", ["--textMeasurement", l.textMeasurement]);
    var p, q := if l.inheritCursor then "--inheritcursor " else "", if l.ambiguousIsWide then "--ambiguousIsWide " else "";
    var r := if l.textMeasurement == "" then "" else "--textMeasurement " + l.textMeasurement + " ";
    TrailedOne("--headless");
    TrailedOne("--inheritcursor");
    TrailedOne("--ambiguousIsWide");
    TrailedPair("--textMeasurement", l.textMeasurement);
    assert Trailed("", []);
    TrailedJoin("--headless ", ["--headless"], p, a);
    TrailedJoin("--headless " + p, ["--headless"] + a, q, b);
    TrailedJoin("--headless " + p + q, ["--headless"] + a + b, r, c);
  }

  lemma {:induction false} ValuesSpaced(l: Launch)
    ensures " " + PrintedValues(l) == Spaced(ValueTokens(l))
  {
    var s, t := "0x" + Numeral(l.signal, 16), "0x" + Numeral(l.server, 16);
    var server := ["--server", t];
    SpacedPair("--server", t);
    var rest := "--server" + " " + t;
    assert " " + rest == " " + "--server" + " " + t;
    SpacedInLine("--signal", s, rest, server);
    SpacedInLine("--height", Decimal(l.height), InLine("--signal", s, rest), ["--signal", s] + server);
    SpacedInLine("--width", Decimal(l.width), InLine("--height", Decimal(l.height), InLine("--signal", s, rest)),
                 ["--height", Decimal(l.height)] + (["--signal", s] + server));
  }

  lemma {:induction false} SpacedPair(p: string, q: string)
    ensures Spaced([p, q]) == " " + p + " " + q
  {
    assert [p, q][1..] == [q] && [q][1..] == [];
    assert Spaced([q]) == " " + q + "";
    assert " " + p + (" " + q) == " " + p + " " + q;
  }

  lemma {:induction false} SpacedInLine(p: string, q: string, rest: string, tokens: seq<string>)
    requires " " + rest == Spaced(tokens)
    ensures " " + InLine(p, q, rest) == Spaced([p, q] + tokens)
  {
    SpacedPair(p, q);
    SpacedJoin([p, q], tokens);
    assert " " + (p + " " + q + " " + rest) == " " + p + " " + q + (" " + rest);
  }

  /** The printed line is the quoted path, and then the tokens, each after a blank. */
  lemma {:induction false} PrintedTokens(path: string, l: Launch)
    ensures Printed(path, l) == "\"" + path + "\"" + Spaced(OptionTokens(l) + ValueTokens(l))
  {
    OptionsTrailed(l);
    ValuesSpaced(l);
    SpacedJoin(OptionTokens(l), ValueTokens(l));
    TrailedThen("\"" + path + "\"", PrintedOptions(l), OptionTokens(l), PrintedValues(l));
  }

  lemma {:induction false} TrailedThen(front: string, p: string, t: seq<string>, q: string)
    requires Trailed(p, t)
    ensures front + " " + p + q == front + (Spaced(t) + (" " + q))
  {
    calc {
      front + " " + p + q;
      front + (" " + p) + q;
      front + (Spaced(t) + " ") + q;
      front + (Spaced(t) + (" " + q));
    }
  }

  // ----- reading it back

  ghost predicate AllPlain(tokens: seq<string>) {
    forall i :: 0 <= i < |tokens| ==> Plain(tokens[i])
  }

  lemma {:induction false} PlainNumeral(n: nat, base: nat)
    requires base == 10 || base == 16
    ensures Plain(Numeral(n, base))
  {
    NumeralValue(n, base);
    forall i | 0 <= i < |Numeral(n, base)|
      ensures var c := Numeral(n, base)[i]; !Blank(c) && c != QUOTE && c != BS
    {
      assert DigitIn(Numeral(n, base)[i], base);
    }
  }

  lemma {:induction false} PlainJoin(a: string, b: string)
    requires Plain(a) && Plain(b)
    ensures Plain(a + b)
  {
  }

  lemma {:induction false} PlainDecimal(n: int)
    ensures Plain(Decimal(n))
  {
    PlainNumeral(if n < 0 then -n else n, 10);
    assert Plain("-");
  }

  lemma {:induction false} PlainHex(n: nat)
    ensures Plain("0x" + Numeral(n, 16))
  {
    PlainNumeral(n, 16);
    assert Plain("0x");
    PlainJoin("0x", Numeral(n, 16));
  }

  lemma {:induction false} PlainNames()
    ensures Plain("--headless") && Plain("--inheritcursor") && Plain("--ambiguousIsWide") && Plain("--textMeasurement")
    ensures Plain("--width") && Plain("--height") && Plain("--signal") && Plain("--server")
  {
  }

  lemma {:induction false} LaunchPlain(l: Launch)
    requires l.textMeasurement == "" || Plain(l.textMeasurement)
    ensures AllPlain(OptionTokens(l) + ValueTokens(l))
  {
    OptionsPlain(l);
    ValuesPlain(l);
    AllPlainJoin(OptionTokens(l), ValueTokens(l));
  }

  lemma {:induction false} PlainPair(a: string, b: string)
    requires Plain(a) && Plain(b)
    ensures AllPlain([a, b])
  {
  }

  lemma {:induction false} AllPlainJoin(a: seq<string>, b: seq<string>)
    requires AllPlain(a) && AllPlain(b)
    ensures AllPlain(a + b)
  {
  }

  lemma {:induction false} OptionsPlain(l: Launch)
    requires l.textMeasurement == "" || Plain(l.textMeasurement)
    ensures AllPlain(OptionTokens(l))
  {
    PlainNames();
    var a, b := Optional(l.inheritCursor, ["--inheritcursor"]), Optional(l.ambiguousIsWide, ["--ambiguousIsWide"]);
    if l.textMeasurement != "" {
      PlainPair("--textMeasurement", l.textMeasurement);
    }
    AllPlainJoin(["--headless"], a);
    AllPlainJoin(["--headless"] + a, b);
    AllPlainJoin(["--headless"] + a + b, Optional(l.textMeasurement != "", ["--textMeasurement", l.textMeasurement]));
  }

  lemma {:induction false} ValuesPlain(l: Launch)
    ensures AllPlain(ValueTokens(l))
  {
    PlainNames();
    PlainDecimal(l.width);
    PlainDecimal(l.height);
    PlainHex(l.signal);
    PlainHex(l.server);
    var w, h := ["--width", Decimal(l.width)], ["--height", Decimal(l.height)];
    var g, v := ["--signal", "0x" + Numeral(l.signal, 16)], ["--server", "0x" + Numeral(l.server, 16)];
    PlainPair("--width", Decimal(l.width));
    PlainPair("--height", Decimal(l.height));
    PlainPair("--signal", "0x" + Numeral(l.signal, 16));
    PlainPair("--server", "0x" + Numeral(l.server, 16));
    AllPlainJoin(g, v);
    AllPlainJoin(h, g + v);
    AllPlainJoin(w, h + (g + v));
  }

  lemma {:induction false} KindHeadless()
    ensures KindOf("--headless") == Headless
  {
    var t := "--headless";
    assert t[0] == '-' && t[2] == 'h' && t[3] == 'e';
  }

  lemma {:induction false} KindInheritCursor()
    ensures KindOf("--inheritcursor") == InheritCursor
  {
    var t := "--inheritcursor";
    assert t[0] == '-' && t[2] == 'i' && t[3] == 'n';
  }

  lemma {:induction false} KindAmbiguousIsWide()
    ensures KindOf("--ambiguousIsWide") == AmbiguousIsWide
  {
    var t := "--ambiguousIsWide";
    assert t[0] == '-' && t[2] == 'a' && t[3] == 'm';
  }

  lemma {:induction false} KindTextMeasurement()
    ensures KindOf("--textMeasurement") == TextMeasurement
  {
    var t := "--textMeasurement";
    assert t[0] == '-' && t[2] == 't' && t[3] == 'e';
  }

  lemma {:induction false} KindWidth()
    ensures KindOf("--width") == Width
  {
    var t := "--width";
    assert t[0] == '-' && t[2] == 'w' && t[3] == 'i';
  }

  lemma {:induction false} KindHeight()
    ensures KindOf("--height") == Height
  {
    var t := "--height";
    assert t[0] == '-' && t[2] == 'h' && t[3] == 'e';
  }

  lemma {:induction false} KindSignal()
    ensures KindOf("--signal") == Signal
  {
    var t := "--signal";
    assert t[0] == '-' && t[2] == 's' && t[3] == 'i';
  }

  lemma {:induction false} KindServer()
    ensures KindOf("--server") == Server
  {
    var t := "--server";
    assert t[0] == '-' && t[2] == 's' && t[3] == 'e';
  }

  lemma {:induction false} ParseFlag(given: bool, token: string, k: Kind, rest: seq<string>, s: Settings)
    requires KindOf(token) == k && !StartsClient(k) && !TakesValue(k) && !k.BareServer?
    ensures Parse(Optional(given, [token]) + rest, s) == Parse(rest, if given then Applied(k, token, s).value else s)
  {
    if given {
      assert ([token] + rest)[1..] == rest;
    } else {
      assert [] + rest == rest;
    }
  }

  lemma {:induction false} ParseValue(given: bool, token: string, k: Kind, value: string, rest: seq<string>, s: Settings)
    requires KindOf(token) == k && TakesValue(k)
    ensures var next := Applied(k, value, s);
      Parse(Optional(given, [token, value]) + rest, s)
      == if !given then Parse(rest, s) else if next.None? then None else Parse(rest, next.value)
  {
    if given {
      assert ([token, value] + rest)[2..] == rest;
    } else {
      assert [] + rest == rest;
    }
  }

  lemma {:induction false} ParseOptions(l: Launch, rest: seq<string>)
    ensures Parse(OptionTokens(l) + rest, DEFAULTS)
         == Parse(rest, DEFAULTS.(headless := true, inheritCursor := l.inheritCursor, ambiguousIsWide := l.ambiguousIsWide,
                                  textMeasurement := l.textMeasurement))
  {
    var h, a, b := Optional(true, ["--headless"]), Optional(l.inheritCursor, ["--inheritcursor"]),
      Optional(l.ambiguousIsWide, ["--ambiguousIsWide"]);
    var c := Optional(l.textMeasurement != "", ["--textMeasurement", l.textMeasurement]);
    Regroup(h, a, b, c, rest);
    KindHeadless();
    KindInheritCursor();
    KindAmbiguousIsWide();
    KindTextMeasurement();
    var s1 := DEFAULTS.(headless := true);
    var s2 := s1.(inheritCursor := l.inheritCursor);
    var s3 := s2.(ambiguousIsWide := l.ambiguousIsWide);
    ParseFlag(true, "--headless", Headless, a + (b + (c + rest)), DEFAULTS);
    ParseFlag(l.inheritCursor, "--inheritcursor", InheritCursor, b + (c + rest), s1);
    ParseFlag(l.ambiguousIsWide, "--ambiguousIsWide", AmbiguousIsWide, c + rest, s2);
    ParseValue(l.textMeasurement != "", "--textMeasurement", TextMeasurement, l.textMeasurement, rest, s3);
  }

  lemma {:induction false} Regroup<T>(a: seq<T>, b: seq<T>, c: seq<T>, d: seq<T>, e: seq<T>)
    ensures a + b + c + d + e == a + (b + (c + (d + e)))
  {
  }

  function Clamped(handle: nat): nat {
    if handle <= 0xFFFF_FFFF then handle else 0xFFFF_FFFF
  }

  lemma {:induction false} HandleBack(h: nat)
    ensures HandleOf("0x" + Numeral(h, 16), 0) == Clamped(h)
  {
    WcstoulHex(h);
  }

  lemma {:induction false} SizeBack(n: int)
    requires -0x8000 <= n < 0x8000
    ensures SizeOf(Decimal(n)) == Some(n)
  {
    StoiDecimal(n);
  }

  lemma {:induction false} ParseSizes(width: int, height: int, rest: seq<string>, s: Settings)
    requires -0x8000 <= width < 0x8000 && -0x8000 <= height < 0x8000
    ensures Parse(["--width", Decimal(width)] + (["--height", Decimal(height)] + rest), s)
         == Parse(rest, s.(width := width, height := height))
  {
    ParseWidth(width, ["--height", Decimal(height)] + rest, s);
    ParseHeight(height, rest, s.(width := width));
  }

  lemma {:induction false} ParseWidth(width: int, rest: seq<string>, s: Settings)
    requires -0x8000 <= width < 0x8000
    ensures Parse(["--width", Decimal(width)] + rest, s) == Parse(rest, s.(width := width))
  {
    SizeBack(width);
    KindWidth();
    ParseValue(true, "--width", Width, Decimal(width), rest, s);
  }

  lemma {:induction false} ParseHeight(height: int, rest: seq<string>, s: Settings)
    requires -0x8000 <= height < 0x8000
    ensures Parse(["--height", Decimal(height)] + rest, s) == Parse(rest, s.(height := height))
  {
    SizeBack(height);
    KindHeight();
    ParseValue(true, "--height", Height, Decimal(height), rest, s);
  }

  lemma {:induction false} ParseHandles(signal: nat, server: nat, s: Settings)
    requires s.signalHandle == s.serverHandle == 0
    ensures Parse(["--signal", "0x" + Numeral(signal, 16)] + ["--server", "0x" + Numeral(server, 16)], s) ==
      if signal == 0 || server == 0 then None
      else Some(s.(signalHandle := Clamped(signal), serverHandle := Clamped(server), createServerHandle := false))
  {
    HandleBack(signal);
    HandleBack(server);
    KindSignal();
    KindServer();
    var last := ["--server", "0x" + Numeral(server, 16)];
    ParseValue(true, "--signal", Signal, "0x" + Numeral(signal, 16), last, s);
    ParseValue(true, "--server", Server, last[1], [], s.(signalHandle := Clamped(signal)));
    assert last + [] == last;
  }

  lemma {:induction false} ParseValues(l: Launch, s: Settings)
    requires -0x8000 <= l.width < 0x8000 && -0x8000 <= l.height < 0x8000 && s.signalHandle == s.serverHandle == 0
    ensures Parse(ValueTokens(l), s) ==
      if l.signal == 0 || l.server == 0 then None
      else Some(s.(width := l.width, height := l.height, signalHandle := Clamped(l.signal),
                   serverHandle := Clamped(l.server), createServerHandle := false))
  {
    ParseSizes(l.width, l.height, ["--signal", "0x" + Numeral(l.signal, 16)] + ["--server", "0x" + Numeral(l.server, 16)], s);
    ParseHandles(l.signal, l.server, s.(width := l.width, height := l.height));
  }

  /** The settings that a launch asks for. */
  function Launched(l: Launch): Settings {
    Settings("", l.textMeasurement, l.ambiguousIsWide, false, false, true, l.width, l.height, false, false,
             l.server, l.signal, l.inheritCursor)
  }

  lemma {:induction false} AfterPath(path: string, rest: string)
    requires forall i :: 0 <= i < |path| ==> path[i] != QUOTE
    ensures After(path + "\"" + rest, QUOTE) == rest
  {
    var s := path + "\"" + rest;
    if path == "" {
      assert s[1..] == rest;
    } else {
      assert s[1..] == path[1..] + "\"" + rest;
      AfterPath(path[1..], rest);
    }
  }

  lemma {:induction false} PrintedSplits(path: string, l: Launch)
    requires forall i :: 0 <= i < |path| ==> path[i] != QUOTE
    requires l.textMeasurement == "" || Plain(l.textMeasurement)
    ensures Tokens(Printed(path, l)) == OptionTokens(l) + ValueTokens(l)
  {
    PrintedTokens(path, l);
    LaunchPlain(l);
    QuotedSplits(path, OptionTokens(l) + ValueTokens(l));
  }

  lemma {:induction false} QuotedSplits(path: string, tokens: seq<string>)
    requires (forall i :: 0 <= i < |path| ==> path[i] != QUOTE) && AllPlain(tokens)
    ensures Tokens("\"" + path + "\"" + Spaced(tokens)) == tokens
  {
    SplitSpaced(tokens);
    AfterPath(path, Spaced(tokens));
    var line := "\"" + path + "\"" + Spaced(tokens);
    assert line[1..] == path + "\"" + Spaced(tokens);
  }

  /** A pseudoconsole host is given exactly the settings it was launched with, if and only if both handles are
      not zero and fit 32 bits. */
  lemma {:induction false} LaunchReadBackIff(path: string, l: Launch)
    requires forall i :: 0 <= i < |path| ==> path[i] != QUOTE
    requires l.textMeasurement == "" || Plain(l.textMeasurement)
    requires -0x8000 <= l.width < 0x8000 && -0x8000 <= l.height < 0x8000
    ensures Parse(Tokens(Printed(path, l)), DEFAULTS) == Some(Launched(l))
      <==> 0 < l.signal <= 0xFFFF_FFFF && 0 < l.server <= 0xFFFF_FFFF
  {
    PrintedSplits(path, l);
    ParseOptions(l, ValueTokens(l));
    ParseValues(l, DEFAULTS.(headless := true, inheritCursor := l.inheritCursor, ambiguousIsWide := l.ambiguousIsWide,
                             textMeasurement := l.textMeasurement));
  }
}
