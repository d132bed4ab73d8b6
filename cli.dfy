/** The `pr1` command line: the arguments are classified into an entry, a build flag, a port and a
    configuration path; the configuration is the one named on the command line or the default
    file next to the nearest `package.json`; then the command either builds or serves. */
module Cli {
  import opened Outcomes
  import opened Text
  import opened Paths
  import opened FileSystem

  /** The module variables the argument loop fills in. */
  datatype Args = Args(entry: string, port: string, isBuild: bool, configPath: string)

  const DefaultPort := "8686"

  /** `entry`, `port`, `isBuild` and `configPath` before the loop runs. */
  const Initial := Args("", DefaultPort, false, "")

  /** The branch of the `if` chain an argument takes. */
  datatype Rule = HtmlEntry | BuildFlag | Port | ConfigOption | Ignored

  const ConfigOptionPrefix := "--config="

  /** The first test an argument passes: ends in `.html`, is `build`, is all digits, or starts
      with `--config=`. */
  function RuleOf(p: string): (r: Rule)
    ensures r == HtmlEntry <==> EndsWith(p, ".html")
    ensures r == BuildFlag <==> !EndsWith(p, ".html") && p == "build"
    ensures r == Port <==> !EndsWith(p, ".html") && p != "build" && IsDigits(p)
    ensures r == ConfigOption <==> !EndsWith(p, ".html") && p != "build" && !IsDigits(p) && StartsWith(p, ConfigOptionPrefix)
  {
    if EndsWith(p, ".html") then HtmlEntry
    else if p == "build" then BuildFlag
    else if IsDigits(p) then Port
    else if StartsWith(p, ConfigOptionPrefix) then ConfigOption
    else Ignored
  }

  /** `p.split('=')[1].replace(/^('|")|\1$/g, '')`: the text between the first and the second
      `=`, less one leading quote. In the second alternative the group has not taken part, so
      `\1` matches the empty string and a trailing quote stays. */
  function ConfigPathOf(p: string): (r: string)
    requires StartsWith(p, ConfigOptionPrefix)
    ensures var field := SecondField(p, '=');
            if field != [] && (field[0] == '\'' || field[0] == '"') then r == field[1..] else r == field
  {
    assert p[8] == '=';
    var field := SecondField(p, '=');
    if field != [] && (field[0] == '\'' || field[0] == '"') then field[1..] else field
  }

  /** One turn of the `process.argv.forEach` callback. */
  function Classify(a: Args, p: string): Args
  {
    match RuleOf(p)
    case HtmlEntry => a.(entry := p)
    case BuildFlag => a.(isBuild := true)
    case Port => a.(port := p)
    case ConfigOption => a.(configPath := ConfigPathOf(p))
    case Ignored => a
  }

  /** The variables after the callback ran over `argv` from the first argument to the last. */
  function ClassifyAll(argv: seq<string>): Args
    decreases |argv|
  {
    if argv == [] then Initial else Classify(ClassifyAll(argv[..|argv| - 1]), argv[|argv| - 1])
  }

  /** `process.argv.forEach(...)` as the script runs it. */
  method ParseArgs(argv: seq<string>) returns (a: Args)
    ensures a == ClassifyAll(argv)
  {
    var entry, port, isBuild, configPath := "", DefaultPort, false, "";
    var i := 0;
    while i < |argv|
      invariant i <= |argv|
      invariant Args(entry, port, isBuild, configPath) == ClassifyAll(argv[..i])
    {
      var p := argv[i];
      assert argv[..i + 1][..i] == argv[..i];
      if EndsWith(p, ".html") {
        entry := p;
      } else if p == "build" {
        isBuild := true;
      } else if IsDigits(p) {
        port := p;
      } else if StartsWith(p, ConfigOptionPrefix) {
        configPath := ConfigPathOf(p);
      }
      i := i + 1;
    }
    assert argv[..i] == argv;
    a := Args(entry, port, isBuild, configPath);
  }

  /** `k` is the last argument that takes branch `rule`. */
  ghost predicate LastWith(argv: seq<string>, rule: Rule, k: int)
  {
    0 <= k < |argv| && RuleOf(argv[k]) == rule && forall j :: k < j < |argv| ==> RuleOf(argv[j]) != rule
  }

  /** No argument takes branch `rule`. */
  ghost predicate NoneWith(argv: seq<string>, rule: Rule)
  {
    forall j :: 0 <= j < |argv| ==> RuleOf(argv[j]) != rule
  }

  /** The variable a branch sets; `isBuild` is not a string and has a lemma of its own. */
  function Field(a: Args, rule: Rule): string
    requires rule in {HtmlEntry, Port, ConfigOption}
  {
    match rule
    case HtmlEntry => a.entry
    case Port => a.port
    case ConfigOption => a.configPath
  }

  /** The value a branch stores for argument `p`. */
  function Setting(rule: Rule, p: string): string
    requires rule in {HtmlEntry, Port, ConfigOption} && RuleOf(p) == rule
  {
    if rule == ConfigOption then ConfigPathOf(p) else p
  }

  /** One turn of the callback changes only the variable of the argument's branch. */
  lemma ClassifyStep(a: Args, p: string, rule: Rule)
    requires rule in {HtmlEntry, Port, ConfigOption}
    ensures Field(Classify(a, p), rule) == if RuleOf(p) == rule then Setting(rule, p) else Field(a, rule)
    ensures Classify(a, p).isBuild == (a.isBuild || RuleOf(p) == BuildFlag)
  {
  }

  /** The last argument of a kind before the final one is still the last in the prefix. */
  lemma LastWithInit(argv: seq<string>, rule: Rule, k: int)
    requires LastWith(argv, rule, k) && k < |argv| - 1
    ensures LastWith(argv[..|argv| - 1], rule, k)
  {
    assert forall j :: k <= j < |argv| - 1 ==> argv[..|argv| - 1][j] == argv[j];
  }

  lemma NoneWithInit(argv: seq<string>, rule: Rule)
    requires argv != [] && NoneWith(argv, rule)
    ensures NoneWith(argv[..|argv| - 1], rule)
  {
    assert forall j :: 0 <= j < |argv| - 1 ==> argv[..|argv| - 1][j] == argv[j];
  }

  /** A variable is set by the last argument of its kind, whatever comes between. */
  lemma {:induction false} LastArgumentWins(argv: seq<string>, rule: Rule, k: int)
    requires rule in {HtmlEntry, Port, ConfigOption} && LastWith(argv, rule, k)
    decreases |argv|
    ensures Field(ClassifyAll(argv), rule) == Setting(rule, argv[k])
  {
    var n := |argv| - 1;
    var init := argv[..n];
    assert ClassifyAll(argv) == Classify(ClassifyAll(init), argv[n]);
    ClassifyStep(ClassifyAll(init), argv[n], rule);
    if k < n {
      LastWithInit(argv, rule, k);
      LastArgumentWins(init, rule, k);
    }
  }

  /** A variable no argument sets keeps its initial value. */
  lemma {:induction false} UnsetKeepsInitial(argv: seq<string>, rule: Rule)
    requires rule in {HtmlEntry, Port, ConfigOption} && NoneWith(argv, rule)
    decreases |argv|
    ensures Field(ClassifyAll(argv), rule) == Field(Initial, rule)
  {
    if argv != [] {
      var n := |argv| - 1;
      var init := argv[..n];
      assert ClassifyAll(argv) == Classify(ClassifyAll(init), argv[n]);
      ClassifyStep(ClassifyAll(init), argv[n], rule);
      NoneWithInit(argv, rule);
      UnsetKeepsInitial(init, rule);
    }
  }

  /** Some argument is the `build` keyword. */
  ghost predicate HasBuild(argv: seq<string>)
  {
    exists k :: 0 <= k < |argv| && RuleOf(argv[k]) == BuildFlag
  }

  /** One `build` argument anywhere sets `isBuild`, and nothing clears it. */
  lemma {:induction false} BuildSetBy(argv: seq<string>, k: int)
    requires 0 <= k < |argv| && RuleOf(argv[k]) == BuildFlag
    decreases |argv|
    ensures ClassifyAll(argv).isBuild
  {
    var n := |argv| - 1;
    var init := argv[..n];
    assert ClassifyAll(argv) == Classify(ClassifyAll(init), argv[n]);
    ClassifyStep(ClassifyAll(init), argv[n], HtmlEntry);
    if k < n {
      assert init[k] == argv[k];
      BuildSetBy(init, k);
    }
  }

  /** Without a `build` argument `isBuild` stays false. */
  lemma {:induction false} BuildUnset(argv: seq<string>)
    requires NoneWith(argv, BuildFlag)
    decreases |argv|
    ensures !ClassifyAll(argv).isBuild
  {
    if argv != [] {
      var n := |argv| - 1;
      var init := argv[..n];
      assert ClassifyAll(argv) == Classify(ClassifyAll(init), argv[n]);
      ClassifyStep(ClassifyAll(init), argv[n], HtmlEntry);
      NoneWithInit(argv, BuildFlag);
      BuildUnset(init);
    }
  }

  /** `isBuild` holds exactly when some argument is `build`. */
  lemma BuildFlagSticks(argv: seq<string>)
    ensures ClassifyAll(argv).isBuild <==> HasBuild(argv)
  {
    if HasBuild(argv) {
      var k :| 0 <= k < |argv| && RuleOf(argv[k]) == BuildFlag;
      BuildSetBy(argv, k);
    } else {
      BuildUnset(argv);
    }
  }

  /** `BeforeFirst` stops at the first `c`. */
  lemma BeforeFirstAt(s: string, c: char, k: nat)
    requires k <= |s| && c !in s[..k] && (k == |s| || s[k] == c)
    ensures BeforeFirst(s, c) == s[..k]
  {
  }

  /** The configuration field of `--config=v` is `v` up to its first `=`. */
  lemma ConfigField(v: string)
    ensures SecondField(ConfigOptionPrefix + v, '=') == BeforeFirst(v, '=')
  {
    var p := ConfigOptionPrefix + v;
    assert p[..8] == "--config";
    BeforeFirstAt(p, '=', 8);
    assert p[9..] == v;
  }

  /** A path wrapped in quotes keeps its closing quote. */
  lemma TrailingQuoteSurvives(v: string)
    requires |v| >= 2 && '=' !in v && (v[0] == '\'' || v[0] == '"') && v[|v| - 1] == v[0]
    ensures ConfigPathOf(ConfigOptionPrefix + v) == v[1..]
    ensures ConfigPathOf(ConfigOptionPrefix + v)[|v| - 2] == v[0]
  {
    ConfigField(v);
    BeforeFirstAt(v, '=', |v|);
  }

  /** A path holding `=` is cut at its first `=`. */
  lemma ConfigPathCutAtEquals(v: string, k: nat)
    requires k < |v| && v[k] == '=' && '=' !in v[..k] && '\'' !in v[..k] && '"' !in v[..k]
    ensures ConfigPathOf(ConfigOptionPrefix + v) == v[..k]
  {
    ConfigField(v);
    BeforeFirstAt(v, '=', k);
    if k > 0 {
      assert v[..k][0] == v[0];
    }
  }

  // ---------------------------------------------------------------------------------------
  // findAppRootPath

  /** `path.resolve(dir, name)` for a directory given by its segments. */
  function Child(dir: seq<string>, name: string): string
  {
    Render(dir + [name])
  }

  /** The nearest of `dir` and its ancestors, the root excluded, that holds `package.json`. */
  function NearestRoot(dir: seq<string>, disk: Disk): (r: Option<seq<string>>)
    decreases |dir|
    ensures r.Some? ==> 0 < |r.value| <= |dir| && r.value == dir[..|r.value|]
                        && disk.Exists(Child(r.value, "package.json"))
                        && forall n :: |r.value| < n <= |dir| ==> !disk.Exists(Child(dir[..n], "package.json"))
    ensures r.None? ==> forall n :: 0 < n <= |dir| ==> !disk.Exists(Child(dir[..n], "package.json"))
  {
    if dir == [] then None
    else if disk.Exists(Child(dir, "package.json")) then Some(dir)
    else
      var up := NearestRoot(dir[..|dir| - 1], disk);
      assert forall n :: 0 < n <= |dir| - 1 ==> dir[..|dir| - 1][..n] == dir[..n];
      assert dir[..|dir|] == dir;
      up
  }

  /** `/^[a-zA-Z]:\\$/`: a Windows drive root such as `C:\`. */
  predicate IsDriveRoot(p: string)
  {
    |p| == 3 && ('a' <= p[0] <= 'z' || 'A' <= p[0] <= 'Z') && p[1] == ':' && p[2] == '\\'
  }

  /** `findAppRootPath()`: climbs from the working directory towards `/`, checking each
      directory for `package.json`; the root itself is never checked. */
  method FindAppRootPath(cwd: seq<string>, disk: Disk) returns (r: Option<seq<string>>)
    ensures r == NearestRoot(cwd, disk)
  {
    var current := cwd;
    while current != [] && !IsDriveRoot(Render(current))
      invariant |current| <= |cwd| && current == cwd[..|current|]
      invariant NearestRoot(cwd, disk) == NearestRoot(current, disk)
      decreases |current|
    {
      if disk.Exists(Child(current, "package.json")) {
        return Some(current);
      }
      assert current[..|current| - 1] == cwd[..|current| - 1];
      current := current[..|current| - 1];
    }
    assert Render(current)[0] == '/';
    r := None;
  }

  // ---------------------------------------------------------------------------------------
  // Configuration and dispatch

  /** Which configuration `require` loads. */
  datatype ConfigChoice = Explicit(path: string) | Default(path: string) | NoConfig

  const DefaultConfigName := ".pr1.config.js"

  /** The configuration choice as the script makes it: an explicit path is resolved against the
      working directory; otherwise the default file under the application root is loaded when it
      exists. With no application root `path.resolve` receives `null` and throws before the
      `appRootPath &&` guard is reached. */
  function SelectConfigAsWritten(configPath: string, cwd: seq<string>, disk: Disk): (r: Result<ConfigChoice>)
    ensures configPath != "" ==> r == Ok(Explicit(Resolve(Render(cwd), configPath)))
    ensures configPath == "" ==> (r == Err(NullAppRoot) <==> NearestRoot(cwd, disk).None?)
  {
    if configPath != "" then Ok(Explicit(Resolve(Render(cwd), configPath)))
    else
      match NearestRoot(cwd, disk)
      case None => Err(NullAppRoot)
      case Some(root) =>
        var defaultPath := Child(root, DefaultConfigName);
        if disk.Exists(defaultPath) then Ok(Default(defaultPath)) else Ok(NoConfig)
  }

  /** The configuration choice with the guard taking effect: no application root means no
      configuration, as when the default file is missing. */
  function SelectConfig(configPath: string, cwd: seq<string>, disk: Disk): (r: ConfigChoice)
    ensures SelectConfigAsWritten(configPath, cwd, disk).Ok? ==> r == SelectConfigAsWritten(configPath, cwd, disk).value
    ensures SelectConfigAsWritten(configPath, cwd, disk).Err? ==> r == NoConfig
    ensures r.Default? ==> configPath == "" && disk.Exists(r.path)
  {
    if configPath != "" then Explicit(Resolve(Render(cwd), configPath))
    else
      match NearestRoot(cwd, disk)
      case None => NoConfig
      case Some(root) =>
        var defaultPath := Child(root, DefaultConfigName);
        if disk.Exists(defaultPath) then Default(defaultPath) else NoConfig
  }

  /** A working directory with no `package.json` on the way up, and no `--config=`, makes the
      script throw before it starts the server. */
  lemma NoAppRootThrows()
    ensures SelectConfigAsWritten("", ["home", "me"], Disk(map[], {})) == Err(NullAppRoot)
    ensures SelectConfig("", ["home", "me"], Disk(map[], {})) == NoConfig
  {
    assert NearestRoot(["home", "me"], Disk(map[], {})).None?;
  }

  /** The default configuration is the one beside the nearest `package.json`, even when an
      outer directory also has one. */
  lemma DefaultConfigBesideNearestRoot(cwd: seq<string>, disk: Disk)
    requires NearestRoot(cwd, disk).Some?
    ensures var root := NearestRoot(cwd, disk).value;
            SelectConfig("", cwd, disk) == (if disk.Exists(Child(root, DefaultConfigName)) then Default(Child(root, DefaultConfigName)) else NoConfig)
            && forall n :: |root| < n <= |cwd| ==> !disk.Exists(Child(cwd[..n], "package.json"))
  {
  }

  /** What the script goes on to do. `runBuild` has an empty body, so build mode does nothing. */
  datatype Action = Idle | Serve(port: string, config: ConfigChoice)

  /** The whole script: classify the arguments, choose the configuration, then build or serve. */
  function Run(argv: seq<string>, cwd: seq<string>, disk: Disk): (r: Action)
    ensures r.Idle? <==> HasBuild(argv)
    ensures r.Serve? ==> r.port == ClassifyAll(argv).port && r.config == SelectConfig(ClassifyAll(argv).configPath, cwd, disk)
  {
    var a := ClassifyAll(argv);
    var config := SelectConfig(a.configPath, cwd, disk);
    BuildFlagSticks(argv);
    if a.isBuild then Idle else Serve(a.port, config)
  }

  /** The whole script as written: the configuration is chosen (and, at run time, loaded) before
      the `isBuild` dispatch, so a missing application root throws in build mode too. */
  function RunAsWritten(argv: seq<string>, cwd: seq<string>, disk: Disk): (r: Result<Action>)
    ensures r.Err? <==> SelectConfigAsWritten(ClassifyAll(argv).configPath, cwd, disk).Err?
    ensures r.Ok? ==> (r.value.Idle? <==> HasBuild(argv))
  {
    var a := ClassifyAll(argv);
    BuildFlagSticks(argv);
    match SelectConfigAsWritten(a.configPath, cwd, disk)
    case Err(e) => Err(e)
    case Ok(config) => if a.isBuild then Ok(Idle) else Ok(Serve(a.port, config))
  }

  /** The corrected script does what the script as written does whenever that does not throw;
      where it throws, the corrected one is `Idle` in build mode and serves without a
      configuration otherwise. */
  lemma RunAgrees(argv: seq<string>, cwd: seq<string>, disk: Disk)
    ensures RunAsWritten(argv, cwd, disk).Ok? ==> Run(argv, cwd, disk) == RunAsWritten(argv, cwd, disk).value
    ensures RunAsWritten(argv, cwd, disk).Err? ==>
              Run(argv, cwd, disk) == (if HasBuild(argv) then Idle else Serve(ClassifyAll(argv).port, NoConfig))
  {
    BuildFlagSticks(argv);
  }

  /** Without arguments of its own the script serves on port 8686. */
  lemma ServesOnDefaultPort(node: string, script: string, cwd: seq<string>, disk: Disk)
    requires RuleOf(node) == Ignored && RuleOf(script) == Ignored
    ensures Run([node, script], cwd, disk) == Serve(DefaultPort, SelectConfig("", cwd, disk))
  {
    assert [node, script][..1] == [node];
    assert [node][..0] == [];
    assert ClassifyAll([node]) == Initial;
    assert ClassifyAll([node, script]) == Initial;
  }
}
