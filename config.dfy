/** The settings module: the keys of `config.yml`, each overridden by the command line, the
    environment or `override.yml`, converted to the type of the YAML value and with unit
    suffixes expanded; `get` reads them, loading them on first use. */
module Config {
  import opened Results
  import opened Text

  /** A YAML value, of the kinds the settings hold. */
  datatype Value = Null | Bool(b: bool) | Int(i: int) | Str(s: string)

  /** Python's truth value of a setting. */
  predicate Truthy(v: Value)
  {
    match v
    case Null => false
    case Bool(b) => b
    case Int(i) => i != 0
    case Str(s) => s != ""
  }

  /** Python's `str` of a setting. */
  function PyStr(v: Value): string
  {
    match v
    case Null => "None"
    case Bool(b) => if b then "True" else "False"
    case Int(i) => IntToString(i)
    case Str(s) => s
  }

  // ---------------------------------------------------------------------------
  // Unit suffixes

  predicate IsUnit(c: char) { c == 'k' || c == 'm' || c == 'g' }

  /** The multiplier of a unit character: powers of 1024. */
  function UnitFactor(c: char): (f: nat)
    requires IsUnit(c)
    ensures c == 'k' ==> f == 1024
    ensures c == 'm' ==> f == 1024 * 1024
    ensures c == 'g' ==> f == 1024 * 1024 * 1024
  {
    if c == 'k' then 1024 else if c == 'm' then 1024 * 1024 else 1024 * 1024 * 1024
  }

  /** `_has_unit(v)`: a string of at least two characters, all digits but the last, which is a
      unit. */
  predicate HasUnit(v: Value)
    ensures HasUnit(v) ==> v.Str? && ParseInt(v.s).None?
  {
    if v.Str? && |v.s| > 1 && IsUnit(v.s[|v.s| - 1]) && AllDigits(v.s[..|v.s| - 1]) then
      UnitSuffixIsNotInt(v.s);
      true
    else false
  }

  /** Digits followed by a unit are not an integer literal: `int` rejects them, which is why
      `_load_cfg` keeps such a value as text. */
  lemma {:induction false} UnitSuffixIsNotInt(s: string)
    requires |s| > 1 && IsUnit(s[|s| - 1]) && AllDigits(s[..|s| - 1])
    ensures ParseInt(s).None?
  {
    forall k | 0 <= k < |s| ensures !IsSpace(s[k]) {
      if k < |s| - 1 { assert s[k] == s[..|s| - 1][k]; }
    }
    assert Strip(s) == s;
    assert s[0] == s[..|s| - 1][0];
    assert !IsNumeral(s);
  }

  /** The number a unit-suffixed setting stands for; any other setting as it is. */
  function ExpandUnits(v: Value): (r: Value)
    ensures !HasUnit(v) ==> r == v
    ensures HasUnit(v) ==> r.Int? && r.i >= 0 && r.i % 1024 == 0
    ensures !HasUnit(r)
  {
    if HasUnit(v) then
      var n := DigitsValue(v.s[..|v.s| - 1]);
      UnitMultiple(n, v.s[|v.s| - 1]);
      Int(n * UnitFactor(v.s[|v.s| - 1]))
    else v
  }

  /** A number times a unit's factor is a non-negative multiple of 1024. */
  lemma {:induction false} UnitMultiple(n: nat, u: char)
    requires IsUnit(u)
    ensures n * UnitFactor(u) >= 0 && (n * UnitFactor(u)) % 1024 == 0
  {
    var q := UnitFactor(u) / 1024;
    assert UnitFactor(u) == 1024 * q;
    assert n * UnitFactor(u) == 1024 * (n * q);
  }

  /** The digits before the unit read back with `int`, as `_load_cfg` reads them. */
  lemma {:induction false} DigitsParse(d: string)
    requires |d| > 0 && AllDigits(d)
    ensures ParseInt(d) == Some(DigitsValue(d) as int)
  {
    assert Strip(d) == d;
    assert IsNumeral(d);
    assert DropUnderscores(d) == d;
  }

  /** A number written with a unit is a setting with a unit, and expands to the number times the
      unit's power of 1024. */
  lemma {:induction false} UnitExpansion(n: nat, u: char)
    requires IsUnit(u)
    ensures HasUnit(Str(NatToString(n) + [u]))
    ensures ExpandUnits(Str(NatToString(n) + [u])) == Int(n * UnitFactor(u))
  {
    NatToStringDigits(n);
    var s := NatToString(n) + [u];
    assert s[..|s| - 1] == NatToString(n);
  }

  // ---------------------------------------------------------------------------
  // The command line

  /** What one argument says about option `x`: `--x` is a flag, `--x=val` a value. */
  function ArgMatch(arg: string, x: string): (r: Option<Value>)
    ensures r.Some? ==> r.value.Bool? || r.value.Str?
    ensures r.Some? <==> arg == "--" + x || "--" + x + "=" <= arg
  {
    if arg == "--" + x then Some(Bool(true))
    else if "--" + x + "=" <= arg then Some(Str(arg[|x| + 3..]))
    else None
  }

  /** The first argument from index `i` on that says something about `x`. */
  function FirstMatch(argv: seq<string>, i: nat, x: string): (r: Option<Value>)
    ensures r.Some? ==> r.value.Bool? || r.value.Str?
    decreases |argv| - i
  {
    if i >= |argv| then None
    else match ArgMatch(argv[i], x)
      case Some(v) => Some(v)
      case None => FirstMatch(argv, i + 1, x)
  }

  /** `getCmdLineArg(x)`: the program name, `argv[0]`, is not an option. */
  function CmdLineArg(argv: seq<string>, x: string): (r: Option<Value>)
    ensures r.Some? ==> r.value.Bool? || r.value.Str?
  {
    FirstMatch(argv, 1, x)
  }

  /** The scan over `sys.argv`, returning at the first match. */
  method GetCmdLineArg(argv: seq<string>, x: string) returns (r: Option<Value>)
    ensures r == CmdLineArg(argv, x)
  {
    var option := "--" + x + "=";
    var i := 1;
    while i < |argv|
      invariant i >= 1
      invariant FirstMatch(argv, i, x) == CmdLineArg(argv, x)
      decreases |argv| - i
    {
      var arg := argv[i];
      if arg == "--" + x {
        return Some(Bool(true));
      } else if option <= arg {
        return Some(Str(arg[|option|..]));
      }
      i := i + 1;
    }
    return None;
  }

  /** The scan finds something exactly when an argument after the program name matches, and then
      answers what the first such argument says. */
  lemma {:induction false} FirstMatchIsFirst(argv: seq<string>, i: nat, x: string)
    ensures FirstMatch(argv, i, x).Some? <==> exists k :: i <= k < |argv| && ArgMatch(argv[k], x).Some?
    ensures FirstMatch(argv, i, x).Some? ==>
              exists k :: && i <= k < |argv| && FirstMatch(argv, i, x) == ArgMatch(argv[k], x)
                          && forall j :: i <= j < k ==> ArgMatch(argv[j], x).None?
    decreases |argv| - i
  {
    if i < |argv| {
      FirstMatchIsFirst(argv, i + 1, x);
      if ArgMatch(argv[i], x).None? && FirstMatch(argv, i, x).Some? {
        var k :| && i + 1 <= k < |argv| && FirstMatch(argv, i + 1, x) == ArgMatch(argv[k], x)
                 && forall j :: i + 1 <= j < k ==> ArgMatch(argv[j], x).None?;
        assert forall j :: i <= j < k ==> ArgMatch(argv[j], x).None?;
      }
    }
  }

  /** `--x=val` gives back `val`, and `--x` gives `True`. */
  lemma ArgMatchRoundTrip(x: string, val: string)
    ensures ArgMatch("--" + x + "=" + val, x) == Some(Str(val))
    ensures ArgMatch("--" + x, x) == Some(Bool(true))
  {
    var arg := "--" + x + "=" + val;
    assert |arg| != |"--" + x|;
    assert "--" + x + "=" <= arg;
    assert arg[|x| + 3..] == val;
  }

  // ---------------------------------------------------------------------------
  // One key

  /** `x.upper()` on ASCII letters. */
  function Upper(x: string): (r: string)
    ensures |r| == |x|
    ensures forall i :: 0 <= i < |x| && 'a' <= x[i] <= 'z' ==>
              'A' <= r[i] <= 'Z' && r[i] as int - 'A' as int == x[i] as int - 'a' as int
    ensures forall i :: 0 <= i < |x| && !('a' <= x[i] <= 'z') ==> r[i] == x[i]
  {
    seq(|x|, i requires 0 <= i < |x| => if 'a' <= x[i] <= 'z' then (x[i] as int - 32) as char else x[i])
  }

  /** The override of key `x`: the command line, else the environment variable `X`, else
      `override.yml`. A null in `override.yml` counts as no override. */
  function OverrideFor(argv: seq<string>, vars: map<string, string>, overrides: map<string, Value>, x: string)
    : (r: Option<Value>)
    ensures r.Some? ==> r.value != Null
    ensures CmdLineArg(argv, x).Some? ==> r == CmdLineArg(argv, x)
    ensures CmdLineArg(argv, x).None? && Upper(x) in vars ==> r == Some(Str(vars[Upper(x)]))
    ensures CmdLineArg(argv, x).None? && Upper(x) !in vars ==>
              r == (if x in overrides && overrides[x] != Null then Some(overrides[x]) else None)
  {
    match CmdLineArg(argv, x)
    case Some(v) => Some(v)
    case None =>
      if Upper(x) in vars then Some(Str(vars[Upper(x)]))
      else if x in overrides && overrides[x] != Null then Some(overrides[x])
      else None
  }

  /** `type(base)(override)`, or `None` where that raises `ValueError`. */
  function Coerce(base: Value, override: Value): (r: Option<Value>)
    requires base != Null && override != Null
    ensures r.Some? ==> r.value.Bool? == base.Bool? && r.value.Int? == base.Int? && r.value.Str? == base.Str?
    ensures r.None? <==> base.Int? && override.Str? && ParseInt(override.s).None?
  {
    if base.Bool? then Some(Bool(Truthy(override)))
    else if base.Str? then Some(Str(PyStr(override)))
    else if override.Bool? then Some(Int(if override.b then 1 else 0))
    else if override.Int? then Some(override)
    else match ParseInt(override.s)
      case Some(n) => Some(Int(n))
      case None => None
  }

  /** The value stored for a key whose YAML value is `base`: the override converted to the type of
      `base` (kept as it came when the conversion fails, and as it is when `base` is null), and
      then any unit expanded. */
  function Setting(argv: seq<string>, vars: map<string, string>, overrides: map<string, Value>,
                   x: string, base: Value): (r: Value)
    ensures !HasUnit(r)
    ensures OverrideFor(argv, vars, overrides, x).None? ==> r == ExpandUnits(base)
  {
    var v :=
      match OverrideFor(argv, vars, overrides, x)
      case None => base
      case Some(o) =>
        if base == Null then o
        else match Coerce(base, o) case Some(c) => c case None => o;
    ExpandUnits(v)
  }

  /** A key that no source overrides keeps its YAML value, units expanded. */
  lemma NoOverrideKeepsYaml(argv: seq<string>, vars: map<string, string>, overrides: map<string, Value>,
                            x: string, base: Value)
    requires CmdLineArg(argv, x).None? && Upper(x) !in vars
    requires x !in overrides || overrides[x] == Null
    ensures Setting(argv, vars, overrides, x, base) == ExpandUnits(base)
  {
  }

  /** A command-line override hides whatever the environment and `override.yml` say. */
  lemma CommandLineWins(argv: seq<string>, vars: map<string, string>, vars': map<string, string>,
                        overrides: map<string, Value>, overrides': map<string, Value>, x: string, base: Value)
    requires CmdLineArg(argv, x).Some?
    ensures Setting(argv, vars, overrides, x, base) == Setting(argv, vars', overrides', x, base)
  {
  }

  /** An environment override hides what `override.yml` says. */
  lemma EnvironmentBeatsOverrideFile(argv: seq<string>, vars: map<string, string>,
                                     overrides: map<string, Value>, overrides': map<string, Value>,
                                     x: string, base: Value)
    requires Upper(x) in vars
    ensures Setting(argv, vars, overrides, x, base) == Setting(argv, vars, overrides', x, base)
  {
  }

  /** An integer setting overridden by the text of a number takes that number. */
  lemma IntOverride(argv: seq<string>, vars: map<string, string>, x: string, base: int, n: int)
    requires CmdLineArg(argv, x).None? && Upper(x) in vars && vars[Upper(x)] == IntToString(n)
    ensures Setting(argv, vars, map[], x, Int(base)) == Int(n)
  {
    ParseIntRoundTrip(n);
  }

  /** An integer setting overridden by a number with a unit fails `int`, keeps the text, and then
      expands it: `--x=512m` stores 512 MiB. */
  lemma {:induction false} UnitOverride(argv: seq<string>, x: string, base: int, n: nat, u: char)
    requires IsUnit(u) && CmdLineArg(argv, x) == Some(Str(NatToString(n) + [u]))
    ensures Setting(argv, map[], map[], x, Int(base)) == Int(n * UnitFactor(u))
  {
    UnitExpansion(n, u);
  }

  // ---------------------------------------------------------------------------
  // Finding the files

  /** `os.path.join(d, name)` for a relative `name`. */
  function PathJoin(d: string, name: string): string
  {
    if d == "" then name else if d[|d| - 1] == '/' then d + name else d + "/" + name
  }

  const ConfigFile: string := "config.yml"
  const OverrideFile: string := "override.yml"

  /** The directories searched: the `--config-dir=` value, else `$CONFIG_DIR`, else `/config`
      and the working directory. A bare `--config-dir` flag puts `True` in the list, which
      `os.path.join` rejects with a `TypeError`. */
  function ConfigDirs(argv: seq<string>, vars: map<string, string>): (r: Result<seq<string>, string>)
    ensures r.Ok? ==> |r.value| > 0
    ensures CmdLineArg(argv, "config-dir") == Some(Bool(true)) <==> r.Err?
    ensures (match CmdLineArg(argv, "config-dir") case Some(Str(d)) => d != "" case _ => false)
              ==> r == Ok([CmdLineArg(argv, "config-dir").value.s])
    ensures (match CmdLineArg(argv, "config-dir") case None => true case Some(v) => v == Str(""))
              ==> r == (if "CONFIG_DIR" in vars then Ok([vars["CONFIG_DIR"]]) else Ok(["/config", "."]))
  {
    var fromArg := CmdLineArg(argv, "config-dir");
    if fromArg.Some? && Truthy(fromArg.value) && !fromArg.value.Str? then Err("TypeError")
    else if fromArg.Some? && Truthy(fromArg.value) then Ok([fromArg.value.s])
    else if "CONFIG_DIR" in vars then Ok([vars["CONFIG_DIR"]])
    else Ok(["/config", "."])
  }

  /** The file `name` in the last of `dirs` that has one. */
  function LastFound(dirs: seq<string>, name: string, files: set<string>): Option<string>
    decreases |dirs|
  {
    if dirs == [] then None
    else if PathJoin(dirs[|dirs| - 1], name) in files then Some(PathJoin(dirs[|dirs| - 1], name))
    else LastFound(dirs[..|dirs| - 1], name, files)
  }

  /** A later directory wins: the file found is in some directory, and no later directory has one. */
  lemma {:induction false} LastFoundIsLast(dirs: seq<string>, name: string, files: set<string>)
    ensures LastFound(dirs, name, files).Some? <==> exists k :: 0 <= k < |dirs| && PathJoin(dirs[k], name) in files
    ensures LastFound(dirs, name, files).Some? ==>
              exists k :: && 0 <= k < |dirs| && LastFound(dirs, name, files) == Some(PathJoin(dirs[k], name))
                          && PathJoin(dirs[k], name) in files
                          && forall j :: k < j < |dirs| ==> PathJoin(dirs[j], name) !in files
    decreases |dirs|
  {
    if dirs != [] && PathJoin(dirs[|dirs| - 1], name) !in files {
      var init := dirs[..|dirs| - 1];
      LastFoundIsLast(init, name, files);
      assert forall k :: 0 <= k < |init| ==> init[k] == dirs[k];
      if LastFound(dirs, name, files).Some? {
        var k :| && 0 <= k < |init| && LastFound(init, name, files) == Some(PathJoin(init[k], name))
                 && PathJoin(init[k], name) in files
                 && forall j :: k < j < |init| ==> PathJoin(init[j], name) !in files;
        assert forall j :: k < j < |dirs| ==> PathJoin(dirs[j], name) !in files;
      }
    }
  }

  /** The loop over the directories, remembering the last `config.yml` and `override.yml` seen. */
  method FindConfigFiles(dirs: seq<string>, files: set<string>) returns (yml: Option<string>, over: Option<string>)
    ensures yml == LastFound(dirs, ConfigFile, files) && over == LastFound(dirs, OverrideFile, files)
  {
    yml, over := None, None;
    for i := 0 to |dirs|
      invariant yml == LastFound(dirs[..i], ConfigFile, files)
      invariant over == LastFound(dirs[..i], OverrideFile, files)
    {
      assert dirs[..i + 1][..i] == dirs[..i];
      var fileName := PathJoin(dirs[i], ConfigFile);
      if fileName in files {
        yml := Some(fileName);
      }
      var overrideName := PathJoin(dirs[i], OverrideFile);
      if overrideName in files {
        over := Some(overrideName);
      }
    }
    assert dirs[..|dirs|] == dirs;
  }

  // ---------------------------------------------------------------------------
  // Loading and reading

  /** What the settings are read from. `load` is `yaml.safe_load` of a file, an error where the
      YAML does not parse. */
  datatype Environment = Environment(
    argv: seq<string>,
    vars: map<string, string>,
    files: set<string>,
    load: string -> Result<map<string, Value>, string>)

  const NotFoundError: string := "FileNotFoundError"
  const KeyNotFound: string := "KeyError"

  /** The overrides in `override.yml`, none when there is no such file. */
  function OverridesFrom(env: Environment, path: Option<string>): Result<map<string, Value>, string>
  {
    if path.Some? then env.load(path.value) else Ok(map[])
  }

  /** What `_load_cfg` stores, or the exception it raises before storing anything. */
  function Loaded(env: Environment): (r: Result<map<string, Value>, string>)
    ensures r.Ok? ==> ConfigDirs(env.argv, env.vars).Ok?
    ensures r.Ok? ==> LastFound(ConfigDirs(env.argv, env.vars).value, ConfigFile, env.files).Some?
  {
    match ConfigDirs(env.argv, env.vars)
    case Err(e) => Err(e)
    case Ok(dirs) =>
      match LastFound(dirs, ConfigFile, env.files)
      case None => Err(NotFoundError)
      case Some(path) =>
        match env.load(path)
        case Err(e) => Err(e)
        case Ok(yml) =>
          match OverridesFrom(env, LastFound(dirs, OverrideFile, env.files))
          case Err(e) => Err(e)
          case Ok(overrides) => Ok(Applied(env, overrides, yml, {}))
  }

  /** The body of the loop over the keys: the override of `x`, converted and unit-expanded. */
  method KeySetting(env: Environment, overrides: map<string, Value>, x: string, base: Value) returns (cfgval: Value)
    ensures cfgval == Setting(env.argv, env.vars, overrides, x, base)
  {
    cfgval := base;
    var override := GetCmdLineArg(env.argv, x);
    if override.None? && Upper(x) in env.vars {
      override := Some(Str(env.vars[Upper(x)]));
    }
    if override.None? && x in overrides {
      override := Some(overrides[x]);
    }
    if override.Some? && override.value != Null {
      var o := override.value;
      if cfgval != Null {
        var converted := Coerce(cfgval, o);
        if converted.Some? {
          o := converted.value;
        }
      }
      cfgval := o;
    }
    cfgval := ExpandUnits(cfgval);
  }

  /** The settings of the keys of `yml` outside `pending`. */
  function Applied(env: Environment, overrides: map<string, Value>, yml: map<string, Value>, pending: set<string>)
    : map<string, Value>
  {
    map x | x in yml && x !in pending :: Setting(env.argv, env.vars, overrides, x, yml[x])
  }

  lemma AppliedStep(env: Environment, overrides: map<string, Value>, yml: map<string, Value>,
                    pending: set<string>, x: string)
    requires x in pending && x in yml
    ensures Applied(env, overrides, yml, pending - {x})
            == Applied(env, overrides, yml, pending)[x := Setting(env.argv, env.vars, overrides, x, yml[x])]
  {
  }

  lemma UpdateAfter<K, V>(m: map<K, V>, done: map<K, V>, x: K, v: V)
    ensures (m + done)[x := v] == m + done[x := v]
  {
  }

  /** The module's `cfg` dictionary. */
  class Settings {
    const env: Environment
    var cfg: map<string, Value>

    constructor (env: Environment)
      ensures this.env == env && cfg == map[]
    {
      this.env := env;
      cfg := map[];
    }

    /** `_load_cfg()`: finds the files, then stores each key of `config.yml` with its override. */
    method LoadCfg() returns (err: Option<string>)
      modifies this`cfg
      ensures Loaded(env).Err? ==> err == Some(Loaded(env).error) && cfg == old(cfg)
      ensures Loaded(env).Ok? ==> err == None && cfg == old(cfg) + Loaded(env).value
    {
      var configDirs: seq<string> := [];
      var configDir := GetCmdLineArg(env.argv, "config-dir");
      if configDir.Some? && Truthy(configDir.value) {
        if !configDir.value.Str? {
          return Some("TypeError");
        }
        configDirs := configDirs + [configDir.value.s];
      }
      if configDirs == [] && "CONFIG_DIR" in env.vars {
        configDirs := configDirs + [env.vars["CONFIG_DIR"]];
      }
      if configDirs == [] {
        configDirs := ["/config", "."];
      }
      var ymlFile, overridePath := FindConfigFiles(configDirs, env.files);
      if ymlFile.None? {
        return Some(NotFoundError);
      }
      var ymlConfig := env.load(ymlFile.value);
      if ymlConfig.Err? {
        return Some(ymlConfig.error);
      }
      var overrides := OverridesFrom(env, overridePath);
      if overrides.Err? {
        return Some(overrides.error);
      }
      ApplyOverrides(ymlConfig.value, overrides.value);
      return None;
    }

    /** The loop over the keys of `config.yml`. */
    method ApplyOverrides(yml: map<string, Value>, overrides: map<string, Value>)
      modifies this`cfg
      ensures cfg == old(cfg) + Applied(env, overrides, yml, {})
    {
      var keys := yml.Keys;
      ghost var done: map<string, Value> := map[];
      while keys != {}
        invariant keys <= yml.Keys
        invariant done == Applied(env, overrides, yml, keys)
        invariant cfg == old(cfg) + done
        decreases keys
      {
        var x :| x in keys;
        var cfgval := KeySetting(env, overrides, x, yml[x]);
        AppliedStep(env, overrides, yml, keys, x);
        UpdateAfter(old(cfg), done, x, cfgval);
        cfg := cfg[x := cfgval];
        done := done[x := cfgval];
        keys := keys - {x};
      }
    }

    /** `get(x, default)`: loads the settings when none are stored, then answers the stored value;
        a missing key with a default stores and answers the default, and without one raises
        `KeyError`. */
    method Get(x: string, default: Value) returns (r: Result<Value, string>)
      modifies this`cfg
      ensures old(cfg) == map[] && Loaded(env).Err? ==> r == Err(Loaded(env).error) && cfg == old(cfg)
      ensures old(cfg) != map[] || Loaded(env).Ok? ==>
                var m := if old(cfg) == map[] then Loaded(env).value else old(cfg);
                && (x in m ==> r == Ok(m[x]) && cfg == m)
                && (x !in m && default != Null ==> r == Ok(default) && cfg == m[x := default])
                && (x !in m && default == Null ==> r == Err(KeyNotFound) && cfg == m)
      ensures r.Ok? ==> x in cfg && cfg[x] == r.value
    {
      if cfg == map[] {
        var err := LoadCfg();
        if err.Some? {
          return Err(err.value);
        }
        assert cfg == Loaded(env).value;
      }
      r := Lookup(x, default);
    }

    /** The lookup once settings are stored: the stored value, else the default, stored. */
    method Lookup(x: string, default: Value) returns (r: Result<Value, string>)
      modifies this`cfg
      ensures x in old(cfg) ==> r == Ok(old(cfg)[x]) && cfg == old(cfg)
      ensures x !in old(cfg) && default != Null ==> r == Ok(default) && cfg == old(cfg)[x := default]
      ensures x !in old(cfg) && default == Null ==> r == Err(KeyNotFound) && cfg == old(cfg)
      ensures r.Ok? ==> x in cfg && cfg[x] == r.value
    {
      if x !in cfg {
        if default != Null {
          cfg := cfg[x := default];
        } else {
          return Err(KeyNotFound);
        }
      }
      return Ok(cfg[x]);
    }
  }
}
