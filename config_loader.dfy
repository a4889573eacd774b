/**
 * The configuration manager of config/loader.py: the files merged in order, `${NAME}`
 * placeholders in top-level strings replaced from the environment, and dotted-path
 * lookup with a default.
 *
 * Reading the files and the environment is not modelled: the parsed files and the
 * environment are parameters. YAML values are strings, mappings with string keys, or
 * any other value, kept uninterpreted.
 */
module ConfigLoading {
  import opened Wrappers

  datatype Value = Str(s: string) | Dict(entries: map<string, Value>) | Other(text: string)

  type Config = map<string, Value>

  /** `value[key]` on a value that is not a mapping raises `TypeError`, which `get` does not catch. */
  datatype GetError = TypeError

  // ---------------------------------------------------------------------------
  // the merge loop of _load_config
  // ---------------------------------------------------------------------------

  /** `config.update(f)` for each file in turn. */
  function Merged(files: seq<Config>): Config
  {
    if files == [] then map[] else Merged(files[..|files| - 1]) + files[|files| - 1]
  }

  /** A key is configured exactly when some file defines it. */
  lemma {:induction false} MergedKeys(files: seq<Config>, k: string)
    ensures k in Merged(files) <==> exists i | 0 <= i < |files| :: k in files[i]
  {
    if files != [] {
      var init := files[..|files| - 1];
      MergedKeys(init, k);
      assert forall i | 0 <= i < |init| :: init[i] == files[i];
    }
  }

  /** For a key defined by several files, the last of them wins. */
  lemma {:induction false} MergedLastWins(files: seq<Config>, k: string, i: nat)
    requires i < |files| && k in files[i]
    requires forall j | i < j < |files| :: k !in files[j]
    ensures k in Merged(files) && Merged(files)[k] == files[i][k]
  {
    if i < |files| - 1 {
      var init := files[..|files| - 1];
      MergedLastWins(init, k, i);
    }
  }

  // ---------------------------------------------------------------------------
  // _replace_env_vars
  // ---------------------------------------------------------------------------

  /** `value.startswith("${") and value.endswith("}")`. */
  predicate IsPlaceholder(s: string)
  {
    |s| >= 2 && s[0] == '$' && s[1] == '{' && s[|s| - 1] == '}'
  }

  /** `os.getenv(name, "")`. */
  function EnvValue(env: map<string, string>, name: string): string
  {
    if name in env then env[name] else ""
  }

  /** A top-level value after substitution. */
  function Resolved(v: Value, env: map<string, string>): Value
  {
    if v.Str? && IsPlaceholder(v.s) then Str(EnvValue(env, v.s[2..|v.s| - 1])) else v
  }

  function Substituted(c: Config, env: map<string, string>): (r: Config)
    ensures r.Keys == c.Keys
  {
    map k | k in c :: Resolved(c[k], env)
  }

  /** The configuration with the keys of `todo` not yet substituted. */
  function PartlySubstituted(c: Config, todo: set<string>, env: map<string, string>): (r: Config)
    ensures r.Keys == c.Keys
  {
    map k | k in c :: if k in todo then c[k] else Resolved(c[k], env)
  }

  lemma PartlySubstitutedNone(c: Config, env: map<string, string>)
    ensures PartlySubstituted(c, c.Keys, env) == c
  {
  }

  lemma PartlySubstitutedAll(c: Config, env: map<string, string>)
    ensures PartlySubstituted(c, {}, env) == Substituted(c, env)
  {
  }

  /** Substituting one more key: the key gets its resolved value, which its own value is when no placeholder. */
  lemma PartlySubstitutedStep(c: Config, todo: set<string>, k: string, env: map<string, string>)
    requires k in todo && todo <= c.Keys
    ensures var p := PartlySubstituted(c, todo, env);
      && p[k] == c[k]
      && PartlySubstituted(c, todo - {k}, env) == p[k := Resolved(c[k], env)]
      && (!(c[k].Str? && IsPlaceholder(c[k].s)) ==> Resolved(c[k], env) == c[k])
  {
  }

  /**
   * Substitution keeps every key; a top-level `${NAME}` string becomes the value of
   * `NAME` in the environment, or the empty string; every other value, mappings
   * included, is unchanged.
   */
  lemma SubstitutedValues(c: Config, env: map<string, string>, k: string)
    requires k in c
    ensures var r := Substituted(c, env);
      && k in r
      && (c[k].Str? && IsPlaceholder(c[k].s) ==>
            |c[k].s| >= 3 && r[k] == Str(EnvValue(env, c[k].s[2..|c[k].s| - 1])))
      && (!(c[k].Str? && IsPlaceholder(c[k].s)) ==> r[k] == c[k])
  {
  }

  /** When no environment value is itself a placeholder, substituting twice changes nothing more. */
  lemma SubstituteTwice(c: Config, env: map<string, string>)
    requires forall name | name in env :: !IsPlaceholder(env[name])
    ensures Substituted(Substituted(c, env), env) == Substituted(c, env)
  {
    var once := Substituted(c, env);
    forall k | k in once ensures Resolved(once[k], env) == once[k] {
      var v := c[k];
      if v.Str? && IsPlaceholder(v.s) {
        var name := v.s[2..|v.s| - 1];
        assert once[k] == Str(EnvValue(env, name));
        assert !IsPlaceholder(EnvValue(env, name));
      }
    }
  }

  // ---------------------------------------------------------------------------
  // get
  // ---------------------------------------------------------------------------

  /** `path.split('.')`. */
  function Split(s: string): (parts: seq<string>)
    ensures |parts| >= 1
    ensures forall i | 0 <= i < |parts| :: '.' !in parts[i]
    decreases |s|
  {
    if s == [] then [""]
    else
      var rest := Split(s[1..]);
      if s[0] == '.' then [""] + rest else [[s[0]] + rest[0]] + rest[1..]
  }

  /** `'.'.join(parts)`. */
  function Join(parts: seq<string>): string
    requires |parts| >= 1
    decreases |parts|
  {
    if |parts| == 1 then parts[0] else parts[0] + "." + Join(parts[1..])
  }

  /** Joining the pieces of a path gives the path back. */
  lemma {:induction false} JoinSplit(s: string)
    ensures Join(Split(s)) == s
    decreases |s|
  {
    if s != [] {
      JoinSplit(s[1..]);
      var rest := Split(s[1..]);
      if s[0] == '.' {
        assert Split(s)[1..] == rest;
      } else {
        var parts := Split(s);
        assert parts[1..] == rest[1..];
        if |rest| > 1 {
          assert Join(rest) == rest[0] + "." + Join(rest[1..]);
          assert Join(parts) == ([s[0]] + rest[0]) + "." + Join(rest[1..]);
        }
      }
    }
  }

  /** Splitting a dot-free prefix `a` in front of `t` prepends `a` to the first piece of `t`. */
  lemma {:induction false} SplitDotFree(a: string, t: string)
    requires '.' !in a
    ensures Split(a + t) == [a + Split(t)[0]] + Split(t)[1..]
    decreases |a|
  {
    if a == [] {
      assert a + t == t && a + Split(t)[0] == Split(t)[0];
    } else {
      assert a[0] in a && (a + t)[0] == a[0];
      assert forall c | c in a[1..] :: c in a;
      assert (a + t)[1..] == a[1..] + t;
      SplitDotFree(a[1..], t);
      assert [a[0]] + (a[1..] + Split(t)[0]) == a + Split(t)[0];
    }
  }

  /** Splitting a path joined from dot-free keys gives the keys back. */
  lemma {:induction false} SplitJoin(parts: seq<string>)
    requires |parts| >= 1
    requires forall i | 0 <= i < |parts| :: '.' !in parts[i]
    ensures Split(Join(parts)) == parts
    decreases |parts|
  {
    if |parts| == 1 {
      SplitDotFree(parts[0], "");
      assert parts[0] + "" == parts[0];
    } else {
      SplitJoin(parts[1..]);
      var t := "." + Join(parts[1..]);
      SplitDotFree(parts[0], t);
      assert parts[0] + "." + Join(parts[1..]) == parts[0] + t;
      assert Split(t) == [""] + parts[1..];
      assert parts[0] + "" == parts[0];
    }
  }

  /** Where a walk down a path ends. */
  datatype Lookup = Found(v: Value) | Missing | NotAMapping

  /** Following `keys` from `v`, one `value[key]` at a time. */
  function Walk(v: Value, keys: seq<string>): Lookup
    decreases |keys|
  {
    if keys == [] then Found(v)
    else
      match v
      case Dict(m) => if keys[0] in m then Walk(m[keys[0]], keys[1..]) else Missing
      case _ => NotAMapping
  }

  /** The outcome of `get(path, default)`. */
  function ValueAt(c: Config, path: string, default: Value): Result<Value, GetError>
  {
    match Walk(Dict(c), Split(path))
    case Found(v) => Ok(v)
    case Missing => Ok(default)
    case NotAMapping => Err(TypeError)
  }

  /** A walk along `a + b` is the walk along `a` continued along `b`. */
  lemma {:induction false} WalkAppend(v: Value, a: seq<string>, b: seq<string>)
    ensures Walk(v, a + b) == match Walk(v, a) case Found(w) => Walk(w, b) case other => other
    decreases |a|
  {
    if a == [] {
      assert a + b == b;
    } else {
      assert (a + b)[0] == a[0] && (a + b)[1..] == a[1..] + b;
      if v.Dict? && a[0] in v.entries {
        WalkAppend(v.entries[a[0]], a[1..], b);
      }
    }
  }

  /** The value `v` nested under `keys`, one mapping per key. */
  function Nest(keys: seq<string>, v: Value): Value
    decreases |keys|
  {
    if keys == [] then v else Dict(map[keys[0] := Nest(keys[1..], v)])
  }

  lemma {:induction false} WalkNest(keys: seq<string>, v: Value)
    ensures Walk(Nest(keys, v), keys) == Found(v)
    decreases |keys|
  {
    if keys != [] {
      WalkNest(keys[1..], v);
    }
  }

  /** A value nested under dot-free keys is found again at their dotted path. */
  lemma GetNested(keys: seq<string>, v: Value, default: Value)
    requires |keys| >= 1 && forall i | 0 <= i < |keys| :: '.' !in keys[i]
    ensures ValueAt(Nest(keys, v).entries, Join(keys), default) == Ok(v)
  {
    SplitJoin(keys);
    WalkNest(keys, v);
  }

  /** A path whose first key is not configured yields the default. */
  lemma GetMissingTop(c: Config, path: string, default: Value)
    requires Split(path)[0] !in c
    ensures ValueAt(c, path, default) == Ok(default)
  {
  }

  /** A path that goes through a string (or any non-mapping) raises instead of yielding the default. */
  lemma GetThroughScalar(c: Config, k: string, rest: string, default: Value)
    requires '.' !in k && k in c && !c[k].Dict?
    ensures ValueAt(c, k + "." + rest, default) == Err(TypeError)
  {
    SplitDotFree(k, "." + rest);
    assert k + "." + rest == k + ("." + rest);
    assert k + "" == k;
    var parts := Split(k + ("." + rest));
    assert parts[0] == k && |parts| >= 2;
    assert Walk(Dict(c), parts) == Walk(c[k], parts[1..]);
  }

  // ---------------------------------------------------------------------------
  // the ConfigManager object
  // ---------------------------------------------------------------------------

  class ConfigManager {
    var config: Config

    /** `_load_config`: merge the files in order, then substitute placeholders. */
    constructor (files: seq<Config>, env: map<string, string>)
      ensures config == Substituted(Merged(files), env)
    {
      var merged := map[];
      var i := 0;
      while i < |files|
        invariant 0 <= i <= |files|
        invariant merged == Merged(files[..i])
      {
        assert files[..i + 1][..i] == files[..i];
        merged := merged + files[i];
        i := i + 1;
      }
      assert files[..i] == files;
      config := merged;
      new;
      ReplaceEnvVars(env);
    }

    /** `_replace_env_vars`. */
    method ReplaceEnvVars(env: map<string, string>)
      modifies this
      ensures config == Substituted(old(config), env)
    {
      ghost var before := config;
      var todo := config.Keys;
      PartlySubstitutedNone(before, env);
      while todo != {}
        invariant todo <= before.Keys
        invariant config == PartlySubstituted(before, todo, env)
        decreases |todo|
      {
        var k :| k in todo;
        PartlySubstitutedStep(before, todo, k, env);
        var v := config[k];
        if v.Str? && IsPlaceholder(v.s) {
          config := config[k := Str(EnvValue(env, v.s[2..|v.s| - 1]))];
        }
        todo := todo - {k};
      }
      PartlySubstitutedAll(before, env);
    }

    /** `get`: walks the path key by key. */
    method Get(path: string, default: Value) returns (r: Result<Value, GetError>)
      ensures r == ValueAt(config, path, default)
    {
      var keys := Split(path);
      var value := Dict(config);
      var i := 0;
      while i < |keys|
        invariant 0 <= i <= |keys|
        invariant Walk(Dict(config), keys) == Walk(value, keys[i..])
      {
        match value
        case Dict(m) =>
          if keys[i] in m {
            assert keys[i..][1..] == keys[i + 1..];
            value := m[keys[i]];
            i := i + 1;
          } else {
            return Ok(default);
          }
        case _ =>
          return Err(TypeError);
      }
      return Ok(value);
    }
  }
}
