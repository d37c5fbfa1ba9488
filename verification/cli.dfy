/**
 * The command-line front end's own logic: `--param key=value` parsing into
 * the run context, flattening `.tactus/config.yml` into environment
 * variables, choosing the storage backend, and shortening system prompts
 * for the `validate` summary.
 */
module Cli {
  import opened Common
  import opened Paths

  // ---------------------------------------------------------------------------
  // --param key=value
  // ---------------------------------------------------------------------------

  /** Index of the first '=' of `p`, or -1. */
  function FirstEq(p: string): (i: int)
    ensures -1 <= i < |p|
    ensures i >= 0 ==> p[i] == '='
    ensures forall k :: 0 <= k < |p| && (i == -1 || k < i) ==> p[k] != '='
    decreases |p|
  {
    if p == [] then -1
    else if p[0] == '=' then 0
    else
      var j := FirstEq(p[1..]);
      if j == -1 then -1 else j + 1
  }

  /**
   * `p.split('=', 1)`: the key is everything before the first '=', the value
   * everything after it (further '=' included).
   */
  function SplitParam(p: string): (kv: (string, string))
    requires '=' in p
    ensures kv.0 + "=" + kv.1 == p
    ensures '=' !in kv.0
  {
    var i := FirstEq(p);
    assert i != -1;
    assert p[..i] + "=" + p[i + 1..] == p;
    (p[..i], p[i + 1..])
  }

  predicate WellFormed(params: seq<string>)
  {
    forall i :: 0 <= i < |params| ==> '=' in params[i]
  }

  function ParamError(p: string): string
  {
    "Invalid parameter format: " + p + " (expected key=value)"
  }

  /** The context that well-formed params produce, each param assigning its key in turn. */
  function Context(params: seq<string>): map<string, string>
    requires WellFormed(params)
    decreases |params|
  {
    if params == [] then map[]
    else
      var kv := SplitParam(params[|params| - 1]);
      Context(params[..|params| - 1])[kv.0 := kv.1]
  }

  /**
   * The `--param` loop of `run`: the first param without '=' aborts the
   * command with an error; otherwise every param is split and stored.
   */
  method ParseParams(params: seq<string>) returns (r: Result<map<string, string>, string>)
    ensures r.Failure? <==> !WellFormed(params)
    ensures r.Failure? ==> exists i :: 0 <= i < |params| && '=' !in params[i]
                                    && WellFormed(params[..i]) && r.error == ParamError(params[i])
    ensures r.Success? ==> WellFormed(params) && r.value == Context(params)
  {
    var context: map<string, string> := map[];
    var i := 0;
    while i < |params|
      invariant 0 <= i <= |params|
      invariant WellFormed(params[..i])
      invariant context == Context(params[..i])
    {
      var p := params[i];
      if '=' !in p {
        return Failure(ParamError(p));
      }
      var kv := SplitParam(p);
      assert params[..i + 1][..i] == params[..i];
      context := context[kv.0 := kv.1];
      i := i + 1;
    }
    assert params[..i] == params;
    return Success(context);
  }

  /** A key is in the context exactly when some param names it. */
  lemma {:induction false} ContextKeys(params: seq<string>, key: string)
    requires WellFormed(params)
    ensures key in Context(params) <==> exists i :: 0 <= i < |params| && SplitParam(params[i]).0 == key
    decreases |params|
  {
    if params != [] {
      var front := params[..|params| - 1];
      ContextKeys(front, key);
      if key in Context(front) {
        var i :| 0 <= i < |front| && SplitParam(front[i]).0 == key;
        assert params[i] == front[i];
      }
      if exists i :: 0 <= i < |params| && SplitParam(params[i]).0 == key {
        var i :| 0 <= i < |params| && SplitParam(params[i]).0 == key;
        if i < |front| { assert front[i] == params[i]; }
      }
    }
  }

  /** For a repeated key, the last param that names it gives the value. */
  lemma {:induction false} LastParamWins(params: seq<string>, i: nat)
    requires WellFormed(params)
    requires i < |params|
    requires forall j :: i < j < |params| ==> SplitParam(params[j]).0 != SplitParam(params[i]).0
    ensures SplitParam(params[i]).0 in Context(params)
    ensures Context(params)[SplitParam(params[i]).0] == SplitParam(params[i]).1
    decreases |params|
  {
    var front := params[..|params| - 1];
    if i < |params| - 1 {
      assert front[i] == params[i];
      forall j | i < j < |front| ensures SplitParam(front[j]).0 != SplitParam(front[i]).0 {
        assert front[j] == params[j];
      }
      LastParamWins(front, i);
    }
  }

  // ---------------------------------------------------------------------------
  // .tactus/config.yml -> environment variables
  // ---------------------------------------------------------------------------

  /**
   * A loaded YAML value: a scalar (string, int, float or bool, already as its
   * `str()` text), a mapping (in file order), or anything else.
   */
  datatype ConfigValue = Scalar(text: string) | Mapping(entries: seq<(string, ConfigValue)>) | Other

  /** The (variable, value) assignments one nested mapping asks for, in order. */
  function NestedWrites(prefix: string, entries: seq<(string, ConfigValue)>): seq<(string, string)>
    decreases |entries|
  {
    if entries == [] then []
    else
      var last := entries[|entries| - 1];
      NestedWrites(prefix, entries[..|entries| - 1])
      + (if last.1.Scalar? then [(prefix + "_" + Upper(last.0), last.1.text)] else [])
  }

  /** The assignments one top-level config entry asks for. */
  function EntryWrites(entry: (string, ConfigValue)): seq<(string, string)>
  {
    match entry.1
    case Scalar(text) => [(Upper(entry.0), text)]
    case Mapping(entries) => NestedWrites(Upper(entry.0), entries)
    case Other => []
  }

  /** The assignments the whole config asks for, in the order the loops attempt them. */
  function Writes(config: seq<(string, ConfigValue)>): seq<(string, string)>
    decreases |config|
  {
    if config == [] then []
    else Writes(config[..|config| - 1]) + EntryWrites(config[|config| - 1])
  }

  /** An assignment takes effect only when its variable is not set yet. */
  function SetIfAbsent(env: map<string, string>, w: (string, string)): map<string, string>
  {
    if w.0 in env then env else env[w.0 := w.1]
  }

  /** Attempt the assignments in order, each only if its variable is still unset. */
  function ApplyWrites(env: map<string, string>, ws: seq<(string, string)>): map<string, string>
    decreases |ws|
  {
    if ws == [] then env
    else SetIfAbsent(ApplyWrites(env, ws[..|ws| - 1]), ws[|ws| - 1])
  }

  /** The environment after `load_tactus_config` has read `config`. */
  function Flatten(env: map<string, string>, config: seq<(string, ConfigValue)>): map<string, string>
  {
    ApplyWrites(env, Writes(config))
  }

  /** The process environment, which the config loader writes in place. */
  class Environment {
    var vars: map<string, string>

    constructor (vars: map<string, string>)
      ensures this.vars == vars
    {
      this.vars := vars;
    }
  }

  /** Attempting two runs of assignments is attempting the first, then the second. */
  lemma {:induction false} ApplyWritesAppend(env: map<string, string>, a: seq<(string, string)>, b: seq<(string, string)>)
    ensures ApplyWrites(env, a + b) == ApplyWrites(ApplyWrites(env, a), b)
    decreases |b|
  {
    if b == [] {
      assert a + b == a;
    } else {
      ApplyWritesAppend(env, a, b[..|b| - 1]);
      assert (a + b)[..|a + b| - 1] == a + b[..|b| - 1];
      assert (a + b)[|a + b| - 1] == b[|b| - 1];
    }
  }

  /** `os.environ[env_key] = value` unless `env_key` is already set. */
  method SetDefault(env: Environment, name: string, value: string)
    modifies env
    ensures env.vars == SetIfAbsent(old(env.vars), (name, value))
  {
    if name !in env.vars {
      env.vars := env.vars[name := value];
    }
  }

  /** The inner loop of `load_tactus_config`, over one nested mapping. */
  method LoadNested(env: Environment, prefix: string, entries: seq<(string, ConfigValue)>)
    modifies env
    ensures env.vars == ApplyWrites(old(env.vars), NestedWrites(prefix, entries))
  {
    var j := 0;
    while j < |entries|
      invariant 0 <= j <= |entries|
      invariant env.vars == ApplyWrites(old(env.vars), NestedWrites(prefix, entries[..j]))
    {
      var nestedKey := entries[j].0;
      var nestedValue := entries[j].1;
      ghost var before := NestedWrites(prefix, entries[..j]);
      assert entries[..j + 1][..j] == entries[..j];
      if nestedValue.Scalar? {
        var w := (prefix + "_" + Upper(nestedKey), nestedValue.text);
        assert NestedWrites(prefix, entries[..j + 1]) == before + [w];
        assert (before + [w])[..|before|] == before;
        SetDefault(env, w.0, w.1);
      } else {
        assert NestedWrites(prefix, entries[..j + 1]) == before + [];
        assert before + [] == before;
      }
      j := j + 1;
    }
    assert entries[..j] == entries;
  }

  /** The flattening loops of `load_tactus_config`. */
  method LoadTactusConfig(env: Environment, config: seq<(string, ConfigValue)>)
    modifies env
    ensures env.vars == Flatten(old(env.vars), config)
  {
    var i := 0;
    while i < |config|
      invariant 0 <= i <= |config|
      invariant env.vars == ApplyWrites(old(env.vars), Writes(config[..i]))
    {
      var key := config[i].0;
      var value := config[i].1;
      ghost var done := Writes(config[..i]);
      ghost var envBefore := env.vars;
      assert config[..i + 1][..i] == config[..i];
      assert Writes(config[..i + 1]) == done + EntryWrites(config[i]);
      ApplyWritesAppend(old(env.vars), done, EntryWrites(config[i]));
      if value.Scalar? {
        var envKey := Upper(key);
        assert EntryWrites(config[i]) == [(envKey, value.text)];
        assert [(envKey, value.text)][..0] == [];
        SetDefault(env, envKey, value.text);
        assert env.vars == ApplyWrites(envBefore, EntryWrites(config[i]));
      } else if value.Mapping? {
        LoadNested(env, Upper(key), value.entries);
      }
      i := i + 1;
    }
    assert config[..i] == config;
  }

  /** A variable that is already set is never overwritten, whatever the config says. */
  lemma {:induction false} ExistingVariableKept(env: map<string, string>, ws: seq<(string, string)>, name: string)
    requires name in env
    ensures name in ApplyWrites(env, ws) && ApplyWrites(env, ws)[name] == env[name]
    decreases |ws|
  {
    if ws != [] {
      ExistingVariableKept(env, ws[..|ws| - 1], name);
    }
  }

  /** The variables some assignment in `ws` names. */
  function Targets(ws: seq<(string, string)>): set<string>
  {
    set i | 0 <= i < |ws| :: ws[i].0
  }

  /** The variables set afterwards: those set before, plus every variable some assignment names. */
  lemma {:induction false} AppliedKeys(env: map<string, string>, ws: seq<(string, string)>)
    ensures ApplyWrites(env, ws).Keys == env.Keys + Targets(ws)
    decreases |ws|
  {
    if ws != [] {
      var front := ws[..|ws| - 1];
      AppliedKeys(env, front);
      assert Targets(ws) == Targets(front) + {ws[|ws| - 1].0} by {
        forall x | x in Targets(ws) ensures x in Targets(front) + {ws[|ws| - 1].0} {
          var i :| 0 <= i < |ws| && ws[i].0 == x;
          if i < |front| { assert front[i] == ws[i]; }
        }
        forall x | x in Targets(front) ensures x in Targets(ws) {
          var i :| 0 <= i < |front| && front[i].0 == x;
          assert ws[i] == front[i];
        }
      }
    }
  }

  /** Among assignments to the same unset variable, the first one attempted wins. */
  lemma {:induction false} FirstWriteWins(env: map<string, string>, ws: seq<(string, string)>, i: nat)
    requires i < |ws| && ws[i].0 !in env
    requires forall j :: 0 <= j < i ==> ws[j].0 != ws[i].0
    ensures ws[i].0 in ApplyWrites(env, ws) && ApplyWrites(env, ws)[ws[i].0] == ws[i].1
    decreases |ws|
  {
    var front := ws[..|ws| - 1];
    if i < |front| {
      assert front[i] == ws[i];
      forall j | 0 <= j < i ensures front[j].0 != front[i].0 {
        assert front[j] == ws[j];
      }
      FirstWriteWins(env, front, i);
      ExistingVariableKept(ApplyWrites(env, front), [ws[|ws| - 1]], ws[i].0);
      assert ApplyWrites(ApplyWrites(env, front), [ws[|ws| - 1]]) == ApplyWrites(env, ws);
    } else {
      AppliedKeys(env, front);
    }
  }

  /** The assignments of a prefix of the config are attempted first. */
  lemma {:induction false} WritesPrefix(config: seq<(string, ConfigValue)>, n: nat)
    requires n <= |config|
    ensures IsPrefix(Writes(config[..n]), Writes(config))
    decreases |config|
  {
    if n < |config| {
      var front := config[..|config| - 1];
      WritesPrefix(front, n);
      assert front[..n] == config[..n];
      var p := Writes(config[..n]);
      assert Writes(config) == Writes(front) + EntryWrites(config[|config| - 1]);
      assert Writes(config)[..|p|] == Writes(front)[..|p|];
    } else {
      assert config[..n] == config;
    }
  }

  /**
   * An assignment whose variable is unset, preceded only by assignments to
   * other variables, decides that variable.
   */
  lemma FirstClaimDecides(env: map<string, string>, ws: seq<(string, string)>, before: seq<(string, string)>, w: (string, string))
    requires IsPrefix(before + [w], ws)
    requires w.0 !in env
    requires forall x :: x in before ==> x.0 != w.0
    ensures w.0 in ApplyWrites(env, ws) && ApplyWrites(env, ws)[w.0] == w.1
  {
    var n := |before|;
    assert ws[n] == (before + [w])[n] == w;
    forall j | 0 <= j < n ensures ws[j].0 != ws[n].0 {
      assert ws[j] == (before + [w])[j] == before[j];
      assert before[j] in before;
    }
    FirstWriteWins(env, ws, n);
  }

  lemma PrefixAfter<T>(a: seq<T>, x: seq<T>, y: seq<T>, s: seq<T>)
    requires IsPrefix(x, y) && IsPrefix(a + y, s)
    ensures IsPrefix(a + x, s)
  {
  }

  /**
   * A top-level scalar `key: value` sets `KEY` to the value's text, unless
   * `KEY` was already set or an earlier entry already claimed `KEY`.
   */
  lemma ScalarEntrySetsVariable(env: map<string, string>, config: seq<(string, ConfigValue)>, i: nat)
    requires i < |config| && config[i].1.Scalar?
    requires Upper(config[i].0) !in env
    requires forall w :: w in Writes(config[..i]) ==> w.0 != Upper(config[i].0)
    ensures Upper(config[i].0) in Flatten(env, config)
    ensures Flatten(env, config)[Upper(config[i].0)] == config[i].1.text
  {
    var before := Writes(config[..i]);
    WritesPrefix(config, i + 1);
    assert config[..i + 1][..i] == config[..i];
    assert Writes(config[..i + 1]) == before + [(Upper(config[i].0), config[i].1.text)];
    FirstClaimDecides(env, Writes(config), before, (Upper(config[i].0), config[i].1.text));
  }

  /** The assignments of the first entries of a nested mapping are attempted first. */
  lemma {:induction false} NestedWritesPrefix(prefix: string, entries: seq<(string, ConfigValue)>, n: nat)
    requires n <= |entries|
    ensures IsPrefix(NestedWrites(prefix, entries[..n]), NestedWrites(prefix, entries))
    decreases |entries|
  {
    if n < |entries| {
      var front := entries[..|entries| - 1];
      NestedWritesPrefix(prefix, front, n);
      assert front[..n] == entries[..n];
      var p := NestedWrites(prefix, entries[..n]);
      assert NestedWrites(prefix, entries)[..|p|] == NestedWrites(prefix, front)[..|p|];
    } else {
      assert entries[..n] == entries;
    }
  }

  /**
   * A scalar `nested: value` inside a top-level mapping `key:` sets
   * `KEY_NESTED` to the value's text, unless that variable was already set
   * or an earlier assignment already claimed it.
   */
  lemma NestedEntrySetsVariable(env: map<string, string>, config: seq<(string, ConfigValue)>, i: nat, j: nat)
    requires i < |config| && config[i].1.Mapping?
    requires j < |config[i].1.entries| && config[i].1.entries[j].1.Scalar?
    requires Upper(config[i].0) + "_" + Upper(config[i].1.entries[j].0) !in env
    requires forall w :: w in Writes(config[..i]) + NestedWrites(Upper(config[i].0), config[i].1.entries[..j]) ==>
               w.0 != Upper(config[i].0) + "_" + Upper(config[i].1.entries[j].0)
    ensures Upper(config[i].0) + "_" + Upper(config[i].1.entries[j].0) in Flatten(env, config)
    ensures Flatten(env, config)[Upper(config[i].0) + "_" + Upper(config[i].1.entries[j].0)]
            == config[i].1.entries[j].1.text
  {
    var prefix := Upper(config[i].0);
    var es := config[i].1.entries;
    var w := (prefix + "_" + Upper(es[j].0), es[j].1.text);
    var a := Writes(config[..i]);
    var b := NestedWrites(prefix, es[..j]);
    WritesPrefix(config, i + 1);
    assert config[..i + 1][..i] == config[..i];
    assert Writes(config[..i + 1]) == a + NestedWrites(prefix, es);
    NestedWritesPrefix(prefix, es, j + 1);
    assert es[..j + 1][..j] == es[..j];
    assert NestedWrites(prefix, es[..j + 1]) == b + [w];
    PrefixAfter(a, b + [w], NestedWrites(prefix, es), Writes(config));
    assert a + (b + [w]) == (a + b) + [w];
    FirstClaimDecides(env, Writes(config), a + b, w);
  }

  lemma {:induction false} NestedWritesOrigin(prefix: string, entries: seq<(string, ConfigValue)>, w: (string, string))
    ensures w in NestedWrites(prefix, entries) <==>
            exists j :: 0 <= j < |entries| && entries[j].1 == Scalar(w.1) && w.0 == prefix + "_" + Upper(entries[j].0)
    decreases |entries|
  {
    if entries != [] {
      var front := entries[..|entries| - 1];
      NestedWritesOrigin(prefix, front, w);
      if exists j :: 0 <= j < |front| && front[j].1 == Scalar(w.1) && w.0 == prefix + "_" + Upper(front[j].0) {
        var j :| 0 <= j < |front| && front[j].1 == Scalar(w.1) && w.0 == prefix + "_" + Upper(front[j].0);
        assert entries[j] == front[j];
      }
      if exists j :: 0 <= j < |entries| && entries[j].1 == Scalar(w.1) && w.0 == prefix + "_" + Upper(entries[j].0) {
        var j :| 0 <= j < |entries| && entries[j].1 == Scalar(w.1) && w.0 == prefix + "_" + Upper(entries[j].0);
        if j < |front| { assert front[j] == entries[j]; }
      }
    }
  }

  /**
   * Every variable the config can set comes from a top-level scalar
   * (`KEY`) or from a scalar one level down in a mapping (`KEY_NESTED`);
   * deeper values, lists and nulls set nothing.
   */
  lemma {:induction false} WriteOrigin(config: seq<(string, ConfigValue)>, w: (string, string))
    requires w in Writes(config)
    ensures exists i :: 0 <= i < |config| &&
              ((config[i].1 == Scalar(w.1) && w.0 == Upper(config[i].0))
               || (config[i].1.Mapping? &&
                   exists j :: 0 <= j < |config[i].1.entries| && config[i].1.entries[j].1 == Scalar(w.1)
                               && w.0 == Upper(config[i].0) + "_" + Upper(config[i].1.entries[j].0)))
    decreases |config|
  {
    var front := config[..|config| - 1];
    var last := config[|config| - 1];
    if w in Writes(front) {
      WriteOrigin(front, w);
      var i :| 0 <= i < |front| &&
              ((front[i].1 == Scalar(w.1) && w.0 == Upper(front[i].0))
               || (front[i].1.Mapping? &&
                   exists j :: 0 <= j < |front[i].1.entries| && front[i].1.entries[j].1 == Scalar(w.1)
                               && w.0 == Upper(front[i].0) + "_" + Upper(front[i].1.entries[j].0)));
      assert config[i] == front[i];
    } else {
      assert w in EntryWrites(last);
      if last.1.Mapping? {
        NestedWritesOrigin(Upper(last.0), last.1.entries, w);
      }
    }
  }

  // ---------------------------------------------------------------------------
  // Storage backend
  // ---------------------------------------------------------------------------

  datatype StorageBackend = MemoryStorage | FileStorage(storageDir: string)

  /**
   * The storage choice of `run`: "memory", or "file" under `storagePath`
   * (its parent when it names a file, `cwd/.tactus/storage` when absent);
   * anything else aborts the command. `pathIsFile` is the filesystem's
   * answer to `storage_path.is_file()`.
   */
  function SelectStorage(storage: string, storagePath: Option<string>, pathIsFile: bool, cwd: PurePath)
    : (r: Result<StorageBackend, string>)
    ensures r.Success? <==> storage == "memory" || storage == "file"
    ensures r == Success(MemoryStorage) <==> storage == "memory"
    ensures r.Failure? ==> r.error == "Unknown storage backend: " + storage
  {
    if storage == "memory" then Success(MemoryStorage)
    else if storage == "file" then
      var dir :=
        if storagePath.None? then Child(Child(cwd, ".tactus"), "storage")
        else if pathIsFile then Parent(ParsePath(storagePath.value))
        else ParsePath(storagePath.value);
      Success(FileStorage(PathString(dir)))
    else Failure("Unknown storage backend: " + storage)
  }

  /** Without a path, file storage lives in `.tactus/storage` under the working directory. */
  lemma DefaultFileStorage(cwd: PurePath, pathIsFile: bool)
    requires ValidPurePath(cwd)
    ensures var r := SelectStorage("file", None, pathIsFile, cwd);
            r.Success? && r.value.FileStorage?
            && ParsePath(r.value.storageDir) == PurePath(cwd.absolute, cwd.parts + [".tactus", "storage"])
  {
    var dir := Child(Child(cwd, ".tactus"), "storage");
    assert dir.parts == cwd.parts + [".tactus", "storage"];
    ParsePrintRoundTrip(dir);
  }

  /**
   * A given path that names a file is replaced by the directory holding it;
   * any other given path is used as it is.
   */
  lemma GivenFileStorage(path: string, pathIsFile: bool, cwd: PurePath)
    ensures var r := SelectStorage("file", Some(path), pathIsFile, cwd);
            var given := ParsePath(path);
            && r.Success? && r.value.FileStorage?
            && (pathIsFile ==> ParsePath(r.value.storageDir) == Parent(given))
            && (!pathIsFile ==> ParsePath(r.value.storageDir) == given)
  {
    var given := ParsePath(path);
    if pathIsFile {
      ParsePrintRoundTrip(Parent(given));
    } else {
      ParsePrintRoundTrip(given);
    }
  }


  // ---------------------------------------------------------------------------
  // System prompt display
  // ---------------------------------------------------------------------------

  const PROMPT_DISPLAY_WIDTH: nat := 50
  const ELLIPSIS: string := "..."

  /** Prompts longer than 50 characters are cut to 47 and marked with "...". */
  function TruncatePrompt(prompt: string): (r: string)
    ensures |r| <= PROMPT_DISPLAY_WIDTH
    ensures |prompt| <= PROMPT_DISPLAY_WIDTH ==> r == prompt
    ensures |prompt| > PROMPT_DISPLAY_WIDTH ==>
              |r| == PROMPT_DISPLAY_WIDTH
              && r[..PROMPT_DISPLAY_WIDTH - |ELLIPSIS|] == prompt[..PROMPT_DISPLAY_WIDTH - |ELLIPSIS|]
              && r[PROMPT_DISPLAY_WIDTH - |ELLIPSIS|..] == ELLIPSIS
  {
    if |prompt| > PROMPT_DISPLAY_WIDTH then prompt[..PROMPT_DISPLAY_WIDTH - |ELLIPSIS|] + ELLIPSIS
    else prompt
  }

  /** The "System Prompt" cell of the agents table; a missing prompt shows "N/A". */
  function DisplayPrompt(systemPrompt: Option<string>): (r: string)
    ensures systemPrompt.None? ==> r == "N/A"
    ensures systemPrompt.Some? ==> r == TruncatePrompt(systemPrompt.value)
  {
    TruncatePrompt(if systemPrompt.Some? then systemPrompt.value else "N/A")
  }

  /** Shortening a shown prompt again changes nothing. */
  lemma TruncateIdempotent(prompt: string)
    ensures TruncatePrompt(TruncatePrompt(prompt)) == TruncatePrompt(prompt)
  {
  }
}
