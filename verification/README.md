# Tactus front end: a verified model

Tactus runs agent workflows written in a YAML-based DSL. This project models
the deterministic logic of its front end, which sits around the execution
engine:

- **IDE backend** (`tactus/ide/server.py`):
  - The workspace path guard, which confines every file request to the
    selected workspace folder (module `Workspace`, over the lexical `pathlib`
    model in `Paths`).
  - The directory listing of `/api/tree` (module `DirectoryTree`).
  - The Language Server Protocol pieces (module `Lsp`):
    - the per-URI document and registry store of `TactusLSPHandler`;
    - the conversion of validator messages into LSP 3.17 diagnostics
      (0-based positions; severity Error = 1, Warning = 2);
    - the `initialize` dispatcher of `LSPServer`, with its JSON-RPC 2.0 error
      objects (section 5.1 of the JSON-RPC 2.0 Specification: -32601 method
      not found, -32603 internal error);
    - the routing of `didOpen` / `didChange` / `didClose` notifications.
- **Command line** (`tactus/cli/app.py`, module `Cli`):
  - `--param key=value` parsing into the run context;
  - flattening of `.tactus/config.yml` into upper-case environment variables,
    where a variable that is already set wins;
  - the choice of storage backend;
  - the shortening of system prompts in the `validate` summary.
- **Output schemas** (`tests/integration/test_examples.py`, module
  `OutputSchema`):
  - the derivation of one field spec per declared procedure output;
  - the `.turn()` heuristic that marks examples needing a language model.

State that the source changes in place is modelled with classes:
- `Lsp.LspHandler` holds the `documents` and `registries` maps.
- `Lsp.LspServer` holds `initialized` and `clientCapabilities`.
- `Cli.Environment` holds the process environment.

Each method's postcondition ties its new state to a specification function:
- `RegistriesAfter` and `DiagnosticsFor` for the handler;
- `Flatten` for the environment;
- `Context` for the params.

The properties the source promises are proved about those functions.

Several inputs come from outside the process. They become parameters:
- the validator is a function value `string -> ValidationOutcome<R>`;
- the working directory is a path;
- `is_file()` is a boolean;
- the directory items come with their `is_dir()` / `is_file()` answers.

## Model

| member | source | states |
|---|---|---|
| Paths.ParsePath | tactus/cli/app.py:146 | `Path(s)` has only non-empty, non-"." components, none containing '/', and is absolute exactly when `s` starts with '/' |
| Paths.ParseSegment | tactus/cli/app.py:146 | a text without '/' parses to a relative path with that one component, or none when it is empty or "." |
| Paths.ParseConcat | tactus/cli/app.py:146 | the text `a/b` parses to the components of `a` followed by those of `b`; it is rooted exactly when `a` is empty or rooted. With `ParseSegment`, this fixes the parse of every text |
| Paths.KeptPartsAppend | tactus/cli/app.py:146 | dropping empty and "." pieces is an order-preserving filter: it commutes with concatenation |
| Paths.Parent | tactus/cli/app.py:147-148 | the parent keeps rootedness and drops exactly the last component; the root and "." are their own parent |
| Paths.ParsePrintRoundTrip | tactus/cli/app.py:146-149 | printing a path and parsing it again gives the same path, so `str(storage_path)` loses nothing |
| Workspace.Walk | tactus/ide/server.py:145-146 | lexical resolution always produces a normal path: no empty, "." or ".." component |
| Workspace.ResolveWorkspacePath | tactus/ide/server.py:134-154 | with no root, or an empty root, every request fails with "No workspace folder selected". A success is the resolved root or a path under it. A failure (root set) is "Path '<rel>' escapes workspace", for a target that is not under the root |
| Workspace.WalkReduce | tactus/ide/server.py:146 | resolving a relative path from any base climbs `ups` levels (stopping at "/") and then descends through `downs`, both computed from the path alone |
| Workspace.DescendingPathStaysInside | tactus/ide/server.py:146-154 | a relative path with no ".." is always accepted, and resolves to the workspace followed by its own components |
| Workspace.RelativeEscapesIff | tactus/ide/server.py:145-152 | a relative path is refused exactly when it climbs and the place it lands is not under the workspace |
| Workspace.ClimbingAboveRootEscapes | tactus/ide/server.py:149-152 | climbing out of a non-root workspace without descending again (`..`, `a/../..`) is refused |
| Workspace.AbsolutePathIsCheckedAgainstRoot | tactus/ide/server.py:146-154 | an absolute request path replaces the workspace and lands on its own descent `downs`, its climbs absorbed at "/". It is accepted, as that place, exactly when that place lies under the workspace |
| Workspace.ResolveAbsoluteString | tactus/ide/server.py:146-154 | resolving the printed form of a resolved path gives that path back |
| Workspace.AcceptedPathIsStable | tactus/ide/server.py:134-154 | handing back an accepted target as absolute text is accepted again, and names the same place |
| DirectoryTree.KeyLeTotal | tactus/ide/server.py:242 | any two items are comparable under the sort key (directories first, then lower-cased name) |
| DirectoryTree.KeyLeTransitive | tactus/ide/server.py:242 | the sort key order is transitive |
| DirectoryTree.SortItems | tactus/ide/server.py:242 | the sorted listing is a permutation of the directory's items, ordered by the key |
| DirectoryTree.Suffix | tactus/ide/server.py:251 | the extension is non-empty exactly when the name has a '.' that is neither its first nor its last character and has no '.' after it. It is then the proper suffix of the name starting at that '.' |
| DirectoryTree.MakeEntry | tactus/ide/server.py:243-251 | an entry keeps the item's name and is "directory" exactly for directories. It has an extension exactly for regular files, and that extension is the name's suffix |
| DirectoryTree.EntryPathRoundTrip | tactus/ide/server.py:245 | an entry's `path` parses back to the listed directory's components below the root, followed by the item's name |
| DirectoryTree.EntriesOrdered | tactus/ide/server.py:242-253 | entries built from a key-sorted listing put every directory before every file, and lower-cased names ascend within a kind |
| DirectoryTree.EntriesCover | tactus/ide/server.py:242-253 | entries built from a permutation of the items include an entry for every item |
| DirectoryTree.ListEntries | tactus/ide/server.py:241-253 | one entry per item, from the sorted items in order; every directory precedes every file; within a kind, lower-cased names ascend; every item appears |
| Lsp.ConvertToDiagnostic | tactus/ide/server.py:61-78 | severity is 1 exactly for "Error", else 2. The start is the 1-based location minus one; a missing location gives (0,0) and a one-element location gives character 0. The end is on the same line, 10 characters on. The source is "tactus" and the message is kept |
| Lsp.LocationRoundTrip | tactus/ide/server.py:67-68 | a full (line, column) location is recovered from the diagnostic by adding one to each |
| Lsp.DiagnosticsLayout | tactus/ide/server.py:45-54 | one diagnostic per message; all errors, in order and with severity 1, then all warnings, in order and with severity 2 |
| Lsp.DiagnosticsFor | tactus/ide/server.py:39-59 | a validator that raises yields no diagnostics |
| Lsp.RegistriesAfter | tactus/ide/server.py:42-43 | a registry the validator produces is stored under the validated URI. Only that URI can gain a registry, and only then; other URIs keep theirs. Without a new registry, all registries, including any stale one for the URI, are unchanged |
| Lsp.LspHandler.constructor | tactus/ide/server.py:30-33 | a new handler stores no documents and no registries |
| Lsp.LspHandler.ValidateDocument | tactus/ide/server.py:35-59 | the text is stored under the URI even when validation raises. Registries change as `RegistriesAfter` says. The result is `DiagnosticsFor` the validator's outcome. Every registry belongs to a stored document |
| Lsp.LspHandler.CloseDocument | tactus/ide/server.py:80-83 | the URI is removed from both maps; every other URI is untouched, and an unknown URI changes nothing |
| Lsp.LspServer.constructor | tactus/ide/server.py:89-92 | a new server is not initialized, has empty client capabilities and a fresh, empty handler |
| Lsp.LspServer.HandleMessage | tactus/ide/server.py:94-131 | any method but "initialize" gets -32601 "Method not found: <method>". Params that are not an object get -32603 with Python's message, and state is unchanged. Otherwise the server is initialized, stores `params.capabilities` (default `{}`), and replies with the request id and its capabilities, or not at all when the id is null |
| Lsp.ActionFor | tactus/ide/server.py:597-615 | didOpen validates exactly when its uri and text are non-empty; didChange validates the first change's text exactly when uri, changes and that text are non-empty; didClose closes exactly when the uri is non-empty; everything else is ignored |
| Lsp.HandleNotification | tactus/ide/server.py:596-621 | the handler's maps change exactly as the chosen action says. The reply is "ok", and carries the diagnostics only when there are some |
| Cli.SplitParam | tactus/cli/app.py:135 | key, '=' and value put back together give the param, and the key has no '=' (the split is at the first '=') |
| Cli.ParseParams | tactus/cli/app.py:129-136 | fails exactly when some param lacks '=', with "Invalid parameter format: <p> (expected key=value)" for the first such param. Otherwise it returns the context `Context` describes |
| Cli.ContextKeys | tactus/cli/app.py:129-136 | a key is in the context exactly when some param names it |
| Cli.LastParamWins | tactus/cli/app.py:136 | for a repeated key, the value of its last param is kept |
| Cli.SetDefault | tactus/cli/app.py:70-71 | the variable is set only when absent |
| Cli.LoadNested | tactus/cli/app.py:74-78 | the nested loop attempts `KEY_NESTED` for each scalar entry, in order |
| Cli.LoadTactusConfig | tactus/cli/app.py:66-78 | the environment afterwards is `Flatten` of the environment before |
| Cli.ExistingVariableKept | tactus/cli/app.py:69-71 | a variable that was already set keeps its value |
| Cli.AppliedKeys | tactus/cli/app.py:66-78 | the variables set afterwards are those set before plus those some attempted assignment names |
| Cli.FirstWriteWins | tactus/cli/app.py:69-71 | among assignments to one unset variable, the first one attempted wins |
| Cli.ScalarEntrySetsVariable | tactus/cli/app.py:66-71 | a top-level scalar `k: v` sets `K` to v's text, unless `K` was already set or claimed earlier |
| Cli.NestedEntrySetsVariable | tactus/cli/app.py:72-78 | a scalar `n: v` inside a top-level mapping `k:` sets `K_N` to v's text, unless `K_N` was already set or claimed earlier |
| Cli.NestedWritesOrigin | tactus/cli/app.py:72-78 | a nested mapping asks to set `K_N` to v exactly for its scalar entries `n: v` (whether the assignment takes effect is `Cli.NestedEntrySetsVariable`) |
| Cli.WriteOrigin | tactus/cli/app.py:66-78 | every assignment comes from a top-level scalar or a scalar one level down; deeper values, lists and nulls set nothing |
| Cli.SelectStorage | tactus/cli/app.py:139-152 | succeeds exactly for "memory" and "file"; "memory" gives memory storage; any other name fails with "Unknown storage backend: <name>" |
| Cli.DefaultFileStorage | tactus/cli/app.py:142-143 | file storage without a path lives in `<cwd>/.tactus/storage` |
| Cli.GivenFileStorage | tactus/cli/app.py:144-149 | a given path that is a file is replaced by its parent, rootedness included; any other given path is used as given |
| Cli.TruncatePrompt | tactus/cli/app.py:266-268 | the result is at most 50 characters. Prompts of up to 50 characters are unchanged. Longer ones become exactly 50: their first 47 characters, then "..." |
| Cli.DisplayPrompt | tactus/cli/app.py:265-268 | a missing prompt shows "N/A"; a present one is truncated |
| Cli.TruncateIdempotent | tactus/cli/app.py:266-268 | truncating a displayed prompt again changes nothing |
| OutputSchema.TypeFor | tests/integration/test_examples.py:37-46 | only a list or mapping fails (unhashable). A non-`str` result comes from exactly its own type name. An unrecognised name gives `str` |
| OutputSchema.TypeNameSelectsType | tests/integration/test_examples.py:38-45 | string, integer, number, boolean, array and object select str, int, float, bool, list and dict |
| OutputSchema.FieldSpecOf | tests/integration/test_examples.py:33-56 | a definition that is not a mapping fails as Python's `.get` does. The type comes from `type`, default "string". The field is required exactly when `required` is truthy (default false). Otherwise its default is `default` or None. A description is kept exactly when it is truthy |
| OutputSchema.FloatDefinitions | tests/integration/test_examples.py:34-56 | a float default is kept as given, a `required` of 0.0 leaves the field optional, and a float definition fails with "'float' object has no attribute 'get'" |
| OutputSchema.AbsentKeysDefaults | tests/integration/test_examples.py:34-54 | a definition declaring none of the four keys is an optional `str` field defaulting to None, without description |
| OutputSchema.BuildFields | tests/integration/test_examples.py:32-56 | fails exactly when some definition is malformed, with the first one's error. Otherwise it yields exactly one field per entry, in order, under the entry's name and with that entry's spec; names are distinct |
| OutputSchema.LookupBuilt | tests/integration/test_examples.py:32-58 | in a built model, every declared output is found under its name with its own spec, and no other name is found |
| OutputSchema.ContainsIff | tests/integration/test_examples.py:75 | `sub in s` holds exactly when `sub` occurs at some index of `s` |
| OutputSchema.RequiresLlmIff | tests/integration/test_examples.py:71-75 | an example needs a model exactly when ".turn()" occurs in its text |

## Left out

- The execution engine (`tactus.core.runtime`, `tactus.core.yaml_parser`) is not part of this model. `TactusValidator` is not part of it either; it appears as an abstract function returning errors, warnings and an optional registry, or raising.
- Flask routing, HTTP status codes, CORS, logging, `/api/file`, `/api/run`, the SSE stream (thread, event loop, queue, clock) and the workspace POST route (`resolve`, `exists`, `os.chdir`) are I/O. The `/api/tree` branches for a missing or non-directory target are filesystem facts.
- Filesystem facts are inputs, not modelled behaviour: `exists`, `is_dir`, `is_file`, `iterdir` and the working directory. Symbolic links are not followed: `Workspace.Resolve` is lexical. A leading "//" is treated as "/".
- Workspace.ResolveWorkspacePath: the root comes in as a parameter, not as a global. The tree route's `relative_to(WORKSPACE_ROOT)` is modelled by handing `ListEntries` the listed directory's components below the root. This matches because the root is always stored resolved.
- DirectoryTree.SortItems: the sort key lower-cases ASCII letters only. Python's `str.lower()` also lower-cases other cased letters, so names with non-ASCII capitals may sort differently (for example "Яб" sorts before "аб" here, but after it in the source).
- DirectoryTree.ListEntries: the "names ascend within a kind" promise uses the same ASCII-only lower-casing as `SortItems`.
- DirectoryTree.SortItems: Python's sort is stable, but the order of items whose keys tie (names equal up to case) is not stated; `iterdir` order is itself filesystem-dependent.
- OutputSchema.FieldSpecOf: a float value is a `real`, so the non-finite YAML floats `.nan`, `.inf` and `-.inf` cannot be written; finite floats, including a zero `required`, are modelled.
- Lsp.LspServer.HandleMessage: the "method" value is taken to be a string or absent. A message that is not an object is not modelled. The server's answer to "initialize" is a fixed JSON constant.
- Lsp.HandleNotification: the uri, text and change texts arrive already extracted as optional strings. Non-object `params` or `textDocument` values, which make the route answer 500, are not modelled.
- Lsp.LspHandler.ValidateDocument: locations are integer sequences, so diagnostic conversion cannot raise. Only the validator call can.
- Pydantic's `create_model` / `Field` validation and coercion are a foreign library: only the derived field specs are modelled. A schema is a sequence of distinct names, as the keys of a mapping are.
- Cli.LoadTactusConfig: YAML parsing and `dotyaml.load_config` are not modelled. Scalars carry their `str()` text already. Keys are strings: a non-string key makes `key.upper()` raise, and the caught exception ends the loop early. Upper-casing is ASCII only.
- Cli.LoadTactusConfig: a config is a sequence of entries whose keys are meant to be distinct, as in a YAML mapping. Repeated keys are not excluded: the model then attempts every occurrence and the first one wins, whereas `yaml.safe_load` keeps only the last.
- Cli.LoadTactusConfig: `os.environ` refusing an assignment is not modelled. CPython rejects a name that is empty or contains '=', and a name or value holding a NUL character; the resulting exception ends the source's loop there, so later entries are not applied, whereas the model sets that variable and goes on with the rest.
- Cli.DisplayPrompt: a `system_prompt` that is present but not a string is not modelled.
- Cli.ParseParams: an absent `--param` list is the empty sequence. `typer.Exit(1)` after the error message becomes a `Failure` carrying that message.
- Typer option parsing and Rich console output are left out.
