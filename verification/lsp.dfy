/**
 * The IDE's language-server side: the per-document store and diagnostic
 * conversion of `TactusLSPHandler`, the JSON-RPC request handling of
 * `LSPServer`, and the dispatch of document notifications.
 *
 * Positions and severities follow the Language Server Protocol 3.17
 * (`Position` is zero-based; `DiagnosticSeverity` Error = 1, Warning = 2);
 * error codes follow section 5.1 of the JSON-RPC 2.0 Specification.
 */
module Lsp {
  import opened Common

  const SEVERITY_ERROR: int := 1
  const SEVERITY_WARNING: int := 2
  const METHOD_NOT_FOUND: int := -32601
  const INTERNAL_ERROR: int := -32603
  const JSONRPC_VERSION: string := "2.0"
  const DIAGNOSTIC_SOURCE: string := "tactus"
  /** Every diagnostic underlines this many characters from its start. */
  const HIGHLIGHT_WIDTH: int := 10

  /**
   * A validator message: its text and its 1-based (line, column) location;
   * an empty location stands for a missing one.
   */
  datatype ValidationMessage = ValidationMessage(message: string, location: seq<int>)

  datatype Position = Position(line: int, character: int)
  datatype Range = Range(start: Position, end: Position)
  datatype Diagnostic = Diagnostic(range: Range, severity: int, source: string, message: string)

  /**
   * What the (external) validator does with a document: it raises, or it
   * returns errors, warnings and possibly a registry.
   */
  datatype ValidationOutcome<R> =
    | Raised
    | Validated(errors: seq<ValidationMessage>, warnings: seq<ValidationMessage>, registry: Option<R>)

  /** `_convert_to_diagnostic`: a 1-based validator location to a 0-based LSP range. */
  function ConvertToDiagnostic(m: ValidationMessage, severityStr: string): (d: Diagnostic)
    ensures d.severity == SEVERITY_ERROR <==> severityStr == "Error"
    ensures d.severity == SEVERITY_ERROR || d.severity == SEVERITY_WARNING
    ensures |m.location| >= 1 ==> d.range.start.line + 1 == m.location[0]
    ensures |m.location| >= 2 ==> d.range.start.character + 1 == m.location[1]
    ensures |m.location| == 0 ==> d.range.start == Position(0, 0)
    ensures |m.location| == 1 ==> d.range.start.character == 0
    ensures d.range.end.line == d.range.start.line
    ensures d.range.end.character == d.range.start.character + HIGHLIGHT_WIDTH
    ensures d.source == DIAGNOSTIC_SOURCE && d.message == m.message
  {
    var severity := if severityStr == "Error" then SEVERITY_ERROR else SEVERITY_WARNING;
    var line := if |m.location| > 0 then m.location[0] - 1 else 0;
    var col := if |m.location| > 1 then m.location[1] - 1 else 0;
    Diagnostic(
      Range(Position(line, col), Position(line, col + HIGHLIGHT_WIDTH)),
      severity, DIAGNOSTIC_SOURCE, m.message)
  }

  /** The 1-based (line, column) a diagnostic points at. */
  function LocationOf(d: Diagnostic): seq<int>
  {
    [d.range.start.line + 1, d.range.start.character + 1]
  }

  /** A full validator location survives conversion: converting back gives it again. */
  lemma LocationRoundTrip(m: ValidationMessage, severityStr: string)
    requires |m.location| == 2
    ensures LocationOf(ConvertToDiagnostic(m, severityStr)) == m.location
  {
  }

  /** One conversion per message, in order. */
  function ConvertAll(ms: seq<ValidationMessage>, severityStr: string): seq<Diagnostic>
    decreases |ms|
  {
    if ms == [] then []
    else ConvertAll(ms[..|ms| - 1], severityStr) + [ConvertToDiagnostic(ms[|ms| - 1], severityStr)]
  }

  lemma {:induction false} ConvertAllAt(ms: seq<ValidationMessage>, severityStr: string)
    ensures |ConvertAll(ms, severityStr)| == |ms|
    ensures forall i :: 0 <= i < |ms| ==> ConvertAll(ms, severityStr)[i] == ConvertToDiagnostic(ms[i], severityStr)
    decreases |ms|
  {
    if ms != [] {
      ConvertAllAt(ms[..|ms| - 1], severityStr);
    }
  }

  /** The diagnostics `validate_document` returns for a successful validation. */
  function Diagnostics(errors: seq<ValidationMessage>, warnings: seq<ValidationMessage>): seq<Diagnostic>
  {
    ConvertAll(errors, "Error") + ConvertAll(warnings, "Warning")
  }

  /**
   * One diagnostic per message; every error precedes every warning; errors
   * carry severity 1 and warnings severity 2, each at its own message's place.
   */
  lemma DiagnosticsLayout(errors: seq<ValidationMessage>, warnings: seq<ValidationMessage>)
    ensures var ds := Diagnostics(errors, warnings);
            && |ds| == |errors| + |warnings|
            && (forall i :: 0 <= i < |errors| ==>
                  ds[i] == ConvertToDiagnostic(errors[i], "Error") && ds[i].severity == SEVERITY_ERROR)
            && (forall i :: 0 <= i < |warnings| ==>
                  ds[|errors| + i] == ConvertToDiagnostic(warnings[i], "Warning")
                  && ds[|errors| + i].severity == SEVERITY_WARNING)
  {
    ConvertAllAt(errors, "Error");
    ConvertAllAt(warnings, "Warning");
  }

  /** The diagnostics `validate_document` returns for one validator outcome. */
  function DiagnosticsFor<R>(outcome: ValidationOutcome<R>): (ds: seq<Diagnostic>)
    ensures outcome.Raised? ==> ds == []
  {
    match outcome
    case Raised => []
    case Validated(errors, warnings, _) => Diagnostics(errors, warnings)
  }

  /** A registry the validator produces replaces the URI's entry; otherwise the registries stay as they were. */
  function RegistriesAfter<R>(registries: map<string, R>, uri: string, outcome: ValidationOutcome<R>)
    : (r: map<string, R>)
    ensures r.Keys <= registries.Keys + {uri}
    ensures forall u :: u != uri && u in registries ==> u in r && r[u] == registries[u]
    ensures outcome.Validated? && outcome.registry.Some? ==> uri in r && r[uri] == outcome.registry.value
    ensures outcome.Raised? || outcome.registry.None? ==> r == registries
  {
    if outcome.Validated? && outcome.registry.Some? then registries[uri := outcome.registry.value]
    else registries
  }

  /** `TactusLSPHandler`: open documents and their registries, by URI. */
  class LspHandler<R> {
    const validator: string -> ValidationOutcome<R>
    var documents: map<string, string>
    var registries: map<string, R>

    /** A registry is only ever kept for a document that is stored. */
    ghost predicate Valid()
      reads this
    {
      registries.Keys <= documents.Keys
    }

    constructor (validator: string -> ValidationOutcome<R>)
      ensures Valid()
      ensures this.validator == validator
      ensures documents == map[] && registries == map[]
    {
      this.validator := validator;
      documents := map[];
      registries := map[];
    }

    /**
     * `validate_document`: stores the text first, then validates; a raising
     * validator leaves the text stored and yields no diagnostics.
     */
    method ValidateDocument(uri: string, text: string) returns (diagnostics: seq<Diagnostic>)
      requires Valid()
      modifies this
      ensures Valid()
      ensures documents == old(documents)[uri := text]
      ensures registries == RegistriesAfter(old(registries), uri, validator(text))
      ensures diagnostics == DiagnosticsFor(validator(text))
    {
      documents := documents[uri := text];
      var result := validator(text);
      if result.Raised? {
        return [];
      }
      if result.registry.Some? {
        registries := registries[uri := result.registry.value];
      }
      diagnostics := [];
      var i := 0;
      while i < |result.errors|
        invariant 0 <= i <= |result.errors|
        invariant diagnostics == ConvertAll(result.errors[..i], "Error")
      {
        assert result.errors[..i + 1][..i] == result.errors[..i];
        diagnostics := diagnostics + [ConvertToDiagnostic(result.errors[i], "Error")];
        i := i + 1;
      }
      assert result.errors[..i] == result.errors;
      var errorPart := diagnostics;
      var j := 0;
      while j < |result.warnings|
        invariant 0 <= j <= |result.warnings|
        invariant diagnostics == errorPart + ConvertAll(result.warnings[..j], "Warning")
      {
        assert result.warnings[..j + 1][..j] == result.warnings[..j];
        diagnostics := diagnostics + [ConvertToDiagnostic(result.warnings[j], "Warning")];
        j := j + 1;
      }
      assert result.warnings[..j] == result.warnings;
    }

    /** `close_document`: forgets the URI in both maps; unknown URIs are ignored. */
    method CloseDocument(uri: string)
      requires Valid()
      modifies this
      ensures Valid()
      ensures documents == old(documents) - {uri}
      ensures registries == old(registries) - {uri}
    {
      documents := documents - {uri};
      registries := registries - {uri};
    }
  }

  /** A JSON-RPC request as the HTTP route hands it over. */
  datatype Message = Message(
    methodName: Option<string>,
    /** `None` when the "params" key is absent (the code then uses `{}`). */
    params: Option<Json>,
    /** `JNull` both for an absent id and for an explicit null. */
    id: Json)

  datatype ResponseBody = ResultBody(result: Json) | ErrorBody(code: int, message: string)

  datatype Response = Response(jsonrpc: string, id: Json, body: ResponseBody)

  /** `_error_response`. */
  function ErrorResponse(id: Json, code: int, message: string): Response
  {
    Response(JSONRPC_VERSION, id, ErrorBody(code, message))
  }

  /** `f"{method}"` for the method name, `None` printing as "None". */
  function MethodText(name: Option<string>): string
  {
    if name.Some? then name.value else "None"
  }

  /** The fixed result of "initialize": the server's capabilities and identity. */
  function InitializeResult(): Json
  {
    JObj(map[
      "capabilities" := JObj(map[
        "textDocumentSync" := JObj(map[
          "openClose" := JBool(true),
          "change" := JInt(2),
          "save" := JObj(map["includeText" := JBool(true)])]),
        "diagnosticProvider" := JObj(map[
          "interFileDependencies" := JBool(false),
          "workspaceDiagnostics" := JBool(false)])]),
      "serverInfo" := JObj(map[
        "name" := JStr("tactus-lsp-server"),
        "version" := JStr("0.1.0")])])
  }

  /** `LSPServer`: the handler, whether "initialize" was seen, and the client's capabilities. */
  class LspServer<R> {
    const handler: LspHandler<R>
    var initialized: bool
    var clientCapabilities: Json

    ghost predicate Valid()
      reads this, handler
    {
      handler.Valid()
    }

    constructor (validator: string -> ValidationOutcome<R>)
      ensures Valid() && fresh(handler)
      ensures !initialized && clientCapabilities == JObj(map[])
      ensures handler.validator == validator
      ensures handler.documents == map[] && handler.registries == map[]
    {
      handler := new LspHandler(validator);
      initialized := false;
      clientCapabilities := JObj(map[]);
    }

    /**
     * `handle_message`: "initialize" records the client's capabilities and
     * answers with the server's own (no answer to a null id); every other
     * method is "Method not found". Params that are not an object make
     * `params.get` raise, answered as an internal error with state untouched.
     */
    method HandleMessage(message: Message) returns (response: Option<Response>)
      modifies this
      ensures var params := if message.params.Some? then message.params.value else JObj(map[]);
              if message.methodName != Some("initialize") then
                && response == Some(ErrorResponse(message.id, METHOD_NOT_FOUND,
                                                  "Method not found: " + MethodText(message.methodName)))
                && initialized == old(initialized) && clientCapabilities == old(clientCapabilities)
              else if !params.JObj? then
                && response == Some(ErrorResponse(message.id, INTERNAL_ERROR,
                                                  "'" + PyTypeName(params) + "' object has no attribute 'get'"))
                && initialized == old(initialized) && clientCapabilities == old(clientCapabilities)
              else
                && initialized
                && clientCapabilities == Get(params.fields, "capabilities", JObj(map[]))
                && response == (if message.id == JNull then None
                                else Some(Response(JSONRPC_VERSION, message.id, ResultBody(InitializeResult()))))
      ensures response.Some? ==> response.value.jsonrpc == JSONRPC_VERSION && response.value.id == message.id
    {
      if message.methodName != Some("initialize") {
        return Some(ErrorResponse(message.id, METHOD_NOT_FOUND, "Method not found: " + MethodText(message.methodName)));
      }
      var params := if message.params.Some? then message.params.value else JObj(map[]);
      if !params.JObj? {
        return Some(ErrorResponse(message.id, INTERNAL_ERROR, "'" + PyTypeName(params) + "' object has no attribute 'get'"));
      }
      clientCapabilities := Get(params.fields, "capabilities", JObj(map[]));
      initialized := true;
      var result := InitializeResult();
      if message.id != JNull {
        response := Some(Response(JSONRPC_VERSION, message.id, ResultBody(result)));
      } else {
        response := None;
      }
    }
  }

  /**
   * A document notification: its method, the text document's "uri" and
   * "text", and the "text" of each content change.
   */
  datatype Notification = Notification(
    methodName: Option<string>,
    uri: Option<string>,
    text: Option<string>,
    contentChanges: seq<Option<string>>)

  datatype NotificationAction = Validate(uri: string, text: string) | Close(uri: string) | Ignore

  /** Which handler call a notification leads to. */
  function ActionFor(n: Notification): (a: NotificationAction)
    ensures a.Validate? ==> a.uri != "" && a.text != "" && TruthyStr(n.uri) && a.uri == n.uri.value
    ensures a.Validate? <==>
              (n.methodName == Some("textDocument/didOpen") && TruthyStr(n.uri) && TruthyStr(n.text))
              || (n.methodName == Some("textDocument/didChange") && TruthyStr(n.uri)
                  && |n.contentChanges| > 0 && TruthyStr(n.contentChanges[0]))
    ensures a.Validate? && n.methodName == Some("textDocument/didOpen") ==> a.text == n.text.value
    ensures a.Validate? && n.methodName == Some("textDocument/didChange") ==> a.text == n.contentChanges[0].value
    ensures a.Close? <==> n.methodName == Some("textDocument/didClose") && TruthyStr(n.uri)
    ensures a.Close? ==> a.uri == n.uri.value
  {
    if n.methodName == Some("textDocument/didOpen") then
      if TruthyStr(n.uri) && TruthyStr(n.text) then Validate(n.uri.value, n.text.value) else Ignore
    else if n.methodName == Some("textDocument/didChange") then
      if TruthyStr(n.uri) && |n.contentChanges| > 0 && TruthyStr(n.contentChanges[0])
      then Validate(n.uri.value, n.contentChanges[0].value)
      else Ignore
    else if n.methodName == Some("textDocument/didClose") then
      if TruthyStr(n.uri) then Close(n.uri.value) else Ignore
    else Ignore
  }

  /** The reply body: status "ok", with the diagnostics only when there are some. */
  datatype NotificationReply = NotificationReply(status: string, diagnostics: Option<seq<Diagnostic>>)

  /** `lsp_notification`: dispatch one notification to the server's handler. */
  method HandleNotification<R>(server: LspServer<R>, n: Notification) returns (reply: NotificationReply)
    requires server.Valid()
    modifies server.handler
    ensures server.Valid()
    ensures reply.status == "ok"
    ensures match ActionFor(n)
            case Validate(uri, text) =>
              && server.handler.documents == old(server.handler.documents)[uri := text]
              && server.handler.registries
                 == RegistriesAfter(old(server.handler.registries), uri, server.handler.validator(text))
              && reply.diagnostics == (var ds := DiagnosticsFor(server.handler.validator(text));
                                       if ds == [] then None else Some(ds))
            case Close(uri) =>
              && server.handler.documents == old(server.handler.documents) - {uri}
              && server.handler.registries == old(server.handler.registries) - {uri}
              && reply.diagnostics == None
            case Ignore =>
              && server.handler.documents == old(server.handler.documents)
              && server.handler.registries == old(server.handler.registries)
              && reply.diagnostics == None
  {
    var diagnostics: seq<Diagnostic> := [];
    match ActionFor(n) {
      case Validate(uri, text) =>
        diagnostics := server.handler.ValidateDocument(uri, text);
      case Close(uri) =>
        server.handler.CloseDocument(uri);
      case Ignore =>
    }
    if diagnostics != [] {
      reply := NotificationReply("ok", Some(diagnostics));
    } else {
      reply := NotificationReply("ok", None);
    }
  }
}
