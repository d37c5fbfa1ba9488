/**
 * The output-validation rules of the example tests: each declared output of
 * a procedure becomes one field spec (a Python type, required or a default,
 * and an optional description); and the heuristic that decides whether an
 * example needs a language model.
 */
module OutputSchema {
  import opened Common

  /** The Python types a declared output can be validated as. */
  datatype PyType = Str | Int | Float | Bool | List | Dict

  /** The schema type name that selects each Python type. */
  function TypeName(t: PyType): string
  {
    match t
    case Str => "string"
    case Int => "integer"
    case Float => "number"
    case Bool => "boolean"
    case List => "array"
    case Dict => "object"
  }

  predicate KnownTypeName(s: string)
  {
    s in {"string", "integer", "number", "boolean", "array", "object"}
  }

  /**
   * `type_mapping.get(field_type_str, str)`: a known name selects its type,
   * any other hashable value falls back to `str`; a list or a mapping cannot
   * be looked up at all.
   */
  function TypeFor(declared: Json): (r: Result<PyType, string>)
    ensures r.Failure? <==> declared.JArr? || declared.JObj?
    ensures declared.JArr? ==> r == Failure("unhashable type: 'list'")
    ensures declared.JObj? ==> r == Failure("unhashable type: 'dict'")
    ensures r.Success? && r.value != Str ==> declared == JStr(TypeName(r.value))
    ensures declared.JStr? && !KnownTypeName(declared.s) ==> r == Success(Str)
  {
    match declared
    case JArr(_) => Failure("unhashable type: 'list'")
    case JObj(_) => Failure("unhashable type: 'dict'")
    case JStr(s) =>
      if s == "integer" then Success(Int)
      else if s == "number" then Success(Float)
      else if s == "boolean" then Success(Bool)
      else if s == "array" then Success(List)
      else if s == "object" then Success(Dict)
      else Success(Str)
    case _ => Success(Str)
  }

  /** Every schema type name selects the type it names. */
  lemma TypeNameSelectsType(t: PyType)
    ensures TypeFor(JStr(TypeName(t))) == Success(t)
  {
  }

  /** A field with no default must be supplied; otherwise its default is used. */
  datatype FieldDefault = Required | DefaultValue(value: Json)

  datatype FieldSpec = FieldSpec(pyType: PyType, default: FieldDefault, description: Option<Json>)

  /** The field spec one output definition declares. */
  function FieldSpecOf(definition: Json): (r: Result<FieldSpec, string>)
    ensures !definition.JObj? ==> r == Failure("'" + PyTypeName(definition) + "' object has no attribute 'get'")
    ensures definition.JObj? ==>
              var d := definition.fields;
              var declared := Get(d, "type", JStr("string"));
              && (r.Failure? <==> TypeFor(declared).Failure?)
              && (r.Failure? ==> r.error == TypeFor(declared).error)
              && (r.Success? ==>
                    && r.value.pyType == TypeFor(declared).value
                    && (r.value.default.Required? <==> Truthy(Get(d, "required", JBool(false))))
                    && (r.value.default.DefaultValue? ==> r.value.default.value == Get(d, "default", JNull))
                    && (r.value.description.Some? <==> Truthy(Get(d, "description", JStr(""))))
                    && (r.value.description.Some? ==> r.value.description.value == d["description"]))
  {
    if !definition.JObj? then
      Failure("'" + PyTypeName(definition) + "' object has no attribute 'get'")
    else
      var d := definition.fields;
      var isRequired := Truthy(Get(d, "required", JBool(false)));
      var t := TypeFor(Get(d, "type", JStr("string")));
      if t.Failure? then Failure(t.error)
      else
        var description := Get(d, "description", JStr(""));
        Success(FieldSpec(
          t.value,
          if isRequired then Required else DefaultValue(Get(d, "default", JNull)),
          if Truthy(description) then Some(description) else None))
  }

  /**
   * A definition that declares none of "type", "required", "default" and
   * "description" gives an optional string field defaulting to None.
   */
  lemma AbsentKeysDefaults(d: map<string, Json>)
    requires "type" !in d && "required" !in d && "default" !in d && "description" !in d
    ensures FieldSpecOf(JObj(d)) == Success(FieldSpec(Str, DefaultValue(JNull), None))
  {
  }

  /**
   * Float values pass through as YAML gives them: a float default is kept,
   * a zero `required` is falsy, and a float definition has no `get`.
   */
  lemma FloatDefinitions(x: real)
    ensures FieldSpecOf(JObj(map["type" := JStr("number"), "default" := JFloat(x)]))
            == Success(FieldSpec(Float, DefaultValue(JFloat(x)), None))
    ensures FieldSpecOf(JObj(map["required" := JFloat(0.0)])) == Success(FieldSpec(Str, DefaultValue(JNull), None))
    ensures FieldSpecOf(JFloat(x)) == Failure("'" + "float" + "' object has no attribute 'get'")
  {
    assert PyTypeName(JFloat(x)) == "float";
  }

  /** The names of a schema, which (as keys of a mapping) are distinct. */
  predicate DistinctNames(schema: seq<(string, Json)>)
  {
    forall i, j :: 0 <= i < j < |schema| ==> schema[i].0 != schema[j].0
  }

  /**
   * `create_output_model_from_schema`'s loop: one field per schema entry,
   * in schema order; the first malformed definition aborts the build.
   */
  method BuildFields(schema: seq<(string, Json)>) returns (r: Result<seq<(string, FieldSpec)>, string>)
    requires DistinctNames(schema)
    ensures r.Failure? <==> exists i :: 0 <= i < |schema| && FieldSpecOf(schema[i].1).Failure?
    ensures r.Failure? ==> exists i :: 0 <= i < |schema| && FieldSpecOf(schema[i].1).Failure?
                                    && r.error == FieldSpecOf(schema[i].1).error
                                    && forall k :: 0 <= k < i ==> FieldSpecOf(schema[k].1).Success?
    ensures r.Success? ==> |r.value| == |schema|
    ensures r.Success? ==> forall i :: 0 <= i < |schema| ==>
              r.value[i].0 == schema[i].0 && Success(r.value[i].1) == FieldSpecOf(schema[i].1)
    ensures r.Success? ==> forall i, j :: 0 <= i < j < |r.value| ==> r.value[i].0 != r.value[j].0
  {
    var fields: seq<(string, FieldSpec)> := [];
    var i := 0;
    while i < |schema|
      invariant 0 <= i <= |schema|
      invariant |fields| == i
      invariant forall k :: 0 <= k < i ==>
                  fields[k].0 == schema[k].0 && Success(fields[k].1) == FieldSpecOf(schema[k].1)
    {
      var spec := FieldSpecOf(schema[i].1);
      if spec.Failure? {
        return Failure(spec.error);
      }
      fields := fields + [(schema[i].0, spec.value)];
      i := i + 1;
    }
    return Success(fields);
  }

  /** The field a built model declares under `name`, if any. */
  function Lookup(fields: seq<(string, FieldSpec)>, name: string): Option<FieldSpec>
    decreases |fields|
  {
    if fields == [] then None
    else if fields[0].0 == name then Some(fields[0].1)
    else Lookup(fields[1..], name)
  }

  /**
   * In a successfully built model every declared output is found under its
   * own name with its own spec, and nothing else is found.
   */
  lemma {:induction false} LookupBuilt(schema: seq<(string, Json)>, fields: seq<(string, FieldSpec)>, name: string)
    requires DistinctNames(schema)
    requires |fields| == |schema|
    requires forall i :: 0 <= i < |schema| ==>
               fields[i].0 == schema[i].0 && Success(fields[i].1) == FieldSpecOf(schema[i].1)
    ensures Lookup(fields, name).None? <==> forall i :: 0 <= i < |schema| ==> schema[i].0 != name
    ensures forall i :: 0 <= i < |schema| && schema[i].0 == name ==>
              Lookup(fields, name) == Some(FieldSpecOf(schema[i].1).value)
    decreases |schema|
  {
    if schema != [] {
      LookupBuilt(schema[1..], fields[1..], name);
      if schema[0].0 != name {
        forall i | 0 <= i < |schema| && schema[i].0 == name
          ensures Lookup(fields, name) == Some(FieldSpecOf(schema[i].1).value)
        {
          assert schema[1..][i - 1] == schema[i];
        }
      }
    }
  }

  // ---------------------------------------------------------------------------
  // Which examples need a language model
  // ---------------------------------------------------------------------------

  const TURN_CALL: string := ".turn()"

  /** Python's `sub in s` on strings. */
  predicate Contains(s: string, sub: string)
    decreases |s|
  {
    IsPrefix(sub, s) || (s != [] && Contains(s[1..], sub))
  }

  /** `sub` occurs in `s` starting at index `i`. */
  predicate OccursAt(s: string, sub: string, i: int)
  {
    0 <= i <= |s| - |sub| && s[i..i + |sub|] == sub
  }

  /** `sub in s` holds exactly when `sub` occurs at some index of `s`. */
  lemma {:induction false} ContainsIff(s: string, sub: string)
    ensures Contains(s, sub) <==> exists i :: OccursAt(s, sub, i)
    decreases |s|
  {
    if s == [] {
      if sub == [] {
        assert OccursAt(s, sub, 0);
      }
      if exists i :: OccursAt(s, sub, i) {
        var i :| OccursAt(s, sub, i);
        assert sub == [];
      }
    } else {
      ContainsIff(s[1..], sub);
      if exists i :: OccursAt(s, sub, i) {
        var i :| OccursAt(s, sub, i);
        if i > 0 {
          assert s[1..][i - 1..i - 1 + |sub|] == s[i..i + |sub|];
          assert OccursAt(s[1..], sub, i - 1);
        }
      }
      if IsPrefix(sub, s) {
        assert OccursAt(s, sub, 0);
      }
      if Contains(s[1..], sub) {
        var i :| OccursAt(s[1..], sub, i);
        assert s[i + 1..i + 1 + |sub|] == s[1..][i..i + |sub|];
        assert OccursAt(s, sub, i + 1);
      }
    }
  }

  /** An example needs a language model when its text calls an agent turn. */
  predicate RequiresLlm(text: string)
  {
    Contains(text, TURN_CALL)
  }

  /** `requires_llm` is true exactly when ".turn()" occurs somewhere in the text. */
  lemma RequiresLlmIff(text: string)
    ensures RequiresLlm(text) <==> exists i :: OccursAt(text, TURN_CALL, i)
  {
    ContainsIff(text, TURN_CALL);
  }
}
