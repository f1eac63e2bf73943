/** Criteria normalisation (`parse_criteria`, main.py:25-47) and the
    post-processing of the oracle's reply in `extract_criteria`
    (main.py:105-109). */
module Criteria {
  import opened Wrappers
  import opened Dicts
  import opened Json

  /** The shapes `parse_criteria` dispatches on. */
  datatype CriteriaInput =
      /** A string; `decoded` is what `json.loads` makes of it, or the
          decoder's complaint when the text is not JSON. */
    | JsonText(decoded: Result<Value, string>)
      /** An already-decoded dict. */
    | Mapping(fields: Dict<Value>)
      /** An `ExtractCriteriaResponse`, whose `criteria` is a list of strings. */
    | Typed(criteria: seq<string>)
      /** Anything else. */
    | OtherShape

  /** The `ValueError` `parse_criteria` raises: a decoder failure, or any other
      failure re-wrapped by the catch-all handler. */
  datatype ParseError = InvalidJson(cause: string) | Malformed(cause: string) {
    function Message(): string {
      match this
      case InvalidJson(cause) => "Invalid JSON format: " + cause
      case Malformed(cause) => "Error parsing criteria: " + cause
    }
  }

  const TextMissingKey := "JSON must contain a 'criteria' key with an array value"
  const MappingMissingKey := "Dictionary must contain a 'criteria' key with an array value"
  const UnsupportedFormat := "Unsupported criteria format"

  /** The value stored under "criteria", whatever its type: the code does not
      check that it is a list of strings. */
  function ParseCriteria(input: CriteriaInput): (r: Result<Value, ParseError>)
    ensures (r.Failure? && r.error.InvalidJson?) <==> input.JsonText? && input.decoded.Failure?
    ensures input.JsonText? && input.decoded.Failure? ==> r.error.cause == input.decoded.error
    ensures input.JsonText? && input.decoded.Success? ==>
              (r.Success? <==> input.decoded.value.Object? && "criteria" in Keys(input.decoded.value.fields))
    ensures input.JsonText? && input.decoded.Success? && r.Success? ==>
              Get(input.decoded.value.fields, "criteria") == Some(r.value)
    ensures input.JsonText? && r.Failure? && r.error.Malformed? ==> r.error.cause == TextMissingKey
    ensures input.Mapping? ==> (r.Success? <==> "criteria" in Keys(input.fields))
    ensures input.Mapping? && r.Success? ==> Get(input.fields, "criteria") == Some(r.value)
    ensures input.Mapping? && r.Failure? ==> r.error == Malformed(MappingMissingKey)
    ensures input.Typed? ==> r == Success(StrList(input.criteria))
    ensures input.OtherShape? ==> r == Failure(Malformed(UnsupportedFormat))
  {
    match input
    case JsonText(decoded) =>
      if decoded.Failure? then Failure(InvalidJson(decoded.error))
      else if decoded.value.Object? && Get(decoded.value.fields, "criteria").Some? then
        Success(Get(decoded.value.fields, "criteria").value)
      else
        Failure(Malformed(TextMissingKey))
    case Mapping(fields) =>
      if Get(fields, "criteria").Some? then Success(Get(fields, "criteria").value)
      else Failure(Malformed(MappingMissingKey))
    case Typed(criteria) => Success(StrList(criteria))
    case OtherShape => Failure(Malformed(UnsupportedFormat))
  }

  /** The document `{"criteria": xs}`. */
  function Encode(xs: seq<string>): Value {
    Object([("criteria", StrList(xs))])
  }

  /** Round trip: `{"criteria": xs}`, whether given as JSON text, as a dict or
      as a typed response, normalises back to exactly `xs`, in order. */
  lemma CriteriaRoundTrip(xs: seq<string>)
    ensures ParseCriteria(JsonText(Success(Encode(xs)))) == Success(StrList(xs))
    ensures ParseCriteria(Mapping(Encode(xs).fields)) == Success(StrList(xs))
    ensures ParseCriteria(Typed(xs)) == Success(StrList(xs))
  {
  }

  /** A decoded document that is not a dict, or a dict without the key, is a
      missing-key error re-wrapped as "Error parsing criteria: ...". */
  lemma MissingKeyRejected(parsed: Value)
    requires !parsed.Object? || "criteria" !in Keys(parsed.fields)
    ensures ParseCriteria(JsonText(Success(parsed))) == Failure(Malformed(TextMissingKey))
  {
  }

  // ---------------------------------------------------------------------------
  // extract_criteria's treatment of the oracle's reply

  /** `result.get('criteria', [])`, replaced by `[]` unless it is a list; a
      reply that is not a dict has no `get` and raises. */
  function CriteriaFromReply(reply: Value): (r: Result<seq<Value>, string>)
    ensures r.Success? <==> reply.Object?
    ensures r.Failure? ==> r.error == "'" + TypeName(reply) + "' object has no attribute 'get'"
    ensures r.Success? && |r.value| > 0 ==> Get(reply.fields, "criteria") == Some(List(r.value))
    ensures r.Success? && Get(reply.fields, "criteria").Some? && Get(reply.fields, "criteria").value.List? ==>
              r.value == Get(reply.fields, "criteria").value.items
  {
    if reply.Object? then
      var stored := Get(reply.fields, "criteria");
      if stored.Some? && stored.value.List? then Success(stored.value.items) else Success([])
    else
      Failure("'" + TypeName(reply) + "' object has no attribute 'get'")
  }

  /** A dict reply whose "criteria" is absent or not a list yields `[]`. */
  lemma NonListCriteriaBecomeEmpty(fields: Dict<Value>)
    requires Get(fields, "criteria").None? || !Get(fields, "criteria").value.List?
    ensures CriteriaFromReply(Object(fields)) == Success([])
  {
  }
}
