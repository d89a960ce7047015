/**
 * The checks of `handle_post_request` in src/http_server.cpp, from the parsed JSON document to an
 * accepted host and weight or the error response.
 */
module RequestHandling {
  import opened Machine
  import opened Options

  /**
   * A value as jsoncpp reports it: `Int` is what `isInt` accepts, and `text` of the last two is
   * what `asString` gives, None where it throws.
   */
  datatype Json =
    | Null
    | Str(chars: string)
    | Int(value: i32, text: Option<string>)
    | Other(text: Option<string>)

  /** The root of a document; indexing anything but an object or null throws. */
  datatype Document = Object(fields: map<string, Json>) | NullRoot | NotObject

  datatype Response = Response(status: int, error: Option<string>)

  const OK := Response(200, None)
  const UNPARSED := Response(400, Some("Could not parse JSON."))
  const NO_KEY := Response(401, Some("Missing API key."))
  const BAD_KEY := Response(401, Some("Invalid API key."))
  const NO_HOST := Response(400, Some("No host specified."))
  const NO_KERNELS := Response(400, Some("No available_kernels specified."))
  const BAD_KERNELS := Response(400, Some("available_kernels needs to be an integer value."))
  const NOT_SET := Response(500, Some("Could not set weight."))

  datatype Verdict = Accept(host: Json, weight: i32) | Reject(response: Response) | Thrown

  /** `root[name]`: null for a missing member. */
  function Member(d: Document, name: string): (v: Json)
    requires !d.NotObject?
  {
    if d.Object? && name in d.fields then d.fields[name] else Null
  }

  function AsString(v: Json): (s: Option<string>) {
    match v
    case Null => Some("")
    case Str(chars) => Some(chars)
    case Int(_, text) => text
    case Other(text) => text
  }

  /** The checks in order; `doc` is None when the body is not JSON. */
  function Validate(doc: Option<Document>, apiKey: string): (v: Verdict) {
    if doc.None? then Reject(UNPARSED)
    else if doc.value.NotObject? then Thrown
    else
      var key, host, kernels :=
        Member(doc.value, "api_key"), Member(doc.value, "host"), Member(doc.value, "available_kernels");
      if key.Null? then Reject(NO_KEY)
      else if key != Str(apiKey) then Reject(BAD_KEY)
      else if host.Null? then Reject(NO_HOST)
      else if kernels.Null? then Reject(NO_KERNELS)
      else if !kernels.Int? then Reject(BAD_KERNELS)
      else Accept(host, kernels.value)
  }

  /** The document carries the configured key as a string. */
  predicate Authentic(doc: Option<Document>, apiKey: string) {
    doc.Some? && doc.value.Object? && "api_key" in doc.value.fields && doc.value.fields["api_key"] == Str(apiKey)
  }

  /** The documents that ask for `weight` on `host`: all three members are there, with the right types. */
  predicate Asks(doc: Option<Document>, apiKey: string, host: Json, weight: i32) {
    && Authentic(doc, apiKey)
    && "host" in doc.value.fields && doc.value.fields["host"] == host && host != Null
    && "available_kernels" in doc.value.fields
    && doc.value.fields["available_kernels"].Int? && doc.value.fields["available_kernels"].value == weight
  }

  /** Exactly the well-formed, authentic requests are accepted, with the values they carry. */
  lemma {:induction false} AcceptedIff(doc: Option<Document>, apiKey: string, host: Json, weight: i32)
    ensures Validate(doc, apiKey) == Accept(host, weight) <==> Asks(doc, apiKey, host, weight)
  {
  }

  predicate Given(d: Document, name: string) {
    d.Object? && name in d.fields && d.fields[name] != Null
  }

  lemma {:induction false} MessagesDiffer()
    ensures NO_KEY != BAD_KEY && NO_HOST != NO_KERNELS && NO_KERNELS != BAD_KERNELS && NO_HOST != BAD_KERNELS
  {
    var missing, invalid := "Missing API key.", "Invalid API key.";
    assert missing[0] == 'M' && invalid[0] == 'I';
    assert |NO_HOST.error.value| == 18 && |NO_KERNELS.error.value| == 31 && |BAD_KERNELS.error.value| == 47;
  }

  /** Only a root that cannot be indexed throws. */
  lemma {:induction false} ThrownIff(doc: Option<Document>, apiKey: string)
    ensures Validate(doc, apiKey).Thrown? <==> doc.Some? && doc.value.NotObject?
  {
  }

  /** Which complaint a body gets: for its syntax, then for the key, then the host, then the weight. */
  predicate Complaint(doc: Option<Document>, apiKey: string, r: Response) {
    if doc.None? then r == UNPARSED && r.status == 400
    else
      var d, known := doc.value, Authentic(doc, apiKey);
      && !d.NotObject? && r.status == (if known then 400 else 401)
      && (r == NO_KEY <==> !Given(d, "api_key"))
      && (r == BAD_KEY <==> Given(d, "api_key") && !known)
      && (r == NO_HOST <==> known && !Given(d, "host"))
      && (r == NO_KERNELS <==> known && Given(d, "host") && !Given(d, "available_kernels"))
      && (r == BAD_KERNELS <==>
          known && Given(d, "host") && Given(d, "available_kernels") && !d.fields["available_kernels"].Int?)
  }

  lemma {:induction false} RejectedIff(doc: Option<Document>, apiKey: string, r: Response)
    requires Validate(doc, apiKey) == Reject(r)
    ensures Complaint(doc, apiKey, r)
  {
    MessagesDiffer();
  }

  /**
   * Without the key the answer depends on the `api_key` member alone: two documents that agree on
   * it get the same response whatever else they hold.
   */
  lemma {:induction false} UnauthenticLearnsNothing(d: Document, d': Document, apiKey: string)
    requires !d.NotObject? && !d'.NotObject? && Member(d, "api_key") == Member(d', "api_key")
    requires !Authentic(Some(d), apiKey)
    ensures Validate(Some(d), apiKey) == Validate(Some(d'), apiKey)
    ensures Validate(Some(d), apiKey).Reject? && Validate(Some(d), apiKey).response.status == 401
  {
  }
}
