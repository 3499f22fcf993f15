/**
 * The vocabulary of backend/models.py: the Bias and Extent enumerations and the
 * request and response records, with the validation pydantic applies when a
 * record is built from a decoded JSON object.
 */
module Models {
  import opened Wrappers

  datatype Bias = Left | Right | Neutral

  datatype Extent = Minimal | Moderate | Strong | Extreme

  /** The string value of each member (equal to its name). */
  function BiasValue(b: Bias): (r: string)
    ensures r in {"left", "right", "neutral"}
  {
    match b
    case Left => "left"
    case Right => "right"
    case Neutral => "neutral"
  }

  function ExtentValue(e: Extent): (r: string)
    ensures r in {"minimal", "moderate", "strong", "extreme"}
    ensures r != "none"
  {
    match e
    case Minimal => "minimal"
    case Moderate => "moderate"
    case Strong => "strong"
    case Extreme => "extreme"
  }

  /** `Bias(s)`: the member whose value is `s`, if there is one. */
  function ParseBias(s: string): (r: Option<Bias>)
    ensures r.Some? <==> s in {"left", "right", "neutral"}
    ensures r.Some? ==> BiasValue(r.value) == s
  {
    if s == "left" then Some(Left)
    else if s == "right" then Some(Right)
    else if s == "neutral" then Some(Neutral)
    else None
  }

  /** `Extent(s)`: the member whose value is `s`, if there is one. */
  function ParseExtent(s: string): (r: Option<Extent>)
    ensures r.Some? <==> s in {"minimal", "moderate", "strong", "extreme"}
    ensures r.Some? ==> ExtentValue(r.value) == s
  {
    if s == "minimal" then Some(Minimal)
    else if s == "moderate" then Some(Moderate)
    else if s == "strong" then Some(Strong)
    else if s == "extreme" then Some(Extreme)
    else None
  }

  lemma BiasRoundTrip(b: Bias)
    ensures ParseBias(BiasValue(b)) == Some(b)
  {
    match b
    case Left =>
    case Right =>
    case Neutral =>
  }

  lemma ExtentRoundTrip(e: Extent)
    ensures ParseExtent(ExtentValue(e)) == Some(e)
  {
    match e
    case Minimal =>
    case Moderate =>
    case Strong =>
    case Extreme =>
  }

  /** The label "none" that the data preparation emits for a zero vote difference is no Extent. */
  lemma NoneIsNoExtent()
    ensures ParseExtent("none") == None
    ensures forall e: Extent :: ExtentValue(e) != "none"
  {
    forall e: Extent ensures ExtentValue(e) != "none" {
      ExtentRoundTrip(e);
    }
  }

  /** A decoded JSON value, as far as these records look at it. */
  datatype Value = Str(s: string) | Bool(b: bool) | Null

  type Object = map<string, Value>

  datatype FieldError = Missing(field: string) | WrongType(field: string) | NotAMember(field: string)

  datatype Request = Request(id: string, text: string, url: string)

  datatype ProcessingResponse = ProcessingResponse(
    processing: bool, success: bool, hash: Option<string>, bias: Option<Bias>, extent: Option<Extent>)

  datatype PollingResponse = PollingResponse(success: bool, hash: string, bias: Bias, extent: Extent)

  function ErrorsOf<T>(r: Result<T, FieldError>): seq<FieldError>
  {
    if r.Failure? then [r.error] else []
  }

  /** A `str` field without a default. */
  function RequiredStr(o: Object, f: string): (r: Result<string, FieldError>)
    ensures r.Success? <==> f in o && o[f].Str?
  {
    if f !in o then Failure(Missing(f))
    else if o[f].Str? then Success(o[f].s)
    else Failure(WrongType(f))
  }

  /** A `bool` field without a default. */
  function RequiredBool(o: Object, f: string): (r: Result<bool, FieldError>)
    ensures r.Success? <==> f in o && o[f].Bool?
  {
    if f !in o then Failure(Missing(f))
    else if o[f].Bool? then Success(o[f].b)
    else Failure(WrongType(f))
  }

  /** An `Optional[str]` field: absent and null both give None. */
  function OptionalStr(o: Object, f: string): (r: Result<Option<string>, FieldError>)
    ensures r.Success? <==> f !in o || !o[f].Bool?
    ensures r == Success(None) <==> f !in o || o[f].Null?
  {
    if f !in o || o[f].Null? then Success(None)
    else if o[f].Str? then Success(Some(o[f].s))
    else Failure(WrongType(f))
  }

  /** A string field holding a Bias value. */
  function BiasField(o: Object, f: string): (r: Result<Bias, FieldError>)
    ensures r.Success? <==> f in o && o[f].Str? && ParseBias(o[f].s).Some?
  {
    if f !in o then Failure(Missing(f))
    else if !o[f].Str? then Failure(WrongType(f))
    else match ParseBias(o[f].s)
      case Some(b) => Success(b)
      case None => Failure(NotAMember(f))
  }

  /** A string field holding an Extent value. */
  function ExtentField(o: Object, f: string): (r: Result<Extent, FieldError>)
    ensures r.Success? <==> f in o && o[f].Str? && ParseExtent(o[f].s).Some?
  {
    if f !in o then Failure(Missing(f))
    else if !o[f].Str? then Failure(WrongType(f))
    else match ParseExtent(o[f].s)
      case Some(e) => Success(e)
      case None => Failure(NotAMember(f))
  }

  /** `Optional[Bias]`: absent and null both give None. */
  function OptionalBias(o: Object, f: string): (r: Result<Option<Bias>, FieldError>)
    ensures r == Success(None) <==> f !in o || o[f].Null?
    ensures r.Failure? <==> f in o && !o[f].Null? && BiasField(o, f).Failure?
  {
    if f !in o || o[f].Null? then Success(None)
    else match BiasField(o, f)
      case Success(b) => Success(Some(b))
      case Failure(e) => Failure(e)
  }

  /** `Optional[Extent]`: absent and null both give None. */
  function OptionalExtent(o: Object, f: string): (r: Result<Option<Extent>, FieldError>)
    ensures r == Success(None) <==> f !in o || o[f].Null?
    ensures r.Failure? <==> f in o && !o[f].Null? && ExtentField(o, f).Failure?
  {
    if f !in o || o[f].Null? then Success(None)
    else match ExtentField(o, f)
      case Success(e) => Success(Some(e))
      case Failure(err) => Failure(err)
  }

  /** Builds a Request; every field is a required string, and every failing field is reported. */
  function ParseRequest(o: Object): (r: Result<Request, seq<FieldError>>)
    ensures r.Success? <==> (forall f :: f in ["id", "text", "url"] ==> f in o && o[f].Str?)
    ensures r.Success? ==> o["id"] == Str(r.value.id) && o["text"] == Str(r.value.text) && o["url"] == Str(r.value.url)
    ensures r.Failure? ==> |r.error| > 0
  {
    var id, text, url := RequiredStr(o, "id"), RequiredStr(o, "text"), RequiredStr(o, "url");
    if id.Success? && text.Success? && url.Success? then Success(Request(id.value, text.value, url.value))
    else Failure(ErrorsOf(id) + ErrorsOf(text) + ErrorsOf(url))
  }

  /** Builds a ProcessingResponse; `processing` and `success` are required, the rest may be absent or null. */
  function ParseProcessingResponse(o: Object): (r: Result<ProcessingResponse, seq<FieldError>>)
    ensures r.Success? <==>
      && "processing" in o && o["processing"].Bool?
      && "success" in o && o["success"].Bool?
      && ("hash" !in o || !o["hash"].Bool?)
      && OptionalBias(o, "bias").Success?
      && OptionalExtent(o, "extent").Success?
    ensures r.Success? ==> o["processing"] == Bool(r.value.processing) && o["success"] == Bool(r.value.success)
    ensures r.Success? ==>
      && (r.value.hash == None <==> "hash" !in o || o["hash"].Null?)
      && (r.value.hash.Some? ==> o["hash"] == Str(r.value.hash.value))
    ensures r.Success? ==>
      && (r.value.bias == None <==> "bias" !in o || o["bias"].Null?)
      && (r.value.bias.Some? ==> o["bias"] == Str(BiasValue(r.value.bias.value)))
    ensures r.Success? ==>
      && (r.value.extent == None <==> "extent" !in o || o["extent"].Null?)
      && (r.value.extent.Some? ==> o["extent"] == Str(ExtentValue(r.value.extent.value)))
    ensures r.Failure? ==> |r.error| > 0
  {
    var processing, success := RequiredBool(o, "processing"), RequiredBool(o, "success");
    var hash, bias, extent := OptionalStr(o, "hash"), OptionalBias(o, "bias"), OptionalExtent(o, "extent");
    if processing.Success? && success.Success? && hash.Success? && bias.Success? && extent.Success? then
      Success(ProcessingResponse(processing.value, success.value, hash.value, bias.value, extent.value))
    else
      Failure(ErrorsOf(processing) + ErrorsOf(success) + ErrorsOf(hash) + ErrorsOf(bias) + ErrorsOf(extent))
  }

  /** Builds a PollingResponse; every field is required. */
  function ParsePollingResponse(o: Object): (r: Result<PollingResponse, seq<FieldError>>)
    ensures r.Success? <==>
      && "success" in o && o["success"].Bool?
      && "hash" in o && o["hash"].Str?
      && "bias" in o && o["bias"].Str? && ParseBias(o["bias"].s).Some?
      && "extent" in o && o["extent"].Str? && ParseExtent(o["extent"].s).Some?
    ensures r.Success? ==>
      && o["success"] == Bool(r.value.success) && o["hash"] == Str(r.value.hash)
      && o["bias"] == Str(BiasValue(r.value.bias)) && o["extent"] == Str(ExtentValue(r.value.extent))
    ensures r.Failure? ==> |r.error| > 0
  {
    var success, hash := RequiredBool(o, "success"), RequiredStr(o, "hash");
    var bias, extent := BiasField(o, "bias"), ExtentField(o, "extent");
    if success.Success? && hash.Success? && bias.Success? && extent.Success? then
      Success(PollingResponse(success.value, hash.value, bias.value, extent.value))
    else
      Failure(ErrorsOf(success) + ErrorsOf(hash) + ErrorsOf(bias) + ErrorsOf(extent))
  }

  function OptionValue(o: Option<string>): Value
  {
    if o.Some? then Str(o.value) else Null
  }

  /** The JSON object a record serialises to. */
  function RequestObject(r: Request): Object
  {
    map["id" := Str(r.id), "text" := Str(r.text), "url" := Str(r.url)]
  }

  function ProcessingObject(p: ProcessingResponse): Object
  {
    map["processing" := Bool(p.processing), "success" := Bool(p.success), "hash" := OptionValue(p.hash),
        "bias" := if p.bias.Some? then Str(BiasValue(p.bias.value)) else Null,
        "extent" := if p.extent.Some? then Str(ExtentValue(p.extent.value)) else Null]
  }

  function PollingObject(p: PollingResponse): Object
  {
    map["success" := Bool(p.success), "hash" := Str(p.hash),
        "bias" := Str(BiasValue(p.bias)), "extent" := Str(ExtentValue(p.extent))]
  }

  lemma RequestRoundTrip(r: Request)
    ensures ParseRequest(RequestObject(r)) == Success(r)
  {
  }

  lemma ProcessingRoundTrip(p: ProcessingResponse)
    ensures ParseProcessingResponse(ProcessingObject(p)) == Success(p)
  {
    if p.bias.Some? { BiasRoundTrip(p.bias.value); }
    if p.extent.Some? { ExtentRoundTrip(p.extent.value); }
  }

  lemma PollingRoundTrip(p: PollingResponse)
    ensures ParsePollingResponse(PollingObject(p)) == Success(p)
  {
    BiasRoundTrip(p.bias);
    ExtentRoundTrip(p.extent);
  }
}
