/** Request-body parsing as src/HTTPContext.ts and src/std/Body.ts share
    it: which re-reads a context allows, the content-type checks, the
    two form decoders, and the decision flow after the checks. Reading
    the request stream, JSON.parse, URLSearchParams and FormData belong
    to the runtime: the request's text and form data are given, `json`
    stands for JSON.parse (an error carries its message) and `pairs` for
    URLSearchParams' decoding. */
module BodyParse {
  import opened Wrappers
  import opened Text
  import opened SystemErrors
  import opened Href

  /** What the body was last parsed as (`ParsedBodyMode`). */
  datatype Mode = NoMode | TextMode | JsonMode | FormMode | MultipartMode

  /** The expected body type a handler asks for (`BodyType`). */
  datatype BodyType = TextBody | JsonBody | FormBody | MultipartBody

  /** `formMode`: "last", "multi" or "params". */
  datatype FormStyle = LastValue | MultiValue | ParamsList

  /** A field of a "multi" form: one value, or all of them in order. */
  datatype FormValue = Single(v: string) | Several(vs: seq<string>)

  /** What a parse returns. */
  datatype Parsed<J> =
    | RawText(text: string)
    | JsonDoc(doc: J)
    | FormLast(fields: map<string, string>)
    | FormMulti(multi: map<string, FormValue>)
    | FormParams(pairs: Pairs)
    | FormData(data: Pairs)

  /** The request as the parser sees it: its Content-Type header (absent
      reads as ""), whether it has a body at all, its body text and its
      multipart form data. A body can be read from the request once; a
      request without one reads as empty text every time. */
  datatype Request = Request(contentType: Option<string>, hasBody: bool, text: string, formData: Pairs)

  /** The context's parse cache: the mode, the raw text once read, and the
      parsed value. */
  datatype BodyState<J> = BodyState(mode: Mode, raw: Option<string>, body: Option<Parsed<J>>)

  function Fresh<J>(): BodyState<J> {
    BodyState(NoMode, None, None)
  }

  /** A parse returns the new cache together with the value or the error:
      a failure after the text was read still leaves it cached. */
  datatype Outcome<J> = Outcome(state: BodyState<J>, result: Result<Parsed<J>, Failure>)

  function ParseFailure(message: string): Failure {
    SystemErr(BodyParsingFailed, message)
  }

  /** The runtime's TypeError for reading a request body a second time. */
  const BodyUsed := PlainError("Body already used")

  /** The request's body has been read: as text (the text is cached) or
      as multipart form data. */
  predicate Consumed<J>(st: BodyState<J>) {
    st.raw.Some? || st.mode == MultipartMode
  }

  const JsonType := "application/json"
  const FormType := "application/x-www-form-urlencoded"
  const MultipartType := "multipart/form-data"

  /** The lower-cased Content-Type. */
  function ContentType(req: Request): string {
    ToLower(req.contentType.GetOr(""))
  }

  /** Which re-reads are allowed: JSON and FORM exclude each other,
      MULTIPART is final, and MULTIPART only follows nothing or itself. */
  predicate MayFollow(cur: Mode, next: Mode) {
    && !(cur == JsonMode && next == FormMode)
    && !(cur == FormMode && next == JsonMode)
    && (cur == MultipartMode ==> next == MultipartMode)
    && (next == MultipartMode ==> cur == NoMode || cur == MultipartMode)
  }

  /** `assertReparseAllowed(next)`: refuses exactly the re-reads
      `MayFollow` excludes, with BODY_PARSING_FAILED. */
  function ReparseCheck(cur: Mode, next: Mode): (r: Option<Failure>)
    ensures r.Some? ==> r.value.SystemErr? && r.value.code == BodyParsingFailed
    ensures r.None? <==> MayFollow(cur, next)
  {
    if cur == JsonMode && next == FormMode then
      Some(ParseFailure("Body already parsed as JSON; re-parsing as FORM is not allowed."))
    else if cur == FormMode && next == JsonMode then
      Some(ParseFailure("Body already parsed as FORM; re-parsing as JSON is not allowed."))
    else if cur == MultipartMode && next != MultipartMode then
      Some(ParseFailure("Body already consumed as MULTIPART; it cannot be re-parsed."))
    else if next == MultipartMode && cur != NoMode && cur != MultipartMode then
      Some(ParseFailure("Body already consumed as TEXT/JSON/FORM; it cannot be re-parsed as MULTIPART."))
    else None
  }

  /** `enforceStrictContentType`: in strict mode a JSON, FORM or MULTIPART
      expectation needs the matching Content-Type; TEXT is exempt. */
  function StrictCheck(expected: BodyType, strict: bool, ct: string): (r: Option<Failure>)
    ensures r.Some? <==> (strict && (
      || (expected == JsonBody && !Includes(ct, JsonType))
      || (expected == FormBody && !Includes(ct, FormType))
      || (expected == MultipartBody && !Includes(ct, MultipartType))))
    ensures r.Some? ==> r.value.SystemErr? && r.value.code == BodyParsingFailed
  {
    if !strict || expected == TextBody then None
    else if expected == JsonBody && !Includes(ct, JsonType) then
      Some(ParseFailure("Expected Content-Type application/json"))
    else if expected == FormBody && !Includes(ct, FormType) then
      Some(ParseFailure("Expected Content-Type application/x-www-form-urlencoded"))
    else if expected == MultipartBody && !Includes(ct, MultipartType) then
      Some(ParseFailure("Expected Content-Type multipart/form-data"))
    else None
  }

  /** `parseFormLast` (`Object.fromEntries`): pairs read in order, so the
      last value of a repeated key wins. */
  function FormLastOf(ps: Pairs): (m: map<string, string>)
    ensures forall k :: k in m <==> |Values(ps, k)| > 0
    decreases |ps|
  {
    if |ps| == 0 then map[]
    else
      var front := ps[..|ps| - 1];
      var last := ps[|ps| - 1];
      assert ps == front + [last];
      ValuesAppend(front, [last], last.0);
      forall k | k != last.0 ensures Values(ps, k) == Values(front, k) {
        ValuesAppend(front, [last], k);
        assert Values([last], k) == [];
      }
      FormLastOf(front)[last.0 := last.1]
  }

  /** Under "last", each key holds the last of its values. */
  lemma {:induction false} FormLastIsLast(ps: Pairs, k: string)
    requires |Values(ps, k)| > 0
    ensures FormLastOf(ps)[k] == Values(ps, k)[|Values(ps, k)| - 1]
    decreases |ps|
  {
    var front := ps[..|ps| - 1];
    var last := ps[|ps| - 1];
    assert ps == front + [last];
    ValuesAppend(front, [last], k);
    if last.0 != k {
      FormLastIsLast(front, k);
    }
  }

  /** One pair added to a "multi" form: a first value is stored alone, a
      second turns the field into a list, later ones extend it. */
  function MultiStep(m: map<string, FormValue>, k: string, v: string): map<string, FormValue> {
    if k !in m then m[k := Single(v)]
    else match m[k]
      case Several(vs) => m[k := Several(vs + [v])]
      case Single(cur) => m[k := Several([cur, v])]
  }

  /** `parseFormMulti`. */
  function FormMultiOf(ps: Pairs): map<string, FormValue>
    decreases |ps|
  {
    if |ps| == 0 then map[]
    else MultiStep(FormMultiOf(ps[..|ps| - 1]), ps[|ps| - 1].0, ps[|ps| - 1].1)
  }

  /** The "multi" reading of a field in terms of its values. */
  function AsMulti(vs: seq<string>): FormValue
    requires |vs| > 0
  {
    if |vs| == 1 then Single(vs[0]) else Several(vs)
  }

  /** Under "multi", a key seen once maps to its value and a repeated key
      to all its values in order; keys never seen are absent. */
  lemma {:induction false} FormMultiValues(ps: Pairs, k: string)
    ensures k in FormMultiOf(ps) <==> |Values(ps, k)| > 0
    ensures k in FormMultiOf(ps) ==> FormMultiOf(ps)[k] == AsMulti(Values(ps, k))
    decreases |ps|
  {
    if |ps| > 0 {
      var front := ps[..|ps| - 1];
      var last := ps[|ps| - 1];
      assert ps == front + [last];
      ValuesAppend(front, [last], k);
      FormMultiValues(front, k);
      if last.0 == k && |Values(front, k)| == 1 {
        assert Values(ps, k) == [Values(front, k)[0], last.1];
      }
    }
  }

  /** What a form read in `style` gives for the pairs `ps`: under
      "params" the pairs themselves; under "last" each key that has values
      with the last of them; under "multi" each such key with its one
      value or all of them in order. */
  ghost predicate FormReads<J>(ps: Pairs, style: FormStyle, parsed: Parsed<J>) {
    match style
    case ParamsList => parsed == FormParams(ps)
    case LastValue =>
      && parsed.FormLast?
      && (forall k :: k in parsed.fields <==> |Values(ps, k)| > 0)
      && (forall k :: k in parsed.fields ==> parsed.fields[k] == Values(ps, k)[|Values(ps, k)| - 1])
    case MultiValue =>
      && parsed.FormMulti?
      && (forall k :: k in parsed.multi <==> |Values(ps, k)| > 0)
      && (forall k :: k in parsed.multi ==> |Values(ps, k)| > 0 && parsed.multi[k] == AsMulti(Values(ps, k)))
  }

  /** Reads the raw text as a form in the requested style; "params"
      returns the pairs and leaves the cache alone, the other styles cache
      what they read. */
  function ReadForm<J>(st: BodyState<J>, raw: string, style: FormStyle, pairs: string -> Pairs): (o: Outcome<J>)
    ensures o.result.Ok? && FormReads(pairs(raw), style, o.result.value)
    ensures style == ParamsList ==> o.state == st
    ensures style != ParamsList ==> o.state == BodyState(FormMode, st.raw, Some(o.result.value))
  {
    var ps := pairs(raw);
    if style == ParamsList then Outcome(st, Ok(FormParams(ps)))
    else
      var parsed := if style == MultiValue then FormMulti(FormMultiOf(ps)) else FormLast(FormLastOf(ps));
      FormStylesRead<J>(ps);
      Outcome(BodyState(FormMode, st.raw, Some(parsed)), Ok(parsed))
  }

  lemma FormStylesRead<J>(ps: Pairs)
    ensures FormReads<J>(ps, LastValue, FormLast(FormLastOf(ps)))
    ensures FormReads<J>(ps, MultiValue, FormMulti(FormMultiOf(ps)))
  {
    forall k | k in FormLastOf(ps) ensures FormLastOf(ps)[k] == Values(ps, k)[|Values(ps, k)| - 1] {
      FormLastIsLast(ps, k);
    }
    forall k ensures (k in FormMultiOf(ps) <==> |Values(ps, k)| > 0)
      && (k in FormMultiOf(ps) ==> |Values(ps, k)| > 0 && FormMultiOf(ps)[k] == AsMulti(Values(ps, k)))
    {
      FormMultiValues(ps, k);
    }
  }

  /** Parses the raw text as JSON; a failure is BODY_PARSING_FAILED with
      the parser's message, and leaves the cache as it was. */
  function ReadJson<J>(st: BodyState<J>, raw: string, json: string -> Result<J, string>): (o: Outcome<J>)
    ensures json(raw).Ok? ==> o == Outcome(BodyState(JsonMode, st.raw, Some(JsonDoc(json(raw).value))), Ok(JsonDoc(json(raw).value)))
    ensures json(raw).Err? ==> o == Outcome(st, Err(ParseFailure("JSON parsing failed: " + json(raw).error)))
  {
    match json(raw)
    case Ok(doc) => Outcome(BodyState(JsonMode, st.raw, Some(JsonDoc(doc))), Ok(JsonDoc(doc)))
    case Err(msg) => Outcome(st, Err(ParseFailure("JSON parsing failed: " + msg)))
  }

  /** The mode an expected type claims before the text is read; an
      expected MULTIPART without a multipart Content-Type reads as TEXT. */
  function ClaimedMode(expected: BodyType): Mode {
    match expected
    case TextBody => TextMode
    case JsonBody => JsonMode
    case FormBody => FormMode
    case MultipartBody => TextMode
  }

  /** A successful read moves the mode only along an allowed re-read. */
  predicate Moves<J>(st: BodyState<J>, o: Outcome<J>) {
    o.result.Ok? ==> o.state.mode == st.mode || MayFollow(st.mode, o.state.mode)
  }

  /** A successful JSON read leaves its document cached. */
  ghost predicate JsonCached<J>(expected: BodyType, o: Outcome<J>) {
    expected == JsonBody && o.result.Ok? ==> o.state.mode == JsonMode && o.state.body == Some(o.result.value)
  }

  /** The text has been read before: JSON and FORM parse it again, TEXT
      returns it. */
  function ReadFromRaw<J>(st: BodyState<J>, expected: BodyType, style: FormStyle,
                          json: string -> Result<J, string>, pairs: string -> Pairs): (o: Outcome<J>)
    requires st.raw.Some? && expected != MultipartBody
    ensures Moves(st, o) && o.state.raw == st.raw
    ensures JsonCached(expected, o)
    ensures expected == TextBody ==> o.result == Ok(RawText(st.raw.value))
    ensures expected == JsonBody ==> (o.result.Ok? <==> MayFollow(st.mode, JsonMode) && json(st.raw.value).Ok?)
    ensures expected == JsonBody && o.result.Ok? ==> o.result.value == JsonDoc(json(st.raw.value).value)
    ensures expected == FormBody ==> (o.result.Ok? <==> MayFollow(st.mode, FormMode))
    ensures expected == FormBody && o.result.Ok? ==> FormReads(pairs(st.raw.value), style, o.result.value)
  {
    if expected == JsonBody then
      match ReparseCheck(st.mode, JsonMode)
      case Some(e) => Outcome(st, Err(e))
      case None => ReadJson(st, st.raw.value, json)
    else if expected == FormBody then
      match ReparseCheck(st.mode, FormMode)
      case Some(e) => Outcome(st, Err(e))
      case None => ReadForm(st, st.raw.value, style, pairs)
    else
      Outcome(st.(mode := if st.mode == NoMode then TextMode else st.mode), Ok(RawText(st.raw.value)))
  }

  /** The body is read from the request: a multipart request only as
      MULTIPART, anything else as text, parsed as expected. Once the
      request's body was read, reading it again is refused by the runtime
      and the cache stays as it was. */
  function ReadFromRequest<J>(st: BodyState<J>, req: Request, expected: BodyType, style: FormStyle,
                              json: string -> Result<J, string>, pairs: string -> Pairs): (o: Outcome<J>)
    ensures Moves(st, o)
    ensures JsonCached(expected, o)
    ensures Includes(ContentType(req), MultipartType) && expected != MultipartBody ==>
      o == Outcome(st, Err(ParseFailure("Unexpected MULTIPART_FORM data")))
    ensures Includes(ContentType(req), MultipartType) && expected == MultipartBody ==>
      (o.result.Ok? <==> MayFollow(st.mode, MultipartMode) && !(Consumed(st) && req.hasBody))
    ensures Includes(ContentType(req), MultipartType) && o.result.Ok? ==>
      o.result.value == FormData(req.formData) && o.state == BodyState(MultipartMode, st.raw, Some(FormData(req.formData)))
    ensures Includes(ContentType(req), MultipartType) && expected == MultipartBody && Consumed(st) && req.hasBody ==>
      (o.result.Err? && o.state == st)
    ensures !Includes(ContentType(req), MultipartType) && MayFollow(st.mode, ClaimedMode(expected)) && Consumed(st) && req.hasBody ==>
      o == Outcome(st, Err(BodyUsed))
    ensures !Includes(ContentType(req), MultipartType) && !(Consumed(st) && req.hasBody) ==>
      TextRead(st, req.text, expected, style, json, pairs, o)
    ensures !Includes(ContentType(req), MultipartType) && o.result.Ok? ==> MayFollow(st.mode, ClaimedMode(expected))
  {
    if Includes(ContentType(req), MultipartType) then
      if expected != MultipartBody then Outcome(st, Err(ParseFailure("Unexpected MULTIPART_FORM data")))
      else match ReparseCheck(st.mode, MultipartMode)
        case Some(e) => Outcome(st, Err(e))
        case None =>
          if Consumed(st) && req.hasBody then Outcome(st, Err(BodyUsed))
          else Outcome(BodyState(MultipartMode, st.raw, Some(FormData(req.formData))), Ok(FormData(req.formData)))
    else match ReparseCheck(st.mode, ClaimedMode(expected))
      case Some(e) => Outcome(st, Err(e))
      case None =>
        if Consumed(st) && req.hasBody then Outcome(st, Err(BodyUsed))
        else ReadText(st, req.text, expected, style, json, pairs)
  }

  /** What reading `text` as `expected` gives: refused when the cache's
      mode forbids the claimed one; otherwise TEXT returns the text, JSON
      the parser's document or its failure, FORM the form in `style`. */
  ghost predicate TextRead<J>(st: BodyState<J>, text: string, expected: BodyType, style: FormStyle,
                              json: string -> Result<J, string>, pairs: string -> Pairs, o: Outcome<J>) {
    && (o.result.Ok? ==> MayFollow(st.mode, ClaimedMode(expected)))
    && (MayFollow(st.mode, ClaimedMode(expected)) ==>
      match expected
      case TextBody => o.result == Ok(RawText(text))
      case MultipartBody => o.result == Ok(RawText(text))
      case JsonBody =>
        (o.result.Ok? <==> json(text).Ok?) && (o.result.Ok? ==> o.result.value == JsonDoc(json(text).value))
      case FormBody => o.result.Ok? && FormReads(pairs(text), style, o.result.value))
  }

  /** A request that is not multipart is read as text, then parsed as
      expected; the text is cached even when the parse fails. */
  function ReadText<J>(st: BodyState<J>, text: string, expected: BodyType, style: FormStyle,
                       json: string -> Result<J, string>, pairs: string -> Pairs): (o: Outcome<J>)
    ensures Moves(st, o)
    ensures JsonCached(expected, o)
    ensures ReparseCheck(st.mode, ClaimedMode(expected)).Some? ==> o.state == st && o.result.Err?
    ensures ReparseCheck(st.mode, ClaimedMode(expected)).None? ==> o.state.raw == Some(text)
    ensures o.state.mode == st.mode || o.state.mode == ClaimedMode(expected)
    ensures TextRead(st, text, expected, style, json, pairs, o)
  {
    match ReparseCheck(st.mode, ClaimedMode(expected))
    case Some(e) => Outcome(st, Err(e))
    case None =>
      var read := st.(raw := Some(text));
      if expected == JsonBody then ReadJson(read, text, json)
      else if expected == FormBody then ReadForm(read, text, style, pairs)
      else Outcome(read.(mode := TextMode), Ok(RawText(text)))
  }

  /** `parseBody` after its content-type checks: a cached JSON document or
      text is returned as it is, otherwise the body is read again from the
      cached text or from the request. */
  function ParseAfterChecks<J>(st: BodyState<J>, req: Request, expected: BodyType, style: FormStyle,
                                json: string -> Result<J, string>, pairs: string -> Pairs): (o: Outcome<J>)
    ensures Moves(st, o)
    ensures JsonCached(expected, o)
    ensures st.mode == MultipartMode && o.result.Ok? ==> o.state.mode == MultipartMode
    ensures st.raw.Some? && expected != MultipartBody ==> o.state.raw == st.raw
  {
    if expected == JsonBody && st.body.Some? && st.mode == JsonMode then Outcome(st, Ok(st.body.value))
    else if expected == TextBody && st.raw.Some? && st.mode in {TextMode, JsonMode, FormMode} then
      Outcome(st, Ok(RawText(st.raw.value)))
    else if st.raw.Some? && expected != MultipartBody then ReadFromRaw(st, expected, style, json, pairs)
    else ReadFromRequest(st, req, expected, style, json, pairs)
  }

  /** A second JSON read returns the cached document without reading
      again. */
  lemma JsonReadIsCached<J>(st: BodyState<J>, req: Request, style: FormStyle,
                            json: string -> Result<J, string>, pairs: string -> Pairs, st2: BodyState<J>)
    requires ParseAfterChecks(st, req, JsonBody, style, json, pairs).result.Ok?
    requires st2 == ParseAfterChecks(st, req, JsonBody, style, json, pairs).state
    ensures st2.mode == JsonMode
    ensures ParseAfterChecks(st2, req, JsonBody, style, json, pairs)
         == Outcome(st2, ParseAfterChecks(st, req, JsonBody, style, json, pairs).result)
  {
  }

  /** Once the text has been read as TEXT, JSON or FORM, a TEXT read returns
      the cached text unchanged. */
  lemma TextReadIsCached<J>(st: BodyState<J>, req: Request, style: FormStyle,
                            json: string -> Result<J, string>, pairs: string -> Pairs)
    requires st.raw.Some? && st.mode in {TextMode, JsonMode, FormMode}
    ensures ParseAfterChecks(st, req, TextBody, style, json, pairs) == Outcome(st, Ok(RawText(st.raw.value)))
  {
  }

  /** TEXT then JSON: the JSON is parsed from the text already read. */
  lemma JsonAfterText<J>(st: BodyState<J>, req: Request, style: FormStyle,
                         json: string -> Result<J, string>, pairs: string -> Pairs)
    requires st.mode == TextMode && st.raw.Some?
    ensures ParseAfterChecks(st, req, JsonBody, style, json, pairs) == ReadJson(st, st.raw.value, json)
  {
    assert ReparseCheck(TextMode, JsonMode).None?;
  }

  /** A body that JSON.parse refuses (an empty one included, where the
      parser refuses "") fails with BODY_PARSING_FAILED on a first read. */
  lemma BadJsonFails<J>(req: Request, style: FormStyle, json: string -> Result<J, string>, pairs: string -> Pairs)
    requires json(req.text).Err? && !Includes(ContentType(req), MultipartType)
    ensures var o := ParseAfterChecks(Fresh<J>(), req, JsonBody, style, json, pairs);
      o.result == Err(ParseFailure("JSON parsing failed: " + json(req.text).error)) && o.state.raw == Some(req.text)
  {
  }

  /** What a context's cache can hold for a given request: cached text is
      that request's text and never a multipart body's, a MULTIPART read
      leaves no text, and TEXT, JSON and FORM modes come with the text. */
  predicate Coherent<J>(st: BodyState<J>, req: Request) {
    && (st.raw.Some? ==> st.raw.value == req.text && !Includes(ContentType(req), MultipartType))
    && (st.mode == MultipartMode ==> st.raw.None? && Includes(ContentType(req), MultipartType))
    && (st.mode in {TextMode, JsonMode, FormMode} ==> st.raw.Some?)
  }

  /** Every parse of the same request keeps the cache coherent, whatever
      it returns. */
  lemma ParseKeepsCoherent<J>(st: BodyState<J>, req: Request, expected: BodyType, style: FormStyle,
                              json: string -> Result<J, string>, pairs: string -> Pairs)
    requires Coherent(st, req)
    ensures Coherent(ParseAfterChecks(st, req, expected, style, json, pairs).state, req)
  {
    if expected == JsonBody && st.body.Some? && st.mode == JsonMode {
    } else if expected == TextBody && st.raw.Some? && st.mode in {TextMode, JsonMode, FormMode} {
    } else if st.raw.Some? && expected != MultipartBody {
      RawKeepsCoherent(st, req, expected, style, json, pairs);
    } else {
      RequestKeepsCoherent(st, req, expected, style, json, pairs);
    }
  }

  lemma RawKeepsCoherent<J>(st: BodyState<J>, req: Request, expected: BodyType, style: FormStyle,
                            json: string -> Result<J, string>, pairs: string -> Pairs)
    requires Coherent(st, req) && st.raw.Some? && expected != MultipartBody
    ensures Coherent(ReadFromRaw(st, expected, style, json, pairs).state, req)
  {
    var o := ReadFromRaw(st, expected, style, json, pairs);
    assert o.state.raw == st.raw;
    assert st.mode != MultipartMode;
    if expected == TextBody {
      assert o.state.mode != MultipartMode;
    } else if expected == JsonBody {
      assert o.state.mode in {st.mode, JsonMode};
    } else {
      assert o.state.mode in {st.mode, FormMode};
    }
  }

  lemma RequestKeepsCoherent<J>(st: BodyState<J>, req: Request, expected: BodyType, style: FormStyle,
                                json: string -> Result<J, string>, pairs: string -> Pairs)
    requires Coherent(st, req)
    ensures Coherent(ReadFromRequest(st, req, expected, style, json, pairs).state, req)
  {
    var o := ReadFromRequest(st, req, expected, style, json, pairs);
    if Includes(ContentType(req), MultipartType) {
      assert st.raw.None?;
      assert o.state.raw.None?;
    } else if ReparseCheck(st.mode, ClaimedMode(expected)).Some? || (Consumed(st) && req.hasBody) {
      assert o.state == st;
    } else {
      assert o == ReadText(st, req.text, expected, style, json, pairs);
      TextKeepsCoherent(st, req, expected, style, json, pairs);
    }
  }

  lemma TextKeepsCoherent<J>(st: BodyState<J>, req: Request, expected: BodyType, style: FormStyle,
                             json: string -> Result<J, string>, pairs: string -> Pairs)
    requires Coherent(st, req) && !Includes(ContentType(req), MultipartType)
    ensures Coherent(ReadText(st, req.text, expected, style, json, pairs).state, req)
  {
    assert st.mode != MultipartMode && ClaimedMode(expected) != MultipartMode;
  }

  /** A body read as JSON is never read again as a form, nor the reverse. */
  lemma JsonFormCrossRead<J>(st: BodyState<J>, req: Request, expected: BodyType, style: FormStyle,
                             json: string -> Result<J, string>, pairs: string -> Pairs)
    requires (st.mode == JsonMode && expected == FormBody) || (st.mode == FormMode && expected == JsonBody)
    ensures ParseAfterChecks(st, req, expected, style, json, pairs).result.Err?
  {
    if st.raw.Some? {
      CrossFromRaw(st, expected, style, json, pairs);
    } else {
      CrossFromRequest(st, req, expected, style, json, pairs);
    }
  }

  lemma CrossFromRaw<J>(st: BodyState<J>, expected: BodyType, style: FormStyle,
                        json: string -> Result<J, string>, pairs: string -> Pairs)
    requires (st.mode == JsonMode && expected == FormBody) || (st.mode == FormMode && expected == JsonBody)
    requires st.raw.Some?
    ensures ReadFromRaw(st, expected, style, json, pairs).result.Err?
  {
    if expected == JsonBody {
      assert ReparseCheck(st.mode, JsonMode).Some?;
    } else {
      assert ReparseCheck(st.mode, FormMode).Some?;
    }
  }

  lemma CrossFromRequest<J>(st: BodyState<J>, req: Request, expected: BodyType, style: FormStyle,
                            json: string -> Result<J, string>, pairs: string -> Pairs)
    requires (st.mode == JsonMode && expected == FormBody) || (st.mode == FormMode && expected == JsonBody)
    ensures ReadFromRequest(st, req, expected, style, json, pairs).result.Err?
  {
    assert ReparseCheck(st.mode, ClaimedMode(expected)).Some?;
  }

  /** Once a request was consumed as MULTIPART, any other read fails. */
  lemma MultipartIsFinal<J>(st: BodyState<J>, req: Request, expected: BodyType, style: FormStyle,
                            json: string -> Result<J, string>, pairs: string -> Pairs)
    requires Coherent(st, req) && st.mode == MultipartMode && expected != MultipartBody
    ensures ParseAfterChecks(st, req, expected, style, json, pairs).result.Err?
  {
  }

  /** A MULTIPART read of a body already read as text has no cache to use:
      it goes back to the request, whose body was used, and fails with the
      runtime's error, the cache unchanged. */
  lemma MultipartAfterReadFails<J>(st: BodyState<J>, req: Request, style: FormStyle,
                                   json: string -> Result<J, string>, pairs: string -> Pairs)
    requires Coherent(st, req) && st.raw.Some? && req.hasBody
    ensures ParseAfterChecks(st, req, MultipartBody, style, json, pairs) == Outcome(st, Err(BodyUsed))
  {
    assert !Includes(ContentType(req), MultipartType) && MayFollow(st.mode, TextMode);
    var o := ReadFromRequest(st, req, MultipartBody, style, json, pairs);
    assert o == Outcome(st, Err(BodyUsed));
  }

  /** A second MULTIPART read of a multipart request fails the same way:
      the form data is not cached for MULTIPART. */
  lemma SecondMultipartFails<J>(st: BodyState<J>, req: Request, style: FormStyle,
                                json: string -> Result<J, string>, pairs: string -> Pairs)
    requires Coherent(st, req) && st.mode == MultipartMode && req.hasBody
    ensures ParseAfterChecks(st, req, MultipartBody, style, json, pairs) == Outcome(st, Err(BodyUsed))
  {
    assert Includes(ContentType(req), MultipartType) && st.raw.None?;
    assert ReparseCheck(MultipartMode, MultipartMode).None?;
  }

  /** A request without a body is never used up: a MULTIPART read after
      any text read gives its (empty) text again. */
  lemma NullBodyRereads<J>(st: BodyState<J>, req: Request, style: FormStyle,
                           json: string -> Result<J, string>, pairs: string -> Pairs)
    requires Coherent(st, req) && st.raw.Some? && !req.hasBody
    ensures ParseAfterChecks(st, req, MultipartBody, style, json, pairs).result == Ok(RawText(req.text))
  {
    assert !Includes(ContentType(req), MultipartType) && MayFollow(st.mode, TextMode);
    var o := ReadFromRequest(st, req, MultipartBody, style, json, pairs);
    assert TextRead(st, req.text, MultipartBody, style, json, pairs, o);
  }

  /** A first read as TEXT, JSON or FORM, successful or not, followed by a
      MULTIPART read of a request with a body that is not multipart: the
      second read fails with the runtime's error. */
  lemma ReadThenMultipartFails<J>(req: Request, first: BodyType, style: FormStyle,
                                  json: string -> Result<J, string>, pairs: string -> Pairs)
    requires req.hasBody && !Includes(ContentType(req), MultipartType) && first != MultipartBody
    ensures var st := ParseAfterChecks(Fresh<J>(), req, first, style, json, pairs).state;
      ParseAfterChecks(st, req, MultipartBody, style, json, pairs) == Outcome(st, Err(BodyUsed))
  {
    var st := ParseAfterChecks(Fresh<J>(), req, first, style, json, pairs).state;
    ParseKeepsCoherent(Fresh<J>(), req, first, style, json, pairs);
    assert ReparseCheck(NoMode, ClaimedMode(first)).None?;
    assert ParseAfterChecks(Fresh<J>(), req, first, style, json, pairs)
        == ReadText(Fresh<J>(), req.text, first, style, json, pairs);
    MultipartAfterReadFails(st, req, style, json, pairs);
  }
}
