/** The functional body readers of src/std/Body.ts: the same cache and
    re-read rules as the context's own `parseBody`, but the only
    content-type mismatch refused outside strict mode is a JSON body read
    as a form. */
module StdBody {
  import opened Wrappers
  import opened Text
  import opened BodyParse
  import opened SystemErrors
  import HttpContext
  import Href

  /** `parseBody(c, expected, { strict, formMode })`. */
  function ParseBody<J>(c: HttpContext.Ctx<J>, expected: BodyType, strict: bool, style: FormStyle,
                        json: string -> Result<J, string>, pairs: string -> Href.Pairs)
    : (r: (HttpContext.Ctx<J>, Result<Parsed<J>, Failure>))
    ensures r.0 == c.(body := r.0.body)
    ensures StrictCheck(expected, strict, ContentType(HttpContext.BodyRequest(c.req))).Some? ==>
      r == (c, Err(StrictCheck(expected, strict, ContentType(HttpContext.BodyRequest(c.req))).value))
    ensures (StrictCheck(expected, strict, ContentType(HttpContext.BodyRequest(c.req))).None?
         && expected == FormBody && Includes(ContentType(HttpContext.BodyRequest(c.req)), JsonType)) ==>
      r == (c, Err(ParseFailure("Unexpected JSON data")))
    ensures Moves(c.body, Outcome(r.0.body, r.1))
  {
    var req := HttpContext.BodyRequest(c.req);
    var ct := ContentType(req);
    match StrictCheck(expected, strict, ct)
    case Some(e) => (c, Err(e))
    case None =>
      if expected == FormBody && Includes(ct, JsonType) then (c, Err(ParseFailure("Unexpected JSON data")))
      else
        var o := ParseAfterChecks(c.body, req, expected, style, json, pairs);
        (c.(body := o.state), o.result)
  }

  /** Wherever the context's known-mismatch check passes, the two readers
      agree. */
  lemma AgreesWithContext<J>(c: HttpContext.Ctx<J>, expected: BodyType, strict: bool, style: FormStyle,
                             json: string -> Result<J, string>, pairs: string -> Href.Pairs)
    requires HttpContext.KnownMismatch(expected, ContentType(HttpContext.BodyRequest(c.req))).None?
    ensures ParseBody(c, expected, strict, style, json, pairs) == HttpContext.ParseBody(c, expected, strict, style, json, pairs)
  {
  }

  /** Where they differ: a fresh JSON request read as MULTIPART outside
      strict mode is refused by the context, but read here as text. */
  lemma MultipartOfJsonReadsText<J>(c: HttpContext.Ctx<J>, style: FormStyle,
                                    json: string -> Result<J, string>, pairs: string -> Href.Pairs)
    requires c.body == Fresh()
    requires Includes(ContentType(HttpContext.BodyRequest(c.req)), JsonType)
    requires !Includes(ContentType(HttpContext.BodyRequest(c.req)), MultipartType)
    ensures ParseBody(c, MultipartBody, false, style, json, pairs).1 == Ok(RawText(c.req.text))
    ensures HttpContext.ParseBody(c, MultipartBody, false, style, json, pairs).1 == Err(ParseFailure("Unexpected JSON data"))
  {
  }

  /** A MULTIPART read after the body was read as text, say a "{}" body
      read as JSON first, reads the used body again and fails with the
      runtime's error, the context unchanged. */
  lemma MultipartAfterReadFails<J>(c: HttpContext.Ctx<J>, strict: bool, style: FormStyle,
                                   json: string -> Result<J, string>, pairs: string -> Href.Pairs)
    requires Coherent(c.body, HttpContext.BodyRequest(c.req)) && c.body.raw.Some? && c.req.hasBody
    requires StrictCheck(MultipartBody, strict, ContentType(HttpContext.BodyRequest(c.req))).None?
    ensures ParseBody(c, MultipartBody, strict, style, json, pairs) == (c, Err(BodyUsed))
  {
    BodyParse.MultipartAfterReadFails(c.body, HttpContext.BodyRequest(c.req), style, json, pairs);
    assert c.(body := c.body) == c;
  }

  /** The std reader keeps the cache coherent with the request as well. */
  lemma ParseBodyKeepsCoherent<J>(c: HttpContext.Ctx<J>, expected: BodyType, strict: bool, style: FormStyle,
                                  json: string -> Result<J, string>, pairs: string -> Href.Pairs)
    requires Coherent(c.body, HttpContext.BodyRequest(c.req))
    ensures Coherent(ParseBody(c, expected, strict, style, json, pairs).0.body, HttpContext.BodyRequest(c.req))
  {
    var req := HttpContext.BodyRequest(c.req);
    var ct := ContentType(req);
    if StrictCheck(expected, strict, ct).None? && !(expected == FormBody && Includes(ct, JsonType)) {
      ParseKeepsCoherent(c.body, req, expected, style, json, pairs);
    }
  }

  /** JSON and FORM still exclude each other. */
  lemma JsonAndFormExclude<J>(c: HttpContext.Ctx<J>, strict: bool, style: FormStyle,
                              json: string -> Result<J, string>, pairs: string -> Href.Pairs)
    ensures c.body.mode == JsonMode ==> ParseBody(c, FormBody, strict, style, json, pairs).1.Err?
    ensures c.body.mode == FormMode ==> ParseBody(c, JsonBody, strict, style, json, pairs).1.Err?
  {
    var req := HttpContext.BodyRequest(c.req);
    if c.body.mode == JsonMode {
      JsonFormCrossRead(c.body, req, FormBody, style, json, pairs);
    } else if c.body.mode == FormMode {
      JsonFormCrossRead(c.body, req, JsonBody, style, json, pairs);
    }
  }
}
