/** The file-router generation's handler context (src/XerusCtx.ts): the
    request, the response, and a data store. Writing a body over one that
    is already set answers 500 with the overwrite error instead, writing
    that answer with the check switched off. */
module XerusCtx {
  import opened Wrappers
  import opened Text
  import Req = XerusRequest
  import Res = XerusResponse

  /** The context; `V` stands for the values handlers store. */
  datatype Ctx<V> = Ctx(req: Option<Req.Request>, res: Res.Response, data: map<string, V>)

  function NewCtx<V>(req: Req.Request): (c: Ctx<V>)
    ensures c.res == Res.NewResponse() && c.data == map[]
  {
    Ctx(Some(req), Res.NewResponse(), map[])
  }

  /** `bodyIsSet()`. */
  predicate BodyIsSet<V>(c: Ctx<V>) {
    c.res.body != ""
  }

  /** `clearBody()`: only the body changes. */
  function ClearBody<V>(c: Ctx<V>): (out: Ctx<V>)
    ensures !BodyIsSet(out)
    ensures out.res.status == c.res.status && out.res.headers == c.res.headers && out.res.ready == c.res.ready
    ensures out.req == c.req && out.data == c.data
  {
    c.(res := c.res.(body := ""))
  }

  /** The four writers; `json` and `jsx` receive their body already
      rendered by the runtime (`JSON.stringify`, `renderToString`). */
  datatype Kind = Html | Json | Jsx | PlainText

  function ContentType(k: Kind): string {
    match k
    case Html => "text/html"
    case Json => "application/json"
    case Jsx => "text/html"
    case PlainText => "text/plain"
  }

  /** The body a writer stores: `html` trims it, the others keep it. */
  function Stored(k: Kind, body: string): string {
    if k == Html then Trim(body) else body
  }

  /** `html`/`json`/`jsx`/`text(status, body, ignoreBodyCheck)`: over a
      set body, without the flag, the context answers `text(500,
      overwrite, true)` instead; that call carries the flag, so the
      fallback never falls back again. `overwrite` is the text of
      ERR_BODY_OVERWRITE. */
  function Write<V>(c: Ctx<V>, k: Kind, status: int, body: string, ignoreBodyCheck: bool, overwrite: string): (out: Ctx<V>)
    ensures out.req == c.req && out.data == c.data && out.res.ready
    ensures BodyIsSet(c) && !ignoreBodyCheck ==>
      out.res.status == 500 && out.res.body == overwrite
      && out.res.headers == c.res.headers["Content-Type" := "text/plain"]
    ensures !(BodyIsSet(c) && !ignoreBodyCheck) ==>
      out.res.status == status && out.res.body == Stored(k, body)
      && out.res.headers == c.res.headers["Content-Type" := ContentType(k)]
    decreases !ignoreBodyCheck
  {
    if BodyIsSet(c) && !ignoreBodyCheck then
      Write(c, PlainText, 500, overwrite, true, overwrite)
    else
      c.(res := Res.SetBody(Res.SetStatus(Res.SetHeader(c.res, "Content-Type", ContentType(k)), status), Stored(k, body)))
  }

  /** A second write without the flag, after a non-empty first one, is
      refused with the overwrite answer. */
  lemma SecondWriteRefused<V>(c: Ctx<V>, k1: Kind, s1: int, b1: string, k2: Kind, s2: int, b2: string, overwrite: string)
    requires Stored(k1, b1) != ""
    ensures var out := Write(Write(c, k1, s1, b1, true, overwrite), k2, s2, b2, false, overwrite);
      out.res.status == 500 && out.res.body == overwrite
  {
  }

  /** Clearing the body lets the next write through. */
  lemma ClearThenWrite<V>(c: Ctx<V>, k: Kind, status: int, body: string, overwrite: string)
    ensures var out := Write(ClearBody(c), k, status, body, false, overwrite);
      out.res.status == status && out.res.body == Stored(k, body)
  {
  }

  /** `html` stores the trimmed body: surrounding white space never
      reaches the response. */
  lemma HtmlTrims<V>(c: Ctx<V>, status: int, body: string, overwrite: string)
    requires !BodyIsSet(c)
    ensures var b := Write(c, Html, status, body, false, overwrite).res.body;
      b == "" || (!IsSpace(b[0]) && !IsSpace(b[|b| - 1]))
  {
  }

  /** `store(key, value)`. */
  function Store<V>(c: Ctx<V>, key: string, value: V): (out: Ctx<V>)
    ensures out.req == c.req && out.res == c.res
    ensures key in out.data && out.data[key] == value
    ensures forall k :: k != key ==> (k in out.data <==> k in c.data)
  {
    c.(data := c.data[key := value])
  }

  /** `get(key)`: undefined (`None`) for a key never stored. */
  function Get<V>(c: Ctx<V>, key: string): (r: Option<V>)
    ensures r.Some? <==> key in c.data
  {
    if key in c.data then Some(c.data[key]) else None
  }

  /** `get` after `store` reads the stored value back, and other keys
      are untouched. */
  lemma StoreThenGet<V>(c: Ctx<V>, key: string, value: V, other: string)
    requires other != key
    ensures Get(Store(c, key, value), key) == Some(value)
    ensures Get(Store(c, key, value), other) == Get(c, other)
  {
  }
}
