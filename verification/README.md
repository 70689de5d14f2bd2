# Xerus in Dafny

A model of the decision logic at the core of Xerus, a TypeScript web framework for the Bun runtime, together with the older generations of it kept in the same repository. Everything is modelled as immutable datatypes and pure functions. A stateful object becomes a record, and each of its methods becomes a transition function whose contract states what changes and what does not. Clocks, random tokens, URL and JSON codecs, path resolution, compression and the file system are function-valued or plain parameters.

The modules follow the source files:

- **Routing.**
  - `Trie`, `XerusRouter` and `RecencyCache` model the current router of src/Xerus.ts: registration, the search with precedence exact > `:param` > `*` and backtracking, trailing-slash stripping, and the bounded least-recently-used cache of resolved routes.
  - `XerusAssets` models the confinement rules of `static` and the lookup of `embed`.
  - `ServerRouter` models the greedy trie of src/server/Xerus.ts.
  - `PrimitivesRouter` and `PrimitivesContext` model primitives.ts.
  - `LegacyXerus` models src/xerus.ts.
  - `BraceXerus` models the brace-matching router of src/index.ts.
  - `SegmentRouter` models src/Router.ts.
  - `PosixPath` models the POSIX path normalisation of Node's `path` module, on which the confinement of `static` and the template store rely.
- **Request context.**
  - `HttpContext` models src/HTTPContext.ts: the response lifecycle OPEN → WRITTEN / STREAMING with its guards, the body-parse cache, `redirect`, and the header operations.
  - `BodyParse` and `StdBody` model body parsing and its re-parse rules.
  - `StdRequest` and `StdResponse` model the `std` facades.
  - `XerusCtx`, `XerusRequest` and `XerusResponse` model the first-generation context.
  - `SystemErrors` models the error-code table of src/SystemErrRecord.ts.
- **Codecs.**
  - `Cookies` models cookie parsing and Set-Cookie serialisation (section 4.2.1 and section 4.1.1 of RFC 6265) and the cookie jar.
  - `Headers` models the case-insensitive, multi-valued header bag (section 5.1 of RFC 9110).
  - `Href` models query-merging links.
  - `TemplateStore` models template path normalisation with traversal rejection.
  - `Text` holds the JavaScript string operations the sources use.
- **Validated data.**
  - `Validation` models the validator combinators of src/ValidationUtils.ts.
  - `DataBag` and `ValidatedData` model the stores the validators fill.
- **Services and middleware.**
  - `CorsService` models CORS (the CORS protocol of section 3.2 of the WHATWG Fetch Standard).
  - `CsrfService` models the double-submit CSRF check.
  - `RateLimitService` models the fixed-window rate limiter.
  - `Middleware` models the `cors`, `csrf`, `rateLimit`, `requestId` and `compress` middleware of src/Middleware.ts.
- **Selection and ordering rules.**
  - `AppDir`, `FileBasedRouter` and `RouterFile` model the file-based router.
  - `RouteGroup` models group prefixes.
  - `WsRoute` models WebSocket route checks.
  - `Grub` models command selection.
  - `Signals` models the client-side signal store.
  - `VirtualFS` models the in-memory file tree of hoist.

`Wrappers` holds `Option` and `Result`; a thrown error is the `Err` case of a `Result`.

Some middleware reads the header and cookie accessors of src/HTTPContext.ts as if they returned strings. In fact those accessors return reference objects. The model keeps both readings, `AsWritten` and `ByValue`, and the findings below come from comparing them.

The repository also contains src/rpp/main.go, a small Go command-line tool unrelated to the framework. It is not part of this model.

## Model

| member | source | states |
|---|---|---|
| Text.StripTrailingSlashes | src/Xerus.ts:105 | `replace(/\/+$/, "")` cuts only slashes, keeps a prefix of the input, and leaves no trailing slash |
| Text.NormalizePath | src/Xerus.ts:212 | an empty or all-slash path becomes "/"; any other path loses exactly its trailing run of "/", so the result is a prefix of the path, does not end in "/", and only slashes follow it |
| Text.NormalizePathIdempotent | src/HTTPContext.ts:155 | normalising an already normalised path changes nothing |
| SystemErrors.RecordEntry | src/SystemErrRecord.ts:7-38 | only the listed codes have an entry; headers-already-sent leaves the response alone; every other entry answers a 4xx/5xx whose body ends with the error message, and it is a client error exactly for the missing-file, parse, duplicate-route and missing-route codes |
| SystemErrors.RecordStatuses | src/SystemErrRecord.ts:8-31 | the exact status and body of each code's answer: 404, 400, 409, 404, 500 with the "Internal Server Error" preamble, and 500 |
| AppDir.LexTotal | src/filerouter/AppDir.ts:16 | the text order used to break depth ties relates every pair of paths one way or the other |
| AppDir.BeforeTotal | src/filerouter/AppDir.ts:10-17 | the comparator orders any two paths, by "/"-depth first and text second |
| AppDir.SortFilePaths | src/filerouter/AppDir.ts:9-18 | the sorted paths are a permutation of the input, shallower paths first and paths of equal depth in text order |
| AppDir.LoadEndpoint | src/filerouter/AppFile.ts:86-96 | an endpoint always starts with "/", and below the app directory it is "/" followed by the relative directory |
| AppDir.IterRouteAppFiles | src/filerouter/AppDir.ts:84-107 | exactly the route files are visited; other file types never are |
| AppDir.IterSorted | src/filerouter/AppDir.ts:93-106 | route files are visited shallower first, and equal depths in path-text order |
| AppDir.Contribution | src/filerouter/AppDir.ts:61-80 | one route file contributes at most its own GET middleware |
| AppDir.LoadMiddleware | src/filerouter/AppDir.ts:57-83 | a request method other than GET collects no middleware (the POST exports are never read) |
| AppDir.Middlewares | src/filerouter/AppDir.ts:70-78 | at the file's own endpoint every GET export is pushed, in export order; below it only cascading ones |
| AppDir.MiddlewaresAppend | src/filerouter/AppDir.ts:70-78 | filtering the exports keeps their order: the kept middleware of two runs of exports are those of the first run followed by those of the second |
| AppDir.GatherAppend | src/filerouter/AppDir.ts:58-82 | collecting over two runs of visited files is the first run's middleware followed by the second's |
| AppDir.LoadOrder | src/filerouter/AppDir.ts:57-83 | the loaded list is the visited files' contributions end to end in visit order: the part before file i's block is what the files visited before it contribute, and the block is file i's own contribution |
| AppDir.EarlierBlockFirst | src/filerouter/AppDir.ts:57-106 | an earlier visited (shallower) file's middleware all come before a later visited file's |
| AppDir.LoadedIff | src/filerouter/AppDir.ts:57-83 | a middleware is loaded for a GET exactly when a route file whose endpoint prefixes the request's exports it, and it cascades or the endpoints are equal |
| AppDir.IsolatedStaysHome | src/filerouter/AppDir.ts:64-78 | an isolated middleware of an ancestor endpoint is not loaded for a deeper endpoint |
| BodyParse.ReparseCheck | src/HTTPContext.ts:310-339 | a re-read is refused, with BODY_PARSING_FAILED, exactly when JSON follows FORM or the reverse, anything but MULTIPART follows MULTIPART, or MULTIPART follows another mode |
| BodyParse.StrictCheck | src/HTTPContext.ts:364-384 | in strict mode a JSON, FORM or MULTIPART expectation fails exactly when the Content-Type lacks the matching media type; TEXT and non-strict reads never fail here |
| BodyParse.FormLastOf | src/HTTPContext.ts:386-388 | the "last" form has exactly the keys that occur in the body |
| BodyParse.FormLastIsLast | src/HTTPContext.ts:386-388 | under "last", each key holds the last of its values |
| BodyParse.FormMultiValues | src/HTTPContext.ts:390-400 | under "multi", a key occurs exactly when it was sent, with its single value or all its values in order |
| BodyParse.ReadForm | src/HTTPContext.ts:443-452 | a form read never fails: "params" returns the decoded pairs and leaves the cache alone; "last" gives each sent key its last value and "multi" its single value or all values in order, and both cache that as FORM and keep the cached text |
| BodyParse.ReadJson | src/HTTPContext.ts:431-441 | a parse that succeeds caches the document as JSON; one that fails reports "JSON parsing failed: " and the parser's message and leaves the cache as it was |
| BodyParse.ReadFromRaw | src/HTTPContext.ts:430-458 | re-reading cached text keeps it and only moves between allowed modes: TEXT returns it; JSON succeeds exactly when the re-read is allowed and the parser accepts the text, returning its document and leaving it cached; FORM succeeds exactly when allowed and returns the form in the requested style |
| BodyParse.ReadFromRequest | src/HTTPContext.ts:460-508 | a multipart request read as anything but MULTIPART fails with "Unexpected MULTIPART_FORM data" and changes nothing; read as MULTIPART it succeeds exactly when the re-read is allowed and the request's body was not read before, returning and caching the form data; any other request passes the re-read check and is then refused with the runtime's "Body already used" error, the cache unchanged, when its body was already read, and otherwise is read as text and parsed as expected |
| BodyParse.ReadText | src/HTTPContext.ts:472-508 | the read of a body not yet used: a refused re-read leaves the cache untouched; otherwise the text is cached even when its parse fails, the mode becomes the one claimed or stays, and TEXT (and a first MULTIPART read without a multipart type) returns the text, JSON the parser's document exactly when it accepts it, FORM the form in the requested style |
| BodyParse.ParseAfterChecks | src/HTTPContext.ts:418-508 | after the content-type checks, a parse only moves between allowed modes, a successful read after MULTIPART stays MULTIPART, and cached text is never replaced by a TEXT, JSON or FORM read |
| BodyParse.JsonReadIsCached | src/HTTPContext.ts:418-420 | a second JSON read returns the first one's document and changes nothing |
| BodyParse.TextReadIsCached | src/HTTPContext.ts:422-428 | after a TEXT, JSON or FORM read, a TEXT read returns the cached text and changes nothing |
| BodyParse.JsonAfterText | src/HTTPContext.ts:430-441 | TEXT then JSON parses the text already read |
| BodyParse.BadJsonFails | src/HTTPContext.ts:486-495 | a body the JSON parser refuses fails on a first read with BODY_PARSING_FAILED, and its text stays cached |
| BodyParse.ParseKeepsCoherent | src/HTTPContext.ts:412-509 | every parse keeps the cache consistent with the request it was read from |
| BodyParse.JsonFormCrossRead | src/HTTPContext.ts:311-322 | a body read as JSON is never read as a form, nor the reverse |
| BodyParse.MultipartIsFinal | src/HTTPContext.ts:323-328 | once consumed as MULTIPART, every other kind of read fails |
| BodyParse.MultipartAfterReadFails | src/HTTPContext.ts:430-478 | a MULTIPART read of a body already read as text finds no cache for MULTIPART, reads the used request body again and fails with "Body already used", the cache unchanged |
| BodyParse.SecondMultipartFails | src/HTTPContext.ts:461-466 | a second MULTIPART read of a multipart request reads its form data again and fails the same way |
| BodyParse.NullBodyRereads | src/HTTPContext.ts:472-478 | a request without a body is never used up: a MULTIPART read after a text read returns its text again |
| BodyParse.ReadThenMultipartFails | src/HTTPContext.ts:430-478 | a first TEXT, JSON or FORM read of a request with a body, successful or not, makes a following MULTIPART read fail with "Body already used" |
| BraceXerus.Lookup | src/index.ts:161 | a route-table read finds a value exactly for a registered key, and the value is that key's entry |
| BraceXerus.Put | src/index.ts:89 | assigning a key keeps the position of an existing key and appends a new one; the key then reads the new value and every other key reads as before |
| BraceXerus.Use | src/index.ts:88-90 | `use` replaces the prefix's group (it does not extend it) and leaves routes and every other group alone |
| BraceXerus.FirstPrefixGroup | src/index.ts:98-103 | the group joined is that of the first registered prefix the path starts with, and none when no prefix matches |
| BraceXerus.Wrap | src/index.ts:92-104 | a chain is the "*" group, then the first matching prefix group, then the route's own middleware, around the given handler |
| BraceXerus.At | src/index.ts:118-145 | registering a key stores the chain built at that moment under it and changes no other route, group or the static directory |
| BraceXerus.OnlyFirstGroup | src/index.ts:98-103 | only the first matching prefix group in insertion order joins, even when later groups match too |
| BraceXerus.PathPrefixMissesMethodKeys | src/index.ts:127-129 | since `get`/`post`/`put`/`delete` keys start with the method, a group registered for a path prefix like "/api" never joins them; only "*" and the route's own middleware run |
| BraceXerus.Run | src/index.ts:105-115 | middleware runs in order while each calls `next`, and the handler runs only when all of them did |
| BraceXerus.StopperEndsRun | src/index.ts:107-113 | a middleware that does not call `next` is the last step: nothing after it runs, the handler included |
| BraceXerus.BindLastWins | src/index.ts:19-24 | a name records the index of its last brace segment in the key |
| BraceXerus.BindKeeps | src/index.ts:19-24 | a name no later brace segment carries keeps the index it had |
| BraceXerus.Search | src/index.ts:4-40 | the key returned is the first, in insertion order, that has a brace, the request's segment count, a literal segment, and equal literal segments; "" means no key matches; the recorded indices come from walking the returned key |
| BraceXerus.Respond | src/index.ts:225-235 | a context never marked ready answers 500 "response body not set"; otherwise its status, body and headers |
| BraceXerus.WriteText | src/index.ts:300-304 | `text` sets the body and a text/plain content type, marks the context ready and keeps the status |
| BraceXerus.Json | src/index.ts:265-270 | `json` sets the serialised body, sets Content-Type to "application/json" and leaves every other header alone, and marks the context ready without touching the status |
| BraceXerus.Redirect | src/index.ts:259-263 | `redirect` sets Location to the path and status 303 and keeps the body |
| BraceXerus.HtmlAsWrittenDropsBody | src/index.ts:254-257 | as written, `html` leaves the body as it was, so the page is never sent |
| BraceXerus.Html | src/index.ts:254-257 | the corrected `html` stores the page as the body with a text/html content type |
| BraceXerus.HtmlResponds | src/index.ts:254-257 | with the corrected `html`, `respond` sends the page |
| BraceXerus.NotFound | src/index.ts:59-62 | the default not-found handler answers 404 "404 not found" as plain text |
| BraceXerus.Dyn | src/index.ts:293-298 | `dyn` returns the pathname segment at the recorded index, and undefined exactly when no index was recorded or it lies past the segments |
| BraceXerus.Dispatch | src/index.ts:147-183 | the static directory and the favicon go to the static handler first; an exact "METHOD path" key wins next; otherwise the dynamic search decides and its recorded indices are kept |
| BraceXerus.DynamicIsFirstMatch | src/index.ts:168-173 | a dynamic dispatch goes to a matching key, and no earlier key matches |
| BraceXerus.UnmatchedIsMissing | src/index.ts:175-178 | a request that no key matches, exactly or dynamically, reaches not-found |
| BraceXerus.MethodPathSegments | src/index.ts:151 | "METHOD path" and the pathname split into the same number of segments, equal after the first, so recorded indices address the pathname |
| BraceXerus.DynReadsMatchedSegment | src/index.ts:293-298 | after a dynamic match, `dyn(name)` reads the request's segment at the place of the key's last `{name}` segment |
| BraceXerus.HtmlAsWritten | src/index.ts:254-257 | as written, `html` marks the context ready but leaves the body as it was |
| BraceXerus.Bind | src/index.ts:19-24 | the names bound are those bound before plus the name of every brace segment from the given position on |
| Cookies.Safe | src/Cookies.ts:4-18 | a conversion that throws leaves the text as it was; otherwise its result is used |
| Cookies.PieceOfShape | src/Cookies.ts:27-33 | a piece is kept exactly when its trimmed text has an "=" with a non-blank name before it; the kept name is trimmed, non-empty and free of "=" |
| Cookies.PieceOfPair | src/Cookies.ts:27-34 | a piece written `name=value` with no surrounding blanks reads back as that name and value |
| Cookies.AddPiece | src/Cookies.ts:26-35 | one piece adds or overwrites its own name with the decoded value and leaves every other name alone |
| Cookies.ParsedNames | src/Cookies.ts:23-37 | a name is in the parsed header exactly when some piece carries it |
| Cookies.ParsedLastWins | src/Cookies.ts:34 | for a repeated name, the value of the last piece carrying it wins |
| Cookies.Collect | src/Cookies.ts:50-56 | the serialiser writes exactly the attributes the options keep, each with its value |
| Cookies.CollectInOrder | src/Cookies.ts:50-56 | the written attributes keep the serialiser's fixed order |
| Cookies.SetCookieAttrs | src/Cookies.ts:46-56 | a Set-Cookie line's attributes are exactly those its options keep, with their values, in the order Path, Domain, Max-Age, Expires, HttpOnly, Secure, SameSite |
| Cookies.SerializeSetCookie | src/Cookies.ts:39-59 | a line starts with the name, "=" and the encoded value (or the raw value when encoding throws) |
| Cookies.SerializeSetCookieText | src/Cookies.ts:39-59 | the whole line: the name, "=", the encoded value, then for Path (default "/"), Domain, Max-Age, Expires, HttpOnly (default on), Secure and SameSite (default "Lax") in that order "; Name=value" or "; Name" when the option keeps it and nothing when it does not |
| Cookies.RenderAttrsAppend | src/Cookies.ts:50-56 | the attributes render one after the other: rendering two runs is rendering the first, then the second |
| Cookies.RenderCollect | src/Cookies.ts:50-56 | rendering the kept attributes is writing each candidate's "; Name[=value]" piece in the order tried, skipping left-out ones |
| Cookies.Carried | src/Cookies.ts:50-56 | every attribute the options keep appears in the line with its value |
| Cookies.Defaults | src/Cookies.ts:46-48 | unspecified options give Path=/, HttpOnly and SameSite=Lax |
| Cookies.ClearOptions | src/Cookies.ts:99-106 | `clear` writes Max-Age 0, an Expires at the epoch, and the given path or "/" |
| Cookies.ResetRequest | src/Cookies.ts:68-71 | resetting the request takes the new header, discards the parsed cache and keeps the outgoing lines |
| Cookies.ResetResponse | src/Cookies.ts:73-75 | resetting the response drops every outgoing line and keeps the request side |
| Cookies.Get | src/Cookies.ts:77-90 | a read finds a value exactly for a name the current header carries, gives the parsed value, and keeps the cache consistent with the header |
| Cookies.SetCookie | src/Cookies.ts:95-97 | `set` appends one serialised line after the earlier ones and touches nothing else |
| Cookies.Clear | src/Cookies.ts:99-106 | `clear` appends an empty-valued line with the clearing options |
| Cookies.ResetRequestRereads | src/Cookies.ts:68-90 | after `resetRequest`, reads answer from the new header whatever was cached before |
| CorsService.Resolve | src/CORSService.ts:66-76 | unset options take the defaults: origin "*", the six default methods, reflected request headers, no exposed headers, no credentials, max age 86400, preflight status 204 |
| CorsService.OriginRules | src/CORSService.ts:78-86 | a string origin allows only itself, a list allows exactly its members, `true` allows every origin and `false` none |
| CorsService.PreflightPlan | src/CORSService.ts:121-146 | a preflight writes the methods, the configured or reflected request headers when non-empty, and the max age when non-zero, and nothing else |
| CorsService.Plan | src/CORSService.ts:88-150 | the wildcard origin writes "*", or reflects the request origin when credentials are on; another origin reflects an allowed request origin with Vary: Origin and writes nothing for a refused one; credentials and exposed headers are written when configured; the preflight headers appear only on OPTIONS |
| CorsService.PlanNamesDistinct | src/CORSService.ts:100-144 | the seven field names written are distinct fields under case-insensitive comparison |
| CorsService.PlanReadsBack | src/CORSService.ts:100-144 | over those fields, reading the response back gives the last value written for each |
| CorsService.Before | src/CORSService.ts:88-151 | on a context still open, `before` succeeds; each header the plan writes reads back with the planned value and the other CORS fields are untouched; an OPTIONS request ends with the preflight status, any other request keeps its status and state |
| CsrfService.Resolve | src/CSRFService.ts:28-41 | a cookie or header name overrides its default only when non-empty; a given method list always replaces the default |
| CsrfService.Before | src/CSRFService.ts:50-79 | a request with no token cookie gets one Set-Cookie line with the new token, one with a token gets none; an ignored method or a header equal to the token passes with the response untouched; otherwise the request is answered 403 CSRF_DETECTED, unless the body can no longer be written |
| CsrfService.SafeMethodsPass | src/CSRFService.ts:66-69 | with the defaults, GET, HEAD, OPTIONS and TRACE always pass |
| CsrfService.UnsafePassesIff | src/CSRFService.ts:71-78 | an unsafe request with a token cookie is refused with 403 exactly when the header does not repeat the token |
| DataBag.Empty | src/DataBag.ts:42-44 | a new bag has no key entries and no constructor entries |
| DataBag.Set | src/DataBag.ts:61-64 | `set` stores the value under the key, and under the constructor too when one is given; nothing else changes |
| DataBag.SetCtor | src/DataBag.ts:66-70 | `setCtor` stores the value under the constructor, and under the override or else the class name when that is non-empty; nothing else changes |
| DataBag.Get | src/DataBag.ts:72-75 | `get` gives the stored value, or the fallback when the key is absent or holds undefined |
| DataBag.Clear | src/DataBag.ts:95-98 | `clear` leaves a bag equal to a new one |
| DataBag.GetCtor | src/DataBag.ts:77-83 | a constructor read answers the constructor entry, else the entry under the constructor's non-empty name, else the fallback |
| DataBag.Call | src/DataBag.ts:46-59 | calling the bag with a string reads like `get`, with a constructor like `getCtor`, and with anything else gives the fallback |
| DataBag.Delete | src/DataBag.ts:85-87 | `delete` removes only that key and leaves the constructor index alone |
| DataBag.DeleteCtor | src/DataBag.ts:89-93 | `deleteCtor` removes the constructor entry and the key under its non-empty name, nothing else |
| DataBag.ToObject | src/DataBag.ts:100 | `toObject` copies exactly the key entries |
| DataBag.SetThenGet | src/DataBag.ts:61-75 | a value set under a key reads back under it, and under the constructor when one was given; other keys read as before |
| DataBag.SetCtorThenGet | src/DataBag.ts:66-83 | a value set by constructor reads back by constructor, and under the override or the class name when that is non-empty |
| DataBag.UndefinedReadsFallback | src/DataBag.ts:72-75 | a key holding undefined, or deleted, gives the fallback |
| DataBag.GetCtorByName | src/DataBag.ts:80-81 | a plain `set` under a class's name is found by `getCtor` when the constructor index has nothing |
| DataBag.DeleteCtorForgets | src/DataBag.ts:89-93 | after `deleteCtor` neither index answers for that constructor |
| DataBag.DeleteKeepsCtor | src/DataBag.ts:61-87 | deleting a key keeps a value stored under a constructor as well |
| DataBag.ClearForgets | src/DataBag.ts:95-98 | after `clear` every read gives the fallback |
| RouterFile.MountBase | src/File.ts:20 | a mount path starting with "./" loses that prefix |
| RouterFile.NewFile | src/File.ts:15-30 | a file directly at the mount path has endpoint "/" and relative path "/" + name; deeper files have the directory part as endpoint and it, "/" and the name as relative path; the relative path ends with the name and the absolute path resolves mount + relative path |
| RouterFile.FileAtMountRoot | src/File.ts:21-25 | a file in the mount directory itself lives at "/" |
| RouterFile.FileBelowMount | src/File.ts:21-28 | a file in a sub-directory lives at "/" + that directory |
| RouterFile.DotSlashIgnored | src/File.ts:20 | a mount path written with a leading "./" gives the same file as without it |
| FileBasedRouter.RegisterOne | src/FileBasedRouter.ts:71-86 | a file whose name is a handler, middleware or init name is appended to that list; directories and other names change nothing |
| FileBasedRouter.RegisterFiles | src/FileBasedRouter.ts:70-88 | registration only appends, each admitted entry lands in exactly one list with the right kind of name, and handlers start without middleware |
| FileBasedRouter.UnknownIgnored | src/FileBasedRouter.ts:73-86 | an entry with an unknown name changes nothing |
| FileBasedRouter.HandlerRegistered | src/FileBasedRouter.ts:74-77 | a handler-named file is registered last, as a handler with no middleware |
| FileBasedRouter.AssertInitFileExists | src/FileBasedRouter.ts:90-94 | the check fails, with "no +init.ts file found at: " and the directory, exactly when no init file was registered |
| FileBasedRouter.HasNamedHandler | src/FileBasedRouter.ts:97-102 | the flag is set exactly when some handler file carries a handler name |
| FileBasedRouter.AssertRootHandlerExists | src/FileBasedRouter.ts:96-106 | the check passes exactly when some handler file carries a handler name; otherwise "no +handler.ts file found at " and the directory |
| FileBasedRouter.UnknownFiles | src/FileBasedRouter.ts:109-111 | the filter keeps exactly the handler files whose name is not a known one, the first it keeps being the first such file |
| FileBasedRouter.AssertNoUnknownFiles | src/FileBasedRouter.ts:108-115 | the check passes exactly when every handler file has a known name, and otherwise names the first handler file whose name is unknown |
| FileBasedRouter.RootCheckIffHandler | src/FileBasedRouter.ts:96-106 | after registration, the root-handler check passes exactly when a handler file was registered |
| FileBasedRouter.UnknownCheckPasses | src/FileBasedRouter.ts:108-115 | after registration the unknown-file check can never fail, since only known names are admitted |
| FileBasedRouter.LastFitting | src/FileBasedRouter.ts:144-154 | the middleware file chosen is the last one whose path is no deeper than the handler's, and there is none exactly when all are deeper |
| FileBasedRouter.HookGivesLastFitting | src/FileBasedRouter.ts:144-154 | after hooking, each handler holds the last middleware file no deeper than itself, or what it held before when there is none |
| FileBasedRouter.GetInitExport | src/File.ts:35-45 | fetching the `init` export succeeds exactly when the module loaded and exports it; a failed import and a missing export both throw |
| FileBasedRouter.ApplyInitFunc | src/FileBasedRouter.ts:117-130 | the step passes exactly when the first init file has an `init` export; a failed import and a missing export both end in "init file missing init module: " and the file's name, since `getExport` throws for either (src/File.ts:35-45) |
| FileBasedRouter.Mount | src/FileBasedRouter.ts:47-68 | an unreadable directory fails first; then the missing init file, then the missing handler, then the init export, in that order; success hands over the handler files with their middleware hooked |
| FileBasedRouter.InitCheckedFirst | src/FileBasedRouter.ts:48-50 | with no known file at all, the init check is the one that fails |
| FileBasedRouter.Attach | src/FileBasedRouter.ts:145-151 | one middleware file is attached to exactly the handlers whose path has at least as many "/"-parts as its own; the others keep their middleware |
| Grub.LocateDefaultCmd | src/grub/src/Grub.ts:56-66 | a default command is found exactly when one command is marked default; none and several give their own errors |
| Grub.OneDefaultIsUnique | src/grub/src/Grub.ts:57-65 | with one default, that command is the one returned |
| Grub.DuplicateCheck | src/grub/src/Grub.ts:84-92 | the check passes exactly when all names are distinct, and otherwise names the first command whose name was already seen |
| Grub.ErrOnDuplicateNames | src/grub/src/Grub.ts:84-92 | the check passes exactly when all names are distinct |
| Grub.ThirdArg | src/grub/src/Grub.ts:68-71 | the chosen argument is never empty: an empty one becomes "default" |
| Grub.FindByName | src/grub/src/Grub.ts:78 | `find` gives the first command carrying the name, and nothing exactly when none does |
| Grub.LocateCmdToRun | src/grub/src/Grub.ts:73-82 | "default" picks the default command; another argument picks a command of that name, and fails with "no cmd named ... located" exactly when there is none |
| Grub.LoadCmds | src/grub/src/Grub.ts:20-38 | loading fails exactly when an import throws, with "Failed to load command from <path>: <reason>" for the first such import; otherwise the commands are exactly the imports that yielded one, non-command exports being skipped |
| Grub.LoadCmdsAppend | src/grub/src/Grub.ts:20-38 | over two runs of imports the first run's error wins; otherwise the commands keep import order, the first run's before the second's |
| Grub.LoadOne | src/grub/src/Grub.ts:29-33 | a single import exporting a command loads as exactly that command |
| Grub.Run | src/grub/src/Grub.ts:41-52 | the command run is one that was loaded: the default one for an empty or "default" argument, else the one named by the argument |
| Grub.CmdNamedDefaultUnreachable | src/grub/src/Grub.ts:68-76 | a non-default command literally named "default" can never be chosen |
| Grub.ChosenByName | src/grub/src/Grub.ts:73-82 | with distinct names, naming a command runs exactly that command |
| Headers.Reset | src/Headers.ts:26-28 | `reset` leaves no field |
| Headers.Get | src/Headers.ts:45-49 | `get` answers one of the field's stored values |
| Headers.SetThenRead | src/Headers.ts:30-32 | `set` leaves exactly the one value, visible under every spelling of the name; other fields are untouched |
| Headers.AppendThenRead | src/Headers.ts:34-39 | `append` adds the value after the earlier ones and `get` then answers it; other fields are untouched |
| Headers.DeleteThenRead | src/Headers.ts:41-43 | after `delete` the field is gone under every spelling; other fields are untouched |
| Headers.ResetEmpties | src/Headers.ts:26-28 | after `reset` no name reads a value |
| Headers.OperationsKeepValid | src/Headers.ts:26-57 | the mutating operations never store an empty value list, so `get` answers exactly for the names `has` reports |
| Headers.RefWrite | src/Headers.ts:133-155 | a write through a ref is refused with the read-only message exactly on a request view; otherwise `set` makes the value readable, `append` adds it last and `delete` removes the field |
| Href.DefinedStrings | src/Href.ts:20-25 | null and undefined items are skipped, so all-defined arrays keep every item |
| Href.NormalizeValues | src/Href.ts:17-28 | a single value contributes nothing exactly when it is null or undefined, and otherwise its string |
| Href.Remove | src/Href.ts:57 | `params.delete(k)` removes every value of the key and no other |
| Href.Repeat | src/Href.ts:64 | repeated appends give the key exactly those values, in order, and no other key any |
| Href.ApplyEntry | src/Href.ts:56-70 | one query entry replaces all values of its key by its normalised values and leaves other keys alone |
| Href.ApplyKeepsUnmentioned | src/Href.ts:53-72 | keys the query record does not mention keep their values, in order |
| Href.ApplyLastEntryWins | src/Href.ts:53-72 | a mentioned key ends with exactly the values of its last entry; null, undefined or [] leave it absent |
| Href.Serialize | src/Href.ts:74 | the query text is empty exactly when no pair is left |
| Href.BeforeHash | src/Href.ts:42-45 | the part before the fragment and the fragment put back together give the path |
| Href.BasePath | src/Href.ts:47-48 | the base path holds neither "?" nor "#" |
| Href.Href | src/Href.ts:38-76 | a path with CR or LF is refused with "Invalid URL: contains newline characters"; otherwise the link is the base path, then "?" and the serialised merged query when that is non-empty, then the fragment; it has no "?" part exactly when the merged query is empty |
| Href.PathParts | src/Href.ts:41-49 | a path is its base path, "?" and the existing query when the part before "#" has a "?", and its fragment; without "?" the existing query is empty |
| Href.HrefKeepsPlainPath | src/Href.ts:38-76 | a path without query and without a query record comes back unchanged |
| HttpContext.UrlPath | src/HTTPContext.ts:149-155 | the derived path is never empty and ends in "/" only when it is "/" |
| HttpContext.UrlPathIs | src/HTTPContext.ts:149-155 | for a URL with a "/" after its origin, the path is the normalised text from that "/" up to the query |
| HttpContext.UrlPathWithoutSlash | src/HTTPContext.ts:149-153 | a URL with no "/" from index 8 on and no query is taken whole as the path, scheme and host included |
| HttpContext.Reset | src/HTTPContext.ts:123-164 | a reset context is open, not timed out, with an empty body cache, no WebSocket, the path, method and route of the new request, a fresh 200 response and a cookie jar reading the new Cookie header |
| HttpContext.ResetForgets | src/HTTPContext.ts:123-164 | two contexts reset with the same request are equal: nothing of the previous request survives |
| HttpContext.ConfigurableCheck | src/HTTPContext.ts:193-202 | status and headers are refused, with HEADERS_ALREADY_SENT, exactly while streaming and not timed out |
| HttpContext.BodyCheck | src/HTTPContext.ts:216-226 | a body is refused exactly when the response is streaming or already written and not timed out; a written one reports the double-response error |
| HttpContext.Finalize | src/HTTPContext.ts:204-206 | `finalize` leaves the context done, changes only the state, and changes nothing unless it was open |
| HttpContext.ClearResponse | src/HTTPContext.ts:166-169 | `clearResponse` reopens the context with a fresh 200 response and no Set-Cookie lines, all else unchanged |
| HttpContext.MarkSent | src/HTTPContext.ts:171-173 | after `markSent` the context is done and neither guard refuses any more |
| HttpContext.SetStatus | src/HTTPContext.ts:523-528 | after a timeout nothing changes; otherwise the status is refused exactly while streaming, and else only the status changes |
| HttpContext.SetHeader | src/HTTPContext.ts:530-541 | after a timeout nothing changes; otherwise refused while streaming or for a value with CR or LF, each with its error, and else the field holds exactly that value and nothing but the response changes |
| HttpContext.AppendHeader | src/HTTPContext.ts:548-559 | as `setHeader`, but the value joins the field's earlier values at the end |
| HttpContext.WriteTyped | src/HTTPContext.ts:561-585 | a body writer fails exactly when the body guard refuses; otherwise the body and its content type are delivered and the response is done |
| HttpContext.Html | src/HTTPContext.ts:561-567 | `html` delivers the content as text/html, or reports the guard's error |
| HttpContext.Json | src/HTTPContext.ts:579-585 | `json` delivers the serialised document as application/json, or reports the guard's error |
| HttpContext.TextOut | src/HTTPContext.ts:569-577 | `text` keeps a non-empty Content-Type already set and otherwise uses text/plain |
| HttpContext.Stream | src/HTTPContext.ts:587-593 | `stream` passes only the streaming guard, so it may replace a written body; the context then streams with an octet-stream content type |
| HttpContext.File | src/HTTPContext.ts:595-606 | `file` fails with FILE_NOT_FOUND for a missing file and otherwise delivers it with its MIME type, octet-stream when unknown |
| HttpContext.Assign | src/HTTPContext.ts:237 | assigning an object property keeps existing keys in place, adds a new key last, and changes no other property |
| HttpContext.ErrorObject | src/HTTPContext.ts:237 | the error object has distinct keys, "code" then "message" first, and each property of `extra` overrides or follows them |
| HttpContext.ErrorJson | src/HTTPContext.ts:228-239 | `errorJSON` sets the status and a JSON body with the error object, and is refused exactly when the body guard refuses |
| HttpContext.QueryPairs | src/HTTPContext.ts:277-289 | a redirect query is refused exactly when it holds a non-primitive value, naming the first one; otherwise it contributes at most one pair per entry |
| HttpContext.QueryPairsSkipsNull | src/HTTPContext.ts:279 | a null or undefined entry contributes nothing |
| HttpContext.RedirectLocation | src/HTTPContext.ts:269-296 | without a query the location is the path; with one, the path plus "&" or "?" and the query string when it is non-empty |
| HttpContext.Redirect | src/HTTPContext.ts:261-308 | a redirect is refused while streaming, for a non-primitive query value, or for a location with CR or LF; otherwise it sets the status (302 by default) and Location and finishes the response |
| HttpContext.RedirectSeparator | src/HTTPContext.ts:293 | the separator is "&" exactly when the path already has a "?" |
| HttpContext.NoBodyAfterRedirect | src/HTTPContext.ts:216-226 | after a redirect a body write is a double response |
| HttpContext.NoSecondBody | src/HTTPContext.ts:216-226 | a second body write is a double response |
| HttpContext.StreamingClosesResponse | src/HTTPContext.ts:193-202 | once streaming, status, header and body writes all fail with HEADERS_ALREADY_SENT |
| HttpContext.KnownMismatch | src/HTTPContext.ts:345-362 | a non-TEXT read fails exactly when the Content-Type names another of JSON, form or multipart |
| HttpContext.ParseBody | src/HTTPContext.ts:412-509 | the strict check, then the mismatch check, then the read; a failed check changes nothing, and a read only moves the body cache between allowed modes |
| HttpContext.MultipartAfterReadInContext | src/HTTPContext.ts:412-478 | `parseBody(MULTIPART_FORM)` after a text read of a request with a body fails and leaves the context as it was, with "Body already used" once the content-type checks pass |
| HttpContext.JsonAndFormExclude | src/HTTPContext.ts:311-322 | a body read as JSON cannot be read as a form, and the reverse |
| HttpContext.MultipartFinalInContext | src/HTTPContext.ts:323-328 | after a multipart read every other read fails |
| HttpContext.ParseBodyKeepsCoherent | src/HTTPContext.ts:412-509 | reads keep the body cache consistent with the request |
| HttpContext.ClientIP | src/HTTPContext.ts:241-253 | with neither forwarding header the address is "unknown"; with X-Forwarded-For it is one hop, free of commas; without X-Forwarded-For it is X-Real-IP, trimmed |
| HttpContext.ClientIPFirstHop | src/HTTPContext.ts:245 | with a proxy chain the first (client) hop is reported, trimmed |
| HttpContext.Segments | src/HTTPContext.ts:180-183 | the segments are exactly the non-empty parts of the path between slashes, none holding a "/" |
| HttpContext.SegmentsOfPath | src/HTTPContext.ts:180-183 | a path "/a/b/c" built from non-empty, slash-free segments gives those segments back, in order |
| HttpContext.Ws | src/HTTPContext.ts:113-121 | `ws()` answers exactly on a WebSocket route and otherwise fails with the "not available" error |
| HttpContext.GetGlobal | src/HTTPContext.ts:79-103 | with no registry it fails; else the constructor entry, else the entry under the non-empty class name, else "Global injectable not registered" |
| HttpContext.WithCookieDefaults | src/HTTPContext.ts:623-628 | every defaulted option is filled and the others are kept |
| HttpContext.SecureFollowsScheme | src/HTTPContext.ts:626-628 | left unset, Secure is written exactly on an https request |
| HttpContext.SetCookie | src/HTTPContext.ts:620-631 | a cookie is refused exactly while streaming; otherwise exactly one line with the defaults filled in is appended |
| HttpContext.ClearCookie | src/HTTPContext.ts:633-638 | clearing is refused exactly while streaming; otherwise one clearing line with the path ("/" by default) is appended |
| HttpContext.TimedOutIgnoresWrites | src/HTTPContext.ts:524-588 | after a timeout every writer leaves the context as it is |
| LegacyXerus.Merge | src/xerus.ts:7-9 | a key is in the merged record exactly when some given record has it |
| LegacyXerus.MergeLastWins | src/xerus.ts:7-9 | a key takes its value from the last record that has it |
| LegacyXerus.MergeOver | src/xerus.ts:7-9 | a key of the first record that no later record has keeps the first record's value |
| LegacyXerus.Respond | src/xerus.ts:12-33 | `html` and `json` keep the status and body, and the default content type survives unless a caller's record sets its own |
| LegacyXerus.MakeCookieAttrs | src/xerus.ts:52-58 | the attributes written are exactly those whose option is set, in the fixed Path, Domain, Max-Age, Expires, Secure, HttpOnly, SameSite order, each with its option's value |
| LegacyXerus.MakeCookie | src/xerus.ts:37-61 | `makeCookie` gives a record with only a Set-Cookie key whose line begins with the encoded name, "=" and the encoded value |
| LegacyXerus.MakeCookieText | src/xerus.ts:37-61 | the whole line: encoded name, "=", encoded value, then for Path, Domain, Max-Age, Expires, Secure, HttpOnly and SameSite in that order "; Name=value" or "; Name" when the option is set and nothing otherwise |
| LegacyXerus.MakeCookieBare | src/xerus.ts:37-61 | without options the line is only the encoded pair |
| LegacyXerus.DeleteCookie | src/xerus.ts:64-66 | `deleteCookie` gives a single Set-Cookie line: the encoded name with an empty value, "; Path=" and the given path (or "/" by default), and "; Expires=" the epoch date |
| LegacyXerus.DeleteIsExpiredMakeCookie | src/xerus.ts:37-66 | deleting a cookie at a non-empty path writes the same line as making it with an empty value at that path and an epoch expiry |
| LegacyXerus.AddChild | src/xerus.ts:100-111 | adding a child keeps the trie well formed, keeps every node and its handlers, and adds only that child |
| LegacyXerus.Insert | src/xerus.ts:97-112 | the registration walk ends at the node the segments spell, creating only nodes with no handlers and keeping all others |
| LegacyXerus.Register | src/xerus.ts:96-114 | registering sets exactly the method's handler at the node the path spells, creates every node on the way, and changes no other node's handlers |
| LegacyXerus.FirstParam | src/xerus.ts:164 | the chosen ":" child is the first child name, in creation order, that starts with ":", and there is none exactly when no child name does |
| LegacyXerus.Walk | src/xerus.ts:154-172 | a lookup that succeeds ends at a node of the trie no deeper than the request has segments |
| LegacyXerus.WalkReached | src/xerus.ts:154-172 | every successful lookup took each step by the precedence rule (literal child, else wildcard, else the first ":" child), stopped only at a wildcard, captured the remaining segments there, and otherwise consumed every segment |
| LegacyXerus.FoundLiterally | src/xerus.ts:154-175 | a request whose segments are all literal children reaches the node they spell, binding no params, and answers with that node's handler |
| LegacyXerus.RegisteredIsFound | src/xerus.ts:96-175 | a route registered without "*" is found again by its own path with no params, and re-registering a method replaces the earlier handler |
| LegacyXerus.WildcardShadowsParam | src/xerus.ts:157-170 | a segment with no literal child goes to the wildcard child and is captured whole, even when a ":" child exists |
| LegacyXerus.WildcardEndsLookup | src/xerus.ts:159-162 | a lookup never passes through a wildcard: only its last step can be one |
| LegacyXerus.ReachesFinal | src/xerus.ts:181-203 | a chain whose middleware all pass on ends in the final handler's reply |
| LegacyXerus.PastTheEnd | src/xerus.ts:188-194 | calling `next` past the last handler answers 500 "Unexpected server error" |
| LegacyXerus.AnswerStops | src/xerus.ts:188-203 | a middleware that answers ends the chain and nothing after it runs |
| LegacyXerus.ThrowIsInternalError | src/xerus.ts:188-203 | a handler that throws synchronously behind pass-through middleware makes the chain answer 500 "Internal Server Error" |
| LegacyXerus.Dispatch | src/xerus.ts:144-185 | `handleRequest` answers exactly when the lookup finds a handler for the method, and gives no response otherwise |
| LegacyXerus.RegisteredAnswers | src/xerus.ts:96-203 | a route registered with no middleware answers its own path with its handler's reply |
| LegacyXerus.ContentTypeKept | src/xerus.ts:12-33 | the default content type survives when no given header record sets "content-type" |
| LegacyXerus.NoOptionsNoAttrs | src/xerus.ts:52-58 | a cookie made without options carries no attributes |
| Middleware.Or | src/Middleware.ts:34-36 | `a \|\| b` is `a` when `a` is truthy and `b` otherwise |
| Middleware.PresentedHeader | src/Middleware.ts:73 | the header read under either spelling is a non-empty value of the request under the given name or its lower-case form |
| Middleware.EitherSpellingByValue | src/Middleware.ts:73 | read by value, the two-spelling read is truthy exactly when a non-empty header is presented, and is that header |
| Middleware.SetAll | src/Middleware.ts:46-48 | a run of `setHeader` calls changes nothing after a timeout, and otherwise succeeds exactly when setting all the fields in order does, with the same result |
| Middleware.Cors | src/Middleware.ts:32-57 | `cors` stores nothing; OPTIONS is answered 204 with an empty body and stops the chain; any other method goes on exactly when the headers could be set, changes only the response headers, and allows the configured origin (the request's own under credentials with "*"); this is the intended reading of the Origin header, the as-written one is CorsAsWritten |
| Middleware.CorsAsWritten | src/Middleware.ts:38-46 | as written, the Origin read is a header reference object, so with credentials and an unset or "*" origin the allowed origin is "[object Object]" whatever the request sent; a configured origin other than "*" is written as given |
| Middleware.CorsAsWrittenAllowsObjectText | src/Middleware.ts:38-46 | for a credentialed GET carrying a non-empty Origin, the intended `cors` allows that origin while `cors` as written allows "[object Object]" |
| Middleware.RequestId | src/Middleware.ts:63-81 | `requestId` stores the presented id, or the generated one, under the store key, echoes it in the header, and fails only while streaming or for an id with a line break |
| Middleware.CeilDiv | src/Middleware.ts:111 | the rounded-up quotient is the least whole number whose multiple reaches the dividend |
| Middleware.Remaining | src/Middleware.ts:110 | the remaining allowance is the limit less the count, and zero once the count reaches the limit |
| Middleware.RetryAfter | src/Middleware.ts:111 | Retry-After is the fewest whole seconds that cover the time left in the window, never negative |
| Middleware.Bump | src/Middleware.ts:102-108 | a missing or ended window restarts at count one with a new end; an open one counts one more; other keys are untouched |
| Middleware.RateLimit | src/Middleware.ts:98-130 | the table is bumped for the key; the chain goes on exactly when the count is within the limit and the headers could be set; within the limit only headers change; over it the reply is a 429 RATE_LIMITED error with the retry seconds |
| Middleware.OpenedBucket | src/Middleware.ts:102-108 | after the first `i` requests of a window the bucket has counted `i` and keeps the window's first end |
| Middleware.MaxPerWindow | src/Middleware.ts:98-130 | within one window only the first `max` requests can go through, and each of those does unless setting a header fails |
| Middleware.Csrf | src/Middleware.ts:133-189 | ignored methods go on, issuing a cookie with the generated token when none is present; other methods go on exactly when cookie and header tokens are equal and non-empty, unchanged, and are otherwise answered 403 |
| Middleware.CsrfIgnored | src/Middleware.ts:152-171 | read by value, an ignored method goes on unless issuing fails, and issues the cookie when the request lacks one |
| Middleware.CsrfChecked | src/Middleware.ts:173-187 | read by value, a checked method goes on exactly when the tokens match, and is otherwise answered 403 |
| Middleware.PostNotIgnored | src/Middleware.ts:146 | POST is checked under the default options |
| Middleware.CsrfMethodCase | src/Middleware.ts:146-152 | the method is compared upper-cased, so its letter case changes neither what is stored nor whether the chain goes on |
| Middleware.PickEncoding | src/Middleware.ts:270-275 | br is chosen exactly when preferred and mentioned, gzip exactly when br is not chosen and gzip is mentioned, and none otherwise, ignoring case |
| Middleware.PickEncodingIgnoresCase | src/Middleware.ts:270-275 | the choice does not depend on the Accept-Encoding header's letter case |
| Middleware.Utf8Length | src/Middleware.ts:277-278 | a string's UTF-8 length lies between one and four bytes per code unit |
| Middleware.Utf8LengthAppend | src/Middleware.ts:277-278 | UTF-8 lengths add up over concatenation |
| Middleware.Compress | src/Middleware.ts:284-327 | the response is left alone when a skip case applies, no coding is acceptable or no stream support exists; a compressed response has the compressed stream as its body and the chosen coding as Content-Encoding |
| Middleware.GzipChosen | src/Middleware.ts:270-275 | an Accept-Encoding of just "gzip" selects gzip |
| Middleware.CompressWritesStream | src/Middleware.ts:305-326 | past every skip case, with an acceptable coding and an open response, the body becomes the compressed stream |
| Middleware.RequestIdAsWritten | src/Middleware.ts:73-76 | as written, the stored id is always the generated one |
| Middleware.RequestIdAsWrittenIgnoresIncoming | src/Middleware.ts:73-76 | a request carrying an id keeps it when read by value, but gets the generated id as written |
| Middleware.CsrfAsWritten | src/Middleware.ts:154-184 | as written, every request outside the ignored methods is refused, and an ignored method goes on with the context unchanged, no cookie issued and the cookie reference as `csrfToken` |
| Middleware.CsrfAsWrittenNeverIssues | src/Middleware.ts:154-169 | a GET without the cookie gets a token cookie from the intended version and none as written |
| Middleware.CsrfAsWrittenRefusesMatchingTokens | src/Middleware.ts:173-184 | a POST with the same token in cookie and header goes on when read by value and is refused as written |
| Middleware.CompressAsWritten | src/Middleware.ts:287-288 | as written, the response is never changed |
| Middleware.CompressAsWrittenNeverCompresses | src/Middleware.ts:287-326 | a 1 KiB text reply to a gzip-accepting GET is compressed when read by value and left alone as written |
| PosixPath.StepClean | src/TemplateStore.ts:38 | one normalisation step keeps the segment stack clean: no empty, "." or slashed segment, and every ".." before any name |
| PosixPath.FoldClean | src/TemplateStore.ts:38 | normalising any sequence of slash-free segments leaves a clean stack |
| PosixPath.FoldBelowRoot | src/Xerus.ts:106-111 | resolving from the root never produces a ".." segment |
| PosixPath.ResolveAbsolute | src/Xerus.ts:106-111 | a resolved path is absolute |
| PosixPath.ResolveHasNoDotDot | src/Xerus.ts:106-111 | a resolved path has no ".." segment: climbing stops at the root |
| TemplateStore.AddKeepsUnmentioned | src/TemplateStore.ts:18-23 | after `add`, a key no entry names keeps its earlier file, or stays absent |
| TemplateStore.AddLaterWins | src/TemplateStore.ts:18-23 | after `add`, a key holds the file of the last entry naming it |
| TemplateStore.StripDotSlashes | src/TemplateStore.ts:34 | what remains no longer starts with "./" |
| TemplateStore.NormalizeRel | src/TemplateStore.ts:25-49 | a key is either refused with FILE_NOT_FOUND "Access Denied" or begins with "/" |
| TemplateStore.NormalizeRelConfined | src/TemplateStore.ts:25-49 | an accepted key has no ".." segment, whatever the request spells, so it names a file at or below the store's root |
| TemplateStore.KeyOfConfined | src/TemplateStore.ts:38-48 | the traversal check lets through only normal forms without a ".." segment |
| TemplateStore.RelativeShape | src/TemplateStore.ts:38 | a relative path's normal form is its clean segment stack written out, with its trailing slash, or "." or "./" when nothing is left |
| TemplateStore.FileNameSpellings | src/TemplateStore.ts:26 | a plain file name written bare, after "./" or after "/" names the same template |
| TemplateStore.KeyOfName | src/TemplateStore.ts:38-48 | a plain file name other than "." and ".." is accepted as its own key |
| TemplateStore.NameAccepted | src/TemplateStore.ts:44 | a slash-free name other than ".." passes the traversal check |
| TemplateStore.BlankIsIndex | src/TemplateStore.ts:28-29 | an empty or blank path names the index page |
| TemplateStore.Has | src/TemplateStore.ts:51-54 | `has` fails exactly when the key is refused and is otherwise whether a file is stored under the key |
| TemplateStore.Lookup | src/TemplateStore.ts:56-61 | a lookup succeeds exactly when `has` is true and gives the stored file; a missing one fails with FILE_NOT_FOUND naming the key |
| TemplateStore.Bytes | src/TemplateStore.ts:56-69 | `bytes` succeeds exactly when the lookup does, failing with its error; text content comes back encoded, byte content as stored |
| TemplateStore.Type | src/TemplateStore.ts:77-84 | `type` succeeds exactly when the lookup does and gives the stored media type |
| XerusAssets.StaticPrefix | src/Xerus.ts:105 | "/" mounts at no prefix; any other prefix loses exactly its trailing slashes |
| XerusAssets.AbsRoot | src/Xerus.ts:106 | the resolved root is absolute and has no ".." segment |
| XerusAssets.StaticTarget | src/Xerus.ts:108-115 | the request path after the mount prefix, stripped of leading slashes, joined to the root and resolved, is served exactly when its text starts with the root's text; a served path starts with "/" and has no ".." segment; anything else is refused with FILE_NOT_FOUND "Access Denied" |
| XerusAssets.EmbedLookup | src/Xerus.ts:84-90 | the asset is the entry under the path after the prefix, else the index page below it, and is found exactly when one exists; otherwise FILE_NOT_FOUND names the path |
| XerusAssets.EmbedLookupBelowPrefix | src/Xerus.ts:84-90 | a request below the mount prefix is served exactly when the text after the prefix, or its index page, is an entry |
| PrimitivesContext.NewCtx | primitives.ts:33-43 | the context path is the pathname less its trailing slashes, and "/" with no segments for an empty or all-slash pathname; it never ends in "/" unless it is "/"; the route is the method, a space and the path, and the segments are the path's non-empty parts |
| PrimitivesContext.PathIgnoresTrailingSlash | primitives.ts:37 | a trailing slash never changes the context, and the empty path is "/" |
| PrimitivesContext.Param | primitives.ts:65-67 | `param` gives the bound value when the name is bound and the default otherwise |
| PrimitivesContext.Cookie | primitives.ts:131-140 | without a non-empty Cookie header no cookie is found |
| PrimitivesContext.FromEntriesLastWins | primitives.ts:135-137 | the object built from the pieces has a name exactly when some piece names it, with the value of the last such piece |
| PrimitivesContext.CookieLastWins | primitives.ts:131-140 | with duplicate names in the Cookie header the last one wins |
| PrimitivesContext.SinglePairReadsBack | primitives.ts:131-140 | a single `name=value` pair reads back as its value |
| PrimitivesContext.SetCookieAttrs | primitives.ts:145-151 | the attributes written are exactly those whose option is set, in the order Path, Domain, Max-Age, Expires, HttpOnly, Secure, SameSite, each with its option's value |
| PrimitivesContext.SetCookieLine | primitives.ts:142-151 | the line begins with the raw name, "=" and the encoded value |
| PrimitivesContext.SetCookieLineText | primitives.ts:142-151 | the whole line: raw name, "=", encoded value, then for Path, Domain, Max-Age, Expires, HttpOnly, Secure and SameSite in that order "; Name=value" or "; Name" when the option is set and nothing otherwise |
| PrimitivesContext.SetCookie | primitives.ts:142-154 | `setCookie` makes its line the Set-Cookie header and leaves status and body alone |
| PrimitivesContext.ClearCookie | primitives.ts:156-161 | `clearCookie` writes the empty value with Max-Age=0 and the epoch as expiry, and no other attribute |
| PrimitivesContext.OnlyLastCookieSurvives | primitives.ts:153-266 | each `setCookie` replaces the header, so of two cookies only the second line remains |
| PrimitivesRouter.Add | primitives.ts:303-338 | `add` keeps the trie well formed and the cache as it was; a static path sets only that path's handler for the method; a dynamic one sets the handler at the node its segments spell and leaves static paths alone |
| PrimitivesRouter.StaticReaddOverwrites | primitives.ts:304-310 | adding a static route twice keeps the second handler, without an error |
| PrimitivesRouter.Find | primitives.ts:340-385 | a static path answers first, with or without a handler for the method; else a cached result answers unchanged; else the greedy walk decides: a dead end gives "not found" and leaves the router as it was, a completed walk gives the reached node's handler for the method (if any) with the walk's params and caches exactly that result under "METHOD path" |
| PrimitivesRouter.AddedStaticIsFound | primitives.ts:303-350 | a static route just added is found by its own path with its handler and no params |
| PrimitivesRouter.CacheOutlivesAdd | primitives.ts:352-357 | a cached lookup still answers after any later dynamic `add`: the cache is never invalidated |
| RateLimitService.Resolve | src/std/RateLimitService.ts:62-71 | each setting left unset takes its default: 100 requests, a 60000 ms window, the stock message, status 429 and standard headers on |
| RateLimitService.FirstColon | src/std/RateLimitService.ts:92-94 | the position found is the first colon, or the end when there is none |
| RateLimitService.ColonSplit | src/std/RateLimitService.ts:92-94 | two colon-free heads before a colon agree exactly when the joined texts do |
| RateLimitService.StorageKeyInjective | src/std/RateLimitService.ts:90-94 | limiters with a different limit or window, or different clients, never share a record |
| RateLimitService.Hit | src/std/RateLimitService.ts:97-109 | a missing record, or one whose reset time is strictly before now, restarts at count one with a new reset time; a live one counts one more; other keys are untouched |
| RateLimitService.HitsCount | src/std/RateLimitService.ts:97-109 | inside one window a record counts every request and keeps its reset time |
| RateLimitService.OpenedWindow | src/std/RateLimitService.ts:97-109 | after the first `i` requests of a fresh window the record counts `i` and ends one window after the first of them |
| RateLimitService.FirstLimitPass | src/std/RateLimitService.ts:97-124 | in a fresh window a client gets exactly `limit` requests through and every later one in the window is refused |
| RateLimitService.WindowRestarts | src/std/RateLimitService.ts:100-106 | once a window has ended the next request starts a new one and passes unless the limit is below one |
| RateLimitService.Prune | src/std/RateLimitService.ts:77-84 | pruning keeps exactly the records whose reset time is not before now, unchanged |
| RateLimitService.PruneInvisible | src/std/RateLimitService.ts:77-109 | pruning never changes what a later request's record becomes |
| RateLimitService.ReportReadsBack | src/std/RateLimitService.ts:116-118 | each of the three report fields is read back under its own name |
| RateLimitService.Before | src/std/RateLimitService.ts:86-125 | `before` counts the request under its storage key; with standard headers the limit, the remaining allowance (never negative) and the reset date are set; over the limit the reply is the configured status with a RATE_LIMITED error; within it only headers change |
| RateLimitService.ReportedHeaders | src/std/RateLimitService.ts:112-119 | writing the report makes its three values readable |
| RateLimitService.RejectKeepsReport | src/std/RateLimitService.ts:122-124 | the refusal keeps the three report headers |
| RateLimitService.ClientsIndependent | src/std/RateLimitService.ts:86-109 | a request from one client leaves another client's record unchanged |
| RecencyCache.KeysAreLookups | src/Xerus.ts:26-29 | the key list names exactly the keys `get` finds, and has no repeated key exactly when the cache is distinct |
| RecencyCache.Get | src/Xerus.ts:219 | a lookup misses exactly when no entry has the key |
| RecencyCache.Delete | src/Xerus.ts:221 | `delete` keeps exactly the entries with another key, never adds one, and keeps keys distinct |
| RecencyCache.Set | src/Xerus.ts:222-234 | after `set` the key reads back the new value, every other key reads as before, and a new key goes last |
| RecencyCache.SetKeepsKeys | src/Xerus.ts:222 | setting a present key keeps the key order |
| RecencyCache.SameKeysDistinct | src/Xerus.ts:26-29 | distinctness depends only on the key sequence |
| RecencyCache.SetDistinct | src/Xerus.ts:234 | `set` never duplicates a key and grows the map by one exactly for a new key |
| RecencyCache.EvictOldest | src/Xerus.ts:229-232 | eviction drops the first, oldest entry, and nothing from an empty map |
| RecencyCache.Admit | src/Xerus.ts:229-234 | storing a result makes it readable, keeps a valid cache within its capacity, and below capacity changes no other key |
| RecencyCache.AdmitFullEvictsOldest | src/Xerus.ts:229-234 | on a full cache a new key drops exactly the oldest entry and goes last |
| RecencyCache.Touch | src/Xerus.ts:219-224 | a hit moves the entry to the most recent place, keeping every lookup and the size |
| RecencyCache.DeleteKeepsOthers | src/Xerus.ts:221 | deleting one key leaves every other key's lookup unchanged |
| RecencyCache.DeletePresentSize | src/Xerus.ts:221 | in a distinct map, deleting a present key removes exactly one entry |
| RecencyCache.DeleteAbsentSize | src/Xerus.ts:221 | deleting an absent key changes nothing |
| RecencyCache.TouchSize | src/Xerus.ts:221-222 | deleting and re-setting a present key keeps the size |
| RouteGroup.NormalizePrefix | src/RouteGroup.ts:18 | "/" is kept and any other prefix loses exactly its trailing slashes |
| RouteGroup.NormalizedPrefixShape | src/RouteGroup.ts:18 | a normalised prefix is "/", empty, or does not end in a slash, and normalising again changes nothing |
| RouteGroup.Prefixed | src/RouteGroup.ts:31-37 | under "/" the path is unchanged; under any other prefix the result has no doubled slash, and the route "/" becomes the prefix itself |
| RouteGroup.PrefixedJoins | src/RouteGroup.ts:31-37 | a clean prefix and a clean path starting with a slash are simply concatenated |
| RouteGroup.Mount | src/RouteGroup.ts:28-45 | a grouped route runs its own mount step first, then gets the prefixed path; a group with middleware appends it after the route's own, and fails when the route has no `use` |
| RouteGroup.MountAll | src/RouteGroup.ts:22-49 | mounting succeeds with one mounted route per given route, in order, and fails only when some route fails to mount |
| RouteGroup.PlainGroupOnlyPrefixes | src/RouteGroup.ts:16-45 | a group without middleware only moves routes under its prefix |
| SegmentRouter.VerbOf | src/Router.ts:104-123 | a method name selects the collections of the method it spells, or none |
| SegmentRouter.VerbOfName | src/Router.ts:104-123 | every collection pair is reachable by its own method name |
| SegmentRouter.DynamicKeys | src/Router.ts:84 | the dynamic keys are listed in insertion order |
| SegmentRouter.AddRouteAsWritten | src/Router.ts:41-51 | as written, `addRoute` throws exactly when the static collection has the endpoint and, for a ":" endpoint, the dynamic one has it too; otherwise it records the endpoint and touches no other method |
| SegmentRouter.DuplicateDynamicAccepted | src/Router.ts:41-51 | as written, adding the same ":" endpoint twice succeeds, the second copy landing in the static collection |
| SegmentRouter.AddRoute | src/Router.ts:41-51 | corrected, an endpoint goes to the collection its shape selects, a second copy there throws "Route already exists", and other methods are untouched |
| SegmentRouter.DuplicateDynamicRefused | src/Router.ts:41-51 | corrected, the second copy of a ":" endpoint is refused |
| SegmentRouter.FirstMatch | src/Router.ts:84-99 | the index found is a dynamic key that matches the path with no earlier one matching, or -1 when none matches |
| SegmentRouter.FindRoute | src/Router.ts:81-102 | the static entry for the exact path wins; otherwise a route is found exactly when some dynamic key matches, and it is the first such key's |
| SegmentRouter.GetRoute | src/Router.ts:104-123 | an unknown method finds nothing |
| SegmentRouter.AddedStaticFound | src/Router.ts:41-123 | a static endpoint just added is found by its method at that exact path |
| SegmentRouter.AddedDynamicFound | src/Router.ts:41-123 | a dynamic endpoint just added is found for any path it matches that no static entry and no earlier key claims |
| SegmentRouter.MethodsSeparate | src/Router.ts:41-123 | adding under one method never changes what another method finds |
| SegmentRouter.StaticFirst | src/Router.ts:81-102 | a static entry wins over every dynamic key |
| ServerRouter.EmptyValid | src/server/Xerus.ts:26-30 | a new router is well formed, with an empty cache within its 100-entry bound |
| ServerRouter.Register | src/server/Xerus.ts:89-138 | a static path is refused with ROUTE_ALREADY_REGISTERED exactly when its method and path are already taken and is otherwise recorded in the flat map; a dynamic path is refused exactly when its node already has the method and otherwise sets only that handler; the trie stays well formed and the cache untouched |
| ServerRouter.Walk | src/server/Xerus.ts:184-202 | a successful walk ends at a node of the trie that matches the request's segments |
| ServerRouter.Resolve | src/server/Xerus.ts:180-218 | a trie lookup finds a handler exactly when the walk reaches a node with one for the method; a hit is cached and readable, a miss changes nothing |
| ServerRouter.Find | src/server/Xerus.ts:165-219 | the flat map answers first with no params, then the cache, then the trie; only routes with a handler are cached and the router stays within its bound |
| ServerRouter.AdmitOnlyAdds | src/server/Xerus.ts:209-217 | caching a result adds only that entry and otherwise keeps old ones |
| ServerRouter.SetOnlyAdds | src/server/Xerus.ts:217 | `set` adds only the given entry |
| ServerRouter.FindAgain | src/server/Xerus.ts:165-219 | asking twice gives the same answer |
| ServerRouter.TwoRoutesWellFormed | src/server/Xerus.ts:110-134 | the trie for GET /a/b and GET /:x/c is well formed |
| ServerRouter.GreedyMissesParamRoute | src/server/Xerus.ts:184-202 | the walk never backtracks: with GET /a/b and GET /:x/c registered, /a/c follows the literal "a" and finds nothing, although the parameter route matches it |
| Signals.NewSignal | client/index.tsx:9-12 | a new signal holds its initial value and has no listeners |
| Signals.Notify | client/index.tsx:33-37 | `notify` calls every listener once, in insertion order, with the value |
| Signals.Set | client/index.tsx:18-23 | after `set` the signal holds the new value and keeps its listeners; an equal value calls nobody, a different one calls every listener in order with it |
| Signals.Subscribe | client/index.tsx:25-27 | after `subscribe` the listener is present, the listeners are the old ones plus it, the value is unchanged and no listener appears twice |
| Signals.Without | client/index.tsx:29-31 | removing a listener keeps exactly the others and adds no duplicate |
| Signals.Unsubscribe | client/index.tsx:29-31 | after `unsubscribe` the listeners are the old ones less that one, and the value is unchanged |
| Signals.GetAfterSet | client/index.tsx:14-23 | `get` returns the value last passed to `set` |
| Signals.SubscribeIdempotent | client/index.tsx:25-27 | subscribing twice is the same as subscribing once |
| Signals.UnsubscribedNotCalled | client/index.tsx:18-37 | after `unsubscribe`, a change never calls that listener |
| Signals.SubscribedCalledOnce | client/index.tsx:18-37 | a listener subscribed before a change is called exactly once, with the new value |
| Signals.GetSignal | client/index.tsx:48-53 | an existing key gives its signal and changes nothing; a new key gets a fresh signal with the initial value, which the store keeps |
| Signals.SetSignal | client/index.tsx:55-60 | an existing key's signal is set as `set` does, and an unknown key is left alone with no signal made for it |
| Signals.GetSignalOnce | client/index.tsx:48-53 | a second `getSignal` returns the first one's signal and ignores its own initial value |
| Signals.SetThenGet | client/index.tsx:48-60 | `getSignal` after `setSignal` on a key sees the new value |
| Signals.GetInstance | client/index.tsx:62-67 | `getInstance` returns the stored instance, or makes an empty one and stores it |
| Signals.InstanceIsShared | client/index.tsx:62-67 | every call after the first returns the same store |
| StdBody.ParseBody | src/std/Body.ts:64-149 | a strict-mode mismatch and a JSON body read as a form are refused before anything changes; otherwise only the body cache changes, and only between allowed modes |
| StdBody.AgreesWithContext | src/std/Body.ts:64-149 | wherever the context's own content-type check passes, this reader and the context's `parseBody` give the same result |
| StdBody.MultipartOfJsonReadsText | src/std/Body.ts:105-148 | a fresh JSON request read as MULTIPART outside strict mode is read here as text, where the context refuses it |
| StdBody.MultipartAfterReadFails | src/std/Body.ts:64-118 | a MULTIPART read after a text read, say a "{}" body read as JSON first, fails with "Body already used" and leaves the context as it was |
| StdBody.ParseBodyKeepsCoherent | src/std/Body.ts:64-149 | every read keeps the cache consistent with the request |
| StdBody.JsonAndFormExclude | src/std/Body.ts:14-20 | a body read as JSON is never read as a form, nor the reverse |
| StdRequest.Segments | src/std/Request.ts:13-16 | the segments are exactly the non-empty parts of the path between slashes, the same as the context's own |
| StdRequest.SegmentsOfPath | src/std/Request.ts:13-16 | a path "/a/b/c" built from non-empty, slash-free segments gives those segments back, in order |
| StdRequest.RootHasNoSegments | src/std/Request.ts:13-16 | the root path has no segments |
| StdRequest.Query | src/std/Request.ts:23-26 | `query` gives the first value of the key, or the default when the key is absent |
| StdRequest.Queries | src/std/Request.ts:18-21 | `queries` has exactly the keys that occur in the query |
| StdRequest.QueryFirstQueriesLast | src/std/Request.ts:18-26 | for a repeated key `query` answers the first value and `queries` the last |
| StdRequest.Param | src/std/Request.ts:28-30 | `param` gives the bound value, or the default when the name is unbound |
| StdRequest.Header | src/std/Request.ts:36-38 | `header` answers the same for every spelling of the field name |
| StdRequest.ClientIP | src/std/Request.ts:45-51 | with neither forwarding header present the client is "unknown"; with X-Forwarded-For the answer holds no comma; without X-Forwarded-For it is X-Real-IP, trimmed |
| StdRequest.ClientIPFirstHop | src/std/Request.ts:45-47 | behind proxies the first address of X-Forwarded-For, trimmed, is reported |
| StdRequest.Ws | src/std/Request.ts:53-65 | `ws` succeeds exactly on a WebSocket route, giving its context, and otherwise fails with INTERNAL_SERVER_ERR and the stock message |
| StdResponse.SetStatus | src/std/Response.ts:9-16 | `setStatus` fails exactly when the configurable guard refuses, and otherwise changes only the status |
| StdResponse.TimeoutStillWrites | src/std/Response.ts:9-12 | after a timeout the context's own writer changes nothing while this one still sets the status |
| StdResponse.SetHeader | src/std/Response.ts:18-27 | `setHeader` fails exactly when the guard refuses or the value holds CR or LF, the latter with INTERNAL_SERVER_ERR naming the field; otherwise the field holds exactly that value and only the response changes |
| StdResponse.AppendHeader | src/std/Response.ts:29-38 | `appendHeader` fails as `setHeader` does; otherwise the value joins the field's earlier values at the end |
| StdResponse.SetHeaders | src/std/Response.ts:18-27 | a run of `setHeader` calls fails exactly when some call would; otherwise each named field ends with the last value written to it, unnamed fields keep their values, and only the headers change |
| StdResponse.Write | src/std/Response.ts:40-64 | a body writer fails exactly when the body guard refuses, with its error; otherwise it delivers the body, sets the status when one is given, sets the content type when one is named, and finishes the response |
| StdResponse.Html | src/std/Response.ts:40-46 | `html` delivers the content as text/html with the given status, or the guard's error |
| StdResponse.TextOut | src/std/Response.ts:48-56 | `text` delivers the content, as text/plain only when no Content-Type is set, and leaves a set one alone |
| StdResponse.Json | src/std/Response.ts:58-64 | `json` delivers the serialised document as application/json, or the guard's error |
| StdResponse.ErrorJson | src/std/Response.ts:66-82 | `errorJSON` finishes the response with the status and the error object built from code, message and extra fields |
| StdResponse.ErrorJsonAgrees | src/std/Response.ts:66-82 | outside a timeout, this `errorJSON` and the context's write the same response |
| StdResponse.DropNulls | src/std/Response.ts:94-98 | the query handed on keeps exactly the entries whose value is not null or undefined |
| StdResponse.Location | src/std/Response.ts:91-100 | without a query the location is the path as given; with one it is `href` of the path and the kept entries, refused for a path with a line break |
| StdResponse.Redirect | src/std/Response.ts:84-112 | `redirect` fails exactly when the guard refuses or the location has CR or LF; otherwise it finishes with the status (302 by default) and the location in Location, changing only the response |
| StdResponse.NullKeepsExisting | src/std/Response.ts:94-99 | a null value in a redirect's query is dropped before `href` sees it, so a key already in the path keeps its values where `href` itself would remove them |
| StdResponse.Stream | src/std/Response.ts:114-119 | `stream` fails only when the configurable guard refuses; otherwise the context streams the body with an octet-stream content type |
| StdResponse.File | src/std/Response.ts:121-131 | `file` fails exactly when the body guard refuses or the file is missing, the latter with FILE_NOT_FOUND naming the path; otherwise it delivers the file with its media type, octet-stream when unknown |
| StdResponse.SetCookie | src/std/Response.ts:136-144 | `setCookie` fails exactly when the guard refuses and otherwise, taking `c.cookies.response` to be the response cookie jar, adds one serialised Set-Cookie line with the options as given |
| StdResponse.NoImplicitSecure | src/std/Response.ts:136-144 | under the same reading of `c.cookies.response`, a line written without a secure option carries no Secure attribute, whatever the request's scheme |
| StdResponse.ClearCookie | src/std/Response.ts:146-153 | `clearCookie` fails exactly when the guard refuses and otherwise, taking `c.cookies.response` to be the response cookie jar, adds one expiring line for the name at the given path and domain |
| Trie.EdgesIff | src/Xerus.ts:124-136 | two registered paths reach the same node exactly when they have the same length and agree part by part, where any two ":" parts agree whatever their names; every edge made is valid |
| Trie.Grow | src/Xerus.ts:124-137 | the registration walk ends at the node the parts spell, keeps every existing node with its handlers, and creates only nodes without handlers |
| Trie.GrowWellFormed | src/Xerus.ts:124-137 | registration keeps the trie well formed: the root exists, every prefix of a node is a node, and no literal edge starts with ":" |
| Trie.GrowKeepsParamName | src/Xerus.ts:128-130 | a parameter node keeps the first name it was given: under `\|\|=` once the name is non-empty, and in primitives.ts from its creation |
| Trie.BeforeIrreflexive | src/Xerus.ts:187-206 | the lookup preference between candidate nodes is a strict order |
| Trie.BeforeTransitive | src/Xerus.ts:187-206 | the lookup preference is transitive |
| Trie.GreedyWalkMatches | src/server/Xerus.ts:184-202 | any node the greedy walk ends at has edges that match the request's segments |
| XerusRouter.MergeWsLaws | src/Xerus.ts:139-148 | merging WebSocket callbacks slot by slot is associative, a handler with no callbacks changes nothing on either side, and merging the same handler twice equals merging it once |
| XerusRouter.Register | src/Xerus.ts:123-163 | an HTTP handler is refused with ROUTE_ALREADY_REGISTERED exactly when its node already has one for the method, keeping the first; otherwise that handler alone is set, and a path with neither ":" nor "*" is also entered in the flat map under "METHOD path"; a WebSocket handler merges into the node's; the flat map changes in no other case, and no other node's handlers, no other method and the cache change |
| XerusRouter.RegisteredStaticIsFound | src/Xerus.ts:158-162 | a static route registered under a normalised path is then found for its method, with or without a trailing slash, from the flat map, with no parameters and the router unchanged |
| XerusRouter.Search | src/Xerus.ts:165-209 | whatever `search` finds is a node that accepts the method |
| XerusRouter.SearchIgnoresParams | src/Xerus.ts:165-209 | whether and where `search` succeeds does not depend on the params bound so far |
| XerusRouter.CandidateDown | src/Xerus.ts:172-206 | a matching route ends only once every segment is used, takes a wildcard only as its last edge, and a literal only for the exact segment |
| XerusRouter.CandidateUp | src/Xerus.ts:187-199 | a route matching below a child reached through a fitting edge matches from the parent too |
| XerusRouter.BeforeCons | src/Xerus.ts:187-206 | precedence between two routes is decided after their common first edge |
| XerusRouter.BeforeRank | src/Xerus.ts:187-206 | at the first differing edge, exact beats parameter and parameter beats wildcard |
| XerusRouter.SearchFindsFirst | src/Xerus.ts:165-209 | `search` fails exactly when no route below the node matches, and otherwise finds the matching route that takes precedence over every other, backtracking out of branches that fail |
| XerusRouter.SearchEnd | src/Xerus.ts:172-183 | with every segment used, the node itself answers if it accepts, else its accepting wildcard child, else nothing |
| XerusRouter.SearchStep | src/Xerus.ts:185-208 | for a segment still to match, the exact child is tried, then the parameter child, then an accepting wildcard, and the first success is the preferred match |
| XerusRouter.FirstViaExact | src/Xerus.ts:187-191 | the route the exact child yields is preferred from the parent as well |
| XerusRouter.FirstViaParam | src/Xerus.ts:193-199 | with nothing matching below the exact child, the route the parameter child yields is preferred |
| XerusRouter.FirstViaWild | src/Xerus.ts:201-208 | with nothing matching below the exact or parameter child, only an accepting wildcard child can answer |
| XerusRouter.Descend | src/Xerus.ts:187-199 | a route found below a child is, seen from the parent, the child's edge followed by the rest of its path |
| XerusRouter.SearchRootFirst | src/Xerus.ts:211-228 | searching from the root resolves to nothing exactly when no registered route matches, and otherwise to the preferred match |
| XerusRouter.Find | src/Xerus.ts:211-235 | a static registration under the normalised key answers first; a cached result answers next and becomes the most recent entry, all lookups unchanged; otherwise the search result is cached under the key; the cache stays within 500 entries |
| XerusRouter.FindIgnoresTrailingSlash | src/Xerus.ts:212 | `find` ignores trailing slashes, and the empty path is "/" |
| XerusRouter.FindEvictsOldest | src/Xerus.ts:228-234 | on a full cache a new key evicts exactly the oldest entry and goes last |
| XerusRouter.FindMissIsCached | src/Xerus.ts:225-234 | a request no route matches resolves to no handler, and the miss is cached |
| XerusRouter.RegisterTwiceKeepsFirst | src/Xerus.ts:151-156 | registering a method at the same node twice keeps the first handler and reports ROUTE_ALREADY_REGISTERED |
| ValidatedData.Empty | src/ValidatedData.ts:17 | a new container holds nothing |
| ValidatedData.Clear | src/ValidatedData.ts:19-21 | after `clear` no key is stored |
| ValidatedData.Set | src/ValidatedData.ts:23-25 | after `set` the key holds the value and every other key is as before |
| ValidatedData.Maybe | src/ValidatedData.ts:27-29 | `maybe` gives the stored value, or undefined for an absent key |
| ValidatedData.KeyName | src/ValidatedData.ts:34-35 | a string key reports itself, a class its non-empty name, and a nameless class "UnknownKey" |
| ValidatedData.Get | src/ValidatedData.ts:31-41 | `get` succeeds exactly when a defined value is stored, giving it, and otherwise fails with the message naming the key |
| ValidatedData.GetOrThrow | src/ValidatedData.ts:43-45 | `getOrThrow` answers exactly as `get` |
| ValidatedData.SetThenGet | src/ValidatedData.ts:23-41 | a value set is read back, and other keys read as before |
| ValidatedData.ClearForgets | src/ValidatedData.ts:19-41 | after `clear`, `get` fails for every key and `maybe` answers undefined |
| ValidatedData.MissingNamesKey | src/ValidatedData.ts:34-38 | two string keys with different names report different missing-key messages |
| Validation.TrimEmptyIff | src/ValidationUtils.ts:20-22 | a string trims to nothing exactly when all its characters are white space |
| Validation.IsEmptyIff | src/ValidationUtils.ts:20-22 | a value is empty exactly when it is undefined, null, or a string of white space only |
| Validation.Run | src/ValidationUtils.ts:47-57 | with no validators the raw value comes back unchanged |
| Validation.RunAppend | src/ValidationUtils.ts:47-57 | running two chains one after the other is running their concatenation, stopping at the first error |
| Validation.Optional | src/ValidationUtils.ts:67-74 | an empty value gives undefined without running the inner validators; otherwise the chain runs, and its first failing validator's error is the result |
| Validation.DefaultTo | src/ValidationUtils.ts:80-85 | never fails; gives the default exactly for an empty value and the value itself otherwise |
| Validation.Required | src/ValidationUtils.ts:110-115 | fails with the given message exactly when the value is empty, and otherwise passes the value through |
| Validation.DefaultThenRequired | src/ValidationUtils.ts:80-115 | with a non-empty default, `required` after `defaultTo` never fails |
| Validation.OptionalShieldsRequired | src/ValidationUtils.ts:67-115 | `required` inside `optional` can never fail: empty input stops before it |
| Validation.FirstSuccess | src/ValidationUtils.ts:95-102 | the first validator that succeeds gives the result; if none does, every message is collected in order |
| Validation.OneOfValidators | src/ValidationUtils.ts:92-104 | succeeds exactly when some choice succeeds; when all fail the error joins their messages with " OR ", and with no choices it is "No validators matched" |
| Validation.OneOfPicksFirst | src/ValidationUtils.ts:96-98 | the result is that of the first choice that succeeds, even if later ones would too |
| Validation.MinLength | src/ValidationUtils.ts:158-164 | rejects non-strings; fails exactly when the string is shorter than n, with the given or default message; otherwise passes it through |
| Validation.MaxLength | src/ValidationUtils.ts:166-172 | rejects non-strings; fails exactly when the string is longer than n, with the given or default message; otherwise passes it through |
| Validation.ExactLength | src/ValidationUtils.ts:158-172 | `minLength(n)` then `maxLength(n)` accepts exactly the strings of length n |
| Validation.AsBoolean | src/ValidationUtils.ts:233-244 | booleans pass, numbers become "not zero", the true and false words (trimmed, lower-cased) become true and false, and every other value fails with the message |
| Validation.WordsDisjoint | src/ValidationUtils.ts:240-241 | no word is both a true word and a false word |
| Validation.AsBooleanRoundTrip | src/ValidationUtils.ts:233-244 | the string "true" or "false" reads back as the boolean it spells |
| Validation.AsBooleanIdempotent | src/ValidationUtils.ts:233-244 | applying `asBoolean` to its own result changes nothing |
| Validation.DefaultToIdempotent | src/ValidationUtils.ts:80-85 | applying `defaultTo` twice is the same as once |
| Validation.OneOf | src/ValidationUtils.ts:250-256 | succeeds exactly when the value is one of the allowed strings or numbers, passing it through; otherwise fails with the given message or one listing the choices joined by ", " |
| Validation.AsArray | src/ValidationUtils.ts:24-26 | an array stays as it is; any other value becomes a one-element array |
| Validation.MapAll | src/ValidationUtils.ts:265-267 | succeeds exactly when the item validator accepts every element, giving their results in order; otherwise fails with the first element's error |
| Validation.AsArrayOf | src/ValidationUtils.ts:262-272 | succeeds exactly when every item passes and the length is within the given bounds; the result is the validated items in order; the bound errors use the source's messages, the minimum checked first |
| Validation.AsArrayOfWraps | src/ValidationUtils.ts:24-272 | with an accepting item validator and no bounds, an array comes back as is and any other value as a one-element array |
| Validation.AsObject | src/ValidationUtils.ts:278-283 | succeeds exactly on objects, giving their fields, and fails with the message otherwise |
| Validation.Pick | src/ValidationUtils.ts:296-301 | on an object, the field's value or undefined when absent; fails on everything else |
| Validation.ShapeFields | src/ValidationUtils.ts:307-317 | succeeds exactly when every field validator accepts its field; the result keeps the input's other fields and holds each schema key's validated value; a failure names the first failing field and its message |
| Validation.Shape | src/ValidationUtils.ts:303-318 | rejects non-objects with "Expected an object"; an object passes exactly when every field validator accepts its field, keeps its other fields and holds each schema key's validated value; a failure names the first failing field and its message |
| Validation.ShapeOfIdentity | src/ValidationUtils.ts:303-318 | a schema of accepting validators leaves every field of the object unchanged |
| VirtualFS.FromEntries | src/hoist/src/VirtualFS.ts:10-18 | the keys are exactly the normalised given paths, and each entry not overridden by a later entry of the same normalised path is stored as given |
| VirtualFS.Read | src/hoist/src/VirtualFS.ts:77-87 | succeeds exactly on a stored file, giving its text; an unknown path fails with "No asset found for " and a directory (the root included) with "Cannot read directory: ", each followed by the path as given |
| VirtualFS.Write | src/hoist/src/VirtualFS.ts:89-99 | succeeds exactly on a stored file, replacing its text and leaving every other asset and the set of paths alone; errors as for `read`, with "Cannot write to directory: " for directories |
| VirtualFS.WriteFailsWhereReadFails | src/hoist/src/VirtualFS.ts:77-99 | a write is refused exactly where a read is |
| VirtualFS.ReadAfterWrite | src/hoist/src/VirtualFS.ts:77-99 | the written text reads back under any spelling of the path, and other files read as before |
| VirtualFS.SpellingsAgree | src/hoist/src/VirtualFS.ts:20-87 | two spellings that normalise alike read alike |
| VirtualFS.ConstructedReadable | src/hoist/src/VirtualFS.ts:10-87 | a file given to the constructor reads back its text under any spelling that normalises like its key |
| WsRoute.Validate | src/WSRoute.ts:141-161 | refuses a validator that is not a class, a WS_MESSAGE source on a non-MESSAGE route and a WS_CLOSE source on a non-CLOSE route, each as an internal server error; otherwise puts the validator in front of the route's middleware |
| WsRoute.Reverse | src/WSRoute.ts:159 | the elements in reverse order |
| WsRoute.LastDeclaredRunsFirst | src/WSRoute.ts:141-161 | after several `validate` calls, the validators sit in front of the middleware in reverse order of declaration, so the last one declared runs first |
| WsRoute.Extract | src/WSRoute.ts:28-53 | body sources are refused with "<SOURCE> is not supported for WS validation"; a keyed query reads the first value of its key, as `http.query` does, or "" when absent; an unkeyed query gives every key of the query; a param reads its text or ""; a missing message reads as ""; close arguments default to code 0 and reason "" |
| WsRoute.KeyedFirstUnkeyedLast | src/WSRoute.ts:31 | for a repeated query key, a keyed query source reads the first value while the unkeyed one holds the last, because `query` uses `get` and `queries` uses `Object.fromEntries` |
| WsRoute.RunValidator | src/WSRoute.ts:65-112 | fails without a socket; an extraction error is rewrapped as a body-parsing failure prefixed "Data Extraction Failed: "; otherwise succeeds exactly when the validator's constructor accepts the raw value, storing the instance under its class, and a refusal becomes a validation failure carrying its message |
| WsRoute.Compile | src/WSRoute.ts:163-184 | the route's handler and middleware go into the slot of its own method, and every other slot stays empty |
| WsRoute.CompiledChainRunsValidatorFirst | src/WSRoute.ts:159-184 | after `validate`, the compiled chain's first middleware is that validator |
| XerusCtx.NewCtx | src/XerusCtx.ts:15-19 | a new context has a fresh response and no stored data |
| XerusCtx.ClearBody | src/XerusCtx.ts:105-107 | afterwards no body is set; status, headers, readiness, request and data are unchanged |
| XerusCtx.Write | src/XerusCtx.ts:65-103 | `html`, `json`, `jsx` and `text` refuse to overwrite a set body unless told to ignore the check, answering 500 with the overwrite message as plain text; otherwise they set the kind's content type, the status and the body (trimmed for HTML), and the response becomes ready |
| XerusCtx.SecondWriteRefused | src/XerusCtx.ts:65-111 | a second checked write after a non-empty one answers 500 with the overwrite message |
| XerusCtx.ClearThenWrite | src/XerusCtx.ts:65-111 | after `clearBody` a checked write goes through |
| XerusCtx.HtmlTrims | src/XerusCtx.ts:65-73 | an HTML body is stored without leading or trailing white space |
| XerusCtx.Store | src/XerusCtx.ts:113-115 | the key holds the value and no other key appears or disappears |
| XerusCtx.Get | src/XerusCtx.ts:117-119 | a value is found exactly for a stored key |
| XerusCtx.StoreThenGet | src/XerusCtx.ts:113-119 | a stored value reads back and other keys read as before |
| XerusRequest.PathPart | src/XerusRequest.ts:12-24 | without a request, or past the last part, the answer is ""; otherwise it is the part after the (index + 1)-th "/" split |
| XerusRequest.PathPartOfSegments | src/XerusRequest.ts:12-24 | on a path "/a/b/…", index i gives the i-th segment, and "" beyond the last |
| XerusRequest.RootedSplit | src/XerusRequest.ts:18-19 | splitting "/" followed by segments joined by "/" gives "" and then the segments |
| XerusRequest.FirstValue | src/XerusRequest.ts:31-33 | the value of the first query pair with that key, or none when no pair has it |
| XerusRequest.GetParam | src/XerusRequest.ts:26-38 | "" without a request, for a missing key, or for an empty value; otherwise the first value for the key |
| XerusRequest.Pieces | src/XerusRequest.ts:49 | the Cookie header gives one more piece than it has ";" characters; no piece holds a ";" or starts or ends with whitespace |
| XerusRequest.FirstNamed | src/XerusRequest.ts:50-56 | the first piece whose name before "=" is the key, as a cookie with the text between the first and second "=" (none when there is no "="); none when no piece has the name |
| XerusRequest.GetCookie | src/XerusRequest.ts:40-57 | no cookie without a request or with a missing or empty header; otherwise the first piece named as asked |
| XerusRequest.CookieReadsBack | src/XerusRequest.ts:40-57 | a header "key=value" gives back that cookie |
| XerusRequest.ValueStopsAtSecondEquals | src/XerusRequest.ts:51 | in "k=v=w" the value is only "v" |
| XerusRequest.FirstPieceWins | src/XerusRequest.ts:50-55 | with two pieces of the same name, the earlier one is returned |
| XerusResponse.NewResponse | src/XerusResponse.ts:9-14 | status 200, no body, no headers, not ready |
| XerusResponse.SetBody | src/XerusResponse.ts:16-19 | sets the body and makes the response ready, nothing else |
| XerusResponse.SetHeader | src/XerusResponse.ts:21-23 | the header holds the value and every other header is as before; readiness is untouched |
| XerusResponse.SetStatus | src/XerusResponse.ts:25-28 | sets the status and makes the response ready, nothing else |
| XerusResponse.CookieKindsComplete | src/XerusResponse.ts:33-55 | every attribute kind has a place in the order |
| XerusResponse.CookieKindsAscending | src/XerusResponse.ts:33-55 | the attributes are written in the order Domain, Path, Expires, Max-Age, Secure, HttpOnly, SameSite |
| XerusResponse.CookieAttrs | src/XerusResponse.ts:33-55 | the attributes come in that order; an attribute appears exactly when its option is truthy (Path always, "/" by default) and carries the option's value |
| XerusResponse.CookieLine | src/XerusResponse.ts:31 | the line starts with "key=value" |
| XerusResponse.CookieLineText | src/XerusResponse.ts:30-55 | the whole line: "key=value", then for Domain, Path (always, "/" by default), Expires, Max-Age (not when 0), Secure, HttpOnly and SameSite in that order "; Name=value" or "; Name" when set and nothing otherwise |
| XerusResponse.SetCookie | src/XerusResponse.ts:30-58 | "Set-Cookie" holds the cookie's line; status, body and readiness are untouched |
| XerusResponse.PathAlwaysWritten | src/XerusResponse.ts:36-40 | every cookie line has a Path, "/" when none is given |
| XerusResponse.ZeroMaxAgeOmitted | src/XerusResponse.ts:44-46 | a Max-Age of 0 is not written |
| XerusResponse.OnlyLastCookieSurvives | src/XerusResponse.ts:57 | a second `setCookie` replaces the first cookie's header |
| XerusResponse.ReadyOnlyFromBodyOrStatus | src/XerusResponse.ts:16-28 | only a body or a status makes a response ready; headers and cookies do not |

## Left out

- src/rpp/main.go: an unrelated Go command-line tool, not part of the framework.
- Server and socket plumbing: `listen`, `Bun.serve`, the WebSocket open/message/close/drain callbacks, the upgrade paths of `handleHTTP` and the context object pool (src/Xerus.ts:238-374, src/server/Xerus.ts:221-333). These are runtime integration with nothing to decide.
- The `timeout` middleware (src/Middleware.ts:199-256), the legacy `timeout` and `logger` of src/index.ts, and the un-awaited-`next()` safeguards of src/HTTPHandler.ts and src/WSHandler.ts: their behaviour is asynchronous interleaving, which pure functions do not express.
- Logging and console output everywhere, including the console warning some sources print, are left out because they do not affect the answer.
- Foreign parsers and encoders are parameters, not definitions. This covers URL and URLSearchParams, JSON.parse and JSON.stringify, encodeURIComponent and decodeURIComponent, Date.toUTCString, path.resolve, crypto.randomUUID, CompressionStream, TextEncoder and Bun.file. encodeURIComponent is taken as total: the lone-surrogate error it can throw is not modelled.
- Regular-expression and function origins in the CORS origin check, `pathToRegex` in src/xerus.ts, and the `matches`, `isEmail` and `isUUID` validators: regular-expression matching is not modelled.
- The validators `asString`, `trim`, `toLower`, `toUpper` and `nonEmpty` are left out. They are JavaScript string coercions with no rule beyond the `Text` helpers.
- The floating-point and date validators `asNumber`, `asInt`, `min`, `max`, `asDate`, `asISODate`, `minDate`, `maxDate` and `parseJSON` are left out. Numbers in the model are integers.
- Floating point in general: numbers are integers throughout, and `Number` formatting is `IntToString`.
- String lengths count code points, not UTF-16 code units. Case mapping is ASCII only, and `localeCompare` is approximated by code-unit order.
- `null` and `undefined` are one absent value except where the source tells them apart.
- JavaScript prototype keys (`toString`, `__proto__`) are ordinary keys in the model's maps.
- `Object.entries` order is taken as insertion order, with integer-like keys not moved to the front.
- The Proxy layer of src/DataBag.ts (lines 104-160) is left out: it imitates JavaScript property access and stores nothing of its own.
- ValidatedData: keys that are classes are compared by value (their name and identity token), not by object identity.
- Signals: listeners and values are compared by value, whereas the source compares them by identity (`!==`, `Set` membership). The store holds signals by value, whereas the source's `Map` holds them by reference.
- The DOM helpers `qs` and `qsa` of client/index.tsx are left out: they are plain DOM queries.
- React rendering: the `jsx` methods render with a parameter in place of `renderToString`, and the app's page components are left out.
- The file-system and dynamic-import code is left out. This covers:
  - `getFiles` and `applyInitFunc`'s import;
  - `getExport` and `getChildFiles` of src/File.ts;
  - `HandlerFile.hookToApp`, `AppFile.loadFileType` and `hookHandlersToApp`;
  - `AppDir.load`;
  - `create`, `load`, `overwrite` and `sync` of VirtualFS;
  - Grub's `bootstrap`, its dynamic import and `getArgByPos`.
  Their inputs arrive as lists of entries and exports instead.
- Handler execution: `Handler.execute`, `parseBody`, `query`, `store`/`retrieve`, `file` and `stream` of primitives.ts. They wrap the runtime's request object.
- The static-file helpers of src/index.ts are left out: `param`, `global`/`getGlobal`, `setNotFound`, `setStaticDir`, `handleStatic` and `file`. They are setters and file I/O.
- `XerusRequest.getHeader` and the `XerusCtx` getters `getCookie`, `pathPart`, `query`, `getHeader` and `load` are left out: they only delegate to the modelled request functions.
- `XerusRequest.PathPart`: an index that is not an integer is not modelled.
- The `std` request's `params` copy is not modelled: it copies the route parameters the router gives.
- `Headers.toHeaders` is left out: it converts the bag to the runtime's `Headers` object.
- `WsRoute`: `use` and `onErr` only append middleware or set the error handler, and are left out. A `Buffer` message is taken as already converted to text.
- `compress` on byte bodies: the size of an `ArrayBuffer` or `Uint8Array` body is an input of the model, not computed.
- `init` is left out: calling the export of the init file is a dynamic call into application code.
- The following files are not part of this model: src/MutResponse.ts, src/BodyType.ts, src/ContextState.ts, src/PathParams.ts, src/Cookie.ts and src/XerusErr.ts. The model assumes that `MutResponse.reset` restores status 200 with no headers, body or Set-Cookie lines, and that `ERR_BODY_OVERWRITE` is an opaque message.
- Thin declarations with no behaviour are left out: src/URLQuery.ts, src/ValidationSource.ts, src/TrieNode.ts, src/XerusRoute.ts, src/Route.ts, src/RouteFields.ts, src/FactoryValidators.ts, src/filerouter/RouteModule.ts, dist/index.d.ts and index.ts.
- Legacy copies that repeat a modelled rule are left out: index.js, Xerus.jsx, Xerus.js, context.ts, router.ts, XerusContext.jsx and src/XerusContext.jsx.
- FileBasedRouter: the unknown-file check of `assertNoUnknownFiles` can never fail after registration, because registration admits only known names (`FileBasedRouter.UnknownCheckPasses`). `postMiddleware` is never read by `loadMiddleware`; both are modelled as written.
- FileBasedRouter: the "init file missing init function" branch of `applyInitFunc` (src/FileBasedRouter.ts:125-127) can never run, because `getExport` already throws for a missing export (src/File.ts:40-43). The model therefore has no member for it, and a missing export ends in "init file missing init module".
- LegacyXerus: a handler whose promise rejects is not caught by `runMiddlewares` (src/xerus.ts:195-200 only catches a synchronous throw), so the rejection propagates to the runtime; the model covers only the synchronous throw, answered 500 "Internal Server Error".
- XerusAssets.StaticTarget: the containment test is a text-prefix test, as in the source, so the model does not promise that a served file lies inside the root directory: a resolved sibling whose name extends the root's (root "/srv/www", file "/srv/www2/x") passes it. Whether a request path can still carry the ".." that reaches such a sibling after the runtime's URL normalisation is not modelled.
- ServerRouter: the greedy lookup never backtracks, so a literal branch that dead-ends hides a matching `:param` route (`ServerRouter.GreedyMissesParamRoute`). This is how the source behaves, and the model keeps it.
- StdResponse.SetCookie: src/std/Response.ts:136-144 writes through `c.cookies.response.set`. `c.cookies` is the response's cookie store (src/HTTPContext.ts:644-646), whose type is declared in src/MutResponse.ts, which is not part of this model; the CookieJar of src/Cookies.ts:61-118 has no `response` member. The model assumes `response` is that jar's response side, so the line is `CookieJar.set` with the options as given and no Secure derived from the request's scheme. If the store has no such member, the source call throws instead, and the model does not promise that behaviour.
- StdResponse.ClearCookie: src/std/Response.ts:146-153 writes through `c.cookies.response.clear`, and the model makes the same assumption as for `StdResponse.SetCookie`: the line is `CookieJar.clear` of src/Cookies.ts.
- StdResponse.NoImplicitSecure: rests on the same assumption about `c.cookies.response`.
- BodyParse.ReadFromRequest: how the runtime reads a request body is taken as given: a body can be read once, and any further `text()` or `formData()` call fails with "Body already used"; a request without a body reads as "" every time. The exact text of the runtime's error is not modelled beyond that message.
- HttpContext.GetGlobal: src/HTTPContext.ts:89-96 tests whether the stored entry is truthy; the model tests whether the key is present. The registry holds only injectable instances, which are objects and so always truthy, so the two tests agree on every registry the framework builds.

## Findings

| source | as written | input that shows it | evidently intended | confidence | as-written member | corrected member |
|---|---|---|---|---|---|---|
| src/Middleware.ts:38-46 | with credentials and the default origin, `cors` copies `c.getHeader("Origin")`, a `HeaderRef` object that is always truthy and has no string form of its own, into Access-Control-Allow-Origin, which therefore reads "[object Object]" on every request | `cors({credentials: true})` and a GET carrying "Origin: https://a.example" | allow the request's Origin text when one is sent, and "*" otherwise | not executed | Middleware.CorsAsWritten, Middleware.CorsAsWrittenAllowsObjectText | Middleware.Cors |
| src/Middleware.ts:154-184 | `csrf` compares the cookie token and the header token with `!==`, but the accessors return two different reference objects, so the comparison is always true and every request outside the ignored methods is answered 403; for the ignored methods, `!existing` on the cookie reference is always false, so the token cookie is never issued and the reference object is stored as `csrfToken` | a POST whose "csrf_token" cookie and "x-csrf-token" header both hold "abc"; a GET with no "csrf_token" cookie | compare the token texts, and let the request through when they are equal and non-empty; issue a fresh token cookie when the request has none | not executed | Middleware.CsrfAsWritten, Middleware.CsrfAsWrittenRefusesMatchingTokens, Middleware.CsrfAsWrittenNeverIssues | Middleware.Csrf, Middleware.CsrfChecked, Middleware.CsrfIgnored |
| src/Middleware.ts:73-76 | `requestId` tests `incoming.length > 0` on a header reference, which has no `length`, so the presented id is always replaced by a generated one | a request carrying "X-Request-Id: r-1" | keep a non-empty presented id, and generate one only when none is given | not executed | Middleware.RequestIdAsWritten, Middleware.RequestIdAsWrittenIgnoresIncoming | Middleware.RequestId |
| src/Middleware.ts:287-288 | `compress` reads `!!c.getResHeader("Content-Encoding")`, which is true for any reference object, so it returns before compressing anything | a GET accepting gzip answered with a 1 KiB text body and no Content-Encoding | treat the response as already encoded only when the header has a non-empty value | not executed | Middleware.CompressAsWritten, Middleware.CompressAsWrittenNeverCompresses | Middleware.Compress, Middleware.CompressWritesStream |
| src/Router.ts:41-51 | `addRoute` puts a second copy of a ":" endpoint in the static collection instead of refusing it, because the dynamic branch fails and the static branch finds nothing there | adding "/user/:id" twice for the same method | throw "Route already exists" for a duplicate, as it does for static endpoints | not executed | SegmentRouter.AddRouteAsWritten, SegmentRouter.DuplicateDynamicAccepted | SegmentRouter.AddRoute, SegmentRouter.DuplicateDynamicRefused |
| src/index.ts:254-257 | `html(str)` sets the content type and marks the context ready but never stores `str`, so `respond` sends the previous body | a handler calling `c.html("<p>hi</p>")` on a fresh context | store the page as the body | not executed | BraceXerus.HtmlAsWritten, BraceXerus.HtmlAsWrittenDropsBody | BraceXerus.Html, BraceXerus.HtmlResponds |
