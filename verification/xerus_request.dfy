/** The file-router generation's request wrapper (src/XerusRequest.ts):
    path segments by position, query values, and a Cookie header read
    piece by piece. The URL and its query are parsed by the runtime, so
    a request is given by its pathname and its decoded query pairs. */
module XerusRequest {
  import opened Wrappers
  import opened Text

  datatype Request = Request(pathname: string, query: seq<(string, string)>, cookieHeader: Option<string>)

  /** `pathPart(index)`: the segment after the leading one ("/"-split of
      the pathname at `index + 1`), "" past the end or without a request,
      and undefined (`None`) for an index below -1. */
  function PathPart(req: Option<Request>, index: int): (r: Option<string>)
    ensures req.None? ==> r == Some("")
    ensures req.Some? ==> var parts := Split(req.value.pathname, '/');
      && (index + 1 >= |parts| ==> r == Some(""))
      && (0 <= index + 1 < |parts| ==> r == Some(parts[index + 1]))
      && (index + 1 < 0 ==> r.None?)
  {
    match req
    case None => Some("")
    case Some(q) =>
      var parts := Split(q.pathname, '/');
      var i := index + 1;
      if i >= |parts| then Some("") else if i < 0 then None else Some(parts[i])
  }

  /** For a pathname built from slash-free segments, `pathPart(i)` is the
      i-th of them, and "" beyond the last. */
  lemma PathPartOfSegments(segs: seq<string>, index: int)
    requires forall i :: 0 <= i < |segs| ==> '/' !in segs[i]
    requires index >= 0
    ensures var req := Some(Request("/" + Join(segs, "/"), [], None));
      PathPart(req, index) == Some(if index < |segs| then segs[index] else "")
  {
    if |segs| == 0 {
      assert "/" + Join(segs, "/") == "/";
      SplitHead("", "", '/');
    } else {
      RootedSplit(segs);
    }
  }

  /** A rooted path splits into an empty leading segment and its own
      segments. */
  lemma RootedSplit(segs: seq<string>)
    requires |segs| > 0 && forall i :: 0 <= i < |segs| ==> '/' !in segs[i]
    ensures Split("/" + Join(segs, "/"), '/') == [""] + segs
  {
    var parts := [""] + segs;
    assert parts[1..] == segs;
    assert Join(parts, "/") == "" + "/" + Join(segs, "/");
    assert "" + "/" + Join(segs, "/") == "/" + Join(segs, "/");
    forall i | 0 <= i < |parts| ensures '/' !in parts[i] {
      if i > 0 { assert parts[i] == segs[i - 1]; }
    }
    SplitJoin(parts, '/');
  }

  /** `searchParams.get(key)`: the first value stored under the key. */
  function FirstValue(query: seq<(string, string)>, key: string): (r: Option<string>)
    ensures r.None? <==> forall i :: 0 <= i < |query| ==> query[i].0 != key
    ensures r.Some? ==> (exists i :: 0 <= i < |query| && query[i] == (key, r.value)
                           && forall j :: 0 <= j < i ==> query[j].0 != key)
  {
    if |query| == 0 then None
    else if query[0].0 == key then Some(query[0].1)
    else
      var r := FirstValue(query[1..], key);
      FirstValueShift(query, key, r);
      r
  }

  lemma FirstValueShift(query: seq<(string, string)>, key: string, r: Option<string>)
    requires |query| > 0 && query[0].0 != key
    requires r.Some? ==> (exists i :: 0 <= i < |query[1..]| && query[1..][i] == (key, r.value)
                            && forall j :: 0 <= j < i ==> query[1..][j].0 != key)
    ensures r.Some? ==> (exists i :: 0 <= i < |query| && query[i] == (key, r.value)
                           && forall j :: 0 <= j < i ==> query[j].0 != key)
  {
    if r.Some? {
      var i :| 0 <= i < |query[1..]| && query[1..][i] == (key, r.value)
        && forall j :: 0 <= j < i ==> query[1..][j].0 != key;
      assert query[i + 1] == (key, r.value);
      assert forall j :: 0 <= j < i + 1 ==> query[j].0 != key by {
        forall j | 0 <= j < i + 1 ensures query[j].0 != key {
          if j > 0 { assert query[j] == query[1..][j - 1]; }
        }
      }
    }
  }

  /** `getParam(key)`: the first value for the key, with a missing value
      and an empty one both read as "". */
  function GetParam(req: Option<Request>, key: string): (r: string)
    ensures req.None? ==> r == ""
    ensures req.Some? ==> (r == "" <==> FirstValue(req.value.query, key) in {None, Some("")})
    ensures req.Some? && r != "" ==> Some(r) == FirstValue(req.value.query, key)
  {
    match req
    case None => ""
    case Some(q) =>
      match FirstValue(q.query, key)
      case None => ""
      case Some(v) => if v == "" then "" else v
  }

  /** A cookie as `getCookie` returns it; the value is undefined for a
      piece without "=". */
  datatype Cookie = Cookie(key: string, value: Option<string>)

  /** The name of a trimmed piece: the text before its first "=". */
  function PieceName(piece: string): string {
    Split(piece, '=')[0]
  }

  /** The value of a trimmed piece: the text between its first and second
      "=", if it has one. */
  function PieceValue(piece: string): Option<string> {
    var parts := Split(piece, '=');
    if |parts| > 1 then Some(parts[1]) else None
  }

  /** The pieces of a Cookie header, each trimmed: one more piece than
      the header has ';', none holding a ';' or starting or ending with
      whitespace. */
  function Pieces(header: string): (ps: seq<string>)
    ensures |ps| == |Split(header, ';')| == CountChar(header, ';') + 1
    ensures forall i :: 0 <= i < |ps| ==> ps[i] == Trim(Split(header, ';')[i])
    ensures forall i :: 0 <= i < |ps| ==> ';' !in ps[i]
    ensures forall i :: 0 <= i < |ps| ==> ps[i] == "" || (!IsSpace(ps[i][0]) && !IsSpace(ps[i][|ps[i]| - 1]))
  {
    var raw := Split(header, ';');
    SplitCount(header, ';');
    var ps := seq(|raw|, i requires 0 <= i < |raw| => Trim(raw[i]));
    assert forall i :: 0 <= i < |ps| ==> ';' !in raw[i] && ps[i] == Trim(raw[i]);
    ps
  }

  /** The first piece named `key`, as a cookie. */
  function FirstNamed(pieces: seq<string>, key: string): (r: Option<Cookie>)
    ensures r.None? <==> forall i :: 0 <= i < |pieces| ==> PieceName(pieces[i]) != key
    ensures r.Some? ==> (exists i :: 0 <= i < |pieces| && PieceName(pieces[i]) == key
                           && r.value == Cookie(key, PieceValue(pieces[i]))
                           && forall j :: 0 <= j < i ==> PieceName(pieces[j]) != key)
  {
    if |pieces| == 0 then None
    else if PieceName(pieces[0]) == key then Some(Cookie(key, PieceValue(pieces[0])))
    else
      var r := FirstNamed(pieces[1..], key);
      FirstNamedShift(pieces, key, r);
      r
  }

  lemma FirstNamedShift(pieces: seq<string>, key: string, r: Option<Cookie>)
    requires |pieces| > 0 && PieceName(pieces[0]) != key
    requires r.Some? ==> (exists i :: 0 <= i < |pieces[1..]| && PieceName(pieces[1..][i]) == key
                            && r.value == Cookie(key, PieceValue(pieces[1..][i]))
                            && forall j :: 0 <= j < i ==> PieceName(pieces[1..][j]) != key)
    ensures r.Some? ==> (exists i :: 0 <= i < |pieces| && PieceName(pieces[i]) == key
                           && r.value == Cookie(key, PieceValue(pieces[i]))
                           && forall j :: 0 <= j < i ==> PieceName(pieces[j]) != key)
  {
    if r.Some? {
      var i :| 0 <= i < |pieces[1..]| && PieceName(pieces[1..][i]) == key
        && r.value == Cookie(key, PieceValue(pieces[1..][i]))
        && forall j :: 0 <= j < i ==> PieceName(pieces[1..][j]) != key;
      assert pieces[i + 1] == pieces[1..][i];
      assert forall j :: 0 <= j < i + 1 ==> PieceName(pieces[j]) != key by {
        forall j | 0 <= j < i + 1 ensures PieceName(pieces[j]) != key {
          if j > 0 { assert pieces[j] == pieces[1..][j - 1]; }
        }
      }
    }
  }

  /** `getCookie(key)`: without a request or a non-empty Cookie header
      there is none; otherwise the first piece whose name is `key`. */
  function GetCookie(req: Option<Request>, key: string): (r: Option<Cookie>)
    ensures req.None? || req.value.cookieHeader.None? || req.value.cookieHeader == Some("") ==> r.None?
    ensures r.Some? ==> r.value.key == key
    ensures req.Some? && req.value.cookieHeader.Some? && req.value.cookieHeader.value != "" ==>
      r == FirstNamed(Pieces(req.value.cookieHeader.value), key)
  {
    match req
    case None => None
    case Some(q) =>
      match q.cookieHeader
      case None => None
      case Some(h) => if h == "" then None else FirstNamed(Pieces(h), key)
  }

  /** A piece that is already trimmed is its own trimmed form. */
  lemma TrimmedPiece(piece: string)
    requires piece != "" && !IsSpace(piece[0]) && !IsSpace(piece[|piece| - 1])
    ensures Trim(piece) == piece
  {
  }

  /** A lone `key=value` header reads back as that cookie. */
  lemma CookieReadsBack(key: string, value: string)
    requires key != "" && !IsSpace(key[0])
    requires value == "" || !IsSpace(value[|value| - 1])
    requires ';' !in key && ';' !in value && '=' !in key && '=' !in value
    ensures GetCookie(Some(Request("/", [], Some(key + "=" + value))), key) == Some(Cookie(key, Some(value)))
  {
    var h := key + "=" + value;
    assert ';' !in h;
    assert IndexOfChar(h, ';') < 0;
    assert Split(h, ';') == [h];
    assert h[|h| - 1] == (if value == "" then '=' else value[|value| - 1]);
    TrimmedPiece(h);
    assert Pieces(h) == [h];
    assert h == Join([key, value], "=");
    SplitJoin([key, value], '=');
  }

  /** The value stops at a second "=": the text after it is not part of
      the value. */
  lemma ValueStopsAtSecondEquals(key: string, value: string, more: string)
    requires '=' !in key && '=' !in value
    ensures PieceValue(key + "=" + value + "=" + more) == Some(value)
  {
    assert key + "=" + value + "=" + more == key + "=" + (value + "=" + more);
    SplitHead(key, value + "=" + more, '=');
    SplitHead(value, more, '=');
  }

  /** Pieces after the first one named `key` are never looked at. */
  lemma FirstPieceWins(pieces: seq<string>, key: string, i: nat)
    requires i < |pieces| && PieceName(pieces[i]) == key
    requires forall j :: 0 <= j < i ==> PieceName(pieces[j]) != key
    ensures FirstNamed(pieces, key) == Some(Cookie(key, PieceValue(pieces[i])))
  {
    var r := FirstNamed(pieces, key);
    var k :| 0 <= k < |pieces| && PieceName(pieces[k]) == key
      && r.value == Cookie(key, PieceValue(pieces[k]))
      && forall j :: 0 <= j < k ==> PieceName(pieces[j]) != key;
    assert k == i;
  }
}
