/** Cookies as src/Cookies.ts handles them: parsing the request's Cookie
    header (section 4.2.1 of RFC 6265), serialising Set-Cookie lines
    (section 4.1.1 of RFC 6265), and the per-request jar. Percent
    decoding and encoding are the runtime's `decodeURIComponent` and
    `encodeURIComponent`; they are the parameters `decode` and `encode`,
    and a `None` stands for the runtime throwing. */
module Cookies {
  import opened Wrappers
  import opened Text

  /** `safeDecode`/`safeEncode`: a conversion that fails leaves the text
      as it was. */
  function Safe(conv: string -> Option<string>, v: string): (r: string)
    ensures conv(v).None? ==> r == v
    ensures conv(v).Some? ==> r == conv(v).value
  {
    match conv(v)
    case Some(d) => d
    case None => v
  }

  /** One `;`-separated piece of a Cookie header: trimmed, it must hold an
      "=" with a non-empty trimmed name before the first one; the value
      is everything after that first "=", still encoded. */
  function PieceOf(part: string): Option<(string, string)> {
    var s := Trim(part);
    var eq := IndexOfChar(s, '=');
    if s == "" || eq < 0 then None
    else
      var k := Trim(s[..eq]);
      if k == "" then None else Some((k, s[eq + 1..]))
  }

  /** A piece is kept exactly when its trimmed text has an "=" with a
      non-blank name before it; the name is trimmed and holds no "=". */
  lemma PieceOfShape(part: string)
    ensures var s := Trim(part);
      PieceOf(part).Some? <==> '=' in s && Trim(s[..IndexOfChar(s, '=')]) != ""
    ensures PieceOf(part).Some? ==> PieceOf(part).value.0 != "" && '=' !in PieceOf(part).value.0
  {
    var s := Trim(part);
    var eq := IndexOfChar(s, '=');
    if eq >= 0 {
      assert forall c :: c in Trim(s[..eq]) ==> c in s[..eq];
    }
  }

  /** A piece written as `name=value`, with no white space around it and
      no "=" in the name, reads back as that name and value. */
  lemma PieceOfPair(name: string, value: string)
    requires name != "" && '=' !in name && !IsSpace(name[0]) && !IsSpace(name[|name| - 1])
    requires value == "" || !IsSpace(value[|value| - 1])
    ensures PieceOf(name + "=" + value) == Some((name, value))
  {
    var s := name + "=" + value;
    assert s[0] == name[0];
    assert !IsSpace(s[|s| - 1]);
    assert Trim(s) == s;
    assert s[|name|] == '=' && s[..|name|] == name;
    IndexOfCharIs(s, '=', |name|);
    assert s[|name| + 1..] == value;
  }

  /** The piece `part` carries the name `k`. */
  predicate Names(part: string, k: string) {
    PieceOf(part).Some? && PieceOf(part).value.0 == k
  }

  /** One piece read into the cookies parsed so far. */
  function AddPiece(acc: map<string, string>, part: string, decode: string -> Option<string>): (r: map<string, string>)
    ensures forall q :: q in r <==> q in acc || Names(part, q)
    ensures forall q :: Names(part, q) ==> r[q] == Safe(decode, PieceOf(part).value.1)
    ensures forall q :: q in acc && !Names(part, q) ==> r[q] == acc[q]
  {
    match PieceOf(part)
    case None => acc
    case Some(kv) => acc[kv.0 := Safe(decode, kv.1)]
  }

  /** `parseCookieHeader`: the pieces read left to right, a later piece
      overwriting an earlier one of the same name. */
  function ParsePieces(parts: seq<string>, decode: string -> Option<string>): map<string, string>
    decreases |parts|
  {
    if |parts| == 0 then map[]
    else AddPiece(ParsePieces(parts[..|parts| - 1], decode), parts[|parts| - 1], decode)
  }

  function ParseCookieHeader(header: string, decode: string -> Option<string>): map<string, string> {
    ParsePieces(Split(header, ';'), decode)
  }

  /** A name is present exactly when some piece carries it. */
  lemma {:induction false} ParsedNames(parts: seq<string>, decode: string -> Option<string>, k: string)
    ensures k in ParsePieces(parts, decode) <==> exists i :: 0 <= i < |parts| && Names(parts[i], k)
    decreases |parts|
  {
    if |parts| > 0 {
      var front := parts[..|parts| - 1];
      var last := parts[|parts| - 1];
      ParsedNames(front, decode, k);
      assert ParsePieces(parts, decode) == AddPiece(ParsePieces(front, decode), last, decode);
      SomePieceNamesSnoc(parts, front, k);
    }
  }

  /** Some piece of `parts` carries `k` exactly when one of all but the
      last does, or the last does. */
  lemma SomePieceNamesSnoc(parts: seq<string>, front: seq<string>, k: string)
    requires |parts| > 0 && front == parts[..|parts| - 1]
    ensures (exists i :: 0 <= i < |parts| && Names(parts[i], k))
        <==> (exists i :: 0 <= i < |front| && Names(front[i], k)) || Names(parts[|parts| - 1], k)
  {
    var p := part => Names(part, k);
    SomeSnoc(parts, front, p);
    assert forall i :: 0 <= i < |parts| ==> (p(parts[i]) <==> Names(parts[i], k));
    assert forall i :: 0 <= i < |front| ==> (p(front[i]) <==> Names(front[i], k));
  }

  /** An element satisfies `p` exactly when one of all but the last does,
      or the last does. */
  lemma SomeSnoc<T>(xs: seq<T>, front: seq<T>, p: T -> bool)
    requires |xs| > 0 && front == xs[..|xs| - 1]
    ensures (exists i :: 0 <= i < |xs| && p(xs[i])) <==> (exists i :: 0 <= i < |front| && p(front[i])) || p(xs[|xs| - 1])
  {
    if exists i :: 0 <= i < |xs| && p(xs[i]) {
      var i :| 0 <= i < |xs| && p(xs[i]);
      if i < |front| {
        assert front[i] == xs[i];
      }
    }
    if exists i :: 0 <= i < |front| && p(front[i]) {
      var i :| 0 <= i < |front| && p(front[i]);
      assert xs[i] == front[i];
    }
  }

  /** For a repeated name, the last piece carrying it wins. */
  lemma {:induction false} ParsedLastWins(parts: seq<string>, decode: string -> Option<string>, i: nat, k: string)
    requires i < |parts| && Names(parts[i], k)
    requires forall j :: i < j < |parts| ==> !Names(parts[j], k)
    ensures k in ParsePieces(parts, decode)
    ensures ParsePieces(parts, decode)[k] == Safe(decode, PieceOf(parts[i]).value.1)
    decreases |parts|
  {
    var front := parts[..|parts| - 1];
    if i < |parts| - 1 {
      assert front[i] == parts[i];
      forall j | i < j < |front| ensures !Names(front[j], k) {
        assert front[j] == parts[j];
      }
      ParsedLastWins(front, decode, i, k);
      assert !Names(parts[|parts| - 1], k);
    }
  }

  /** The options a Set-Cookie line can carry; `expires` is the date's
      `toUTCString()` text, which the runtime computes. */
  datatype Options = Options(
    path: Option<string>,
    domain: Option<string>,
    maxAge: Option<int>,
    expires: Option<string>,
    httpOnly: Option<bool>,
    secure: Option<bool>,
    sameSite: Option<string>)

  const NoOptions := Options(None, None, None, None, None, None, None)

  /** The attributes a Set-Cookie line can carry. */
  datatype AttrKind = PathAttr | DomainAttr | MaxAgeAttr | ExpiresAttr | HttpOnlyAttr | SecureAttr | SameSiteAttr

  function AttrName(k: AttrKind): string {
    match k
    case PathAttr => "Path"
    case DomainAttr => "Domain"
    case MaxAgeAttr => "Max-Age"
    case ExpiresAttr => "Expires"
    case HttpOnlyAttr => "HttpOnly"
    case SecureAttr => "Secure"
    case SameSiteAttr => "SameSite"
  }

  /** One attribute: its kind, and a value unless it is a flag. */
  datatype Attr = Attr(kind: AttrKind, value: Option<string>)

  /** One attribute as it follows the `name=value` head: "; Name=Value",
      or "; Name" for a flag. */
  function AttrText(a: Attr): string {
    "; " + AttrName(a.kind) + (if a.value.Some? then "=" + a.value.value else "")
  }

  /** The attributes as they follow the head, one after the other. */
  function RenderAttrs(attrs: seq<Attr>): string {
    if |attrs| == 0 then ""
    else AttrText(attrs[0]) + RenderAttrs(attrs[1..])
  }

  /** Rendering two runs of attributes is rendering each, in order. */
  lemma {:induction false} RenderAttrsAppend(a: seq<Attr>, b: seq<Attr>)
    ensures RenderAttrs(a + b) == RenderAttrs(a) + RenderAttrs(b)
    decreases |a|
  {
    if |a| == 0 {
      assert a + b == b;
    } else {
      assert (a + b)[0] == a[0] && (a + b)[1..] == a[1..] + b;
      RenderAttrsAppend(a[1..], b);
    }
  }

  /** What a serialiser writes for attribute `k`, given what it keeps of
      it: nothing when it is left out, its text otherwise. */
  function AttrPiece(k: AttrKind, kept: Option<Option<string>>): string {
    match kept
    case None => ""
    case Some(v) => AttrText(Attr(k, v))
  }

  /** The attribute pieces of the candidates, in the order they are tried. */
  function AttrPieces(kinds: seq<AttrKind>, val: AttrKind -> Option<Option<string>>): string {
    if |kinds| == 0 then "" else AttrPiece(kinds[0], val(kinds[0])) + AttrPieces(kinds[1..], val)
  }

  /** Rendering what `Collect` keeps writes each candidate's piece in
      turn, which is what appending one `if` at a time does. */
  lemma {:induction false} RenderCollect(kinds: seq<AttrKind>, val: AttrKind -> Option<Option<string>>)
    ensures RenderAttrs(Collect(kinds, val)) == AttrPieces(kinds, val)
    decreases |kinds|
  {
    if |kinds| > 0 {
      RenderCollect(kinds[1..], val);
      match val(kinds[0])
      case None =>
        CollectSkip(kinds, val);
      case Some(v) =>
        CollectTake(kinds, val);
        var rest := Collect(kinds[1..], val);
        assert ([Attr(kinds[0], v)] + rest)[1..] == rest;
    }
  }

  /** One step of `AttrPieces`, from any position. */
  lemma AttrPiecesAt(kinds: seq<AttrKind>, val: AttrKind -> Option<Option<string>>, i: nat)
    requires i < |kinds|
    ensures AttrPieces(kinds[i..], val) == AttrPiece(kinds[i], val(kinds[i])) + AttrPieces(kinds[i + 1..], val)
  {
    assert kinds[i..][0] == kinds[i] && kinds[i..][1..] == kinds[i + 1..];
  }

  /** Rendering what `Collect` keeps of seven candidates, written out. */
  lemma RenderSeven(kinds: seq<AttrKind>, val: AttrKind -> Option<Option<string>>)
    requires |kinds| == 7
    ensures RenderAttrs(Collect(kinds, val)) ==
      AttrPiece(kinds[0], val(kinds[0])) + (AttrPiece(kinds[1], val(kinds[1])) + (AttrPiece(kinds[2], val(kinds[2]))
      + (AttrPiece(kinds[3], val(kinds[3])) + (AttrPiece(kinds[4], val(kinds[4])) + (AttrPiece(kinds[5], val(kinds[5]))
      + AttrPiece(kinds[6], val(kinds[6])))))))
  {
    RenderCollect(kinds, val);
    assert kinds[0..] == kinds;
    AttrPiecesAt(kinds, val, 0);
    AttrPiecesAt(kinds, val, 1);
    AttrPiecesAt(kinds, val, 2);
    AttrPiecesAt(kinds, val, 3);
    AttrPiecesAt(kinds, val, 4);
    AttrPiecesAt(kinds, val, 5);
    AttrPiecesAt(kinds, val, 6);
    assert AttrPieces(kinds[7..], val) == "";
    assert AttrPiece(kinds[6], val(kinds[6])) + "" == AttrPiece(kinds[6], val(kinds[6]));
  }

  /** The attributes follow the order `rank` gives, each kind at most
      once. */
  predicate InOrder(attrs: seq<Attr>, rank: AttrKind -> nat) {
    forall i, j :: 0 <= i < j < |attrs| ==> rank(attrs[i].kind) < rank(attrs[j].kind)
  }

  function KindsOf(attrs: seq<Attr>): (ks: seq<AttrKind>)
    ensures |ks| == |attrs| && forall i :: 0 <= i < |attrs| ==> ks[i] == attrs[i].kind
  {
    seq(|attrs|, i requires 0 <= i < |attrs| => attrs[i].kind)
  }

  /** `rank` strictly increases along `kinds`. */
  predicate Ascending(kinds: seq<AttrKind>, rank: AttrKind -> nat) {
    forall i, j :: 0 <= i < j < |kinds| ==> rank(kinds[i]) < rank(kinds[j])
  }

  /** Walks the candidate attributes in the serialiser's order and writes
      those `val` keeps: `val(k)` is none for a left-out attribute, some
      none for a flag and some text for a valued one. */
  function Collect(kinds: seq<AttrKind>, val: AttrKind -> Option<Option<string>>): (attrs: seq<Attr>)
    ensures forall k :: k in KindsOf(attrs) <==> k in kinds && val(k).Some?
    ensures forall i :: 0 <= i < |attrs| ==> val(attrs[i].kind) == Some(attrs[i].value)
  {
    if |kinds| == 0 then []
    else
      var rest := Collect(kinds[1..], val);
      CollectedCons(kinds, val, rest);
      match val(kinds[0])
      case None => rest
      case Some(v) => [Attr(kinds[0], v)] + rest
  }

  /** `Collect` passes over a left-out head. */
  lemma CollectSkip(kinds: seq<AttrKind>, val: AttrKind -> Option<Option<string>>)
    requires |kinds| > 0 && val(kinds[0]).None?
    ensures Collect(kinds, val) == Collect(kinds[1..], val)
  {
  }

  /** `Collect` writes a kept head first. */
  lemma CollectTake(kinds: seq<AttrKind>, val: AttrKind -> Option<Option<string>>)
    requires |kinds| > 0 && val(kinds[0]).Some?
    ensures Collect(kinds, val) == [Attr(kinds[0], val(kinds[0]).value)] + Collect(kinds[1..], val)
  {
  }

  /** What `Collect(kinds, val)` promises of its result. */
  predicate Collected(kinds: seq<AttrKind>, val: AttrKind -> Option<Option<string>>, attrs: seq<Attr>) {
    && (forall k :: k in KindsOf(attrs) <==> k in kinds && val(k).Some?)
    && (forall i :: 0 <= i < |attrs| ==> val(attrs[i].kind) == Some(attrs[i].value))
  }

  /** The first candidate, written or skipped, ahead of the rest. */
  lemma CollectedCons(kinds: seq<AttrKind>, val: AttrKind -> Option<Option<string>>, rest: seq<Attr>)
    requires |kinds| > 0 && Collected(kinds[1..], val, rest)
    ensures val(kinds[0]).None? ==> Collected(kinds, val, rest)
    ensures val(kinds[0]).Some? ==> Collected(kinds, val, [Attr(kinds[0], val(kinds[0]).value)] + rest)
  {
    var tail := kinds[1..];
    forall k | k in kinds ensures k == kinds[0] || k in tail {
      var i :| 0 <= i < |kinds| && kinds[i] == k;
      if i > 0 { assert tail[i - 1] == k; }
    }
    forall k | k in tail ensures k in kinds {
      var i :| 0 <= i < |tail| && tail[i] == k;
      assert kinds[i + 1] == k;
    }
    if val(kinds[0]).Some? {
      var r := [Attr(kinds[0], val(kinds[0]).value)] + rest;
      var ks := KindsOf(r);
      assert ks == [kinds[0]] + KindsOf(rest);
      forall i | 0 <= i < |r| ensures val(r[i].kind) == Some(r[i].value) {
        if i > 0 { assert r[i] == rest[i - 1]; }
      }
    }
  }

  /** Written in an ascending order, the attributes come out in it. */
  lemma {:induction false} CollectInOrder(kinds: seq<AttrKind>, val: AttrKind -> Option<Option<string>>, rank: AttrKind -> nat)
    requires Ascending(kinds, rank)
    ensures InOrder(Collect(kinds, val), rank)
  {
    if |kinds| > 0 {
      AscendingTail(kinds, rank);
      CollectInOrder(kinds[1..], val, rank);
      CollectInOrderCons(kinds, val, rank);
    }
  }

  lemma AscendingTail(kinds: seq<AttrKind>, rank: AttrKind -> nat)
    requires |kinds| > 0 && Ascending(kinds, rank)
    ensures Ascending(kinds[1..], rank)
  {
    var tail := kinds[1..];
    forall i, j | 0 <= i < j < |tail| ensures rank(tail[i]) < rank(tail[j]) {
      assert tail[i] == kinds[i + 1] && tail[j] == kinds[j + 1];
    }
  }

  /** The step of `CollectInOrder`: a written head ranks before the rest. */
  lemma CollectInOrderCons(kinds: seq<AttrKind>, val: AttrKind -> Option<Option<string>>, rank: AttrKind -> nat)
    requires |kinds| > 0 && Ascending(kinds, rank)
    requires InOrder(Collect(kinds[1..], val), rank)
    ensures InOrder(Collect(kinds, val), rank)
  {
    var rest := Collect(kinds[1..], val);
    if val(kinds[0]).Some? {
      CollectAfterHead(kinds, val, rank);
      InOrderCons(Attr(kinds[0], val(kinds[0]).value), rest, rank);
      assert Collect(kinds, val) == [Attr(kinds[0], val(kinds[0]).value)] + rest;
    } else {
      assert Collect(kinds, val) == rest;
    }
  }

  /** An attribute ranked before every one of an ordered list, put in
      front of it. */
  lemma InOrderCons(a: Attr, rest: seq<Attr>, rank: AttrKind -> nat)
    requires InOrder(rest, rank)
    requires forall i :: 0 <= i < |rest| ==> rank(a.kind) < rank(rest[i].kind)
    ensures InOrder([a] + rest, rank)
  {
    var r := [a] + rest;
    forall i, j | 0 <= i < j < |r| ensures rank(r[i].kind) < rank(r[j].kind) {
      assert r[j] == rest[j - 1];
      if i > 0 { assert r[i] == rest[i - 1]; }
    }
  }

  /** Whatever the rest of an ascending list writes ranks after its head. */
  lemma CollectAfterHead(kinds: seq<AttrKind>, val: AttrKind -> Option<Option<string>>, rank: AttrKind -> nat)
    requires |kinds| > 0 && Ascending(kinds, rank)
    ensures var rest := Collect(kinds[1..], val);
      forall i :: 0 <= i < |rest| ==> rank(kinds[0]) < rank(rest[i].kind)
  {
    var tail := kinds[1..];
    var rest := Collect(tail, val);
    forall i | 0 <= i < |rest| ensures rank(kinds[0]) < rank(rest[i].kind) {
      assert KindsOf(rest)[i] == rest[i].kind;
      var j :| 0 <= j < |tail| && tail[j] == rest[i].kind;
      assert kinds[j + 1] == rest[i].kind;
    }
  }

  /** Path, Domain, Max-Age, Expires, HttpOnly, Secure, SameSite. */
  const CookieKinds := [PathAttr, DomainAttr, MaxAgeAttr, ExpiresAttr, HttpOnlyAttr, SecureAttr, SameSiteAttr]

  lemma CookieKindsComplete()
    ensures forall k: AttrKind :: k in CookieKinds
  {
    forall k: AttrKind ensures k in CookieKinds {
      match k
      case PathAttr => assert CookieKinds[0] == k;
      case DomainAttr => assert CookieKinds[1] == k;
      case MaxAgeAttr => assert CookieKinds[2] == k;
      case ExpiresAttr => assert CookieKinds[3] == k;
      case HttpOnlyAttr => assert CookieKinds[4] == k;
      case SecureAttr => assert CookieKinds[5] == k;
      case SameSiteAttr => assert CookieKinds[6] == k;
    }
  }

  function CookieRank(k: AttrKind): nat {
    match k
    case PathAttr => 0
    case DomainAttr => 1
    case MaxAgeAttr => 2
    case ExpiresAttr => 3
    case HttpOnlyAttr => 4
    case SecureAttr => 5
    case SameSiteAttr => 6
  }

  /** What `serializeSetCookie` writes for each attribute: a missing
      path, HttpOnly or SameSite takes its default ("/", true, "Lax");
      empty texts and false flags are left out. */
  function CookieAttr(o: Options, k: AttrKind): Option<Option<string>> {
    match k
    case PathAttr => var p := o.path.GetOr("/"); if p != "" then Some(Some(p)) else None
    case DomainAttr => if o.domain.Some? && o.domain.value != "" then Some(o.domain) else None
    case MaxAgeAttr => if o.maxAge.Some? then Some(Some(IntToString(o.maxAge.value))) else None
    case ExpiresAttr => if o.expires.Some? then Some(o.expires) else None
    case HttpOnlyAttr => if o.httpOnly.GetOr(true) then Some(None) else None
    case SecureAttr => if o.secure == Some(true) then Some(None) else None
    case SameSiteAttr => var s := o.sameSite.GetOr("Lax"); if s != "" then Some(Some(s)) else None
  }

  /** The attributes of a `serializeSetCookie` line: exactly those the
      options keep, in order. */
  function SetCookieAttrs(o: Options): (attrs: seq<Attr>)
    ensures InOrder(attrs, CookieRank)
    ensures forall k :: k in KindsOf(attrs) <==> CookieAttr(o, k).Some?
    ensures forall i :: 0 <= i < |attrs| ==> CookieAttr(o, attrs[i].kind) == Some(attrs[i].value)
  {
    CollectInOrder(CookieKinds, k => CookieAttr(o, k), CookieRank);
    CookieKindsComplete();
    Collect(CookieKinds, k => CookieAttr(o, k))
  }

  /** `serializeSetCookie(name, value, options)`: the head, then each
      attribute the options keep, in the order Path, Domain, Max-Age,
      Expires, HttpOnly, Secure, SameSite. */
  function SerializeSetCookie(name: string, value: string, o: Options, encode: string -> Option<string>): (line: string)
    ensures StartsWith(line, name + "=" + Safe(encode, value))
  {
    name + "=" + Safe(encode, value) + RenderAttrs(SetCookieAttrs(o))
  }

  /** The line, spelled out: the head, then each attribute the options
      keep, in the order Path, Domain, Max-Age, Expires, HttpOnly, Secure,
      SameSite, as appending one `if` at a time writes them. */
  lemma SerializeSetCookieText(name: string, value: string, o: Options, encode: string -> Option<string>)
    ensures SerializeSetCookie(name, value, o, encode) == name + "=" + Safe(encode, value)
      + (AttrPiece(PathAttr, CookieAttr(o, PathAttr)) + (AttrPiece(DomainAttr, CookieAttr(o, DomainAttr))
      + (AttrPiece(MaxAgeAttr, CookieAttr(o, MaxAgeAttr)) + (AttrPiece(ExpiresAttr, CookieAttr(o, ExpiresAttr))
      + (AttrPiece(HttpOnlyAttr, CookieAttr(o, HttpOnlyAttr)) + (AttrPiece(SecureAttr, CookieAttr(o, SecureAttr))
      + AttrPiece(SameSiteAttr, CookieAttr(o, SameSiteAttr))))))))
  {
    RenderSeven(CookieKinds, k => CookieAttr(o, k));
  }

  /** Every attribute the options keep is written with its value. */
  lemma Carried(o: Options, k: AttrKind)
    requires CookieAttr(o, k).Some?
    ensures Attr(k, CookieAttr(o, k).value) in SetCookieAttrs(o)
  {
    var attrs := SetCookieAttrs(o);
    assert k in KindsOf(attrs);
    var i :| 0 <= i < |attrs| && KindsOf(attrs)[i] == k;
    assert attrs[i] == Attr(k, CookieAttr(o, k).value);
  }

  /** Unspecified options take their defaults: Path=/, HttpOnly and
      SameSite=Lax. */
  lemma Defaults(o: Options)
    ensures o.path.None? ==> Attr(PathAttr, Some("/")) in SetCookieAttrs(o)
    ensures o.httpOnly.None? ==> Attr(HttpOnlyAttr, None) in SetCookieAttrs(o)
    ensures o.sameSite.None? ==> Attr(SameSiteAttr, Some("Lax")) in SetCookieAttrs(o)
  {
    DefaultPath(o);
    DefaultHttpOnly(o);
    DefaultSameSite(o);
  }

  lemma DefaultPath(o: Options)
    ensures o.path.None? ==> Attr(PathAttr, Some("/")) in SetCookieAttrs(o)
  {
    if o.path.None? {
      CarriedAs(o, PathAttr, Some("/"));
    }
  }

  lemma DefaultHttpOnly(o: Options)
    ensures o.httpOnly.None? ==> Attr(HttpOnlyAttr, None) in SetCookieAttrs(o)
  {
    if o.httpOnly.None? {
      CarriedAs(o, HttpOnlyAttr, None);
    }
  }

  lemma DefaultSameSite(o: Options)
    ensures o.sameSite.None? ==> Attr(SameSiteAttr, Some("Lax")) in SetCookieAttrs(o)
  {
    if o.sameSite.None? {
      CarriedAs(o, SameSiteAttr, Some("Lax"));
    }
  }

  /** `Carried`, for an attribute whose value is already known. */
  lemma CarriedAs(o: Options, k: AttrKind, v: Option<string>)
    requires CookieAttr(o, k) == Some(v)
    ensures Attr(k, v) in SetCookieAttrs(o)
  {
    Carried(o, k);
  }

  /** Two valued attributes render one after the other. */
  lemma RenderPair(a: Attr, b: Attr)
    requires a.value.Some? && b.value.Some?
    ensures RenderAttrs([a, b]) ==
      "; " + AttrName(a.kind) + "=" + a.value.value + ("; " + AttrName(b.kind) + "=" + b.value.value)
  {
    assert [a, b][1..] == [b];
    assert [b][1..] == [];
    var ra := "; " + AttrName(a.kind) + "=" + a.value.value;
    var rb := "; " + AttrName(b.kind) + "=" + b.value.value;
    assert RenderAttrs([b]) == rb + "";
    assert RenderAttrs([a, b]) == ra + RenderAttrs([b]);
  }

  /** `new Date(0).toUTCString()`. */
  const Epoch: string := "Thu, 01 Jan 1970 00:00:00 GMT"

  /** The options `clear` writes with: the given path or "/", the given
      domain, Max-Age 0 and an Expires at the epoch. */
  function ClearOptions(path: Option<string>, domain: Option<string>): (o: Options)
    ensures o.maxAge == Some(0) && o.expires == Some(Epoch)
    ensures o.path.Some? && (path.None? ==> o.path.value == "/")
  {
    Options(Some(path.GetOr("/")), domain, Some(0), Some(Epoch), None, None, None)
  }

  /** The per-request jar: the raw Cookie header, its parsed form once
      read, and the Set-Cookie lines written so far. */
  datatype Jar = Jar(header: Option<string>, parsed: Option<map<string, string>>, lines: seq<string>)

  /** The parsed cache, when present, is the parse of the current header
      (a missing or empty header parses to no cookies). */
  predicate Valid(j: Jar, decode: string -> Option<string>) {
    j.parsed.Some? ==> j.parsed.value == Parsed(j.header, decode)
  }

  function Parsed(header: Option<string>, decode: string -> Option<string>): map<string, string> {
    if header.Some? && header.value != "" then ParseCookieHeader(header.value, decode) else map[]
  }

  /** `resetRequest`: a new header, and the parsed cache discarded. */
  function ResetRequest(j: Jar, header: Option<string>): (r: Jar)
    ensures r.header == header && r.parsed == None && r.lines == j.lines
  {
    Jar(header, None, j.lines)
  }

  /** `resetResponse`: no Set-Cookie lines. */
  function ResetResponse(j: Jar): (r: Jar)
    ensures r.lines == [] && r.header == j.header && r.parsed == j.parsed
  {
    j.(lines := [])
  }

  /** `get(name)`: parses the header on first use, then answers from the
      parse; an absent name gives none. */
  function Get(j: Jar, name: string, decode: string -> Option<string>): (r: (Jar, Option<string>))
    requires Valid(j, decode)
    ensures Valid(r.0, decode) && r.0.lines == j.lines && r.0.header == j.header
    ensures r.1.Some? <==> name in Parsed(j.header, decode)
    ensures r.1.Some? ==> r.1.value == Parsed(j.header, decode)[name]
  {
    var m := if j.parsed.Some? then j.parsed.value else Parsed(j.header, decode);
    (j.(parsed := Some(m)), if name in m then Some(m[name]) else None)
  }

  /** `set`: one more Set-Cookie line, after the earlier ones. */
  function SetCookie(j: Jar, name: string, value: string, o: Options, encode: string -> Option<string>): (r: Jar)
    ensures r.lines == j.lines + [SerializeSetCookie(name, value, o, encode)]
    ensures r.header == j.header && r.parsed == j.parsed
  {
    j.(lines := j.lines + [SerializeSetCookie(name, value, o, encode)])
  }

  /** `clear`: an empty value that expires at once. */
  function Clear(j: Jar, name: string, path: Option<string>, domain: Option<string>, encode: string -> Option<string>): (r: Jar)
    ensures r.lines == j.lines + [SerializeSetCookie(name, "", ClearOptions(path, domain), encode)]
  {
    SetCookie(j, name, "", ClearOptions(path, domain), encode)
  }

  /** `getSetCookieLines`: the lines in call order. */
  function SetCookieLines(j: Jar): seq<string> {
    j.lines
  }

  /** After `resetRequest` a read sees the new header, whatever was cached
      before. */
  lemma ResetRequestRereads(j: Jar, header: Option<string>, name: string, decode: string -> Option<string>)
    ensures Valid(ResetRequest(j, header), decode)
    ensures Get(ResetRequest(j, header), name, decode).1.Some? <==> name in Parsed(header, decode)
  {
  }
}
