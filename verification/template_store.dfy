/** The store of embedded template files (src/TemplateStore.ts): keys are
    normalised relative paths beginning with "/", and no accepted key can
    climb out of the store. */
module TemplateStore {
  import opened Wrappers
  import opened Text
  import opened PosixPath
  import opened SystemErrors

  datatype Content = TextContent(text: string) | ByteContent(bytes: seq<bv8>)

  datatype EmbeddedFile = EmbeddedFile(content: Content, mime: string)

  datatype Store = Store(files: map<string, EmbeddedFile>)

  /** `add`: the entries are written in order, so a later entry wins. */
  function Add(s: Store, more: seq<(string, EmbeddedFile)>): Store
    decreases |more|
  {
    if |more| == 0 then s
    else
      var last := more[|more| - 1];
      Store(Add(s, more[..|more| - 1]).files[last.0 := last.1])
  }

  /** After `add`, a key no entry mentions keeps its earlier file (or its
      absence). */
  lemma {:induction false} AddKeepsUnmentioned(s: Store, more: seq<(string, EmbeddedFile)>, k: string)
    requires forall i :: 0 <= i < |more| ==> more[i].0 != k
    ensures k in Add(s, more).files <==> k in s.files
    ensures k in s.files ==> Add(s, more).files[k] == s.files[k]
    decreases |more|
  {
    if |more| > 0 {
      var init := more[..|more| - 1];
      assert forall i :: 0 <= i < |init| ==> init[i] == more[i];
      AddKeepsUnmentioned(s, init, k);
    }
  }

  /** After `add`, a key holds the file of the last entry that names it. */
  lemma {:induction false} AddLaterWins(s: Store, more: seq<(string, EmbeddedFile)>, k: string, i: nat)
    requires i < |more| && more[i].0 == k
    requires forall j :: i < j < |more| ==> more[j].0 != k
    ensures k in Add(s, more).files && Add(s, more).files[k] == more[i].1
    decreases |more|
  {
    if i < |more| - 1 {
      var init := more[..|more| - 1];
      assert forall j :: 0 <= j < |init| ==> init[j] == more[j];
      AddLaterWins(s, init, k, i);
    }
  }

  function ReplaceBackslashes(p: string): (r: string)
    ensures |r| == |p|
    ensures forall i :: 0 <= i < |p| ==> r[i] == (if p[i] == '\\' then '/' else p[i])
  {
    seq(|p|, i requires 0 <= i < |p| => if p[i] == '\\' then '/' else p[i])
  }

  /** `while (p.startsWith("./")) p = p.slice(2)`. */
  function StripDotSlashes(p: string): (r: string)
    ensures !StartsWith(r, "./")
    decreases |p|
  {
    if StartsWith(p, "./") then StripDotSlashes(p[2..]) else p
  }

  /** The page a blank path or "." names. */
  const IndexPage: string := "index.html"

  /** The relative path the store normalises before the traversal check:
      a blank request names "index.html". */
  function Relative(relPath: string): string {
    var t := Trim(relPath);
    Unprefix(if t == "" then IndexPage else t)
  }

  /** Backslashes become slashes, then leading "./" and "/" go. */
  function Unprefix(p: string): string {
    StripLeadingSlashes(StripDotSlashes(ReplaceBackslashes(p)))
  }

  /** `normalizeRel`: the store key for a requested path, or FILE_NOT_FOUND
      "Access Denied" when the normalised path climbs upward. */
  function NormalizeRel(relPath: string): (r: Result<string, Failure>)
    ensures r.Err? ==> r.error == SystemErr(FileNotFound, "Access Denied")
    ensures r.Ok? ==> StartsWith(r.value, "/")
  {
    KeyOf(Relative(relPath))
  }

  /** The traversal check and key for an already relative path. */
  function KeyOf(p: string): Result<string, Failure> {
    var norm := Normalize(p);
    var finalRel := if norm == "." then IndexPage else norm;
    if finalRel == ".." || StartsWith(finalRel, "../") || Includes(finalRel, "/../") then
      Err(SystemErr(FileNotFound, "Access Denied"))
    else Ok("/" + finalRel)
  }

  /** An accepted key has no ".." segment: whatever the request spells, the
      key names a file at or below the store's root. */
  lemma NormalizeRelConfined(relPath: string)
    requires NormalizeRel(relPath).Ok?
    ensures ".." !in Split(NormalizeRel(relPath).value[1..], '/')
  {
    KeyOfConfined(Relative(relPath));
  }

  /** The traversal check only lets through keys without a ".." segment. */
  lemma KeyOfConfined(p: string)
    requires KeyOf(p).Ok? && (p == "" || p[0] != '/')
    ensures ".." !in Split(KeyOf(p).value[1..], '/')
  {
    var norm := Normalize(p);
    var finalRel := if norm == "." then IndexPage else norm;
    assert KeyOf(p).value[1..] == finalRel;
    if norm == "." {
      NameSplit(IndexPage);
    } else {
      RelativeShape(p);
      var st := Fold([], Split(p, '/'), true);
      if Join(st, "/") == "" {
        DotSlashSplit();
      } else {
        ConfinedBody(st, p[|p| - 1] == '/');
      }
    }
  }

  /** The normal form of a relative path: its clean segment stack written
      out, with the path's trailing slash, or "." / "./" when nothing is
      left. */
  lemma RelativeShape(p: string)
    requires p != "" && p[0] != '/'
    ensures var st := Fold([], Split(p, '/'), true);
      var body := Join(st, "/");
      && PosixPath.Clean(st)
      && (body == "" ==> Normalize(p) == "." || Normalize(p) == "./")
      && (body != "" ==> |st| >= 1 && Normalize(p) == (if p[|p| - 1] == '/' then body + "/" else body))
  {
    FoldClean([], Split(p, '/'), true);
  }

  lemma NameSplit(n: string)
    requires '/' !in n
    ensures Split(n, '/') == [n]
  {
    assert IndexOfChar(n, '/') < 0;
  }

  lemma DotSlashSplit()
    ensures Split("./", '/') == [".", ""]
  {
    IndexOfCharIs("./", '/', 1);
    assert "./"[2..] == "";
    assert "./"[..1] == ".";
  }

  /** A clean, non-empty stack written out (with or without a trailing
      slash) that does not start with ".." has no ".." segment. */
  lemma ConfinedBody(st: seq<string>, trailing: bool)
    requires PosixPath.Clean(st) && |st| >= 1
    requires var body := Join(st, "/"); var w := if trailing then body + "/" else body;
      !(w == ".." || StartsWith(w, "../"))
    ensures var body := Join(st, "/"); var w := if trailing then body + "/" else body;
      ".." !in Split(w, '/')
  {
    var body := Join(st, "/");
    LeadingDotDot(st, trailing);
    CleanHead(st);
    SplitJoin(st, '/');
    if trailing {
      SplitTrailing(body);
    }
  }

  /** A stack that starts with ".." is written out as ".." or "../...". */
  lemma LeadingDotDot(st: seq<string>, trailing: bool)
    requires |st| >= 1
    ensures var body := Join(st, "/"); var w := if trailing then body + "/" else body;
      st[0] == ".." ==> w == ".." || StartsWith(w, "../")
  {
    var body := Join(st, "/");
    if |st| > 1 {
      assert body == st[0] + "/" + Join(st[1..], "/");
    }
  }

  /** In a clean stack every ".." comes first, so a stack whose head is not
      ".." holds none. */
  lemma CleanHead(st: seq<string>)
    requires PosixPath.Clean(st) && |st| >= 1
    ensures st[0] != ".." ==> ".." !in st
  {
  }

  /** Splitting a string with a "/" appended adds one empty segment. */
  lemma {:induction false} SplitTrailing(s: string)
    ensures Split(s + "/", '/') == Split(s, '/') + [""]
    decreases |s|
  {
    var i := IndexOfChar(s, '/');
    if i < 0 {
      SplitTrailingLast(s);
    } else {
      SplitTrailing(s[i + 1..]);
      SplitTrailingStep(s, i);
    }
  }

  /** The base case: the appended "/" is the only separator. */
  lemma SplitTrailingLast(s: string)
    requires IndexOfChar(s, '/') < 0
    ensures Split(s + "/", '/') == Split(s, '/') + [""]
  {
    var t := s + "/";
    IndexOfCharIs(t, '/', |s|);
    assert t[..|s|] == s;
    assert t[|s| + 1..] == "";
    assert Split("", '/') == [""];
  }

  /** The step: the first separator of `s` is also the first of `s + "/"`. */
  lemma SplitTrailingStep(s: string, i: nat)
    requires IndexOfChar(s, '/') == i
    requires Split(s[i + 1..] + "/", '/') == Split(s[i + 1..], '/') + [""]
    ensures Split(s + "/", '/') == Split(s, '/') + [""]
  {
    var t := s + "/";
    var rest := s[i + 1..];
    SplitSlashHead(s, i);
    SplitAt(s, '/', i);
    ConsSnoc(s[..i], Split(t, '/'), Split(s, '/'), Split(rest + "/", '/'), Split(rest, '/'), "");
  }

  /** `[h] + c` is `([h] + d) + [x]` when `c` is `d + [x]`. */
  lemma ConsSnoc<T>(h: T, a: seq<T>, b: seq<T>, c: seq<T>, d: seq<T>, x: T)
    requires a == [h] + c && b == [h] + d && c == d + [x]
    ensures a == b + [x]
  {
  }

  /** The first piece of `s + "/"` is the first piece of `s`. */
  lemma SplitSlashHead(s: string, i: nat)
    requires IndexOfChar(s, '/') == i
    ensures Split(s + "/", '/') == [s[..i]] + Split(s[i + 1..] + "/", '/')
  {
    var t := s + "/";
    FirstSlashKept(s, i);
    SplitAt(t, '/', i);
    assert t[..i] == s[..i] && t[i + 1..] == s[i + 1..] + "/";
  }

  /** Appending a "/" does not move the first one. */
  lemma FirstSlashKept(s: string, i: nat)
    requires IndexOfChar(s, '/') == i
    ensures IndexOfChar(s + "/", '/') == i
  {
    var t := s + "/";
    assert t[..i] == s[..i] && t[i] == '/';
    IndexOfCharIs(t, '/', i);
  }

  /** A plain file name gives the same key written bare, after "./" or
      after "/": "index.html", "./index.html" and "/index.html" are one
      template. */
  lemma FileNameSpellings(n: string)
    requires n != "" && n != "." && n != ".."
    requires '/' !in n && '\\' !in n
    requires !IsSpace(n[0]) && !IsSpace(n[|n| - 1])
    ensures NormalizeRel(n) == Ok("/" + n)
    ensures NormalizeRel("./" + n) == Ok("/" + n)
    ensures NormalizeRel("/" + n) == Ok("/" + n)
  {
    UnprefixName(n);
    KeyOfName(n);
    TrimSpellings(n);
    Spelling(n, n);
    Spelling("./" + n, n);
    Spelling("/" + n, n);
  }

  lemma TrimSpellings(n: string)
    requires n != "" && !IsSpace(n[0]) && !IsSpace(n[|n| - 1])
    ensures Trim(n) == n && Trim("./" + n) == "./" + n && Trim("/" + n) == "/" + n
  {
    TrimClean(n);
    var a := "./" + n;
    assert a[0] == '.' && !IsSpace('.');
    assert a[|a| - 1] == n[|n| - 1];
    TrimClean(a);
    var b := "/" + n;
    assert b[0] == '/' && !IsSpace('/');
    assert b[|b| - 1] == n[|n| - 1];
    TrimClean(b);
  }

  lemma TrimClean(x: string)
    requires x != "" && !IsSpace(x[0]) && !IsSpace(x[|x| - 1])
    ensures Trim(x) == x
  {
  }

  /** A request that needs no trimming and loses its prefix to become `n`
      has the key of `n`. */
  lemma Spelling(x: string, n: string)
    requires x != "" && Trim(x) == x && Unprefix(x) == n
    ensures NormalizeRel(x) == KeyOf(n)
  {
  }

  /** A plain file name is accepted as its own key. */
  lemma KeyOfName(n: string)
    requires n != "" && n != "." && n != ".." && '/' !in n
    ensures KeyOf(n) == Ok("/" + n)
  {
    NameNormalize(n);
    NameAccepted(n);
  }

  /** The three spellings of a plain file name lose their prefix. */
  lemma UnprefixName(n: string)
    requires n != "" && '/' !in n && '\\' !in n
    ensures Unprefix(n) == n && Unprefix("./" + n) == n && Unprefix("/" + n) == n
  {
    UnprefixBare(n);
    UnprefixDot(n);
    UnprefixSlash(n);
  }

  lemma UnprefixBare(n: string)
    requires n != "" && '/' !in n && '\\' !in n
    ensures Unprefix(n) == n
  {
    assert |n| < 2 || n[1] != '/';
    assert ReplaceBackslashes(n) == n;
    assert StripDotSlashes(n) == n;
    assert StripLeadingSlashes(n) == n;
  }

  lemma UnprefixDot(n: string)
    requires n != "" && '/' !in n && '\\' !in n
    ensures Unprefix("./" + n) == n
  {
    assert |n| < 2 || n[1] != '/';
    var p := "./" + n;
    assert ReplaceBackslashes(p) == p;
    assert p[2..] == n;
    assert StripDotSlashes(n) == n;
    assert StripDotSlashes(p) == n;
    assert StripLeadingSlashes(n) == n;
  }

  lemma UnprefixSlash(n: string)
    requires n != "" && '/' !in n && '\\' !in n
    ensures Unprefix("/" + n) == n
  {
    assert |n| < 2 || n[1] != '/';
    var q := "/" + n;
    assert ReplaceBackslashes(q) == q;
    assert q[0] == '/';
    assert q[1..] == n;
    assert StripDotSlashes(n) == n;
    assert StripLeadingSlashes(n) == n;
  }


  /** A plain file name is its own normal form. */
  lemma NameNormalize(n: string)
    requires n != "" && n != "." && n != ".." && '/' !in n
    ensures Normalize(n) == n
  {
    NameSplit(n);
    assert Fold([], [n], true) == Fold([n], [], true);
    assert Join([n], "/") == n;
  }

  /** A plain file name other than ".." passes the traversal check. */
  lemma NameAccepted(n: string)
    requires n != ".." && '/' !in n
    ensures !StartsWith(n, "../") && !Includes(n, "/../")
  {
    assert |n| < 3 || n[2] != '/';
    IncludesHead(n, "/../");
  }

  /** An empty or blank path names the index page. */
  lemma BlankIsIndex(relPath: string)
    requires Trim(relPath) == ""
    ensures NormalizeRel(relPath) == Ok("/" + IndexPage)
  {
    var n := IndexPage;
    assert '/' !in n && '\\' !in n;
    UnprefixName(n);
    KeyOfName(n);
    assert Relative(relPath) == n;
  }

  /** `has`: whether a file is stored under the path's key (the key check
      itself can fail). */
  function Has(s: Store, relPath: string): (r: Result<bool, Failure>)
    ensures r.Ok? <==> NormalizeRel(relPath).Ok?
    ensures r.Ok? ==> (r.value <==> NormalizeRel(relPath).value in s.files)
  {
    var key :- NormalizeRel(relPath);
    Ok(key in s.files)
  }

  /** The stored file for a path, or FILE_NOT_FOUND naming the key: the
      lookup `bytes` and `type` share. */
  function Lookup(s: Store, relPath: string): (r: Result<EmbeddedFile, Failure>)
    ensures r.Ok? <==> Has(s, relPath) == Ok(true)
    ensures r.Ok? ==> r.value == s.files[NormalizeRel(relPath).value]
    ensures Has(s, relPath) == Ok(false) ==>
      r == Err(SystemErr(FileNotFound, "Template " + NormalizeRel(relPath).value + " not found"))
  {
    var key :- NormalizeRel(relPath);
    if key in s.files then Ok(s.files[key])
    else Err(SystemErr(FileNotFound, "Template " + key + " not found"))
  }

  /** `bytes`: the file's content as bytes; text is encoded with `utf8`. */
  function Bytes(s: Store, relPath: string, utf8: string -> seq<bv8>): (r: Result<seq<bv8>, Failure>)
    ensures r.Ok? <==> Lookup(s, relPath).Ok?
    ensures r.Err? ==> r.error == Lookup(s, relPath).error
    ensures r.Ok? && Lookup(s, relPath).value.content.TextContent? ==>
      r.value == utf8(Lookup(s, relPath).value.content.text)
    ensures r.Ok? && Lookup(s, relPath).value.content.ByteContent? ==>
      r.value == Lookup(s, relPath).value.content.bytes
  {
    var f :- Lookup(s, relPath);
    match f.content
    case TextContent(t) => Ok(utf8(t))
    case ByteContent(b) => Ok(b)
  }

  /** `type`: the file's media type. */
  function Type(s: Store, relPath: string): (r: Result<string, Failure>)
    ensures r.Ok? <==> Lookup(s, relPath).Ok?
    ensures r.Ok? ==> r.value == Lookup(s, relPath).value.mime
  {
    var f :- Lookup(s, relPath);
    Ok(f.mime)
  }
}
