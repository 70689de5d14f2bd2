/** The JavaScript string operations the framework relies on (`indexOf`,
    `split`, `trim`, `startsWith`, `replace`, number-to-string), written
    once with their meaning stated, and shared by every other module.
    Strings are `seq<char>`; case mapping covers ASCII letters only. */
module Text {

  /** `s.startsWith(p)`. */
  predicate StartsWith(s: string, p: string) {
    |p| <= |s| && s[..|p|] == p
  }

  /** `s.endsWith(p)`. */
  predicate EndsWith(s: string, p: string) {
    |p| <= |s| && s[|s| - |p|..] == p
  }

  /** `sub` occurs in `s` at position `i`. */
  predicate OccursAt(s: string, sub: string, i: int) {
    0 <= i && i + |sub| <= |s| && s[i..i + |sub|] == sub
  }

  /** `s.indexOf(sub, from)`: the first occurrence at or after `from`
      (clamped into the string), or -1. */
  function IndexOfFrom(s: string, sub: string, from: int): (i: int)
    ensures i == -1 || (0 <= i && (from <= i || i == 0) && OccursAt(s, sub, i))
    ensures i == -1 ==> forall j :: from <= j && 0 <= j ==> !OccursAt(s, sub, j)
    ensures i != -1 ==> forall j :: from <= j < i && 0 <= j ==> !OccursAt(s, sub, j)
    ensures i != -1 && from >= 0 ==> from <= i
    decreases |s| + 1 - from
  {
    if from < 0 then IndexOfFrom(s, sub, 0)
    else if from + |sub| > |s| then -1
    else if s[from..from + |sub|] == sub then from
    else IndexOfFrom(s, sub, from + 1)
  }

  /** `s.indexOf(sub)`. */
  function IndexOf(s: string, sub: string): int {
    IndexOfFrom(s, sub, 0)
  }

  /** `s.includes(sub)`. */
  predicate Includes(s: string, sub: string) {
    IndexOf(s, sub) >= 0
  }

  lemma IncludesIff(s: string, sub: string)
    ensures Includes(s, sub) <==> exists j :: OccursAt(s, sub, j)
  {
    if exists j :: OccursAt(s, sub, j) {
      var j :| OccursAt(s, sub, j);
      assert 0 <= j;
    }
  }

  /** A string that contains `sub` contains its first character. */
  lemma IncludesHead(s: string, sub: string)
    requires |sub| > 0
    ensures Includes(s, sub) ==> sub[0] in s
  {
    if Includes(s, sub) {
      var i := IndexOf(s, sub);
      assert s[i..i + |sub|][0] == s[i];
    }
  }

  /** The position of the first `c` in `s`, or -1. */
  function IndexOfChar(s: string, c: char): (i: int)
    ensures -1 <= i < |s|
    ensures i >= 0 ==> s[i] == c && c !in s[..i]
    ensures i < 0 <==> c !in s
  {
    if |s| == 0 then -1
    else if s[0] == c then 0
    else
      var j := IndexOfChar(s[1..], c);
      assert s[1..][..j + 1] == s[1..j + 2] by {}
      if j < 0 then -1 else j + 1
  }

  /** The first `c` in `s` is at `j` exactly when `s[j]` is `c` and no
      earlier character is. */
  lemma IndexOfCharIs(s: string, c: char, j: nat)
    requires j < |s| && s[j] == c && c !in s[..j]
    ensures IndexOfChar(s, c) == j
  {
    var i := IndexOfChar(s, c);
    assert c in s;
    assert forall k :: 0 <= k < j ==> s[..j][k] == s[k];
    assert forall k :: 0 <= k < i ==> s[..i][k] == s[k];
  }

  /** `s.split(sep)` for a one-character separator: never empty, and an
      empty string gives `[""]`. */
  function Split(s: string, sep: char): (parts: seq<string>)
    ensures |parts| >= 1
    ensures forall i :: 0 <= i < |parts| ==> sep !in parts[i]
    decreases |s|
  {
    var i := IndexOfChar(s, sep);
    if i < 0 then [s]
    else
      var rest := Split(s[i + 1..], sep);
      FreeOfCons(s[..i], rest, sep);
      [s[..i]] + rest
  }

  /** A piece without `sep` in front of pieces without it. */
  lemma FreeOfCons(head: string, rest: seq<string>, sep: char)
    requires sep !in head && forall j :: 0 <= j < |rest| ==> sep !in rest[j]
    ensures forall j :: 0 <= j < |rest| + 1 ==> sep !in ([head] + rest)[j]
  {
    forall j | 0 <= j < |rest| + 1 ensures sep !in ([head] + rest)[j] {
      if j > 0 { assert ([head] + rest)[j] == rest[j - 1]; }
    }
  }

  /** Unfolds `Split` at a known first separator. */
  lemma SplitAt(s: string, sep: char, i: nat)
    requires IndexOfChar(s, sep) == i
    ensures Split(s, sep) == [s[..i]] + Split(s[i + 1..], sep)
  {
  }

  /** A piece free of the separator, then the separator, splits off
      first. */
  lemma SplitHead(a: string, rest: string, sep: char)
    requires sep !in a
    ensures Split(a + [sep] + rest, sep) == [a] + Split(rest, sep)
  {
    var s := a + [sep] + rest;
    assert s[..|a|] == a && s[|a|] == sep && s[|a| + 1..] == rest;
    IndexOfCharIs(s, sep, |a|);
    SplitAt(s, sep, |a|);
  }

  /** `s.split(sep)` for a separator string of one or more characters:
      the pieces between its non-overlapping occurrences, left to right. */
  function SplitOn(s: string, sep: string): (parts: seq<string>)
    requires |sep| > 0
    ensures |parts| >= 1
    decreases |s|
  {
    var i := IndexOf(s, sep);
    if i < 0 then [s] else [s[..i]] + SplitOn(s[i + |sep|..], sep)
  }

  /** `parts.join(sep)`. */
  function Join(parts: seq<string>, sep: string): string {
    if |parts| == 0 then ""
    else if |parts| == 1 then parts[0]
    else parts[0] + sep + Join(parts[1..], sep)
  }

  /** Splitting on a character and joining with it gives the string back. */
  lemma {:induction false} JoinSplit(s: string, sep: char)
    ensures Join(Split(s, sep), [sep]) == s
    decreases |s|
  {
    var i := IndexOfChar(s, sep);
    if i >= 0 {
      var rest := s[i + 1..];
      var tail := Split(rest, sep);
      JoinSplit(rest, sep);
      var all := [s[..i]] + tail;
      SplitAt(s, sep, i);
      assert |all| >= 2 && all[0] == s[..i] && all[1..] == tail;
      assert Join(all, [sep]) == all[0] + [sep] + Join(all[1..], [sep]);
      assert s[i] == sep;
      assert s == s[..i] + [s[i]] + rest;
    }
  }

  /** Splitting on a separator string and joining with it gives the
      string back. */
  lemma {:induction false} JoinSplitOn(s: string, sep: string)
    requires |sep| > 0
    ensures Join(SplitOn(s, sep), sep) == s
    decreases |s|
  {
    var i := IndexOf(s, sep);
    if i >= 0 {
      var rest := s[i + |sep|..];
      var tail := SplitOn(rest, sep);
      JoinSplitOn(rest, sep);
      var all := [s[..i]] + tail;
      assert SplitOn(s, sep) == all;
      assert all[0] == s[..i] && all[1..] == tail;
      assert Join(all, sep) == s[..i] + sep + Join(tail, sep);
      assert s == s[..i] + s[i..i + |sep|] + rest;
    }
  }

  /** Joining pieces free of a separator with it and splitting there again
      gives the pieces back. */
  lemma {:induction false} SplitJoin(parts: seq<string>, sep: char)
    requires |parts| >= 1 && forall i :: 0 <= i < |parts| ==> sep !in parts[i]
    ensures Split(Join(parts, [sep]), sep) == parts
    decreases |parts|
  {
    if |parts| == 1 {
      assert IndexOfChar(parts[0], sep) < 0;
    } else {
      var rest := Join(parts[1..], [sep]);
      var s := parts[0] + [sep] + rest;
      SplitJoin(parts[1..], sep);
      var i := IndexOfChar(s, sep);
      assert s[|parts[0]|] == sep;
      assert s[..|parts[0]|] == parts[0];
      assert i == |parts[0]|;
      assert s[i + 1..] == rest;
    }
  }

  /** How many times `c` occurs in `s`. */
  function CountChar(s: string, c: char): nat {
    if |s| == 0 then 0 else (if s[0] == c then 1 else 0) + CountChar(s[1..], c)
  }

  lemma {:induction false} CountCharAppend(a: string, b: string, c: char)
    ensures CountChar(a + b, c) == CountChar(a, c) + CountChar(b, c)
    decreases |a|
  {
    if |a| == 0 {
      assert a + b == b;
    } else {
      assert (a + b)[1..] == a[1..] + b;
      CountCharAppend(a[1..], b, c);
    }
  }

  lemma {:induction false} CountCharAbsent(s: string, c: char)
    requires c !in s
    ensures CountChar(s, c) == 0
    decreases |s|
  {
    if |s| > 0 {
      assert s[0] != c;
      assert forall x :: x in s[1..] ==> x in s;
      CountCharAbsent(s[1..], c);
    }
  }

  /** `split` gives one more piece than there are separators. */
  lemma {:induction false} SplitCount(s: string, sep: char)
    ensures |Split(s, sep)| == CountChar(s, sep) + 1
    decreases |s|
  {
    var i := IndexOfChar(s, sep);
    if i < 0 {
      CountCharAbsent(s, sep);
    } else {
      SplitAt(s, sep, i);
      assert s == s[..i] + [sep] + s[i + 1..];
      CountCharAppend(s[..i] + [sep], s[i + 1..], sep);
      CountCharAppend(s[..i], [sep], sep);
      CountCharAbsent(s[..i], sep);
      assert CountChar([sep], sep) == 1;
      SplitCount(s[i + 1..], sep);
    }
  }

  /** The elements of `parts` that are not empty, in order
      (`parts.filter(Boolean)`). */
  function NonEmpty(parts: seq<string>): (r: seq<string>)
    ensures forall i :: 0 <= i < |r| ==> r[i] != ""
    ensures forall i :: 0 <= i < |r| ==> r[i] in parts
    ensures forall p :: p in parts && p != "" ==> p in r
  {
    if |parts| == 0 then []
    else if parts[0] == "" then NonEmpty(parts[1..])
    else [parts[0]] + NonEmpty(parts[1..])
  }

  /** `s.split(sep).filter(Boolean)`. */
  function Segments(s: string, sep: char): seq<string> {
    NonEmpty(Split(s, sep))
  }

  /** Filtering keeps a list with no empty element as it is. */
  lemma {:induction false} NonEmptyKeepsFull(parts: seq<string>)
    requires forall i :: 0 <= i < |parts| ==> parts[i] != ""
    ensures NonEmpty(parts) == parts
    decreases |parts|
  {
    if |parts| > 0 {
      NonEmptyKeepsFull(parts[1..]);
    }
  }

  /** A rooted path built from non-empty, separator-free segments gives
      those segments back. */
  lemma SegmentsOfRooted(ss: seq<string>, sep: char)
    requires forall i :: 0 <= i < |ss| ==> ss[i] != "" && sep !in ss[i]
    ensures Segments([sep] + Join(ss, [sep]), sep) == ss
  {
    if |ss| == 0 {
      assert [sep] + Join(ss, [sep]) == [] + [sep] + [];
      SplitHead([], [], sep);
      assert Split([], sep) == [[]];
      assert NonEmpty([[], []]) == NonEmpty([[]]) == [];
    } else {
      var parts := [""] + ss;
      assert parts[1..] == ss;
      assert Join(parts, [sep]) == [sep] + Join(ss, [sep]);
      forall i | 0 <= i < |parts| ensures sep !in parts[i] {
        if i > 0 { assert parts[i] == ss[i - 1]; }
      }
      SplitJoin(parts, sep);
      NonEmptyKeepsFull(ss);
    }
  }

  /** The characters `String.prototype.trim` removes. */
  predicate IsSpace(c: char) {
    c == ' ' || c == '\t' || c == '\n' || c == '\r' || c == '\U{0B}' || c == '\U{0C}'
    || c == '\U{A0}' || c == '\U{1680}' || ('\U{2000}' <= c <= '\U{200A}')
    || c == '\U{2028}' || c == '\U{2029}' || c == '\U{202F}' || c == '\U{205F}'
    || c == '\U{3000}' || c == '\U{FEFF}'
  }

  function TrimStart(s: string): (r: string)
    ensures |r| <= |s| && r == s[|s| - |r|..]
    ensures |r| == 0 || !IsSpace(r[0])
    ensures forall i :: 0 <= i < |s| - |r| ==> IsSpace(s[i])
  {
    if |s| > 0 && IsSpace(s[0]) then TrimStart(s[1..]) else s
  }

  function TrimEnd(s: string): (r: string)
    ensures |r| <= |s| && r == s[..|r|]
    ensures |r| == 0 || !IsSpace(r[|r| - 1])
    ensures forall i :: |r| <= i < |s| ==> IsSpace(s[i])
  {
    if |s| > 0 && IsSpace(s[|s| - 1]) then TrimEnd(s[..|s| - 1]) else s
  }

  /** `s.trim()`: the result has no surrounding white space and is what
      remains of `s` once that white space is cut off. */
  function Trim(s: string): (r: string)
    ensures |r| == 0 || (!IsSpace(r[0]) && !IsSpace(r[|r| - 1]))
    ensures |r| <= |s|
    ensures forall c :: c in r ==> c in s
    ensures (|s| == 0 || (!IsSpace(s[0]) && !IsSpace(s[|s| - 1]))) ==> r == s
  {
    TrimKeepsChars(s);
    TrimEnd(TrimStart(s))
  }

  lemma TrimKeepsChars(s: string)
    ensures forall c :: c in TrimEnd(TrimStart(s)) ==> c in s
  {
    var a := TrimStart(s);
    var r := TrimEnd(a);
    SliceKeepsChars(a, 0, |r|);
    SliceKeepsChars(s, |s| - |a|, |s|);
  }

  lemma SliceKeepsChars<T>(s: seq<T>, lo: nat, hi: nat)
    requires lo <= hi <= |s|
    ensures forall c :: c in s[lo..hi] ==> c in s
  {
    forall c | c in s[lo..hi] ensures c in s {
      var i :| 0 <= i < hi - lo && s[lo..hi][i] == c;
      assert s[lo + i] == c;
    }
  }

  function LowerChar(c: char): char {
    if 'A' <= c <= 'Z' then (c as int + 32) as char else c
  }

  function UpperChar(c: char): char {
    if 'a' <= c <= 'z' then (c as int - 32) as char else c
  }

  /** `s.toLowerCase()` on ASCII letters. */
  function ToLower(s: string): (r: string)
    ensures |r| == |s|
    ensures forall i :: 0 <= i < |s| ==> r[i] == LowerChar(s[i])
  {
    seq(|s|, i requires 0 <= i < |s| => LowerChar(s[i]))
  }

  /** `s.toUpperCase()` on ASCII letters. */
  function ToUpper(s: string): (r: string)
    ensures |r| == |s|
    ensures forall i :: 0 <= i < |s| ==> r[i] == UpperChar(s[i])
  {
    seq(|s|, i requires 0 <= i < |s| => UpperChar(s[i]))
  }

  /** Case mapping twice is case mapping once. */
  lemma CaseMappingIdempotent(s: string)
    ensures ToLower(ToLower(s)) == ToLower(s)
    ensures ToUpper(ToUpper(s)) == ToUpper(s)
  {
  }

  /** `s.replace(/\/+$/, "")`: the longest prefix of `s` that does not end
      in a slash, everything cut off being slashes. */
  function StripTrailingSlashes(s: string): (r: string)
    ensures |r| <= |s| && r == s[..|r|]
    ensures |r| == 0 || r[|r| - 1] != '/'
    ensures forall i :: |r| <= i < |s| ==> s[i] == '/'
  {
    if |s| > 0 && s[|s| - 1] == '/' then StripTrailingSlashes(s[..|s| - 1]) else s
  }

  /** `p.replace(/^\/+/, "")`. */
  function StripLeadingSlashes(p: string): (r: string)
    ensures |r| == 0 || r[0] != '/'
    ensures |r| <= |p| && r == p[|p| - |r|..]
    ensures forall i :: 0 <= i < |p| - |r| ==> p[i] == '/'
    decreases |p|
  {
    if |p| > 0 && p[0] == '/' then StripLeadingSlashes(p[1..]) else p
  }

  /** `s.substring(start)` for a non-negative start: empty when the start
      lies beyond the end. */
  function SubstringFrom(s: string, start: nat): (r: string)
    ensures start <= |s| ==> s == s[..start] + r
    ensures start >= |s| ==> r == ""
  {
    if start >= |s| then "" else s[start..]
  }

  /** The request-path normalisation used by the routers and the context:
      trailing slashes go, and what is left empty becomes "/". */
  function NormalizePath(s: string): (r: string)
    ensures r != ""
    ensures r == "/" || r[|r| - 1] != '/'
    ensures (forall i :: 0 <= i < |s| ==> s[i] == '/') ==> r == "/"
    ensures (exists i :: 0 <= i < |s| && s[i] != '/') ==>
      |r| <= |s| && r == s[..|r|] && r[|r| - 1] != '/' && forall i :: |r| <= i < |s| ==> s[i] == '/'
  {
    var t := StripTrailingSlashes(s);
    if t == "" then "/"
    else
      assert s[|t| - 1] == t[|t| - 1];
      t
  }

  /** Normalising a path twice changes nothing more than normalising once. */
  lemma NormalizePathIdempotent(s: string)
    ensures NormalizePath(NormalizePath(s)) == NormalizePath(s)
  {
    var t := StripTrailingSlashes(s);
    if t == "" {
      assert StripTrailingSlashes("/") == StripTrailingSlashes("");
    }
  }

  /** `s.replace(pat, rep)` with a string pattern: only the first
      occurrence is replaced. */
  function ReplaceFirst(s: string, pat: string, rep: string): (r: string)
    ensures !Includes(s, pat) ==> r == s
    ensures Includes(s, pat) ==> exists i :: OccursAt(s, pat, i) && r == s[..i] + rep + s[i + |pat|..]
  {
    var i := IndexOf(s, pat);
    if i < 0 then s else s[..i] + rep + s[i + |pat|..]
  }

  /** `s.replace(/\/{2,}/g, "/")`: every run of slashes becomes one. */
  function CollapseSlashes(s: string): (r: string)
    ensures forall i :: 0 <= i < |r| - 1 ==> !(r[i] == '/' && r[i + 1] == '/')
    ensures |r| <= |s|
    ensures |s| > 0 ==> |r| > 0 && r[0] == s[0]
  {
    if |s| < 2 then s
    else if s[0] == '/' && s[1] == '/' then CollapseSlashes(s[1..])
    else [s[0]] + CollapseSlashes(s[1..])
  }

  /** A string without a doubled slash is left as it is. */
  lemma {:induction false} CollapseSlashesKeepsClean(s: string)
    requires forall i :: 0 <= i < |s| - 1 ==> !(s[i] == '/' && s[i + 1] == '/')
    ensures CollapseSlashes(s) == s
    decreases |s|
  {
    if |s| >= 2 {
      CollapseSlashesKeepsClean(s[1..]);
    }
  }

  /** Whether a header value would split an HTTP header (CR or LF). */
  predicate HasLineBreak(s: string) {
    '\r' in s || '\n' in s
  }

  predicate IsDigit(c: char) {
    '0' <= c <= '9'
  }

  function DigitChar(d: nat): char
    requires d < 10
  {
    ('0' as int + d) as char
  }

  /** `String(n)` for a non-negative integer. */
  function NatToString(n: nat): (r: string)
    ensures |r| > 0
    ensures forall i :: 0 <= i < |r| ==> IsDigit(r[i])
  {
    if n < 10 then [DigitChar(n)] else NatToString(n / 10) + [DigitChar(n % 10)]
  }

  /** The decimal value of a string of digits. */
  function ParseNat(s: string): int
    requires forall i :: 0 <= i < |s| ==> IsDigit(s[i])
  {
    if |s| == 0 then 0
    else ParseNat(s[..|s| - 1]) * 10 + (s[|s| - 1] as int - '0' as int)
  }

  /** Reading the decimal text of `n` gives `n` back. */
  lemma {:induction false} ParseNatToString(n: nat)
    ensures ParseNat(NatToString(n)) == n
  {
    if n >= 10 {
      ParseNatToString(n / 10);
      var s := NatToString(n);
      assert s[..|s| - 1] == NatToString(n / 10);
    }
  }

  /** `String(i)` for an integer. */
  function IntToString(i: int): (r: string)
    ensures |r| > 0
    ensures forall k :: 0 <= k < |r| ==> IsDigit(r[k]) || (k == 0 && r[k] == '-')
  {
    if i < 0 then "-" + NatToString(-i) else NatToString(i)
  }

  /** Distinct integers print differently. */
  lemma IntToStringInjective(a: int, b: int)
    requires IntToString(a) == IntToString(b)
    ensures a == b
  {
    assert (a < 0) == (IntToString(a)[0] == '-');
    assert (b < 0) == (IntToString(b)[0] == '-');
    if a < 0 {
      assert NatToString(-a) == IntToString(a)[1..] == IntToString(b)[1..] == NatToString(-b);
      ParseNatToString(-a);
      ParseNatToString(-b);
    } else {
      ParseNatToString(a);
      ParseNatToString(b);
    }
  }
}
