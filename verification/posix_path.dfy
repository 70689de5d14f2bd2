/** POSIX path normalisation as Node's `path.posix.normalize`,
    `path.resolve` (for an absolute input) and `path.join` perform it:
    the path is cut at "/", empty and "." segments vanish, and ".." removes
    the segment before it or, in a relative path with nothing left to
    remove, is kept. */
module PosixPath {
  import opened Text

  /** The segment stack after one more segment. */
  function Step(stack: seq<string>, seg: string, aboveRoot: bool): seq<string> {
    if seg == "" || seg == "." then stack
    else if seg == ".." then
      if |stack| > 0 && stack[|stack| - 1] != ".." then stack[..|stack| - 1]
      else if aboveRoot then stack + [".."]
      else stack
    else stack + [seg]
  }

  /** Applies `Step` to every segment, left to right. */
  function Fold(stack: seq<string>, segs: seq<string>, aboveRoot: bool): seq<string>
    decreases |segs|
  {
    if |segs| == 0 then stack else Fold(Step(stack, segs[0], aboveRoot), segs[1..], aboveRoot)
  }

  /** A stack as normalisation keeps it: no empty, "." or "/"-containing
      segment, and every ".." before every other segment. */
  predicate Clean(stack: seq<string>) {
    && (forall i :: 0 <= i < |stack| ==> stack[i] != "" && stack[i] != "." && '/' !in stack[i])
    && (forall i, j :: 0 <= i < j < |stack| && stack[j] == ".." ==> stack[i] == "..")
  }

  lemma StepClean(stack: seq<string>, seg: string, aboveRoot: bool)
    requires Clean(stack) && '/' !in seg
    ensures Clean(Step(stack, seg, aboveRoot))
  {
    var r := Step(stack, seg, aboveRoot);
    if seg == ".." && !(|stack| > 0 && stack[|stack| - 1] != "..") && aboveRoot {
      forall i, j | 0 <= i < j < |r| && r[j] == ".." ensures r[i] == ".." {
        if j < |stack| {
          assert r[i] == stack[i] && r[j] == stack[j];
        } else if |stack| > 0 {
          assert stack[|stack| - 1] == "..";
          assert r[i] == stack[i];
        }
      }
    } else if seg != "" && seg != "." && seg != ".." {
      forall i, j | 0 <= i < j < |r| && r[j] == ".." ensures r[i] == ".." {
        assert r[i] == stack[i] && r[j] == stack[j];
      }
    }
  }

  lemma {:induction false} FoldClean(stack: seq<string>, segs: seq<string>, aboveRoot: bool)
    requires Clean(stack) && forall i :: 0 <= i < |segs| ==> '/' !in segs[i]
    ensures Clean(Fold(stack, segs, aboveRoot))
    decreases |segs|
  {
    if |segs| > 0 {
      StepClean(stack, segs[0], aboveRoot);
      FoldClean(Step(stack, segs[0], aboveRoot), segs[1..], aboveRoot);
    }
  }

  /** Without leave to climb above the root, no ".." survives. */
  lemma {:induction false} FoldBelowRoot(stack: seq<string>, segs: seq<string>)
    requires ".." !in stack
    ensures ".." !in Fold(stack, segs, false)
    decreases |segs|
  {
    if |segs| > 0 {
      var s1 := Step(stack, segs[0], false);
      assert ".." !in s1 by {
        if segs[0] == ".." && |stack| > 0 {
          assert stack[..|stack| - 1] <= stack;
        }
      }
      FoldBelowRoot(s1, segs[1..]);
    }
  }

  /** `path.posix.normalize(p)`. */
  function Normalize(p: string): string {
    if p == "" then "."
    else
      var absolute := p[0] == '/';
      var trailing := p[|p| - 1] == '/';
      var body := Join(Fold([], Split(p, '/'), !absolute), "/");
      if body == "" then (if absolute then "/" else if trailing then "./" else ".")
      else
        var withSlash := if trailing then body + "/" else body;
        if absolute then "/" + withSlash else withSlash
  }

  /** `path.resolve(p)` for an absolute `p`: normalised, never climbing
      above the root, with no trailing slash. */
  function ResolveAbsolute(p: string): (r: string)
    ensures StartsWith(r, "/")
  {
    "/" + Join(Fold([], Split(p, '/'), false), "/")
  }

  /** `path.join(a, b)`: empty arguments are skipped, the rest joined with
      "/" and normalised. */
  function PathJoin(a: string, b: string): string {
    var joined := if a == "" then b else if b == "" then a else a + "/" + b;
    if joined == "" then "." else Normalize(joined)
  }

  /** A resolved path never holds a ".." segment: climbing stops at the
      root. */
  lemma ResolveHasNoDotDot(p: string)
    ensures ".." !in Split(ResolveAbsolute(p), '/')
  {
    var st := Fold([], Split(p, '/'), false);
    FoldClean([], Split(p, '/'), false);
    FoldBelowRoot([], Split(p, '/'));
    var parts := if |st| == 0 then ["", ""] else [""] + st;
    RootedJoin(st);
    assert ".." !in parts;
    SplitJoin(parts, '/');
  }

  /** A path rooted at "/" is the join of an empty first segment and the
      rest (two empty segments when there is no rest). */
  lemma RootedJoin(st: seq<string>)
    ensures "/" + Join(st, "/") == Join(if |st| == 0 then ["", ""] else [""] + st, "/")
  {
    if |st| == 0 {
      assert Join(["", ""], "/") == "" + "/" + Join([""], "/");
    } else {
      var parts := [""] + st;
      assert parts[1..] == st;
      assert Join(parts, "/") == "" + "/" + Join(st, "/");
    }
  }
}
