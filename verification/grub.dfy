/** The command selector of the grub CLI (src/grub/src/Grub.ts): loaded
    commands must have distinct names and exactly one default, and the
    third command-line argument picks the command to run. */
module Grub {
  import opened Wrappers
  import opened SystemErrors

  datatype Cmd = Cmd(name: string, isDefault: bool)

  /** What importing one command path gave: a thrown error, a module
      whose default export is not a command (skipped with a warning), or a
      command. */
  datatype Loaded = LoadFailed(path: string, reason: string) | NotACmd(path: string) | IsCmd(cmd: Cmd)

  /** The defaults among the commands, in order (the `filter`). */
  function Defaults(cmds: seq<Cmd>): (ds: seq<Cmd>)
    ensures forall c :: c in ds <==> c in cmds && c.isDefault
    ensures |ds| <= |cmds|
  {
    if |cmds| == 0 then []
    else
      var rest := Defaults(cmds[1..]);
      assert forall c :: c in cmds <==> c == cmds[0] || c in cmds[1..];
      if cmds[0].isDefault then [cmds[0]] + rest else rest
  }

  /** The number of default-marked commands. */
  function DefaultCount(cmds: seq<Cmd>): nat {
    if |cmds| == 0 then 0 else (if cmds[0].isDefault then 1 else 0) + DefaultCount(cmds[1..])
  }

  lemma {:induction false} DefaultsCount(cmds: seq<Cmd>)
    ensures |Defaults(cmds)| == DefaultCount(cmds)
  {
    if |cmds| > 0 {
      DefaultsCount(cmds[1..]);
    }
  }

  /** `locateDefaultCmd`: the only default command; no default and
      several defaults are distinct errors. */
  function LocateDefaultCmd(cmds: seq<Cmd>): (r: Result<Cmd, Failure>)
    ensures r.Ok? <==> DefaultCount(cmds) == 1
    ensures r.Ok? ==> r.value in cmds && r.value.isDefault
    ensures DefaultCount(cmds) == 0 ==> r == Err(PlainError("GRUB ERR: no default cmd located"))
    ensures DefaultCount(cmds) > 1 ==> r == Err(PlainError("GRUB ERR: multiple default cmds located"))
  {
    var ds := Defaults(cmds);
    DefaultsCount(cmds);
    if |ds| == 0 then Err(PlainError("GRUB ERR: no default cmd located"))
    else if |ds| > 1 then Err(PlainError("GRUB ERR: multiple default cmds located"))
    else
      assert ds[0] in ds;
      Ok(ds[0])
  }

  /** With one default, it is the command every default-marked entry
      names. */
  lemma {:induction false} OneDefaultIsUnique(cmds: seq<Cmd>, i: nat)
    requires DefaultCount(cmds) == 1 && i < |cmds| && cmds[i].isDefault
    ensures LocateDefaultCmd(cmds) == Ok(cmds[i])
  {
    DefaultsCount(cmds);
    var ds := Defaults(cmds);
    assert cmds[i] in ds;
  }

  /** The names seen before index `i`. */
  function NamesBefore(cmds: seq<Cmd>, i: nat): (s: set<string>)
    requires i <= |cmds|
    ensures forall n :: n in s <==> exists j :: 0 <= j < i && cmds[j].name == n
  {
    if i == 0 then {}
    else
      var s := NamesBefore(cmds, i - 1) + {cmds[i - 1].name};
      assert forall n :: n in s <==> exists j :: 0 <= j < i && cmds[j].name == n by {
        forall n | n in s ensures exists j :: 0 <= j < i && cmds[j].name == n {
          if n == cmds[i - 1].name { assert cmds[i - 1].name == n; }
        }
      }
      s
  }

  predicate DistinctNames(cmds: seq<Cmd>) {
    forall i, j :: 0 <= i < j < |cmds| ==> cmds[i].name != cmds[j].name
  }

  /** `errOnDuplicateNames` from index `i` on, with the names already
      seen: it throws at the first command whose name is not new. */
  function DuplicateCheck(cmds: seq<Cmd>, i: nat): (r: Result<(), Failure>)
    requires i <= |cmds|
    requires forall a, b :: 0 <= a < b < i ==> cmds[a].name != cmds[b].name
    ensures r.Ok? <==> DistinctNames(cmds)
    ensures r.Err? ==> (exists a, b :: 0 <= a < b < |cmds| && cmds[a].name == cmds[b].name
                          && r.error == PlainError("you have two cmds named " + cmds[b].name)
                          && forall b' :: 0 <= b' < b ==> cmds[b'].name !in NamesBefore(cmds, b'))
    decreases |cmds| - i
  {
    if i == |cmds| then Ok(())
    else if cmds[i].name in NamesBefore(cmds, i) then
      var a :| 0 <= a < i && cmds[a].name == cmds[i].name;
      Err(PlainError("you have two cmds named " + cmds[i].name))
    else
      DuplicateCheck(cmds, i + 1)
  }

  function ErrOnDuplicateNames(cmds: seq<Cmd>): (r: Result<(), Failure>)
    ensures r.Ok? <==> DistinctNames(cmds)
  {
    DuplicateCheck(cmds, 0)
  }

  /** `loadThirdArg`: an empty argument means "default". */
  function ThirdArg(arg: string): (r: string)
    ensures r != ""
    ensures arg != "" ==> r == arg
  {
    if arg == "" then "default" else arg
  }

  /** The first command with the given name. */
  function FindByName(cmds: seq<Cmd>, name: string): (r: Option<Cmd>)
    ensures r.None? <==> forall i :: 0 <= i < |cmds| ==> cmds[i].name != name
    ensures r.Some? ==> (exists i :: 0 <= i < |cmds| && cmds[i] == r.value && r.value.name == name
                           && forall j :: 0 <= j < i ==> cmds[j].name != name)
  {
    if |cmds| == 0 then None
    else if cmds[0].name == name then Some(cmds[0])
    else
      var r := FindByName(cmds[1..], name);
      FindShift(cmds, name, r);
      r
  }

  lemma FindShift(cmds: seq<Cmd>, name: string, r: Option<Cmd>)
    requires |cmds| > 0 && cmds[0].name != name
    requires r.Some? ==> (exists i :: 0 <= i < |cmds[1..]| && cmds[1..][i] == r.value && r.value.name == name
                            && forall j :: 0 <= j < i ==> cmds[1..][j].name != name)
    ensures r.Some? ==> (exists i :: 0 <= i < |cmds| && cmds[i] == r.value && r.value.name == name
                           && forall j :: 0 <= j < i ==> cmds[j].name != name)
  {
    if r.Some? {
      var i :| 0 <= i < |cmds[1..]| && cmds[1..][i] == r.value && r.value.name == name
        && forall j :: 0 <= j < i ==> cmds[1..][j].name != name;
      assert cmds[i + 1] == r.value;
      forall j | 0 <= j < i + 1 ensures cmds[j].name != name {
        if j > 0 { assert cmds[j] == cmds[1..][j - 1]; }
      }
    }
  }

  /** `locateCmdToRun`: "default" picks the default command; any other
      argument picks the first command of that name, or throws. */
  function LocateCmdToRun(cmds: seq<Cmd>, defaultCmd: Cmd, thirdArg: string): (r: Result<Cmd, Failure>)
    ensures thirdArg == "default" ==> r == Ok(defaultCmd)
    ensures thirdArg != "default" ==> (r.Ok? <==> exists i :: 0 <= i < |cmds| && cmds[i].name == thirdArg)
    ensures thirdArg != "default" && r.Ok? ==> r.value.name == thirdArg && r.value in cmds
    ensures r.Err? ==> r.error == PlainError("no cmd named " + thirdArg + " located")
  {
    if thirdArg == "default" then Ok(defaultCmd)
    else
      match FindByName(cmds, thirdArg)
      case Some(c) => Ok(c)
      case None => Err(PlainError("no cmd named " + thirdArg + " located"))
  }

  /** The commands the imports yielded, or the first import error. */
  function LoadCmds(loaded: seq<Loaded>): (r: Result<seq<Cmd>, Failure>)
    ensures r.Ok? <==> forall i :: 0 <= i < |loaded| ==> !loaded[i].LoadFailed?
    ensures r.Ok? ==> forall c :: c in r.value <==> IsCmd(c) in loaded
    ensures r.Err? ==>
      exists i :: 0 <= i < |loaded| && loaded[i].LoadFailed?
        && (forall j :: 0 <= j < i ==> !loaded[j].LoadFailed?)
        && r.error == PlainError("Failed to load command from " + loaded[i].path + ": " + loaded[i].reason)
  {
    if |loaded| == 0 then Ok([])
    else
      match loaded[0]
      case LoadFailed(p, e) => Err(PlainError("Failed to load command from " + p + ": " + e))
      case NotACmd(_) =>
        var r := LoadCmds(loaded[1..]);
        LoadShift(loaded, r);
        r
      case IsCmd(c) =>
        var r := LoadCmds(loaded[1..]);
        LoadShift(loaded, r);
        if r.Ok? then Ok([c] + r.value) else r
  }

  /** Loading two runs of imports: the first run's error wins, and
      otherwise the commands come in import order, the first run's before
      the second's. */
  lemma {:induction false} LoadCmdsAppend(a: seq<Loaded>, b: seq<Loaded>)
    ensures LoadCmds(a).Err? ==> LoadCmds(a + b) == LoadCmds(a)
    ensures LoadCmds(a).Ok? ==>
      LoadCmds(a + b) == (match LoadCmds(b) case Ok(v) => Ok(LoadCmds(a).value + v) case Err(e) => Err(e))
    decreases |a|
  {
    if |a| == 0 {
      assert a + b == b;
      assert LoadCmds(a) == Ok([]);
      if LoadCmds(b).Ok? {
        assert [] + LoadCmds(b).value == LoadCmds(b).value;
      }
    } else {
      var ab := a + b;
      assert ab[0] == a[0] && ab[1..] == a[1..] + b;
      LoadCmdsAppend(a[1..], b);
      var tail, rest := LoadCmds(a[1..]), LoadCmds(a[1..] + b);
      match a[0]
      case LoadFailed(_, _) =>
      case NotACmd(_) =>
        assert LoadCmds(a) == tail && LoadCmds(ab) == rest;
      case IsCmd(c) =>
        assert LoadCmds(a) == (if tail.Ok? then Ok([c] + tail.value) else tail);
        assert LoadCmds(ab) == (if rest.Ok? then Ok([c] + rest.value) else rest);
        if tail.Ok? && LoadCmds(b).Ok? {
          assert [c] + (tail.value + LoadCmds(b).value) == ([c] + tail.value) + LoadCmds(b).value;
        }
    }
  }

  /** One import that yields a command loads as exactly that command. */
  lemma LoadOne(c: Cmd)
    ensures LoadCmds([IsCmd(c)]) == Ok([c])
  {
    assert [IsCmd(c)][1..] == [];
    assert LoadCmds([]) == Ok([]);
    assert [c] + [] == [c];
  }

  lemma LoadShift(loaded: seq<Loaded>, r: Result<seq<Cmd>, Failure>)
    requires |loaded| > 0
    requires r.Ok? <==> forall i :: 0 <= i < |loaded[1..]| ==> !loaded[1..][i].LoadFailed?
    ensures !loaded[0].LoadFailed? ==> (r.Ok? <==> forall i :: 0 <= i < |loaded| ==> !loaded[i].LoadFailed?)
  {
    if !loaded[0].LoadFailed? {
      if r.Ok? {
        forall i | 0 <= i < |loaded| ensures !loaded[i].LoadFailed? {
          if i > 0 { assert loaded[i] == loaded[1..][i - 1]; }
        }
      } else {
        var i :| 0 <= i < |loaded[1..]| && loaded[1..][i].LoadFailed?;
        assert loaded[i + 1] == loaded[1..][i];
      }
    }
  }

  /** `run`: load, check names, find the default, then pick by the
      third argument. */
  function Run(loaded: seq<Loaded>, arg: string): (r: Result<Cmd, Failure>)
    ensures r.Ok? ==> (exists i :: 0 <= i < |loaded| && loaded[i] == IsCmd(r.value))
    ensures r.Ok? && arg != "" && arg != "default" ==> r.value.name == arg
    ensures r.Ok? && (arg == "" || arg == "default") ==> r.value.isDefault
  {
    var cmds :- LoadCmds(loaded);
    var _ :- ErrOnDuplicateNames(cmds);
    var d :- LocateDefaultCmd(cmds);
    var r := LocateCmdToRun(cmds, d, ThirdArg(arg));
    assert r.Ok? ==> IsCmd(r.value) in loaded;
    r
  }

  /** A command literally named "default" that is not the default one can
      never be chosen by name. */
  lemma CmdNamedDefaultUnreachable(cmds: seq<Cmd>, d: Cmd, arg: string, c: Cmd)
    requires c.name == "default" && c != d
    ensures LocateCmdToRun(cmds, d, ThirdArg(arg)) != Ok(c)
  {
  }

  /** With distinct names, the command chosen by a name is the only
      command carrying it. */
  lemma ChosenByName(cmds: seq<Cmd>, d: Cmd, i: nat)
    requires DistinctNames(cmds) && i < |cmds| && cmds[i].name != "default"
    ensures LocateCmdToRun(cmds, d, cmds[i].name) == Ok(cmds[i])
  {
    var r := FindByName(cmds, cmds[i].name);
    var k :| 0 <= k < |cmds| && cmds[k] == r.value && r.value.name == cmds[i].name
      && forall j :: 0 <= j < k ==> cmds[j].name != cmds[i].name;
    assert k == i;
  }
}
