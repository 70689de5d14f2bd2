/** The file-based router's mounting (src/FileBasedRouter.ts): directory
    entries are sorted into handler, middleware and init files by exact
    name, three checks guard the result, and each handler is given the
    last middleware file no deeper than itself. Loading modules and
    hooking handlers into the app are calls into code outside the model. */
module FileBasedRouter {
  import opened Wrappers
  import opened Text
  import opened SystemErrors
  import opened RouterFile

  const HandlerFileNames: seq<string> := ["+handler.ts", "+handler.tsx"]
  const MiddlewareFileNames: seq<string> := ["+middleware.ts"]
  const AppInitFileNames: seq<string> := ["+init.ts"]
  const GoodFileNames: seq<string> := HandlerFileNames + MiddlewareFileNames + AppInitFileNames

  /** A handler file and the middleware file attached to it, if any. */
  datatype Handler = Handler(file: File, middlewareFile: Option<File>)

  datatype Registry = Registry(handlerFiles: seq<Handler>, middlewareFiles: seq<File>, appInitFiles: seq<File>)

  const EmptyRegistry := Registry([], [], [])

  /** One pass of the `registerFiles` loop: a file whose name is exactly
      one of the known names joins its list; anything else is ignored. */
  function RegisterOne(reg: Registry, d: Dirent, dirname: string, resolve: string -> string): (out: Registry)
    ensures !d.isFile || d.name !in GoodFileNames ==> out == reg
    ensures d.isFile && d.name in HandlerFileNames ==>
      out == reg.(handlerFiles := reg.handlerFiles + [Handler(NewFile(d, dirname, resolve), None)])
    ensures d.isFile && d.name in MiddlewareFileNames ==>
      out == reg.(middlewareFiles := reg.middlewareFiles + [NewFile(d, dirname, resolve)])
    ensures d.isFile && d.name in AppInitFileNames ==>
      out == reg.(appInitFiles := reg.appInitFiles + [NewFile(d, dirname, resolve)])
  {
    if !d.isFile then reg
    else if d.name in HandlerFileNames then reg.(handlerFiles := reg.handlerFiles + [Handler(NewFile(d, dirname, resolve), None)])
    else if d.name in MiddlewareFileNames then reg.(middlewareFiles := reg.middlewareFiles + [NewFile(d, dirname, resolve)])
    else if d.name in AppInitFileNames then reg.(appInitFiles := reg.appInitFiles + [NewFile(d, dirname, resolve)])
    else reg
  }

  /** Every handler file has a handler name and no middleware yet; every
      middleware and init file has its own name. */
  ghost predicate WellSorted(reg: Registry) {
    && (forall i :: 0 <= i < |reg.handlerFiles| ==>
          reg.handlerFiles[i].file.details.name in HandlerFileNames && reg.handlerFiles[i].middlewareFile.None?)
    && (forall i :: 0 <= i < |reg.middlewareFiles| ==> reg.middlewareFiles[i].details.name in MiddlewareFileNames)
    && (forall i :: 0 <= i < |reg.appInitFiles| ==> reg.appInitFiles[i].details.name in AppInitFileNames)
  }

  /** The number of entries `registerFiles` admits. */
  function Admitted(files: seq<Dirent>): nat {
    if |files| == 0 then 0
    else Admitted(files[..|files| - 1]) + (if files[|files| - 1].isFile && files[|files| - 1].name in GoodFileNames then 1 else 0)
  }

  function Size(reg: Registry): nat {
    |reg.handlerFiles| + |reg.middlewareFiles| + |reg.appInitFiles|
  }

  /** `registerFiles(files, dirname)`: every admitted entry lands in
      exactly one list, in order, and the lists only grow. */
  function RegisterFiles(reg: Registry, files: seq<Dirent>, dirname: string, resolve: string -> string): (out: Registry)
    ensures WellSorted(reg) ==> WellSorted(out)
    ensures Size(out) == Size(reg) + Admitted(files)
    ensures reg.handlerFiles <= out.handlerFiles
    ensures reg.middlewareFiles <= out.middlewareFiles && reg.appInitFiles <= out.appInitFiles
    decreases |files|
  {
    if |files| == 0 then reg
    else
      var before := RegisterFiles(reg, files[..|files| - 1], dirname, resolve);
      RegisterOneStep(before, files[|files| - 1], dirname, resolve);
      RegisterOne(before, files[|files| - 1], dirname, resolve)
  }

  /** One pass keeps the lists well sorted, admits at most the one entry,
      and only appends. */
  lemma RegisterOneStep(reg: Registry, d: Dirent, dirname: string, resolve: string -> string)
    ensures var out := RegisterOne(reg, d, dirname, resolve);
      && (WellSorted(reg) ==> WellSorted(out))
      && Size(out) == Size(reg) + (if d.isFile && d.name in GoodFileNames then 1 else 0)
      && reg.handlerFiles <= out.handlerFiles
      && reg.middlewareFiles <= out.middlewareFiles && reg.appInitFiles <= out.appInitFiles
  {
    var out := RegisterOne(reg, d, dirname, resolve);
    assert d.name in GoodFileNames <==>
      d.name in HandlerFileNames || d.name in MiddlewareFileNames || d.name in AppInitFileNames;
    if d.isFile && d.name in HandlerFileNames {
      assert NewFile(d, dirname, resolve).details == d;
    } else if d.isFile && d.name in MiddlewareFileNames {
      assert NewFile(d, dirname, resolve).details == d;
    } else if d.isFile && d.name in AppInitFileNames {
      assert NewFile(d, dirname, resolve).details == d;
    }
  }

  /** An entry with an unknown name changes nothing. */
  lemma UnknownIgnored(reg: Registry, files: seq<Dirent>, d: Dirent, dirname: string, resolve: string -> string)
    requires d.name !in GoodFileNames
    ensures RegisterFiles(reg, files + [d], dirname, resolve) == RegisterFiles(reg, files, dirname, resolve)
  {
    assert (files + [d])[..|files|] == files;
  }

  /** A handler-named file is registered as a handler, last. */
  lemma HandlerRegistered(reg: Registry, files: seq<Dirent>, d: Dirent, dirname: string, resolve: string -> string)
    requires d.isFile && d.name in HandlerFileNames
    ensures var out := RegisterFiles(reg, files + [d], dirname, resolve);
      |out.handlerFiles| > 0 && out.handlerFiles[|out.handlerFiles| - 1] == Handler(NewFile(d, dirname, resolve), None)
  {
    assert (files + [d])[..|files|] == files;
  }

  function ErrNoAppFile(dirname: string): string { "no +init.ts file found at: " + dirname }
  function ErrNoRootHandlerFile(dirname: string): string { "no +handler.ts file found at " + dirname }
  function ErrUnknownAppFile(name: string): string { "unknown app file found: " + name }
  function ErrInitFileMissingInitModule(name: string): string { "init file missing init module: " + name }

  /** `assertInitFileExists`. */
  function AssertInitFileExists(reg: Registry, dirname: string): (r: Result<(), Failure>)
    ensures r.Err? <==> |reg.appInitFiles| == 0
    ensures r.Err? ==> r.error == PlainError(ErrNoAppFile(dirname))
  {
    if |reg.appInitFiles| == 0 then Err(PlainError(ErrNoAppFile(dirname))) else Ok(())
  }

  /** Whether some handler file carries a handler name. */
  function HasNamedHandler(hs: seq<Handler>): (b: bool)
    ensures b <==> exists i :: 0 <= i < |hs| && hs[i].file.details.name in HandlerFileNames
  {
    if |hs| == 0 then false
    else if hs[0].file.details.name in HandlerFileNames then true
    else
      var b := HasNamedHandler(hs[1..]);
      assert b <==> exists i :: 0 <= i < |hs| && hs[i].file.details.name in HandlerFileNames by {
        if exists i :: 0 <= i < |hs| && hs[i].file.details.name in HandlerFileNames {
          var i :| 0 <= i < |hs| && hs[i].file.details.name in HandlerFileNames;
          assert hs[1..][i - 1] == hs[i];
        }
        if b {
          var i :| 0 <= i < |hs[1..]| && hs[1..][i].file.details.name in HandlerFileNames;
          assert hs[i + 1] == hs[1..][i];
        }
      }
      b
  }

  /** `assertRootHandlerExists`: passes when some handler file has a
      handler name. */
  function AssertRootHandlerExists(reg: Registry, dirname: string): (r: Result<(), Failure>)
    ensures r.Ok? <==> exists i :: 0 <= i < |reg.handlerFiles| && reg.handlerFiles[i].file.details.name in HandlerFileNames
    ensures r.Err? ==> r.error == PlainError(ErrNoRootHandlerFile(dirname))
  {
    if HasNamedHandler(reg.handlerFiles) then Ok(()) else Err(PlainError(ErrNoRootHandlerFile(dirname)))
  }

  /** The handler files whose name is not a known one, in order. */
  function UnknownFiles(hs: seq<Handler>): (r: seq<Handler>)
    ensures forall h :: h in r <==> h in hs && h.file.details.name !in GoodFileNames
    ensures |r| > 0 ==>
      exists i :: 0 <= i < |hs| && hs[i] == r[0]
        && forall j :: 0 <= j < i ==> hs[j].file.details.name in GoodFileNames
  {
    if |hs| == 0 then []
    else
      var rest := UnknownFiles(hs[1..]);
      assert forall h :: h in hs <==> h == hs[0] || h in hs[1..];
      if hs[0].file.details.name !in GoodFileNames then [hs[0]] + rest else rest
  }

  /** `assertNoUnknownFiles`: throws naming the first handler file with an
      unknown name. */
  function AssertNoUnknownFiles(reg: Registry, dirname: string): (r: Result<(), Failure>)
    ensures r.Ok? <==> forall h :: h in reg.handlerFiles ==> h.file.details.name in GoodFileNames
    ensures r.Err? ==>
      exists i :: 0 <= i < |reg.handlerFiles|
        && reg.handlerFiles[i].file.details.name !in GoodFileNames
        && (forall j :: 0 <= j < i ==> reg.handlerFiles[j].file.details.name in GoodFileNames)
        && r.error == PlainError(ErrUnknownAppFile(reg.handlerFiles[i].file.details.name))
  {
    var unknown := UnknownFiles(reg.handlerFiles);
    if |unknown| > 0 then
      assert unknown[0] in unknown;
      Err(PlainError(ErrUnknownAppFile(unknown[0].file.details.name)))
    else Ok(())
  }

  /** After registration from nothing, the root-handler check passes iff
      some handler file was registered. */
  lemma RootCheckIffHandler(files: seq<Dirent>, dirname: string, resolve: string -> string)
    ensures var reg := RegisterFiles(EmptyRegistry, files, dirname, resolve);
      AssertRootHandlerExists(reg, dirname).Ok? <==> |reg.handlerFiles| > 0
  {
    var reg := RegisterFiles(EmptyRegistry, files, dirname, resolve);
    if |reg.handlerFiles| > 0 {
      assert reg.handlerFiles[0].file.details.name in HandlerFileNames;
    }
  }

  /** After registration from nothing, the unknown-file check cannot
      throw: only known names were admitted. */
  lemma UnknownCheckPasses(files: seq<Dirent>, dirname: string, resolve: string -> string)
    ensures AssertNoUnknownFiles(RegisterFiles(EmptyRegistry, files, dirname, resolve), dirname).Ok?
  {
    var reg := RegisterFiles(EmptyRegistry, files, dirname, resolve);
    forall h | h in reg.handlerFiles ensures h.file.details.name in GoodFileNames {
      var i :| 0 <= i < |reg.handlerFiles| && reg.handlerFiles[i] == h;
      assert h.file.details.name in HandlerFileNames;
    }
  }

  /** The "/"-depth of a file's absolute path. */
  function SlashCount(f: File): nat {
    |Split(f.absolutePath, '/')|
  }

  /** The inner loop of `hookMiddlewareToHandlers` for one middleware
      file: every handler at least as deep takes it, replacing what it
      had. */
  function Attach(hs: seq<Handler>, mw: File): (r: seq<Handler>)
    ensures |r| == |hs|
    ensures forall i :: 0 <= i < |hs| ==> (r[i].file == hs[i].file
      && r[i].middlewareFile == (if SlashCount(mw) <= SlashCount(hs[i].file) then Some(mw) else hs[i].middlewareFile))
  {
    seq(|hs|, i requires 0 <= i < |hs| =>
      if SlashCount(mw) <= SlashCount(hs[i].file) then hs[i].(middlewareFile := Some(mw)) else hs[i])
  }

  /** `hookMiddlewareToHandlers`: the middleware files in order, each
      attached to every handler at least as deep. */
  function HookMiddleware(hs: seq<Handler>, mws: seq<File>): (r: seq<Handler>)
    ensures |r| == |hs|
    decreases |mws|
  {
    if |mws| == 0 then hs
    else Attach(HookMiddleware(hs, mws[..|mws| - 1]), mws[|mws| - 1])
  }

  /** The last middleware file no deeper than the handler file `f`. */
  function LastFitting(mws: seq<File>, f: File): (r: Option<File>)
    ensures r.None? <==> forall j :: 0 <= j < |mws| ==> SlashCount(mws[j]) > SlashCount(f)
    ensures r.Some? ==> (exists j :: 0 <= j < |mws| && mws[j] == r.value && SlashCount(r.value) <= SlashCount(f)
                           && forall k :: j < k < |mws| ==> SlashCount(mws[k]) > SlashCount(f))
    decreases |mws|
  {
    if |mws| == 0 then None
    else if SlashCount(mws[|mws| - 1]) <= SlashCount(f) then Some(mws[|mws| - 1])
    else
      var r := LastFitting(mws[..|mws| - 1], f);
      LastFittingSnoc(mws, f, r);
      r
  }

  lemma LastFittingSnoc(mws: seq<File>, f: File, r: Option<File>)
    requires |mws| > 0 && SlashCount(mws[|mws| - 1]) > SlashCount(f)
    requires var front := mws[..|mws| - 1];
      && (r.None? <==> forall j :: 0 <= j < |front| ==> SlashCount(front[j]) > SlashCount(f))
      && (r.Some? ==> (exists j :: 0 <= j < |front| && front[j] == r.value && SlashCount(r.value) <= SlashCount(f)
                         && forall k :: j < k < |front| ==> SlashCount(front[k]) > SlashCount(f)))
    ensures r.None? <==> forall j :: 0 <= j < |mws| ==> SlashCount(mws[j]) > SlashCount(f)
    ensures r.Some? ==> (exists j :: 0 <= j < |mws| && mws[j] == r.value && SlashCount(r.value) <= SlashCount(f)
                           && forall k :: j < k < |mws| ==> SlashCount(mws[k]) > SlashCount(f))
  {
    var n := |mws| - 1;
    var front := mws[..n];
    assert forall j :: 0 <= j < n ==> front[j] == mws[j];
    if r.Some? {
      var j :| 0 <= j < |front| && front[j] == r.value && SlashCount(r.value) <= SlashCount(f)
        && forall k :: j < k < |front| ==> SlashCount(front[k]) > SlashCount(f);
      assert mws[j] == r.value;
      forall k | j < k < |mws| ensures SlashCount(mws[k]) > SlashCount(f) {
        if k < n { assert mws[k] == front[k]; }
      }
      assert !(SlashCount(mws[j]) > SlashCount(f));
    } else {
      forall j | 0 <= j < |mws| ensures SlashCount(mws[j]) > SlashCount(f) {
        if j < n { assert mws[j] == front[j]; }
      }
    }
  }

  /** After hooking, each handler holds the last middleware file no
      deeper than it, or what it held before when there is none. */
  lemma {:induction false} HookGivesLastFitting(hs: seq<Handler>, mws: seq<File>, i: nat)
    requires i < |hs|
    ensures HookMiddleware(hs, mws)[i].file == hs[i].file
    ensures HookMiddleware(hs, mws)[i].middlewareFile ==
      (match LastFitting(mws, hs[i].file) case Some(m) => Some(m) case None => hs[i].middlewareFile)
    decreases |mws|
  {
    if |mws| > 0 {
      var front := mws[..|mws| - 1];
      HookGivesLastFitting(hs, front, i);
    }
  }

  /** What importing the first init file gives for its `init` export:
      the import fails, the module has no (truthy) `init`, or it has one. */
  datatype InitLoad = LoadThrows | NoInitExport | InitExport

  function ErrAppDirNotFound(dirname: string): string { "app directory does not exist: " + dirname }

  /** `getExport("init")`: it throws both when the import fails and when
      the export is missing, so it only ever returns a present export. */
  function GetInitExport(load: InitLoad): (r: Result<(), ()>)
    ensures r.Ok? <==> load == InitExport
  {
    if load == InitExport then Ok(()) else Err(())
  }

  /** `applyInitFunc`: the first init file's export, whose loading fails
      with "init file missing init module" however `getExport` throws;
      calling it on the app is outside the model. */
  function ApplyInitFunc(reg: Registry, load: InitLoad): (r: Result<(), Failure>)
    requires |reg.appInitFiles| > 0
    ensures r.Ok? <==> load == InitExport
    ensures load != InitExport ==> r == Err(PlainError(ErrInitFileMissingInitModule(reg.appInitFiles[0].details.name)))
  {
    var name := reg.appInitFiles[0].details.name;
    match GetInitExport(load)
    case Err(_) => Err(PlainError(ErrInitFileMissingInitModule(name)))
    case Ok(_) => Ok(())
  }

  /** `mount(dirname)`: list the directory (`None` when `readdir`
      fails), register, then the three checks in order, then the init
      file, then the middleware hook; the hooked handler files are what
      gets handed to the app. */
  function Mount(listing: Option<seq<Dirent>>, dirname: string, resolve: string -> string, load: InitLoad): (r: Result<seq<Handler>, Failure>)
    ensures listing.None? ==> r == Err(PlainError(ErrAppDirNotFound(dirname)))
    ensures listing.Some? ==> var reg := RegisterFiles(EmptyRegistry, listing.value, dirname, resolve);
      && (|reg.appInitFiles| == 0 ==> r == Err(PlainError(ErrNoAppFile(dirname))))
      && (|reg.appInitFiles| > 0 && |reg.handlerFiles| == 0 ==> r == Err(PlainError(ErrNoRootHandlerFile(dirname))))
      && (|reg.appInitFiles| > 0 && |reg.handlerFiles| > 0 && load != InitExport ==>
            r == Err(PlainError(ErrInitFileMissingInitModule(reg.appInitFiles[0].details.name))))
      && (r.Ok? <==> |reg.appInitFiles| > 0 && |reg.handlerFiles| > 0 && load == InitExport)
      && (r.Ok? ==> r.value == HookMiddleware(reg.handlerFiles, reg.middlewareFiles))
  {
    match listing
    case None => Err(PlainError(ErrAppDirNotFound(dirname)))
    case Some(files) =>
      var reg := RegisterFiles(EmptyRegistry, files, dirname, resolve);
      RootCheckIffHandler(files, dirname, resolve);
      UnknownCheckPasses(files, dirname, resolve);
      var _ :- AssertInitFileExists(reg, dirname);
      var _ :- AssertRootHandlerExists(reg, dirname);
      match AssertNoUnknownFiles(reg, dirname)
      case Err(e) => Err(e)
      case Ok(_) =>
        var _ :- ApplyInitFunc(reg, load);
        Ok(HookMiddleware(reg.handlerFiles, reg.middlewareFiles))
  }

  /** With neither an init file nor a handler file, the init check is the
      one that fails. */
  lemma InitCheckedFirst(files: seq<Dirent>, dirname: string, resolve: string -> string, load: InitLoad)
    requires forall i :: 0 <= i < |files| ==> files[i].name !in GoodFileNames
    ensures Mount(Some(files), dirname, resolve, load) == Err(PlainError(ErrNoAppFile(dirname)))
  {
    NothingAdmitted(files, dirname, resolve);
  }

  lemma {:induction false} NothingAdmitted(files: seq<Dirent>, dirname: string, resolve: string -> string)
    requires forall i :: 0 <= i < |files| ==> files[i].name !in GoodFileNames
    ensures RegisterFiles(EmptyRegistry, files, dirname, resolve) == EmptyRegistry
    decreases |files|
  {
    if |files| > 0 {
      var front := files[..|files| - 1];
      assert forall i :: 0 <= i < |front| ==> front[i] == files[i];
      NothingAdmitted(front, dirname, resolve);
    }
  }
}
