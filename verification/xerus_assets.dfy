/** The two asset mounts of the application (`static` and `embed` in
    src/Xerus.ts): how a request path becomes a file on disk or an entry
    of an in-memory asset table. The file read itself is I/O and is left
    to the caller. */
module XerusAssets {
  import opened Wrappers
  import opened Text
  import opened PosixPath
  import opened SystemErrors
  import opened TemplateStore

  /** The prefix a `static` mount strips: "/" means none, any other prefix
      loses its trailing slashes. */
  function StaticPrefix(pathPrefix: string): (prefix: string)
    ensures pathPrefix == "/" ==> prefix == ""
    ensures pathPrefix != "/" ==> StartsWith(pathPrefix, prefix) && (prefix == "" || prefix[|prefix| - 1] != '/')
    ensures pathPrefix != "/" ==> forall i :: |prefix| <= i < |pathPrefix| ==> pathPrefix[i] == '/'
  {
    if pathPrefix == "/" then "" else StripTrailingSlashes(pathPrefix)
  }

  /** `path.resolve(rootDir)` against the working directory `cwd`, which
      the runtime supplies. */
  function AbsRoot(cwd: string, rootDir: string): (root: string)
    ensures StartsWith(root, "/")
    ensures ".." !in Split(root, '/')
  {
    ResolveHasNoDotDot(if StartsWith(rootDir, "/") then rootDir else cwd + "/" + rootDir);
    ResolveAbsolute(if StartsWith(rootDir, "/") then rootDir else cwd + "/" + rootDir)
  }

  /** The file a `static` mount serves for the request path `path`: the
      mount prefix is cut off, leading slashes go, the rest is joined to
      the root and resolved, and anything whose text does not start with
      the root's text is refused. The test is on text, not on path
      segments, so a resolved sibling such as "/srv/www2/x" would pass for
      the root "/srv/www". */
  function StaticTarget(absRoot: string, prefix: string, path: string): (r: Result<string, Failure>)
    ensures r.Err? ==> r.error == SystemErr(FileNotFound, "Access Denied")
    ensures r.Ok? ==> StartsWith(r.value, absRoot) && StartsWith(r.value, "/")
    ensures r.Ok? ==> ".." !in Split(r.value, '/')
    ensures var resolved := ResolveAbsolute(PathJoin(absRoot, StripLeadingSlashes(SubstringFrom(path, |prefix|))));
      (r.Ok? <==> StartsWith(resolved, absRoot)) && (r.Ok? ==> r.value == resolved)
  {
    var urlPath := SubstringFrom(path, |prefix|);
    var relativePath := StripLeadingSlashes(urlPath);
    var finalPath := ResolveAbsolute(PathJoin(absRoot, relativePath));
    ResolveHasNoDotDot(PathJoin(absRoot, relativePath));
    if StartsWith(finalPath, absRoot) then Ok(finalPath)
    else Err(SystemErr(FileNotFound, "Access Denied"))
  }

  /** The prefix an `embed` mount strips: only "/" is special, other
      prefixes are taken as given. */
  function EmbedPrefix(pathPrefix: string): string {
    if pathPrefix == "/" then "" else pathPrefix
  }

  /** The name an embedded directory's index is stored under, relative
      to the directory. */
  const IndexSuffix: string := "/index.html"

  /** The asset an `embed` mount serves: the entry under the path after
      the prefix, else the directory index below it, else FILE_NOT_FOUND
      naming the path. */
  function EmbedLookup(files: map<string, EmbeddedFile>, prefix: string, path: string): (r: Result<EmbeddedFile, Failure>)
    ensures var lookup := SubstringFrom(path, |prefix|);
      && (r.Ok? <==> lookup in files || lookup + IndexSuffix in files)
      && (lookup in files ==> r == Ok(files[lookup]))
      && (lookup !in files && lookup + IndexSuffix in files ==> r == Ok(files[lookup + IndexSuffix]))
      && (r.Err? ==> r.error == SystemErr(FileNotFound, "Asset " + lookup + " not found"))
  {
    var lookupPath := SubstringFrom(path, |prefix|);
    if lookupPath in files then Ok(files[lookupPath])
    else if lookupPath + IndexSuffix in files then Ok(files[lookupPath + IndexSuffix])
    else Err(SystemErr(FileNotFound, "Asset " + lookupPath + " not found"))
  }

  /** A request below the mount prefix looks up exactly the text after
      the prefix. */
  lemma EmbedLookupBelowPrefix(files: map<string, EmbeddedFile>, pathPrefix: string, rest: string)
    ensures var prefix := EmbedPrefix(pathPrefix);
      EmbedLookup(files, prefix, prefix + rest).Ok? <==> rest in files || rest + IndexSuffix in files
  {
    var prefix := EmbedPrefix(pathPrefix);
    assert (prefix + rest)[..|prefix|] == prefix;
    if |rest| == 0 {
      assert prefix + rest == prefix;
    } else {
      assert (prefix + rest)[|prefix|..] == rest;
    }
  }
}
