/** A file found under the app directory of the file-based router
    (src/File.ts): its endpoint and its path relative to the mount point,
    derived from its directory by removing the mount path. */
module RouterFile {
  import opened Text

  /** A directory entry as `readdir` reports it. */
  datatype Dirent = Dirent(name: string, parentPath: string, isFile: bool)

  /** The paths the constructor computes. `absolutePath` is
      `path.resolve(mount + relativePath)`, so the resolver is a
      parameter. */
  datatype File = File(details: Dirent, endpointPath: string, relativePath: string, absolutePath: string)

  /** The mount path with its first "./" removed. */
  function MountBase(mountTo: string): (m: string)
    ensures StartsWith(mountTo, "./") ==> m == mountTo[2..]
  {
    assert StartsWith(mountTo, "./") ==> IndexOf(mountTo, "./") == 0;
    ReplaceFirst(mountTo, "./", "")
  }

  /** The constructor of `File`. */
  function NewFile(d: Dirent, mountTo: string, resolve: string -> string): (f: File)
    ensures var seg := ReplaceFirst(d.parentPath, MountBase(mountTo), "");
      && (seg == "" ==> f.endpointPath == "/" && f.relativePath == "/" + d.name)
      && (seg != "" ==> f.endpointPath == seg && f.relativePath == seg + "/" + d.name)
    ensures EndsWith(f.relativePath, d.name)
    ensures f.absolutePath == resolve(MountBase(mountTo) + f.relativePath)
    ensures f.details == d
  {
    var mount := MountBase(mountTo);
    var seg := ReplaceFirst(d.parentPath, mount, "");
    var endpoint := if seg == "" then "/" else seg;
    var relative := if seg == "" then endpoint + d.name else endpoint + "/" + d.name;
    assert relative[|relative| - |d.name|..] == d.name;
    File(d, endpoint, relative, resolve(mount + relative))
  }

  /** A prefix is found at position 0. */
  lemma PrefixFoundFirst(s: string, p: string)
    requires StartsWith(s, p)
    ensures IndexOf(s, p) == 0
  {
    assert OccursAt(s, p, 0);
  }

  /** A file directly in the mount directory lives at "/". */
  lemma FileAtMountRoot(name: string, mount: string, resolve: string -> string)
    requires mount != "" && !Includes(mount, "./")
    ensures var f := NewFile(Dirent(name, mount, true), mount, resolve);
      f.endpointPath == "/" && f.relativePath == "/" + name
  {
    assert IndexOf(mount, "./") < 0;
    PrefixFoundFirst(mount, mount);
    assert mount[|mount|..] == "";
  }

  /** A file in a sub-directory `sub` of the mount directory lives at
      "/" + `sub`, and its relative path adds "/" + its name. */
  lemma FileBelowMount(name: string, mount: string, sub: string, resolve: string -> string)
    requires mount != "" && !Includes(mount, "./")
    ensures var f := NewFile(Dirent(name, mount + "/" + sub, true), mount, resolve);
      f.endpointPath == "/" + sub && f.relativePath == "/" + sub + "/" + name
  {
    var parent := mount + "/" + sub;
    assert IndexOf(mount, "./") < 0;
    assert parent[..|mount|] == mount;
    PrefixFoundFirst(parent, mount);
    assert parent[|mount|..] == "/" + sub;
  }

  /** A mount path written with "./" gives the same file as without. */
  lemma DotSlashIgnored(d: Dirent, mount: string, resolve: string -> string)
    requires !Includes(mount, "./")
    ensures NewFile(d, "./" + mount, resolve) == NewFile(d, mount, resolve)
  {
    PrefixFoundFirst("./" + mount, "./");
    assert ("./" + mount)[2..] == mount;
    assert IndexOf(mount, "./") < 0;
  }
}
