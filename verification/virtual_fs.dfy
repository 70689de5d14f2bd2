/** The in-memory file tree of hoist (src/hoist/src/VirtualFS.ts): assets
    keyed by a normalised relative path, read and written by any spelling
    that normalises to the same key. The normaliser resolves against the
    working directory, so it is a parameter here. */
module VirtualFS {
  import opened Wrappers
  import opened SystemErrors

  /** src/hoist/src/VirtualAsset.ts: a directory, a file, or the root
      directory; only files carry text. */
  datatype AssetType = Dir | File | RootDir

  datatype Asset = Asset(assetType: AssetType, text: string) {
    /** `isDir()`: the root counts as a directory. */
    predicate IsDir() {
      assetType == Dir || assetType == RootDir
    }
  }

  datatype Fs = Fs(assets: map<string, Asset>)

  /** The constructor: every given key is normalised; when two spellings
      normalise alike, the later entry wins. */
  function FromEntries(entries: seq<(string, Asset)>, norm: string -> string): (fs: Fs)
    ensures forall k :: k in fs.assets <==> exists i :: 0 <= i < |entries| && norm(entries[i].0) == k
    ensures forall i :: 0 <= i < |entries| && (forall j :: i < j < |entries| ==> norm(entries[j].0) != norm(entries[i].0)) ==>
      norm(entries[i].0) in fs.assets && fs.assets[norm(entries[i].0)] == entries[i].1
    decreases |entries|
  {
    if |entries| == 0 then Fs(map[])
    else
      var last := entries[|entries| - 1];
      var init := FromEntries(entries[..|entries| - 1], norm);
      var fs := Fs(init.assets[norm(last.0) := last.1]);
      FromEntriesSnoc(entries, norm, init, fs);
      fs
  }

  /** No later entry normalises like entry `i`. */
  ghost predicate Unshadowed(es: seq<(string, Asset)>, norm: string -> string, i: int)
    requires 0 <= i < |es|
  {
    forall j :: i < j < |es| ==> norm(es[j].0) != norm(es[i].0)
  }

  /** Every entry no later entry shadows is stored as given. */
  ghost predicate StoresUnshadowed(es: seq<(string, Asset)>, norm: string -> string, fs: Fs) {
    forall i :: 0 <= i < |es| && Unshadowed(es, norm, i) ==>
      norm(es[i].0) in fs.assets && fs.assets[norm(es[i].0)] == es[i].1
  }

  lemma FromEntriesSnoc(entries: seq<(string, Asset)>, norm: string -> string, init: Fs, fs: Fs)
    requires |entries| > 0
    requires var front := entries[..|entries| - 1];
      && (forall k :: k in init.assets <==> exists i :: 0 <= i < |front| && norm(front[i].0) == k)
      && (forall i :: 0 <= i < |front| && (forall j :: i < j < |front| ==> norm(front[j].0) != norm(front[i].0)) ==>
            norm(front[i].0) in init.assets && init.assets[norm(front[i].0)] == front[i].1)
    requires fs.assets == init.assets[norm(entries[|entries| - 1].0) := entries[|entries| - 1].1]
    ensures forall k :: k in fs.assets <==> exists i :: 0 <= i < |entries| && norm(entries[i].0) == k
    ensures forall i :: 0 <= i < |entries| && (forall j :: i < j < |entries| ==> norm(entries[j].0) != norm(entries[i].0)) ==>
      norm(entries[i].0) in fs.assets && fs.assets[norm(entries[i].0)] == entries[i].1
  {
    SnocKeys(entries, norm, init, fs);
    var front := entries[..|entries| - 1];
    assert StoresUnshadowed(front, norm, init);
    forall i | 0 <= i < |entries| && Unshadowed(entries, norm, i)
      ensures norm(entries[i].0) in fs.assets && fs.assets[norm(entries[i].0)] == entries[i].1
    {
      SnocValue(entries, front, norm, init, fs, i);
    }
    assert StoresUnshadowed(entries, norm, fs);
  }

  lemma SnocKeys(entries: seq<(string, Asset)>, norm: string -> string, init: Fs, fs: Fs)
    requires |entries| > 0
    requires var front := entries[..|entries| - 1];
      forall k :: k in init.assets <==> exists i :: 0 <= i < |front| && norm(front[i].0) == k
    requires fs.assets == init.assets[norm(entries[|entries| - 1].0) := entries[|entries| - 1].1]
    ensures forall k :: k in fs.assets <==> exists i :: 0 <= i < |entries| && norm(entries[i].0) == k
  {
    var n := |entries| - 1;
    var front := entries[..n];
    forall k | k in fs.assets ensures exists i :: 0 <= i < |entries| && norm(entries[i].0) == k {
      if k != norm(entries[n].0) {
        var i :| 0 <= i < |front| && norm(front[i].0) == k;
        assert entries[i] == front[i];
      }
    }
    forall k | exists i :: 0 <= i < |entries| && norm(entries[i].0) == k ensures k in fs.assets {
      var i :| 0 <= i < |entries| && norm(entries[i].0) == k;
      if i < n { assert front[i] == entries[i]; }
    }
  }

  lemma SnocValue(entries: seq<(string, Asset)>, front: seq<(string, Asset)>, norm: string -> string, init: Fs, fs: Fs, i: nat)
    requires |entries| > 0 && front == entries[..|entries| - 1]
    requires i < |entries| && Unshadowed(entries, norm, i)
    requires StoresUnshadowed(front, norm, init)
    requires fs.assets == init.assets[norm(entries[|entries| - 1].0) := entries[|entries| - 1].1]
    ensures norm(entries[i].0) in fs.assets && fs.assets[norm(entries[i].0)] == entries[i].1
  {
    var n := |entries| - 1;
    if i < n {
      assert front[i] == entries[i];
      forall j | i < j < |front| ensures norm(front[j].0) != norm(front[i].0) {
        assert front[j] == entries[j];
      }
      assert Unshadowed(front, norm, i);
      assert norm(entries[n].0) != norm(entries[i].0);
    }
  }

  /** `read(path)`: the text of the file the path normalises to. */
  function Read(fs: Fs, norm: string -> string, path: string): (r: Result<string, Failure>)
    ensures norm(path) !in fs.assets ==> r == Err(PlainError("No asset found for " + path))
    ensures norm(path) in fs.assets && fs.assets[norm(path)].IsDir() ==> r == Err(PlainError("Cannot read directory: " + path))
    ensures r.Ok? <==> norm(path) in fs.assets && !fs.assets[norm(path)].IsDir()
    ensures r.Ok? ==> r.value == fs.assets[norm(path)].text
  {
    var key := norm(path);
    if key !in fs.assets then Err(PlainError("No asset found for " + path))
    else if fs.assets[key].IsDir() then Err(PlainError("Cannot read directory: " + path))
    else Ok(fs.assets[key].text)
  }

  /** `write(path, content)`: replaces the text of that file and nothing
      else. */
  function Write(fs: Fs, norm: string -> string, path: string, content: string): (r: Result<Fs, Failure>)
    ensures norm(path) !in fs.assets ==> r == Err(PlainError("No asset found for " + path))
    ensures norm(path) in fs.assets && fs.assets[norm(path)].IsDir() ==> r == Err(PlainError("Cannot write to directory: " + path))
    ensures r.Ok? <==> norm(path) in fs.assets && !fs.assets[norm(path)].IsDir()
    ensures r.Ok? ==> r.value.assets.Keys == fs.assets.Keys
    ensures r.Ok? ==> forall k :: k in fs.assets && k != norm(path) ==> r.value.assets[k] == fs.assets[k]
    ensures r.Ok? ==> r.value.assets[norm(path)] == fs.assets[norm(path)].(text := content)
  {
    var key := norm(path);
    if key !in fs.assets then Err(PlainError("No asset found for " + path))
    else if fs.assets[key].IsDir() then Err(PlainError("Cannot write to directory: " + path))
    else Ok(Fs(fs.assets[key := fs.assets[key].(text := content)]))
  }

  /** A write is refused exactly where a read is. */
  lemma WriteFailsWhereReadFails(fs: Fs, norm: string -> string, path: string, content: string)
    ensures Write(fs, norm, path, content).Err? <==> Read(fs, norm, path).Err?
  {
  }

  /** Reading back what was written gives the written text, by any
      spelling of the path; other files read as before. */
  lemma ReadAfterWrite(fs: Fs, norm: string -> string, path: string, alias: string, other: string, content: string)
    requires Write(fs, norm, path, content).Ok? && norm(alias) == norm(path) && norm(other) != norm(path)
    ensures Read(Write(fs, norm, path, content).value, norm, alias) == Ok(content)
    ensures Read(Write(fs, norm, path, content).value, norm, other) == Read(fs, norm, other)
  {
  }

  /** Two spellings that normalise alike read the same result. */
  lemma SpellingsAgree(fs: Fs, norm: string -> string, a: string, b: string)
    requires norm(a) == norm(b)
    ensures Read(fs, norm, a).Ok? == Read(fs, norm, b).Ok?
    ensures Read(fs, norm, a).Ok? ==> Read(fs, norm, a) == Read(fs, norm, b)
  {
  }

  /** An asset given under one spelling is readable under any other that
      normalises alike. */
  lemma ConstructedReadable(entries: seq<(string, Asset)>, norm: string -> string, i: nat, alias: string)
    requires i < |entries| && entries[i].1.assetType == File && norm(alias) == norm(entries[i].0)
    requires forall j :: i < j < |entries| ==> norm(entries[j].0) != norm(entries[i].0)
    ensures Read(FromEntries(entries, norm), norm, alias) == Ok(entries[i].1.text)
  {
  }
}
