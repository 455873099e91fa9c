/**
 * The older walk of internal/crud/default.go: the same pass over the commit
 * tree, but it marks configuration files by name, reads the content of those
 * only, and swallows a read failure by stopping the walk.
 */
module LegacyWalk {
  import opened Wrappers
  import opened Strings
  import opened Conv
  import opened Foreign
  import opened GitWalk
  import opened GitPolicy

  /** `configFiles`: the names (matched by util.In on the full path) that make a file a configuration file. */
  const ConfigFiles: seq<string> := [
    "Dockerfile", "dockerfile.yml", "dockerfile.yaml", ".json", ".cform", ".template",
    ".tf", ".tf.json", "Manifest", ".gradle", ".properties"]

  /** A file is a configuration file when util.In(configFiles, path) holds. */
  predicate IsConfig(path: string)
  {
    In(ConfigFiles, path)
  }

  /**
   * A record of the older collection (`collection`): Hash, the name (the Go
   * field `File`), FileURL, Content, Config, and a Type that the older filter
   * sets and the walk leaves empty.
   */
  datatype Entry = Entry(hash: string, name: string, fileURL: string, content: string, config: bool, fileType: string)

  /** The older `GitCollection`. */
  datatype LegacyCollection = LegacyCollection(baseURL: string, baseHash: string, baseDir: string, coll: seq<Entry>)

  /**
   * The record the walk builds for a readable (or non-configuration) file.
   * The walk's functions and methods take the configuration names as
   * `names`; GetGitCollection passes `configFiles`.
   */
  function Record(names: seq<string>, url: string, hash: string, mode: Mode, f: TreeFile): (e: Entry)
    ensures e.config <==> In(names, f.name)
    ensures e.config ==> e.content == Data(f)
    ensures !e.config ==> e.content == ""
    ensures e.hash == f.hash
    ensures e.name == EntryName(mode, f) && e.fileURL == EntryLink(url, hash, mode, f) && e.fileType == ""
  {
    var config := In(names, f.name);
    Entry(f.hash, EntryName(mode, f), EntryLink(url, hash, mode, f), if config then Data(f) else "", config, "")
  }

  /** The records of a sequence of visited files, in order. */
  function Records(names: seq<string>, url: string, hash: string, mode: Mode, files: seq<TreeFile>): (es: seq<Entry>)
  {
    seq(|files|, k requires 0 <= k < |files| => Record(names, url, hash, mode, files[k]))
  }

  /** The walk stops at this file: its path matches one of `names` and its content cannot be read. */
  predicate Halts(names: seq<string>, f: TreeFile)
  {
    In(names, f.name) && f.blob.Err?
  }

  /** The files the walk records: the longest prefix of the visited files that holds no halting file. */
  function UpToFailure(names: seq<string>, files: seq<TreeFile>): (r: seq<TreeFile>)
    ensures |r| <= |files| && r == files[..|r|]
    ensures forall k :: 0 <= k < |r| ==> !Halts(names, r[k])
    ensures |r| < |files| ==> Halts(names, files[|r|])
  {
    if files == [] || Halts(names, files[0]) then []
    else [files[0]] + UpToFailure(names, files[1..])
  }

  /** A halting file after non-halting ones ends what the walk records. */
  lemma UpToFailureAt(names: seq<string>, files: seq<TreeFile>, i: nat)
    requires i <= |files| && forall k :: 0 <= k < i ==> !Halts(names, files[k])
    requires i < |files| ==> Halts(names, files[i])
    ensures UpToFailure(names, files) == files[..i]
  {
  }

  /** The ForEach callback for one visited file: its record, reading the content of a configuration file only. */
  method Callback(names: seq<string>, url: string, hash: string, mode: Mode, f: TreeFile, coll: seq<Entry>) returns (r: Result<seq<Entry>, string>)
    ensures Halts(names, f) ==> r == Err(f.blob.error)
    ensures !Halts(names, f) ==> r == Ok(coll + [Record(names, url, hash, mode, f)])
  {
    var co := Entry(f.hash, EntryName(mode, f), EntryLink(url, hash, mode, f), "", false, "");
    var config := Scan(names, f.name);
    if config {
      co := co.(config := true);
      if f.blob.Err? {
        return Err(f.blob.error);
      }
      co := co.(content := f.blob.value);
    }
    return Ok(coll + [co]);
  }

  /** One more visited file extends the records by its record. */
  lemma RecordsStep(names: seq<string>, url: string, hash: string, mode: Mode, files: seq<TreeFile>, f: TreeFile)
    ensures Records(names, url, hash, mode, files + [f]) == Records(names, url, hash, mode, files) + [Record(names, url, hash, mode, f)]
  {
    var es := Records(names, url, hash, mode, files + [f]);
    assert es[..|files|] == Records(names, url, hash, mode, files);
  }

  /** None of the files halts the walk. */
  predicate NoHalt(names: seq<string>, files: seq<TreeFile>)
  {
    forall k :: 0 <= k < |files| ==> !Halts(names, files[k])
  }

  /** One ForEach round of retrieveFromRoot, on tree file `i`: the halt, or the records one file further. */
  method RootRound(names: seq<string>, url: string, hash: string, tree: seq<TreeFile>, i: nat, coll: seq<Entry>) returns (r: Result<seq<Entry>, string>)
    requires i < |tree| && NoHalt(names, tree[..i]) && coll == Records(names, url, hash, Root, tree[..i])
    ensures r.Err? ==> UpToFailure(names, tree) == tree[..i]
    ensures r.Ok? ==> NoHalt(names, tree[..i + 1]) && r.value == Records(names, url, hash, Root, tree[..i + 1])
  {
    r := Callback(names, url, hash, Root, tree[i], coll);
    assert tree[..i + 1] == tree[..i] + [tree[i]];
    if r.Err? {
      UpToFailureAt(names, tree, i);
      return;
    }
    RecordsStep(names, url, hash, Root, tree[..i], tree[i]);
  }

  /**
   * retrieveFromRoot (default.go): a record per tree file, in tree order, up
   * to the first configuration file that cannot be read; that failure ends the
   * walk and is not reported.
   */
  method RetrieveFromRoot(names: seq<string>, url: string, hash: string, tree: seq<TreeFile>) returns (coll: seq<Entry>)
    ensures coll == Records(names, url, hash, Root, UpToFailure(names, tree))
  {
    coll := [];
    var i := 0;
    while i < |tree|
      invariant 0 <= i <= |tree| && NoHalt(names, tree[..i]) && coll == Records(names, url, hash, Root, tree[..i])
    {
      var res := RootRound(names, url, hash, tree, i, coll);
      if res.Err? {
        return;
      }
      coll := res.value;
      i := i + 1;
    }
    assert tree[..i] == tree;
    UpToFailureAt(names, tree, i);
  }

  /** The walk in `dir` stops at tree file `i`: what it recorded is what comes before `i` among the files in `dir`. */
  lemma KeptUpTo(names: seq<string>, tree: seq<TreeFile>, dir: string, i: nat)
    requires i < |tree| && Contains(tree[i].name, dir) && Halts(names, tree[i])
    requires NoHalt(names, Kept(tree[..i], dir))
    ensures UpToFailure(names, Kept(tree, dir)) == Kept(tree[..i], dir)
  {
    var before := Kept(tree[..i], dir);
    KeptStep(tree, dir, i);
    KeptSplit(tree[..i + 1], tree[i + 1..], dir);
    assert tree == tree[..i + 1] + tree[i + 1..];
    var all := Kept(tree, dir);
    assert all == before + [tree[i]] + Kept(tree[i + 1..], dir);
    assert all[..|before|] == before;
    assert all[|before|] == tree[i];
    UpToFailureAt(names, all, |before|);
  }

  /** One ForEach round of retrieveFromDir, on tree file `i`: the halt, or the records one file further. */
  method DirRound(names: seq<string>, url: string, hash: string, dir: string, tree: seq<TreeFile>, i: nat, coll: seq<Entry>)
    returns (r: Result<seq<Entry>, string>)
    requires i < |tree| && NoHalt(names, Kept(tree[..i], dir)) && coll == Records(names, url, hash, Dir(dir), Kept(tree[..i], dir))
    ensures r.Err? ==> UpToFailure(names, Kept(tree, dir)) == Kept(tree[..i], dir)
    ensures r.Ok? ==> NoHalt(names, Kept(tree[..i + 1], dir)) && r.value == Records(names, url, hash, Dir(dir), Kept(tree[..i + 1], dir))
  {
    KeptStep(tree, dir, i);
    if !Contains(tree[i].name, dir) {
      assert Kept(tree[..i + 1], dir) == Kept(tree[..i], dir);
      return Ok(coll);
    }
    r := Callback(names, url, hash, Dir(dir), tree[i], coll);
    if r.Err? {
      KeptUpTo(names, tree, dir, i);
      return;
    }
    RecordsStep(names, url, hash, Dir(dir), Kept(tree[..i], dir), tree[i]);
  }

  /**
   * retrieveFromDir (default.go): a record per tree file whose path contains
   * `dir`, named relative to the first "/", up to the first such configuration
   * file that cannot be read.
   */
  method RetrieveFromDir(names: seq<string>, url: string, hash: string, dir: string, tree: seq<TreeFile>) returns (coll: seq<Entry>)
    ensures coll == Records(names, url, hash, Dir(dir), UpToFailure(names, Kept(tree, dir)))
  {
    coll := [];
    var i := 0;
    while i < |tree|
      invariant 0 <= i <= |tree| && NoHalt(names, Kept(tree[..i], dir)) && coll == Records(names, url, hash, Dir(dir), Kept(tree[..i], dir))
    {
      var res := DirRound(names, url, hash, dir, tree, i, coll);
      if res.Err? {
        return;
      }
      coll := res.value;
      i := i + 1;
    }
    assert tree[..i] == tree;
    UpToFailureAt(names, Kept(tree, dir), |Kept(tree, dir)|);
  }

  /**
   * GetGitCollection (default.go:102-120), given the resolved tree: the base
   * fields and the walk's records. The walks never report an error, so the
   * "retrieving list of files" branch is never taken.
   */
  method GetGitCollection(url: string, hash: string, dir: string, tree: seq<TreeFile>) returns (c: LegacyCollection)
    ensures c.baseURL == url && c.baseHash == hash && c.baseDir == BaseDirOf(dir)
    ensures c.coll == Records(ConfigFiles, url, hash, ModeOf(dir), UpToFailure(ConfigFiles, Kept(tree, dir)))
  {
    var coll: seq<Entry>;
    if dir != "" {
      coll := RetrieveFromDir(ConfigFiles, url, hash, dir, tree);
      c := LegacyCollection(url, hash, dir, coll);
    } else {
      coll := RetrieveFromRoot(ConfigFiles, url, hash, tree);
      KeptEverything(tree);
      c := LegacyCollection(url, hash, "/", coll);
    }
  }

  /** A listed name that occurs anywhere in the path makes the file a configuration file. */
  lemma ConfigByMarker(path: string, i: nat, k: nat)
    requires i < |ConfigFiles| && k + |ConfigFiles[i]| <= |path| && path[k..k + |ConfigFiles[i]|] == ConfigFiles[i]
    ensures IsConfig(path)
  {
    ContainsIff(path, ConfigFiles[i]);
    assert OccursAt(path, ConfigFiles[i], k);
  }

  /** Containment on the full path makes more files configuration files than the list suggests: any JSON file, say. */
  lemma PackageJsonIsConfig()
    ensures IsConfig("package.json")
  {
    ConfigByMarker("package.json", 3, 7);
  }

  lemma AndroidManifestIsConfig()
    ensures IsConfig("AndroidManifest.xml")
  {
    ConfigByMarker("AndroidManifest.xml", 8, 7);
  }

  lemma NestedDockerfileIsConfig()
    ensures IsConfig("deploy/Dockerfile")
  {
    ConfigByMarker("deploy/Dockerfile", 0, 7);
  }

  /** "dockerfile" (lower case, no dot) matches none of the configuration names. */
  lemma LowercaseDockerfileNotConfig()
    ensures !IsConfig("dockerfile")
  {
    var s := "dockerfile";
    forall i | 0 <= i < |ConfigFiles| ensures s != ConfigFiles[i] && !Contains(s, ConfigFiles[i]) {
      var v := ConfigFiles[i];
      if v[0] == '.' {
        NoDot(s, v);
      } else if |v| > |s| {
        if Contains(s, v) {
          ContainsNotLonger(s, v);
        }
      } else {
        assert v[0] == 'D' || v[0] == 'M';
        FirstCharAbsent(s, v);
      }
    }
  }

  /** A string whose first character does not occur in `s` does not occur in `s`. */
  lemma FirstCharAbsent(s: string, v: string)
    requires |v| > 0 && v[0] !in s
    ensures !Contains(s, v)
  {
    ContainsIff(s, v);
    forall k | 0 <= k && k + |v| <= |s| ensures !OccursAt(s, v, k) {
      assert s[k..k + |v|][0] == s[k];
    }
  }
}
