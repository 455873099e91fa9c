/**
 * retrieveFromRoot and retrieveFromDir of internal/crud/git.go: one pass
 * over the commit tree that builds the entries, the file count, the language
 * list and the list of files whose language is unknown.
 */
module GitWalk {
  import opened Wrappers
  import opened Strings
  import opened Foreign
  import opened GitTypes

  /** Neither the path nor the content tells enry the language. */
  predicate Unrecognised(lang: Linguist, f: TreeFile)
  {
    lang.byExtension(f.name) == "" && lang.byContent(f.name, Data(f)) == ""
  }

  /** The `Extension` of an entry: the language by path, else by content, else "Unknown". */
  function Classify(lang: Linguist, f: TreeFile): (ext: string)
    ensures ext != ""
    ensures Unrecognised(lang, f) ==> ext == "Unknown"
    ensures lang.byExtension(f.name) != "" ==> ext == lang.byExtension(f.name)
    ensures lang.byExtension(f.name) == "" && lang.byContent(f.name, Data(f)) != "" ==> ext == lang.byContent(f.name, Data(f))
  {
    var byName := lang.byExtension(f.name);
    if byName != "" then byName
    else
      var byContent := lang.byContent(f.name, Data(f));
      if byContent != "" then byContent else "Unknown"
  }

  /** The labels of the visited files, in visiting order. */
  function Labels(lang: Linguist, files: seq<TreeFile>): (labels: seq<string>)
    ensures |labels| == |files|
    ensures forall i :: 0 <= i < |files| ==> labels[i] == Classify(lang, files[i])
  {
    if files == [] then []
    else Labels(lang, files[..|files| - 1]) + [Classify(lang, files[|files| - 1])]
  }

  /** The paths appended to the unknown list: those of the visited files that enry does not recognise. */
  function UnknownOf(lang: Linguist, files: seq<TreeFile>): seq<string>
  {
    if files == [] then []
    else UnknownOf(lang, files[..|files| - 1])
         + (if Unrecognised(lang, files[|files| - 1]) then [files[|files| - 1].name] else [])
  }

  /** A path is on the unknown list exactly when some visited file with that path was not recognised. */
  lemma {:induction false} UnknownOfIff(lang: Linguist, files: seq<TreeFile>, path: string)
    ensures path in UnknownOf(lang, files) <==>
      exists i :: 0 <= i < |files| && files[i].name == path && Unrecognised(lang, files[i])
  {
    if files != [] {
      var init := files[..|files| - 1];
      UnknownOfIff(lang, init, path);
      if exists i :: 0 <= i < |init| && init[i].name == path && Unrecognised(lang, init[i]) {
        var i :| 0 <= i < |init| && init[i].name == path && Unrecognised(lang, init[i]);
        assert files[i] == init[i];
      }
      if exists i :: 0 <= i < |files| && files[i].name == path && Unrecognised(lang, files[i]) {
        var i :| 0 <= i < |files| && files[i].name == path && Unrecognised(lang, files[i]);
        if i < |init| {
          assert init[i] == files[i];
        }
      }
    }
  }

  /** git.go:204-206: a label joins the list unless util.In says the list already covers it. */
  function AddLabel(langs: seq<string>, ext: string): seq<string>
  {
    if In(langs, ext) then langs else langs + [ext]
  }

  /** The language list a walk builds from the labels it sees. */
  function Languages(labels: seq<string>): seq<string>
  {
    if labels == [] then []
    else AddLabel(Languages(labels[..|labels| - 1]), labels[|labels| - 1])
  }

  /** Every label seen is covered by the list: equal to, or containing, a listed label. */
  lemma {:induction false} LanguagesCover(labels: seq<string>)
    ensures forall i :: 0 <= i < |labels| ==> In(Languages(labels), labels[i])
  {
    if labels != [] {
      var init := labels[..|labels| - 1];
      LanguagesCover(init);
      var prev := Languages(init);
      forall i | 0 <= i < |labels|
        ensures In(Languages(labels), labels[i])
      {
        if i < |init| {
          assert labels[i] == init[i];
          InMonotone(prev, Languages(labels), labels[i]);
        } else {
          var ext := labels[i];
          if !In(prev, ext) {
            assert Languages(labels)[|prev|] == ext;
          }
        }
      }
    }
  }

  /** Only labels that were seen are listed, and no listed label equals or contains an earlier one. */
  lemma {:induction false} LanguagesSpread(labels: seq<string>)
    ensures forall x :: x in Languages(labels) ==> x in labels
    ensures forall i, j :: 0 <= i < j < |Languages(labels)| ==>
      Languages(labels)[j] != Languages(labels)[i] && !Contains(Languages(labels)[j], Languages(labels)[i])
  {
    if labels != [] {
      var init := labels[..|labels| - 1];
      LanguagesSpread(init);
      var prev := Languages(init);
      forall x | x in Languages(labels) ensures x in labels {
        if x in prev {
          var k :| 0 <= k < |init| && init[k] == x;
          assert labels[k] == x;
        }
      }
    }
  }

  /** Hence the list has no duplicates. */
  lemma LanguagesDistinct(labels: seq<string>)
    ensures forall i, j :: 0 <= i < j < |Languages(labels)| ==> Languages(labels)[i] != Languages(labels)[j]
  {
    LanguagesSpread(labels);
  }

  /** Where each listed label was seen: increasing positions in `labels`. */
  ghost function FirstSeen(labels: seq<string>): seq<nat>
  {
    if labels == [] then []
    else if In(Languages(labels[..|labels| - 1]), labels[|labels| - 1]) then FirstSeen(labels[..|labels| - 1])
    else FirstSeen(labels[..|labels| - 1]) + [|labels| - 1]
  }

  /**
   * The list keeps first-seen order: the k-th listed label was seen at
   * position FirstSeen(labels)[k], these positions increase, and the label
   * occurs nowhere before that position.
   */
  lemma {:induction false} LanguagesFirstSeenOrder(labels: seq<string>)
    ensures |FirstSeen(labels)| == |Languages(labels)|
    ensures forall k :: 0 <= k < |FirstSeen(labels)| ==>
      FirstSeen(labels)[k] < |labels| && labels[FirstSeen(labels)[k]] == Languages(labels)[k]
    ensures forall k, l :: 0 <= k < l < |FirstSeen(labels)| ==> FirstSeen(labels)[k] < FirstSeen(labels)[l]
    ensures forall k, j :: 0 <= k < |FirstSeen(labels)| && 0 <= j < FirstSeen(labels)[k] ==>
      labels[j] != Languages(labels)[k]
  {
    if labels != [] {
      var init := labels[..|labels| - 1];
      var last := labels[|labels| - 1];
      LanguagesFirstSeenOrder(init);
      var prev := Languages(init);
      var pos := FirstSeen(init);
      forall k | 0 <= k < |pos| ensures labels[pos[k]] == prev[k] {
        assert labels[pos[k]] == init[pos[k]];
      }
      if !In(prev, last) {
        // `last` is new: had it been seen before, the list would already cover it.
        forall j | 0 <= j < |labels| - 1 ensures labels[j] != last {
          LanguagesCover(init);
          assert labels[j] == init[j];
        }
        forall k, j | 0 <= k < |pos| && 0 <= j < pos[k] ensures labels[j] != prev[k] {
          assert labels[j] == init[j];
        }
      } else {
        forall k, j | 0 <= k < |pos| && 0 <= j < pos[k] ensures labels[j] != prev[k] {
          assert labels[j] == init[j];
        }
      }
    }
  }

  /** A label that contains a listed one is suppressed, so the list depends on the order labels are seen in. */
  lemma JavaScriptAfterJava()
    ensures Languages(["Java", "JavaScript"]) == ["Java"]
    ensures Languages(["JavaScript", "Java"]) == ["JavaScript", "Java"]
  {
    assert Contains("JavaScript", "Java") by {
      assert "JavaScript"[..4] == "Java";
    }
    assert ["Java", "JavaScript"][..1] == ["Java"];
    assert ["JavaScript", "Java"][..1] == ["JavaScript"];
  }

  /** A seen label that contains no other seen label is listed itself. */
  lemma {:induction false} ListedWhenUncovered(labels: seq<string>, x: string)
    requires x in labels
    requires forall y :: y in labels && y != x ==> !Contains(x, y)
    ensures x in Languages(labels)
  {
    var init := labels[..|labels| - 1];
    var prev := Languages(init);
    forall y | y in init ensures y in labels {
    }
    if x in init {
      ListedWhenUncovered(init, x);
    } else {
      LanguagesSpread(init);
      forall i | 0 <= i < |prev| ensures x != prev[i] && !Contains(x, prev[i]) {
        assert prev[i] in init;
      }
    }
  }

  /**
   * "Unknown" is a label like any other: once seen it is covered by the list,
   * and it is listed itself unless some other seen label is contained in it.
   */
  lemma UnknownIsListed(labels: seq<string>)
    requires "Unknown" in labels
    ensures In(Languages(labels), "Unknown")
    ensures (forall y :: y in labels && y != "Unknown" ==> !Contains("Unknown", y)) ==> "Unknown" in Languages(labels)
  {
    LanguagesCover(labels);
    if forall y :: y in labels && y != "Unknown" ==> !Contains("Unknown", y) {
      ListedWhenUncovered(labels, "Unknown");
    }
  }

  /** The files retrieveFromDir visits: those whose path contains `dir`, in tree order. */
  function Kept(tree: seq<TreeFile>, dir: string): seq<TreeFile>
  {
    if tree == [] then []
    else Kept(tree[..|tree| - 1], dir) + (if Contains(tree[|tree| - 1].name, dir) then [tree[|tree| - 1]] else [])
  }

  /** Kept is the order-preserving selection of files whose path contains `dir`. */
  lemma {:induction false} KeptSplit(a: seq<TreeFile>, b: seq<TreeFile>, dir: string)
    ensures Kept(a + b, dir) == Kept(a, dir) + Kept(b, dir)
    decreases |b|
  {
    if b == [] {
      assert a + b == a;
    } else {
      var b' := b[..|b| - 1];
      assert (a + b)[..|a + b| - 1] == a + b';
      KeptSplit(a, b', dir);
    }
  }

  lemma {:induction false} KeptIff(tree: seq<TreeFile>, dir: string, f: TreeFile)
    ensures f in Kept(tree, dir) <==> f in tree && Contains(f.name, dir)
  {
    if tree != [] {
      var init := tree[..|tree| - 1];
      KeptIff(init, dir, f);
      assert tree == init + [tree[|tree| - 1]];
    }
  }

  /** The path part of a directory-mode name: the path after its first "/". */
  function Relative(path: string): string
  {
    AfterFirst(path, '/')
  }

  /** The two walks: over the whole tree, or over the files whose path contains `dir`. */
  datatype Mode = Root | Dir(dir: string)

  /** An entry's Name: the path itself, or in directory mode the path after its first "/". */
  function EntryName(mode: Mode, f: TreeFile): string
  {
    if mode.Root? then f.name else Relative(f.name)
  }

  /** An entry's URL: the blob link of the file at the base commit, under `dir` in directory mode. */
  function EntryLink(url: string, hash: string, mode: Mode, f: TreeFile): string
  {
    match mode
    case Root => url + "/blob/" + hash + "/" + f.name
    case Dir(dir) => url + "/blob/" + hash + "/" + dir + "/" + Relative(f.name)
  }

  /** The entry a walk builds for a file; Type, OutputPolicy and AppliedPolicy start empty and Config false. */
  function Entry(url: string, hash: string, mode: Mode, lang: Linguist, f: TreeFile, reader: BlobReader): File
  {
    File(f.hash, EntryName(mode, f), "", EntryLink(url, hash, mode, f), false, Classify(lang, f), "", "", Data(f), reader)
  }

  /** What a walk returns besides its error: entries, file count, language list, unknown list. */
  datatype Walked = Walked(coll: seq<File>, count: int, langs: seq<string>, unknown: seq<string>)

  /** The walk stopped at the first visited file whose blob could not be read and reports that file's error. */
  ghost predicate StoppedAt(files: seq<TreeFile>, e: string)
  {
    exists i :: 0 <= i < |files| && files[i].blob == Err(e) && forall j :: 0 <= j < i ==> files[j].blob.Ok?
  }

  /** The count and the two lists of a walk that visited `files`. */
  predicate Summarises(w: Walked, lang: Linguist, files: seq<TreeFile>)
  {
    && w.count == |w.coll| == |files|
    && w.langs == Languages(Labels(lang, files))
    && w.unknown == UnknownOf(lang, files)
  }

  /** Each entry holds its own stream, not yet read, of its file's blob. */
  ghost predicate OwnStreams(coll: seq<File>, files: seq<TreeFile>)
    reads set i | 0 <= i < |coll| :: coll[i].reader
  {
    && |coll| == |files|
    && (forall i :: 0 <= i < |coll| ==> coll[i].reader.unread == Data(files[i]))
    && (forall i, j :: 0 <= i < j < |coll| ==> coll[i].reader != coll[j].reader)
  }

  /**
   * `w` is what a walk in `mode` returns after visiting `files`, all readable:
   * one entry per file in visiting order, each with its own unread stream, and
   * the count and lists those files give.
   */
  ghost predicate WalkedOver(w: Walked, url: string, hash: string, mode: Mode, lang: Linguist, files: seq<TreeFile>)
    reads set i | 0 <= i < |w.coll| :: w.coll[i].reader
  {
    && (forall k :: 0 <= k < |files| ==> files[k].blob.Ok?)
    && Summarises(w, lang, files)
    && OwnStreams(w.coll, files)
    && (forall k :: 0 <= k < |w.coll| ==> w.coll[k] == Entry(url, hash, mode, lang, files[k], w.coll[k].reader))
  }

  /**
   * `next` is `w` after the callback visited readable file `f`: one more entry,
   * named `name` at `link`, holding a stream of the whole blob; the count one
   * higher; the label added unless covered; the path noted if unrecognised.
   */
  ghost predicate Extends(w: Walked, next: Walked, lang: Linguist, f: TreeFile, name: string, link: string)
    reads set i | 0 <= i < |next.coll| :: next.coll[i].reader
  {
    && |next.coll| == |w.coll| + 1 && next.coll[..|w.coll|] == w.coll
    && next.coll[|w.coll|] == File(f.hash, name, "", link, false, Classify(lang, f), "", "", Data(f), next.coll[|w.coll|].reader)
    && next.coll[|w.coll|].reader.unread == Data(f)
    && next.count == w.count + 1
    && next.langs == AddLabel(w.langs, Classify(lang, f))
    && next.unknown == w.unknown + (if Unrecognised(lang, f) then [f.name] else [])
  }

  /**
   * The ForEach callback for one readable file: a fresh stream of its blob, its
   * label by path, else by content, else "Unknown" (noting the path), the label
   * added to the list unless util.In says it is covered, and the entry.
   */
  method Visit(w: Walked, lang: Linguist, f: TreeFile, name: string, link: string) returns (next: Walked)
    requires f.blob.Ok?
    ensures Extends(w, next, lang, f, name, link)
    ensures |next.coll| == |w.coll| + 1 && fresh(next.coll[|w.coll|].reader)
  {
    var reader := new BlobReader(f.blob.value);
    var content := f.blob.value;
    var unknown := w.unknown;
    var ext := lang.byExtension(f.name);
    if ext == "" {
      ext := lang.byContent(f.name, content);
      if ext == "" {
        unknown := unknown + [f.name];
        ext := "Unknown";
      }
    }
    var langs := w.langs;
    var covered := Scan(langs, ext);
    if !covered {
      langs := langs + [ext];
    }
    var entry := File(f.hash, name, "", link, false, ext, "", "", content, reader);
    next := Walked(w.coll + [entry], w.count + 1, langs, unknown);
    assert next.coll[..|w.coll|] == w.coll;
  }

  /** A visit with the entry's own name and link, and a stream no other entry holds, extends the walk by one file. */
  lemma VisitStep(w: Walked, next: Walked, url: string, hash: string, mode: Mode, lang: Linguist,
                  files: seq<TreeFile>, f: TreeFile, files': seq<TreeFile>)
    requires files' == files + [f] && f.blob.Ok?
    requires WalkedOver(w, url, hash, mode, lang, files)
    requires Extends(w, next, lang, f, EntryName(mode, f), EntryLink(url, hash, mode, f))
    requires forall j :: 0 <= j < |w.coll| ==> w.coll[j].reader != next.coll[|w.coll|].reader
    ensures WalkedOver(next, url, hash, mode, lang, files')
  {
    SummaryStep(w, next, lang, files, f, files');
    EntriesStep(w, next, url, hash, mode, lang, files, f, files');
  }

  /** The count and both lists follow the visited files one file further. */
  lemma SummaryStep(w: Walked, next: Walked, lang: Linguist, files: seq<TreeFile>, f: TreeFile, files': seq<TreeFile>)
    requires files' == files + [f]
    requires Summarises(w, lang, files)
    requires |next.coll| == |w.coll| + 1 && next.count == w.count + 1
    requires next.langs == AddLabel(w.langs, Classify(lang, f))
    requires next.unknown == w.unknown + (if Unrecognised(lang, f) then [f.name] else [])
    ensures Summarises(next, lang, files')
  {
    assert files'[..|files|] == files;
    assert Labels(lang, files')[..|files|] == Labels(lang, files);
  }

  /** The entries and their streams follow the visited files one file further. */
  lemma EntriesStep(w: Walked, next: Walked, url: string, hash: string, mode: Mode, lang: Linguist,
                    files: seq<TreeFile>, f: TreeFile, files': seq<TreeFile>)
    requires files' == files + [f]
    requires OwnStreams(w.coll, files)
    requires forall k :: 0 <= k < |w.coll| ==> w.coll[k] == Entry(url, hash, mode, lang, files[k], w.coll[k].reader)
    requires Extends(w, next, lang, f, EntryName(mode, f), EntryLink(url, hash, mode, f))
    requires forall j :: 0 <= j < |w.coll| ==> w.coll[j].reader != next.coll[|w.coll|].reader
    ensures OwnStreams(next.coll, files')
    ensures forall k :: 0 <= k < |next.coll| ==> next.coll[k] == Entry(url, hash, mode, lang, files'[k], next.coll[k].reader)
  {
    forall k | 0 <= k < |w.coll| ensures next.coll[k] == w.coll[k] && files'[k] == files[k] {
    }
  }

  /** A failing file after readable ones is the first failure. */
  lemma FirstFailure(files: seq<TreeFile>, i: nat)
    requires i < |files| && files[i].blob.Err?
    requires forall k :: 0 <= k < |files[..i]| ==> files[..i][k].blob.Ok?
    ensures StoppedAt(files, files[i].blob.error)
  {
    forall k | 0 <= k < i ensures files[k].blob.Ok? {
      assert files[..i][k] == files[k];
    }
  }

  /** The callback retrieveFromRoot hands to ForEach: the blob's error, or the visit. */
  method RootCallback(url: string, hash: string, lang: Linguist, w: Walked, f: TreeFile) returns (r: Result<Walked, string>)
    ensures f.blob.Err? ==> r == Err(f.blob.error)
    ensures f.blob.Ok? ==> r.Ok? && Extends(w, r.value, lang, f, EntryName(Root, f), EntryLink(url, hash, Root, f))
    ensures f.blob.Ok? ==> |r.value.coll| == |w.coll| + 1 && fresh(r.value.coll[|w.coll|].reader)
  {
    if f.blob.Err? {
      return Err(f.blob.error);
    }
    var next := Visit(w, lang, f, f.name, url + "/blob/" + hash + "/" + f.name);
    return Ok(next);
  }

  /** One ForEach round of retrieveFromRoot, on tree file `i`: the first failure, or the walk one file further. */
  method RootRound(url: string, hash: string, lang: Linguist, tree: seq<TreeFile>, i: nat, w: Walked)
    returns (r: Result<Walked, string>)
    requires i < |tree| && WalkedOver(w, url, hash, Root, lang, tree[..i])
    ensures r.Err? ==> tree[i].blob.Err? && StoppedAt(tree, r.error)
    ensures r.Ok? ==> WalkedOver(r.value, url, hash, Root, lang, tree[..i + 1])
  {
    r := RootCallback(url, hash, lang, w, tree[i]);
    if r.Err? {
      FirstFailure(tree, i);
      return;
    }
    assert tree[..i + 1] == tree[..i] + [tree[i]];
    VisitStep(w, r.value, url, hash, Root, lang, tree[..i], tree[i], tree[..i + 1]);
  }

  /** retrieveFromRoot: one entry per tree file, in tree order, or the first read error and nothing else. */
  method RetrieveFromRoot(url: string, hash: string, tree: seq<TreeFile>, lang: Linguist)
    returns (r: Result<Walked, string>)
    ensures r.Err? <==> exists i :: 0 <= i < |tree| && tree[i].blob.Err?
    ensures r.Err? ==> StoppedAt(tree, r.error)
    ensures r.Ok? ==> WalkedOver(r.value, url, hash, Root, lang, tree)
  {
    var w := Walked([], 0, [], []);
    var i := 0;
    while i < |tree|
      invariant 0 <= i <= |tree| && WalkedOver(w, url, hash, Root, lang, tree[..i])
    {
      var res := RootRound(url, hash, lang, tree, i, w);
      if res.Err? {
        return res;
      }
      w := res.value;
      i := i + 1;
    }
    assert tree[..i] == tree;
    return Ok(w);
  }

  /** The callback retrieveFromDir hands to ForEach: files outside `dir` are passed over. */
  method DirCallback(url: string, hash: string, dir: string, lang: Linguist, w: Walked, f: TreeFile)
    returns (r: Result<Walked, string>)
    ensures !Contains(f.name, dir) ==> r == Ok(w)
    ensures Contains(f.name, dir) && f.blob.Err? ==> r == Err(f.blob.error)
    ensures Contains(f.name, dir) && f.blob.Ok? ==>
      r.Ok? && Extends(w, r.value, lang, f, EntryName(Dir(dir), f), EntryLink(url, hash, Dir(dir), f))
    ensures Contains(f.name, dir) && f.blob.Ok? ==> |r.value.coll| == |w.coll| + 1 && fresh(r.value.coll[|w.coll|].reader)
  {
    if !Contains(f.name, dir) {
      return Ok(w);
    }
    if f.blob.Err? {
      return Err(f.blob.error);
    }
    var name := Relative(f.name);
    var next := Visit(w, lang, f, name, url + "/blob/" + hash + "/" + dir + "/" + name);
    return Ok(next);
  }

  /** One ForEach step of retrieveFromDir keeps the walk in step with the kept files. */
  lemma DirStep(w: Walked, next: Walked, url: string, hash: string, dir: string, lang: Linguist, tree: seq<TreeFile>, i: nat)
    requires i < |tree|
    requires WalkedOver(w, url, hash, Dir(dir), lang, Kept(tree[..i], dir))
    requires !Contains(tree[i].name, dir) ==> next == w
    requires Contains(tree[i].name, dir) ==> tree[i].blob.Ok?
    requires Contains(tree[i].name, dir) ==>
      && Extends(w, next, lang, tree[i], EntryName(Dir(dir), tree[i]), EntryLink(url, hash, Dir(dir), tree[i]))
      && forall j :: 0 <= j < |w.coll| ==> w.coll[j].reader != next.coll[|w.coll|].reader
    ensures WalkedOver(next, url, hash, Dir(dir), lang, Kept(tree[..i + 1], dir))
  {
    KeptStep(tree, dir, i);
    if Contains(tree[i].name, dir) {
      VisitStep(w, next, url, hash, Dir(dir), lang, Kept(tree[..i], dir), tree[i], Kept(tree[..i + 1], dir));
    } else {
      assert Kept(tree[..i], dir) + [] == Kept(tree[..i], dir);
    }
  }

  /** One ForEach round of retrieveFromDir, on tree file `i`: the first failure among the kept files, or the walk one file further. */
  method DirRound(url: string, hash: string, dir: string, lang: Linguist, tree: seq<TreeFile>, i: nat, w: Walked)
    returns (r: Result<Walked, string>)
    requires i < |tree| && WalkedOver(w, url, hash, Dir(dir), lang, Kept(tree[..i], dir))
    ensures r.Err? ==> Contains(tree[i].name, dir) && tree[i].blob.Err? && StoppedAt(Kept(tree, dir), r.error)
    ensures r.Ok? ==> WalkedOver(r.value, url, hash, Dir(dir), lang, Kept(tree[..i + 1], dir))
  {
    r := DirCallback(url, hash, dir, lang, w, tree[i]);
    if r.Err? {
      KeptBlobs(tree, dir, i);
      return;
    }
    DirStep(w, r.value, url, hash, dir, lang, tree, i);
  }

  /**
   * retrieveFromDir: one entry per tree file whose path contains `dir`, in
   * tree order, named relative to the first "/" of its path; or the first
   * read error among those files and nothing else.
   */
  method RetrieveFromDir(url: string, hash: string, dir: string, tree: seq<TreeFile>, lang: Linguist)
    returns (r: Result<Walked, string>)
    ensures r.Err? <==> exists i :: 0 <= i < |tree| && Contains(tree[i].name, dir) && tree[i].blob.Err?
    ensures r.Err? ==> StoppedAt(Kept(tree, dir), r.error)
    ensures r.Ok? ==> WalkedOver(r.value, url, hash, Dir(dir), lang, Kept(tree, dir))
  {
    var w := Walked([], 0, [], []);
    var i := 0;
    while i < |tree|
      invariant 0 <= i <= |tree| && WalkedOver(w, url, hash, Dir(dir), lang, Kept(tree[..i], dir))
    {
      var res := DirRound(url, hash, dir, lang, tree, i, w);
      if res.Err? {
        return res;
      }
      w := res.value;
      i := i + 1;
    }
    assert tree[..i] == tree;
    KeptAllRead(tree, dir);
    return Ok(w);
  }

  /** Visiting one more tree file extends the kept files by it exactly when its path contains `dir`. */
  lemma KeptStep(tree: seq<TreeFile>, dir: string, i: nat)
    requires i < |tree|
    ensures Kept(tree[..i + 1], dir) == Kept(tree[..i], dir) + (if Contains(tree[i].name, dir) then [tree[i]] else [])
  {
    assert tree[..i + 1][..i] == tree[..i];
  }

  /** The failing file at `i` is the first failing file among those kept. */
  lemma KeptBlobs(tree: seq<TreeFile>, dir: string, i: nat)
    requires i < |tree| && Contains(tree[i].name, dir) && tree[i].blob.Err?
    requires forall k :: 0 <= k < |Kept(tree[..i], dir)| ==> Kept(tree[..i], dir)[k].blob.Ok?
    ensures StoppedAt(Kept(tree, dir), tree[i].blob.error)
  {
    var before := Kept(tree[..i], dir);
    assert tree[..i + 1] == tree[..i] + [tree[i]];
    KeptSplit(tree[..i + 1], tree[i + 1..], dir);
    assert tree == tree[..i + 1] + tree[i + 1..];
    assert Kept(tree[..i + 1], dir) == before + [tree[i]];
    assert Kept(tree, dir)[|before|] == tree[i];
  }

  /** When every kept file could be read, no file whose path contains `dir` failed. */
  lemma KeptAllRead(tree: seq<TreeFile>, dir: string)
    requires forall k :: 0 <= k < |Kept(tree, dir)| ==> Kept(tree, dir)[k].blob.Ok?
    ensures !exists i :: 0 <= i < |tree| && Contains(tree[i].name, dir) && tree[i].blob.Err?
  {
    forall i | 0 <= i < |tree| && Contains(tree[i].name, dir) ensures tree[i].blob.Ok? {
      KeptIff(tree, dir, tree[i]);
    }
  }
}
