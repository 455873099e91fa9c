/**
 * findPolicyFromRoot, findPolicyFromDir and the end of GetGitCollection in
 * internal/crud/git.go: which `.rego` file of the commit tree becomes the
 * collection's policy, and how the walk and that search make a collection.
 */
module GitPolicy {
  import opened Wrappers
  import opened Strings
  import opened Foreign
  import opened GitTypes
  import opened GitWalk

  /** What a policy search leaves in its named results `name`, `content` and `err`. */
  datatype Found = Found(name: string, content: string, err: Option<string>)

  /** The results before any file matched: all zero. */
  const NothingFound := Found("", "", None)

  /** A file the search in `dir` stops at: its path contains `dir` and ".rego". */
  predicate Candidate(f: TreeFile, dir: string)
  {
    Contains(f.name, dir) && Contains(f.name, ".rego")
  }

  /** What matching `f` writes: its path, and what f.Contents() returns ("" with the error, on failure). */
  function Take(f: TreeFile): (found: Found)
    ensures found.err.None? <==> f.blob.Ok?
    ensures found.content == Data(f) && found.name == f.name
  {
    Found(f.name, Data(f), if f.blob.Err? then Some(f.blob.error) else None)
  }

  /** The reference reading of the search: look at the tree from its end and take the first candidate. */
  function LastCandidate(tree: seq<TreeFile>, dir: string): Found
  {
    if tree == [] then NothingFound
    else if Candidate(tree[|tree| - 1], dir) then Take(tree[|tree| - 1])
    else LastCandidate(tree[..|tree| - 1], dir)
  }

  /**
   * The search finds nothing exactly when no file is a candidate; otherwise it
   * yields the last candidate in tree order, whatever came before it. In
   * particular an earlier candidate's read error is forgotten once a later
   * candidate is read.
   */
  lemma {:induction false} LastCandidateIsLast(tree: seq<TreeFile>, dir: string)
    ensures LastCandidate(tree, dir) == NothingFound <==> forall i :: 0 <= i < |tree| ==> !Candidate(tree[i], dir)
    ensures forall k :: 0 <= k < |tree| && Candidate(tree[k], dir) && (forall j :: k < j < |tree| ==> !Candidate(tree[j], dir)) ==>
      LastCandidate(tree, dir) == Take(tree[k])
  {
    NothingFoundIff(tree, dir);
    forall k | 0 <= k < |tree| && Candidate(tree[k], dir) && (forall j :: k < j < |tree| ==> !Candidate(tree[j], dir))
      ensures LastCandidate(tree, dir) == Take(tree[k])
    {
      TakesLast(tree, dir, k);
    }
  }

  lemma {:induction false} NothingFoundIff(tree: seq<TreeFile>, dir: string)
    ensures LastCandidate(tree, dir) == NothingFound <==> forall i :: 0 <= i < |tree| ==> !Candidate(tree[i], dir)
  {
    if tree != [] {
      var init := tree[..|tree| - 1];
      NothingFoundIff(init, dir);
      var last := tree[|tree| - 1];
      if Candidate(last, dir) {
        ContainsNotLonger(last.name, ".rego");
        assert Take(last).name != "";
      } else {
        forall i | 0 <= i < |init| ensures init[i] == tree[i] {
        }
      }
    }
  }

  lemma {:induction false} TakesLast(tree: seq<TreeFile>, dir: string, k: nat)
    requires k < |tree| && Candidate(tree[k], dir)
    requires forall j :: k < j < |tree| ==> !Candidate(tree[j], dir)
    ensures LastCandidate(tree, dir) == Take(tree[k])
    decreases |tree|
  {
    if k < |tree| - 1 {
      var init := tree[..|tree| - 1];
      assert init[k] == tree[k];
      forall j | k < j < |init| ensures !Candidate(init[j], dir) {
        assert init[j] == tree[j];
      }
      TakesLast(init, dir, k);
    }
  }

  /** At the root every path qualifies, so the root search is the search in directory "". */
  lemma RootCandidate(f: TreeFile)
    ensures Candidate(f, "") <==> Contains(f.name, ".rego")
  {
    ContainsSelfAndEmpty(f.name);
  }

  /** A candidate overwrites whatever an earlier match left. */
  lemma LastCandidateStep(tree: seq<TreeFile>, dir: string, i: nat)
    requires i < |tree|
    ensures LastCandidate(tree[..i + 1], dir) == if Candidate(tree[i], dir) then Take(tree[i]) else LastCandidate(tree[..i], dir)
  {
    assert tree[..i + 1][..i] == tree[..i];
  }

  /** findPolicyFromDir: ForEach over the tree, overwriting the results at every candidate, never stopping early. */
  method FindPolicyFromDir(dir: string, tree: seq<TreeFile>) returns (name: string, content: string, err: Option<string>)
    ensures Found(name, content, err) == LastCandidate(tree, dir)
  {
    name, content, err := "", "", None;
    var i := 0;
    while i < |tree|
      invariant 0 <= i <= |tree|
      invariant Found(name, content, err) == LastCandidate(tree[..i], dir)
    {
      var f := tree[i];
      if Contains(f.name, dir) {
        if Contains(f.name, ".rego") {
          content := Data(f);
          err := if f.blob.Err? then Some(f.blob.error) else None;
          name := f.name;
        }
      }
      LastCandidateStep(tree, dir, i);
      i := i + 1;
    }
    assert tree[..i] == tree;
  }

  /** findPolicyFromRoot: the same search with only the ".rego" test. */
  method FindPolicyFromRoot(tree: seq<TreeFile>) returns (name: string, content: string, err: Option<string>)
    ensures Found(name, content, err) == LastCandidate(tree, "")
  {
    name, content, err := "", "", None;
    var i := 0;
    while i < |tree|
      invariant 0 <= i <= |tree|
      invariant Found(name, content, err) == LastCandidate(tree[..i], "")
    {
      var f := tree[i];
      if Contains(f.name, ".rego") {
        content := Data(f);
        err := if f.blob.Err? then Some(f.blob.error) else None;
        name := f.name;
      }
      RootCandidate(f);
      LastCandidateStep(tree, "", i);
      i := i + 1;
    }
    assert tree[..i] == tree;
  }

  /** The collection's Policy: set only when the search found both a name and some content. */
  function PolicyOf(found: Found): (p: Option<PolicyFile>)
    ensures p.Some? <==> found.name != "" && found.content != ""
    ensures p.Some? ==> p.value == PolicyFile(found.name, found.content)
  {
    if found.name != "" && found.content != "" then Some(PolicyFile(found.name, found.content)) else None
  }

  /** The walk GetGitCollection runs: over the root when `dir` is empty, over `dir` otherwise. */
  function ModeOf(dir: string): Mode
  {
    if dir == "" then Root else Dir(dir)
  }

  /** BaseDir: `dir`, or "/" for the root. */
  function BaseDirOf(dir: string): (d: string)
    ensures d != ""
    ensures dir != "" ==> d == dir
    ensures dir == "" ==> d == "/"
  {
    if dir == "" then "/" else dir
  }

  /** Some file the walk visits cannot be read. */
  predicate WalkFails(tree: seq<TreeFile>, dir: string)
  {
    exists i :: 0 <= i < |tree| && Contains(tree[i].name, dir) && tree[i].blob.Err?
  }

  /** Every path contains "", so the root walk visits every file. */
  lemma {:induction false} KeptEverything(tree: seq<TreeFile>)
    ensures Kept(tree, "") == tree
    ensures forall i :: 0 <= i < |tree| ==> Contains(tree[i].name, "")
  {
    if tree != [] {
      KeptEverything(tree[..|tree| - 1]);
      ContainsSelfAndEmpty(tree[|tree| - 1].name);
      forall i | 0 <= i < |tree| - 1 ensures tree[..|tree| - 1][i] == tree[i] {
      }
    }
  }

  /** The two ways GetGitCollection fails, with the cause each wraps. */
  datatype CollectError =
    | ListingFiles(cause: string)     // "retrieving list of files"
    | SearchingPolicy(cause: string)  // "searching a .rego file"

  /** The walk GetGitCollection picks: retrieveFromDir for a directory, retrieveFromRoot otherwise. */
  method ListFiles(url: string, hash: string, dir: string, tree: seq<TreeFile>, lang: Linguist)
    returns (r: Result<Walked, string>)
    ensures r.Err? <==> WalkFails(tree, dir)
    ensures r.Err? ==> StoppedAt(Kept(tree, dir), r.error)
    ensures r.Ok? ==> WalkedOver(r.value, url, hash, ModeOf(dir), lang, Kept(tree, dir))
  {
    if dir != "" {
      r := RetrieveFromDir(url, hash, dir, tree, lang);
    } else {
      r := RetrieveFromRoot(url, hash, tree, lang);
      KeptEverything(tree);
    }
  }

  /** The search GetGitCollection picks: findPolicyFromDir for a directory, findPolicyFromRoot otherwise. */
  method SearchPolicy(dir: string, tree: seq<TreeFile>) returns (found: Found)
    ensures found == LastCandidate(tree, dir)
  {
    var name, content, err;
    if dir != "" {
      name, content, err := FindPolicyFromDir(dir, tree);
    } else {
      name, content, err := FindPolicyFromRoot(tree);
    }
    return Found(name, content, err);
  }

  /**
   * The walk and the policy search of GetGitCollection (git.go:127-160), given
   * the commit tree the repository resolved to and its hash. A walk error comes
   * first; then the search's error; otherwise the collection with its base
   * fields, the walk's results and the policy. Both branches of the source
   * walk first and search second, so the choice of walk and of search is made
   * in ListFiles and SearchPolicy.
   */
  method GetGitCollection(url: string, hash: string, dir: string, tree: seq<TreeFile>, lang: Linguist)
    returns (r: Result<GitCollection, CollectError>)
    ensures r.Err? && r.error.ListingFiles? <==> WalkFails(tree, dir)
    ensures r.Err? && r.error.ListingFiles? ==> StoppedAt(Kept(tree, dir), r.error.cause)
    ensures r.Err? && r.error.SearchingPolicy? <==> !WalkFails(tree, dir) && LastCandidate(tree, dir).err.Some?
    ensures r.Err? && r.error.SearchingPolicy? ==> r.error.cause == LastCandidate(tree, dir).err.value
    ensures r.Ok? ==>
      && r.value.baseURL == url && r.value.baseHash == hash && r.value.baseDir == BaseDirOf(dir)
      && r.value.policy == PolicyOf(LastCandidate(tree, dir))
      && WalkedOver(Walked(r.value.coll, r.value.fileCount, r.value.languages, r.value.unknownLanguages),
                    url, hash, ModeOf(dir), lang, Kept(tree, dir))
  {
    var walked := ListFiles(url, hash, dir, tree, lang);
    if walked.Err? {
      return Err(ListingFiles(walked.error));
    }
    var found := SearchPolicy(dir, tree);
    if found.err.Some? {
      return Err(SearchingPolicy(found.err.value));
    }
    var w := walked.value;
    var policy := if found.name != "" && found.content != "" then Some(PolicyFile(found.name, found.content)) else None;
    return Ok(GitCollection(url, hash, BaseDirOf(dir), w.count, w.langs, w.unknown, policy, w.coll));
  }

  /**
   * The search's error path cannot be taken: a candidate's path contains `dir`,
   * so the walk has already read it, and a successful walk leaves the search
   * nothing to fail on.
   */
  lemma {:induction false} SearchNeverFailsAfterWalk(tree: seq<TreeFile>, dir: string)
    requires !WalkFails(tree, dir)
    ensures LastCandidate(tree, dir).err.None?
  {
    if tree != [] {
      var init := tree[..|tree| - 1];
      assert !WalkFails(init, dir) by {
        forall i | 0 <= i < |init| ensures init[i] == tree[i] {
        }
      }
      SearchNeverFailsAfterWalk(init, dir);
    }
  }

  /** A collection carries a policy exactly when some candidate exists and the last one has content. */
  lemma PolicyIsLastCandidate(tree: seq<TreeFile>, dir: string, k: nat)
    requires k < |tree| && Candidate(tree[k], dir)
    requires forall j :: k < j < |tree| ==> !Candidate(tree[j], dir)
    ensures PolicyOf(LastCandidate(tree, dir)).Some? <==> Data(tree[k]) != ""
    ensures PolicyOf(LastCandidate(tree, dir)).Some? ==> PolicyOf(LastCandidate(tree, dir)).value == PolicyFile(tree[k].name, Data(tree[k]))
  {
    LastCandidateIsLast(tree, dir);
    ContainsNotLonger(tree[k].name, ".rego");
  }

  /** With no candidate there is no policy. */
  lemma NoCandidateNoPolicy(tree: seq<TreeFile>, dir: string)
    requires forall i :: 0 <= i < |tree| ==> !Candidate(tree[i], dir)
    ensures PolicyOf(LastCandidate(tree, dir)) == None
  {
    LastCandidateIsLast(tree, dir);
  }
}
