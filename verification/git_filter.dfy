/**
 * GitCollection.Filter of internal/crud/git.go: for every entry and every
 * rule, match the rule's regexp against the entry's name, resolve a policy,
 * normalise the entry to JSON and evaluate the policy on it; keep the entry,
 * labelled with the rule, when the evaluation yields a result. Normalising
 * reads the entry's stream, which every copy of the entry shares.
 */
module GitFilter {
  import opened Wrappers
  import opened Strings
  import opened Conv
  import opened Foreign
  import opened GitTypes

  /** What OPA's Eval returned: how many result sets, and the "key: value" line the last one formats, if any. */
  datatype Evaluation = Evaluation(resultSets: nat, summary: Option<string>)

  /**
   * The collaborators of Filter: the regexp package, the HTTP download of a
   * policy URL, reading the bundled default policy file, the converters of
   * util.ToJSON, and rego evaluation of (module name, policy, input).
   */
  datatype Env = Env(
    re: Regexps,
    download: string -> Result<string, string>,
    defaultPolicy: Result<string, string>,
    conv: Converters,
    eval: (string, string, JsonBytes) -> Result<Evaluation, string>)

  datatype FilterError =
    | InvalidRegexp(rule: string)                 // "invalid %s regexp"
    | PolicyFetch(url: string, cause: string)     // "retrieving policy file from %s"
    | DefaultPolicyUnreadable(cause: string)      // "reading default policy file"
    | Converting(file: string, failure: ConvError)  // "converting %s file to json"
    | Evaluating(file: string, cause: string)     // "evaluating a query of a %s"

  /** AppliedPolicy when the bundled default policy is used. */
  const NotFound := "not found"

  /** getPolicyFromURL: the response body, where an empty body is an error too. */
  function GetPolicyFromURL(download: string -> Result<string, string>, url: string): (r: Result<string, string>)
    ensures r.Ok? <==> download(url).Ok? && download(url).value != ""
    ensures r.Ok? ==> r.value == download(url).value && r.value != ""
  {
    match download(url)
    case Err(e) => Err(e)
    case Ok(body) => if body == "" then Err("no bytes copied from response") else Ok(body)
  }

  /** The policy text a rule is evaluated against, and what AppliedPolicy records about it. */
  datatype Resolved = Resolved(policy: string, applied: string)

  /** Policy resolution: the rule's URL, else the repository's policy, else the bundled default. */
  function ResolvePolicy(env: Env, repo: Option<PolicyFile>, conf: Config): Result<Resolved, FilterError>
  {
    if conf.policyURL != "" then
      match GetPolicyFromURL(env.download, conf.policyURL)
      case Err(e) => Err(PolicyFetch(conf.policyURL, e))
      case Ok(policy) => Ok(Resolved(policy, conf.policyURL))
    else if repo.Some? then Ok(Resolved(repo.value.content, repo.value.name))
    else
      match env.defaultPolicy
      case Err(e) => Err(DefaultPolicyUnreadable(e))
      case Ok(policy) => Ok(Resolved(policy, NotFound))
  }

  /**
   * The precedence: a rule URL wins and is what AppliedPolicy names; the
   * repository policy is used only for rules without a URL; the default file
   * is read only when there is neither, and is then recorded as "not found".
   */
  lemma PolicyPrecedence(env: Env, repo: Option<PolicyFile>, conf: Config)
    ensures conf.policyURL != "" ==>
      (ResolvePolicy(env, repo, conf).Ok? <==> env.download(conf.policyURL).Ok? && env.download(conf.policyURL).value != "")
    ensures conf.policyURL != "" && ResolvePolicy(env, repo, conf).Ok? ==>
      ResolvePolicy(env, repo, conf).value == Resolved(env.download(conf.policyURL).value, conf.policyURL)
    ensures conf.policyURL == "" && repo.Some? ==> ResolvePolicy(env, repo, conf) == Ok(Resolved(repo.value.content, repo.value.name))
    ensures ResolvePolicy(env, repo, conf).Err? && ResolvePolicy(env, repo, conf).error.DefaultPolicyUnreadable? <==>
      conf.policyURL == "" && repo.None? && env.defaultPolicy.Err?
    ensures conf.policyURL == "" && repo.None? && env.defaultPolicy.Ok? ==>
      ResolvePolicy(env, repo, conf) == Ok(Resolved(env.defaultPolicy.value, NotFound))
    ensures conf.policyURL == "" && repo.None? && env.defaultPolicy.Err? ==>
      ResolvePolicy(env, repo, conf) == Err(DefaultPolicyUnreadable(env.defaultPolicy.error))
    ensures ResolvePolicy(env, repo, conf).Ok? && ResolvePolicy(env, repo, conf).value.applied == NotFound && conf.policyURL != NotFound ==>
      conf.policyURL == "" && (repo.None? || repo.value.name == NotFound)
  {
  }

  /** The state the loop over rules carries for one entry: the loop copy, the output so far, and every stream's unread bytes. */
  type Streams = map<BlobReader, Bytes>

  datatype Progress = Progress(coll: File, out: seq<File>, streams: Streams)

  /** The rule reaches normalisation for an entry with this name: its regexp compiles and matches, and a policy resolves. */
  predicate Engages(env: Env, repo: Option<PolicyFile>, conf: Config, name: string)
  {
    env.re.compiles(conf.filter) && env.re.matches(conf.filter, name) && ResolvePolicy(env, repo, conf).Ok?
  }

  /** The fields Filter never touches: all but Type, AppliedPolicy and OutputPolicy. */
  predicate SameFile(f: File, g: File)
  {
    f.hash == g.hash && f.name == g.name && f.url == g.url && f.config == g.config
    && f.extension == g.extension && f.content == g.content && f.reader == g.reader
  }

  /** How an appended entry is labelled: the rule's name as Type, and the resolved policy as AppliedPolicy. */
  predicate Stamped(env: Env, repo: Option<PolicyFile>, conf: Config, f: File)
  {
    f.fileType == conf.name && ResolvePolicy(env, repo, conf).Ok? && f.appliedPolicy == ResolvePolicy(env, repo, conf).value.applied
  }

  /**
   * The rule keeps an entry whose stream holds `bytes`: it engages, util.ToJSON
   * converts the bytes, and evaluating the policy on them yields some result set.
   */
  predicate Keeps(env: Env, repo: Option<PolicyFile>, conf: Config, name: string, bytes: Bytes)
  {
    && Engages(env, repo, conf, name)
    && ToJSON(name, Ok(bytes), env.conv).Ok?
    && env.eval(conf.policyURL, ResolvePolicy(env, repo, conf).value.policy, ToJSON(name, Ok(bytes), env.conv).value).Ok?
    && env.eval(conf.policyURL, ResolvePolicy(env, repo, conf).value.policy, ToJSON(name, Ok(bytes), env.conv).value).value.resultSets > 0
  }

  /** The body of the inner loop for one (entry, rule) pair. */
  function RuleStep(env: Env, repo: Option<PolicyFile>, conf: Config, p: Progress): (r: Result<Progress, FilterError>)
    requires p.coll.reader in p.streams
    ensures r.Ok? ==> SameFile(r.value.coll, p.coll)
    ensures r.Ok? && !Engages(env, repo, conf, p.coll.name) ==> r.value.streams == p.streams && r.value.out == p.out
    ensures r.Ok? && Engages(env, repo, conf, p.coll.name) ==> r.value.streams == p.streams[p.coll.reader := []]
    ensures !env.re.compiles(conf.filter) ==> r == Err(InvalidRegexp(conf.name))
    ensures env.re.compiles(conf.filter) && !env.re.matches(conf.filter, p.coll.name) ==> r == Ok(p)
    ensures env.re.compiles(conf.filter) && env.re.matches(conf.filter, p.coll.name) && ResolvePolicy(env, repo, conf).Err? ==>
      r == Err(ResolvePolicy(env, repo, conf).error)
    ensures Engages(env, repo, conf, p.coll.name) && p.streams[p.coll.reader] == [] ==>
      r == Err(Converting(p.coll.name, NoBytesRead(p.coll.name)))
    ensures Engages(env, repo, conf, p.coll.name) && ToJSON(p.coll.name, Ok(p.streams[p.coll.reader]), env.conv).Err?
            && ToJSON(p.coll.name, Ok(p.streams[p.coll.reader]), env.conv).error != UnsupportedFileType ==>
      r == Err(Converting(p.coll.name, ToJSON(p.coll.name, Ok(p.streams[p.coll.reader]), env.conv).error))
    ensures Engages(env, repo, conf, p.coll.name) && p.streams[p.coll.reader] != [] && FormatOf(p.coll.name) == Unsupported ==>
      r.Ok? && r.value.out == p.out
    ensures Engages(env, repo, conf, p.coll.name) && ToJSON(p.coll.name, Ok(p.streams[p.coll.reader]), env.conv).Ok?
            && env.eval(conf.policyURL, ResolvePolicy(env, repo, conf).value.policy, ToJSON(p.coll.name, Ok(p.streams[p.coll.reader]), env.conv).value).Err? ==>
      r == Err(Evaluating(p.coll.name, env.eval(conf.policyURL, ResolvePolicy(env, repo, conf).value.policy,
                                                ToJSON(p.coll.name, Ok(p.streams[p.coll.reader]), env.conv).value).error))
    ensures r.Ok? ==> (r.value.out != p.out <==> Keeps(env, repo, conf, p.coll.name, p.streams[p.coll.reader]))
    ensures r.Ok? && r.value.out != p.out ==>
      && r.value.out == p.out + [r.value.coll]
      && Engages(env, repo, conf, p.coll.name) && FormatOf(p.coll.name) != Unsupported
      && Stamped(env, repo, conf, r.value.coll)
  {
    if !env.re.compiles(conf.filter) then Err(InvalidRegexp(conf.name))
    else if !env.re.matches(conf.filter, p.coll.name) then Ok(p)
    else
      var typed := p.coll.(fileType := conf.name);
      match ResolvePolicy(env, repo, conf)
      case Err(e) => Err(e)
      case Ok(res) =>
        var applied := typed.(appliedPolicy := res.applied);
        var streams := p.streams[p.coll.reader := []];
        match ToJSON(applied.name, Ok(p.streams[p.coll.reader]), env.conv)
        case Err(UnsupportedFileType) => Ok(Progress(applied, p.out, streams))
        case Err(e) => Err(Converting(applied.name, e))
        case Ok(input) =>
          match env.eval(conf.policyURL, res.policy, input)
          case Err(e) => Err(Evaluating(applied.name, e))
          case Ok(ev) =>
            if ev.resultSets == 0 then Ok(Progress(applied, p.out, streams))
            else
              var kept := if ev.summary.Some? then applied.(outputPolicy := ev.summary.value) else applied;
              Ok(Progress(kept, p.out + [kept], streams))
  }

  /** The inner loop: the rules in order, stopping at the first error. */
  function Rules(env: Env, repo: Option<PolicyFile>, confs: seq<Config>, p: Progress): (r: Result<Progress, FilterError>)
    requires p.coll.reader in p.streams
    ensures r.Ok? ==> SameFile(r.value.coll, p.coll) && r.value.streams.Keys == p.streams.Keys
  {
    if confs == [] then Ok(p)
    else
      match Rules(env, repo, confs[..|confs| - 1], p)
      case Err(e) => Err(e)
      case Ok(q) => RuleStep(env, repo, confs[|confs| - 1], q)
  }

  /** What the outer loop has built: the output entries and the streams. */
  datatype Run = Run(out: seq<File>, streams: Streams)

  /** The outer loop: the entries in order, each run through all the rules, stopping at the first error. */
  function Files(env: Env, repo: Option<PolicyFile>, confs: seq<Config>, coll: seq<File>, streams: Streams): (r: Result<Run, FilterError>)
    requires forall i :: 0 <= i < |coll| ==> coll[i].reader in streams
    ensures r.Ok? ==> r.value.streams.Keys == streams.Keys
  {
    if coll == [] then Ok(Run([], streams))
    else
      match Files(env, repo, confs, coll[..|coll| - 1], streams)
      case Err(e) => Err(e)
      case Ok(run) =>
        match Rules(env, repo, confs, Progress(coll[|coll| - 1], run.out, run.streams))
        case Err(e) => Err(e)
        case Ok(q) => Ok(Run(q.out, q.streams))
  }

  /** The collection Filter returns: the base fields copied, the kept entries, everything else zero. */
  function Derived(c: GitCollection, out: seq<File>): (d: GitCollection)
    ensures d.baseURL == c.baseURL && d.baseHash == c.baseHash && d.baseDir == c.baseDir
    ensures d.coll == out && d.fileCount == 0 && d.languages == [] && d.unknownLanguages == [] && d.policy == None
  {
    GitCollection(c.baseURL, c.baseHash, c.baseDir, 0, [], [], None, out)
  }

  /** The streams of a collection's entries. */
  function Readers(coll: seq<File>): set<BlobReader>
  {
    set i | 0 <= i < |coll| :: coll[i].reader
  }

  /** What each stream has left to read. */
  function Unread(readers: set<BlobReader>): Streams
    reads readers
  {
    map r | r in readers :: r.unread
  }

  /** The policy branch of the inner loop: the rule's URL, the repository's policy, or the bundled file. */
  method ChoosePolicy(env: Env, repo: Option<PolicyFile>, conf: Config) returns (r: Result<Resolved, FilterError>)
    ensures r == ResolvePolicy(env, repo, conf)
  {
    if conf.policyURL != "" {
      var fetched := GetPolicyFromURL(env.download, conf.policyURL);
      if fetched.Err? {
        return Err(PolicyFetch(conf.policyURL, fetched.error));
      }
      return Ok(Resolved(fetched.value, conf.policyURL));
    } else if repo.Some? {
      return Ok(Resolved(repo.value.content, repo.value.name));
    }
    if env.defaultPolicy.Err? {
      return Err(DefaultPolicyUnreadable(env.defaultPolicy.error));
    }
    return Ok(Resolved(env.defaultPolicy.value, NotFound));
  }

  /**
   * The body of the inner loop as Filter runs it: the regexp, the policy, then
   * util.ToJSON over the shared stream, then evaluation.
   */
  method Apply(env: Env, repo: Option<PolicyFile>, conf: Config, coll: File, out: seq<File>, ghost readers: set<BlobReader>)
    returns (r: Result<(File, seq<File>), FilterError>)
    requires coll.reader in readers
    modifies coll.reader
    ensures var spec := RuleStep(env, repo, conf, Progress(coll, out, old(Unread(readers))));
      && (r.Ok? <==> spec.Ok?)
      && (r.Err? ==> r.error == spec.error)
      && (r.Ok? ==> spec.value == Progress(r.value.0, r.value.1, Unread(readers)))
  {
    if !env.re.compiles(conf.filter) {
      return Err(InvalidRegexp(conf.name));
    }
    if !env.re.matches(conf.filter, coll.name) {
      return Ok((coll, out));
    }
    var current := coll.(fileType := conf.name);
    var resolved := ChoosePolicy(env, repo, conf);
    if resolved.Err? {
      return Err(resolved.error);
    }
    var policy := resolved.value.policy;
    current := current.(appliedPolicy := resolved.value.applied);
    ghost var before := Unread(readers);
    var bs := coll.reader.ReadAll();
    assert Unread(readers) == before[coll.reader := []];
    var input := ToJSON(current.name, Ok(bs), env.conv);
    if input == Err(UnsupportedFileType) {
      return Ok((current, out));
    }
    if input.Err? {
      return Err(Converting(current.name, input.error));
    }
    var evaluated := env.eval(conf.policyURL, policy, input.value);
    if evaluated.Err? {
      return Err(Evaluating(current.name, evaluated.error));
    }
    if evaluated.value.resultSets != 0 {
      if evaluated.value.summary.Some? {
        current := current.(outputPolicy := evaluated.value.summary.value);
      }
      return Ok((current, out + [current]));
    }
    return Ok((current, out));
  }

  /** An error in a prefix of the rules is the error of all of them. */
  lemma {:induction false} RulesSticky(env: Env, repo: Option<PolicyFile>, confs: seq<Config>, k: nat, p: Progress)
    requires p.coll.reader in p.streams && k <= |confs|
    requires Rules(env, repo, confs[..k], p).Err?
    ensures Rules(env, repo, confs, p) == Rules(env, repo, confs[..k], p)
    decreases |confs|
  {
    if k < |confs| {
      assert confs[..|confs| - 1][..k] == confs[..k];
      RulesSticky(env, repo, confs[..|confs| - 1], k, p);
    } else {
      assert confs[..k] == confs;
    }
  }

  /** An error at some entry is the error of the whole pass. */
  lemma {:induction false} FilesSticky(env: Env, repo: Option<PolicyFile>, confs: seq<Config>, coll: seq<File>, k: nat, streams: Streams)
    requires forall i :: 0 <= i < |coll| ==> coll[i].reader in streams
    requires k <= |coll| && Files(env, repo, confs, coll[..k], streams).Err?
    ensures Files(env, repo, confs, coll, streams) == Files(env, repo, confs, coll[..k], streams)
    decreases |coll|
  {
    if k < |coll| {
      assert coll[..|coll| - 1][..k] == coll[..k];
      FilesSticky(env, repo, confs, coll[..|coll| - 1], k, streams);
    } else {
      assert coll[..k] == coll;
    }
  }

  /** One more rule. */
  lemma RulesStep(env: Env, repo: Option<PolicyFile>, confs: seq<Config>, j: nat, p: Progress)
    requires p.coll.reader in p.streams && j < |confs|
    ensures Rules(env, repo, confs[..j], p).Err? ==> Rules(env, repo, confs[..j + 1], p) == Rules(env, repo, confs[..j], p)
    ensures Rules(env, repo, confs[..j], p).Ok? ==>
      Rules(env, repo, confs[..j + 1], p) == RuleStep(env, repo, confs[j], Rules(env, repo, confs[..j], p).value)
  {
    assert confs[..j + 1][..j] == confs[..j];
  }

  /** One more entry. */
  lemma FilesStep(env: Env, repo: Option<PolicyFile>, confs: seq<Config>, coll: seq<File>, i: nat, streams: Streams)
    requires forall k :: 0 <= k < |coll| ==> coll[k].reader in streams
    requires i < |coll|
    ensures Files(env, repo, confs, coll[..i], streams).Err? ==>
      Files(env, repo, confs, coll[..i + 1], streams) == Files(env, repo, confs, coll[..i], streams)
    ensures Files(env, repo, confs, coll[..i], streams).Ok? ==>
      var run := Files(env, repo, confs, coll[..i], streams).value;
      var q := Rules(env, repo, confs, Progress(coll[i], run.out, run.streams));
      Files(env, repo, confs, coll[..i + 1], streams) == if q.Err? then Err(q.error) else Ok(Run(q.value.out, q.value.streams))
  {
    assert coll[..i + 1][..i] == coll[..i];
  }

  /** The rules up to `j` reached `q`; rule `j` takes the pass one rule further, and an error there is the error of all the rules. */
  lemma RulesAdvance(env: Env, repo: Option<PolicyFile>, confs: seq<Config>, j: nat, start: Progress, q: Progress)
    requires start.coll.reader in start.streams && j < |confs|
    requires Rules(env, repo, confs[..j], start) == Ok(q)
    ensures q.coll.reader in q.streams
    ensures Rules(env, repo, confs[..j + 1], start) == RuleStep(env, repo, confs[j], q)
    ensures RuleStep(env, repo, confs[j], q).Err? ==> Rules(env, repo, confs, start) == RuleStep(env, repo, confs[j], q)
  {
    RulesStep(env, repo, confs, j, start);
    if RuleStep(env, repo, confs[j], q).Err? {
      RulesSticky(env, repo, confs, j + 1, start);
    }
  }

  /** The inner loop of Filter: every rule in turn over the loop copy of one entry. */
  method ApplyRules(env: Env, repo: Option<PolicyFile>, confs: seq<Config>, entry: File, out: seq<File>, ghost readers: set<BlobReader>)
    returns (r: Result<seq<File>, FilterError>)
    requires entry.reader in readers
    modifies entry.reader
    ensures var spec := Rules(env, repo, confs, Progress(entry, out, old(Unread(readers))));
      && (r.Ok? <==> spec.Ok?)
      && (r.Err? ==> r.error == spec.error)
      && (r.Ok? ==> r.value == spec.value.out && Unread(readers) == spec.value.streams)
  {
    ghost var start := Progress(entry, out, Unread(readers));
    var coll := entry;
    var kept := out;
    var j := 0;
    while j < |confs|
      invariant 0 <= j <= |confs|
      invariant Rules(env, repo, confs[..j], start) == Ok(Progress(coll, kept, Unread(readers)))
    {
      RulesAdvance(env, repo, confs, j, start, Progress(coll, kept, Unread(readers)));
      var res := Apply(env, repo, confs[j], coll, kept, readers);
      if res.Err? {
        return Err(res.error);
      }
      coll, kept := res.value.0, res.value.1;
      j := j + 1;
    }
    assert confs[..j] == confs;
    return Ok(kept);
  }

  /**
   * Filter: the entries of `c` that some rule keeps, in entry order and for
   * each entry in rule order, as a new collection with `c`'s base fields; or
   * the first error. Every stream that was normalised is left drained.
   */
  method Filter(c: GitCollection, confs: seq<Config>, env: Env) returns (r: Result<GitCollection, FilterError>)
    modifies Readers(c.coll)
    ensures var spec := Files(env, c.policy, confs, c.coll, old(Unread(Readers(c.coll))));
      && (r.Ok? <==> spec.Ok?)
      && (r.Err? ==> r.error == spec.error)
      && (r.Ok? ==> r.value == Derived(c, spec.value.out) && Unread(Readers(c.coll)) == spec.value.streams)
  {
    ghost var readers := Readers(c.coll);
    ghost var start := Unread(readers);
    var out: seq<File> := [];
    var i := 0;
    while i < |c.coll|
      invariant 0 <= i <= |c.coll|
      invariant Files(env, c.policy, confs, c.coll[..i], start) == Ok(Run(out, Unread(readers)))
    {
      assert c.coll[i].reader in readers;
      FilesStep(env, c.policy, confs, c.coll, i, start);
      var res := ApplyRules(env, c.policy, confs, c.coll[i], out, readers);
      if res.Err? {
        FilesSticky(env, c.policy, confs, c.coll, i + 1, start);
        return Err(res.error);
      }
      out := res.value;
      i := i + 1;
    }
    assert c.coll[..i] == c.coll;
    return Ok(Derived(c, out));
  }
}

module GitFilterFacts {
  import opened Wrappers
  import opened Conv
  import opened GitTypes
  import opened GitFilter

  /** Some rule reaches normalisation for an entry with this name. */
  ghost predicate Engaged(env: Env, repo: Option<PolicyFile>, confs: seq<Config>, name: string)
  {
    exists j :: 0 <= j < |confs| && Engages(env, repo, confs[j], name)
  }

  /**
   * Over the rules for one entry, a successful pass normalises the entry at
   * most once: never when its stream is already drained, never for two rules,
   * and the stream is drained afterwards exactly when some rule normalised it.
   */
  lemma {:induction false} RulesNormaliseOnce(env: Env, repo: Option<PolicyFile>, confs: seq<Config>, p: Progress)
    requires p.coll.reader in p.streams && Rules(env, repo, confs, p).Ok?
    ensures p.streams[p.coll.reader] == [] ==> !Engaged(env, repo, confs, p.coll.name)
    ensures forall j1, j2 :: 0 <= j1 < j2 < |confs| ==>
      !(Engages(env, repo, confs[j1], p.coll.name) && Engages(env, repo, confs[j2], p.coll.name))
    ensures Engaged(env, repo, confs, p.coll.name) ==> Rules(env, repo, confs, p).value.streams == p.streams[p.coll.reader := []]
    ensures !Engaged(env, repo, confs, p.coll.name) ==> Rules(env, repo, confs, p).value.streams == p.streams && Rules(env, repo, confs, p).value.out == p.out
  {
    if confs != [] {
      var init := confs[..|confs| - 1];
      var last := confs[|confs| - 1];
      RulesNormaliseOnce(env, repo, init, p);
      var q0 := Rules(env, repo, init, p).value;
      assert q0.coll.reader == p.coll.reader && q0.coll.name == p.coll.name;
      forall j | 0 <= j < |init| ensures init[j] == confs[j] {
      }
      if Engages(env, repo, last, p.coll.name) {
        assert !Engaged(env, repo, init, p.coll.name);
        assert Engages(env, repo, confs[|confs| - 1], p.coll.name);
      } else if Engaged(env, repo, confs, p.coll.name) {
        var j :| 0 <= j < |confs| && Engages(env, repo, confs[j], p.coll.name);
        assert j < |init|;
        assert Engaged(env, repo, init, p.coll.name);
      }
    }
  }

  /** `g`, an output entry, is entry `f` kept by one of the rules: untouched but for the rule's labels, and of a format util.ToJSON converts. */
  ghost predicate KeptAs(env: Env, repo: Option<PolicyFile>, confs: seq<Config>, f: File, g: File)
  {
    && SameFile(g, f) && FormatOf(f.name) != Unsupported
    && exists j :: 0 <= j < |confs| && Engages(env, repo, confs[j], f.name) && Stamped(env, repo, confs[j], g)
  }

  /** The rules for one entry append it at most once, labelled by the rule that kept it, and nothing else. */
  lemma {:induction false} RulesOutput(env: Env, repo: Option<PolicyFile>, confs: seq<Config>, p: Progress)
    requires p.coll.reader in p.streams && Rules(env, repo, confs, p).Ok?
    ensures var out := Rules(env, repo, confs, p).value.out;
      || out == p.out
      || (|out| == |p.out| + 1 && out[..|p.out|] == p.out && KeptAs(env, repo, confs, p.coll, out[|p.out|]))
  {
    if confs != [] {
      var init := confs[..|confs| - 1];
      var last := confs[|confs| - 1];
      RulesOutput(env, repo, init, p);
      RulesNormaliseOnce(env, repo, init, p);
      var q0 := Rules(env, repo, init, p).value;
      var q := Rules(env, repo, confs, p).value;
      assert q0.coll.reader == p.coll.reader && q0.coll.name == p.coll.name;
      if q0.out != p.out {
        // an earlier rule normalised the entry, so this one cannot have
        var j :| 0 <= j < |init| && Engages(env, repo, init[j], p.coll.name);
        assert q0.streams[p.coll.reader] == [];
        assert q.out == q0.out;
        var g := q.out[|p.out|];
        assert q0.out[|p.out|] == g;
        var k :| 0 <= k < |init| && Engages(env, repo, init[k], p.coll.name) && Stamped(env, repo, init[k], g);
        assert init[k] == confs[k];
      } else if q.out != p.out {
        assert q.out == p.out + [q.coll];
        assert Engages(env, repo, confs[|confs| - 1], p.coll.name) && Stamped(env, repo, confs[|confs| - 1], q.coll);
        assert q.out[|p.out|] == q.coll && q.out[..|p.out|] == p.out;
      }
    }
  }

  /**
   * The rules for one entry append it exactly when one of them keeps it: its
   * name engages that rule and the bytes the entry's stream held on arrival
   * convert and evaluate to some result set.
   */
  lemma {:induction false} RulesKeepIff(env: Env, repo: Option<PolicyFile>, confs: seq<Config>, p: Progress)
    requires p.coll.reader in p.streams && Rules(env, repo, confs, p).Ok?
    ensures Rules(env, repo, confs, p).value.out != p.out <==>
      exists j :: 0 <= j < |confs| && Keeps(env, repo, confs[j], p.coll.name, p.streams[p.coll.reader])
  {
    if confs != [] {
      var init := confs[..|confs| - 1];
      var last := confs[|confs| - 1];
      RulesKeepIff(env, repo, init, p);
      RulesNormaliseOnce(env, repo, init, p);
      var q0 := Rules(env, repo, init, p).value;
      assert q0.coll.reader == p.coll.reader && q0.coll.name == p.coll.name;
      forall j | 0 <= j < |init| ensures init[j] == confs[j] {
      }
      if Engaged(env, repo, init, p.coll.name) {
        assert q0.streams[p.coll.reader] == [];
        assert !Engages(env, repo, last, p.coll.name);
        assert !Keeps(env, repo, last, p.coll.name, p.streams[p.coll.reader]);
      } else {
        assert q0.streams == p.streams && q0.out == p.out;
        forall j | 0 <= j < |init| ensures !Keeps(env, repo, confs[j], p.coll.name, p.streams[p.coll.reader]) {
          assert !Engages(env, repo, init[j], p.coll.name);
        }
      }
    }
  }

  /** A pass that succeeds on all entries succeeded on every prefix of them. */
  lemma FilesPrefixOk(env: Env, repo: Option<PolicyFile>, confs: seq<Config>, coll: seq<File>, i: nat, streams: Streams)
    requires forall k :: 0 <= k < |coll| ==> coll[k].reader in streams
    requires i <= |coll| && Files(env, repo, confs, coll, streams).Ok?
    ensures Files(env, repo, confs, coll[..i], streams).Ok?
  {
    if Files(env, repo, confs, coll[..i], streams).Err? {
      FilesSticky(env, repo, confs, coll, i, streams);
    }
  }

  /**
   * A successful pass only drains streams, and drains the stream of every
   * entry that some rule normalised.
   */
  lemma {:induction false} FilesDrain(env: Env, repo: Option<PolicyFile>, confs: seq<Config>, coll: seq<File>, streams: Streams)
    requires forall k :: 0 <= k < |coll| ==> coll[k].reader in streams
    requires Files(env, repo, confs, coll, streams).Ok?
    ensures forall r :: r in streams ==>
      Files(env, repo, confs, coll, streams).value.streams[r] == streams[r] || Files(env, repo, confs, coll, streams).value.streams[r] == []
    ensures forall i :: 0 <= i < |coll| && Engaged(env, repo, confs, coll[i].name) ==>
      Files(env, repo, confs, coll, streams).value.streams[coll[i].reader] == []
  {
    if coll != [] {
      var init := coll[..|coll| - 1];
      var last := coll[|coll| - 1];
      FilesDrain(env, repo, confs, init, streams);
      var run := Files(env, repo, confs, init, streams).value;
      var p := Progress(last, run.out, run.streams);
      RulesNormaliseOnce(env, repo, confs, p);
      var after := Rules(env, repo, confs, p).value.streams;
      assert Files(env, repo, confs, coll, streams).value.streams == after;
      DrainStep(env, repo, confs, coll, init, streams, run.streams, after);
    }
  }

  /** The drain facts for the entries before the last, carried over the rules for the last one. */
  lemma DrainStep(env: Env, repo: Option<PolicyFile>, confs: seq<Config>, coll: seq<File>, init: seq<File>,
                  streams: Streams, before: Streams, after: Streams)
    requires coll != [] && init == coll[..|coll| - 1] && forall k :: 0 <= k < |coll| ==> coll[k].reader in streams
    requires before.Keys == streams.Keys
    requires forall r :: r in streams ==> before[r] == streams[r] || before[r] == []
    requires forall i :: 0 <= i < |init| && Engaged(env, repo, confs, init[i].name) ==> before[init[i].reader] == []
    requires after == before || after == before[coll[|coll| - 1].reader := []]
    requires Engaged(env, repo, confs, coll[|coll| - 1].name) ==> after == before[coll[|coll| - 1].reader := []]
    ensures forall r :: r in streams ==> after[r] == streams[r] || after[r] == []
    ensures forall i :: 0 <= i < |coll| && Engaged(env, repo, confs, coll[i].name) ==> after[coll[i].reader] == []
  {
    var last := coll[|coll| - 1];
    forall i | 0 <= i < |coll| && Engaged(env, repo, confs, coll[i].name)
      ensures after[coll[i].reader] == []
    {
      if i < |init| {
        assert init[i] == coll[i];
      }
    }
  }

  /**
   * The output of a successful pass: each output entry is an input entry kept
   * by some rule, and the output follows the input order with every input
   * entry at most once, so rules never duplicate an entry.
   */
  lemma {:induction false} FilesOutput(env: Env, repo: Option<PolicyFile>, confs: seq<Config>, coll: seq<File>, streams: Streams)
    returns (from: seq<nat>)
    requires forall k :: 0 <= k < |coll| ==> coll[k].reader in streams
    requires Files(env, repo, confs, coll, streams).Ok?
    ensures |from| == |Files(env, repo, confs, coll, streams).value.out|
    ensures forall k :: 0 <= k < |from| ==>
      from[k] < |coll| && KeptAs(env, repo, confs, coll[from[k]], Files(env, repo, confs, coll, streams).value.out[k])
    ensures forall k, l :: 0 <= k < l < |from| ==> from[k] < from[l]
    ensures forall i, j :: 0 <= i < |coll| && 0 <= j < |confs| && Keeps(env, repo, confs[j], coll[i].name, streams[coll[i].reader]) ==>
      i in from
  {
    if coll == [] {
      return [];
    }
    var init := coll[..|coll| - 1];
    var last := coll[|coll| - 1];
    var prev := FilesOutput(env, repo, confs, init, streams);
    var run := Files(env, repo, confs, init, streams).value;
    var p := Progress(last, run.out, run.streams);
    RulesOutput(env, repo, confs, p);
    var out := Files(env, repo, confs, coll, streams).value.out;
    assert out == Rules(env, repo, confs, p).value.out;
    from := Origins(env, repo, confs, coll, run.out, out, prev);
    if exists j :: 0 <= j < |confs| && Keeps(env, repo, confs[j], last.name, streams[last.reader]) {
      var j :| 0 <= j < |confs| && Keeps(env, repo, confs[j], last.name, streams[last.reader]);
      LastKept(env, repo, confs, coll, streams, j);
    }
    Completes(env, repo, confs, coll, init, streams, prev, from);
  }

  /** Completeness carried from the entries before the last to all of them. */
  lemma Completes(env: Env, repo: Option<PolicyFile>, confs: seq<Config>, coll: seq<File>, init: seq<File>,
                  streams: Streams, prev: seq<nat>, from: seq<nat>)
    requires forall k :: 0 <= k < |coll| ==> coll[k].reader in streams
    requires coll != [] && init == coll[..|coll| - 1]
    requires forall i, j :: 0 <= i < |init| && 0 <= j < |confs| && Keeps(env, repo, confs[j], init[i].name, streams[init[i].reader]) ==>
      i in prev
    requires forall k :: k in prev ==> k in from
    requires (exists j :: 0 <= j < |confs| && Keeps(env, repo, confs[j], coll[|coll| - 1].name, streams[coll[|coll| - 1].reader])) ==>
      |coll| - 1 in from
    ensures forall i, j :: 0 <= i < |coll| && 0 <= j < |confs| && Keeps(env, repo, confs[j], coll[i].name, streams[coll[i].reader]) ==>
      i in from
  {
    forall i, j | 0 <= i < |coll| && 0 <= j < |confs| && Keeps(env, repo, confs[j], coll[i].name, streams[coll[i].reader])
      ensures i in from
    {
      if i < |init| {
        assert init[i] == coll[i];
      }
    }
  }

  /**
   * In a successful pass, a last entry that one of the rules keeps, judged on
   * the bytes its stream held before the pass, is appended: its stream cannot
   * have been drained by an earlier entry, or the pass would have failed.
   */
  lemma LastKept(env: Env, repo: Option<PolicyFile>, confs: seq<Config>, coll: seq<File>, streams: Streams, j: nat)
    requires forall k :: 0 <= k < |coll| ==> coll[k].reader in streams
    requires coll != [] && Files(env, repo, confs, coll, streams).Ok?
    requires j < |confs| && Keeps(env, repo, confs[j], coll[|coll| - 1].name, streams[coll[|coll| - 1].reader])
    ensures Files(env, repo, confs, coll[..|coll| - 1], streams).Ok?
    ensures Files(env, repo, confs, coll, streams).value.out != Files(env, repo, confs, coll[..|coll| - 1], streams).value.out
  {
    var init := coll[..|coll| - 1];
    var last := coll[|coll| - 1];
    var run := Files(env, repo, confs, init, streams).value;
    var p := Progress(last, run.out, run.streams);
    FilesDrain(env, repo, confs, init, streams);
    RulesNormaliseOnce(env, repo, confs, p);
    assert Engaged(env, repo, confs, last.name);
    assert p.streams[last.reader] == streams[last.reader];
    RulesKeepIff(env, repo, confs, p);
  }

  /** The origins of the output before the last entry, extended by the last entry when the rules kept it. */
  lemma Origins(env: Env, repo: Option<PolicyFile>, confs: seq<Config>, coll: seq<File>,
                prevOut: seq<File>, out: seq<File>, prev: seq<nat>) returns (from: seq<nat>)
    requires coll != [] && |prev| == |prevOut|
    requires forall k :: 0 <= k < |prev| ==>
      prev[k] < |coll| - 1 && KeptAs(env, repo, confs, coll[..|coll| - 1][prev[k]], prevOut[k])
    requires forall k, l :: 0 <= k < l < |prev| ==> prev[k] < prev[l]
    requires || out == prevOut
             || (|out| == |prevOut| + 1 && out[..|prevOut|] == prevOut && KeptAs(env, repo, confs, coll[|coll| - 1], out[|prevOut|]))
    ensures |from| == |out|
    ensures forall k :: 0 <= k < |from| ==> from[k] < |coll| && KeptAs(env, repo, confs, coll[from[k]], out[k])
    ensures forall k, l :: 0 <= k < l < |from| ==> from[k] < from[l]
    ensures out == prevOut ==> from == prev
    ensures out != prevOut ==> from == prev + [|coll| - 1]
  {
    forall k | 0 <= k < |prev| ensures coll[prev[k]] == coll[..|coll| - 1][prev[k]] {
    }
    from := prev;
    if out != prevOut {
      from := prev + [|coll| - 1];
      assert forall k :: 0 <= k < |prevOut| ==> out[k] == prevOut[k];
    }
  }

  /** In a successful pass, the rules for entry `i` start from what the entries before it left and succeed. */
  lemma Reach(env: Env, repo: Option<PolicyFile>, confs: seq<Config>, coll: seq<File>, i: nat, streams: Streams)
    returns (p: Progress)
    requires forall k :: 0 <= k < |coll| ==> coll[k].reader in streams
    requires i < |coll| && Files(env, repo, confs, coll, streams).Ok?
    ensures Files(env, repo, confs, coll[..i], streams).Ok?
    ensures p == Progress(coll[i], Files(env, repo, confs, coll[..i], streams).value.out, Files(env, repo, confs, coll[..i], streams).value.streams)
    ensures p.coll.reader in p.streams && Rules(env, repo, confs, p).Ok?
  {
    FilesPrefixOk(env, repo, confs, coll, i + 1, streams);
    FilesStep(env, repo, confs, coll, i, streams);
    var run := Files(env, repo, confs, coll[..i], streams).value;
    p := Progress(coll[i], run.out, run.streams);
  }

  /**
   * In a successful pass, entry `i` meets its rules with a stream that is
   * drained if it was drained at the start or if an earlier engaged entry
   * holds it.
   */
  lemma Entering(env: Env, repo: Option<PolicyFile>, confs: seq<Config>, coll: seq<File>, streams: Streams, i: nat)
    returns (p: Progress)
    requires forall k :: 0 <= k < |coll| ==> coll[k].reader in streams
    requires i < |coll| && Files(env, repo, confs, coll, streams).Ok?
    ensures p.coll == coll[i] && p.streams.Keys == streams.Keys && Rules(env, repo, confs, p).Ok?
    ensures streams[coll[i].reader] == [] ==> p.streams[coll[i].reader] == []
    ensures forall k :: 0 <= k < i && Engaged(env, repo, confs, coll[k].name) ==> p.streams[coll[k].reader] == []
  {
    p := Reach(env, repo, confs, coll, i, streams);
    FilesDrain(env, repo, confs, coll[..i], streams);
    forall k | 0 <= k < i ensures coll[..i][k] == coll[k] {
    }
  }

  /** An entry that two rules would normalise makes the whole pass fail: the second reads a drained stream. */
  lemma TwoRulesAbort(env: Env, repo: Option<PolicyFile>, confs: seq<Config>, coll: seq<File>, streams: Streams,
                      i: nat, j1: nat, j2: nat)
    requires forall k :: 0 <= k < |coll| ==> coll[k].reader in streams
    requires i < |coll| && j1 < j2 < |confs|
    requires Engages(env, repo, confs[j1], coll[i].name) && Engages(env, repo, confs[j2], coll[i].name)
    ensures Files(env, repo, confs, coll, streams).Err?
  {
    if Files(env, repo, confs, coll, streams).Ok? {
      var p := Reach(env, repo, confs, coll, i, streams);
      RulesNormaliseOnce(env, repo, confs, p);
    }
  }

  /**
   * Two entries sharing a stream, each normalised by some rule, make the pass
   * fail: the later one reads what the earlier one drained.
   */
  lemma SharedStreamAborts(env: Env, repo: Option<PolicyFile>, confs: seq<Config>, coll: seq<File>, streams: Streams,
                           i1: nat, i2: nat)
    requires forall k :: 0 <= k < |coll| ==> coll[k].reader in streams
    requires i1 < i2 < |coll| && coll[i1].reader == coll[i2].reader
    requires Engaged(env, repo, confs, coll[i1].name) && Engaged(env, repo, confs, coll[i2].name)
    ensures Files(env, repo, confs, coll, streams).Err?
  {
    if Files(env, repo, confs, coll, streams).Ok? {
      var p := Entering(env, repo, confs, coll, streams, i2);
      assert p.streams[coll[i1].reader] == [];
      RulesNormaliseOnce(env, repo, confs, p);
    }
  }

  /** An entry that some rule engages, whose stream is already drained when the pass starts, makes the pass fail. */
  lemma DrainedStreamAborts(env: Env, repo: Option<PolicyFile>, confs: seq<Config>, coll: seq<File>, streams: Streams, i: nat)
    requires forall k :: 0 <= k < |coll| ==> coll[k].reader in streams
    requires i < |coll| && Engaged(env, repo, confs, coll[i].name) && streams[coll[i].reader] == []
    ensures Files(env, repo, confs, coll, streams).Err?
  {
    if Files(env, repo, confs, coll, streams).Ok? {
      var p := Entering(env, repo, confs, coll, streams, i);
      RulesNormaliseOnce(env, repo, confs, p);
    }
  }

  /**
   * Filtering the same collection a second time, with the same rules and
   * collaborators, fails whenever the first pass kept anything: the kept
   * entry's stream was drained by the first pass.
   */
  lemma FilterTwiceFails(env: Env, repo: Option<PolicyFile>, confs: seq<Config>, coll: seq<File>, streams: Streams)
    requires forall k :: 0 <= k < |coll| ==> coll[k].reader in streams
    requires Files(env, repo, confs, coll, streams).Ok? && Files(env, repo, confs, coll, streams).value.out != []
    ensures Files(env, repo, confs, coll, Files(env, repo, confs, coll, streams).value.streams).Err?
  {
    var first := Files(env, repo, confs, coll, streams).value;
    var from := FilesOutput(env, repo, confs, coll, streams);
    var i := from[0];
    assert KeptAs(env, repo, confs, coll[i], first.out[0]);
    FilesDrain(env, repo, confs, coll, streams);
    DrainedStreamAborts(env, repo, confs, coll, first.streams, i);
  }

  /** A rule whose regexp does not compile makes the rules for any entry fail, wherever it stands among them. */
  lemma InvalidRuleAborts(env: Env, repo: Option<PolicyFile>, confs: seq<Config>, j: nat, p: Progress)
    requires p.coll.reader in p.streams && j < |confs| && !env.re.compiles(confs[j].filter)
    ensures Rules(env, repo, confs, p).Err?
  {
    RulesStep(env, repo, confs, j, p);
    RulesSticky(env, repo, confs, j + 1, p);
  }

  /**
   * Rules are compiled only when an entry is visited: with no entries every
   * rule set passes; with some entry, any rule that does not compile makes
   * the pass fail, and a first rule that does not compile is its error.
   */
  lemma InvalidRegexpNeedsAnEntry(env: Env, repo: Option<PolicyFile>, confs: seq<Config>, coll: seq<File>, streams: Streams)
    requires forall k :: 0 <= k < |coll| ==> coll[k].reader in streams
    ensures coll == [] ==> Files(env, repo, confs, coll, streams) == Ok(Run([], streams))
    ensures forall j :: 0 <= j < |confs| && coll != [] && !env.re.compiles(confs[j].filter) ==>
      Files(env, repo, confs, coll, streams).Err?
    ensures coll != [] && confs != [] && !env.re.compiles(confs[0].filter) ==>
      Files(env, repo, confs, coll, streams) == Err(InvalidRegexp(confs[0].name))
  {
    if coll != [] && confs != [] && !env.re.compiles(confs[0].filter) {
      assert coll[..1][..0] == [];
      var p := Progress(coll[0], [], streams);
      RulesStep(env, repo, confs, 0, p);
      RulesSticky(env, repo, confs, 1, p);
      FilesStep(env, repo, confs, coll, 0, streams);
      FilesSticky(env, repo, confs, coll, 1, streams);
    }
    forall j | 0 <= j < |confs| && coll != [] && !env.re.compiles(confs[j].filter)
      ensures Files(env, repo, confs, coll, streams).Err?
    {
      if Files(env, repo, confs, coll, streams).Ok? {
        var p := Reach(env, repo, confs, coll, 0, streams);
        InvalidRuleAborts(env, repo, confs, j, p);
      }
    }
  }

  /**
   * The policy is resolved before the entry is normalised, so a failing fetch
   * or an unreadable default aborts the pass even for an entry util.ToJSON
   * would skip as unsupported.
   */
  lemma PolicyBeforeNormalisation(env: Env, repo: Option<PolicyFile>, conf: Config, p: Progress)
    requires p.coll.reader in p.streams
    requires env.re.compiles(conf.filter) && env.re.matches(conf.filter, p.coll.name)
    requires ResolvePolicy(env, repo, conf).Err?
    ensures RuleStep(env, repo, conf, p) == Err(ResolvePolicy(env, repo, conf).error)
  {
  }

  /**
   * An entry util.ToJSON does not convert is never kept; in particular a file
   * whose name has no dot, such as "Dockerfile", never reaches the output.
   */
  lemma UnsupportedNeverKept(env: Env, repo: Option<PolicyFile>, confs: seq<Config>, coll: seq<File>, streams: Streams)
    requires forall k :: 0 <= k < |coll| ==> coll[k].reader in streams
    requires Files(env, repo, confs, coll, streams).Ok?
    ensures forall k :: 0 <= k < |Files(env, repo, confs, coll, streams).value.out| ==>
      FormatOf(Files(env, repo, confs, coll, streams).value.out[k].name) != Unsupported
    ensures forall k :: 0 <= k < |Files(env, repo, confs, coll, streams).value.out| ==>
      '.' in Files(env, repo, confs, coll, streams).value.out[k].name
  {
    var out := Files(env, repo, confs, coll, streams).value.out;
    var from := FilesOutput(env, repo, confs, coll, streams);
    forall k | 0 <= k < |out| ensures FormatOf(out[k].name) != Unsupported && '.' in out[k].name {
      assert KeptAs(env, repo, confs, coll[from[k]], out[k]);
      if '.' !in out[k].name {
        DotlessIsUnsupported(out[k].name);
      }
    }
  }
}
