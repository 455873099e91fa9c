/**
 * GitCollection.Filter(*RegexpConfig) of internal/crud/encoding.go: each
 * configuration file falls into the first enabled category whose names it
 * contains, and is kept, labelled with that category, when the category's
 * regexp matches its content.
 */
module LegacyFilter {
  import opened Wrappers
  import opened Strings
  import opened Foreign
  import opened LegacyWalk

  /** `RegexpConfig`: one content regexp per category; "" switches the category off. */
  datatype RegexpConfig = RegexpConfig(docker: string, terraform: string, manifest: string, gradle: string)

  const DockerExt: seq<string> := ["dockerfile", "Dockerfile", "dockerfile.yml", "dockerfile.yaml"]
  const TerraformExt: seq<string> := [".tf", ".tf.json"]
  const ManifestExt: seq<string> := ["Manifest"]
  const GradleExt: seq<string> := [".gradle", ".properties"]

  /** A category: the Type it gives, the word its error names, its regexp, and the names it claims. */
  datatype Category = Category(tag: string, word: string, pattern: string, names: seq<string>)

  /** The categories in the order the chain tests them. */
  function Categories(rc: RegexpConfig): (cats: seq<Category>)
    ensures |cats| == 4
  {
    [ Category("Dockerfile", "docker", rc.docker, DockerExt),
      Category("Terraform", "terraform", rc.terraform, TerraformExt),
      Category("Manifest", "manifest", rc.manifest, ManifestExt),
      Category("Gradle", "gradle", rc.gradle, GradleExt) ]
  }

  /** The category is switched on and util.In finds one of its names in the file name. */
  predicate Claims(cat: Category, name: string)
  {
    cat.pattern != "" && In(cat.names, name)
  }

  /** The first of `cats` that claims the name, if any. */
  function FirstClaim(cats: seq<Category>, name: string): Option<Category>
  {
    if cats == [] then None
    else if Claims(cats[0], name) then Some(cats[0])
    else FirstClaim(cats[1..], name)
  }

  /** The category an entry falls into, if any: the first of the chain that claims it. */
  function Select(rc: RegexpConfig, name: string): Option<Category>
  {
    FirstClaim(Categories(rc), name)
  }

  /** The first claiming category is the one found; with none claiming, nothing is. */
  lemma {:induction false} FirstClaimIsFirst(cats: seq<Category>, name: string)
    ensures FirstClaim(cats, name).None? <==> forall k :: 0 <= k < |cats| ==> !Claims(cats[k], name)
    ensures forall k :: 0 <= k < |cats| && Claims(cats[k], name) && (forall j :: 0 <= j < k ==> !Claims(cats[j], name)) ==>
      FirstClaim(cats, name) == Some(cats[k])
  {
    if cats != [] {
      FirstClaimIsFirst(cats[1..], name);
      forall k | 1 <= k < |cats| ensures cats[1..][k - 1] == cats[k] {
      }
      if !Claims(cats[0], name) {
        forall k | 0 <= k < |cats| && Claims(cats[k], name) && (forall j :: 0 <= j < k ==> !Claims(cats[j], name))
          ensures FirstClaim(cats, name) == Some(cats[k])
        {
          assert k != 0;
          forall j | 0 <= j < k - 1 ensures !Claims(cats[1..][j], name) {
            assert cats[1..][j] == cats[j + 1];
          }
        }
      }
    }
  }

  /**
   * The chain picks the first category, in the order Docker, Terraform,
   * Manifest, Gradle, that is switched on and claims the name; an entry no
   * category claims falls into none. A switched-off category lets the entry
   * fall through to the later ones.
   */
  lemma SelectPrecedence(rc: RegexpConfig, name: string)
    ensures Select(rc, name).None? <==> forall k :: 0 <= k < 4 ==> !Claims(Categories(rc)[k], name)
    ensures forall k :: 0 <= k < 4 ==>
      (Select(rc, name) == Some(Categories(rc)[k]) <==>
        Claims(Categories(rc)[k], name) && forall j :: 0 <= j < k ==> !Claims(Categories(rc)[j], name))
  {
    var cats := Categories(rc);
    FirstClaimIsFirst(cats, name);
    assert cats[0].tag != cats[1].tag && cats[0].tag != cats[2].tag && cats[0].tag != cats[3].tag;
    assert cats[1].tag != cats[2].tag && cats[1].tag != cats[3].tag && cats[2].tag != cats[3].tag;
    if Select(rc, name).Some? {
      var k :| 0 <= k < 4 && Claims(cats[k], name) && forall j :: 0 <= j < k ==> !Claims(cats[j], name);
    }
  }

  /** The first claiming category is what the if/else chain of encoding.go:60-90 picks. */
  lemma SelectChain(rc: RegexpConfig, name: string)
    ensures Select(rc, name) ==
      if rc.docker != "" && In(DockerExt, name) then Some(Categories(rc)[0])
      else if rc.terraform != "" && In(TerraformExt, name) then Some(Categories(rc)[1])
      else if rc.manifest != "" && In(ManifestExt, name) then Some(Categories(rc)[2])
      else if rc.gradle != "" && In(GradleExt, name) then Some(Categories(rc)[3])
      else None
  {
    SelectPrecedence(rc, name);
  }

  /** Both "app.tf" and "Dockerfile.tf" are Terraform when Docker is off, but the second is Docker when it is on. */
  lemma DockerBeforeTerraform(rc: RegexpConfig)
    requires rc.docker != "" && rc.terraform != ""
    ensures Select(rc, "Dockerfile.tf").Some? && Select(rc, "Dockerfile.tf").value.tag == "Dockerfile"
    ensures Select(rc.(docker := ""), "Dockerfile.tf").Some? && Select(rc.(docker := ""), "Dockerfile.tf").value.tag == "Terraform"
  {
    var s := "Dockerfile.tf";
    assert s[..|DockerExt[1]|] == DockerExt[1];
    assert In(DockerExt, s);
    ContainsIff(s, TerraformExt[0]);
    assert OccursAt(s, TerraformExt[0], 10);
    assert In(TerraformExt, s);
    SelectChain(rc, s);
    SelectChain(rc.(docker := ""), s);
  }

  /** The error of the older filter: a selected category's regexp does not compile ("invalid %s regexp"). */
  datatype LegacyError = InvalidRegexp(category: string)

  /** A configuration entry that falls into a category whose regexp does not compile. */
  predicate SelectsInvalid(rc: RegexpConfig, re: Regexps, v: Entry)
  {
    v.config && Select(rc, v.name).Some? && !re.compiles(Select(rc, v.name).value.pattern)
  }

  /** The loop body for one entry: skipped, kept with its category's label, or an error. */
  function Outcome(rc: RegexpConfig, re: Regexps, v: Entry): (r: Result<Option<Entry>, LegacyError>)
    ensures r.Err? <==> SelectsInvalid(rc, re, v)
    ensures r.Err? ==> r.error == InvalidRegexp(Select(rc, v.name).value.word)
    ensures r.Ok? && r.value.Some? <==>
      v.config && Select(rc, v.name).Some? && re.compiles(Select(rc, v.name).value.pattern)
      && re.matches(Select(rc, v.name).value.pattern, v.content)
    ensures r.Ok? && r.value.Some? ==> r.value.value == v.(fileType := Select(rc, v.name).value.tag)
  {
    if !v.config then Ok(None)
    else match Select(rc, v.name)
      case None => Ok(None)
      case Some(cat) =>
        if !re.compiles(cat.pattern) then Err(InvalidRegexp(cat.word))
        else if re.matches(cat.pattern, v.content) then Ok(Some(v.(fileType := cat.tag)))
        else Ok(None)
  }

  /** The loop over the entries: the kept entries in order, or the first error. */
  function FilterSpec(rc: RegexpConfig, re: Regexps, coll: seq<Entry>): Result<seq<Entry>, LegacyError>
  {
    if coll == [] then Ok([])
    else
      match FilterSpec(rc, re, coll[..|coll| - 1])
      case Err(e) => Err(e)
      case Ok(out) =>
        match Outcome(rc, re, coll[|coll| - 1])
        case Err(e) => Err(e)
        case Ok(None) => Ok(out)
        case Ok(Some(v)) => Ok(out + [v])
  }

  /** One more entry. */
  lemma FilterSpecStep(rc: RegexpConfig, re: Regexps, coll: seq<Entry>, i: nat)
    requires i < |coll|
    ensures FilterSpec(rc, re, coll[..i]).Err? ==> FilterSpec(rc, re, coll[..i + 1]) == FilterSpec(rc, re, coll[..i])
    ensures FilterSpec(rc, re, coll[..i]).Ok? && Outcome(rc, re, coll[i]).Err? ==>
      FilterSpec(rc, re, coll[..i + 1]) == Err(Outcome(rc, re, coll[i]).error)
    ensures FilterSpec(rc, re, coll[..i]).Ok? && Outcome(rc, re, coll[i]) == Ok(None) ==>
      FilterSpec(rc, re, coll[..i + 1]) == FilterSpec(rc, re, coll[..i])
    ensures FilterSpec(rc, re, coll[..i]).Ok? && Outcome(rc, re, coll[i]).Ok? && Outcome(rc, re, coll[i]).value.Some? ==>
      FilterSpec(rc, re, coll[..i + 1]) == Ok(FilterSpec(rc, re, coll[..i]).value + [Outcome(rc, re, coll[i]).value.value])
  {
    var pre := coll[..i + 1];
    assert pre[..|pre| - 1] == coll[..i];
    assert pre[|pre| - 1] == coll[i];
  }

  /** An error at some entry is the error of the whole loop. */
  lemma {:induction false} FilterSpecSticky(rc: RegexpConfig, re: Regexps, coll: seq<Entry>, k: nat)
    requires k <= |coll| && FilterSpec(rc, re, coll[..k]).Err?
    ensures FilterSpec(rc, re, coll) == FilterSpec(rc, re, coll[..k])
    decreases |coll|
  {
    if k < |coll| {
      assert coll[..|coll| - 1][..k] == coll[..k];
      FilterSpecSticky(rc, re, coll[..|coll| - 1], k);
    } else {
      assert coll[..k] == coll;
    }
  }

  /**
   * One pass of the loop of encoding.go:56-96 over entry `v`: skip a
   * non-configuration file, pick its category by the chain, compile that
   * category's regexp, and keep the relabelled entry when it matches.
   */
  method Classify(rc: RegexpConfig, re: Regexps, v: Entry) returns (r: Result<Option<Entry>, LegacyError>)
    ensures r == Outcome(rc, re, v)
  {
    if !v.config {
      return Ok(None);
    }
    SelectChain(rc, v.name);
    var w: Entry;
    var reg: string;
    if rc.docker != "" && In(DockerExt, v.name) {
      w := v.(fileType := "Dockerfile");
      if !re.compiles(rc.docker) {
        return Err(InvalidRegexp("docker"));
      }
      reg := rc.docker;
    } else if rc.terraform != "" && In(TerraformExt, v.name) {
      w := v.(fileType := "Terraform");
      if !re.compiles(rc.terraform) {
        return Err(InvalidRegexp("terraform"));
      }
      reg := rc.terraform;
    } else if rc.manifest != "" && In(ManifestExt, v.name) {
      w := v.(fileType := "Manifest");
      if !re.compiles(rc.manifest) {
        return Err(InvalidRegexp("manifest"));
      }
      reg := rc.manifest;
    } else if rc.gradle != "" && In(GradleExt, v.name) {
      w := v.(fileType := "Gradle");
      if !re.compiles(rc.gradle) {
        return Err(InvalidRegexp("gradle"));
      }
      reg := rc.gradle;
    } else {
      return Ok(None);
    }
    if re.matches(reg, w.content) {
      return Ok(Some(w));
    }
    return Ok(None);
  }

  /**
   * Filter (encoding.go:40-99): a new collection with `c`'s base fields and
   * the entries the loop keeps, or the first invalid regexp among the
   * categories actually selected.
   */
  method Filter(c: LegacyCollection, rc: RegexpConfig, re: Regexps) returns (r: Result<LegacyCollection, LegacyError>)
    ensures FilterSpec(rc, re, c.coll).Err? ==> r == Err(FilterSpec(rc, re, c.coll).error)
    ensures FilterSpec(rc, re, c.coll).Ok? ==>
      r == Ok(LegacyCollection(c.baseURL, c.baseHash, c.baseDir, FilterSpec(rc, re, c.coll).value))
  {
    var out: seq<Entry> := [];
    var i := 0;
    while i < |c.coll|
      invariant 0 <= i <= |c.coll|
      invariant FilterSpec(rc, re, c.coll[..i]) == Ok(out)
    {
      FilterSpecStep(rc, re, c.coll, i);
      var o := Classify(rc, re, c.coll[i]);
      if o.Err? {
        FilterSpecSticky(rc, re, c.coll, i + 1);
        return Err(o.error);
      }
      if o.value.Some? {
        out := out + [o.value.value];
      }
      i := i + 1;
    }
    assert c.coll[..i] == c.coll;
    return Ok(LegacyCollection(c.baseURL, c.baseHash, c.baseDir, out));
  }

  /**
   * The loop fails exactly when some configuration entry falls into a
   * category whose regexp does not compile; a bad regexp of a category no
   * entry falls into is never compiled.
   */
  lemma {:induction false} FilterFailsIff(rc: RegexpConfig, re: Regexps, coll: seq<Entry>)
    ensures FilterSpec(rc, re, coll).Err? <==> exists i :: 0 <= i < |coll| && SelectsInvalid(rc, re, coll[i])
  {
    if coll != [] {
      var init := coll[..|coll| - 1];
      FilterFailsIff(rc, re, init);
      if exists i :: 0 <= i < |init| && SelectsInvalid(rc, re, init[i]) {
        var i :| 0 <= i < |init| && SelectsInvalid(rc, re, init[i]);
        assert coll[i] == init[i];
      }
      if exists i :: 0 <= i < |coll| && SelectsInvalid(rc, re, coll[i]) {
        var i :| 0 <= i < |coll| && SelectsInvalid(rc, re, coll[i]);
        if i < |init| {
          assert init[i] == coll[i];
        }
      }
    }
  }

  /**
   * A successful loop keeps, in order and each at most once, exactly the
   * configuration entries whose selected category's regexp matches their
   * content, each labelled with that category; nothing else changes.
   */
  lemma {:induction false} FilterOutput(rc: RegexpConfig, re: Regexps, coll: seq<Entry>) returns (from: seq<nat>)
    requires FilterSpec(rc, re, coll).Ok?
    ensures |from| == |FilterSpec(rc, re, coll).value|
    ensures forall k, l :: 0 <= k < l < |from| ==> from[k] < from[l]
    ensures forall k :: 0 <= k < |from| ==>
      && from[k] < |coll| && coll[from[k]].config
      && Select(rc, coll[from[k]].name).Some?
      && re.matches(Select(rc, coll[from[k]].name).value.pattern, coll[from[k]].content)
      && FilterSpec(rc, re, coll).value[k] == coll[from[k]].(fileType := Select(rc, coll[from[k]].name).value.tag)
    ensures forall i :: (0 <= i < |coll| && coll[i].config && Select(rc, coll[i].name).Some?
                         && re.matches(Select(rc, coll[i].name).value.pattern, coll[i].content)) ==> i in from
  {
    if coll == [] {
      return [];
    }
    var init := coll[..|coll| - 1];
    var last := coll[|coll| - 1];
    from := FilterOutput(rc, re, init);
    var prev := FilterSpec(rc, re, init).value;
    forall k | 0 <= k < |from| ensures coll[from[k]] == init[from[k]] {
    }
    var o := Outcome(rc, re, last);
    assert o.Ok?;
    if o.value.Some? {
      from := from + [|coll| - 1];
    }
    forall i | 0 <= i < |coll| && coll[i].config && Select(rc, coll[i].name).Some?
      && re.matches(Select(rc, coll[i].name).value.pattern, coll[i].content)
      ensures i in from
    {
      if i < |init| {
        assert init[i] == coll[i];
      } else {
        assert coll[i] == last;
        FilterFailsIff(rc, re, coll);
      }
    }
  }

  /**
   * Filtering a filtered collection again gives it back unchanged: every kept
   * entry is still a configuration file whose category, regexp and content are
   * the same, and relabelling it with its own category changes nothing.
   */
  lemma {:induction false} FilterIdempotent(rc: RegexpConfig, re: Regexps, coll: seq<Entry>)
    requires FilterSpec(rc, re, coll).Ok?
    ensures FilterSpec(rc, re, FilterSpec(rc, re, coll).value) == FilterSpec(rc, re, coll)
  {
    if coll != [] {
      var init := coll[..|coll| - 1];
      FilterIdempotent(rc, re, init);
      var prev := FilterSpec(rc, re, init).value;
      var o := Outcome(rc, re, coll[|coll| - 1]);
      if o.value.Some? {
        var v := o.value.value;
        var out := prev + [v];
        assert out[..|out| - 1] == prev;
        assert out[|out| - 1] == v;
        assert Outcome(rc, re, v) == Ok(Some(v));
      }
    }
  }
}
