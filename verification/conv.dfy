/**
 * util.ToJSON: turns the bytes of a configuration file into JSON, choosing
 * the conversion from the file's name. The YAML and HCL converters and
 * json.Marshal are foreign code and arrive as functions that may fail.
 */
module Conv {
  import opened Wrappers
  import opened Strings

  /** A Go byte slice; bytes are modelled as characters. */
  type Bytes = string

  /**
   * What a successful conversion yields. json.Marshal always writes at least
   * one byte (even `null`), so converter output is never empty.
   */
  type JsonBytes = b: Bytes | |b| > 0 witness "0"

  /** The value getHclJSON decodes from HCL, before json.Marshal; left uninterpreted. */
  datatype HclValue = HclValue(text: string)

  /** The foreign converters: yaml.YAMLToJSON, getHclJSON and json.Marshal. */
  datatype Converters = Converters(
    yamlToJson: Bytes -> Result<JsonBytes, string>,
    hclDecode: (Bytes, string) -> Result<HclValue, string>,
    marshal: HclValue -> Result<JsonBytes, string>)

  datatype ConvError =
    | ReadFailed(name: string, cause: string)  // ioutil.ReadAll failed
    | NoBytesRead(name: string)                // the stream held no bytes
    | UnsupportedFileType                      // util.ErrUnsupportedFileType
    | Foreign(cause: string)                   // a converter's own error, returned as is

  /** The conversion a name selects. */
  datatype Format = Json | Yaml | Terraform | Unsupported

  /** The dispatch of ToJSON: containment tests on the name, in the order .json, .yaml/.yml, .tf. */
  function FormatOf(name: string): Format
  {
    if In([".json"], name) then Json
    else if In([".yaml", ".yml"], name) then Yaml
    else if In([".tf"], name) then Terraform
    else Unsupported
  }

  /** The dispatch in terms of strings.Contains alone. */
  lemma FormatOfContains(name: string)
    ensures FormatOf(name) == Json <==> Contains(name, ".json")
    ensures FormatOf(name) == Yaml <==> !Contains(name, ".json") && (Contains(name, ".yaml") || Contains(name, ".yml"))
    ensures FormatOf(name) == Terraform <==>
      !Contains(name, ".json") && !Contains(name, ".yaml") && !Contains(name, ".yml") && Contains(name, ".tf")
  {
    InIsContainment([".json"], name);
    InIsContainment([".yaml", ".yml"], name);
    InIsContainment([".tf"], name);
    assert In([".json"], name) <==> Contains(name, ".json") by {
      assert [".json"][0] == ".json";
    }
    assert In([".yaml", ".yml"], name) <==> Contains(name, ".yaml") || Contains(name, ".yml") by {
      assert [".yaml", ".yml"][0] == ".yaml" && [".yaml", ".yml"][1] == ".yml";
    }
    assert In([".tf"], name) <==> Contains(name, ".tf") by {
      assert [".tf"][0] == ".tf";
    }
  }

  /** A marker that occurs in the name at a known offset. */
  lemma MarkerAt(name: string, marker: string, i: nat)
    requires i + |marker| <= |name| && name[i..i + |marker|] == marker
    ensures Contains(name, marker)
  {
    ContainsIff(name, marker);
    assert OccursAt(name, marker, i);
  }

  /** Markers are matched anywhere in the name: ".json" wins over ".tf", and need not end the name. */
  lemma TfJsonIsJson()
    ensures FormatOf("main.tf.json") == Json
  {
    FormatOfContains("main.tf.json");
    MarkerAt("main.tf.json", ".json", 7);
  }

  lemma JsonBakIsJson()
    ensures FormatOf("x.json.bak") == Json
  {
    FormatOfContains("x.json.bak");
    MarkerAt("x.json.bak", ".json", 1);
  }

  /** A name without a dot, such as "Dockerfile", selects no conversion. */
  lemma DotlessIsUnsupported(name: string)
    requires '.' !in name
    ensures FormatOf(name) == Unsupported
  {
    FormatOfContains(name);
    NoDot(name, ".json");
    NoDot(name, ".yaml");
    NoDot(name, ".yml");
    NoDot(name, ".tf");
  }

  lemma XyzIsUnsupported()
    ensures FormatOf("app.xyz") == Unsupported
  {
    FormatOfContains("app.xyz");
    assert "app.xyz" == "app" + "." + "xyz";
    SingleDot("app.xyz", "app", "xyz", ".json");
    SingleDot("app.xyz", "app", "xyz", ".yaml");
    SingleDot("app.xyz", "app", "xyz", ".yml");
    SingleDot("app.xyz", "app", "xyz", ".tf");
  }

  /** A marker that starts with a dot never occurs in a name without dots. */
  lemma NoDot(name: string, marker: string)
    requires |marker| > 0 && marker[0] == '.' && '.' !in name
    ensures !Contains(name, marker)
  {
    ContainsIff(name, marker);
  }

  /** In a name with a single dot, a marker ".x..." occurs only if its second character follows the dot. */
  lemma SingleDot(name: string, p: string, t: string, marker: string)
    requires name == p + "." + t && '.' !in p && '.' !in t
    requires |marker| >= 2 && marker[0] == '.' && (t == [] || t[0] != marker[1])
    ensures !Contains(name, marker)
  {
    ContainsIff(name, marker);
  }

  /**
   * util.ToJSON(name, rc) given what reading `rc` to the end produced. The read
   * and emptiness checks come before any dispatch on the name.
   */
  function ToJSON(name: string, read: Result<Bytes, string>, cv: Converters): (r: Result<JsonBytes, ConvError>)
    ensures read.Err? ==> r == Err(ReadFailed(name, read.error))
    ensures read == Ok([]) ==> r == Err(NoBytesRead(name))
    ensures r == Err(UnsupportedFileType) <==> read.Ok? && read.value != [] && FormatOf(name) == Unsupported
    ensures r.Ok? ==> read.Ok? && FormatOf(name) != Unsupported
    ensures r.Ok? && FormatOf(name) == Json ==> r.value == read.value
    ensures read.Ok? && read.value != [] && FormatOf(name) == Yaml && cv.yamlToJson(read.value).Ok? ==>
      r == Ok(cv.yamlToJson(read.value).value)
    ensures read.Ok? && read.value != [] && FormatOf(name) == Terraform && cv.hclDecode(read.value, name).Ok?
            && cv.marshal(cv.hclDecode(read.value, name).value).Ok? ==>
      r == Ok(cv.marshal(cv.hclDecode(read.value, name).value).value)
  {
    match read
    case Err(e) => Err(ReadFailed(name, e))
    case Ok(bs) =>
      if |bs| == 0 then Err(NoBytesRead(name))
      else match FormatOf(name)
        case Json => Ok(bs)
        case Yaml =>
          (match cv.yamlToJson(bs)
           case Ok(js) => Ok(js)
           case Err(e) => Err(Foreign(e)))
        case Terraform =>
          (match cv.hclDecode(bs, name)
           case Err(e) => Err(Foreign(e))
           case Ok(content) =>
             match cv.marshal(content)
             case Ok(js) => Ok(js)
             case Err(e) => Err(Foreign(e)))
        case Unsupported => Err(UnsupportedFileType)
  }

  /** Empty input is an error for every name, never the unsupported skip. */
  lemma EmptyBeforeDispatch(name: string, cv: Converters)
    ensures ToJSON(name, Ok([]), cv) == Err(NoBytesRead(name))
    ensures ToJSON(name, Ok([]), cv) != Err(UnsupportedFileType)
  {
  }

  /** JSON input passes through byte for byte. */
  lemma JsonPassThrough(name: string, bs: Bytes, cv: Converters)
    requires Contains(name, ".json") && bs != []
    ensures ToJSON(name, Ok(bs), cv) == Ok(bs)
  {
    FormatOfContains(name);
  }

  /** A failing YAML or HCL conversion or marshal is reported with no output. */
  lemma ConverterFailurePropagates(name: string, bs: Bytes, cv: Converters)
    requires bs != []
    ensures FormatOf(name) == Yaml && cv.yamlToJson(bs).Err? ==>
      ToJSON(name, Ok(bs), cv) == Err(Foreign(cv.yamlToJson(bs).error))
    ensures FormatOf(name) == Terraform && cv.hclDecode(bs, name).Err? ==>
      ToJSON(name, Ok(bs), cv) == Err(Foreign(cv.hclDecode(bs, name).error))
    ensures FormatOf(name) == Terraform && cv.hclDecode(bs, name).Ok? && cv.marshal(cv.hclDecode(bs, name).value).Err? ==>
      ToJSON(name, Ok(bs), cv) == Err(Foreign(cv.marshal(cv.hclDecode(bs, name).value).error))
  {
  }
}
