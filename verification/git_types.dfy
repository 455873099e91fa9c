/**
 * The records of internal/crud/git.go: a file entry, the collection a walk
 * produces, a filter rule, and the JSON document the collection encodes to.
 */
module GitTypes {
  import opened Wrappers
  import opened Conv

  /**
   * The content stream of a blob (the entry's `Reader`). Reading it to the end
   * leaves nothing for a later reader; every copy of an entry shares it.
   */
  class BlobReader {
    var unread: Bytes

    constructor (data: Bytes)
      ensures unread == data
    {
      unread := data;
    }

    /** ioutil.ReadAll on the stream: what was left, after which nothing is. */
    method ReadAll() returns (bs: Bytes)
      modifies this
      ensures bs == old(unread) && unread == []
    {
      bs := unread;
      unread := [];
    }
  }

  /** A file entry (`file`); `fileType` is the Go field `Type`. */
  datatype File = File(
    hash: string,
    name: string,
    fileType: string,
    url: string,
    config: bool,
    extension: string,
    outputPolicy: string,
    appliedPolicy: string,
    content: string,
    reader: BlobReader)

  /** The policy found in the repository: only its name and content are ever set. */
  datatype PolicyFile = PolicyFile(name: string, content: string)

  /** `GitCollection`. */
  datatype GitCollection = GitCollection(
    baseURL: string,
    baseHash: string,
    baseDir: string,
    fileCount: int,
    languages: seq<string>,
    unknownLanguages: seq<string>,
    policy: Option<PolicyFile>,
    coll: seq<File>)

  /** A filter rule (`Config`): a label, a regexp over file names and an optional policy URL. */
  datatype Config = Config(name: string, filter: string, policyURL: string)

  /** A file as encoded: the fields whose JSON tag is not "-". */
  datatype FileDoc = FileDoc(
    name: string,
    fileType: string,
    extension: string,
    content: string,
    outputPolicy: string,
    appliedPolicy: string)

  /** A collection as encoded: file_count, file_extensions, unknown_file_extensions and file. */
  datatype CollectionDoc = CollectionDoc(
    fileCount: int,
    fileExtensions: seq<string>,
    unknownFileExtensions: seq<string>,
    file: seq<FileDoc>)

  function FileToDoc(f: File): FileDoc
  {
    FileDoc(f.name, f.fileType, f.extension, f.content, f.outputPolicy, f.appliedPolicy)
  }

  /** The document json.Encode writes for a collection. */
  function ToDoc(c: GitCollection): (d: CollectionDoc)
    ensures |d.file| == |c.coll|
  {
    CollectionDoc(c.fileCount, c.languages, c.unknownLanguages, seq(|c.coll|, i requires 0 <= i < |c.coll| => FileToDoc(c.coll[i])))
  }

  /** Two files look alike to a reader of the document. */
  predicate SameVisibleFile(f: File, g: File)
  {
    f.name == g.name && f.fileType == g.fileType && f.extension == g.extension
    && f.content == g.content && f.outputPolicy == g.outputPolicy && f.appliedPolicy == g.appliedPolicy
  }

  /**
   * The encoding keeps exactly the visible fields: two collections encode
   * alike if and only if their counts, language lists and files' visible
   * fields agree. Hash, URL, Config, Reader, the base fields and the policy
   * never reach the document.
   */
  lemma ToDocExactlyVisible(c: GitCollection, c': GitCollection)
    ensures ToDoc(c) == ToDoc(c') <==>
      && c.fileCount == c'.fileCount
      && c.languages == c'.languages
      && c.unknownLanguages == c'.unknownLanguages
      && |c.coll| == |c'.coll|
      && forall i :: 0 <= i < |c.coll| ==> SameVisibleFile(c.coll[i], c'.coll[i])
  {
    if ToDoc(c) == ToDoc(c') {
      forall i | 0 <= i < |c.coll|
        ensures SameVisibleFile(c.coll[i], c'.coll[i])
      {
        assert ToDoc(c).file[i] == ToDoc(c').file[i];
      }
    }
  }
}
