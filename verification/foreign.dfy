/**
 * The collaborators the engine calls but does not implement: the commit tree
 * go-git enumerates, enry's language lookups and Go's regexp package. Each is
 * given as data or as a function, so the model holds for any behaviour of it.
 */
module Foreign {
  import opened Wrappers

  /**
   * One file of the commit tree as tree.Files().ForEach presents it: its path,
   * its blob hash, and what reading the blob yields (its bytes, or the error
   * that both f.Reader() and f.Contents() report).
   */
  datatype TreeFile = TreeFile(name: string, hash: string, blob: Result<string, string>)

  /** The bytes of a file whose blob could be read, "" otherwise. */
  function Data(f: TreeFile): string
  {
    if f.blob.Ok? then f.blob.value else ""
  }

  /** enry.GetLanguageByExtension and enry.GetLanguageByContent; "" means the language is not known. */
  datatype Linguist = Linguist(byExtension: string -> string, byContent: (string, string) -> string)

  /** regexp.Compile succeeding on a pattern, and MatchString of a compiled pattern on a string. */
  datatype Regexps = Regexps(compiles: string -> bool, matches: (string, string) -> bool)
}
