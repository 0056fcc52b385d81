/** The command line of src/lib.rs: the `Config` record and `Config::new`, which
    reads the query and the file name from the program's arguments and takes the
    case mode from the environment. */
module Cli {
  import opened Strings

  /** What `Config::new` returns: a configuration or one of its error messages. */
  datatype Result<T> = Ok(value: T) | Err(error: string)

  /** The usage hint that ends every argument error. */
  const Usage: string := "USE: ./greppy 'query' 'filename'"
  const QueryNotSpecified: string := "Query not specified " + Usage
  const FilenameNotSpecified: string := "Filename not specified " + Usage
  const TooManyArguments: string := "Too many arguments " + Usage

  /** A search request: what to look for, where, and whether case matters. */
  datatype Config = Config(query: string, filename: string, caseSensitive: bool)
  {
    /** `Config::new`. `args` is the whole argument list, program path first,
        read front to back through the cursor `next` as the iterator is. The
        environment is not read: `envLookupOk` says whether looking up
        `CASE_INSENSITIVE` succeeded, and it is consulted only once the
        arguments have been accepted. */
    static method New(args: seq<string>, envLookupOk: bool) returns (r: Result<Config>)
      ensures |args| <= 1 ==> r == Err(QueryNotSpecified)
      ensures |args| == 2 ==> r == Err(FilenameNotSpecified)
      ensures |args| >= 4 ==> r == Err(TooManyArguments)
      ensures |args| == 3 ==> r == Ok(Config(args[1], args[2], !envLookupOk))
      ensures r.Ok? <==> |args| == 3
    {
      var next := 0;
      // the program path, skipped whether or not it is there
      if next < |args| {
        next := next + 1;
      }
      if next == |args| {
        return Err(QueryNotSpecified);
      }
      var query := args[next];
      next := next + 1;
      if next == |args| {
        return Err(FilenameNotSpecified);
      }
      var filename := args[next];
      next := next + 1;
      if next < |args| {
        return Err(TooManyArguments);
      }
      var caseSensitive := !envLookupOk;
      r := Ok(Config(query, filename, caseSensitive));
    }
  }

  /** Every argument error names what went wrong and then shows the usage, which
      mentions both the query and the file name. */
  lemma ErrorsShowUsage()
    ensures QueryNotSpecified == "Query not specified " + Usage
    ensures FilenameNotSpecified == "Filename not specified " + Usage
    ensures TooManyArguments == "Too many arguments " + Usage
    ensures Contains(Usage, "'query'") && Contains(Usage, "'filename'")
  {
    assert Usage[14..21] == "'query'";
    assert OccursAt(Usage, "'query'", 14);
    assert Usage[22..32] == "'filename'";
    assert OccursAt(Usage, "'filename'", 22);
  }
}
