/** Failure-carrying values shared by the three stages of the correlation
    pipeline. Every error of the source aborts the whole run, so one error
    type, one constructor per way a run can fail, is enough. */
module Results {

  datatype Option<+T> = None | Some(value: T)

  /** The fatal errors of the pipeline; each carries the context the source
      puts into its error message (page number, tag name, git arguments, line). */
  datatype Error =
    | FetchFailed(page: int)              // the registry request for a page failed
    | DecodeFailed(page: int)             // the page body is not a tag listing
    | WrongPage(expected: int, got: int)  // the listing declares another page number
    | BadTagTime(name: string)            // last_modified of a 40-byte tag does not parse
    | GitFailed(args: seq<string>)        // git log exited with an error
    | BadLine(line: string)               // a git output line is not "sha<NBSP>date"
    | BadCommitTime(raw: string)          // a first-seen commit date does not parse

  datatype Result<+T> = Ok(value: T) | Err(error: Error)
}
