/**
 * The error values the Rust parsers raise. The source builds them with
 * `bail!`/`format_err!`/`ensure!`; the model keeps the offending key, token or
 * lines so that a contract can say which one was reported.
 */
module Errors {

  /** What `with_context` attaches in the newer parser generation. */
  datatype Context =
    | NoPackage                     // "no Package: {map}"
    | SourceFields(name: string)    // "source fields in {name}"
    | BinaryFields(name: string)    // "binary fields in {name}"
    | SharedFields(name: string)    // "shared fields in {name}"
    | ReadingArchitecture           // "reading Architecture"

  datatype Error =
    | MissingKey(key: string)              // "missing key: {key}"
    | NotOneLine(lines: seq<string>)       // "{lines} isn't exactly one line"
    | UnrecognisedArch(token: string)      // "unrecognised arch: {token}"
    | UnsupportedPriority(token: string)   // "unsupported priority: '{token}'"
    | BadInteger(text: string)             // u64::from_str failure
    | FileNotFoundInRelease                // "file not found in release"
    | Collaborator(detail: string)         // raised by a helper outside this model
    | WithContext(context: Context, inner: Error)
}
