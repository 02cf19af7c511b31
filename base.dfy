/** Shared vocabulary of the text-file manager: failure-carrying results, the
    error kinds the C++ and C# code raise as exceptions, and the file system the
    core reads and writes (an external collaborator, modelled as state). */
module Base {

  datatype Option<T> = None | Some(value: T)

  /** The exceptions the core throws, one constructor per distinct message. */
  datatype Error =
    | FileNotFound(path: string)
    | EmptyFile(path: string)
    | WriteError(path: string)
    | ConversionFailed(path: string)
    | BufferTooSmall
    | InvalidLineNumber(token: string)     // std::stoull throws invalid_argument
    | LineNumberOutOfRange(token: string)  // std::stoull throws out_of_range

  datatype Result<T> = Success(value: T) | Failure(error: Error)

  /** A step that either completes or throws. */
  datatype Outcome = Pass | Fail(error: Error)

  /** std::max over line counts. */
  function Max(x: nat, y: nat): (m: nat)
    ensures x <= m && y <= m
    ensures m == x || m == y
  {
    if x < y then y else x
  }

  function Min(x: nat, y: nat): (m: nat)
    ensures m <= x && m <= y
    ensures m == x || m == y
  {
    if x < y then x else y
  }

  lemma AppendAssociative<T>(a: seq<T>, b: seq<T>, c: seq<T>)
    ensures a + (b + c) == (a + b) + c
  {
  }

  /** The files the program can see. A path opens for reading iff it is a key
      of `files`, whose value is the file's text; a path opens for writing
      (truncate mode, creating it if need be) iff it is not in `readOnly`. */
  class FileSystem {
    var files: map<string, string>
    var readOnly: set<string>

    constructor (files: map<string, string>, readOnly: set<string>)
      ensures this.files == files && this.readOnly == readOnly
    {
      this.files := files;
      this.readOnly := readOnly;
    }
  }
}
