/** Failure-compatible result shapes shared by the whole model. */
module Wrappers {

  /** A value that may be missing: a failed API call, an unparsable answer. */
  datatype Option<+T> = None | Some(value: T)

  /** The Go `error` return of an operation that yields nothing else. */
  datatype Outcome<+E> = Pass | Fail(error: E)

  /** The errors the exporter side produces or passes through. */
  datatype Error =
    | InvalidExporterType(exportType: string)  // exporter.go: "invalid exporter type: %s"
    | External(detail: string)                 // an error returned by the OS, the driver or the file writer
}
