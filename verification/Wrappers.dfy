/** Outcome types for the fallible operations of the client, and writing into a buffer of the caller. */
module Wrappers {

  datatype Option<+T> = None | Some(value: T)

  /** Rust's `Result`; a panic of the original code is reported as an error too. */
  datatype Result<+T> = Ok(value: T) | Err(error: Error)

  datatype Error =
    | IoError      // io::Error built by util::io_error
    | ImplError    // HdbError::Impl, HdbError::ImplDetailed
    | UsageError   // HdbError::Usage
    | Panic        // unwrap on Err, index out of range, unreachable!, failed assert!

  /** `write_all` into the front of a buffer. */
  method WriteAll<T>(buf: array<T>, data: seq<T>)
    requires |data| <= buf.Length
    modifies buf
    ensures buf[..|data|] == data
    ensures buf[|data|..] == old(buf[..])[|data|..]
  {
    forall i | 0 <= i < |data| {
      buf[i] := data[i];
    }
  }
}
