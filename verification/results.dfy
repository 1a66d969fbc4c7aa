/** Outcomes of decoding. Every `unwrap()` and `assert_eq!` of the decoder
    panics in the Rust code; here each panic becomes an `Err` naming the check
    that failed, so that failure is something the model can reason about. */
module Results {

  /** The `Option` returned by a scalar parser. */
  datatype Option<+T> = None | Some(value: T)

  /** Why a decode failed. `index` is the zero-based field position. */
  datatype Error =
    | NoHeader             // the block has no first line to read keys from
    | HeaderMismatch       // pair record: header keys are not exactly key, value
    | MissingKey(index: nat)    // derived record: header has no key at this position
    | KeyMismatch(index: nat)   // derived record: header key differs from the field name
    | MissingPart(index: nat)   // the line has no tab-separated part at this position
    | BadValue(index: nat)      // the part at this position does not parse

  /** Success or the first failure; usable with `:-`. */
  datatype Result<+T> = Ok(value: T) | Err(error: Error) {

    predicate IsFailure() {
      Err?
    }

    function PropagateFailure<U>(): Result<U>
      requires Err?
    {
      Err(error)
    }

    function Extract(): T
      requires Ok?
    {
      value
    }
  }
}
