/** What a call of the devicetree reader can end in.

    The library returns `Result<_, &'static str>`; `Error` names its messages. It also reads memory through
    raw pointers, unwraps options and does checked arithmetic, so a call can end in neither `Ok` nor `Err`:
    `Trap` names those endings. */
module Outcomes {

  datatype Option<+T> = None | Some(value: T)

  /** One constructor for each error message of the library. */
  datatype Error =
    | BadMagic
    | BadVersion
    | BadQuery
    | NotBeginNode
    | UnexpectedInsideNode
    | UnexpectedAfterProperties
    | NotFullyParsed
    | NotUtf8
    | StringOverflow
    | ListTooShort
    | InvalidSize
    | RegAtRoot
    | RegMissing
    | CellsTooWide
    | RangesTooSmall

  /** The endings that are not a `Result`: a read past the end of memory (undefined in the original), an
      arithmetic overflow (a panic in the profile the build script uses), an `unwrap` of `None` (a panic),
      and a `reg` iteration with stride zero that still has not ended when it is not followed any further. */
  datatype Reason = OutOfBounds | Overflow | UnwrapNone | ZeroStride

  datatype Result<+T> = Ok(value: T) | Err(error: Error) | Trap(reason: Reason) {

    predicate IsFailure() {
      !Ok?
    }

    function PropagateFailure<U>(): Result<U>
      requires !Ok?
    {
      match this
      case Err(e) => Err(e)
      case Trap(r) => Trap(r)
    }

    function Extract(): T
      requires Ok?
    {
      value
    }
  }
}
