/** Types shared by every component. */
module Basics {

  datatype Option<+T> = None | Some(value: T)

  /** A C++ call that may throw: the value it returns, or nothing. */
  datatype Result<+T> = Ok(value: T) | Err
  {
    predicate IsFailure() { Err? }
    function PropagateFailure<U>(): Result<U>
      requires Err?
    {
      Err
    }
    function Extract(): T
      requires Ok?
    {
      value
    }
  }

  /** `need` and `require` of the source: throw unless the condition holds. */
  datatype Outcome = Pass | Fail
  {
    predicate IsFailure() { Fail? }
    function PropagateFailure<U>(): Result<U>
      requires Fail?
    {
      Err
    }
  }

  function Need(condition: bool): Outcome {
    if condition then Pass else Fail
  }

  type Byte = x: int | 0 <= x < 256
  type Bytes = seq<Byte>

  /** A UTF-16 code unit, the `wchar_t` of Windows. */
  type WChar = x: int | 0 <= x < 65536
  type WString = seq<WChar>

  function Min(a: int, b: int): int {
    if a < b then a else b
  }
}
