/**
 * Option, bound, error and result types shared by every module. The variants of `Error`
 * carry the names of the crate's own error enum; `Panic` stands for a Rust
 * `panic!`, an `unreachable!()`, a failed `unwrap` or an out-of-range index,
 * so that each operation is total and its failure mode can be stated.
 */
module Common {

  datatype Option<T> = None | Some(value: T)

  /** `std::ops::Bound`. */
  datatype Bound<T> = Included(at: T) | Excluded(at: T) | Unbounded

  datatype Error =
    | UnReachable(reason: string)
    | UnExpectedFail(reason: string)
    | InvalidCAS
    | ShortBuffer(want: nat, have: nat)   // util::check_remaining
    | PartialRead(want: nat, got: nat)
    | ZBlockOverflow(size: nat)
    | MBlockExhausted
    | ZBlockExhausted
    | InvalidUtf8
    | Panic(reason: string)

  datatype Result<T> = Ok(value: T) | Err(error: Error)

  /** `util::check_remaining(buf, want, ..)`: fails unless `buf` holds at least `want` bytes. */
  function CheckRemaining(have: nat, want: nat): (r: Result<()>)
    ensures r.Ok? <==> want <= have
    ensures r.Err? ==> r.error == ShortBuffer(want, have)
  {
    if have < want then Err(ShortBuffer(want, have)) else Ok(())
  }
}
