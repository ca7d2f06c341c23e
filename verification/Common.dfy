/** Types shared by the whole model: results, byte strings, request variables and runs. */
module Common {
  datatype Option<+T> = None | Some(value: T)

  type Byte = b: int | 0 <= b < 256
  type Bytes = seq<Byte>

  /** A run: the actions taken so far, latest on the outside. */
  datatype Run<+A> = Start | Then(before: Run<A>, action: A)

  /** The run `r` continued by the actions of `more`, in order. */
  function Continue<A>(r: Run<A>, more: seq<A>): Run<A>
    decreases more
  {
    if more == [] then r else Continue(Then(r, more[0]), more[1..])
  }

  /** `p` is one of the runs that `r` went through, `r` itself included. */
  ghost predicate Within<A>(p: Run<A>, r: Run<A>) {
    p == r || (r.Then? && Within(p, r.before))
  }
}
