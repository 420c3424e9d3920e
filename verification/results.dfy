/** Outcome shapes shared by every modelled operation.

    The modelled code signals failure by raising Python exceptions. An exception
    does not roll back what the operation already did (a frontend lookup that
    misses flushes its buffer before the store raises), so a stateful operation
    returns the state it leaves behind together with its value or its error.
 */
module Results {

  /** The exception kinds the modelled code raises. */
  datatype Error =
    | KeyError       // key absent from a mapping, or an empty store popped
    | IndexError     // store index out of range, or `popleft` on an empty queue
    | TypeError      // iterating an `int`, `pop` given too many defaults, or
                     // indexing or measuring a handle a close set to None
    | StopIteration  // `next` on a cycle over no stores
    | AttributeError // a method looked up on a handle a close set to None

  datatype Option<+T> = None | Some(value: T)

  datatype Result<+T> = Ok(value: T) | Err(error: Error)

  /** What a stateful operation leaves behind and what it returned or raised. */
  datatype Ret<+S, +T> = Ret(state: S, result: Result<T>)
}
