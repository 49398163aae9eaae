/** Definitions shared by the models. */
module Common {
  datatype Option<T> = None | Some(value: T)

  /** Thread identifiers of core/kernel/thread.c. */
  type Thread = nat

  function Pow2(n: nat): (r: nat)
    ensures r > 0
  {
    if n == 0 then 1 else 2 * Pow2(n - 1)
  }
}
