/** The transient-retry loop of `backend/app/services/document_crud_service.py`. */
module Retry {

  function Pow2(n: nat): nat {
    if n == 0 then 1 else 2 * Pow2(n - 1)
  }

  /** How one call of the operation ends. */
  datatype Attempt<T> =
    | Returned(value: T)
    | Transient(error: string)
    | Fatal(error: string)

  /** `op(n)` is what the operation does on its call number `n`, counted from 0. The result is
      that of the first call that is not a transient failure, or of the last one that is
      allowed; before it come only transient failures, each followed by a client refresh and a
      delay that doubles. */
  method ExecuteWithTransientRetry<T>(op: nat -> Attempt<T>, maxAttempts: int)
    returns (result: Attempt<T>, calls: nat, refreshes: nat, delay: real)
    ensures 1 <= calls && (calls == 1 || calls <= maxAttempts)
    ensures result == op(calls - 1) && (result.Transient? ==> calls >= maxAttempts)
    ensures forall n :: 0 <= n < calls - 1 ==> op(n).Transient?
    ensures refreshes == calls - 1
    ensures delay == 0.15 * (Pow2(calls - 1) - 1) as real
  {
    var attempt := 0;
    calls, refreshes, delay := 0, 0, 0.0;
    while true
      invariant calls == refreshes == attempt
      invariant attempt == 0 || attempt < maxAttempts
      invariant forall n :: 0 <= n < attempt ==> op(n).Transient?
      invariant delay == 0.15 * (Pow2(attempt) - 1) as real
      decreases maxAttempts - attempt
    {
      result := op(calls);
      calls := calls + 1;
      if result.Returned? {
        return;
      }
      attempt := attempt + 1;
      var shouldRetry := result.Transient? && attempt < maxAttempts;
      if !shouldRetry {
        return;
      }
      var delaySeconds := 0.15 * Pow2(attempt - 1) as real;
      refreshes := refreshes + 1;
      delay := delay + delaySeconds;
    }
  }
}
