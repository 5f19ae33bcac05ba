/** Verdicts of the two rate limiters, and the wait they announce. */
module Quotas {
  type Positive = n: nat | n > 0 witness 1

  datatype Verdict = Allowed | Refused(retryAfter: int)

  function CeilDiv(a: int, b: Positive): (r: int)
    ensures a <= b * r < a + b
    ensures a >= 0 ==> r >= 0
  {
    (a + b - 1) / b
  }

  /** Whole seconds from `now` until `span` after `oldest`, at least one. */
  function RetryAfter(oldest: int, span: int, now: int): int {
    var seconds := CeilDiv(oldest + span - now, 1000);
    if seconds < 1 then 1 else seconds
  }
}
