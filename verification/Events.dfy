/** The parts of the pruning events that repair and wave analysis read. */
module Events {

  datatype ConstraintViolation = ConstraintViolation(
    constraintId: string,
    score: real,
    checkVerdicts: seq<bool>
  )

  /** One pruned proposal; `retryCount` is the wave at which it was pruned. */
  datatype BranchPrunedEvent = BranchPrunedEvent(
    rawOutput: string,
    violatedConstraints: seq<ConstraintViolation>,
    retryCount: nat
  )
}
