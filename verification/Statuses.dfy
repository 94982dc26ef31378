/** The statuses of CI runs and jobs (internal/storage/ci.go). */
module Statuses {
  datatype RunStatus = RunQueued | RunRunning | RunAwaitingInput | RunFinishing
                     | RunSuccess | RunFailed | RunCanceled | RunError | RunInterrupted | RunStalled
  {
    predicate Terminal() {
      this in {RunSuccess, RunFailed, RunCanceled, RunError, RunInterrupted, RunStalled}
    }
  }

  /** The four states that cancellation lists are all the others. */
  lemma OpenOrTerminal(s: RunStatus)
    ensures s.Terminal() <==> s !in {RunQueued, RunRunning, RunAwaitingInput, RunFinishing}
  {
  }

  datatype JobStatus = JobQueued | JobRunning | JobSuccess | JobFailed | JobSkipped | JobError | JobInterrupted
  {
    predicate Terminal() { this != JobQueued && this != JobRunning }
  }
}
