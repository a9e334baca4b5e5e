/**
 * The routing decisions of the agent's graph (src/agent/graph.py): four
 * total functions from the state to the name of the next node.
 */
module AgentGraph {
  import opened AgentState

  const MaxRetries := 3

  /** "execute" while a plan has steps left, else "finalize". */
  function ShouldContinueExecution(s: State): (r: string)
    ensures r == "execute" || r == "finalize"
    ensures r == "execute" <==> s.taskPlan.Some? && ActionIndex(s) < |s.taskPlan.value.steps|
  {
    if s.taskPlan.Some? && ActionIndex(s) < |s.taskPlan.value.steps| then "execute" else "finalize"
  }

  /** "confirm" when a non-empty confirmation request is pending, else "verify". */
  function ShouldSeekConfirmation(s: State): (r: string)
    ensures r == "confirm" || r == "verify"
    ensures r == "confirm" <==> s.pendingConfirmation.Some? && s.pendingConfirmation.value != ""
  {
    if s.pendingConfirmation.Some? && s.pendingConfirmation.value != "" then "confirm" else "verify"
  }

  /** "execute" while fewer than three errors were counted, else "finalize". */
  function ShouldRetryOrAbort(s: State): (r: string)
    ensures r == "execute" || r == "finalize"
    ensures r == "execute" <==> Errors(s) < MaxRetries
  {
    if Errors(s) < MaxRetries then "execute" else "finalize"
  }

  /** "error" when the latest result failed, else "continue". */
  function ShouldHandleError(s: State): (r: string)
    ensures r == "error" || r == "continue"
    ensures s.executionResults == [] ==> r == "continue"
    ensures r == "error" <==> s.executionResults != [] && !s.executionResults[|s.executionResults| - 1].success
  {
    if s.executionResults == [] then "continue"
    else if !s.executionResults[|s.executionResults| - 1].success then "error"
    else "continue"
  }

  /** The state after the execute node has run `n` times. */
  function AdvanceBy(s: State, n: nat): (t: State)
    requires s.currentActionIndex.Some?
    ensures t.currentActionIndex.Some? && t.taskPlan == s.taskPlan
    decreases n
  {
    if n == 0 then s else AdvanceIndex(AdvanceBy(s, n - 1))
  }

  /**
   * Executing a plan from index `i` routes to "execute" exactly while steps
   * remain: for the first |steps| - i advances and never after.
   */
  lemma {:induction false} ExecutionRunsOut(s: State, n: nat)
    requires s.currentActionIndex.Some?
    ensures ActionIndex(AdvanceBy(s, n)) == s.currentActionIndex.value + n
    ensures ShouldContinueExecution(AdvanceBy(s, n)) == "execute" <==>
      s.taskPlan.Some? && s.currentActionIndex.value + n < |s.taskPlan.value.steps|
    decreases n
  {
    if n > 0 {
      ExecutionRunsOut(s, n - 1);
    }
  }

  /** Once execution is finished it stays finished as the index moves on. */
  lemma FinalizeIsStable(s: State)
    requires s.currentActionIndex.Some? && ShouldContinueExecution(s) == "finalize"
    ensures ShouldContinueExecution(AdvanceIndex(s)) == "finalize"
  {
  }

  /** More errors never turn an abort back into a retry; three or more always abort. */
  lemma RetryIsMonotone(s: State, t: State)
    requires Errors(s) <= Errors(t)
    ensures ShouldRetryOrAbort(s) == "finalize" ==> ShouldRetryOrAbort(t) == "finalize"
    ensures Errors(t) >= MaxRetries ==> ShouldRetryOrAbort(t) == "finalize"
  {
  }

  /** Only the pending confirmation decides, so the execute node's step never changes the answer. */
  lemma ConfirmationOnlyPending(s: State, t: State)
    requires s.pendingConfirmation == t.pendingConfirmation
    ensures ShouldSeekConfirmation(s) == ShouldSeekConfirmation(t)
    ensures s.currentActionIndex.Some? ==> ShouldSeekConfirmation(AdvanceIndex(s)) == ShouldSeekConfirmation(s)
  {
  }

  /** Only the latest result decides: earlier failures are ignored. */
  lemma OnlyLastResultCounts(s: State, earlier: seq<ExecutionResult>, last: ExecutionResult)
    ensures ShouldHandleError(s.(executionResults := earlier + [last])) == if last.success then "continue" else "error"
  {
  }

  /** A fresh task has no plan, so the first routing decision is to finalize;
      nothing is pending, no error was counted and no result exists. */
  lemma InitialRouting(userRequest: string)
    ensures var s := CreateInitialState(userRequest);
      && ShouldContinueExecution(s) == "finalize"
      && ShouldSeekConfirmation(s) == "verify"
      && ShouldRetryOrAbort(s) == "execute"
      && ShouldHandleError(s) == "continue"
  {
  }
}
