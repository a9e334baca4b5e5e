/**
 * The state that flows between the agent's graph nodes (src/agent/state.py)
 * and the plan and result records it carries (src/models/task.py).
 *
 * The agent state is a Python dictionary, and the routers read it with
 * `get` and a default; a key that is absent is modelled as `None` for the
 * integer counters (read as 0) and as `None` or an empty list elsewhere,
 * which the routers treat the same way.
 */
module AgentState {
  import opened Optional

  datatype ActionType =
    | Navigate | Search | Click | Type | Extract | Screenshot | Wait | AnalyzePage | RequestConfirmation

  datatype BrowserAction = BrowserAction(
    actionType: ActionType, target: Option<string>, value: Option<string>, reason: string, isSensitive: bool)

  datatype TaskPlan = TaskPlan(
    taskDescription: string, steps: seq<BrowserAction>, estimatedDuration: Option<string>, requiresUserData: bool)

  datatype ExecutionResult = ExecutionResult(
    action: BrowserAction, success: bool, errorMessage: Option<string>, extractedData: Option<string>,
    screenshotPath: Option<string>)

  /** The agent state; `messages` keeps the text of each exchanged message. */
  datatype State = State(
    userRequest: string,
    messages: seq<string>,
    taskPlan: Option<TaskPlan>,
    currentAction: Option<BrowserAction>,
    currentActionIndex: Option<int>,
    executionResults: seq<ExecutionResult>,
    errorCount: Option<int>,
    lastError: Option<string>,
    pendingConfirmation: Option<string>,
    userConfirmed: bool,
    finalMessage: Option<string>,
    success: bool,
    currentUrl: Option<string>,
    screenshotsTaken: seq<string>)

  /** `state.get("current_action_index", 0)`. */
  function ActionIndex(s: State): int
  {
    if s.currentActionIndex.Some? then s.currentActionIndex.value else 0
  }

  /** `state.get("error_count", 0)`. */
  function Errors(s: State): int
  {
    if s.errorCount.Some? then s.errorCount.value else 0
  }

  /** The state a new task starts from. */
  function CreateInitialState(userRequest: string): (s: State)
    ensures s.userRequest == userRequest
    ensures s.messages == [] && s.executionResults == [] && s.screenshotsTaken == []
    ensures ActionIndex(s) == 0 && Errors(s) == 0
    ensures s.taskPlan.None? && s.currentAction.None? && s.lastError.None?
    ensures s.pendingConfirmation.None? && s.finalMessage.None? && s.currentUrl.None?
    ensures !s.success && !s.userConfirmed
  {
    State(
      userRequest := userRequest,
      messages := [],
      taskPlan := None,
      currentAction := None,
      currentActionIndex := Some(0),
      executionResults := [],
      errorCount := Some(0),
      lastError := None,
      pendingConfirmation := None,
      userConfirmed := false,
      finalMessage := None,
      success := false,
      currentUrl := None,
      screenshotsTaken := [])
  }

  /** The one real transition of the execute node: the action index (which
      it reads without a default) moves on by one. */
  function AdvanceIndex(s: State): (t: State)
    requires s.currentActionIndex.Some?
    ensures ActionIndex(t) == s.currentActionIndex.value + 1
    ensures t.taskPlan == s.taskPlan && t.errorCount == s.errorCount
    ensures t.pendingConfirmation == s.pendingConfirmation && t.executionResults == s.executionResults
  {
    s.(currentActionIndex := Some(s.currentActionIndex.value + 1), currentAction := None)
  }
}
