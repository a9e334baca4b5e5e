# Browser agent page model in Dafny

This project models the page-model core of a browser-automation agent. The
agent reads a web page in two ways:

- **Accessibility tree** (`src/utils/a11y_tree.py`). It finds the "working
  node" of a search-results page: the `main` region, or the parent of a
  "Search Results" header inside it. It then splits that node into blocks of
  information, climbing from every link until it meets a sibling link or the
  working node.
- **Interactive elements** (`src/browser/locator.py`). It gathers elements
  matching a fixed list of CSS selectors and turns each into a record whose
  selector is `#id`, `tag[name='…']` or `unknown`. Long contents are
  truncated, `None` fields are dropped, and the list is deduplicated by
  selector.

The element tools (`src/tools/interaction.py`) share one elements cache (a
singleton manager in `src/services/tools_cache_manager.py`):

- the listing tool rebuilds the cache and groups the records by type;
- the click, input and context tools guard their lookups against that cache;
- the context tool formats an ancestor report.

The agent graph (`src/agent/graph.py`) routes between its nodes with four
pure routers over the agent state (`src/agent/state.py`).

## Modules

- **`A11yArena`**: the tree is a sequence of nodes whose children have
  larger indices than their parent. Index identity stands for Python's `is`
  and for `==` on the same dict object. The recursive depth-first traversal of the
  source is `Walk`; `Start`/`Next` are a cursor over it with an explicit
  stack, which the loops of the model step through in place of the
  recursion. Children given as a dict are modelled by the list of its
  values, in order.
- **`A11yTree`**: `find_working_node`, `prepare_tree`, the climb,
  `extract_information_blocks` and `has_link_somewhere`, with the lemmas
  that say what they compute.
- **`Locator`**: the selector generator and its parser. Also each element's
  record, built from what the page reports for it (the probes of the source
  become inputs that either return a value or raise), and the collection and
  dedup of `list_interactive_elements`.
- **`ElementsCache`**: the manager and its dictionary as classes, and the
  singleton as a registry object.
- **`Interaction`**: the cache rebuild, the grouping by type, the tool
  guards and the context report.
- **`AgentState`**, **`AgentGraph`**: the state record, the initial state
  and the routers.
- **`Text`**, **`Optional`**: string helpers (Python's `strip`, `in` and
  decimal rendering of integers) and an option type.

Nodes are compared with Python's `==` in three places: `main_node in path`
(src/utils/a11y_tree.py:33) and the two stop tests of the climb (lines 124
and 150). The model compares them by identity, and the answers are the same.
The two climb tests compare a node with an ancestor of it, and a proper
descendant can never be equal to its ancestor. For `main_node in path`, a
main node equal to an ancestor of the header without being that ancestor
would have been visited before it. That ancestor is a main node too, so it
would have replaced it as the last main node seen.

`seen_block_ids` is written but never read. With its `.append` repaired,
extract_information_blocks returns one block per link, repeats included
(`A11yTree.InformationBlocks`); see "## Findings".

## Model

| member | source | states |
|---|---|---|
| A11yArena.Start | src/utils/a11y_tree.py:46 | the cursor started at the root has the whole depth-first traversal still to visit |
| A11yArena.Next | src/utils/a11y_tree.py:38-44 | each step yields the next call of the traversal, and what remains afterwards is exactly the rest of it; no call is yielded once the traversal is over |
| A11yArena.WalkParents | src/utils/a11y_tree.py:38-44 | every call of the traversal other than the first is made on a child of a dict node whose own call, one level up the path, is in the same traversal |
| A11yTree.FindWorkingNode | src/utils/a11y_tree.py:1-57 | the calls that run are the traversal up to the first one that sets the stop flag, or the whole traversal when none does; the answer is the working node of the tree |
| A11yTree.WorkingNodeCharacterised | src/utils/a11y_tree.py:19-36 | if the traversal stops at a main node met after a "Search Results" header, that main node; if it stops at such a header below the latest main node, the header's parent; if it never stops, the last main node, or None |
| A11yTree.NoHeaderGivesMain | src/utils/a11y_tree.py:19-26 | without any "Search Results" header the answer is the last main node of the traversal, and None exactly when there is no main node |
| A11yTree.WorkingNodeShape | src/utils/a11y_tree.py:48-57 | the answer is None exactly when the tree has no main node; otherwise it is a main node or the dict parent of a "Search Results" header that lies below a main node |
| A11yTree.PrepareTree | src/utils/a11y_tree.py:95-114 | the walk from the working node records the parent of every dict child and collects the links in walk order |
| A11yTree.ParentsShape | src/utils/a11y_tree.py:95-114 | each recorded parent is a dict node with a smaller index holding the child among its children, and is the working node or itself recorded; the working node has no entry |
| A11yTree.BlockOf | src/utils/a11y_tree.py:117-156 | the block of a link is the link or a node above it (never a later index) at which one of the stop conditions holds |
| A11yTree.BlockIsFirstStop | src/utils/a11y_tree.py:117-156 | the block is the first node on the link's parent chain at which a stop condition holds; every node before it on the chain fails all of them |
| A11yTree.Climb | src/utils/a11y_tree.py:117-156 | the climb from a link ends at the first node on its chain of parents that has no recorded parent, is the working node, has a link among its siblings, or sits directly under the working node |
| A11yTree.ExtractInformationBlocks | src/utils/a11y_tree.py:116-158 | the result holds one block per link, in link order, each the end of that link's climb |
| A11yTree.InformationBlocks | src/utils/a11y_tree.py:116-158 | there are exactly as many blocks as links below the working node, and none without a working node |
| A11yTree.BlocksMeaning | src/utils/a11y_tree.py:117-156 | there is one block per link; each block is on the link's chain of parents, stops the climb, lies inside the working node, and is the working node only when the link is |
| A11yTree.BlocksAsWritten | src/utils/a11y_tree.py:69 | as written, the function raises AttributeError exactly when the repaired function would return a block (the working node has a link), and otherwise returns the same empty list |
| A11yTree.ThreeResultsWorkingNode | src/utils/a11y_tree.py:19-26 | on a main region holding three results, each with a title, link and snippet, the working node is the main node |
| A11yTree.ThreeResultsBlocks | src/utils/a11y_tree.py:117-156 | on that page the three blocks are the three result containers |
| A11yTree.ThreeResultsCrashAsWritten | src/utils/a11y_tree.py:69 | on that page the code as written raises AttributeError at the first `.append` on the set |
| A11yTree.HeaderInsideMain | src/utils/a11y_tree.py:28-36 | a "Search Results" header inside main makes the header's parent the working node |
| A11yTree.HeaderOutsideMain | src/utils/a11y_tree.py:19-36 | when the header comes before the main node, the traversal stops at the main node and the main node is the answer |
| A11yTree.HasLinkSomewhere | src/utils/a11y_tree.py:72-92 | a link node answers true at once, and a childless node answers whether it is a link itself |
| A11yTree.HasLinkSomewhereMeaning | src/utils/a11y_tree.py:72-92 | a node has a link somewhere exactly when some node of its subtree's walk is a link |
| Locator.ParseGenerated | src/browser/locator.py:210-228 | parsing a generated selector gives back which case produced it: the id, the tag and name, or unknown |
| Locator.SameSelectorIffSameKind | src/browser/locator.py:210-228 | two elements get the same selector exactly when they fall in the same case with the same id, or the same tag and name |
| Locator.GenerateSelector | src/browser/locator.py:210-228 | the selector is "unknown" exactly when there is neither a non-empty id nor a non-empty name; with an id it is "#" followed by the id; otherwise it starts with the tag and "[name='" |
| Locator.TruncateContents | src/browser/locator.py:126-128 | contents of more than 200 characters become their first 197 followed by "..."; shorter contents are unchanged |
| Locator.RawContents | src/browser/locator.py:121-130 | an input's or textarea's contents are its input value; any other element's are its inner text passed through `TruncateContents` (kept up to 200 characters, otherwise the first 197 and "..."); a read that raises gives ""; only input values may exceed 200 characters |
| Locator.IsEnabled | src/browser/locator.py:119 | the flag is false only for an input, button, select or textarea that the page reports disabled, and for those it is the page's answer |
| Locator.LabelText | src/browser/locator.py:148-163 | a non-empty `label[for=id]` text wins; a raised lookup gives no label; without an id only form controls get a label, and any other label found is the enclosing label's text; an input, textarea or select with no raised lookup and no non-empty `label[for=id]` text takes its non-empty enclosing label |
| Locator.Info | src/browser/locator.py:167-182 | only the fourteen keys of `element_info` can hold a value; tag, contents, selector, visibility and enabled state always do, and the selector is the generated one |
| Locator.BuildRecord | src/browser/locator.py:167-185 | the record has exactly the keys whose value is not None, each with that value |
| Locator.RecordFixedKeys | src/browser/locator.py:117-182 | every record has a selector, tag name, visibility, enabled flag and stripped contents and never a `type` key; enabled is true outside input, button, select and textarea |
| Locator.RecordOptionalKeys | src/browser/locator.py:132-182 | each attribute key is present exactly when the attribute is; input_type only for inputs; the label only when one was found |
| Locator.KeepFirst | src/browser/locator.py:199-208 | the dedup keeps records with selectors, keeps every selector that occurs, and never grows the list |
| Locator.KeepFirstMeaning | src/browser/locator.py:199-208 | the dedup keeps exactly the first record of each selector, in order, so the kept selectors are pairwise distinct |
| Locator.AtMostOneUnknown | src/browser/locator.py:199-208 | at most one element with the selector "unknown" survives the dedup |
| Locator.InteractiveElementsFacts | src/browser/locator.py:106-208 | every listed record has a selector, no `type` key, and an id that is a string when present |
| Locator.ListInteractiveElements | src/browser/locator.py:72-208 | the loops over selectors and matches, the skip rule, the dropped failures and the dedup give the listed elements |
| ElementsCache.ElementsCacheManager.constructor | src/services/tools_cache_manager.py:18-20 | a new manager holds a fresh, empty dictionary |
| ElementsCache.ElementsCacheManager.GetCache | src/services/tools_cache_manager.py:22-23 | returns the dictionary itself, not a copy |
| ElementsCache.ElementsCacheManager.SetCache | src/services/tools_cache_manager.py:25-26 | the manager now refers to the given dictionary |
| ElementsCache.ElementsCacheManager.ClearCache | src/services/tools_cache_manager.py:28-29 | the current dictionary is emptied in place |
| ElementsCache.ElementsCacheManager.GetElement | src/services/tools_cache_manager.py:31-32 | returns the stored record exactly when the key is present |
| ElementsCache.Registry.GetElementsCache | src/services/tools_cache_manager.py:5-36 | the first call creates one manager with an empty cache; every later call returns that same manager with its cache untouched |
| ElementsCache.ClearEmptiesEarlierHandles | src/services/tools_cache_manager.py:22-29 | a dictionary obtained before a clear is the one emptied |
| ElementsCache.SetLeavesEarlierHandles | src/services/tools_cache_manager.py:22-26 | a dictionary obtained before a replace keeps its entries, and the manager holds the new one (also when the new one is the current dictionary) |
| ElementsCache.SharedInstance | src/services/tools_cache_manager.py:12-16 | two registry lookups give one object, so a replace through one is seen through the other |
| Interaction.IdIndexKeys | src/tools/interaction.py:317-318 | the rebuilt cache's keys are exactly the elements' ids |
| Interaction.IdIndexLast | src/tools/interaction.py:317-318 | each id maps to the last element carrying it |
| Interaction.IdIndex | src/tools/interaction.py:315-318 | the new cache has at most one entry per element, and the last element is stored under its own id |
| Interaction.GroupKeys | src/tools/interaction.py:328-333 | the group keys are distinct and are exactly the types that occur |
| Interaction.GroupMembers | src/tools/interaction.py:328-333 | each group holds exactly the elements of its type, in list order |
| Interaction.GroupSizes | src/tools/interaction.py:328-335 | the groups together hold as many elements as the list |
| Interaction.AllUnknown | src/tools/interaction.py:330 | when no record has a type, all elements form the single group "unknown" |
| Interaction.GroupsOf | src/tools/interaction.py:327-333 | there are never more groups than elements, and at least one group when there is an element |
| Interaction.GroupByType | src/tools/interaction.py:327-333 | the dictionary-and-order loop yields the groups by type in first-appearance order |
| Interaction.GetInteractiveElements | src/tools/interaction.py:296-342 | no page: "not connected" with the cache untouched; otherwise the old dictionary is cleared in place, and then either a record without an id fails with KeyError 'id' or a fresh cache indexed by id is installed and the elements are reported |
| Interaction.RefreshedListing | src/tools/interaction.py:317-335 | after a refresh every cache key is a string and the listing has the single group "unknown" |
| Interaction.GuardMeaning | src/tools/interaction.py:63-69 | a tool proceeds exactly when connected and the integer id is cached, with that record; "not connected" is checked first; "not found" names the id in decimal |
| Interaction.ToolsMissAfterRefresh | src/tools/interaction.py:132-138 | after a refresh, whose keys are string DOM ids, every integer id lookup is "not found" |
| Interaction.Guard | src/tools/interaction.py:63-69 | a tool proceeds only when the page is connected and the integer id is cached, then with that id's record; otherwise the not-connected answer comes first, then the tool's not-found answer (the input and context tools guard the same way at lines 132-138 and 202-208) |
| Interaction.CheckGuards | src/tools/interaction.py:202-208 | the guard steps read the shared cache and answer as the guard says |
| Interaction.ShownClass | src/tools/interaction.py:260-262 | a class name longer than 50 characters is cut to 50 and marked with "..."; a shorter one is shown whole |
| Interaction.ShownText | src/tools/interaction.py:219 | the text shows its first 200 characters (or all of it) followed by "..." |
| Interaction.StopNoteIffText | src/tools/interaction.py:256-266 | an ancestor's line ends with the stop note exactly when the ancestor has text |
| Interaction.EntryText | src/tools/interaction.py:256-266 | each ancestor's lines start with "\nLevel", its level and its tag |
| Interaction.ContextHeader | src/tools/interaction.py:210-254 | the report starts with "Context for element" and the id in decimal; its head ends with the line "Selector: " and the cached record's own `selector`, a blank line, then "Parent hierarchy:" and a newline |
| Interaction.ReportExtends | src/tools/interaction.py:250-266 | the report for a prefix of the ancestors is a prefix of the whole report |
| Interaction.FormatContext | src/tools/interaction.py:250-268 | the loop builds the header followed by one line per ancestor |
| AgentState.CreateInitialState | src/agent/state.py:50-75 | the request is stored; lists are empty, counters zero, optional fields None, flags false |
| AgentState.AdvanceIndex | src/agent/nodes.py:78-82 | the execute node moves the action index on by one and keeps plan, errors, confirmation and results |
| AgentGraph.ShouldContinueExecution | src/agent/graph.py:20-39 | answers execute or finalize, and execute exactly when there is a plan and the action index (0 when absent) is below its number of steps |
| AgentGraph.ShouldSeekConfirmation | src/agent/graph.py:42-59 | answers confirm or verify, and confirm exactly when a non-empty confirmation request is pending |
| AgentGraph.ShouldRetryOrAbort | src/agent/graph.py:62-81 | answers execute or finalize, and execute exactly when fewer than three errors were counted (0 when absent) |
| AgentGraph.ShouldHandleError | src/agent/graph.py:84-106 | answers error or continue: continue when there are no results, and error exactly when there is a result and the last one failed |
| AgentGraph.ExecutionRunsOut | src/agent/graph.py:20-39 | after n advances of the index, the graph executes exactly when there is a plan with more than index + n steps |
| AgentGraph.FinalizeIsStable | src/agent/graph.py:20-39 | once execution routes to finalize, advancing the index keeps it there |
| AgentGraph.RetryIsMonotone | src/agent/graph.py:62-81 | once the error count reaches the retry limit, more errors still finalize |
| AgentGraph.OnlyLastResultCounts | src/agent/graph.py:84-106 | error routing depends only on the last execution result |
| AgentGraph.ConfirmationOnlyPending | src/agent/graph.py:42-59 | the confirmation route depends only on the pending confirmation, so the execute node's step leaves it unchanged |
| AgentGraph.InitialRouting | src/agent/graph.py:20-106 | from the initial state execution finalizes (there is no plan), confirmation answers verify, retry answers execute and error handling answers continue |
| Text.Strip | src/browser/locator.py:170-171 | the result has no whitespace at either end and is the input with surrounding whitespace removed |
| Text.IntToDecimal | src/tools/interaction.py:69 | the decimal rendering of an integer, with a minus sign for negatives, whose digits read back as its value |

## Left out

- Playwright and the page are inputs. The matches per selector, each element's visibility, count, tag, probes and attributes, and the JavaScript parent walk of the context tool (src/tools/interaction.py:222-248) are given rather than computed. So is its `substring(0, 300)` of the text.
- The clicks, fills, typing and `time.sleep` after the guards pass are not modelled. Only the guards and the record they hand on are.
- `element_id_counter` (src/browser/locator.py:115) is counted but never read, so it is not modelled.
- The key order of a record dictionary, and the `str(by_type)` rendering of the listing, are not modelled. The listing is summarised by its element count and its groups.
- The `memo_has_link` cache of has_link_somewhere (src/utils/a11y_tree.py:66, 73-75) is not modelled. It only avoids recomputation and does not change the answers.
- Logging calls, and exceptions from the logger, are not modelled.
- The graph builder and its node wiring (src/agent/graph.py:109-206) are plumbing over the routers and are not modelled. Only the one state change of the execute node (src/agent/nodes.py:81) is modelled; the other nodes are placeholders.
- The `__new__` mechanics of the singleton are modelled as one shared manager object held by a registry.
- Absent state keys read with `get` and a default are modelled as `None` (counters, read as 0) or as empty lists.
- Exceptions raised per element or per selector in list_interactive_elements become a `failed` flag per element and a failed query per selector, which drop that element or selector.

## Findings

| source | as written | input that shows it | evidently intended | confidence | as-written member | corrected member |
|---|---|---|---|---|---|---|
| src/utils/a11y_tree.py:69 | `seen_block_ids` is a set, but the loop adds each block to it with `.append`, which raises AttributeError | any working node that contains a link, such as a main region with three result containers each holding a link | record the block and return one block per link | not executed | A11yTree.ThreeResultsCrashAsWritten | A11yTree.ThreeResultsBlocks |
