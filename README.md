# To-do list manager: a verified model

The program is a single-file, menu-driven console to-do manager written in C
(`to-do.c`). It keeps four in-memory structures, all starting empty:

- the **active list**, a singly linked list with new tasks at the head;
- the **pending queue**, a first-in first-out linked queue with `front` and `rear` pointers;
- the **undo stack**, a linked stack of deleted tasks;
- the **priority tree**, an unbalanced binary search tree keyed by priority.
  Smaller priorities go left and equal or larger ones go right. It receives
  every task that ever becomes active and never loses a node.

A task is a name, a priority (1 = High, 2 = Medium, 3 = Low) and a done flag.

The model has two layers.

- `TodoSpec` (store_spec.dfy) describes the whole state as a value, `Store`.
  Each menu operation is a function of that value. The properties of the
  manager are proved about these functions. They include:
  - the position rules of delete and mark-as-done;
  - the progress counters;
  - first-match search;
  - first-in first-out moves and delete-then-undo;
  - that any sequence of commands keeps the tree ordered, keeps every
    priority in 1..3 and grows the tree by exactly one node per activation.
- The imperative layer follows the C code structure by structure.
  - `ActiveTasks.ActiveList`, `PendingTasks.PendingQueue` and
    `UndoTasks.UndoStack` are classes over heap nodes with the same pointer
    updates as the C code.
  - `PriorityTree.InsertBST` is the cursor descent of `insertBST`.
  - `PriorityTree.LevelOrder` is the queue-and-counters walk of `displayBST_BFS`.
  - `Manager.TodoManager` holds the four structures. Each of its operations
    is proved to change the abstract state exactly as the matching
    `TodoSpec` function does.

Two behaviours of the C code are modelled as written.

- **Positions.** Both `deleteTask` and `markAsDone` walk with
  `while (temp && i < pos)`. So any typed position of 1 or less selects the
  head (`Tasks.Index`): a position of 1 or less is not rejected, because the
  walk never runs. A position past the end is rejected and nothing changes.
- **The pending marker.** In `showPendingTasks` the counter is incremented
  before the `i == 2` test. So the "next to be moved" marker is printed on
  line 1, the front of the queue, which is the task `movePendingToActive`
  takes (`TodoSpec.MarkerIsNextMoved`).

Reports that the C code prints are returned as values:

- `ActiveReport` for `showTasks`;
- `PendingReport` for `showPendingTasks`;
- `SearchResult` for `searchTaskByName`;
- a sequence of level lines for `displayBST_BFS`.

Values typed at prompts become parameters.

## Model

| member | source | states |
|---|---|---|
| Tasks.NewTask | to-do.c:141-149 | a new task keeps its name and is not done. An in-range priority is kept; anything outside 1..3 becomes Medium (2). The result's priority is always valid |
| TodoSpec.RemoveAtKeepsOthers | to-do.c:226-227 | unlinking entry k keeps every other entry in order (earlier ones in place, later ones shifted down one) and loses only that entry (multiset) |
| TodoSpec.DeleteAtPosition | to-do.c:198-232 | delete on an empty list reports nothing to delete; a position past the end reports invalid; both change nothing. Otherwise exactly the entry at max(pos, 1) is removed and reported, and the others keep their order |
| TodoSpec.MarkAtOnlyTarget | to-do.c:234-266 | mark-as-done sets the done flag of the entry at max(pos, 1) and changes no other entry and no other field. It reports "already done" exactly when that task was done, and marks exactly when it was not. Every other outcome leaves the list unchanged |
| TodoSpec.CountDoneBounds | to-do.c:177-186 | the completed counter is at most the total. It equals the total exactly when every task is done, and is 0 exactly when none is |
| TodoSpec.PercentBounds | to-do.c:190-193 | the truncated percentage `completed * 100 / total` lies in 0..100. It is 100 exactly when completed equals total, and 0 when completed is 0 |
| TodoSpec.ProgressBounds | to-do.c:164-196 | in the listing of a non-empty list, completed ≤ total and the percentage is in 0..100. It is 100 exactly when all tasks are done, and 0 when none is counted done |
| TodoSpec.SearchFindsFirst | to-do.c:348-379 | search reports not-found exactly when no task has the name. Otherwise it reports a 1-based position holding a task with that exact name, with no earlier task of that name |
| TodoSpec.MarkerIsNextMoved | to-do.c:291-310 | the pending listing numbers every queued task and reports the total. Exactly one line carries the marker, line 1, and its task is the one the next move takes |
| TodoSpec.DeleteThenUndo | to-do.c:330-346 | after a successful delete, undo restores that same task (name, priority, done flag) at the head of the list. The undo stack and the pending queue are back as before. The tree has gained one node holding the task |
| TodoSpec.EmptyUndoGuard | to-do.c:331-335 | undo with an empty stack changes nothing and restores nothing |
| TodoSpec.EmptyMoveGuard | to-do.c:313-317 | a move from an empty queue changes nothing and moves nothing |
| TodoSpec.EmptyDeleteGuard | to-do.c:199-203 | a delete on an empty list changes nothing and reports that there is nothing to delete, whatever the position |
| TodoSpec.MovesFollowArrivalOrder | to-do.c:461-477 | the pending queue is first in, first out: n moves take exactly the first n queued tasks, in arrival order, and leave the rest queued |
| TodoSpec.ActivateKeepsInvariant | to-do.c:151-159 | making a task with a valid priority active keeps the tree ordered and every priority valid. The tree gains exactly one node, holding that task |
| TodoSpec.DeleteKeepsInvariant | to-do.c:226-229 | delete keeps every priority valid and leaves the tree untouched (the deleted task stays in it) |
| TodoSpec.MarkKeepsInvariant | to-do.c:259-264 | mark-as-done keeps every priority valid and leaves the tree untouched |
| TodoSpec.AddPendingKeepsInvariant | to-do.c:281-287 | adding a pending task keeps every priority valid |
| TodoSpec.MoveKeepsInvariant | to-do.c:312-328 | a move keeps the invariant. The tree grows by one node exactly when the queue was non-empty, and loses none |
| TodoSpec.UndoKeepsInvariant | to-do.c:330-346 | an undo keeps the invariant. The tree grows by one node exactly when the stack was non-empty, and loses none |
| TodoSpec.StepKeepsInvariant | to-do.c:107-121 | every state-changing menu command keeps the invariant. The tree grows by exactly the number of tasks that command activates and never loses a node |
| TodoSpec.RunKeepsInvariant | to-do.c:89-128 | any sequence of menu commands keeps the tree ordered and every priority valid. The tree's size grows by exactly the number of activations and no node is ever removed |
| TodoSpec.TreeCountsActivations | to-do.c:57-61 | from the start-up state (all structures empty), the tree has exactly one node per add, successful move and successful undo, whatever deletes happened |
| PriorityTree.InsertElements | to-do.c:389-398 | insertion adds exactly one node, holding the task, and removes none |
| PriorityTree.InsertSize | to-do.c:389-398 | insertion grows the tree by exactly one node |
| PriorityTree.InsertKeepsOrder | to-do.c:389-398 | insertion keeps the search-tree order: strictly smaller priorities on the left, equal or larger ones on the right |
| PriorityTree.InsertKeepsValid | to-do.c:389-398 | inserting a task with a valid priority keeps every priority in the tree valid |
| PriorityTree.InsertBST | to-do.c:382-398 | the cursor descent (left on a strictly smaller priority, right otherwise) stores a new leaf node at the first empty slot. The result is the reference insertion: one more node, holding the task, and ordered whenever the tree was |
| PriorityTree.AtDepthNonEmpty | to-do.c:435-439 | a depth has nodes exactly when it is less than the tree's height, so the report never holds an empty level line and ends at the last level |
| PriorityTree.LevelsVisitEachNodeOnce | to-do.c:400-443 | the level-order report lists every node of the tree exactly once (as a multiset), and its length is the tree's size |
| PriorityTree.LevelOrder | to-do.c:400-443 | the queue walk, which enqueues each node's non-empty children left before right and counts them with `nodesInCurrentLevel` and `nodesInNextLevel`, yields exactly the levels of the tree, top to bottom and left to right, one line per level. The empty tree gives no line |
| ActiveTasks.ActiveList.constructor | to-do.c:57 | the active list starts empty |
| ActiveTasks.ActiveList.Prepend | to-do.c:151-156 | a new node holding the task becomes the head; the list is the task followed by the old list |
| ActiveTasks.ActiveList.Delete | to-do.c:198-228 | the walk and unlink of `deleteTask` change the list and report the outcome exactly as `DeleteAt` says. On success the only node freed is the one that held the removed task; otherwise no node is freed |
| ActiveTasks.ActiveList.UnlinkHead | to-do.c:226 | unlinking at the head drops the first task and frees its node |
| ActiveTasks.ActiveList.UnlinkAfter | to-do.c:227 | linking the predecessor past the node at index k removes exactly task k and frees only that node |
| ActiveTasks.ActiveList.MarkDone | to-do.c:234-266 | the walk and update of `markAsDone` change the list and report the outcome exactly as `MarkAt` says; no node is allocated or freed |
| ActiveTasks.ActiveList.Search | to-do.c:358-379 | the scan returns the first match and its position, or not-found, as `SearchByName` says, without changing the list |
| ActiveTasks.ActiveList.Show | to-do.c:164-196 | the listing, the completed and total counters and the truncated percentage are those of `ShowTasks` for the current list |
| PendingTasks.PendingQueue.constructor | to-do.c:58-59 | the pending queue starts empty |
| PendingTasks.PendingQueue.Enqueue | to-do.c:461-468 | the new node is linked after the rear, or becomes the front of an empty queue, and becomes the rear. The queue is the old one followed by the task |
| PendingTasks.PendingQueue.Dequeue | to-do.c:470-477 | the front task is returned and removed, the rear is cleared when the queue becomes empty, and only the front node is freed |
| PendingTasks.PendingQueue.Show | to-do.c:291-310 | the numbered listing from the front, with the marker on line 1, and the total are those of `ShowPending` |
| UndoTasks.UndoStack.constructor | to-do.c:60 | the undo stack starts empty |
| UndoTasks.UndoStack.Push | to-do.c:446-451 | a new node holding the task becomes the top |
| UndoTasks.UndoStack.Pop | to-do.c:453-459 | the top task is returned and removed, and only its node is freed |
| Manager.TodoManager.constructor | to-do.c:57-61 | the manager starts with every structure empty (`Initial`) |
| Manager.TodoManager.Activate | to-do.c:151-159 | prepending to the list and inserting into the tree give exactly `TodoSpec.Activate` of the old state |
| Manager.TodoManager.AddTask | to-do.c:133-162 | `addTask` changes the state exactly as `TodoSpec.AddTask`: the clamped new task is at the head of the list and in the tree |
| Manager.TodoManager.DeleteTask | to-do.c:198-232 | `deleteTask` changes the state and reports exactly as `TodoSpec.DeleteTask`: the task leaves the list, goes on top of the undo stack, and stays in the tree |
| Manager.TodoManager.Save | to-do.c:229 | pushing the deleted task changes only the undo stack, which gains the task on top |
| Manager.TodoManager.MarkAsDone | to-do.c:234-266 | `markAsDone` changes the state and reports exactly as `TodoSpec.MarkAsDone`, and allocates nothing |
| Manager.TodoManager.AddPendingTask | to-do.c:268-289 | `addPendingTask` changes the state exactly as `TodoSpec.AddPendingTask`: the clamped task joins the rear of the queue |
| Manager.TodoManager.MovePendingToActive | to-do.c:312-328 | `movePendingToActive` changes the state and reports exactly as `TodoSpec.MovePendingToActive`. An empty queue changes nothing |
| Manager.TodoManager.TakePending | to-do.c:320 | dequeuing on behalf of the move changes only the queue, which loses its front task, returned |
| Manager.TodoManager.UndoDelete | to-do.c:330-346 | `undoDelete` changes the state and reports exactly as `TodoSpec.UndoDelete`. An empty stack changes nothing |
| Manager.TodoManager.TakeDeleted | to-do.c:338 | popping on behalf of undo changes only the stack, which loses its top task, returned |
| Manager.TodoManager.ShowTasks | to-do.c:164-196 | the active listing is `TodoSpec.ShowTasks` of the current list |
| Manager.TodoManager.ShowPendingTasks | to-do.c:291-310 | the pending listing is `ShowPending` of the current queue |
| Manager.TodoManager.SearchTaskByName | to-do.c:348-379 | the search result is `SearchByName` over the current list |
| Manager.TodoManager.DisplayByPriority | to-do.c:400-443 | the priority report is the level list of the current tree |

## Left out

- Console input and output are not modelled: prompts, messages, the menu text and `getchar` calls. Typed values are parameters and printed reports are returned values.
- The menu loop (to-do.c:85-129) is not modelled as a loop. Its state-changing choices are the `Command` datatype, one `Step` each, with `Run` over a sequence of them. The read-only choices are the `Show*`, `SearchTaskByName` and `DisplayByPriority` methods.
- Exit and `clearScreen` (to-do.c:480-482) are left out: they are console effects only.
- `malloc` and `free` are not modelled: a new node is a Dafny allocation and a freed node leaves the structure's footprint. Allocation failure is left out, since the program does not check for it.
- Reading names with `fgets` is not modelled: names are unbounded strings. `fgets(name, 30, stdin)` keeps at most 29 characters, a typed newline among them, and the last character kept is then overwritten with the terminator whatever it is; both steps are left out.
- A failed `scanf` leaves the priority or the position uninitialised in C. This is left out, because the value is undefined.
- `PriorityTree.LevelOrder` uses an unbounded queue, so the overflow of the 100-slot queue array of `displayBST_BFS`, for trees with more than 100 nodes, is not modelled.
- The priority tree is an immutable `Tree` value rather than linked heap nodes. Insertion keeps the C cursor descent as a loop and grafts the new leaf on the designated empty slot. The tree holds copies of tasks, as the C code does, so a later mark-as-done does not show in it.
- ActiveTasks.ActiveList.Show: does not model the 32-bit overflow of `completedTasks * 100`, which needs more than 21 million active tasks.
- Manager.TodoManager.Valid: does not include `TodoSpec.Invariant`. Instead, every manager operation is proved equal to its `TodoSpec` function, and the invariant is proved over every command sequence by `TodoSpec.RunKeepsInvariant`.
