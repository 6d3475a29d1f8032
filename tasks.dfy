/**
 The task record shared by every structure of the to-do manager, the
 priority clamp applied when a task is created, and the 1-based position
 convention of the active-list walks.
 */
module Tasks {

  datatype Option<T> = None | Some(value: T)

  /** A task: its name, its priority (1 = High, 2 = Medium, 3 = Low) and its done flag. */
  datatype Task = Task(name: string, priority: int, done: bool)

  /** The priority an out-of-range input is replaced by (Medium). */
  const DefaultPriority: int := 2

  predicate ValidPriority(p: int) {
    1 <= p <= 3
  }

  /** Every priority in `ts` is one of 1, 2, 3. */
  predicate AllValid(ts: seq<Task>) {
    forall t | t in ts :: ValidPriority(t.priority)
  }

  /**
   A freshly created task, as `addTask` and `addPendingTask` build it from the
   name and the priority typed at the prompts: not done, and with a priority
   outside 1..3 replaced by Medium.
   */
  function NewTask(name: string, priority: int): (t: Task)
    ensures t.name == name && !t.done
    ensures ValidPriority(t.priority)
    ensures ValidPriority(priority) ==> t.priority == priority
    ensures !ValidPriority(priority) ==> t.priority == DefaultPriority
  {
    Task(name, if priority < 1 || priority > 3 then DefaultPriority else priority, false)
  }

  /**
   The 0-based index at which the walk `while (temp && i < pos)` stops for a
   typed 1-based position `pos`: every position of 1 or less selects the head,
   because the loop body never runs.
   */
  function Index(pos: int): nat {
    if pos <= 1 then 0 else pos - 1
  }
}
