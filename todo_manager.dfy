/**
 The manager itself: the four structures held together, and the operations
 of the menu that change them, each proved to act on the abstract `Store`
 exactly as the corresponding `TodoSpec` function says.
 */
module Manager {
  import opened Tasks
  import opened PriorityTree
  import opened TodoSpec
  import opened ActiveTasks
  import opened PendingTasks
  import opened UndoTasks

  /** A list whose own objects were not touched is still well formed and holds the same tasks. */
  twostate lemma ListFrame(l: ActiveList)
    requires old(l.Valid()) && unchanged(old(l.Repr))
    ensures l.Valid() && l.tasks == old(l.tasks) && l.Repr == old(l.Repr)
  {
  }

  /** A queue whose own objects were not touched is still well formed and holds the same tasks. */
  twostate lemma QueueFrame(q: PendingQueue)
    requires old(q.Valid()) && unchanged(old(q.Repr))
    ensures q.Valid() && q.tasks == old(q.tasks) && q.Repr == old(q.Repr)
  {
  }

  /** A stack whose own objects were not touched is still well formed and holds the same tasks. */
  twostate lemma StackFrame(u: UndoStack)
    requires old(u.Valid()) && unchanged(old(u.Repr))
    ensures u.Valid() && u.tasks == old(u.tasks) && u.Repr == old(u.Repr)
  {
  }

  class TodoManager {
    const active: ActiveList
    const pending: PendingQueue
    const undo: UndoStack
    var bstRoot: Tree
    ghost var Repr: set<object>

    /** The three linked structures are well formed and do not share nodes. */
    ghost predicate Valid()
      reads this, Repr
    {
      this in Repr &&
      active in Repr && active.Repr <= Repr && this !in active.Repr &&
      pending in Repr && pending.Repr <= Repr && this !in pending.Repr &&
      undo in Repr && undo.Repr <= Repr && this !in undo.Repr &&
      active.Repr !! pending.Repr && active.Repr !! undo.Repr && pending.Repr !! undo.Repr &&
      active.Valid() && pending.Valid() && undo.Valid()
    }

    /** The tasks the structures hold, in their order, and the tree. */
    ghost function Abstract(): Store
      reads this, active, pending, undo
    {
      Store(active.tasks, pending.tasks, undo.tasks, bstRoot)
    }

    /** The start-up state: every structure empty. */
    constructor ()
      ensures Valid() && fresh(Repr) && Abstract() == Initial
    {
      active := new ActiveList();
      pending := new PendingQueue();
      undo := new UndoStack();
      bstRoot := Leaf;
      new;
      Repr := {this} + active.Repr + pending.Repr + undo.Repr;
    }

    /** The part `addTask`, `movePendingToActive` and `undoDelete` share: `t` goes to the head of the list and into the tree. */
    method Activate(t: Task)
      requires Valid()
      modifies Repr
      ensures Valid() && fresh(Repr - old(Repr))
      ensures Abstract() == TodoSpec.Activate(old(Abstract()), t)
    {
      active.Prepend(t);
      QueueFrame(pending);
      StackFrame(undo);
      bstRoot := InsertBST(bstRoot, t);
      Repr := Repr + active.Repr;
    }

    /** The new task, with an out-of-range priority replaced by Medium, goes to the head of the list and into the tree. */
    method AddTask(name: string, priority: int)
      requires Valid()
      modifies Repr
      ensures Valid() && fresh(Repr - old(Repr))
      ensures Abstract() == TodoSpec.AddTask(old(Abstract()), name, priority)
    {
      var newTask := Task(name, priority, false);
      if newTask.priority < 1 || newTask.priority > 3 {
        newTask := newTask.(priority := DefaultPriority);
      }
      Activate(newTask);
    }

    /** The task at the typed position leaves the list for the undo stack; it stays in the tree. */
    method DeleteTask(pos: int) returns (out: DeleteOutcome)
      requires Valid()
      modifies Repr
      ensures Valid() && fresh(Repr - old(Repr))
      ensures (Abstract(), out) == TodoSpec.DeleteTask(old(Abstract()), pos)
    {
      out := active.Delete(pos);
      QueueFrame(pending);
      StackFrame(undo);
      if out.Deleted? {
        Save(out.task);
      }
    }

    /** `pushUndo` on behalf of `deleteTask`: `t` goes on top of the undo stack. */
    method Save(t: Task)
      requires Valid()
      modifies Repr
      ensures Valid() && fresh(Repr - old(Repr))
      ensures Abstract() == old(Abstract()).(undo := [t] + old(undo.tasks))
    {
      undo.Push(t);
      ListFrame(active);
      QueueFrame(pending);
      Repr := Repr + undo.Repr;
    }

    /** The task at the typed position is marked done. */
    method MarkAsDone(pos: int) returns (out: MarkOutcome)
      requires Valid()
      modifies Repr
      ensures Valid() && Repr == old(Repr)
      ensures (Abstract(), out) == TodoSpec.MarkAsDone(old(Abstract()), pos)
    {
      out := active.MarkDone(pos);
      QueueFrame(pending);
      StackFrame(undo);
    }

    /** The new task, with an out-of-range priority replaced by Medium, joins the rear of the pending queue. */
    method AddPendingTask(name: string, priority: int)
      requires Valid()
      modifies Repr
      ensures Valid() && fresh(Repr - old(Repr))
      ensures Abstract() == TodoSpec.AddPendingTask(old(Abstract()), name, priority)
    {
      var newTask := Task(name, priority, false);
      if newTask.priority < 1 || newTask.priority > 3 {
        newTask := newTask.(priority := DefaultPriority);
      }
      pending.Enqueue(newTask);
      ListFrame(active);
      StackFrame(undo);
      Repr := Repr + pending.Repr;
    }

    /** The front of the pending queue goes to the head of the list and into the tree; an empty queue changes nothing. */
    method MovePendingToActive() returns (moved: Option<Task>)
      requires Valid()
      modifies Repr
      ensures Valid() && fresh(Repr - old(Repr))
      ensures (Abstract(), moved) == TodoSpec.MovePendingToActive(old(Abstract()))
    {
      if pending.front == null {
        return None;
      }
      var t := TakePending();
      Activate(t);
      moved := Some(t);
    }

    /** `dequeuePending` on behalf of `movePendingToActive`: the front task leaves the queue. */
    method TakePending() returns (t: Task)
      requires Valid() && pending.front != null
      modifies Repr
      ensures Valid() && Repr <= old(Repr)
      ensures old(pending.tasks) != [] && t == old(pending.tasks)[0]
      ensures Abstract() == old(Abstract()).(pending := old(pending.tasks)[1..])
    {
      pending.ValidLinked();
      t := pending.Dequeue();
      ListFrame(active);
      StackFrame(undo);
    }

    /** `showTasks`: the listing of the active list with its progress counters; nothing changes. */
    method ShowTasks() returns (report: ActiveReport)
      requires Valid()
      ensures report == TodoSpec.ShowTasks(Abstract().active)
    {
      report := active.Show();
    }

    /** `showPendingTasks`: the numbered listing of the queue from its front; nothing changes. */
    method ShowPendingTasks() returns (report: PendingReport)
      requires Valid()
      ensures report == ShowPending(Abstract().pending)
    {
      report := pending.Show();
    }

    /** `searchTaskByName`: the first active task with exactly this name; nothing changes. */
    method SearchTaskByName(name: string) returns (r: SearchResult)
      requires Valid()
      ensures r == SearchByName(Abstract().active, name)
    {
      r := active.Search(name);
    }

    /** `displayBST_BFS`: the priority tree level by level; nothing changes. */
    method DisplayByPriority() returns (report: seq<seq<Task>>)
      requires Valid()
      ensures report == Levels(Abstract().tree)
    {
      report := LevelOrder(bstRoot);
    }

    /** The most recently deleted task goes back to the head of the list and into the tree again; an empty stack changes nothing. */
    method UndoDelete() returns (restored: Option<Task>)
      requires Valid()
      modifies Repr
      ensures Valid() && fresh(Repr - old(Repr))
      ensures (Abstract(), restored) == TodoSpec.UndoDelete(old(Abstract()))
    {
      if undo.top == null {
        return None;
      }
      var t := TakeDeleted();
      Activate(t);
      restored := Some(t);
    }

    /** `popUndo` on behalf of `undoDelete`: the top task leaves the undo stack. */
    method TakeDeleted() returns (t: Task)
      requires Valid() && undo.top != null
      modifies Repr
      ensures Valid() && Repr <= old(Repr)
      ensures old(undo.tasks) != [] && t == old(undo.tasks)[0]
      ensures Abstract() == old(Abstract()).(undo := old(undo.tasks)[1..])
    {
      undo.ValidLinked();
      t := undo.Pop();
      ListFrame(active);
      QueueFrame(pending);
    }
  }
}
