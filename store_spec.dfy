/**
 The to-do manager's state as a value and each of its operations as a
 function of that state: the specification the imperative structures are
 proved against, and the properties of the whole manager proved about it.
 */
module TodoSpec {
  import opened Tasks
  import opened PriorityTree

  /** The five roots of the manager: active list (head first), pending queue (front first), undo stack (top first), priority tree. */
  datatype Store = Store(active: seq<Task>, pending: seq<Task>, undo: seq<Task>, tree: Tree)

  const Initial: Store := Store([], [], [], Leaf)

  datatype DeleteOutcome = NothingToDelete | InvalidDeletePosition | Deleted(task: Task)

  datatype MarkOutcome = NothingToMark | InvalidMarkPosition | AlreadyDone | MarkedDone(task: Task)

  /** What `showTasks` reports: every task in list order, and the progress counters. */
  datatype ActiveReport = NoActiveTasks | Progress(lines: seq<Task>, completed: nat, total: nat, percent: int)

  /** One line of `showPendingTasks`: its 1-based number, its task and whether it carries the "next to be moved" marker. */
  datatype PendingLine = PendingLine(position: int, task: Task, nextToMove: bool)

  datatype PendingReport = NoPendingTasks | PendingListing(lines: seq<PendingLine>, total: int)

  datatype SearchResult = NotFound | Found(position: int, task: Task)

  // ----------------------------------------------------------------------
  // The active list

  function RemoveAt(s: seq<Task>, k: nat): seq<Task>
    requires k < |s|
  {
    s[..k] + s[k + 1..]
  }

  /** Removing the entry at `k` keeps every other entry, in the same order, and only loses `s[k]`. */
  lemma RemoveAtKeepsOthers(s: seq<Task>, k: nat)
    requires k < |s|
    ensures |RemoveAt(s, k)| == |s| - 1
    ensures forall i :: 0 <= i < k ==> RemoveAt(s, k)[i] == s[i]
    ensures forall i :: k <= i < |s| - 1 ==> RemoveAt(s, k)[i] == s[i + 1]
    ensures multiset(RemoveAt(s, k)) + multiset{s[k]} == multiset(s)
  {
    assert s == s[..k] + [s[k]] + s[k + 1..];
  }

  /** `deleteTask` on the list alone: which entry goes, and the outcome reported. */
  function DeleteAt(active: seq<Task>, pos: int): (seq<Task>, DeleteOutcome) {
    if active == [] then (active, NothingToDelete)
    else if Index(pos) >= |active| then (active, InvalidDeletePosition)
    else (RemoveAt(active, Index(pos)), Deleted(active[Index(pos)]))
  }

  /** The position rule of `deleteTask`: the entry at max(pos, 1) goes, an out-of-range position changes nothing. */
  lemma DeleteAtPosition(active: seq<Task>, pos: int)
    ensures var (rest, out) := DeleteAt(active, pos);
      (active == [] ==> out == NothingToDelete && rest == active) &&
      (active != [] && Index(pos) >= |active| ==> out == InvalidDeletePosition && rest == active) &&
      (Index(pos) < |active| ==>
         out == Deleted(active[Index(pos)]) &&
         multiset(rest) + multiset{out.task} == multiset(active) &&
         |rest| == |active| - 1 &&
         (forall i :: 0 <= i < Index(pos) ==> rest[i] == active[i]) &&
         (forall i :: Index(pos) <= i < |rest| ==> rest[i] == active[i + 1]))
  {
    if Index(pos) < |active| {
      RemoveAtKeepsOthers(active, Index(pos));
    }
  }

  /** `markAsDone` on the list alone. */
  function MarkAt(active: seq<Task>, pos: int): (seq<Task>, MarkOutcome) {
    if active == [] then (active, NothingToMark)
    else if Index(pos) >= |active| then (active, InvalidMarkPosition)
    else if active[Index(pos)].done then (active, AlreadyDone)
    else
      var t := active[Index(pos)].(done := true);
      (active[Index(pos) := t], MarkedDone(t))
  }

  /**
   `markAsDone` sets the done flag of the entry at max(pos, 1) and nothing
   else; an empty list, an out-of-range position or a task already done
   leaves the list as it is.
   */
  lemma MarkAtOnlyTarget(active: seq<Task>, pos: int)
    ensures var (after, out) := MarkAt(active, pos);
      |after| == |active| &&
      (forall i :: 0 <= i < |active| && i != Index(pos) ==> after[i] == active[i]) &&
      (out.MarkedDone? <==> Index(pos) < |active| && !active[Index(pos)].done) &&
      (out.MarkedDone? ==>
         after[Index(pos)] == Task(active[Index(pos)].name, active[Index(pos)].priority, true) &&
         out.task == after[Index(pos)]) &&
      (out.AlreadyDone? <==> Index(pos) < |active| && active[Index(pos)].done) &&
      (!out.MarkedDone? ==> after == active)
  {
  }

  /** The number of done tasks in `s`. */
  function CountDone(s: seq<Task>): nat {
    if s == [] then 0 else CountDone(s[..|s| - 1]) + if s[|s| - 1].done then 1 else 0
  }

  lemma CountDoneSnoc(s: seq<Task>, t: Task)
    ensures CountDone(s + [t]) == CountDone(s) + if t.done then 1 else 0
  {
    assert (s + [t])[..|s + [t]| - 1] == s;
  }

  lemma {:induction false} CountDoneBounds(s: seq<Task>)
    ensures CountDone(s) <= |s|
    ensures CountDone(s) == |s| <==> forall i :: 0 <= i < |s| ==> s[i].done
    ensures CountDone(s) == 0 <==> forall i :: 0 <= i < |s| ==> !s[i].done
  {
    if s != [] {
      var init := s[..|s| - 1];
      CountDoneBounds(init);
      assert forall i :: 0 <= i < |init| ==> init[i] == s[i];
    }
  }

  /** `showTasks`: the list in order, the completed and total counts and the truncated percentage. */
  function ShowTasks(active: seq<Task>): ActiveReport {
    if active == [] then NoActiveTasks
    else Progress(active, CountDone(active), |active|, Percent(CountDone(active), |active|))
  }

  /** The whole-number percentage `completed * 100 / total`, truncated as C's integer division truncates a non-negative quotient. */
  function Percent(completed: nat, total: nat): int
    requires total > 0
  {
    completed * 100 / total
  }

  /** The percentage is between 0 and 100, reaches 100 exactly when every task is done and is 0 when none is. */
  lemma ProgressBounds(active: seq<Task>)
    requires active != []
    ensures var r := ShowTasks(active);
      r.completed <= r.total && 0 <= r.percent <= 100 &&
      (r.percent == 100 <==> forall i :: 0 <= i < |active| ==> active[i].done) &&
      (r.completed == 0 ==> r.percent == 0)
  {
    CountDoneBounds(active);
    PercentBounds(CountDone(active), |active|);
  }

  lemma MulMono(a: int, b: int, n: int)
    requires a <= b && 0 <= n
    ensures a * n <= b * n
  {
    assert b * n - a * n == (b - a) * n;
  }

  /** The percentage of `c` out of `n` lies in 0..100, is 100 exactly when `c == n` and is 0 when `c` is. */
  lemma PercentBounds(c: nat, n: nat)
    requires c <= n && 0 < n
    ensures 0 <= Percent(c, n) <= 100
    ensures Percent(c, n) == 100 <==> c == n
    ensures c == 0 ==> Percent(c, n) == 0
  {
    var q, r := c * 100 / n, c * 100 % n;
    assert c * 100 == q * n + r && 0 <= r < n;
    if q > 100 {
      MulMono(101, q, n);
      MulMono(c, n, 100);
      assert false;
    }
    if q < 0 {
      MulMono(q, -1, n);
      assert false;
    }
    if c == n && q < 100 {
      MulMono(q, 99, n);
      assert false;
    }
    if c < n && q == 100 {
      MulMono(c, n - 1, 100);
      assert false;
    }
    if c == 0 && q > 0 {
      MulMono(1, q, n);
      assert false;
    }
  }

  /** `searchTaskByName`: the 1-based position of the first task with exactly this name. */
  function SearchByName(active: seq<Task>, name: string): SearchResult {
    if active == [] then NotFound
    else if active[0].name == name then Found(1, active[0])
    else match SearchByName(active[1..], name)
      case NotFound => NotFound
      case Found(p, t) => Found(p + 1, t)
  }

  /** The search reports the first match and its 1-based position, or that no task has the name. */
  lemma {:induction false} SearchFindsFirst(active: seq<Task>, name: string)
    ensures var r := SearchByName(active, name);
      (r.NotFound? <==> forall i :: 0 <= i < |active| ==> active[i].name != name) &&
      (r.Found? ==>
         1 <= r.position <= |active| && r.task == active[r.position - 1] && r.task.name == name &&
         forall i :: 0 <= i < r.position - 1 ==> active[i].name != name)
  {
    if active != [] && active[0].name != name {
      SearchFindsFirst(active[1..], name);
      assert forall i :: 1 <= i < |active| ==> active[i] == active[1..][i - 1];
    }
  }

  // ----------------------------------------------------------------------
  // The pending queue

  /**
   `showPendingTasks`. The counter is incremented before the marker test, so
   the "next to be moved" marker lands on line 1, the front.
   */
  function ShowPending(pending: seq<Task>): PendingReport {
    if pending == [] then NoPendingTasks
    else PendingListing(seq(|pending|, j requires 0 <= j < |pending| => PendingLine(j + 1, pending[j], j == 0)), |pending|)
  }

  // ----------------------------------------------------------------------
  // The manager's operations on the whole state

  /** A task becomes active: prepended to the active list and inserted into the priority tree. */
  function Activate(s: Store, t: Task): Store {
    s.(active := [t] + s.active, tree := Insert(s.tree, t))
  }

  function AddTask(s: Store, name: string, priority: int): Store {
    Activate(s, NewTask(name, priority))
  }

  function DeleteTask(s: Store, pos: int): (Store, DeleteOutcome) {
    var (rest, out) := DeleteAt(s.active, pos);
    (if out.Deleted? then s.(active := rest, undo := [out.task] + s.undo) else s, out)
  }

  function MarkAsDone(s: Store, pos: int): (Store, MarkOutcome) {
    var (after, out) := MarkAt(s.active, pos);
    (s.(active := after), out)
  }

  function AddPendingTask(s: Store, name: string, priority: int): Store {
    s.(pending := s.pending + [NewTask(name, priority)])
  }

  function MovePendingToActive(s: Store): (Store, Option<Task>) {
    if s.pending == [] then (s, None)
    else (Activate(s.(pending := s.pending[1..]), s.pending[0]), Some(s.pending[0]))
  }

  function UndoDelete(s: Store): (Store, Option<Task>) {
    if s.undo == [] then (s, None)
    else (Activate(s.(undo := s.undo[1..]), s.undo[0]), Some(s.undo[0]))
  }

  /** The marked line of the pending listing is the task `movePendingToActive` takes next. */
  lemma MarkerIsNextMoved(s: Store)
    requires s.pending != []
    ensures var r := ShowPending(s.pending);
      r.PendingListing? && r.total == |s.pending| && |r.lines| == |s.pending| &&
      (forall j :: 0 <= j < |r.lines| ==> (r.lines[j].nextToMove <==> j == 0)) &&
      Some(r.lines[0].task) == MovePendingToActive(s).1
  {
  }

  /** Deleting a task and then undoing brings that same task back, at the head, and restores the undo stack. */
  lemma DeleteThenUndo(s: Store, pos: int)
    requires DeleteTask(s, pos).1.Deleted?
    ensures var (s1, out) := DeleteTask(s, pos);
      var (s2, restored) := UndoDelete(s1);
      out.task == s.active[Index(pos)] && restored == Some(out.task) &&
      s2.active == [out.task] + RemoveAt(s.active, Index(pos)) &&
      s2.undo == s.undo && s2.pending == s.pending &&
      Size(s2.tree) == Size(s.tree) + 1 && Elements(s2.tree) == Elements(s.tree) + multiset{out.task}
  {
    var t := s.active[Index(pos)];
    InsertSize(s.tree, t);
    InsertElements(s.tree, t);
  }

  /** Undo on an empty stack changes nothing and restores nothing. */
  lemma EmptyUndoGuard(s: Store)
    ensures s.undo == [] ==> UndoDelete(s) == (s, None)
  {
  }

  /** A move from an empty queue changes nothing and moves nothing. */
  lemma EmptyMoveGuard(s: Store)
    ensures s.pending == [] ==> MovePendingToActive(s) == (s, None)
  {
  }

  /** A delete on an empty list changes nothing and reports that there is nothing to delete, whatever the position. */
  lemma EmptyDeleteGuard(s: Store, pos: int)
    ensures s.active == [] ==> DeleteTask(s, pos) == (s, NothingToDelete)
  {
  }

  /** `n` moves from the pending queue to the active list, and the tasks they move. */
  function MoveMany(s: Store, n: nat): (Store, seq<Task>)
    decreases n
  {
    if n == 0 then (s, [])
    else
      var (s1, moved) := MovePendingToActive(s);
      var (s2, rest) := MoveMany(s1, n - 1);
      (s2, (if moved.Some? then [moved.value] else []) + rest)
  }

  /** The pending queue is first-in first-out: `n` moves take its first `n` tasks, in arrival order. */
  lemma {:induction false} MovesFollowArrivalOrder(s: Store, n: nat)
    requires n <= |s.pending|
    ensures MoveMany(s, n).1 == s.pending[..n]
    ensures MoveMany(s, n).0.pending == s.pending[n..]
    decreases n
  {
    if n > 0 {
      var s1 := MovePendingToActive(s).0;
      assert s1.pending == s.pending[1..];
      MovesFollowArrivalOrder(s1, n - 1);
      assert s.pending[..n] == [s.pending[0]] + s.pending[1..][..n - 1];
      assert s.pending[1..][n - 1..] == s.pending[n..];
    }
  }

  // ----------------------------------------------------------------------
  // Any sequence of state-changing operations

  /** The operations of the menu that change the state. */
  datatype Command =
    | AddActive(name: string, priority: int)
    | Delete(pos: int)
    | MarkDone(pos: int)
    | AddPending(name: string, priority: int)
    | MovePending
    | Undo

  function Step(s: Store, c: Command): Store {
    match c
    case AddActive(name, priority) => AddTask(s, name, priority)
    case Delete(pos) => DeleteTask(s, pos).0
    case MarkDone(pos) => MarkAsDone(s, pos).0
    case AddPending(name, priority) => AddPendingTask(s, name, priority)
    case MovePending => MovePendingToActive(s).0
    case Undo => UndoDelete(s).0
  }

  /** 1 when the command makes a task active (add, a move, an undo that finds a task), else 0. */
  function Activated(s: Store, c: Command): nat {
    match c
    case AddActive(_, _) => 1
    case MovePending => if s.pending == [] then 0 else 1
    case Undo => if s.undo == [] then 0 else 1
    case _ => 0
  }

  function Run(s: Store, cmds: seq<Command>): Store
    decreases |cmds|
  {
    if cmds == [] then s else Run(Step(s, cmds[0]), cmds[1..])
  }

  function Activations(s: Store, cmds: seq<Command>): nat
    decreases |cmds|
  {
    if cmds == [] then 0 else Activated(s, cmds[0]) + Activations(Step(s, cmds[0]), cmds[1..])
  }

  /** What holds of every reachable state: the tree is ordered and every stored priority is in 1..3. */
  ghost predicate Invariant(s: Store) {
    IsBST(s.tree) && AllValidTree(s.tree) &&
    AllValid(s.active) && AllValid(s.pending) && AllValid(s.undo)
  }

  lemma ActivateKeepsInvariant(s: Store, t: Task)
    requires Invariant(s) && ValidPriority(t.priority)
    ensures Invariant(Activate(s, t))
    ensures Size(Activate(s, t).tree) == Size(s.tree) + 1
    ensures Elements(Activate(s, t).tree) == Elements(s.tree) + multiset{t}
  {
    InsertKeepsOrder(s.tree, t);
    InsertKeepsValid(s.tree, t);
    InsertSize(s.tree, t);
    InsertElements(s.tree, t);
  }

  lemma DeleteKeepsInvariant(s: Store, pos: int)
    requires Invariant(s)
    ensures Invariant(DeleteTask(s, pos).0) && DeleteTask(s, pos).0.tree == s.tree
  {
    var k := Index(pos);
    if s.active != [] && k < |s.active| {
      RemoveAtKeepsOthers(s.active, k);
      forall t | t in RemoveAt(s.active, k) ensures t in s.active {
        assert t in multiset(RemoveAt(s.active, k));
      }
    }
  }

  lemma MarkKeepsInvariant(s: Store, pos: int)
    requires Invariant(s)
    ensures Invariant(MarkAsDone(s, pos).0) && MarkAsDone(s, pos).0.tree == s.tree
  {
    var after := MarkAsDone(s, pos).0.active;
    MarkAtOnlyTarget(s.active, pos);
    forall t | t in after ensures ValidPriority(t.priority) {
      var i :| 0 <= i < |after| && after[i] == t;
      assert s.active[i] in s.active;
    }
  }

  lemma AddPendingKeepsInvariant(s: Store, name: string, priority: int)
    requires Invariant(s)
    ensures Invariant(AddPendingTask(s, name, priority))
  {
  }

  lemma MoveKeepsInvariant(s: Store)
    requires Invariant(s)
    ensures Invariant(MovePendingToActive(s).0)
    ensures Size(MovePendingToActive(s).0.tree) == Size(s.tree) + (if s.pending == [] then 0 else 1)
    ensures Elements(s.tree) <= Elements(MovePendingToActive(s).0.tree)
  {
    if s.pending != [] {
      assert s.pending[0] in s.pending;
      ActivateKeepsInvariant(s.(pending := s.pending[1..]), s.pending[0]);
    }
  }

  lemma UndoKeepsInvariant(s: Store)
    requires Invariant(s)
    ensures Invariant(UndoDelete(s).0)
    ensures Size(UndoDelete(s).0.tree) == Size(s.tree) + (if s.undo == [] then 0 else 1)
    ensures Elements(s.tree) <= Elements(UndoDelete(s).0.tree)
  {
    if s.undo != [] {
      assert s.undo[0] in s.undo;
      ActivateKeepsInvariant(s.(undo := s.undo[1..]), s.undo[0]);
    }
  }

  /** One command keeps the invariant and grows the tree by exactly the tasks it activates. */
  lemma StepKeepsInvariant(s: Store, c: Command)
    requires Invariant(s)
    ensures Invariant(Step(s, c))
    ensures Size(Step(s, c).tree) == Size(s.tree) + Activated(s, c)
    ensures Elements(s.tree) <= Elements(Step(s, c).tree)
  {
    match c
    case AddActive(name, priority) => ActivateKeepsInvariant(s, NewTask(name, priority));
    case Delete(pos) => DeleteKeepsInvariant(s, pos);
    case MarkDone(pos) => MarkKeepsInvariant(s, pos);
    case AddPending(name, priority) => AddPendingKeepsInvariant(s, name, priority);
    case MovePending => MoveKeepsInvariant(s);
    case Undo => UndoKeepsInvariant(s);
  }

  /**
   After any sequence of operations the tree is still ordered, every priority
   is in 1..3, no node has been removed, and the tree has gained one node per
   activation, whatever was deleted in between.
   */
  lemma {:induction false} RunKeepsInvariant(s: Store, cmds: seq<Command>)
    requires Invariant(s)
    ensures Invariant(Run(s, cmds))
    ensures Size(Run(s, cmds).tree) == Size(s.tree) + Activations(s, cmds)
    ensures Elements(s.tree) <= Elements(Run(s, cmds).tree)
    decreases |cmds|
  {
    if cmds != [] {
      StepKeepsInvariant(s, cmds[0]);
      RunKeepsInvariant(Step(s, cmds[0]), cmds[1..]);
    }
  }

  /** From the start-up state, the tree has exactly one node per activation. */
  lemma TreeCountsActivations(cmds: seq<Command>)
    ensures Invariant(Run(Initial, cmds))
    ensures Size(Run(Initial, cmds).tree) == Activations(Initial, cmds)
  {
    RunKeepsInvariant(Initial, cmds);
  }
}
