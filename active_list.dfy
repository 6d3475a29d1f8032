/**
 The singly linked list of active tasks: insertion at the head, deletion and
 completion by 1-based position, the progress report and the search by name.
 */
module ActiveTasks {
  import opened Tasks
  import opened TodoSpec

  class ActiveNode {
    var task: Task
    var next: ActiveNode?

    constructor (task: Task, next: ActiveNode?)
      ensures this.task == task && this.next == next
    {
      this.task := task;
      this.next := next;
    }
  }

  class ActiveList {
    var head: ActiveNode?
    /** The nodes reachable from `head`, in list order, and the tasks they hold. */
    ghost var nodes: seq<ActiveNode>
    ghost var tasks: seq<Task>
    ghost var Repr: set<object>

    ghost predicate Valid()
      reads this, Repr
    {
      this in Repr && |nodes| == |tasks| && Chain(head, 0)
    }

    /** `n` is `nodes[i]`, holds `tasks[i]`, does not recur further down, and the rest of the list hangs from its `next`. */
    ghost predicate Chain(n: ActiveNode?, i: nat)
      reads this, Repr
      decreases |nodes| - i
    {
      if i >= |nodes| then n == null
      else
        n == nodes[i] && n in Repr && i < |tasks| && n.task == tasks[i] &&
        n !in nodes[i + 1..] && Chain(n.next, i + 1)
    }

    /** The facts `Chain` gives about index `j`. */
    ghost predicate Link(j: int)
      reads this, Repr
    {
      0 <= j < |nodes| && j < |tasks| && nodes[j] in Repr && nodes[j].task == tasks[j] &&
      nodes[j] !in nodes[j + 1..] && nodes[j].next == if j + 1 < |nodes| then nodes[j + 1] else null
    }

    ghost predicate Linked()
      reads this, Repr
    {
      this in Repr && |nodes| == |tasks| &&
      head == (if nodes == [] then null else nodes[0]) &&
      forall j | 0 <= j < |nodes| :: Link(j)
    }

    lemma {:induction false} ChainLinks(n: ActiveNode?, i: nat)
      requires |nodes| == |tasks| && Chain(n, i)
      ensures n == (if i < |nodes| then nodes[i] else null)
      ensures forall j | i <= j < |nodes| :: Link(j)
      decreases |nodes| - i
    {
      if i < |nodes| {
        ChainLinks(n.next, i + 1);
      }
    }

    lemma {:induction false} LinksChain(i: nat)
      requires i <= |nodes| == |tasks|
      requires forall j | i <= j < |nodes| :: Link(j)
      ensures Chain(if i < |nodes| then nodes[i] else null, i)
      decreases |nodes| - i
    {
      if i < |nodes| {
        assert Link(i);
        LinksChain(i + 1);
      }
    }

    lemma ValidLinked()
      requires Valid()
      ensures Linked()
    {
      ChainLinks(head, 0);
    }

    lemma LinkedValid()
      requires Linked()
      ensures Valid()
    {
      LinksChain(0);
    }

    constructor ()
      ensures Valid() && fresh(Repr) && tasks == []
    {
      head := null;
      nodes, tasks := [], [];
      Repr := {this};
    }

    /** A new node holding `t` becomes the head. */
    method Prepend(t: Task)
      requires Valid()
      modifies this
      ensures Valid() && fresh(Repr - old(Repr))
      ensures tasks == [t] + old(tasks)
    {
      ValidLinked();
      var node := new ActiveNode(t, head);
      head := node;
      ghost var was := nodes;
      nodes := [node] + nodes;
      tasks := [t] + tasks;
      Repr := Repr + {node};
      forall j | 0 <= j < |nodes|
        ensures Link(j)
      {
        if j > 0 {
          assert old(Link(j - 1));
          assert nodes[j + 1..] == was[j..];
        }
      }
      LinkedValid();
    }

    /**
     Walks to the node at the typed position, unlinks it and reports its task;
     an empty list or a position past the end leaves the list unchanged.
     */
    method Delete(pos: int) returns (out: DeleteOutcome)
      requires Valid()
      modifies Repr
      ensures Valid() && Repr <= old(Repr)
      ensures (tasks, out) == DeleteAt(old(tasks), pos)
      ensures !out.Deleted? ==> Repr == old(Repr)
      ensures out.Deleted? ==> Index(pos) < |old(nodes)| && Repr == old(Repr) - {old(nodes)[Index(pos)]}
    {
      if head == null {
        return NothingToDelete;
      }
      ValidLinked();
      var temp, prev: ActiveNode? := head, null;
      var i := 1;
      ghost var k := 0;
      while temp != null && i < pos
        invariant 0 <= k <= |nodes| && k <= Index(pos) && i == k + 1
        invariant temp == (if k < |nodes| then nodes[k] else null)
        invariant prev == (if k == 0 then null else nodes[k - 1])
        decreases |nodes| - k
      {
        assert Link(k);
        prev := temp;
        temp := temp.next;
        i := i + 1;
        k := k + 1;
      }
      if temp == null {
        return InvalidDeletePosition;
      }
      assert k == Index(pos) && Link(k);
      out := Deleted(temp.task);
      if prev == null {
        assert RemoveAt(tasks, 0) == tasks[1..];
        UnlinkHead();
      } else {
        assert Link(k - 1);
        UnlinkAfter(prev, temp, k);
      }
    }

    /** Unlinks the head node and frees it. */
    method UnlinkHead()
      requires Valid() && nodes != []
      modifies this
      ensures Valid() && Repr == old(Repr) - {old(nodes[0])}
      ensures tasks == old(tasks)[1..]
    {
      ValidLinked();
      assert Link(0);
      ghost var was := nodes;
      head := head.next;
      Repr := Repr - {nodes[0]};
      nodes, tasks := nodes[1..], tasks[1..];
      forall j | 0 <= j < |nodes|
        ensures Link(j)
      {
        assert old(Link(j + 1));
        assert was[j + 1] in was[1..];
        assert nodes[j + 1..] == was[j + 2..];
      }
      LinkedValid();
    }

    /** Unlinks `temp`, the node at index `k` whose predecessor is `prev`, and frees it. */
    method UnlinkAfter(prev: ActiveNode, temp: ActiveNode, ghost k: nat)
      requires Valid() && 0 < k < |nodes| && temp == nodes[k] && prev == nodes[k - 1]
      modifies this, prev
      ensures Valid() && Repr == old(Repr) - {temp}
      ensures tasks == RemoveAt(old(tasks), k)
    {
      ValidLinked();
      assert Link(k - 1) && Link(k);
      ghost var was := nodes;
      prev.next := temp.next;
      RemoveAtKeepsOthers(tasks, k);
      nodes := nodes[..k] + nodes[k + 1..];
      tasks := RemoveAt(tasks, k);
      Repr := Repr - {temp};
      forall j | 0 <= j < |nodes|
        ensures Link(j)
      {
        if j < k - 1 {
          assert old(Link(j));
          assert nodes[j] == was[j] && nodes[j + 1..] == was[j + 1..k] + was[k + 1..];
          assert prev in was[j + 1..] && temp in was[j + 1..];
        } else if j == k - 1 {
          assert nodes[j + 1..] == was[k + 1..];
        } else {
          assert old(Link(j + 1));
          assert nodes[j] == was[j + 1] && nodes[j + 1..] == was[j + 2..];
          assert was[j + 1] in was[k..] && was[j + 1] in was[k + 1..];
        }
      }
      LinkedValid();
    }

    /**
     Walks to the node at the typed position and sets its done flag; an empty
     list, a position past the end or a task already done changes nothing.
     */
    method MarkDone(pos: int) returns (out: MarkOutcome)
      requires Valid()
      modifies Repr
      ensures Valid() && Repr == old(Repr)
      ensures (tasks, out) == MarkAt(old(tasks), pos)
    {
      if head == null {
        return NothingToMark;
      }
      ValidLinked();
      var temp := head;
      var i := 1;
      ghost var k := 0;
      while temp != null && i < pos
        invariant 0 <= k <= |nodes| && k <= Index(pos) && i == k + 1
        invariant temp == (if k < |nodes| then nodes[k] else null)
        decreases |nodes| - k
      {
        assert Link(k);
        temp := temp.next;
        i := i + 1;
        k := k + 1;
      }
      if temp == null {
        return InvalidMarkPosition;
      }
      assert k == Index(pos) && Link(k);
      if temp.task.done {
        return AlreadyDone;
      }
      temp.task := temp.task.(done := true);
      out := MarkedDone(temp.task);
      tasks := tasks[k := temp.task];
      forall j | 0 <= j < |nodes|
        ensures Link(j)
      {
        assert old(Link(j));
        if j < k {
          assert temp in nodes[j + 1..];
        } else if j > k {
          assert nodes[j] in nodes[k + 1..];
        }
      }
      LinkedValid();
    }

    /** The first task named exactly `name` and its 1-based position; the list is only read. */
    method Search(name: string) returns (r: SearchResult)
      requires Valid()
      ensures r == SearchByName(tasks, name)
    {
      ValidLinked();
      var temp := head;
      var position := 1;
      ghost var k := 0;
      r := NotFound;
      while temp != null
        invariant 0 <= k <= |nodes| && position == k + 1
        invariant temp == (if k < |nodes| then nodes[k] else null)
        invariant forall j :: 0 <= j < k ==> tasks[j].name != name
        decreases |nodes| - k
      {
        assert Link(k);
        if temp.task.name == name {
          r := Found(position, temp.task);
          break;
        }
        temp := temp.next;
        position := position + 1;
        k := k + 1;
      }
      SearchFindsFirst(tasks, name);
    }

    /** The listing, the completed and total counts and the percentage `completed * 100 / total`. */
    method Show() returns (report: ActiveReport)
      requires Valid()
      ensures report == ShowTasks(tasks)
    {
      if head == null {
        return NoActiveTasks;
      }
      ValidLinked();
      var temp := head;
      var lines: seq<Task> := [];
      var totalTasks, completedTasks := 0, 0;
      while temp != null
        invariant 0 <= totalTasks <= |nodes|
        invariant temp == (if totalTasks < |nodes| then nodes[totalTasks] else null)
        invariant lines == tasks[..totalTasks]
        invariant completedTasks == CountDone(lines)
        decreases |nodes| - totalTasks
      {
        assert Link(totalTasks);
        CountDoneSnoc(lines, temp.task);
        assert tasks[..totalTasks + 1] == lines + [temp.task];
        if temp.task.done {
          completedTasks := completedTasks + 1;
        }
        lines := lines + [temp.task];
        totalTasks := totalTasks + 1;
        temp := temp.next;
      }
      assert lines == tasks;
      report := Progress(lines, completedTasks, totalTasks, Percent(completedTasks, totalTasks));
    }
  }
}
