/**
 The first-in first-out queue of pending tasks, linked from `front` to
 `rear`, and its listing.
 */
module PendingTasks {
  import opened Tasks
  import opened TodoSpec

  class QueueNode {
    var task: Task
    var next: QueueNode?

    constructor (task: Task)
      ensures this.task == task && next == null
    {
      this.task := task;
      next := null;
    }
  }

  class PendingQueue {
    var front: QueueNode?
    var rear: QueueNode?
    /** The nodes from `front` to `rear`, in queue order, and the tasks they hold. */
    ghost var nodes: seq<QueueNode>
    ghost var tasks: seq<Task>
    ghost var Repr: set<object>

    ghost predicate Valid()
      reads this, Repr
    {
      this in Repr && |nodes| == |tasks| &&
      rear == (if nodes == [] then null else nodes[|nodes| - 1]) &&
      (rear != null ==> rear in Repr) && Chain(front, 0)
    }

    /** `n` is `nodes[i]`, holds `tasks[i]`, does not recur further down, and the rest hangs from its `next`. */
    ghost predicate Chain(n: QueueNode?, i: nat)
      reads this, Repr
      decreases |nodes| - i
    {
      if i >= |nodes| then n == null
      else
        n == nodes[i] && n in Repr && i < |tasks| && n.task == tasks[i] &&
        n !in nodes[i + 1..] && Chain(n.next, i + 1)
    }

    /** The facts `Chain` gives about index `j`. */
    ghost predicate Link(j: int)
      reads this, Repr
    {
      0 <= j < |nodes| && j < |tasks| && nodes[j] in Repr && nodes[j].task == tasks[j] &&
      nodes[j] !in nodes[j + 1..] && nodes[j].next == if j + 1 < |nodes| then nodes[j + 1] else null
    }

    ghost predicate Linked()
      reads this, Repr
    {
      this in Repr && |nodes| == |tasks| &&
      rear == (if nodes == [] then null else nodes[|nodes| - 1]) &&
      front == (if nodes == [] then null else nodes[0]) &&
      forall j | 0 <= j < |nodes| :: Link(j)
    }

    lemma {:induction false} ChainLinks(n: QueueNode?, i: nat)
      requires |nodes| == |tasks| && Chain(n, i)
      ensures n == (if i < |nodes| then nodes[i] else null)
      ensures forall j | i <= j < |nodes| :: Link(j)
      decreases |nodes| - i
    {
      if i < |nodes| {
        ChainLinks(n.next, i + 1);
      }
    }

    lemma {:induction false} LinksChain(i: nat)
      requires i <= |nodes| == |tasks|
      requires forall j | i <= j < |nodes| :: Link(j)
      ensures Chain(if i < |nodes| then nodes[i] else null, i)
      decreases |nodes| - i
    {
      if i < |nodes| {
        assert Link(i);
        LinksChain(i + 1);
      }
    }

    lemma ValidLinked()
      requires Valid()
      ensures Linked()
    {
      ChainLinks(front, 0);
    }

    lemma LinkedValid()
      requires Linked()
      ensures Valid()
    {
      if nodes != [] {
        assert Link(|nodes| - 1);
      }
      LinksChain(0);
    }

    constructor ()
      ensures Valid() && fresh(Repr) && tasks == []
    {
      front, rear := null, null;
      nodes, tasks := [], [];
      Repr := {this};
    }

    /** `enqueuePending`: a new node holding `t` is linked after the rear and becomes the rear. */
    method Enqueue(t: Task)
      requires Valid()
      modifies this, rear
      ensures Valid() && fresh(Repr - old(Repr))
      ensures tasks == old(tasks) + [t]
    {
      ValidLinked();
      var node := new QueueNode(t);
      if rear != null {
        assert Link(|nodes| - 1);
        rear.next := node;
      } else {
        front := node;
      }
      rear := node;
      ghost var was := nodes;
      nodes := nodes + [node];
      tasks := tasks + [t];
      Repr := Repr + {node};
      forall j | 0 <= j < |nodes|
        ensures Link(j)
      {
        if j < |was| {
          assert old(Link(j));
          assert nodes[j + 1..] == was[j + 1..] + [node];
          if j < |was| - 1 {
            assert was[|was| - 1] in was[j + 1..];
          }
        }
      }
      LinkedValid();
    }

    /** `dequeuePending`: the front node is unlinked and freed and its task returned; the caller checks the queue is not empty. */
    method Dequeue() returns (t: Task)
      requires Valid() && tasks != []
      modifies this
      ensures Valid() && Repr == old(Repr) - {old(nodes[0])}
      ensures t == old(tasks)[0] && tasks == old(tasks)[1..]
    {
      ValidLinked();
      assert Link(0);
      ghost var was := nodes;
      t := front.task;
      front := front.next;
      if front == null {
        rear := null;
      }
      Repr := Repr - {nodes[0]};
      nodes, tasks := nodes[1..], tasks[1..];
      forall j | 0 <= j < |nodes|
        ensures Link(j)
      {
        assert old(Link(j + 1));
        assert was[j + 1] in was[1..];
        assert nodes[j + 1..] == was[j + 2..];
      }
      LinkedValid();
    }

    /**
     `showPendingTasks`: one numbered line per task from the front, with the
     marker on the line for which the already incremented counter equals 2,
     and the total.
     */
    method Show() returns (report: PendingReport)
      requires Valid()
      ensures report == ShowPending(tasks)
    {
      if front == null {
        return NoPendingTasks;
      }
      ValidLinked();
      var temp := front;
      var lines: seq<PendingLine> := [];
      var i := 1;
      while temp != null
        invariant 1 <= i <= |nodes| + 1
        invariant temp == (if i - 1 < |nodes| then nodes[i - 1] else null)
        invariant |lines| == i - 1
        invariant forall j | 0 <= j < i - 1 :: lines[j] == PendingLine(j + 1, tasks[j], j == 0)
        decreases |nodes| - i
      {
        assert Link(i - 1);
        var position := i;
        i := i + 1;
        lines := lines + [PendingLine(position, temp.task, i == 2)];
        temp := temp.next;
      }
      report := PendingListing(lines, i - 1);
    }
  }
}
