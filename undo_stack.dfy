/**
 The last-in first-out stack of deleted tasks that undo restores from.
 */
module UndoTasks {
  import opened Tasks

  class StackNode {
    var task: Task
    var next: StackNode?

    constructor (task: Task, next: StackNode?)
      ensures this.task == task && this.next == next
    {
      this.task := task;
      this.next := next;
    }
  }

  class UndoStack {
    var top: StackNode?
    /** The nodes from `top` down, and the tasks they hold: `tasks[0]` is the most recently deleted. */
    ghost var nodes: seq<StackNode>
    ghost var tasks: seq<Task>
    ghost var Repr: set<object>

    ghost predicate Valid()
      reads this, Repr
    {
      this in Repr && |nodes| == |tasks| && Chain(top, 0)
    }

    /** `n` is `nodes[i]`, holds `tasks[i]`, does not recur further down, and the rest hangs from its `next`. */
    ghost predicate Chain(n: StackNode?, i: nat)
      reads this, Repr
      decreases |nodes| - i
    {
      if i >= |nodes| then n == null
      else
        n == nodes[i] && n in Repr && i < |tasks| && n.task == tasks[i] &&
        n !in nodes[i + 1..] && Chain(n.next, i + 1)
    }

    /** The facts `Chain` gives about index `j`. */
    ghost predicate Link(j: int)
      reads this, Repr
    {
      0 <= j < |nodes| && j < |tasks| && nodes[j] in Repr && nodes[j].task == tasks[j] &&
      nodes[j] !in nodes[j + 1..] && nodes[j].next == if j + 1 < |nodes| then nodes[j + 1] else null
    }

    ghost predicate Linked()
      reads this, Repr
    {
      this in Repr && |nodes| == |tasks| &&
      top == (if nodes == [] then null else nodes[0]) &&
      forall j | 0 <= j < |nodes| :: Link(j)
    }

    lemma {:induction false} ChainLinks(n: StackNode?, i: nat)
      requires |nodes| == |tasks| && Chain(n, i)
      ensures n == (if i < |nodes| then nodes[i] else null)
      ensures forall j | i <= j < |nodes| :: Link(j)
      decreases |nodes| - i
    {
      if i < |nodes| {
        ChainLinks(n.next, i + 1);
      }
    }

    lemma {:induction false} LinksChain(i: nat)
      requires i <= |nodes| == |tasks|
      requires forall j | i <= j < |nodes| :: Link(j)
      ensures Chain(if i < |nodes| then nodes[i] else null, i)
      decreases |nodes| - i
    {
      if i < |nodes| {
        assert Link(i);
        LinksChain(i + 1);
      }
    }

    lemma ValidLinked()
      requires Valid()
      ensures Linked()
    {
      ChainLinks(top, 0);
    }

    lemma LinkedValid()
      requires Linked()
      ensures Valid()
    {
      LinksChain(0);
    }

    constructor ()
      ensures Valid() && fresh(Repr) && tasks == []
    {
      top := null;
      nodes, tasks := [], [];
      Repr := {this};
    }

    /** `pushUndo`: a new node holding `t` becomes the top. */
    method Push(t: Task)
      requires Valid()
      modifies this
      ensures Valid() && fresh(Repr - old(Repr))
      ensures tasks == [t] + old(tasks)
    {
      ValidLinked();
      var node := new StackNode(t, top);
      top := node;
      ghost var was := nodes;
      nodes := [node] + nodes;
      tasks := [t] + tasks;
      Repr := Repr + {node};
      forall j | 0 <= j < |nodes|
        ensures Link(j)
      {
        if j > 0 {
          assert old(Link(j - 1));
          assert nodes[j + 1..] == was[j..];
        }
      }
      LinkedValid();
    }

    /** `popUndo`: the top node is unlinked and freed and its task returned; the caller checks the stack is not empty. */
    method Pop() returns (t: Task)
      requires Valid() && tasks != []
      modifies this
      ensures Valid() && Repr == old(Repr) - {old(nodes[0])}
      ensures t == old(tasks)[0] && tasks == old(tasks)[1..]
    {
      ValidLinked();
      assert Link(0);
      ghost var was := nodes;
      t := top.task;
      top := top.next;
      Repr := Repr - {nodes[0]};
      nodes, tasks := nodes[1..], tasks[1..];
      forall j | 0 <= j < |nodes|
        ensures Link(j)
      {
        assert old(Link(j + 1));
        assert was[j + 1] in was[1..];
        assert nodes[j + 1..] == was[j + 2..];
      }
      LinkedValid();
    }
  }
}
