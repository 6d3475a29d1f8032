/**
 The priority tree: an append-only binary search tree keyed by priority
 (strictly smaller priorities to the left, equal and larger ones to the
 right), its insertion, and its breadth-first, level-by-level report.
 */
module PriorityTree {
  import opened Tasks

  datatype Tree = Leaf | Node(left: Tree, task: Task, right: Tree)

  function Size(t: Tree): nat {
    match t
    case Leaf => 0
    case Node(l, _, r) => Size(l) + 1 + Size(r)
  }

  function Height(t: Tree): nat {
    match t
    case Leaf => 0
    case Node(l, _, r) => 1 + Max(Height(l), Height(r))
  }

  function Max(a: nat, b: nat): (m: nat)
    ensures a <= m && b <= m && (m == a || m == b)
  {
    if a >= b then a else b
  }

  /** The tasks held by the nodes of `t`, one occurrence per node. */
  function Elements(t: Tree): multiset<Task> {
    match t
    case Leaf => multiset{}
    case Node(l, x, r) => Elements(l) + multiset{x} + Elements(r)
  }

  /** The search-tree ordering: left-subtree priorities are smaller, right-subtree ones not smaller. */
  ghost predicate IsBST(t: Tree) {
    match t
    case Leaf => true
    case Node(l, x, r) =>
      IsBST(l) && IsBST(r) &&
      (forall y | y in Elements(l) :: y.priority < x.priority) &&
      (forall y | y in Elements(r) :: x.priority <= y.priority)
  }

  /** Every node of `t` holds a priority in 1..3. */
  ghost predicate AllValidTree(t: Tree) {
    forall y | y in Elements(t) :: ValidPriority(y.priority)
  }

  lemma {:induction false} SizeCountsNodes(t: Tree)
    ensures |Elements(t)| == Size(t)
  {
    match t
    case Leaf =>
    case Node(l, _, r) =>
      SizeCountsNodes(l);
      SizeCountsNodes(r);
  }

  // ----------------------------------------------------------------------
  // Insertion

  /**
   Reference definition of insertion: descend left on a strictly smaller
   priority, right otherwise, and hang a new leaf node at the first empty slot.
   */
  function Insert(t: Tree, task: Task): Tree {
    match t
    case Leaf => Node(Leaf, task, Leaf)
    case Node(l, x, r) =>
      if task.priority < x.priority then Node(Insert(l, task), x, r)
      else Node(l, x, Insert(r, task))
  }

  /** Insertion adds exactly one node, holding `task`, and removes none. */
  lemma {:induction false} InsertElements(t: Tree, task: Task)
    ensures Elements(Insert(t, task)) == Elements(t) + multiset{task}
  {
    match t
    case Leaf =>
    case Node(l, x, r) =>
      if task.priority < x.priority {
        InsertElements(l, task);
        assert Insert(t, task) == Node(Insert(l, task), x, r);
      } else {
        InsertElements(r, task);
        assert Insert(t, task) == Node(l, x, Insert(r, task));
      }
  }

  lemma {:induction false} InsertSize(t: Tree, task: Task)
    ensures Size(Insert(t, task)) == Size(t) + 1
  {
    match t
    case Leaf =>
    case Node(l, x, r) =>
      if task.priority < x.priority {
        InsertSize(l, task);
      } else {
        InsertSize(r, task);
      }
  }

  /** Insertion keeps the search-tree ordering. */
  lemma {:induction false} InsertKeepsOrder(t: Tree, task: Task)
    requires IsBST(t)
    ensures IsBST(Insert(t, task))
  {
    match t
    case Leaf =>
    case Node(l, x, r) =>
      if task.priority < x.priority {
        InsertKeepsOrder(l, task);
        InsertElements(l, task);
        forall y | y in Elements(Insert(l, task)) ensures y.priority < x.priority {
          assert y in Elements(l) || y == task;
        }
        assert Insert(t, task) == Node(Insert(l, task), x, r);
      } else {
        InsertKeepsOrder(r, task);
        InsertElements(r, task);
        forall y | y in Elements(Insert(r, task)) ensures x.priority <= y.priority {
          assert y in Elements(r) || y == task;
        }
        assert Insert(t, task) == Node(l, x, Insert(r, task));
      }
  }

  /** Insertion keeps every priority of the tree in 1..3 when the new one is. */
  lemma InsertKeepsValid(t: Tree, task: Task)
    requires AllValidTree(t) && ValidPriority(task.priority)
    ensures AllValidTree(Insert(t, task))
  {
    InsertElements(t, task);
  }

  /** A step of the descent: which child pointer the loop follows. */
  datatype Dir = GoLeft | GoRight

  /** The subtree the pointer-to-pointer `current` designates after following `path`. */
  function Subtree(t: Tree, path: seq<Dir>): Tree {
    if path == [] then t
    else match t
      case Leaf => Leaf
      case Node(l, _, r) => Subtree(if path[0] == GoLeft then l else r, path[1..])
  }

  /** `t` with the subtree designated by `path` replaced by `s`: the store through `*current`. */
  function Graft(t: Tree, path: seq<Dir>, s: Tree): Tree {
    if path == [] then s
    else match t
      case Leaf => Leaf
      case Node(l, x, r) =>
        if path[0] == GoLeft then Node(Graft(l, path[1..], s), x, r)
        else Node(l, x, Graft(r, path[1..], s))
  }

  /** Node `n` with its child on side `d` replaced by `s`. */
  function WithChild(n: Tree, d: Dir, s: Tree): Tree
    requires n.Node?
  {
    if d == GoLeft then Node(s, n.task, n.right) else Node(n.left, n.task, s)
  }

  lemma {:induction false} SubtreeStep(t: Tree, path: seq<Dir>, d: Dir)
    requires Subtree(t, path).Node?
    ensures Subtree(t, path + [d]) ==
      (if d == GoLeft then Subtree(t, path).left else Subtree(t, path).right)
  {
    if path == [] {
      assert [d][1..] == [];
    } else {
      assert (path + [d])[1..] == path[1..] + [d];
      match t
      case Leaf =>
      case Node(l, _, r) =>
        SubtreeStep(if path[0] == GoLeft then l else r, path[1..], d);
    }
  }

  lemma {:induction false} GraftStep(t: Tree, path: seq<Dir>, d: Dir, s: Tree)
    requires Subtree(t, path).Node?
    ensures Graft(t, path, WithChild(Subtree(t, path), d, s)) == Graft(t, path + [d], s)
  {
    if path == [] {
      assert [d][1..] == [];
    } else {
      assert (path + [d])[1..] == path[1..] + [d];
      match t
      case Leaf =>
      case Node(l, _, r) =>
        GraftStep(if path[0] == GoLeft then l else r, path[1..], d, s);
    }
  }

  /**
   `insertBST`: walk a cursor from the root, left on a strictly smaller
   priority and right otherwise, until it designates an empty slot, and
   store a new node there.
   */
  method InsertBST(root: Tree, task: Task) returns (r: Tree)
    ensures r == Insert(root, task)
    ensures Elements(r) == Elements(root) + multiset{task}
    ensures Size(r) == Size(root) + 1
    ensures IsBST(root) ==> IsBST(r)
  {
    var path: seq<Dir> := [];
    var current := root;
    while current.Node?
      invariant current == Subtree(root, path)
      invariant Insert(root, task) == Graft(root, path, Insert(current, task))
      decreases current
    {
      if task.priority < current.task.priority {
        GraftStep(root, path, GoLeft, Insert(current.left, task));
        SubtreeStep(root, path, GoLeft);
        path := path + [GoLeft];
        current := current.left;
      } else {
        GraftStep(root, path, GoRight, Insert(current.right, task));
        SubtreeStep(root, path, GoRight);
        path := path + [GoRight];
        current := current.right;
      }
    }
    r := Graft(root, path, Node(Leaf, task, Leaf));
    InsertElements(root, task);
    InsertSize(root, task);
    if IsBST(root) {
      InsertKeepsOrder(root, task);
    }
  }

  // ----------------------------------------------------------------------
  // Level-order report

  /** The tasks of the nodes at depth `d` (the root is at depth 0), from left to right. */
  function AtDepth(t: Tree, d: nat): seq<Task> {
    match t
    case Leaf => []
    case Node(l, x, r) => if d == 0 then [x] else AtDepth(l, d - 1) + AtDepth(r, d - 1)
  }

  /** The level-order report: one line per level, top to bottom, each left to right. */
  function Levels(t: Tree): seq<seq<Task>> {
    seq(Height(t), d requires 0 <= d => AtDepth(t, d))
  }

  /** Concatenation of the lines of a report, in order. */
  function Flatten(ss: seq<seq<Task>>): seq<Task> {
    if ss == [] then [] else Flatten(ss[..|ss| - 1]) + ss[|ss| - 1]
  }

  /** Every level the report holds is non-empty, and below the last one there is none. */
  lemma {:induction false} AtDepthNonEmpty(t: Tree, d: nat)
    ensures AtDepth(t, d) != [] <==> d < Height(t)
  {
    match t
    case Leaf =>
    case Node(l, _, r) =>
      if d > 0 {
        AtDepthNonEmpty(l, d - 1);
        AtDepthNonEmpty(r, d - 1);
      }
  }

  /** The multiset of the tasks on levels 0 .. n-1. */
  function UpToDepth(t: Tree, n: nat): multiset<Task> {
    if n == 0 then multiset{} else UpToDepth(t, n - 1) + multiset(AtDepth(t, n - 1))
  }

  lemma {:induction false} UpToDepthNode(l: Tree, x: Task, r: Tree, n: nat)
    ensures UpToDepth(Node(l, x, r), n + 1) == multiset{x} + UpToDepth(l, n) + UpToDepth(r, n)
  {
    var t := Node(l, x, r);
    if n == 0 {
      assert AtDepth(t, 0) == [x];
    } else {
      var k := n - 1;
      assert n == k + 1;
      UpToDepthNode(l, x, r, k);
      var al, ar := AtDepth(l, k), AtDepth(r, k);
      assert AtDepth(t, n) == al + ar;
      assert multiset(al + ar) == multiset(al) + multiset(ar);
      assert UpToDepth(l, n) == UpToDepth(l, k) + multiset(al);
      assert UpToDepth(r, n) == UpToDepth(r, k) + multiset(ar);
      Interleave(multiset{x}, UpToDepth(l, k), UpToDepth(r, k), multiset(al), multiset(ar));
    }
  }

  lemma Interleave<T>(x: multiset<T>, a: multiset<T>, b: multiset<T>, c: multiset<T>, d: multiset<T>)
    ensures x + a + b + (c + d) == x + (a + c) + (b + d)
  {
  }

  lemma {:induction false} UpToDepthAll(t: Tree, n: nat)
    requires Height(t) <= n
    ensures UpToDepth(t, n) == Elements(t)
  {
    match t
    case Leaf =>
      if n > 0 {
        UpToDepthAll(t, n - 1);
      }
    case Node(l, x, r) =>
      var m := n - 1;
      assert n == m + 1;
      UpToDepthNode(l, x, r, m);
      UpToDepthAll(l, m);
      UpToDepthAll(r, m);
      assert UpToDepth(t, n) == multiset{x} + UpToDepth(l, m) + UpToDepth(r, m);
      assert Elements(t) == Elements(l) + multiset{x} + Elements(r);
  }

  lemma {:induction false} FlattenPrefix(t: Tree, n: nat)
    requires n <= Height(t)
    ensures multiset(Flatten(Levels(t)[..n])) == UpToDepth(t, n)
  {
    if n > 0 {
      FlattenPrefix(t, n - 1);
      assert Levels(t)[..n][..n - 1] == Levels(t)[..n - 1];
    }
  }

  /** The level-order report lists every node of the tree exactly once. */
  lemma LevelsVisitEachNodeOnce(t: Tree)
    ensures multiset(Flatten(Levels(t))) == Elements(t)
    ensures |Flatten(Levels(t))| == Size(t)
  {
    FlattenPrefix(t, Height(t));
    assert Levels(t)[..Height(t)] == Levels(t);
    UpToDepthAll(t, Height(t));
    SizeCountsNodes(t);
  }

  // Forests: the subtrees rooted at one depth, which the breadth-first queue holds.

  /** The non-empty subtrees rooted at depth `d`, from left to right. */
  function SubtreesAt(t: Tree, d: nat): seq<Tree> {
    match t
    case Leaf => []
    case Node(l, _, r) => if d == 0 then [t] else SubtreesAt(l, d - 1) + SubtreesAt(r, d - 1)
  }

  /** The children of a node that the loop enqueues: the non-empty ones, left first. */
  function Kids(t: Tree): seq<Tree> {
    match t
    case Leaf => []
    case Node(l, _, r) => (if l.Node? then [l] else []) + (if r.Node? then [r] else [])
  }

  function Children(f: seq<Tree>): seq<Tree> {
    if f == [] then [] else Children(f[..|f| - 1]) + Kids(f[|f| - 1])
  }

  function Roots(f: seq<Tree>): seq<Task> {
    if f == [] then []
    else Roots(f[..|f| - 1]) + (if f[|f| - 1].Node? then [f[|f| - 1].task] else [])
  }

  lemma ConcatAssoc<T>(x: seq<T>, y: seq<T>, z: seq<T>)
    ensures (x + y) + z == x + (y + z)
  {
  }

  lemma DropLastAppend<T>(a: seq<T>, b: seq<T>)
    requires b != []
    ensures (a + b)[..|a + b| - 1] == a + b[..|b| - 1] && (a + b)[|a + b| - 1] == b[|b| - 1]
  {
  }

  lemma ChildrenLast(f: seq<Tree>)
    requires f != []
    ensures Children(f) == Children(f[..|f| - 1]) + Kids(f[|f| - 1])
  {
  }

  lemma {:induction false} ChildrenAppend(a: seq<Tree>, b: seq<Tree>)
    ensures Children(a + b) == Children(a) + Children(b)
  {
    if b == [] {
      assert a + b == a;
    } else {
      var b', last := b[..|b| - 1], b[|b| - 1];
      assert Children(a + b) == Children(a + b') + Kids(last) by {
        DropLastAppend(a, b);
        ChildrenLast(a + b);
      }
      assert Children(b) == Children(b') + Kids(last) by {
        ChildrenLast(b);
      }
      ChildrenAppend(a, b');
      ConcatAssoc(Children(a), Children(b'), Kids(last));
    }
  }

  lemma {:induction false} RootsAppend(a: seq<Tree>, b: seq<Tree>)
    ensures Roots(a + b) == Roots(a) + Roots(b)
  {
    if b == [] {
      assert a + b == a;
    } else {
      var b', last, ab := b[..|b| - 1], b[|b| - 1], a + b;
      assert ab != [] && ab[..|ab| - 1] == a + b' && ab[|ab| - 1] == last;
      var top := if last.Node? then [last.task] else [];
      assert Roots(ab) == Roots(ab[..|ab| - 1]) + top;
      RootsAppend(a, b');
      assert Roots(b) == Roots(b') + top;
    }
  }

  predicate AllNodes(f: seq<Tree>) {
    forall i :: 0 <= i < |f| ==> f[i].Node?
  }

  lemma {:induction false} SubtreesAreNodes(t: Tree, d: nat)
    ensures AllNodes(SubtreesAt(t, d))
  {
    match t
    case Leaf =>
    case Node(l, _, r) =>
      if d > 0 {
        SubtreesAreNodes(l, d - 1);
        SubtreesAreNodes(r, d - 1);
      }
  }

  /** The children of the depth-d subtrees are the depth-(d+1) subtrees, in order. */
  lemma {:induction false} SubtreesChildren(t: Tree, d: nat)
    ensures Children(SubtreesAt(t, d)) == SubtreesAt(t, d + 1)
  {
    match t
    case Leaf =>
    case Node(l, _, r) =>
      if d == 0 {
        assert [t][..0] == [];
        assert Children([t]) == Children([]) + Kids(t);
        assert SubtreesAt(t, 1) == SubtreesAt(l, 0) + SubtreesAt(r, 0);
      } else {
        var m := d - 1;
        assert d == m + 1;
        assert SubtreesAt(t, d) == SubtreesAt(l, m) + SubtreesAt(r, m);
        ChildrenAppend(SubtreesAt(l, m), SubtreesAt(r, m));
        SubtreesChildren(l, m);
        SubtreesChildren(r, m);
        assert SubtreesAt(t, d + 1) == SubtreesAt(l, d) + SubtreesAt(r, d);
      }
  }

  lemma {:induction false} SubtreesRoots(t: Tree, d: nat)
    ensures Roots(SubtreesAt(t, d)) == AtDepth(t, d)
  {
    match t
    case Leaf =>
    case Node(l, _, r) =>
      if d == 0 {
        assert [t][..0] == [];
      } else {
        var m := d - 1;
        assert d == m + 1;
        assert SubtreesAt(t, d) == SubtreesAt(l, m) + SubtreesAt(r, m);
        RootsAppend(SubtreesAt(l, m), SubtreesAt(r, m));
        SubtreesRoots(l, m);
        SubtreesRoots(r, m);
      }
  }

  lemma {:induction false} SubtreesNonEmpty(t: Tree, d: nat)
    ensures SubtreesAt(t, d) != [] <==> d < Height(t)
  {
    match t
    case Leaf =>
    case Node(l, _, r) =>
      if d > 0 {
        SubtreesNonEmpty(l, d - 1);
        SubtreesNonEmpty(r, d - 1);
      }
  }

  lemma PrefixStep<T>(f: seq<T>, p: nat)
    requires p < |f|
    ensures f[..p + 1][..p] == f[..p] && f[..p + 1][p] == f[p]
  {
  }

  lemma {:induction false} ChildrenStep(f: seq<Tree>, p: nat)
    requires p < |f|
    ensures Children(f[..p + 1]) == Children(f[..p]) + Kids(f[p])
  {
    PrefixStep(f, p);
  }

  lemma {:induction false} RootsStep(f: seq<Tree>, p: nat)
    requires p < |f| && f[p].Node?
    ensures Roots(f[..p + 1]) == Roots(f[..p]) + [f[p].task]
  {
    PrefixStep(f, p);
  }

  /** Taking the front of the queue: the next subtree of the level, the rest unchanged. */
  lemma DropFront(q: seq<Tree>, front: nat, f: seq<Tree>, p: nat, c: seq<Tree>)
    requires front <= |q| && p < |f| && q[front..] == f[p..] + c
    ensures front < |q| && q[front] == f[p] && q[front + 1..] == f[p + 1..] + c
  {
    assert q[front..][0] == f[p..][0];
    assert q[front + 1..] == q[front..][1..];
    assert f[p + 1..] == f[p..][1..];
  }

  /**
   One line of the report is complete: the subtrees of the next depth are
   exactly the children enqueued while the line was written.
   */
  lemma {:induction false} LevelComplete(root: Tree, d: nat, line: seq<Task>)
    requires d < Height(root) && line == Roots(SubtreesAt(root, d))
    ensures Children(SubtreesAt(root, d)) == SubtreesAt(root, d + 1)
    ensures Levels(root)[..d + 1] == Levels(root)[..d] + [line]
    ensures SubtreesAt(root, d + 1) != [] <==> d + 1 < Height(root)
    ensures AllNodes(SubtreesAt(root, d + 1))
  {
    SubtreesChildren(root, d);
    SubtreesRoots(root, d);
    SubtreesNonEmpty(root, d + 1);
    SubtreesAreNodes(root, d + 1);
    assert Levels(root)[d] == AtDepth(root, d);
  }

  /**
   The state of the breadth-first walk while a node is being processed: the
   report holds the finished levels above depth `level - 1` and the current
   line; the queue from `front` on holds the rest of the current level
   followed by the children of its processed nodes.
   */
  ghost predicate Walking(root: Tree, queue: seq<Tree>, front: int, level: int, current: int,
                          next: int, finished: seq<seq<Task>>, line: seq<Task>, forest: seq<Tree>, p: int)
  {
    1 <= level <= Height(root) &&
    forest == SubtreesAt(root, level - 1) && forest != [] && AllNodes(forest) &&
    0 <= p <= |forest| && current == |forest| - p &&
    0 <= front <= |queue| &&
    queue[front..] == forest[p..] + Children(forest[..p]) &&
    next == |Children(forest[..p])| &&
    finished == Levels(root)[..level - 1] &&
    line == Roots(forest[..p])
  }

  /** The loop invariant: `Walking`, and a used-up level is never left with a non-empty next one. */
  ghost predicate BfsInvariant(root: Tree, queue: seq<Tree>, front: int, level: int, current: int,
                               next: int, finished: seq<seq<Task>>, line: seq<Task>, forest: seq<Tree>, p: int)
  {
    Walking(root, queue, front, level, current, next, finished, line, forest, p) &&
    (current == 0 ==> next == 0)
  }

  /** The queue after the front is taken and its children are appended at the rear. */
  lemma QueueStep(queue: seq<Tree>, front: int, forest: seq<Tree>, p: int, k: seq<Tree>)
    requires 0 <= front <= |queue| && 0 <= p < |forest|
    requires queue[front..] == forest[p..] + Children(forest[..p]) && k == Kids(forest[p])
    ensures front < |queue| && queue[front] == forest[p]
    ensures (queue + k)[front + 1..] == forest[p + 1..] + Children(forest[..p + 1])
    ensures |Children(forest[..p + 1])| == |Children(forest[..p])| + |k|
  {
    var c := Children(forest[..p]);
    DropFront(queue, front, forest, p, c);
    ChildrenStep(forest, p);
    calc {
      (queue + k)[front + 1..];
      queue[front + 1..] + k;
      (forest[p + 1..] + c) + k;
      forest[p + 1..] + (c + k);
    }
  }

  /** Processing the front node: report it and enqueue its non-empty children. */
  lemma ProcessFront(root: Tree, queue: seq<Tree>, front: int, level: int, current: int,
                     next: int, finished: seq<seq<Task>>, line: seq<Task>, forest: seq<Tree>, p: int)
    requires BfsInvariant(root, queue, front, level, current, next, finished, line, forest, p)
    requires front < |queue|
    ensures p < |forest| && queue[front] == forest[p] && queue[front].Node?
    ensures Walking(root, queue + Kids(queue[front]), front + 1, level, current - 1,
                    next + |Kids(queue[front])|, finished, line + [queue[front].task], forest, p + 1)
  {
    QueueStep(queue, front, forest, p, Kids(forest[p]));
    RootsStep(forest, p);
  }

  /** The front of the queue is the next unprocessed subtree of the current level, a node. */
  lemma FrontNode(root: Tree, queue: seq<Tree>, front: int, level: int, current: int,
                  next: int, finished: seq<seq<Task>>, line: seq<Task>, forest: seq<Tree>, p: int)
    requires BfsInvariant(root, queue, front, level, current, next, finished, line, forest, p)
    requires front < |queue|
    ensures p < |forest| && queue[front] == forest[p] && queue[front].Node?
  {
    ProcessFront(root, queue, front, level, current, next, finished, line, forest, p);
  }

  /** The state once the front node is reported and its non-empty children are enqueued. */
  lemma Processed(root: Tree, queue: seq<Tree>, front: int, level: int, current: int,
                  next: int, finished: seq<seq<Task>>, line: seq<Task>, forest: seq<Tree>, p: int,
                  queue': seq<Tree>, front': int, current': int, next': int, line': seq<Task>, p': int)
    requires BfsInvariant(root, queue, front, level, current, next, finished, line, forest, p)
    requires front < |queue| && queue' == queue + Kids(queue[front]) && next' == next + |Kids(queue[front])|
    requires front' == front + 1 && current' == current - 1 && line' == line + [queue[front].task] && p' == p + 1
    ensures Walking(root, queue', front', level, current', next', finished, line', forest, p')
  {
    ProcessFront(root, queue, front, level, current, next, finished, line, forest, p);
  }

  /** The current level is used up and the next is not empty: start a new line. */
  lemma NextLevel(root: Tree, queue: seq<Tree>, front: int, level: int,
                  next: int, finished: seq<seq<Task>>, line: seq<Task>, forest: seq<Tree>, p: int)
    requires Walking(root, queue, front, level, 0, next, finished, line, forest, p) && next > 0
    ensures BfsInvariant(root, queue, front, level + 1, next, 0, finished + [line], [],
                         SubtreesAt(root, level), 0)
  {
    assert forest[..p] == forest;
    LevelComplete(root, level - 1, line);
    var f' := SubtreesAt(root, level);
    assert f'[..0] == [] && f'[0..] == f';
  }

  /** The queue is empty: the finished lines and the current one are the whole report. */
  lemma Finish(root: Tree, queue: seq<Tree>, front: int, level: int, current: int,
               next: int, finished: seq<seq<Task>>, line: seq<Task>, forest: seq<Tree>, p: int)
    requires BfsInvariant(root, queue, front, level, current, next, finished, line, forest, p)
    requires |queue| <= front
    ensures finished + [line] == Levels(root)
  {
    assert forest[..p] == forest;
    LevelComplete(root, level - 1, line);
    assert Levels(root)[..level] == Levels(root);
  }

  /**
   `displayBST_BFS`: a breadth-first walk with a queue and the counters
   `nodesInCurrentLevel` and `nodesInNextLevel`; a new report line starts
   only when the current level is used up and the next one is non-empty.
   The result is the report, one line per level; the empty tree gives none.
   */
  method LevelOrder(root: Tree) returns (report: seq<seq<Task>>)
    ensures report == Levels(root)
  {
    if root.Leaf? {
      return [];
    }
    var queue: seq<Tree> := [root];
    var front := 0;
    var level := 1;
    var nodesInCurrentLevel := 1;
    var nodesInNextLevel := 0;
    var finished: seq<seq<Task>> := [];
    var line: seq<Task> := [];
    ghost var forest := SubtreesAt(root, 0);
    ghost var p := 0;
    assert forest == [root] && forest[..0] == [];
    while front < |queue|
      invariant BfsInvariant(root, queue, front, level, nodesInCurrentLevel, nodesInNextLevel,
                             finished, line, forest, p)
      decreases Height(root) - level, nodesInCurrentLevel
    {
      FrontNode(root, queue, front, level, nodesInCurrentLevel, nodesInNextLevel,
                finished, line, forest, p);
      ghost var queue0, front0, current0, next0, line0, p0 :=
        queue, front, nodesInCurrentLevel, nodesInNextLevel, line, p;
      var node := queue[front];
      front := front + 1;
      nodesInCurrentLevel := nodesInCurrentLevel - 1;
      line := line + [node.task];
      if node.left.Node? {
        queue := queue + [node.left];
        nodesInNextLevel := nodesInNextLevel + 1;
      }
      if node.right.Node? {
        queue := queue + [node.right];
        nodesInNextLevel := nodesInNextLevel + 1;
      }
      p := p + 1;
      Processed(root, queue0, front0, level, current0, next0, finished, line0, forest, p0,
                queue, front, nodesInCurrentLevel, nodesInNextLevel, line, p);
      if nodesInCurrentLevel == 0 && nodesInNextLevel > 0 {
        NextLevel(root, queue, front, level, nodesInNextLevel, finished, line, forest, p);
        finished := finished + [line];
        line := [];
        level := level + 1;
        nodesInCurrentLevel := nodesInNextLevel;
        nodesInNextLevel := 0;
        forest := SubtreesAt(root, level - 1);
        p := 0;
      }
    }
    Finish(root, queue, front, level, nodesInCurrentLevel, nodesInNextLevel, finished, line, forest, p);
    report := finished + [line];
  }
}
